/** The tag tables of a TagFS image, filled by `find_or_create_tag` and `link_tag_to_file`
    (tagfs/tfsfmt/src/tfsfmt.c, lines 50-95), and the layout of the image's sections
    (tagfs/utils.c, lines 52-100). */
module TagTables {

  // ---------------------------------------------------------------------------
  // Layout

  // Section sizes in sectors, in the order of the image after its first sector.
  datatype Layout = Layout(ss: nat, fileMeta: nat, tagMeta: nat, tagFile: nat, fat: nat, data: nat)

  datatype Section = FileMeta | TagMeta | TagFile | Fat | Data

  /** The first sector of a section: `get_file_metadata` to `get_data`. */
  function First(l: Layout, s: Section): nat {
    match s
    case FileMeta => 1
    case TagMeta => 1 + l.fileMeta
    case TagFile => 1 + l.fileMeta + l.tagMeta
    case Fat => 1 + l.fileMeta + l.tagMeta + l.tagFile
    case Data => 1 + l.fileMeta + l.tagMeta + l.tagFile + l.fat
  }

  function Sectors(l: Layout, s: Section): nat {
    match s
    case FileMeta => l.fileMeta
    case TagMeta => l.tagMeta
    case TagFile => l.tagFile
    case Fat => l.fat
    case Data => l.data
  }

  function EntrySize(l: Layout, s: Section): nat {
    match s
    case FileMeta => 32
    case TagMeta => 32
    case TagFile => 4
    case Fat => 2
    case Data => l.ss
  }

  /** How many entries the code finds in a section. */
  function Count(l: Layout, s: Section): nat
    requires l.ss > 0
  {
    Sectors(l, s) * l.ss / EntrySize(l, s)
  }

  function Address(l: Layout, s: Section, i: nat): nat {
    First(l, s) * l.ss + i * EntrySize(l, s)
  }

  /** An entry lies inside its section. */
  lemma Contained(l: Layout, s: Section, i: nat)
    requires l.ss > 0 && i < Count(l, s)
    ensures First(l, s) * l.ss <= Address(l, s, i)
    ensures Address(l, s, i) + EntrySize(l, s) <= (First(l, s) + Sectors(l, s)) * l.ss
  {
    var e, n := EntrySize(l, s), Sectors(l, s) * l.ss;
    RoundDown(n, e, i);
    Distributes(First(l, s), Sectors(l, s), l.ss);
  }

  lemma RoundDown(n: nat, e: nat, i: nat)
    requires e > 0 && i < n / e
    ensures i * e + e <= n
  {
    assert n / e * e <= n;
    Ordered(i + 1, n / e, e);
  }

  lemma Ordered(x: nat, y: nat, e: nat)
    requires x <= y
    ensures x * e <= y * e
  {
  }

  lemma Distributes(x: nat, y: nat, z: nat)
    ensures (x + y) * z == x * z + y * z
  {
  }

  /** No two entries of the image overlap, in one section or in two, and none touches the first sector. */
  lemma EntriesApart(l: Layout, s: Section, i: nat, t: Section, j: nat)
    requires l.ss > 0 && i < Count(l, s) && j < Count(l, t) && (s != t || i != j)
    ensures l.ss <= Address(l, s, i)
    ensures Address(l, s, i) + EntrySize(l, s) <= Address(l, t, j) || Address(l, t, j) + EntrySize(l, t) <= Address(l, s, i)
  {
    Contained(l, s, i);
    Contained(l, t, j);
    Ordered(1, First(l, s), l.ss);
    if s == t {
      var x, y := if i < j then i else j, if i < j then j else i;
      Ordered(x + 1, y, EntrySize(l, s));
      Distributes(x, 1, EntrySize(l, s));
    } else if First(l, s) + Sectors(l, s) <= First(l, t) {
      Ordered(First(l, s) + Sectors(l, s), First(l, t), l.ss);
    } else {
      Ordered(First(l, t) + Sectors(l, t), First(l, s), l.ss);
    }
  }

  // ---------------------------------------------------------------------------
  // Tags

  // tag_id 0 marks a free entry.
  datatype Link = Link(tag: nat, file: nat)

  function FirstTag(names: seq<string>, name: string): (i: nat)
    ensures i <= |names| && (i < |names| ==> names[i] == name)
    ensures forall k :: 0 <= k < i ==> names[k] != name
  {
    if names == [] || names[0] == name then 0 else 1 + FirstTag(names[1..], name)
  }

  lemma FirstTagIs(names: seq<string>, name: string, i: nat)
    requires i <= |names| && (i < |names| ==> names[i] == name)
    requires forall k :: 0 <= k < i ==> names[k] != name
    ensures FirstTag(names, name) == i
  {
    assert FirstTag(names, name) >= i;
  }

  /** No tag has two entries. */
  ghost predicate Unique(names: seq<string>) {
    forall i, j :: 0 <= i < j < |names| && names[i] != "" ==> names[i] != names[j]
  }

  /** The table and the id after looking a name up, and making it if need be. */
  function Resolved(names: seq<string>, name: string): (seq<string>, nat) {
    var i, j := FirstTag(names, name), FirstTag(names, "");
    if i < |names| then (names, i + 1)
    else if j < |names| then (names[j := name], j + 1)
    else (names, 0)
  }

  /** The id belongs to a tag exactly when the name is not empty. */
  lemma NamesATag(names: seq<string>, name: string)
    ensures var (after, id) := Resolved(names, name);
            id > 0 ==> id <= |after| && (after[id - 1] != "" <==> name != "")
  {
  }

  /** The id given for the empty name is the one that the next new tag gets, so a link stored under it
      becomes that tag's. */
  lemma EmptyNameInherited(names: seq<string>, name: string)
    requires name != "" && FirstTag(names, name) == |names| && FirstTag(names, "") < |names|
    ensures Resolved(names, "").0 == names && Resolved(names, "").1 == Resolved(names, name).1 > 0
    ensures Resolved(names, name).0[Resolved(names, "").1 - 1] == name
  {
  }

  /** The used entries come first and no link is stored twice. */
  ghost predicate LinksOk(links: seq<Link>, used: nat) {
    && used <= |links|
    && (forall i :: 0 <= i < |links| ==> (links[i].tag != 0 <==> i < used))
    && (forall i, j :: 0 <= i < j < used ==> links[i] != links[j])
  }

  ghost predicate Linked(links: seq<Link>, l: Link) {
    exists i :: 0 <= i < |links| && links[i] == l
  }

  class Tables {
    const names: array<string>
    const links: array<Link>
    ghost var used: nat

    ghost predicate Valid()
      reads this, names, links
    {
      names.Length <= 0xffff && Unique(names[..]) && LinksOk(links[..], used)
    }

    /** `find_or_create_tag`: the id of the tag's one entry, made if there was none; 0 when the table is
        full. Tags keep their ids. The empty name, which the callers let through, is no tag: it is found
        in the first free entry and nothing is made. */
    method FindOrCreateTag(name: string) returns (id: nat)
      requires Valid()
      modifies names
      ensures Valid() && links[..] == old(links[..])
      ensures (names[..], id) == Resolved(old(names[..]), name)
      ensures id == 0 <==> old(FirstTag(names[..], name)) == names.Length && old(FirstTag(names[..], "")) == names.Length
      ensures id > 0 ==> id <= names.Length && names[id - 1] == name
      ensures name != "" ==> forall i :: 0 <= i < names.Length ==> (names[i] == name <==> i == id - 1)
      ensures forall i :: 0 <= i < names.Length && old(names[i]) != "" ==> names[i] == old(names[i])
      ensures forall i :: 0 <= i < names.Length && names[i] != old(names[i]) ==> i == id - 1 == old(FirstTag(names[..], ""))
    {
      var i := Search(name);
      if i < names.Length { return i + 1; }
      var j := Search("");
      if j == names.Length { return 0; }
      assert forall k :: 0 <= k < names.Length ==> names[..][k] != name;
      ghost var before := names[..];
      names[j] := name;
      assert names[..] == before[j := name];
      id := j + 1;
    }

    method Search(name: string) returns (i: nat)
      ensures i == FirstTag(names[..], name)
    {
      i := 0;
      while i < names.Length && names[i] != name
        invariant i <= names.Length
        invariant forall k :: 0 <= k < i ==> names[k] != name
      {
        i := i + 1;
      }
      FirstTagIs(names[..], name, i);
    }

    /** `link_tag_to_file`: afterwards the pair is linked, every earlier link still is and no other; it
        fails, changing nothing, exactly when the pair is new and the map is full. */
    method LinkTag(tag: nat, file: nat) returns (ok: bool)
      requires Valid() && tag > 0
      modifies links, this`used
      ensures Valid() && names[..] == old(names[..])
      ensures ok <==> old(Linked(links[..], Link(tag, file))) || old(used) < links.Length
      ensures !ok ==> links[..] == old(links[..])
      ensures ok ==> forall l: Link :: l.tag > 0 ==> (Linked(links[..], l) <==> l == Link(tag, file) || old(Linked(links[..], l)))
    {
      var i: nat := 0;
      while i < links.Length
        invariant i <= links.Length
        invariant forall k :: 0 <= k < i ==> links[k] != Link(tag, file)
      {
        if links[i] == Link(tag, file) {
          assert links[..][i] == Link(tag, file);
          return true;
        }
        i := i + 1;
      }
      ghost var before := links[..];
      assert forall k :: 0 <= k < |before| ==> before[k] != Link(tag, file);
      i := 0;
      while i < links.Length
        invariant i <= used
      {
        assert links[..][i] == links[i];
        if links[i].tag == 0 {
          links[i] := Link(tag, file);
          used := used + 1;
          assert links[..] == before[i := Link(tag, file)];
          LinkedAfter(before, i, Link(tag, file));
          return true;
        }
        i := i + 1;
      }
      ok := false;
    }
  }

  lemma LinkedAfter(links: seq<Link>, i: nat, l: Link)
    requires i < |links| && links[i].tag == 0 && l.tag > 0
    ensures forall m: Link :: m.tag > 0 ==> (Linked(links[i := l], m) <==> m == l || Linked(links, m))
  {
    var after := links[i := l];
    forall m: Link | m.tag > 0
      ensures Linked(after, m) <==> m == l || Linked(links, m)
    {
      assert after[i] == l;
      if Linked(links, m) {
        var k :| 0 <= k < |links| && links[k] == m;
        assert after[k] == m;
      }
    }
  }
}
