/** Printing and parsing of path names: `add_name`, the path built by `try_get_path`, and
    `lookup_path_in_cache` (tagfs/FUSE_driver/libfuse/lib/fuse.c, lines 909-970 and 993-1063). */
module PathNames {
  import opened Options
  import opened Forest
  import opened TreeLocks

  const UINT_MAX: nat := 0xffff_ffff

  // A path component as the kernel passes it.
  predicate GoodName(name: string) {
    name != "" && '/' !in name
  }

  /** The names from the top of the tree down to `n`. */
  ghost function NamesTo(t: Tree, n: Id): seq<string>
    requires Ranks(t.links, t.rank)
    decreases t.rank(n)
  {
    if n in t.links then NamesTo(t, t.links[n].parent) + [t.links[n].name] else []
  }

  /** Each name after a slash. */
  function Join(names: seq<string>): string {
    if names == [] then "" else Join(names[..|names| - 1]) + "/" + names[|names| - 1]
  }

  // ---------------------------------------------------------------------------
  // Parsing, as strtok_r() does it

  function SkipSlashes(p: string): (q: string)
    ensures |q| <= |p| && (q != "" ==> q[0] != '/')
  {
    if p != "" && p[0] == '/' then SkipSlashes(p[1..]) else p
  }

  function TokenLen(p: string): (k: nat)
    ensures k <= |p| && '/' !in p[..k] && (k < |p| ==> p[k] == '/')
  {
    if p == "" || p[0] == '/' then 0
    else
      var k := TokenLen(p[1..]);
      assert p[..k + 1] == [p[0]] + p[1..][..k];
      k + 1
  }

  function Tokens(p: string): seq<string>
    decreases |p|
  {
    var q := SkipSlashes(p);
    if q == "" then []
    else
      var k := TokenLen(q);
      [q[..k]] + Tokens(q[k..])
  }

  /** Follow names downward through the name table. */
  function Resolve(names: map<Link, Id>, n: Id, path: seq<string>): Option<Id>
    decreases |path|
  {
    if path == [] then Some(n)
    else if Link(n, path[0]) in names then Resolve(names, names[Link(n, path[0])], path[1..])
    else None
  }

  lemma {:induction false} SkipPrefix(p: string, tail: string)
    requires SkipSlashes(p) != ""
    ensures SkipSlashes(p + tail) == SkipSlashes(p) + tail
  {
    if p[0] == '/' {
      assert (p + tail)[1..] == p[1..] + tail;
      SkipPrefix(p[1..], tail);
    }
  }

  lemma {:induction false} SkipAll(p: string, tail: string)
    requires SkipSlashes(p) == ""
    ensures SkipSlashes(p + tail) == SkipSlashes(tail)
  {
    if p == "" {
      assert p + tail == tail;
    } else {
      assert (p + tail)[1..] == p[1..] + tail;
      SkipAll(p[1..], tail);
    }
  }

  lemma {:induction false} TokenLenIs(p: string, k: nat)
    requires k <= |p| && '/' !in p[..k] && (k < |p| ==> p[k] == '/')
    ensures TokenLen(p) == k
  {
    var m := TokenLen(p);
    assert forall i :: 0 <= i < k ==> p[..k][i] == p[i];
    assert forall i :: 0 <= i < m ==> p[..m][i] == p[i];
  }

  lemma TokensSkip(p: string)
    ensures Tokens(p) == Tokens(SkipSlashes(p))
  {
    var q := SkipSlashes(p);
    assert SkipSlashes(q) == q;
  }

  lemma TokensCut(q: string, k: nat)
    requires 0 < k <= |q| && '/' !in q[..k] && (k < |q| ==> q[k] == '/')
    ensures Tokens(q) == [q[..k]] + Tokens(q[k..])
  {
    hide TokenLen;
    TokenLenIs(q, k);
    assert q[0] == q[..k][0];
    assert SkipSlashes(q) == q;
  }

  lemma TokensName(name: string)
    requires GoodName(name)
    ensures SkipSlashes("/" + name) == name && Tokens(name) == [name]
  {
    assert ("/" + name)[1..] == name && name[0] in name;
    assert name[..|name|] == name && name[|name|..] == "";
    TokensCut(name, |name|);
  }

  lemma TokensSlash(q: string)
    ensures Tokens("/" + q) == Tokens(q)
  {
    assert ("/" + q)[1..] == q;
    TokensSkip("/" + q);
    TokensSkip(q);
  }

  /** The law of parsing: a slash anywhere separates. With `TokensName` and `TokensNone` it determines the
      components of every string. */
  lemma {:induction false} TokensSplit(p: string, q: string)
    ensures Tokens(p + "/" + q) == Tokens(p) + Tokens(q)
    decreases |p|
  {
    hide Tokens, SkipSlashes, TokenLen;
    var tail := "/" + q;
    assert p + "/" + q == p + tail;
    var rest := SkipSlashes(p);
    TokensSkip(p);
    TokensSkip(p + tail);
    TokensSkip(tail);
    TokensSlash(q);
    if rest == "" {
      SkipAll(p, tail);
      TokensNone();
    } else {
      SkipPrefix(p, tail);
      var k := TokenLen(rest);
      TokenStarts(rest);
      TokensCut(rest, k);
      assert (rest + tail)[..k] == rest[..k] && (rest + tail)[k..] == rest[k..] + tail;
      TokensCut(rest + tail, k);
      TokensSplit(rest[k..], q);
      assert rest[k..] + "/" + q == rest[k..] + tail;
      assert [rest[..k]] + (Tokens(rest[k..]) + Tokens(q)) == [rest[..k]] + Tokens(rest[k..]) + Tokens(q);
    }
  }

  /** Appending "/name" to any string appends the token. */
  lemma TokensAppend(p: string, name: string)
    requires GoodName(name)
    ensures Tokens(p + "/" + name) == Tokens(p) + [name]
  {
    TokensSplit(p, name);
    TokensName(name);
  }

  lemma TokensNone()
    ensures Tokens("") == []
  {
  }

  lemma TokenStarts(q: string)
    requires q != "" && q[0] != '/'
    ensures TokenLen(q) > 0
  {
  }

  lemma {:induction false} TokensOfJoin(names: seq<string>)
    requires forall i :: 0 <= i < |names| ==> GoodName(names[i])
    ensures Tokens(Join(names)) == names
  {
    if names != [] {
      var k := |names| - 1;
      TokensOfJoin(names[..k]);
      TokensAppend(Join(names[..k]), names[k]);
    }
  }

  lemma {:induction false} TokensGood(p: string)
    ensures forall i :: 0 <= i < |Tokens(p)| ==> GoodName(Tokens(p)[i])
    decreases |p|
  {
    var q := SkipSlashes(p);
    if q != "" {
      TokensGood(q[TokenLen(q)..]);
    }
  }

  /** A printed component is read back exactly when it is a proper path component. */
  lemma ComponentRoundTrip(name: string)
    ensures Tokens("/" + name) == [name] <==> GoodName(name)
  {
    if GoodName(name) {
      TokensAppend("", name);
      assert "" + "/" + name == "/" + name;
    }
    TokensGood("/" + name);
    assert Tokens("/" + name) == [name] ==> Tokens("/" + name)[0] == name;
  }

  /** Reading a path and printing it again changes no token: only repeated slashes go. */
  lemma ParsePrint(p: string)
    ensures Tokens(Join(Tokens(p))) == Tokens(p)
  {
    TokensGood(p);
    TokensOfJoin(Tokens(p));
  }

  // ---------------------------------------------------------------------------
  // Round trip

  lemma {:induction false} ResolveAppend(names: map<Link, Id>, n: Id, path: seq<string>, last: string)
    ensures Resolve(names, n, path + [last]) ==
            match Resolve(names, n, path)
            case None => None
            case Some(m) => if Link(m, last) in names then Some(names[Link(m, last)]) else None
    decreases |path|
  {
    if path == [] {
      assert path + [last] == [last];
      assert [last][1..] == [];
    } else {
      assert (path + [last])[1..] == path[1..] + [last];
      if Link(n, path[0]) in names {
        ResolveAppend(names, names[Link(n, path[0])], path[1..], last);
      }
    }
  }

  lemma {:induction false} NamesResolve(t: Tree, n: Id)
    requires TreeOk(t) && Top(t, n) == FUSE_ROOT_ID
    ensures Resolve(t.names, FUSE_ROOT_ID, NamesTo(t, n)) == Some(n)
    decreases t.rank(n)
  {
    if n in t.links {
      NamesResolve(t, t.links[n].parent);
      ResolveAppend(t.names, FUSE_ROOT_ID, NamesTo(t, t.links[n].parent), t.links[n].name);
    }
  }

  // Names followed down from `m` are those on the way back up from where they lead.
  lemma {:induction false} ResolvedBelow(t: Tree, m: Id, path: seq<string>, n: Id)
    requires TreeOk(t) && Resolve(t.names, m, path) == Some(n)
    ensures Top(t, n) == Top(t, m) && NamesTo(t, n) == NamesTo(t, m) + path
    decreases |path|
  {
    if path != [] {
      var c := t.names[Link(m, path[0])];
      assert c in t.links && t.links[c] == Link(m, path[0]);
      ResolvedBelow(t, c, path[1..], n);
      assert NamesTo(t, m) + [path[0]] + path[1..] == NamesTo(t, m) + path;
    } else {
      assert NamesTo(t, m) + [] == NamesTo(t, m);
    }
  }

  /** A lookup finds a node exactly if the node is attached and these are its ancestors' names and its own. */
  lemma ResolvesExactly(t: Tree, path: seq<string>, n: Id)
    requires TreeOk(t)
    ensures Resolve(t.names, FUSE_ROOT_ID, path) == Some(n) <==> Top(t, n) == FUSE_ROOT_ID && NamesTo(t, n) == path
  {
    if Top(t, n) == FUSE_ROOT_ID {
      NamesResolve(t, n);
    }
    if Resolve(t.names, FUSE_ROOT_ID, path) == Some(n) {
      ResolvedBelow(t, FUSE_ROOT_ID, path, n);
      assert NamesTo(t, FUSE_ROOT_ID) == [] && [] + path == path;
    }
  }

  lemma {:induction false} NamesGood(t: Tree, n: Id)
    requires Ranks(t.links, t.rank) && forall m :: m in t.links ==> GoodName(t.links[m].name)
    ensures forall i :: 0 <= i < |NamesTo(t, n)| ==> GoodName(NamesTo(t, n)[i])
    decreases t.rank(n)
  {
    if n in t.links {
      NamesGood(t, t.links[n].parent);
    }
  }

  /** What the printer returns for a node: its names joined, or a single slash for the root. */
  ghost function PathOf(t: Tree, n: Id): string
    requires Ranks(t.links, t.rank)
  {
    var p := Join(NamesTo(t, n));
    if p == "" then "/" else p
  }

  /** Looking up the path printed for a node attached to the root yields the node. */
  lemma PrintParse(t: Tree, n: Id)
    requires TreeOk(t) && Top(t, n) == FUSE_ROOT_ID
    requires forall m :: m in t.links ==> GoodName(t.links[m].name)
    ensures Resolve(t.names, FUSE_ROOT_ID, Tokens(PathOf(t, n))) == Some(n)
  {
    NamesGood(t, n);
    TokensOfJoin(NamesTo(t, n));
    NamesResolve(t, n);
    assert Tokens("/") == Tokens("") == [];
  }

  // ---------------------------------------------------------------------------
  // The code

  // A token between the positions `b` and `e`.
  lemma TokenBetween(p: string, b: nat, e: nat, next: nat)
    requires b < e <= |p| && p[b] != '/' && '/' !in p[b..e] && (e < |p| ==> p[e] == '/')
    requires next == if e < |p| then e + 1 else e
    ensures Tokens(p[b..]) == [p[b..e]] + Tokens(p[next..])
  {
    var q := p[b..];
    assert q[..e - b] == p[b..e] && q[e - b..] == p[e..];
    TokenLenIs(q, e - b);
    if e < |p| {
      assert p[e..][1..] == p[next..];
    }
  }

  lemma SkippedAlike(p: string, q: string)
    requires SkipSlashes(p) == SkipSlashes(q)
    ensures Tokens(p) == Tokens(q)
  {
  }

  /** One call of strtok_r(path, "/", &save_ptr) from position `start`. The delimiter after a token
      is overwritten and passed over. */
  method NextToken(p: string, start: nat) returns (token: Option<string>, next: nat)
    requires start <= |p|
    ensures start <= next <= |p|
    ensures token.None? ==> Tokens(p[start..]) == []
    ensures token.Some? ==> next > start && Tokens(p[start..]) == [token.value] + Tokens(p[next..])
  {
    var b := start;
    while b < |p| && p[b] == '/'
      invariant start <= b <= |p| && SkipSlashes(p[start..]) == SkipSlashes(p[b..])
    {
      assert p[b..][1..] == p[b + 1..];
      b := b + 1;
    }
    SkippedAlike(p[start..], p[b..]);
    hide SkipSlashes;
    if b == |p| {
      return None, b;
    }
    var e := b;
    while e < |p| && p[e] != '/'
      invariant b <= e <= |p| && '/' !in p[b..e]
    {
      assert p[b..e + 1] == p[b..e] + [p[e]];
      e := e + 1;
    }
    token, next := Some(p[b..e]), if e < |p| then e + 1 else e;
    TokenBetween(p, b, e, next);
  }

  /** `lookup_path_in_cache`: None stands for -ENOENT. */
  method LookupPathInCache(names: map<Link, Id>, path: string) returns (r: Option<Id>)
    ensures r == Resolve(names, FUSE_ROOT_ID, Tokens(path))
  {
    var ino := FUSE_ROOT_ID;
    var token, pos := NextToken(path, 0);
    assert path[0..] == path;
    while token.Some?
      invariant pos <= |path|
      invariant token.None? ==> Resolve(names, FUSE_ROOT_ID, Tokens(path)) == Some(ino)
      invariant token.Some? ==>
                  Resolve(names, FUSE_ROOT_ID, Tokens(path)) == Resolve(names, ino, [token.value] + Tokens(path[pos..]))
      decreases token.Some?, |path| - pos
    {
      assert ([token.value] + Tokens(path[pos..]))[1..] == Tokens(path[pos..]);
      if Link(ino, token.value) !in names {
        return None;
      }
      ino := names[Link(ino, token.value)];
      token, pos := NextToken(path, pos);
    }
    return Some(ino);
  }

  /** The size a full buffer grows to: doubled until `need` fits, with the last doubling clamped. */
  method GrownSize(bufsize: nat, need: nat) returns (r: nat)
    requires 0 < bufsize <= UINT_MAX && need <= UINT_MAX
    ensures need <= r <= UINT_MAX && bufsize <= r
  {
    r := bufsize;
    while r < need
      invariant bufsize <= r <= UINT_MAX
      decreases UINT_MAX - r
    {
      if r >= 0x8000_0000 {
        r := UINT_MAX;
      } else {
        r := r * 2;
      }
    }
  }

  /** `add_name`: put "/name" before what starts at `s`, in a larger buffer if there is no room. */
  method AddName(buf: array<char>, s: nat, name: string) returns (buf': array<char>, s': nat)
    requires s <= buf.Length && 0 < buf.Length <= UINT_MAX
    requires buf.Length - s + |name| + 1 <= UINT_MAX
    modifies buf
    ensures buf' == buf || fresh(buf')
    ensures 0 < buf'.Length <= UINT_MAX && s' <= buf'.Length
    ensures buf'[s'..] == "/" + name + old(buf[s..])
  {
    var len := |name|;
    buf', s' := buf, s;
    if s <= len {
      buf', s' := MoreRoom(buf, s, len);
    }
    ghost var tail := buf'[s'..];
    PutBefore(buf', s', name);
    s' := s' - len;
    PutBefore(buf', s', "/");
    s' := s' - 1;
    assert buf'[s'..] == "/" + (name + tail);
  }

  // Copy `text` to just before `s`.
  method PutBefore(buf: array<char>, s: nat, text: string)
    requires |text| <= s <= buf.Length
    modifies buf
    ensures buf[s - |text|..] == text + old(buf[s..])
  {
    ghost var tail := buf[s..];
    var at: nat := s - |text|;
    forall i | 0 <= i < |text| {
      buf[at + i] := text[i];
    }
    assert buf[s..] == tail;
    assert buf[at..s] == text;
    assert buf[at..] == buf[at..s] + buf[s..];
  }

  // The growth in `add_name`: the string moves to the end of a buffer with room for `len` more.
  method MoreRoom(buf: array<char>, s: nat, len: nat) returns (buf': array<char>, s': nat)
    requires s <= buf.Length && 0 < buf.Length <= UINT_MAX && s <= len
    requires buf.Length - s + len + 1 <= UINT_MAX
    ensures fresh(buf') && 0 < buf'.Length <= UINT_MAX && len < s' <= buf'.Length
    ensures buf'[s'..] == buf[s..]
  {
    var pathlen := buf.Length - s;
    var newbufsize := GrownSize(buf.Length, pathlen + len + 1);
    buf' := new char[newbufsize];
    s' := newbufsize - pathlen;
    forall i | 0 <= i < pathlen {
      buf'[s' + i] := buf[buf.Length - pathlen + i];
    }
    assert buf'[s'..] == buf[s..];
  }

  // Bytes the walk from `n` puts before the terminator.
  ghost function Room(t: Tree, n: Id): nat
    requires Ranks(t.links, t.rank)
  {
    |Join(NamesTo(t, n))|
  }

  // One node further up, its name is part of what has been printed.
  lemma TopFacts(t: Tree)
    requires TreeOk(t)
    ensures Ranks(t.links, t.rank) && FUSE_ROOT_ID !in t.links && Join(NamesTo(t, FUSE_ROOT_ID)) == ""
    ensures forall n :: n !in t.links ==> Top(t, n) == n
    ensures forall n :: PathOf(t, n) == var p := Join(NamesTo(t, n)); if p == "" then "/" else p
  {
  }

  lemma RoomUp(t: Tree, n: Id, tail: string)
    requires TreeOk(t) && n in t.links
    ensures var p := t.links[n].parent;
            && p in t.nodes && Top(t, p) == Top(t, n) && t.rank(p) < t.rank(n)
            && WholePath(t, p, "/" + t.links[n].name + tail) == WholePath(t, n, tail)
            && Room(t, n) == Room(t, p) + 1 + |t.links[n].name|
  {
    hide Join, WholePath;
    var up, name := NamesTo(t, t.links[n].parent), t.links[n].name;
    assert NamesTo(t, n) == up + [name];
    JoinLast(up, name);
    Regroup(Join(up), name, tail);
    WholeBy(t, t.links[n].parent, "/" + name + tail);
    WholeBy(t, n, tail);
  }

  lemma WholeBy(t: Tree, n: Id, tail: string)
    requires TreeOk(t)
    ensures WholePath(t, n, tail) == Join(NamesTo(t, n)) + tail
  {
  }

  lemma Regroup(x: string, name: string, tail: string)
    ensures x + ("/" + name + tail) == x + "/" + name + tail
  {
  }

  lemma JoinLast(names: seq<string>, name: string)
    ensures Join(names + [name]) == Join(names) + "/" + name
  {
    assert (names + [name])[..|names|] == names;
  }

  /** The path `try_get_path` builds from right to left, starting at the terminator, for a node and
      optionally a name below it; None when the walk meets a node without a name. */
  method BuildPath(t: Tree, nodeid: Id, name: Option<string>) returns (path: Option<string>)
    requires TreeOk(t) && nodeid in t.nodes
    requires Room(t, nodeid) + (if name.Some? then |name.value| + 1 else 0) + 1 <= UINT_MAX
    ensures path.Some? <==> Top(t, nodeid) == FUSE_ROOT_ID
    ensures path.Some? ==>
              path.value == if name.Some? then Join(NamesTo(t, nodeid)) + "/" + name.value else PathOf(t, nodeid)
  {
    hide TreeOk, Ranks, Join, NamesTo, Top, PathOf, Terminated, WholePath;
    TopFacts(t);
    var buf := new char[256];
    var s: nat := 255;
    buf[s] := '\0';
    ghost var tail := "";
    assert buf[s..] == ['\0'];
    NothingYet();
    if name.Some? {
      TerminatedMore(name.value, buf[s..], tail);
      buf, s := AddName(buf, s, name.value);
      tail := "/" + name.value + tail;
    }
    var node := nodeid;
    ghost var full := WholePath(t, nodeid, tail);
    WholeStart(t, nodeid, name, tail);
    while node != FUSE_ROOT_ID
      invariant node in t.nodes && Top(t, node) == Top(t, nodeid)
      invariant fresh(buf) && 0 < buf.Length <= UINT_MAX && s <= buf.Length
      invariant Terminated(buf[s..], tail) && WholePath(t, node, tail) == full && |full| == Room(t, node) + |tail|
      decreases t.rank(node)
    {
      if node !in t.links {
        return None;
      }
      RoomUp(t, node, tail);
      TerminatedMore(t.links[node].name, buf[s..], tail);
      buf, s := AddName(buf, s, t.links[node].name);
      tail := "/" + t.links[node].name + tail;
      node := t.links[node].parent;
    }
    WholeEnd(t, tail);
    path := Some(TextOf(buf[s..], full));
  }

  // The cells up to the end of the buffer hold `text` and the terminator.
  ghost predicate Terminated(cells: seq<char>, text: string) {
    cells == text + ['\0']
  }

  lemma NothingYet()
    ensures Terminated(['\0'], "")
  {
  }

  lemma TerminatedMore(name: string, cells: seq<char>, text: string)
    requires Terminated(cells, text)
    ensures Terminated("/" + name + cells, "/" + name + text) && |cells| == |text| + 1
  {
  }

  // What will have been printed when the walk from `n` is at its end.
  ghost function WholePath(t: Tree, n: Id, tail: string): string
    requires Ranks(t.links, t.rank)
  {
    Join(NamesTo(t, n)) + tail
  }

  lemma WholeStart(t: Tree, n: Id, name: Option<string>, tail: string)
    requires Ranks(t.links, t.rank) && tail == if name.Some? then "/" + name.value + "" else ""
    ensures |WholePath(t, n, tail)| == Room(t, n) + |tail|
    ensures name.Some? ==> WholePath(t, n, tail) == Join(NamesTo(t, n)) + "/" + name.value && WholePath(t, n, tail) != ""
    ensures name.None? ==> WholePath(t, n, tail) == Join(NamesTo(t, n))
  {
    hide Join, NamesTo;
  }

  lemma WholeEnd(t: Tree, tail: string)
    requires TreeOk(t)
    ensures Ranks(t.links, t.rank) && WholePath(t, FUSE_ROOT_ID, tail) == tail
  {
    TopFacts(t);
  }

  // The text in a buffer before its terminator; a single slash stands for no text.
  function TextOf(cells: seq<char>, ghost text: string): (p: string)
    requires Terminated(cells, text)
    ensures p == if text == "" then "/" else text
  {
    if |cells| > 1 then cells[..|cells| - 1] else "/"
  }
}
