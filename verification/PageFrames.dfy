/** The page frame allocator: `pfa_init` and `pfa_commit_page` (src/kernel/page_frame_allocator.c,
    lines 14-121).

    A bitmap of 32704 words of 32 bits says which physical frames are taken; bit `n` stands for the
    frame at 10 MiB + 4096 n. A committed page is entered in one of 254 page tables and in the page
    directory, as in 32-bit paging (Intel SDM volume 3A, section 4.3). */
module PageFrames {
  import opened Options

  const PAGE_SIZE: nat := 4096
  const U32: nat := 0x1_0000_0000
  // The first ten megabytes belong to the boot code and the kernel.
  const RESERVED_PHYS: nat := 0xA0_0000
  const WORDS: nat := 32704
  const BITS: nat := 1046528
  // __kernel_start + MAX_KERNEL_SIZE
  const HEAP_BASE: nat := 0xC080_0000
  const TABLES: nat := 254
  // Present, writable, user-accessible, accessed.
  const FLAGS: nat := 0x27

  // ---------------------------------------------------------------------------
  // Addresses

  /** The physical address of frame `n`, in 32-bit arithmetic. */
  function FrameAddr(n: nat): nat {
    (n * 4096 + 0xA0_0000) % 0x1_0000_0000
  }

  /** Frames are whole pages, distinct, and never in the kernel's own memory from 2 to 10 MiB. */
  lemma FramesApart(m: nat, n: nat)
    requires m < BITS && n < BITS
    ensures FrameAddr(n) % 4096 == 0 && FrameAddr(n) + PAGE_SIZE <= U32
    ensures m != n ==> FrameAddr(m) != FrameAddr(n)
    ensures FrameAddr(n) + PAGE_SIZE <= 0x20_0000 || FrameAddr(n) >= RESERVED_PHYS
  {
  }

  /** The bitmap is 512 bits too long: its last bits stand for frames whose addresses wrap around to
      the reserved memory below 2 MiB. */
  lemma FrameAboveReserved(n: nat)
    requires n < BITS
    ensures FrameAddr(n) >= RESERVED_PHYS <==> n < BITS - 512
  {
  }

  predicate HeapPage(v: nat) {
    v % 4096 == 0 && HEAP_BASE <= v < U32
  }

  function DirectoryIndex(v: nat): nat {
    v / 0x40_0000
  }

  function EntryIndex(v: nat): nat {
    v / 4096 % 1024
  }

  function TableIndex(v: nat): nat
    requires v >= HEAP_BASE
  {
    (v - 0xC080_0000) / 0x40_0000
  }

  /** A heap address has one of the 254 tables, at a fixed distance from its directory entry. */
  lemma IndexRange(v: nat)
    requires HEAP_BASE <= v < U32
    ensures DirectoryIndex(v) < 1024 && EntryIndex(v) < 1024 && TableIndex(v) < TABLES
    ensures DirectoryIndex(v) == TableIndex(v) + 770
  {
  }

  /** Different pages have different places in the tables. */
  lemma IndexInjective(v: nat, w: nat)
    requires HeapPage(v) && HeapPage(w) && v != w
    ensures TableIndex(v) != TableIndex(w) || EntryIndex(v) != EntryIndex(w)
  {
    assert v == DirectoryIndex(v) * 0x40_0000 + EntryIndex(v) * 4096;
    assert w == DirectoryIndex(w) * 0x40_0000 + EntryIndex(w) * 4096;
    IndexRange(v);
    IndexRange(w);
  }

  /** `pfa_tables_index_to_mapped_virt`: the first address that table `t` maps. */
  function TableStart(t: nat): (v: nat)
    requires t < TABLES
    ensures HeapPage(v) && TableIndex(v) == t && EntryIndex(v) == 0
  {
    t * 0x40_0000 + 0xC080_0000
  }

  // ---------------------------------------------------------------------------
  // Which pages are available

  // An entry of the boot loader's memory map; usable means type 1.
  datatype Region = Region(base: nat, len: nat, usable: bool)

  function End(r: Region): nat {
    r.base + r.len
  }

  function Back(x: nat): nat {
    x / 4096 * 4096
  }

  function Fwd(x: nat): nat {
    (x + 4095) / 4096 * 4096
  }

  lemma Aligned(x: nat)
    ensures Back(x) % 4096 == 0 && Fwd(x) % 4096 == 0 && Fwd(x) < x + PAGE_SIZE
  {
  }

  lemma Rounded(a: nat, x: nat)
    requires a % 4096 == 0
    ensures Back(x) <= a <==> x < a + PAGE_SIZE
    ensures a < Fwd(x) <==> a < x
  {
  }

  /** Regions in order, not overlapping, and ending below the last page of the address space. */
  ghost predicate MapOk(m: seq<Region>) {
    && (forall i, j :: 0 <= i < j < |m| ==> End(m[i]) <= m[j].base)
    && (forall i :: 0 <= i < |m| ==> End(m[i]) <= U32 - PAGE_SIZE)
  }

  function EndBefore(m: seq<Region>, i: nat): nat
    requires i <= |m|
  {
    if i == 0 then 0 else End(m[i - 1])
  }

  /** Page `a` touches the space between region `i` and the one before it. */
  predicate InGap(m: seq<Region>, i: nat, a: nat)
    requires i < |m|
  {
    Back(EndBefore(m, i)) <= a < Fwd(m[i].base)
  }

  /** Page `a` touches the unusable region `i`. */
  predicate InUnusable(m: seq<Region>, i: nat, a: nat)
    requires i < |m|
  {
    !m[i].usable && Back(m[i].base) <= a < Fwd(End(m[i]))
  }

  predicate Touches(m: seq<Region>, i: nat, a: nat)
    requires i < |m|
  {
    InGap(m, i, a) || InUnusable(m, i, a)
  }

  /** The pages that `pfa_init` marks. */
  ghost predicate Unavailable(m: seq<Region>, a: nat) {
    exists i: nat :: i < |m| && Touches(m, i, a)
  }

  ghost predicate UpTo(m: seq<Region>, n: nat, a: nat)
    requires n <= |m|
  {
    exists i: nat :: i < n && Touches(m, i, a)
  }

  lemma UpToNext(m: seq<Region>, n: nat, a: nat)
    requires n < |m|
    ensures UpTo(m, n + 1, a) <==> UpTo(m, n, a) || Touches(m, n, a)
  {
    if UpTo(m, n, a) {
      var i: nat :| i < n && Touches(m, i, a);
      assert i < n + 1 && Touches(m, i, a);
    }
  }

  /** Page `a` lies wholly inside the usable region `i`. */
  predicate Inside(m: seq<Region>, i: nat, a: nat)
    requires i < |m|
  {
    m[i].usable && m[i].base <= a && a + PAGE_SIZE <= End(m[i])
  }

  ghost predicate IsRam(m: seq<Region>, a: nat) {
    exists i: nat :: i < |m| && Inside(m, i, a)
  }

  /** Where the memory map stops having a say. */
  function Covered(m: seq<Region>): nat {
    if m == [] then 0 else
    var last := m[|m| - 1];
    if !last.usable then Fwd(End(last)) else
    if Back(End(last)) < Fwd(last.base) then Fwd(last.base) else Back(End(last))
  }

  /** Below the end of the map a page is marked exactly when it is not wholly inside one usable region.
      Past the end no page is marked: the allocator takes memory that the map does not mention, and the
      broken last page of a usable region, for RAM. */
  lemma {:induction false} InitIsExact(m: seq<Region>, a: nat)
    requires MapOk(m) && a % 4096 == 0
    ensures Unavailable(m, a) <==> a < Covered(m) && !IsRam(m, a)
  {
    if Unavailable(m, a) {
      var i: nat :| i < |m| && Touches(m, i, a);
      TouchedIsCovered(m, i, a);
      forall k: nat | k < |m|
        ensures !Inside(m, k, a)
      {
        if Inside(m, k, a) { InsideUntouched(m, k, i, a); }
      }
    }
    if a < Covered(m) && !IsRam(m, a) {
      CoveredIsTouched(m, a);
    }
  }

  lemma TouchedIsCovered(m: seq<Region>, i: nat, a: nat)
    requires MapOk(m) && a % 4096 == 0 && i < |m| && Touches(m, i, a)
    ensures a < Covered(m)
  {
    hide Back, Fwd;
    var last := m[|m| - 1];
    Rounded(a, m[i].base);
    Rounded(a, End(m[i]));
    Rounded(a, last.base);
    Rounded(a, End(last));
    if i < |m| - 1 { assert End(m[i]) <= last.base; }
  }

  lemma InsideUntouched(m: seq<Region>, k: nat, i: nat, a: nat)
    requires MapOk(m) && a % 4096 == 0 && i < |m| && k < |m| && Inside(m, k, a)
    ensures !Touches(m, i, a)
  {
    hide Back, Fwd;
    Rounded(a, EndBefore(m, i));
    Rounded(a, m[i].base);
    Rounded(a, End(m[i]));
    if i < k { assert End(m[i]) <= m[k].base; }
    if k < i {
      assert End(m[k]) <= m[i].base;
      if k < i - 1 { assert End(m[k]) <= m[i - 1].base; }
    }
  }

  /** The first region that ends above `a`, if any. */
  function FirstEnding(m: seq<Region>, a: nat): (i: nat)
    ensures i <= |m| && (i < |m| ==> a < End(m[i]))
    ensures forall k :: 0 <= k < i ==> End(m[k]) <= a
  {
    if m == [] || a < End(m[0]) then 0 else 1 + FirstEnding(m[1..], a)
  }

  lemma CoveredBound(m: seq<Region>)
    requires MapOk(m)
    ensures Covered(m) <= U32
  {
  }

  lemma RamFrame(m: seq<Region>, n: nat)
    requires MapOk(m) && n < BITS && !Unavailable(m, n * 4096 + RESERVED_PHYS)
    ensures n * 4096 + RESERVED_PHYS < Covered(m) ==> IsRam(m, FrameAddr(n))
  {
    hide Unavailable, IsRam, Covered;
    InitIsExact(m, n * 4096 + RESERVED_PHYS);
    CoveredBound(m);
  }

  lemma NoneEnding(m: seq<Region>, a: nat)
    requires MapOk(m) && a % 4096 == 0
    requires forall k :: 0 <= k < |m| ==> End(m[k]) <= a
    ensures Covered(m) <= a
  {
    hide Back, Fwd;
    if m != [] {
      Rounded(a, m[|m| - 1].base);
      Rounded(a, End(m[|m| - 1]));
    }
  }

  lemma {:induction false} CoveredIsTouched(m: seq<Region>, a: nat)
    requires MapOk(m) && a % 4096 == 0 && a < Covered(m) && !IsRam(m, a)
    ensures Unavailable(m, a)
  {
    hide Back, Fwd;
    var k: nat := FirstEnding(m, a);
    var last: nat := |m| - 1;
    Rounded(a, EndBefore(m, last));
    Rounded(a, m[last].base);
    Rounded(a, End(m[last]));
    if k < |m| { Rounded(a, EndBefore(m, k)); Rounded(a, m[k].base); Rounded(a, End(m[k])); }
    if k < last { Rounded(a, EndBefore(m, k + 1)); Rounded(a, m[k + 1].base); }
    if k == |m| {
      NoneEnding(m, a);
    } else {
      assert k > 0 ==> End(m[k - 1]) <= a;
      assert !Inside(m, k, a);
      if a < Fwd(m[k].base) || !m[k].usable {
        assert Touches(m, k, a);
      } else if k < last {
        assert End(m[k]) <= m[k + 1].base;
        assert Touches(m, k + 1, a);
      }
    }
  }

  // ---------------------------------------------------------------------------
  // The allocator

  /** The heap's address space: what each address translates to, given the frames of the pages. */
  function Mapping(frames: map<nat, nat>, a: nat): Option<nat> {
    var page := a - a % 4096;
    if page in frames then Some(FrameAddr(frames[page]) + a % 4096) else None
  }

  class Allocator {
    // pfa_page_bitmap, page_directory and pfa_page_tables; their sizes never change.
    const bitmap: array2<bool>
    const directory: array<nat>
    const tables: array2<nat>
    // The physical address of the first page table.
    const tablesPhys: nat
    // The pages committed so far, and the bit of each one's frame.
    ghost var frames: map<nat, nat>
    // The bits that `Init` marked.
    ghost var reserved: iset<nat>

    ghost predicate Shape() {
      && bitmap.Length0 == 32704 && bitmap.Length1 == 32
      && directory.Length == 1024 && tables.Length0 == 254 && tables.Length1 == 1024
      && tablesPhys % 4096 == 0 && 0x20_0000 <= tablesPhys && tablesPhys + 254 * 4096 <= RESERVED_PHYS
    }

    predicate Marked(n: nat)
      requires Shape() && n < BITS
      reads bitmap
    {
      bitmap[n / 32, n % 32]
    }

    /** Everything zero, as loaded. */
    constructor (phys: nat)
      requires phys % 4096 == 0 && 0x20_0000 <= phys && phys + 254 * 4096 <= RESERVED_PHYS
      ensures Valid() && frames == map[] && reserved == iset{}
      ensures fresh(bitmap) && fresh(directory) && fresh(tables)
    {
      bitmap := new bool[32704, 32]((i, j) => false);
      directory := new nat[1024](i => 0);
      tables := new nat[254, 1024]((i, j) => 0);
      tablesPhys, frames, reserved := phys, map[], iset{};
    }

    /** `pfa_init`, before any page is committed. */
    method Init(m: seq<Region>)
      requires Valid() && frames == map[] && reserved == iset{} && MapOk(m)
      modifies bitmap, this`reserved
      ensures Valid() && frames == map[]
      ensures reserved == iset n: nat | n < BITS && Unavailable(m, n * 4096 + RESERVED_PHYS)
    {
      hide Marked, Blank, Entered, Unavailable;
      assert forall n :: 0 <= n < BITS ==> !Marked(n);
      MarkMap(m);
      reserved := iset n: nat | n < BITS && Unavailable(m, n * 4096 + RESERVED_PHYS);
    }

    /** After `pfa_init` no committed frame below the end of the memory map lies outside usable RAM. */
    lemma CommittedIsRam(m: seq<Region>, v: nat)
      requires Valid() && MapOk(m) && v in frames
      requires reserved == iset n: nat | n < BITS && Unavailable(m, n * 4096 + RESERVED_PHYS)
      ensures frames[v] * 4096 + RESERVED_PHYS < Covered(m) ==> IsRam(m, FrameAddr(frames[v]))
      ensures forall w :: w in frames && w != v ==> FrameAddr(frames[w]) != FrameAddr(frames[v])
    {
      hide Unavailable, IsRam, FrameAddr, Entered, Blank, Covered;
      assert frames[v] < BITS && frames[v] !in reserved;
      RamFrame(m, frames[v]);
      forall w | w in frames && w != v
        ensures FrameAddr(frames[w]) != FrameAddr(frames[v])
      {
        FramesApart(frames[w], frames[v]);
      }
    }

    /** The marking loops, on a clear bitmap. */
    method MarkMap(m: seq<Region>)
      requires Shape() && MapOk(m)
      requires forall n :: 0 <= n < BITS ==> !Marked(n)
      modifies bitmap
      ensures forall n :: 0 <= n < BITS ==> (Marked(n) <==> Unavailable(m, n * 4096 + RESERVED_PHYS))
    {
      hide Back, Fwd;
      var i: nat := 0;
      var endOfLast := 0;
      while i < |m|
        invariant i <= |m| && endOfLast == EndBefore(m, i)
        invariant forall n :: 0 <= n < BITS ==> (Marked(n) <==> UpTo(m, i, n * 4096 + RESERVED_PHYS))
      {
        Aligned(endOfLast);
        Aligned(m[i].base);
        Aligned(End(m[i]));
        MarkRange(Back(endOfLast), Fwd(m[i].base));
        if !m[i].usable {
          MarkRange(Back(m[i].base), Fwd(End(m[i])));
        }
        forall n | 0 <= n < BITS
          ensures Marked(n) <==> UpTo(m, i + 1, n * 4096 + RESERVED_PHYS)
        {
          UpToNext(m, i, n * 4096 + RESERVED_PHYS);
        }
        endOfLast := End(m[i]);
        i := i + 1;
      }
    }

    /** Mark the pages from `start` to `end` that lie above the reserved memory. */
    method MarkRange(start: nat, end: nat)
      requires Shape() && start % 4096 == 0 && end % 4096 == 0 && end < U32
      modifies bitmap
      ensures forall n :: 0 <= n < BITS ==> (Marked(n) <==> old(Marked(n)) || start <= n * 4096 + RESERVED_PHYS < end)
    {
      if end > RESERVED_PHYS {
        var addr := if start < RESERVED_PHYS then RESERVED_PHYS else start;
        while addr < end
          invariant addr % 4096 == 0 && addr >= RESERVED_PHYS && addr >= start
          invariant forall n :: 0 <= n < BITS ==> (Marked(n) <==> old(Marked(n)) || (start <= n * 4096 + RESERVED_PHYS < end && n * 4096 + RESERVED_PHYS < addr))
        {
          var word, bit := (addr - 0xA0_0000) / 4096 / 32, (addr - 0xA0_0000) / 4096 % 32;
          bitmap[word, bit] := true;
          addr := addr + PAGE_SIZE;
        }
      }
    }

    /** The page table walk of 32-bit paging, for tables among the 254 of the allocator. */
    function Translate(v: nat): Option<nat>
      requires Shape() && v < U32
      reads directory, tables
    {
      var d := directory[DirectoryIndex(v)];
      if d % 2 == 0 || Back(d) < tablesPhys || tablesPhys + 254 * 4096 <= Back(d) then None else
      var e := tables[(Back(d) - tablesPhys) / 4096, EntryIndex(v)];
      if e % 2 == 0 then None else Some(Back(e) + v % 4096)
    }

    function TableEntry(t: nat): nat {
      tablesPhys + t * 4096 + FLAGS
    }

    predicate Entered(v: nat, n: nat)
      requires Shape() && HEAP_BASE <= v < U32
      reads directory, tables
    {
      IndexRange(v);
      && directory[DirectoryIndex(v)] == TableEntry(TableIndex(v))
      && tables[TableIndex(v), EntryIndex(v)] == FrameAddr(n) + FLAGS
    }

    predicate Blank(v: nat)
      requires Shape() && HEAP_BASE <= v < U32
      reads directory, tables
    {
      IndexRange(v);
      && tables[TableIndex(v), EntryIndex(v)] == 0
      && (directory[DirectoryIndex(v)] == 0 || directory[DirectoryIndex(v)] == TableEntry(TableIndex(v)))
    }

    ghost predicate Valid()
      reads this, bitmap, directory, tables
    {
      && Shape()
      && (forall n :: 0 <= n < BITS ==> (Marked(n) <==> n in reserved || InRange(frames, n)))
      && (forall v {:trigger frames[v]} :: v in frames ==> HeapPage(v) && frames[v] < BITS && frames[v] !in reserved && Entered(v, frames[v]))
      && (forall v, w {:trigger frames[v], frames[w]} :: v in frames && w in frames && v != w ==> frames[v] != frames[w])
      && (forall v {:trigger HeapPage(v)} :: HeapPage(v) && v !in frames ==> Blank(v))
    }

    /** Directory and table together translate every committed address into its own frame, and no
        other heap address at all. */
    lemma TranslateIs(a: nat)
      requires Valid() && HEAP_BASE <= a < U32
      ensures Translate(a) == Mapping(frames, a)
    {
      hide Entered, Blank, Marked, InRange, FrameAddr, DirectoryIndex, EntryIndex, TableIndex, Translate;
      var page: nat := a - a % 4096;
      SamePlace(a);
      if page in frames {
        FrameWalk(a, frames[page]);
      } else {
        BlankWalk(a);
      }
    }

    /** Both entries of a committed page carry the present, writable, user and accessed bits. */
    lemma CommittedFlags(v: nat)
      requires Valid() && v in frames
      ensures DirectoryIndex(v) < 1024 && directory[DirectoryIndex(v)] % 4096 == 0x1 + 0x2 + 0x4 + 0x20
      ensures TableIndex(v) < 254 && EntryIndex(v) < 1024 && tables[TableIndex(v), EntryIndex(v)] % 4096 == 0x1 + 0x2 + 0x4 + 0x20
    {
      IndexRange(v);
      assert Entered(v, frames[v]);
      hide DirectoryIndex, EntryIndex, TableIndex, Back, FrameAddr;
      TableWalk(tablesPhys, TableIndex(v));
      FramesApart(0, frames[v]);
      FrameEntry(FrameAddr(frames[v]));
    }

    // The walk through an entry that is there.
    lemma FrameWalk(a: nat, n: nat)
      requires Shape() && HEAP_BASE <= a < U32 && n < BITS
      requires var page := a - a % 4096; page >= HEAP_BASE && Entered(page, n)
      ensures Translate(a) == Some(FrameAddr(n) + a % 4096)
    {
      hide DirectoryIndex, EntryIndex, TableIndex, Back, FrameAddr;
      var page: nat := a - a % 4096;
      SamePlace(a);
      IndexRange(page);
      TableWalk(tablesPhys, TableIndex(page));
      FramesApart(0, n);
      FrameEntry(FrameAddr(n));
    }

    // The walk ends at an entry that is not there.
    lemma BlankWalk(a: nat)
      requires Shape() && HEAP_BASE <= a < U32
      requires var page := a - a % 4096; page >= HEAP_BASE && Blank(page)
      ensures Translate(a) == None
    {
      hide DirectoryIndex, EntryIndex, TableIndex, Back;
      var page: nat := a - a % 4096;
      SamePlace(a);
      IndexRange(page);
      TableWalk(tablesPhys, TableIndex(page));
    }

    /** The search for the first zero bit. */
    method FindClear() returns (ok: bool, word: nat, bit: nat)
      requires Shape()
      ensures ok ==> word < 32704 && bit < 32 && !Marked(word * 32 + bit) && forall k :: 0 <= k < word * 32 + bit ==> Marked(k)
      ensures !ok ==> forall k :: 0 <= k < BITS ==> Marked(k)
    {
      word, bit := 0, 0;
      while word < 32704
        invariant word <= 32704
        invariant forall k :: 0 <= k < word * 32 ==> Marked(k)
      {
        bit := 0;
        while bit < 32
          invariant bit <= 32
          invariant forall k :: 0 <= k < word * 32 + bit ==> Marked(k)
        {
          BitPlace(word, bit);
          if !bitmap[word, bit] { return true, word, bit; }
          bit := bit + 1;
        }
        word := word + 1;
      }
      ok := false;
    }

    /** Take the first free frame. */
    method TakeFrame() returns (ok: bool, n: nat)
      requires Shape()
      modifies bitmap
      ensures ok ==> n < BITS && !old(Marked(n)) && (forall k :: 0 <= k < n ==> old(Marked(k)))
                     && (forall k :: 0 <= k < BITS ==> (Marked(k) <==> k == n || old(Marked(k))))
      ensures !ok ==> (forall k :: 0 <= k < BITS ==> old(Marked(k))) && unchanged(bitmap)
    {
      var word, bit;
      ok, word, bit := FindClear();
      n := word * 32 + bit;
      forall k | 0 <= k < (if ok then n else BITS)
        ensures old(Marked(k))
      {
        assert Marked(k);
      }
      if ok {
        BitPlace(word, bit);
        bitmap[word, bit] := true;
      }
    }

    /** Enter page `v` in its table and the table in the directory. */
    method Enter(v: nat, n: nat)
      requires Shape() && HeapPage(v) && Blank(v)
      modifies directory, tables
      ensures Entered(v, n)
      ensures forall w, m {:trigger Entered(w, m)} :: HeapPage(w) && w != v && old(Entered(w, m)) ==> Entered(w, m)
      ensures forall w {:trigger Blank(w)} :: HeapPage(w) && w != v && old(Blank(w)) ==> Blank(w)
    {
      IndexRange(v);
      hide DirectoryIndex, TableIndex, EntryIndex, FrameAddr;
      var t := TableIndex(v);
      directory[DirectoryIndex(v)] := TableEntry(t);
      tables[t, EntryIndex(v)] := FrameAddr(n) + FLAGS;
      forall w | HeapPage(w) && w != v
        ensures DirectoryIndex(w) == TableIndex(w) + 770 && (TableIndex(w) != t || EntryIndex(w) != EntryIndex(v))
      {
        IndexRange(w);
        IndexInjective(v, w);
      }
    }

    /** `pfa_commit_page` of a heap page that is not yet committed: it translates to a frame of its own
        afterwards, and every other heap address to what it did before. */
    method Commit(v: nat) returns (ok: bool, ghost n: nat)
      requires Valid() && HeapPage(v) && v !in frames
      modifies bitmap, directory, tables, this`frames
      ensures Valid()
      ensures ok <==> exists n :: 0 <= n < BITS && !old(Marked(n))
      ensures !ok ==> unchanged(bitmap) && unchanged(directory) && unchanged(tables) && frames == old(frames)
      ensures ok ==> frames == old(frames)[v := n] && n < BITS && !old(Marked(n)) && forall k :: 0 <= k < n ==> old(Marked(k))
      ensures forall a :: HEAP_BASE <= a < U32 ==>
        Translate(a) == if ok && a - a % 4096 == v then Some(FrameAddr(n) + a % 4096) else old(Translate(a))
    {
      hide Valid, Translate, Marked, FrameAddr;
      assert Shape() by { Shaped(); }
      forall a | HEAP_BASE <= a < U32
        ensures Translate(a) == Mapping(frames, a)
      {
        TranslateIs(a);
      }
      ok, n := Install(v);
      assert Shape() by { Shaped(); }
      forall a | HEAP_BASE <= a < U32
        ensures Translate(a) == Mapping(frames, a)
      {
        TranslateIs(a);
      }
    }

    lemma Shaped()
      requires Valid()
      ensures Shape()
    {
    }

    /** Take a frame for page `v` and enter it. */
    method Install(v: nat) returns (ok: bool, ghost n: nat)
      requires Valid() && HeapPage(v) && v !in frames
      modifies bitmap, directory, tables, this`frames
      ensures Valid()
      ensures ok <==> exists n :: 0 <= n < BITS && !old(Marked(n))
      ensures !ok ==> unchanged(bitmap) && unchanged(directory) && unchanged(tables) && frames == old(frames)
      ensures ok ==> frames == old(frames)[v := n] && n < BITS && !old(Marked(n)) && forall k :: 0 <= k < n ==> old(Marked(k))
    {
      hide Marked, Entered, Blank, InRange;
      var bit;
      ok, bit := TakeFrame();
      n := bit;
      if !ok { return; }
      ValuesIn(frames);
      assert forall w {:trigger frames[w]} :: w in frames ==> frames[w] != n;
      assert Blank(v);
      Enter(v, bit);
      frames := frames[v := n];
      OwnedAfter(old(frames), v, n);
    }
  }

  ghost predicate InRange(frames: map<nat, nat>, n: nat) {
    exists v {:trigger frames[v]} :: v in frames && frames[v] == n
  }

  lemma ValuesIn(frames: map<nat, nat>)
    ensures forall v {:trigger frames[v]} :: v in frames ==> InRange(frames, frames[v])
  {
  }

  lemma OwnedAfter(frames: map<nat, nat>, v: nat, n: nat)
    requires v !in frames
    ensures forall k :: InRange(frames[v := n], k) <==> k == n || InRange(frames, k)
  {
    var f := frames[v := n];
    forall k | InRange(frames, k)
      ensures InRange(f, k)
    {
      var w :| w in frames && frames[w] == k;
      assert w in f && f[w] == k;
    }
    assert f[v] == n;
  }

  lemma BitPlace(word: nat, bit: nat)
    requires bit < 32
    ensures (word * 32 + bit) / 32 == word && (word * 32 + bit) % 32 == bit
  {
  }

  lemma SamePlace(a: nat)
    requires HEAP_BASE <= a < U32
    ensures var page := a - a % 4096;
            HeapPage(page) && DirectoryIndex(page) == DirectoryIndex(a) && EntryIndex(page) == EntryIndex(a)
  {
  }

  lemma FrameEntry(f: nat)
    requires f % 4096 == 0
    ensures Back(f + FLAGS) == f && (f + FLAGS) % 2 == 1 && (f + FLAGS) % 4096 == 0x27
  {
  }

  lemma TableWalk(base: nat, t: nat)
    requires base % 4096 == 0 && t < TABLES
    ensures var d := base + t * 4096 + FLAGS;
            d % 2 == 1 && d % 4096 == 0x27 && Back(d) == base + t * 4096 && (Back(d) - base) / 4096 == t
  {
    var q := base / 4096 + t;
    assert base + t * 4096 == q * 4096;
    FrameEntry(q * 4096);
  }
}
