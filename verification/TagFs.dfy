/** The TagFS image: the writer `write_files` (tagfs/tfsfmt/src/tfsfmt.c, lines 231-365), the FUSE
    driver's `tagfs_read`, `tagfs_mknod`, `tagfs_write` and `tagfs_unlink`
    (tagfs/FUSE_driver/src/tagfs.c, lines 86-329) and the searches of tagfs/utils.c.

    A file's data lies in a chain of sectors linked through the FAT. In the FAT 0 means free and
    0xffff ends a chain, although 0 is also the number of a sector: the format works because links
    only ever go upwards. */
module TagFs {
  import opened Options

  // The end of a chain, and the first sector of a file without one.
  const END: nat := 0xffff

  // A file metadata entry; the empty name marks it free.
  datatype Entry = Entry(first: nat, size: nat, name: string)

  // ---------------------------------------------------------------------------
  // Byte positions

  /** The position of the first byte of the `t`-th sector of a file. */
  function Start(t: nat, ss: nat): nat {
    t * ss
  }

  lemma StartNext(t: nat, ss: nat)
    ensures Start(t + 1, ss) == Start(t, ss) + ss
    ensures Start(0, ss) == 0 && Start(1, ss) == ss
  {
  }

  lemma {:induction false} StartStep(t: nat, u: nat, ss: nat)
    requires t < u
    ensures Start(t, ss) + ss <= Start(u, ss)
  {
    StartNext(u - 1, ss);
    if t < u - 1 { StartStep(t, u - 1, ss); }
  }

  lemma StartOrder(t: nat, u: nat, ss: nat)
    requires ss > 0
    ensures t <= u <==> Start(t, ss) <= Start(u, ss)
    ensures t < u <==> Start(t, ss) + ss <= Start(u, ss)
  {
    if t < u { StartStep(t, u, ss); }
    if u < t { StartStep(u, t, ss); }
  }

  lemma Divided(x: nat, ss: nat)
    requires ss > 0
    ensures x == Start(x / ss, ss) + x % ss && x % ss < ss
  {
  }

  lemma DividedIs(x: nat, q: nat, r: nat, ss: nat)
    requires r < ss && x == Start(q, ss) + r
    ensures x / ss == q && x % ss == r
  {
    Divided(x, ss);
    StartOrder(x / ss, q, ss);
    StartOrder(q, x / ss, ss);
  }

  // ---------------------------------------------------------------------------
  // Chains

  predicate LinkOk(fat: seq<nat>, c: seq<nat>, k: nat)
    requires k < |c|
  {
    && c[k] < |fat|
    && fat[c[k]] == (if k + 1 < |c| then c[k + 1] else END)
    && (k + 1 < |c| ==> c[k] < c[k + 1])
  }

  /** `c` is the chain that starts at `first`; its links go strictly upwards. */
  ghost predicate ChainOk(fat: seq<nat>, first: nat, c: seq<nat>) {
    && first == (if c == [] then END else c[0])
    && forall k: nat :: k < |c| ==> LinkOk(fat, c, k)
  }

  /** The chain has max(1, ceil(size / ss)) sectors, or the file is empty and has none. */
  predicate SizeOk(size: nat, count: nat, ss: nat) {
    if count == 0 then size == 0 else
    size <= Start(count, ss) && (Start(count - 1, ss) < size || count == 1)
  }

  ghost predicate FileOk(fat: seq<nat>, e: Entry, c: seq<nat>, ss: nat) {
    if e.name == "" then c == [] else ChainOk(fat, e.first, c) && SizeOk(e.size, |c|, ss)
  }

  ghost predicate Apart(c: seq<nat>, d: seq<nat>) {
    forall x :: x in c ==> x !in d
  }

  ghost predicate OnChain(chains: seq<seq<nat>>, x: nat) {
    exists i: nat :: i < |chains| && x in chains[i]
  }

  /** Every file has its chain, the chains are disjoint, and exactly the sectors on a chain are in use. */
  ghost predicate ImageOk(fat: seq<nat>, metas: seq<Entry>, chains: seq<seq<nat>>, ss: nat) {
    && ss > 0 && |fat| <= END && |chains| == |metas|
    && (forall i: nat :: i < |metas| ==> FileOk(fat, metas[i], chains[i], ss))
    && (forall i: nat, j: nat :: i < |chains| && j < |chains| && i != j ==> Apart(chains[i], chains[j]))
    && (forall x: nat :: x < |fat| ==> (fat[x] != 0 <==> OnChain(chains, x)))
  }

  lemma {:induction false} ChainIncreases(fat: seq<nat>, c: seq<nat>, i: nat, j: nat)
    requires i < j < |c| && forall k: nat :: k < |c| ==> LinkOk(fat, c, k)
    ensures c[i] < c[j]
  {
    assert LinkOk(fat, c, j - 1);
    if i < j - 1 { ChainIncreases(fat, c, i, j - 1); }
  }

  /** File `i` gets entry `e` and chain `c`, made of its old sectors and free ones; nothing else in the
      FAT changes. The image stays well formed. */
  lemma Replaced(fat: seq<nat>, fat2: seq<nat>, metas: seq<Entry>, chains: seq<seq<nat>>, ss: nat, i: nat, e: Entry, c: seq<nat>)
    requires ImageOk(fat, metas, chains, ss) && i < |metas| && |fat2| == |fat|
    requires forall x: nat :: x < |fat| && x !in c ==> fat2[x] == fat[x]
    requires forall x :: x in c ==> x < |fat| && (fat[x] == 0 || x in chains[i])
    requires forall x :: x in chains[i] ==> x in c
    requires FileOk(fat2, e, c, ss)
    requires forall x :: x in c ==> fat2[x] != 0
    ensures ImageOk(fat2, metas[i := e], chains[i := c], ss)
  {
    var chains2 := chains[i := c];
    forall j: nat | j < |chains| && j != i
      ensures Apart(chains[j], c)
    {
      forall x | x in chains[j]
        ensures x !in c
      {
        assert OnChain(chains, x);
      }
    }
    forall j: nat | j < |metas| && j != i
      ensures FileOk(fat2, metas[j], chains[j], ss)
    {
      ChainKept(fat, fat2, metas[j], chains[j], ss, c);
    }
    forall x: nat | x < |fat|
      ensures fat2[x] != 0 <==> OnChain(chains2, x)
    {
      OnChainAfter(chains, i, c, x);
    }
  }

  lemma ChainKept(fat: seq<nat>, fat2: seq<nat>, e: Entry, d: seq<nat>, ss: nat, c: seq<nat>)
    requires FileOk(fat, e, d, ss) && |fat2| == |fat| && Apart(d, c)
    requires forall x: nat :: x < |fat| && x !in c ==> fat2[x] == fat[x]
    ensures FileOk(fat2, e, d, ss)
  {
    hide Start;
    if e.name != "" {
      forall k: nat | k < |d|
        ensures LinkOk(fat2, d, k)
      {
        assert LinkOk(fat, d, k) && d[k] in d;
      }
    }
  }

  lemma OnChainAfter(chains: seq<seq<nat>>, i: nat, c: seq<nat>, x: nat)
    requires i < |chains| && forall y :: y in chains[i] ==> y in c
    ensures OnChain(chains[i := c], x) <==> x in c || OnChain(chains, x)
  {
    if x in c { assert x in chains[i := c][i]; }
    if OnChain(chains, x) {
      var j: nat :| j < |chains| && x in chains[j];
      assert x in chains[i := c][j];
    }
    if OnChain(chains[i := c], x) {
      var j: nat :| j < |chains| && x in chains[i := c][j];
      if j != i { assert x in chains[j]; }
    }
  }

  // ---------------------------------------------------------------------------
  // Contents

  /** Sectors `0..n` exist and have `ss` bytes each. */
  ghost predicate SectorsOk(data: seq<seq<int>>, n: nat, ss: nat) {
    n <= |data| && forall s: nat :: s < |data| ==> |data[s]| == ss
  }

  ghost predicate Below(c: seq<nat>, n: nat) {
    forall k: nat :: k < |c| ==> c[k] < n
  }

  /** The sectors of a chain, one after the other. */
  function Flat(data: seq<seq<int>>, c: seq<nat>): seq<int>
    requires Below(c, |data|)
  {
    if c == [] then [] else Flat(data, c[..|c| - 1]) + data[c[|c| - 1]]
  }

  lemma {:induction false} FlatLength(data: seq<seq<int>>, n: nat, ss: nat, c: seq<nat>)
    requires SectorsOk(data, n, ss) && Below(c, n)
    ensures |Flat(data, c)| == Start(|c|, ss)
  {
    if c == [] {
      StartNext(0, ss);
    } else {
      FlatLength(data, n, ss, c[..|c| - 1]);
      StartNext(|c| - 1, ss);
    }
  }

  /** The bytes of sector `t` of the chain. */
  lemma {:induction false} FlatAt(data: seq<seq<int>>, n: nat, ss: nat, c: seq<nat>, t: nat)
    requires SectorsOk(data, n, ss) && Below(c, n) && t < |c|
    ensures Start(t, ss) + ss <= |Flat(data, c)|
    ensures Flat(data, c)[Start(t, ss)..Start(t, ss) + ss] == data[c[t]]
  {
    hide Start;
    var m: nat := |c| - 1;
    FlatLength(data, n, ss, c);
    FlatLength(data, n, ss, c[..m]);
    StartNext(m, ss);
    if t < m {
      FlatAt(data, n, ss, c[..m], t);
      assert c[..m][t] == c[t];
    }
  }

  /** A chain none of whose sectors is written keeps its bytes. */
  lemma {:induction false} FlatKept(data: seq<seq<int>>, data2: seq<seq<int>>, c: seq<nat>)
    requires |data2| == |data| && Below(c, |data|) && forall k: nat :: k < |c| ==> data2[c[k]] == data[c[k]]
    ensures Flat(data2, c) == Flat(data, c)
  {
    if c != [] { FlatKept(data, data2, c[..|c| - 1]); }
  }

  /** The first `size` bytes of a chain. */
  function FileBytes(data: seq<seq<int>>, c: seq<nat>, size: nat): seq<int>
    requires Below(c, |data|)
  {
    var flat := Flat(data, c);
    if size <= |flat| then flat[..size] else flat
  }

  /** A chain's sectors exist, and hold the whole file. */
  lemma ChainHolds(fat: seq<nat>, e: Entry, c: seq<nat>, data: seq<seq<int>>, ss: nat)
    requires FileOk(fat, e, c, ss) && SectorsOk(data, |fat|, ss)
    ensures Below(c, |fat|) && Below(c, |data|) && |Flat(data, c)| == Start(|c|, ss)
    ensures e.name != "" ==> e.size <= |Flat(data, c)| && |FileBytes(data, c, e.size)| == e.size
  {
    forall k: nat | k < |c|
      ensures c[k] < |fat|
    {
      assert LinkOk(fat, c, k);
    }
    FlatLength(data, |fat|, ss, c);
    StartNext(0, ss);
  }

  // ---------------------------------------------------------------------------
  // Searches

  /** `get_file_id_from_name`, less one: the first entry of that name; `|metas|` when there is none. */
  function FirstNamed(metas: seq<Entry>, name: string): (i: nat)
    ensures i <= |metas|
    ensures i < |metas| ==> metas[i].name == name
    ensures forall k :: 0 <= k < i ==> metas[k].name != name
  {
    if metas == [] || metas[0].name == name then 0 else 1 + FirstNamed(metas[1..], name)
  }

  lemma FirstNamedIs(metas: seq<Entry>, name: string, i: nat)
    requires i <= |metas| && (i < |metas| ==> metas[i].name == name)
    requires forall k :: 0 <= k < i ==> metas[k].name != name
    ensures FirstNamed(metas, name) == i
  {
    assert FirstNamed(metas, name) >= i;
  }

  /** The first free sector from `x` on; `|fat|` when there is none. */
  function NextFree(fat: seq<nat>, x: nat): (y: nat)
    requires x <= |fat|
    ensures x <= y <= |fat| && (y < |fat| ==> fat[y] == 0)
    decreases |fat| - x
  {
    if x == |fat| || fat[x] == 0 then x else NextFree(fat, x + 1)
  }

  lemma {:induction false} NextFreeIs(fat: seq<nat>, x: nat, y: nat)
    requires x <= y <= |fat| && (y < |fat| ==> fat[y] == 0)
    requires forall k :: x <= k < y ==> fat[k] != 0
    ensures NextFree(fat, x) == y
    decreases y - x
  {
    if x < y { NextFreeIs(fat, x + 1, y); }
  }

  /** The number of free sectors from `x` on. */
  function FreeCount(fat: seq<nat>, x: nat): nat
    requires x <= |fat|
    decreases |fat| - x
  {
    if x == |fat| then 0 else (if fat[x] == 0 then 1 else 0) + FreeCount(fat, x + 1)
  }

  lemma {:induction false} FreeCountNext(fat: seq<nat>, x: nat)
    requires x <= |fat|
    ensures var y := NextFree(fat, x); FreeCount(fat, x) == if y == |fat| then 0 else 1 + FreeCount(fat, y + 1)
    decreases |fat| - x
  {
    if x < |fat| && fat[x] != 0 { FreeCountNext(fat, x + 1); }
  }

  // ---------------------------------------------------------------------------
  // Building a chain

  /** While a chain is built, all its sectors but the last are linked and the last is still free. */
  ghost predicate Building(fat0: seq<nat>, fat: seq<nat>, c: seq<nat>) {
    && c != [] && |fat| == |fat0|
    && (forall k: nat :: k < |c| ==> c[k] < |fat| && fat0[c[k]] == 0)
    && (forall k: nat, l: nat :: k < l < |c| ==> c[k] < c[l])
    && (forall k: nat :: k < |c| - 1 ==> LinkOk(fat, c, k))
    && (forall x: nat :: x < |fat| && x !in c[..|c| - 1] ==> fat[x] == fat0[x])
  }

  lemma BuildStart(fat: seq<nat>, x: nat)
    requires x < |fat| && fat[x] == 0
    ensures Building(fat, fat, [x])
  {
  }

  lemma BuildNext(fat0: seq<nat>, fat: seq<nat>, c: seq<nat>, y: nat)
    requires Building(fat0, fat, c) && c[|c| - 1] < y < |fat| && fat0[y] == 0
    ensures Building(fat0, fat[c[|c| - 1] := y], c + [y])
  {
    var fat2, c2 := fat[c[|c| - 1] := y], c + [y];
    forall k: nat | k < |c2| - 1
      ensures LinkOk(fat2, c2, k)
    {
      if k < |c| - 1 { assert LinkOk(fat, c, k) && c[k] != c[|c| - 1]; }
    }
    assert c2[..|c2| - 1] == c;
    forall x: nat | x < |fat| && x !in c
      ensures fat2[x] == fat0[x]
    {
      assert x !in c[..|c| - 1] && x != c[|c| - 1];
    }
  }

  /** Marking the last sector completes the chain. */
  lemma BuildEnd(fat0: seq<nat>, fat: seq<nat>, c: seq<nat>)
    requires Building(fat0, fat, c)
    ensures var fat2 := fat[c[|c| - 1] := END];
            && ChainOk(fat2, c[0], c)
            && (forall x: nat :: x < |fat| && x !in c ==> fat2[x] == fat0[x])
            && (forall x :: x in c ==> fat2[x] != 0)
  {
    var m: nat := |c| - 1;
    var fat2 := fat[c[m] := END];
    forall k: nat | k < |c|
      ensures LinkOk(fat2, c, k) && fat2[c[k]] != 0
    {
      if k < m { assert LinkOk(fat, c, k) && c[k] != c[m]; }
    }
    forall x: nat | x < |fat| && x !in c
      ensures fat2[x] == fat0[x]
    {
      assert x !in c[..m] && x != c[m];
    }
  }

  /** Above the sectors already taken, the search sees the FAT as it was. */
  lemma SearchAbove(fat0: seq<nat>, fat: seq<nat>, c: seq<nat>, x: nat)
    requires Building(fat0, fat, c) && c[|c| - 1] < x <= |fat|
    ensures NextFree(fat, x) == NextFree(fat0, x)
    decreases |fat| - x
  {
    if x < |fat| {
      assert x !in c[..|c| - 1];
      if fat0[x] != 0 { SearchAbove(fat0, fat, c, x + 1); }
    }
  }

  // ---------------------------------------------------------------------------
  // Reading

  datatype ReadResult =
    | Bytes(bytes: seq<int>)
    | NoEntry
    | BadDescriptor
    | OffChain // the walk followed the end mark and reads memory outside the file

  /** What POSIX asks of a read: the bytes from `offset` on, at most `n`, none past the end. */
  function PosixRead(content: seq<int>, n: nat, offset: nat): seq<int> {
    if offset >= |content| then [] else
    if offset + n <= |content| then content[offset..offset + n] else content[offset..]
  }

  lemma PosixReadAt(content: seq<int>, n: nat, offset: nat, k: nat)
    ensures |PosixRead(content, n, offset)| == if offset >= |content| then 0 else Min(n, |content| - offset)
    ensures k < |PosixRead(content, n, offset)| ==> PosixRead(content, n, offset)[k] == content[offset + k]
  {
  }

  lemma PastEnd(content: seq<int>, size: nat, n: nat, offset: nat)
    requires offset >= size == |content|
    ensures PosixRead(content, n, offset) == [] && forall ss: nat :: ss > 0 ==> ReadsRight(size, n, offset, ss)
  {
  }

  /** When `tagfs_read` does what POSIX asks. */
  predicate ReadsRight(size: nat, n: nat, offset: nat, ss: nat)
    requires ss > 0
  {
    offset >= size || offset + n <= size || (offset == 0 && size % ss == 0)
  }

  /** A sector ends and the next begins at position `x`. */
  ghost predicate Boundary(x: nat, ss: nat) {
    exists u: nat :: Start(u, ss) == x
  }

  lemma BoundaryAt(u: nat, ss: nat)
    ensures Boundary(Start(u, ss), ss)
  {
  }

  /** The first sector boundary at or after position `x`. */
  function NextBoundary(x: nat, ss: nat): nat
    requires ss > 0
  {
    Start((x + ss - 1) / ss, ss)
  }

  lemma NextBoundaryIs(x: nat, t: nat, ss: nat)
    requires ss > 0 && Start(t, ss) < x
    ensures Start(t + 1, ss) <= NextBoundary(x, ss)
    ensures x <= Start(t + 1, ss) ==> NextBoundary(x, ss) == Start(t + 1, ss)
    ensures x <= NextBoundary(x, ss) < x + ss && Boundary(NextBoundary(x, ss), ss)
  {
    var u: nat := (x + ss - 1) / ss;
    Divided(x + ss - 1, ss);
    StartNext(t, ss);
    StartOrder(u, t, ss);
    StartOrder(t + 1, u, ss);
    StartOrder(u, t + 1, ss);
    BoundaryAt(u, ss);
    hide Start;
  }

  /** What `tagfs_read` returns from inside a file of `size` bytes whose chain holds `flat`: it stops after
      `n` bytes, or at the first sector boundary with `size` bytes copied, whatever the offset. */
  function ReadOutcome(flat: seq<int>, size: nat, n: nat, offset: nat, ss: nat): ReadResult
    requires ss > 0
  {
    var limit := NextBoundary(offset + size, ss);
    var end := if offset + n <= limit then offset + n else limit;
    if offset <= end <= |flat| then Bytes(flat[offset..end]) else OffChain
  }

  /** That is what POSIX asks exactly when the read ends inside the file or covers, from the beginning, a
      file that fills its sectors. */
  lemma ReadIsRight(flat: seq<int>, size: nat, count: nat, n: nat, offset: nat, ss: nat)
    requires ss > 0 && offset < size && SizeOk(size, count, ss) && |flat| == Start(count, ss)
    ensures size <= |flat|
    ensures ReadOutcome(flat, size, n, offset, ss) == Bytes(PosixRead(flat[..size], n, offset)) <==> ReadsRight(size, n, offset, ss)
  {
    FullSectors(size, count, ss);
    StartNext(0, ss);
    NextBoundaryIs(offset + size, 0, ss);
    assert ReadsRight(size, n, offset, ss) <==> offset + n <= size || (offset == 0 && size == Start(count, ss));
    hide Start, NextBoundary, Boundary, ReadsRight;
    var limit := NextBoundary(offset + size, ss);
    var end := if offset + n <= limit then offset + n else limit;
    var k := if offset + n <= size then n else size - offset;
    assert PosixRead(flat[..size], n, offset) == flat[offset..offset + k];
    assert end <= |flat| ==> |flat[offset..end]| == end - offset;
    if offset == 0 { LimitOfFull(size, count, ss); }
  }

  /** A read from inside a file whose chain holds `flat`. It stops after `n` bytes or at the first sector
      boundary with `size` bytes copied, leaves the chain exactly when both lie past its end, and
      otherwise returns the chain's bytes from the offset on. */
  ghost predicate Answers(r: ReadResult, flat: seq<int>, size: nat, n: nat, offset: nat, ss: nat)
    requires ss > 0
  {
    var stop := NextBoundary(offset + size, ss);
    && (r.OffChain? <==> |flat| < offset + n && |flat| < stop)
    && (r.Bytes? <==> !r.OffChain?)
    && (r.Bytes? ==>
          && |r.bytes| == Min(n, stop - offset)
          && offset + |r.bytes| <= |flat| && r.bytes == flat[offset..offset + |r.bytes|])
  }

  lemma OutcomeAnswers(flat: seq<int>, size: nat, n: nat, offset: nat, ss: nat)
    requires ss > 0 && size > 0 && offset <= |flat|
    ensures Answers(ReadOutcome(flat, size, n, offset, ss), flat, size, n, offset, ss)
    ensures NextBoundary(offset + size, ss) == (offset + size + ss - 1) / ss * ss
    ensures offset + size <= NextBoundary(offset + size, ss) < offset + size + ss
  {
    StartNext(0, ss);
    NextBoundaryIs(offset + size, 0, ss);
    assert NextBoundary(offset + size, ss) == (offset + size + ss - 1) / ss * ss;
    hide NextBoundary, Boundary;
  }

  /** The bytes returned begin with those POSIX asks for, and bytes past the end of the file follow
      unless the read is right. */
  ghost predicate Begins(r: ReadResult, content: seq<int>, size: nat, n: nat, offset: nat, ss: nat)
    requires ss > 0
  {
    var asked := PosixRead(content, n, offset);
    r.Bytes? ==> asked <= r.bytes && (|asked| < |r.bytes| <==> !ReadsRight(size, n, offset, ss))
  }

  lemma OutcomeBegins(flat: seq<int>, size: nat, count: nat, n: nat, offset: nat, ss: nat)
    requires ss > 0 && offset < size && SizeOk(size, count, ss) && |flat| == Start(count, ss)
    ensures size <= |flat| && Begins(ReadOutcome(flat, size, n, offset, ss), flat[..size], size, n, offset, ss)
  {
    ReadIsRight(flat, size, count, n, offset, ss);
    OutcomeAnswers(flat, size, n, offset, ss);
    hide Start, ReadsRight, ReadOutcome, NextBoundary;
    var r := ReadOutcome(flat, size, n, offset, ss);
    var k := if offset + n <= size then n else size - offset;
    var asked := PosixRead(flat[..size], n, offset);
    assert asked == flat[offset..offset + k];
    if r.Bytes? {
      assert r.bytes[..k] == asked;
      assert |asked| == |r.bytes| ==> r.bytes == asked;
    }
  }

  function Min(a: nat, b: nat): nat {
    if a < b then a else b
  }

  lemma LimitOfFull(size: nat, count: nat, ss: nat)
    requires ss > 0 && size > 0 && SizeOk(size, count, ss)
    ensures size == Start(count, ss) ==> NextBoundary(size, ss) == size
  {
    if size == Start(count, ss) {
      StartNext(0, ss);
      StartNext(count - 1, ss);
      NextBoundaryIs(size, count - 1, ss);
    }
  }

  /** A file fills its last sector exactly when its size is a multiple of the sector size. */
  lemma FullSectors(size: nat, count: nat, ss: nat)
    requires ss > 0 && size > 0 && SizeOk(size, count, ss)
    ensures size % ss == 0 <==> size == Start(count, ss)
    ensures Boundary(size, ss) ==> size == Start(count, ss)
  {
    Divided(size, ss);
    StartNext(count - 1, ss);
    var q: nat := size / ss;
    StartOrder(q, count, ss);
    StartOrder(count, q, ss);
    StartOrder(q, count - 1, ss);
    if Boundary(size, ss) {
      var u: nat :| Start(u, ss) == size;
      DividedIs(size, u, 0, ss);
    }
    if size == Start(count, ss) { DividedIs(size, count, 0, ss); }
    hide Start;
  }

  /** The sector of a position inside the file. */
  lemma SectorOf(size: nat, count: nat, ss: nat, offset: nat)
    requires ss > 0 && SizeOk(size, count, ss) && offset < size
    ensures SectorAt(offset, ss) < count && Start(SectorAt(offset, ss), ss) + ByteAt(offset, ss) == offset && ByteAt(offset, ss) < ss
  {
    Divided(offset, ss);
    StartOrder(offset / ss, count, ss);
    StartOrder(count, offset / ss, ss);
  }

  lemma FlatPiece(data: seq<seq<int>>, n: nat, ss: nat, c: seq<nat>, t: nat, x: nat, y: nat)
    requires SectorsOk(data, n, ss) && Below(c, n) && t < |c| && x <= y <= ss
    ensures Start(t, ss) + ss <= |Flat(data, c)|
    ensures Flat(data, c)[Start(t, ss) + x..Start(t, ss) + y] == data[c[t]][x..y]
  {
    hide Start;
    FlatAt(data, n, ss, c, t);
    var f := Flat(data, c);
    var p := Start(t, ss);
    assert f[p..p + ss][x..y] == f[p + x..p + y];
  }

  /** `b` is the bytes of `f` from `x` to `y`. */
  ghost predicate IsPiece(b: seq<int>, f: seq<int>, x: nat, y: nat) {
    x <= y <= |f| && b == f[x..y]
  }

  /** Bytes of sector `t` of the chain extend a piece that ends where they begin. */
  lemma FlatStep(data: seq<seq<int>>, n: nat, ss: nat, c: seq<nat>, t: nat, x: nat, from: nat, to: nat, b: seq<int>)
    requires SectorsOk(data, n, ss) && Below(c, n) && t < |c| && from <= to <= ss
    requires IsPiece(b, Flat(data, c), x, Start(t, ss) + from)
    ensures to <= |data[c[t]]|
    ensures IsPiece(b + data[c[t]][from..to], Flat(data, c), x, Start(t, ss) + to)
  {
    hide Start, Flat;
    FlatPiece(data, n, ss, c, t, from, to);
    var f := Flat(data, c);
    assert f[x..Start(t, ss) + to] == f[x..Start(t, ss) + from] + f[Start(t, ss) + from..Start(t, ss) + to];
  }

  /** `buf` over `content` at an `offset` inside it, which may extend it. */
  function Patched(content: seq<int>, offset: nat, buf: seq<int>): seq<int> {
    if offset > |content| then content else
    content[..offset] + buf + if offset + |buf| <= |content| then content[offset + |buf|..] else []
  }

  /** The sector of a file that holds position `x`, and the place there. */
  function SectorAt(x: nat, ss: nat): nat
    requires ss > 0
  {
    x / ss
  }

  function ByteAt(x: nat, ss: nat): nat
    requires ss > 0
  {
    x % ss
  }

  /** Writing the next sector of a chain being filled. */
  lemma FillSector(data: seq<seq<int>>, n: nat, ss: nat, c: seq<nat>, src: seq<int>, row: seq<int>, count: nat)
    requires SectorsOk(data, n, ss) && Below(c, n) && c != [] && count <= ss == |row|
    requires forall k: nat :: k < |c| - 1 ==> c[k] != c[|c| - 1]
    requires var p := Start(|c| - 1, ss); p + count <= |src| && Flat(data, c[..|c| - 1]) == src[..p] && row[..count] == src[p..p + count]
    ensures var data2 := data[c[|c| - 1] := row];
            && SectorsOk(data2, n, ss) && |Flat(data2, c)| == Start(|c|, ss)
            && Start(|c| - 1, ss) + count <= |Flat(data2, c)|
            && Flat(data2, c)[..Start(|c| - 1, ss) + count] == src[..Start(|c| - 1, ss) + count]
  {
    hide Start;
    var m: nat := |c| - 1;
    var p := Start(m, ss);
    var data2 := data[c[m] := row];
    FlatKept(data, data2, c[..m]);
    FlatLength(data2, n, ss, c);
    StartNext(m, ss);
    assert Flat(data2, c) == src[..p] + row;
    assert (src[..p] + row)[..p + count] == src[..p] + row[..count];
    assert src[..p] + src[p..p + count] == src[..p + count];
  }

  datatype WriteFileResult =
    | Skipped         // name or size out of bounds
    | MetadataFull
    | NoSpace
    | Stored(entry: nat)

  class Image {
    // sector_size
    const ss: nat
    // The file metadata section, the FAT, and the data section by sectors.
    const meta: array<Entry>
    const fat: array<nat>
    const data: array<seq<int>>
    // The chain of each file metadata entry.
    ghost var chains: seq<seq<nat>>

    ghost predicate Valid()
      reads this, meta, fat, data
    {
      ImageOk(fat[..], meta[..], chains, ss) && SectorsOk(data[..], fat.Length, ss)
    }

    /** The bytes of the file in entry `i`. */
    ghost function Content(i: nat): seq<int>
      requires Valid() && i < meta.Length
      reads this, meta, fat, data
    {
      ChainHolds(fat[..], meta[i], chains[i], data[..], ss);
      FileBytes(data[..], chains[i], meta[i].size)
    }

    /** `get_file_id_from_name`, less one. */
    method FindFile(name: string) returns (i: nat)
      ensures i == FirstNamed(meta[..], name)
    {
      i := 0;
      while i < meta.Length && meta[i].name != name
        invariant i <= meta.Length
        invariant forall k :: 0 <= k < i ==> meta[k].name != name
      {
        i := i + 1;
      }
      FirstNamedIs(meta[..], name, i);
    }

    /** Follow `count` links from `first`; the walk fails at the end of the chain. */
    method Skip(first: nat, count: nat, ghost c: seq<nat>) returns (ok: bool, sector: nat)
      requires c != [] && first == c[0] && (count > 0 ==> ChainOk(fat[..], first, c)) && fat.Length <= END
      ensures ok == (count < |c|)
      ensures ok ==> sector == c[count]
    {
      sector := first;
      var left: nat := count;
      while left > 0
        invariant left <= count && count - left < |c| && sector == c[count - left]
      {
        ghost var k: nat := count - left;
        assert LinkOk(fat[..], c, k) && (k + 1 < |c| ==> LinkOk(fat[..], c, k + 1));
        if fat[sector] == END { return false, sector; }
        sector := fat[sector];
        left := left - 1;
      }
      ok := true;
    }

    /** `tagfs_read`. It is right exactly when the read ends inside the file, starts past it, or covers
        from the beginning a file that fills its sectors; otherwise it returns bytes past the end of
        the file or walks off the chain. */
    method Read(name: string, n: nat, offset: nat) returns (r: ReadResult)
      requires Valid() && name != ""
      ensures FirstNamed(meta[..], name) == meta.Length ==> r == NoEntry
      ensures FirstNamed(meta[..], name) < meta.Length ==>
        var i := FirstNamed(meta[..], name);
        && Below(chains[i], data.Length)
        && var flat := Flat(data[..], chains[i]);
        && r == (if offset >= meta[i].size then Bytes([]) else ReadOutcome(flat, meta[i].size, n, offset, ss))
        && (r == Bytes(PosixRead(Content(i), n, offset)) <==> ReadsRight(meta[i].size, n, offset, ss))
        && (offset < meta[i].size ==>
              Answers(r, flat, meta[i].size, n, offset, ss) && Begins(r, Content(i), meta[i].size, n, offset, ss))
    {
      hide Start, Answers, Begins, ReadOutcome, ReadsRight, PosixRead, Flat, SizeOk, SectorAt, ByteAt, ImageOk, LinkOk, NextBoundary;
      var i := FindFile(name);
      if i == meta.Length { return NoEntry; }
      var size := meta[i].size;
      ImageFacts(fat[..], meta[..], chains, ss);
      ghost var c := chains[i];
      FileFacts(i);
      if offset >= size {
        PastEnd(Content(i), size, n, offset);
        return Bytes([]);
      }
      StartNext(0, ss);
      SectorOf(size, |c|, ss, offset);
      var ok, sector := Skip(meta[i].first, SectorAt(offset, ss), c);
      if !ok { return BadDescriptor; }
      r := ReadFrom(sector, size, n, offset, SectorAt(offset, ss), ByteAt(offset, ss), c);
      ReadIsRight(Flat(data[..], c), size, |c|, n, offset, ss);
      OutcomeAnswers(Flat(data[..], c), size, n, offset, ss);
      OutcomeBegins(Flat(data[..], c), size, |c|, n, offset, ss);
    }

    // What the image says of one file.
    lemma FileFacts(i: nat)
      requires Valid() && i < meta.Length && meta[i].name != ""
      ensures ss > 0 && fat.Length <= END && fat.Length <= data.Length && SizeOk(meta[i].size, |chains[i]|, ss)
      ensures ChainOk(fat[..], meta[i].first, chains[i]) && (meta[i].size > 0 ==> chains[i] != [] && meta[i].first == chains[i][0])
      ensures Below(chains[i], fat.Length) && Below(chains[i], data.Length)
      ensures |Flat(data[..], chains[i])| == Start(|chains[i]|, ss) && meta[i].size <= |Flat(data[..], chains[i])|
      ensures Content(i) == Flat(data[..], chains[i])[..meta[i].size] && |Content(i)| == meta[i].size
    {
      assert FileOk(fat[..], meta[i], chains[i], ss);
      ChainHolds(fat[..], meta[i], chains[i], data[..], ss);
    }

    /** The copying part, from the sector that holds `offset`. */
    method ReadFrom(first: nat, size: nat, n: nat, offset: nat, ghost q: nat, skip: nat, ghost c: seq<nat>) returns (r: ReadResult)
      requires OnFile(size, offset, q, skip, c) && first == c[q]
      ensures r == ReadOutcome(Flat(data[..], c), size, n, offset, ss)
    {
      hide Start, Flat, NextBoundary, Boundary;
      StartNext(q, ss);
      StartOrder(q, |c|, ss);
      NextBoundaryIs(offset + size, q, ss);
      if n <= ss - skip {
        FlatPiece(data[..], fat.Length, ss, c, q, skip, skip + n);
        r := Bytes(data[first][skip..skip + n]);
      } else {
        r := CopyOn(first, size, n, offset, q, skip, Flat(data[..], c), c);
      }
    }

    ghost predicate OnFile(size: nat, offset: nat, q: nat, skip: nat, c: seq<nat>)
      reads this, fat, data
    {
      && ss > 0 && SectorsOk(data[..], fat.Length, ss) && fat.Length <= END
      && c != [] && ChainOk(fat[..], c[0], c) && Below(c, fat.Length) && SizeOk(size, |c|, ss) && |Flat(data[..], c)| == Start(|c|, ss)
      && offset < size && q < |c| && Start(q, ss) + skip == offset && skip < ss
    }

    /** `flat` is the bytes of the chain `c`. */
    ghost predicate Reads(flat: seq<int>, c: seq<nat>)
      reads this, fat, data
    {
      SectorsOk(data[..], fat.Length, ss) && Below(c, fat.Length) && flat == Flat(data[..], c)
    }

    /** Copy bytes `from..to` of one sector to the end of the buffer. */
    method CopyBytes(b: seq<int>, sector: nat, from: nat, to: nat, ghost flat: seq<int>, ghost c: seq<nat>, ghost t: nat, ghost x: nat) returns (b2: seq<int>)
      requires Reads(flat, c) && t < |c| && sector == c[t] && from <= to <= ss
      requires IsPiece(b, flat, x, Start(t, ss) + from)
      ensures IsPiece(b2, flat, x, Start(t, ss) + to) && |b2| == |b| + to - from
    {
      hide Start, Flat;
      FlatStep(data[..], fat.Length, ss, c, t, x, from, to, b);
      b2 := b + data[sector][from..to];
    }

    /** The loop over sectors. It stops after `n` bytes, or at a sector boundary once `size` bytes are
        copied (whatever the offset), or when the chain ends. */
    method CopyOn(first: nat, size: nat, n: nat, offset: nat, ghost q: nat, skip: nat, ghost flat: seq<int>, ghost c: seq<nat>) returns (r: ReadResult)
      requires ss > 0 && fat.Length <= END && c != [] && ChainOk(fat[..], c[0], c)
      requires Reads(flat, c) && |flat| == Start(|c|, ss) && offset < size <= |flat|
      requires q < |c| && first == c[q] && Start(q, ss) + skip == offset && skip < ss && n > ss - skip
      ensures r == ReadOutcome(flat, size, n, offset, ss)
      ensures Answers(r, flat, size, n, offset, ss)
    {
      hide Start, Boundary, IsPiece, Reads, NextBoundary, Answers;
      OutcomeAnswers(flat, size, n, offset, ss);
      ghost var t: nat := q;
      StartNext(0, ss);
      StartOrder(1, |c|, ss);
      StartNext(t, ss);
      PieceStart(flat, offset);
      var b := CopyBytes([], first, skip, ss, flat, c, t, offset);
      var sector, index := first, ss - skip;
      while index < n
        invariant t < |c| && sector == c[t] && 0 < index <= n && |b| == index
        invariant IsPiece(b, flat, offset, offset + index)
        invariant index == n || offset + index == Start(t + 1, ss)
        invariant Start(t, ss) < offset + size && offset + index <= Start(t + 1, ss)
        decreases n - index
      {
        NextBoundaryIs(offset + size, t, ss);
        StartOrder(t + 1, |c|, ss);
        if index >= size {
          PieceIs(b, flat, offset, offset + index);
          return Bytes(b);
        }
        assert LinkOk(fat[..], c, t) && (t + 1 < |c| ==> LinkOk(fat[..], c, t + 1));
        sector := fat[sector];
        if sector >= fat.Length { return OffChain; }
        t := t + 1;
        StartNext(t, ss);
        StartOrder(t + 1, |c|, ss);
        var count := if n <= index + ss then n - index else ss;
        b := CopyBytes(b, sector, 0, count, flat, c, t, offset);
        index := index + count;
      }
      NextBoundaryIs(offset + size, t, ss);
      PieceIs(b, flat, offset, offset + index);
      r := Bytes(b);
    }

    /** `find_free_fat`, from `start` on. */
    method FindFree(start: nat) returns (y: nat)
      requires start <= fat.Length
      ensures y == NextFree(fat[..], start)
    {
      y := start;
      while y < fat.Length && fat[y] != 0
        invariant start <= y <= fat.Length
        invariant forall k :: start <= k < y ==> fat[k] != 0
      {
        y := y + 1;
      }
      NextFreeIs(fat[..], start, y);
    }

    /** `fread` of up to one sector into the last sector of the chain being built. */
    method PutSector(sector: nat, src: seq<int>, copied: nat, ghost data0: seq<seq<int>>, ghost c: seq<nat>) returns (total: nat)
      requires c != [] && sector == c[|c| - 1] && sector < fat.Length && forall k: nat :: k < |c| - 1 ==> c[k] != sector
      requires copied == Start(|c| - 1, ss) && Progress(data0, data[..], fat.Length, ss, c[..|c| - 1], src, copied)
      modifies data
      ensures total == if |src| - copied < ss then |src| else copied + ss
      ensures Progress(data0, data[..], fat.Length, ss, c, src, total)
    {
      hide Start, Flat;
      var count := if |src| - copied < ss then |src| - copied else ss;
      ghost var before := data[..];
      assert |before[sector]| == ss;
      var row := src[copied..copied + count] + data[sector][count..];
      PutRow(data0, before, fat.Length, ss, c, src, copied, count, row);
      data[sector] := row;
      assert data[..] == before[sector := row];
      total := copied + count;
    }

    /** The chain builder of `write_files`: one sector at a time, each linked to the next free one above
        it, until the source is copied or no sector is left. */
    method FillChain(first: nat, src: seq<int>) returns (copied: nat, ghost c: seq<nat>)
      requires ss > 0 && SectorsOk(data[..], fat.Length, ss)
      requires first == NextFree(fat[..], 0) && first < fat.Length
      modifies fat, data
      ensures Filled(old(fat[..]), fat[..], old(data[..]), data[..], ss, first, c, src, copied)
    {
      hide Start, Filled, FreeCount, NextFree, Progress, Building;
      var sector := first;
      c := [first];
      copied := 0;
      ghost var fat0, data0 := fat[..], data[..];
      StartNext(0, ss);
      FreeCountNext(fat0, 0);
      NoProgress(data0, fat.Length, ss, src, c);
      BuildStart(fat0, first);
      while true
        invariant c != [] && sector == c[|c| - 1] < fat.Length && c[0] == first && Building(fat0, fat[..], c)
        invariant copied == Start(|c| - 1, ss) && (|c| == 1 || copied < |src|)
        invariant FreeCount(fat0, 0) == |c| + FreeCount(fat0, sector + 1)
        invariant Progress(data0, data[..], fat.Length, ss, c[..|c| - 1], src, copied)
        decreases |src| - copied, |c| == 1
      {
        BuildDistinct(fat0, fat[..], c);
        ProgressBound(data0, data[..], fat.Length, ss, c[..|c| - 1], src, copied);
        copied := PutSector(sector, src, copied, data0, c);
        StartNext(|c| - 1, ss);
        FreeCountNext(fat0, sector + 1);
        if copied == |src| {
          FillEnd(fat0, fat[..], data0, data[..], ss, c, src, copied);
          fat[sector] := END;
          return;
        }
        var next := FindFree(sector + 1);
        SearchAbove(fat0, fat[..], c, sector + 1);
        if next == fat.Length {
          FillEnd(fat0, fat[..], data0, data[..], ss, c, src, copied);
          fat[sector] := END;
          return;
        }
        BuildNext(fat0, fat[..], c, next);
        fat[sector] := next;
        assert (c + [next])[..|c|] == c;
        c := c + [next];
        sector := next;
      }
    }

    /** `format_image`: a zeroed image. */
    constructor (sectorSize: nat, entries: nat, fatEntries: nat, sectors: nat)
      requires 0 < sectorSize && fatEntries <= END && fatEntries <= sectors
      ensures Valid() && ss == sectorSize && meta.Length == entries && fat.Length == fatEntries
      ensures forall i :: 0 <= i < entries ==> meta[i].name == ""
      ensures FreeCount(fat[..], 0) == fatEntries
      ensures fresh(meta) && fresh(fat) && fresh(data)
    {
      ss := sectorSize;
      meta := new Entry[entries](i => Entry(0, 0, ""));
      fat := new nat[fatEntries](i => 0);
      data := new seq<int>[sectors](i => seq(sectorSize, k => 0));
      chains := seq(entries, i => []);
      new;
      AllFree(fat[..], 0);
    }

    /** What storing a file does: its entry and chain change, no other file does, and the image stays
        well formed. */
    twostate predicate StoredAt(i: nat, size: nat, name: string)
      reads this, meta, fat, data
    {
      && old(Valid()) && Valid() && i < meta.Length && |chains| == |old(chains)| == meta.Length
      && meta[i].name == name && meta[i].size == size
      && forall j: nat :: j < meta.Length && j != i ==> meta[j] == old(meta[j]) && chains[j] == old(chains)[j] && Content(j) == old(Content(j))
    }

    /** The body of `write_files` for one source file: `src` is stored under `name`, cut short when the
        free sectors run out. */
    method WriteFile(name: string, src: seq<int>) returns (r: WriteFileResult)
      requires Valid() && name != ""
      modifies meta, fat, data, this`chains
      ensures Valid()
      ensures r.Skipped? <==> |src| > 0xffff_ffff || |name| >= 24
      ensures !r.Skipped? ==> (r.MetadataFull? <==> old(FirstNamed(meta[..], "")) == meta.Length)
      ensures !r.Skipped? && !r.MetadataFull? ==> (r.NoSpace? <==> old(FreeCount(fat[..], 0)) == 0)
      ensures !r.Stored? ==> unchanged(meta) && unchanged(fat) && unchanged(data) && chains == old(chains)
      ensures r.Stored? ==>
        && r.entry == old(FirstNamed(meta[..], "")) && StoredAt(r.entry, meta[r.entry].size, name)
        && meta[r.entry].size <= |src| && Content(r.entry) == src[..meta[r.entry].size]
        && (meta[r.entry].size == |src| <==> |src| <= Start(old(FreeCount(fat[..], 0)), ss))
    {
      hide ImageOk, SectorsOk, Filled, Start, FileOk, Flat, FreeCount;
      if |src| > 0xffff_ffff || |name| >= 24 { return Skipped; }
      var i := FindFile("");
      if i == meta.Length { return MetadataFull; }
      var first := FindFree(0);
      FreeCountNext(fat[..], 0);
      if first == fat.Length { return NoSpace; }
      ImageFacts(fat[..], meta[..], chains, ss);
      ghost var metas0, fat0, data0 := meta[..], fat[..], data[..];
      var copied;
      ghost var c;
      copied, c := FillChain(first, src);
      meta[i] := Entry(first, copied, name);
      assert meta[..] == metas0[i := Entry(first, copied, name)];
      StoredOk(fat0, fat[..], metas0, chains, data0, data[..], ss, i, name, first, c, src, copied);
      chains := chains[i := c];
      r := Stored(i);
    }

    /** The round trip: a file stored whole under a fresh name reads back, from any offset inside it. */
    method WriteThenRead(name: string, src: seq<int>, n: nat, offset: nat) returns (r: ReadResult)
      requires Valid() && 0 < |name| < 24 && |src| <= 0xffff_ffff
      requires FirstNamed(meta[..], name) == meta.Length && FirstNamed(meta[..], "") < meta.Length
      requires 0 < FreeCount(fat[..], 0) && |src| <= Start(FreeCount(fat[..], 0), ss)
      requires offset + n <= |src|
      modifies meta, fat, data, this`chains
      ensures Valid() && r == Bytes(src[offset..offset + n])
    {
      hide ImageOk, SectorsOk, Start, FileOk, Flat, FreeCount, FirstNamed;
      ghost var metas := meta[..];
      var w := WriteFile(name, src);
      ghost var i := w.entry;
      NowNamed(metas, meta[..], name, i);
      assert Content(i) == src;
      assert src[..|src|] == src;
      r := Read(name, n, offset);
      assert offset + n <= |src| ==> PosixRead(src, n, offset) == src[offset..offset + n];
    }

    /** `tagfs_mknod`: a regular file starts without a chain. */
    method MakeNode(name: string, regular: bool) returns (r: NodeResult)
      requires Valid() && name != ""
      modifies meta, this`chains
      ensures Valid()
      ensures r == if !regular then NotImplemented else if |name| >= 24 then NameTooLong
                   else if old(FirstNamed(meta[..], "")) == meta.Length then NoSpaceLeft else Made(old(FirstNamed(meta[..], "")))
      ensures !r.Made? ==> unchanged(meta) && chains == old(chains)
      ensures r.Made? ==> StoredAt(r.entry, 0, name) && chains[r.entry] == [] && Content(r.entry) == []
    {
      hide ImageOk, SectorsOk, Start, FileOk, Flat;
      if !regular { return NotImplemented; }
      if |name| >= 24 { return NameTooLong; }
      var i := FindFile("");
      if i == meta.Length { return NoSpaceLeft; }
      ImageFacts(fat[..], meta[..], chains, ss);
      ghost var metas := meta[..];
      meta[i] := Entry(END, 0, name);
      assert meta[..] == metas[i := Entry(END, 0, name)];
      MadeOk(fat[..], metas, chains, data[..], ss, i, name);
      chains := chains[i := []];
      r := Made(i);
    }

    // The `memcpy` into one sector, which ends its chain if it was free.
    method PutInSector(target: nat, skip: nat, buf: seq<int>)
      requires target < fat.Length && target < data.Length && skip + |buf| <= |data[target]|
      modifies fat, data
      ensures data[..] == old(data[..])[target := old(data[target])[..skip] + buf + old(data[target])[skip + |buf|..]]
      ensures fat[..] == if old(fat[target]) == 0 then old(fat[..])[target := END] else old(fat[..])
    {
      data[target] := data[target][..skip] + buf + data[target][skip + |buf|..];
      if fat[target] == 0 { fat[target] := END; }
    }

    // The file's first sector, a free one if it has none.
    method FirstSector(i: nat, ghost offset: nat) returns (sector: nat, ghost c: seq<nat>)
      requires Valid() && i < meta.Length && meta[i].name != "" && offset <= meta[i].size
      modifies meta
      ensures i < |chains| && fat.Length <= END
      ensures sector == fat.Length <==> chains[i] == [] && NextFree(fat[..], 0) == fat.Length
      ensures sector == fat.Length || chains[i] != [] ==> unchanged(meta)
      ensures sector != fat.Length ==>
        && sector < fat.Length && c != [] && c[0] == sector && meta[..] == old(meta[..])[i := old(meta[i]).(first := sector)]
        && if chains[i] == [] then c == [sector] && fat[sector] == 0 else c == chains[i] && ChainOk(fat[..], sector, c)
    {
      hide ImageOk, SectorsOk, Start, Flat, NextFree, FileBytes, SizeOk, SectorAt, ByteAt, FileOk, LinkOk;
      ImageFacts(fat[..], meta[..], chains, ss);
      WriteFacts(fat[..], meta[..], chains, data[..], ss, i, offset);
      c := chains[i];
      if meta[i].first == END {
        sector := FindFree(0);
        if sector == fat.Length { return; }
        ghost var metas := meta[..];
        meta[i] := meta[i].(first := sector);
        assert meta[..] == metas[i := meta[i]];
        c := [sector];
      } else {
        sector := meta[i].first;
        assert meta[..][i := meta[i].(first := sector)] == meta[..];
      }
    }

    // The body of `tagfs_write` for one sector.
    method PutBytes(name: string, buf: seq<int>, offset: nat) returns (r: WriteResult)
      requires Valid() && name != ""
      requires var i := FirstNamed(meta[..], name);
               i < meta.Length ==> offset <= meta[i].size && ByteAt(offset, ss) + |buf| <= ss
      modifies meta, fat, data, this`chains
      ensures Valid()
      ensures r == WriteOutcome(old(meta[..]), old(chains), old(fat[..]), ss, name, |buf|, offset)
      ensures !r.Wrote? ==> unchanged(meta) && unchanged(fat) && unchanged(data) && chains == old(chains)
      ensures r.Wrote? ==>
        var i := old(FirstNamed(meta[..], name));
        StoredAt(i, meta[i].size, name) && Content(i) == Patched(old(Content(i)), offset, buf[..r.count])
    {
      hide ImageOk, SectorsOk, Start, Flat, FirstNamed, NextFree, FreeCount, FileBytes, SizeOk, Patched, SectorAt, ByteAt, FileOk;
      assert buf[..|buf|] == buf;
      var i := FindFile(name);
      if i == meta.Length { return NoFile; }
      ImageFacts(fat[..], meta[..], chains, ss);
      WriteFacts(fat[..], meta[..], chains, data[..], ss, i, offset);
      PatchedNone(Content(i), offset);
      ghost var metas0, fat0, data0 := meta[..], fat[..], data[..];
      var sector;
      ghost var c;
      sector, c := FirstSector(i, offset);
      if sector == fat.Length { return Wrote(0); }
      var ok, target := Skip(sector, SectorAt(offset, ss), c);
      if !ok { return WriteBadDescriptor; }
      var skip := ByteAt(offset, ss);
      SectorLength(data[..], fat.Length, ss, target);
      PutInSector(target, skip, buf);
      if offset + |buf| > meta[i].size { meta[i] := meta[i].(size := offset + |buf|); }
      assert meta[..] == metas0[i := meta[i]];
      WrittenOk(fat0, metas0, chains, data0, ss, i, meta[i], c, buf, offset);
      chains := chains[i := c];
      r := Wrote(|buf|);
    }

    /** `tagfs_write` inside one sector, at an offset no larger than the file. Appending right at a sector
        boundary fails, because the chain is walked one link too far. */
    method WriteSector(name: string, buf: seq<int>, offset: nat) returns (r: WriteResult)
      requires Valid() && name != ""
      requires var i := FirstNamed(meta[..], name);
               i < meta.Length ==> offset <= meta[i].size && ByteAt(offset, ss) + |buf| <= ss
      modifies meta, fat, data, this`chains
      ensures Valid()
      ensures r.NoFile? <==> forall k :: 0 <= k < meta.Length ==> old(meta[k].name) != name
      ensures !r.NoFile? ==>
        var i := old(FirstNamed(meta[..], name));
        && (r.WriteBadDescriptor? <==> 0 < offset == old(meta[i].size) && offset % ss == 0)
        && (r.Wrote? <==> !r.WriteBadDescriptor?)
        && (r.Wrote? ==> r.count == if old(chains)[i] == [] && old(FreeCount(fat[..], 0)) == 0 then 0 else |buf|)
      ensures !r.Wrote? ==> unchanged(meta) && unchanged(fat) && unchanged(data) && chains == old(chains)
      ensures r.Wrote? ==>
        var i := old(FirstNamed(meta[..], name));
        StoredAt(i, meta[i].size, name) && Content(i) == Patched(old(Content(i)), offset, buf[..r.count])
    {
      hide ImageOk, SectorsOk, FirstNamed, Flat, Patched, FileBytes, FreeCount, WriteOutcome, ByteAt;
      ImageFacts(fat[..], meta[..], chains, ss);
      WriteAnswers(meta[..], chains, fat[..], ss, name, |buf|, offset);
      r := PutBytes(name, buf, offset);
    }

    /** What a write has taken is read back from the same place. */
    method OverwriteThenRead(name: string, buf: seq<int>, offset: nat) returns (w: WriteResult, r: ReadResult)
      requires Valid() && name != ""
      requires var i := FirstNamed(meta[..], name);
               i < meta.Length ==> offset <= meta[i].size && ByteAt(offset, ss) + |buf| <= ss
      modifies meta, fat, data, this`chains
      ensures Valid() && (w == Wrote(|buf|) ==> r == Bytes(buf))
    {
      hide ImageOk, SectorsOk, Flat, Patched, FileBytes, FreeCount, WriteOutcome, ByteAt, PosixRead, Answers, Begins, FirstNamed, ReadOutcome;
      ghost var metas, i := meta[..], FirstNamed(meta[..], name);
      if i < meta.Length { FileFacts(i); }
      w := WriteSector(name, buf, offset);
      if w == Wrote(|buf|) {
        StillNamed(metas, meta[..], name);
        FileFacts(i);
        assert buf[..|buf|] == buf;
        PatchedReads(old(Content(i)), offset, buf);
        PatchedAt(old(Content(i)), offset, buf, 0);
      }
      r := Read(name, |buf|, offset);
    }

    /** `tagfs_unlink` of an existing file with at most one sector. */
    method Unlink(name: string)
      requires Valid() && name != "" && FirstNamed(meta[..], name) < meta.Length
      requires |chains[FirstNamed(meta[..], name)]| <= 1
      modifies meta, fat, this`chains
      ensures Valid()
      ensures var i := old(FirstNamed(meta[..], name));
              StoredAt(i, meta[i].size, "") && chains[i] == []
      ensures FreeCount(fat[..], 0) == old(FreeCount(fat[..], 0)) + |old(chains[FirstNamed(meta[..], name)])|
    {
      hide ImageOk, SectorsOk, Start, Flat, FirstNamed, FileBytes, FileOk;
      var i := FindFile(name);
      ImageFacts(fat[..], meta[..], chains, ss);
      ghost var metas0, fat0, c := meta[..], fat[..], chains[i];
      UnlinkFacts(fat0, metas0, chains, ss, i);
      meta[i] := meta[i].(name := "");
      assert meta[..] == metas0[i := meta[i]];
      if meta[i].first != END {
        var x := meta[i].first;
        fat[x] := 0;
        FreeCountFreed(fat0, 0, x);
      }
      assert fat[..] == Cleared(fat0, c);
      UnlinkedOk(fat0, metas0, chains, data[..], ss, i, meta[i]);
      chains := chains[i := []];
    }
  }

  /** The FAT with the sectors of a chain free again. */
  function Cleared(fat: seq<nat>, c: seq<nat>): (r: seq<nat>)
    requires Below(c, |fat|)
    ensures |r| == |fat|
  {
    if c == [] then fat else Cleared(fat, c[..|c| - 1])[c[|c| - 1] := 0]
  }

  lemma UnlinkFacts(fat: seq<nat>, metas: seq<Entry>, chains: seq<seq<nat>>, ss: nat, i: nat)
    requires ImageOk(fat, metas, chains, ss) && i < |metas| && metas[i].name != "" && |chains[i]| <= 1
    ensures Below(chains[i], |fat|) && (metas[i].first == END <==> chains[i] == [])
    ensures chains[i] != [] ==> chains[i] == [metas[i].first] && metas[i].first < |fat| && fat[metas[i].first] != 0
    ensures Cleared(fat, chains[i]) == if chains[i] == [] then fat else fat[metas[i].first := 0]
  {
    assert FileOk(fat, metas[i], chains[i], ss);
    if chains[i] != [] {
      assert LinkOk(fat, chains[i], 0);
      assert chains[i][..0] == [];
    }
  }

  /** Taking a file with at most one sector away leaves a well-formed image. */
  lemma UnlinkedOk(fat: seq<nat>, metas: seq<Entry>, chains: seq<seq<nat>>, data: seq<seq<int>>, ss: nat, i: nat, e: Entry)
    requires ImageOk(fat, metas, chains, ss) && i < |metas| && metas[i].name != "" && |chains[i]| <= 1 && e.name == ""
    ensures Below(chains[i], |fat|) && ImageOk(Cleared(fat, chains[i]), metas[i := e], chains[i := []], ss)
  {
    hide Start, FileOk, Cleared, OnChain, Apart;
    ImageFacts(fat, metas, chains, ss);
    UnlinkFacts(fat, metas, chains, ss, i);
    NoneApart(chains);
    var c := chains[i];
    var fat2 := if c == [] then fat else fat[metas[i].first := 0];
    FreeEntry(fat2, e, ss);
    forall j: nat | j < |metas| && j != i
      ensures FileOk(fat2, metas[j], chains[j], ss)
    {
      assert Apart(chains[j], c);
      ChainKept(fat, fat2, metas[j], chains[j], ss, c);
    }
    forall x: nat | x < |fat|
      ensures fat2[x] != 0 <==> OnChain(chains[i := []], x)
    {
      OnChainWithout(chains, i, x);
    }
  }

  lemma NoneApart(chains: seq<seq<nat>>)
    ensures forall j: nat :: j < |chains| ==> Apart(chains[j], []) && Apart([], chains[j])
  {
  }

  lemma FreeEntry(fat: seq<nat>, e: Entry, ss: nat)
    requires e.name == ""
    ensures FileOk(fat, e, [], ss)
  {
  }

  lemma OnChainWithout(chains: seq<seq<nat>>, i: nat, x: nat)
    requires i < |chains| && forall j: nat :: j < |chains| && j != i ==> Apart(chains[j], chains[i])
    ensures OnChain(chains[i := []], x) <==> OnChain(chains, x) && x !in chains[i]
  {
    var after := chains[i := []];
    if OnChain(after, x) {
      var j: nat :| j < |after| && x in after[j];
      assert j != i && x in chains[j];
    }
    if OnChain(chains, x) && x !in chains[i] {
      var j: nat :| j < |chains| && x in chains[j];
      assert x in after[j];
    }
  }

  lemma {:induction false} FreeCountFreed(fat: seq<nat>, y: nat, x: nat)
    requires y <= |fat| && x < |fat| && fat[x] != 0
    ensures FreeCount(fat[x := 0], y) == FreeCount(fat, y) + if y <= x then 1 else 0
    decreases |fat| - y
  {
    if y < |fat| { FreeCountFreed(fat, y + 1, x); }
  }

  /** The loop of `tagfs_unlink`. It clears an entry and then follows the entry it has just cleared, so
      the walk always goes on at sector 0. */
  function UnlinkLoop(fat: seq<nat>, x: nat, fuel: nat): Option<seq<nat>>
    decreases fuel
  {
    if fuel == 0 || x >= |fat| then None else
    var next := fat[x];
    var cleared := fat[x := 0];
    if next == END then Some(cleared) else UnlinkLoop(cleared, cleared[x], fuel - 1)
  }

  /** The loop frees exactly the file's chain if and only if the chain has one sector. */
  lemma {:induction false} UnlinkIsRight(fat: seq<nat>, c: seq<nat>)
    requires |fat| <= END && c != [] && forall k: nat :: k < |c| ==> LinkOk(fat, c, k)
    ensures Below(c, |fat|)
    ensures (exists fuel: nat :: UnlinkLoop(fat, c[0], fuel) == Some(Cleared(fat, c))) <==> |c| == 1
  {
    forall k: nat | k < |c|
      ensures c[k] < |fat|
    {
      assert LinkOk(fat, c, k);
    }
    assert LinkOk(fat, c, 0);
    if |c| == 1 {
      assert c[..0] == [] && Cleared(fat, c) == fat[c[0] := 0];
      assert UnlinkLoop(fat, c[0], 1) == Some(Cleared(fat, c));
    } else {
      assert LinkOk(fat, c, 1);
      ClearedAt(fat, c, 1);
      forall fuel: nat
        ensures UnlinkLoop(fat, c[0], fuel) != Some(Cleared(fat, c))
      {
        UnlinkMisses(fat, c[0], c[1], fuel);
      }
    }
  }

  /** A sector other than the first and sector 0 is never cleared. */
  lemma {:induction false} UnlinkMisses(fat: seq<nat>, x: nat, y: nat, fuel: nat)
    requires y < |fat| && y != x && y != 0
    ensures var r := UnlinkLoop(fat, x, fuel); r.Some? ==> |r.value| == |fat| && r.value[y] == fat[y]
    decreases fuel
  {
    if fuel > 0 && x < |fat| && fat[x] != END { UnlinkMisses(fat[x := 0], 0, y, fuel - 1); }
  }

  lemma {:induction false} ClearedAt(fat: seq<nat>, c: seq<nat>, k: nat)
    requires Below(c, |fat|) && k < |c|
    ensures Cleared(fat, c)[c[k]] == 0
  {
    if k < |c| - 1 { ClearedAt(fat, c[..|c| - 1], k); assert c[..|c| - 1][k] == c[k]; }
  }

  datatype WriteResult = Wrote(count: nat) | NoFile | WriteBadDescriptor

  /** What a write answers. */
  ghost function WriteOutcome(metas: seq<Entry>, chains: seq<seq<nat>>, fat: seq<nat>, ss: nat, name: string, n: nat, offset: nat): WriteResult
    requires ss > 0 && |chains| == |metas|
  {
    var i := FirstNamed(metas, name);
    if i == |metas| then NoFile
    else if metas[i].size == offset && offset > 0 && ByteAt(offset, ss) == 0 then WriteBadDescriptor
    else if chains[i] == [] && NextFree(fat, 0) == |fat| then Wrote(0)
    else Wrote(n)
  }

  /** The answers one by one: no file has the name; an append at a sector boundary; and otherwise all of
      the buffer is taken, unless the file has no sector and none is free. */
  lemma WriteAnswers(metas: seq<Entry>, chains: seq<seq<nat>>, fat: seq<nat>, ss: nat, name: string, n: nat, offset: nat)
    requires ss > 0 && |chains| == |metas|
    ensures var r, i := WriteOutcome(metas, chains, fat, ss, name, n, offset), FirstNamed(metas, name);
            && (r.NoFile? <==> forall k :: 0 <= k < |metas| ==> metas[k].name != name)
            && (r.NoFile? <==> i == |metas|)
            && (!r.NoFile? ==>
                  && (r.WriteBadDescriptor? <==> 0 < offset == metas[i].size && offset % ss == 0)
                  && (r.Wrote? <==> !r.WriteBadDescriptor?)
                  && (r.Wrote? ==> r.count == if chains[i] == [] && FreeCount(fat, 0) == 0 then 0 else n))
  {
    FreeCountNext(fat, 0);
    hide FirstNamed, FreeCount, NextFree;
  }

  /** Byte by byte: the buffer where it was written, and elsewhere what was there. */
  lemma PatchedAt(content: seq<int>, offset: nat, buf: seq<int>, k: nat)
    requires offset <= |content|
    ensures |Patched(content, offset, buf)| == Max(|content|, offset + |buf|)
    ensures k < Max(|content|, offset + |buf|) ==>
      Patched(content, offset, buf)[k] == if offset <= k < offset + |buf| then buf[k - offset] else content[k]
  {
  }

  lemma PatchedReads(content: seq<int>, offset: nat, buf: seq<int>)
    requires offset <= |content|
    ensures PosixRead(Patched(content, offset, buf), |buf|, offset) == buf
  {
    var p := Patched(content, offset, buf);
    if buf != [] {
      assert p[offset..offset + |buf|] == buf;
    }
  }

  lemma PatchedNone(content: seq<int>, offset: nat)
    ensures Patched(content, offset, []) == content
  {
  }

  lemma SectorLength(data: seq<seq<int>>, n: nat, ss: nat, x: nat)
    requires SectorsOk(data, n, ss) && x < n
    ensures x < |data| && |data[x]| == ss
  {
  }

  /** The chain of a file against the offset of a write. */
  lemma WriteFacts(fat: seq<nat>, metas: seq<Entry>, chains: seq<seq<nat>>, data: seq<seq<int>>, ss: nat, i: nat, offset: nat)
    requires ImageOk(fat, metas, chains, ss) && i < |metas| && metas[i].name != "" && offset <= metas[i].size && SectorsOk(data, |fat|, ss)
    ensures var c := chains[i];
            && (metas[i].first == END <==> c == [])
            && (c == [] ==> offset == 0 && SectorAt(offset, ss) == 0 && ByteAt(offset, ss) == 0 && metas[i].size == 0)
            && (c != [] ==> ChainOk(fat, metas[i].first, c) && Below(c, |fat|) && metas[i].first == c[0])
            && (c != [] ==> (SectorAt(offset, ss) < |c| <==> !(metas[i].size == offset && offset > 0 && ByteAt(offset, ss) == 0)))
  {
    var c := chains[i];
    assert FileOk(fat, metas[i], c, ss);
    ChainHolds(fat, metas[i], c, data, ss);
    if c != [] {
      var q: nat := SectorAt(offset, ss);
      Divided(offset, ss);
      StartNext(0, ss);
      StartOrder(q, |c|, ss);
      StartOrder(|c|, q, ss);
      StartOrder(|c| - 1, q, ss);
      if metas[i].size > 0 { FullSectors(metas[i].size, |c|, ss); }
      hide Start;
    } else {
      StartNext(0, ss);
      DividedIs(0, 0, 0, ss);
    }
  }

  function Max(x: nat, y: nat): nat {
    if x < y then y else x
  }

  /** The file's chain for a write at `offset`: its own, or one free sector when it has none. */
  ghost predicate WriteChain(fat: seq<nat>, own: seq<nat>, c: seq<nat>, offset: nat, ss: nat)
    requires ss > 0
  {
    && c != [] && SectorAt(offset, ss) < |c|
    && if own != [] then c == own else |c| == 1 && c[0] < |fat| && fat[c[0]] == 0 && offset == 0
  }

  lemma FatMarked(fat: seq<nat>, metas: seq<Entry>, chains: seq<seq<nat>>, ss: nat, i: nat, e: Entry, c: seq<nat>, offset: nat)
    requires ImageOk(fat, metas, chains, ss) && i < |metas| && metas[i].name != "" && WriteChain(fat, chains[i], c, offset, ss)
    requires e.first == c[0] && e.name == metas[i].name && SizeOk(e.size, |c|, ss)
    ensures Below(c, |fat|)
    ensures var target := c[SectorAt(offset, ss)];
            var fat2 := if fat[target] == 0 then fat[target := END] else fat;
            ImageOk(fat2, metas[i := e], chains[i := c], ss)
  {
    hide Start, SizeOk;
    assert FileOk(fat, metas[i], chains[i], ss);
    var target := c[SectorAt(offset, ss)];
    if chains[i] != [] {
      forall x | x in c
        ensures x < |fat| && fat[x] != 0
      {
        var k: nat :| k < |c| && c[k] == x;
        assert LinkOk(fat, c, k) && OnChain(chains, x);
      }
      assert target in c;
      forall k: nat | k < |c|
        ensures c[k] < |fat|
      {
        assert LinkOk(fat, c, k);
      }
      Replaced(fat, fat, metas, chains, ss, i, e, c);
    } else {
      assert SectorAt(offset, ss) == 0;
      var fat2 := fat[c[0] := END];
      assert LinkOk(fat2, c, 0);
      Replaced(fat, fat2, metas, chains, ss, i, e, c);
    }
  }

  /** Replacing one sector of a chain replaces those bytes of the file. */
  lemma {:induction false} FlatPatched(data: seq<seq<int>>, n: nat, ss: nat, c: seq<nat>, t: nat, row: seq<int>)
    requires SectorsOk(data, n, ss) && Below(c, n) && t < |c| && |row| == ss
    requires forall k: nat :: k < |c| && k != t ==> c[k] != c[t]
    ensures Start(t, ss) + ss <= |Flat(data, c)|
    ensures Flat(data[c[t] := row], c) == Flat(data, c)[..Start(t, ss)] + row + Flat(data, c)[Start(t, ss) + ss..]
  {
    hide Start;
    var m: nat := |c| - 1;
    var data2 := data[c[t] := row];
    FlatLength(data, n, ss, c);
    FlatLength(data, n, ss, c[..m]);
    StartNext(m, ss);
    if t == m {
      FlatKept(data, data2, c[..m]);
    } else {
      assert c[..m][t] == c[t];
      FlatPatched(data, n, ss, c[..m], t, row);
      Appended(Flat(data, c[..m]), data[c[m]], Start(t, ss), row);
      hide Flat;
    }
  }

  lemma Appended(f: seq<int>, g: seq<int>, p: nat, row: seq<int>)
    requires p + |row| <= |f|
    ensures f[..p] + row + f[p + |row|..] + g == (f + g)[..p] + row + (f + g)[p + |row|..]
  {
    assert (f + g)[..p] == f[..p] && (f + g)[p + |row|..] == f[p + |row|..] + g;
  }

  lemma RowPatched(f: seq<int>, p: nat, ss: nat, skip: nat, row: seq<int>, buf: seq<int>)
    requires p + ss <= |f| && row == f[p..p + ss] && skip + |buf| <= ss
    ensures f[..p] + (row[..skip] + buf + row[skip + |buf|..]) + f[p + ss..] == Patched(f, p + skip, buf)
  {
    var q := p + skip + |buf|;
    assert f[..p] + row[..skip] == f[..p + skip];
    assert row[skip + |buf|..] + f[p + ss..] == f[q..];
  }

  lemma TakePatched(f: seq<int>, size: nat, offset: nat, buf: seq<int>)
    requires offset <= size <= |f| && offset + |buf| <= |f|
    ensures |Patched(f, offset, buf)| == |f|
    ensures Patched(f, offset, buf)[..Max(size, offset + |buf|)] == Patched(f[..size], offset, buf)
  {
  }

  /** The bytes of the chain after the write. */
  lemma BytesWritten(data: seq<seq<int>>, n: nat, ss: nat, c: seq<nat>, size: nat, buf: seq<int>, offset: nat)
    requires ss > 0 && SectorsOk(data, n, ss) && Below(c, n) && SectorAt(offset, ss) < |c| && offset <= size <= Start(|c|, ss) && ByteAt(offset, ss) + |buf| <= ss
    requires forall k: nat :: k < |c| && k != SectorAt(offset, ss) ==> c[k] != c[SectorAt(offset, ss)]
    ensures var x := c[SectorAt(offset, ss)];
            var data2 := data[x := data[x][..ByteAt(offset, ss)] + buf + data[x][ByteAt(offset, ss) + |buf|..]];
            && SectorsOk(data2, n, ss) && size <= |Flat(data, c)| && Max(size, offset + |buf|) <= |Flat(data2, c)|
            && FileBytes(data2, c, Max(size, offset + |buf|)) == Patched(FileBytes(data, c, size), offset, buf)
  {
    hide Start, Patched, Flat, SectorAt, ByteAt;
    var t: nat := SectorAt(offset, ss);
    var skip: nat := ByteAt(offset, ss);
    var x := c[t];
    var row := data[x][..skip] + buf + data[x][skip + |buf|..];
    Placed(offset, ss);
    FlatAt(data, n, ss, c, t);
    FlatLength(data, n, ss, c);
    FlatPatched(data, n, ss, c, t, row);
    RowPatched(Flat(data, c), Start(t, ss), ss, skip, data[x], buf);
    TakePatched(Flat(data, c), size, offset, buf);
    FlatLength(data[x := row], n, ss, c);
  }

  lemma Placed(x: nat, ss: nat)
    requires ss > 0
    ensures x == Start(SectorAt(x, ss), ss) + ByteAt(x, ss) && ByteAt(x, ss) < ss
  {
    Divided(x, ss);
  }

  lemma GrownSize(size: nat, count: nat, ss: nat, offset: nat, n: nat)
    requires ss > 0 && count > 0 && SectorAt(offset, ss) < count && ByteAt(offset, ss) + n <= ss && SizeOk(size, count, ss)
    ensures SizeOk(Max(size, offset + n), count, ss)
  {
    Divided(offset, ss);
    StartOrder(SectorAt(offset, ss), count, ss);
    hide Start;
  }

  lemma NewSize(fat: seq<nat>, e: Entry, own: seq<nat>, c: seq<nat>, offset: nat, n: nat, ss: nat)
    requires ss > 0 && FileOk(fat, e, own, ss) && e.name != "" && WriteChain(fat, own, c, offset, ss) && ByteAt(offset, ss) + n <= ss
    ensures SizeOk(Max(e.size, offset + n), |c|, ss) && e.size <= Start(|c|, ss)
  {
    StartNext(0, ss);
    GrownSize(e.size, |c|, ss, offset, n);
  }

  lemma ChainDistinct(fat: seq<nat>, e: Entry, own: seq<nat>, c: seq<nat>, offset: nat, ss: nat)
    requires ss > 0 && FileOk(fat, e, own, ss) && e.name != "" && WriteChain(fat, own, c, offset, ss)
    ensures forall k: nat :: k < |c| && k != SectorAt(offset, ss) ==> c[k] != c[SectorAt(offset, ss)]
  {
    hide Start;
    var t: nat := SectorAt(offset, ss);
    forall k: nat | k < |c| && k != t
      ensures c[k] != c[t]
    {
      if own != [] {
        if k < t { ChainIncreases(fat, c, k, t); } else { ChainIncreases(fat, c, t, k); }
      }
    }
  }

  lemma SameBytes(fat: seq<nat>, e: Entry, own: seq<nat>, c: seq<nat>, data: seq<seq<int>>, offset: nat, ss: nat)
    requires ss > 0 && FileOk(fat, e, own, ss) && e.name != "" && WriteChain(fat, own, c, offset, ss)
    requires Below(c, |data|) && Below(own, |data|)
    ensures FileBytes(data, own, e.size) == FileBytes(data, c, e.size)
  {
  }

  lemma OthersUntouched(fat: seq<nat>, metas: seq<Entry>, chains: seq<seq<nat>>, data: seq<seq<int>>, ss: nat, i: nat, c: seq<nat>, offset: nat, row: seq<int>)
    requires ImageOk(fat, metas, chains, ss) && SectorsOk(data, |fat|, ss) && i < |metas| && WriteChain(fat, chains[i], c, offset, ss) && Below(c, |fat|)
    ensures forall j: nat :: j < |metas| && j != i ==>
      Below(chains[j], |data|) && FileBytes(data[c[SectorAt(offset, ss)] := row], chains[j], metas[j].size) == FileBytes(data, chains[j], metas[j].size)
  {
    hide Start, Flat;
    var x := c[SectorAt(offset, ss)];
    forall j: nat | j < |metas| && j != i
      ensures Below(chains[j], |data|) && FileBytes(data[x := row], chains[j], metas[j].size) == FileBytes(data, chains[j], metas[j].size)
    {
      assert FileOk(fat, metas[j], chains[j], ss);
      ChainHolds(fat, metas[j], chains[j], data, ss);
      assert Apart(chains[i], chains[j]);
      assert x in chains[j] ==> OnChain(chains, x);
      FlatKept(data, data[x := row], chains[j]);
    }
  }

  /** What a write inside one sector does to the image. */
  lemma WrittenOk(fat: seq<nat>, metas: seq<Entry>, chains: seq<seq<nat>>, data: seq<seq<int>>, ss: nat, i: nat, e: Entry, c: seq<nat>, buf: seq<int>, offset: nat)
    requires ImageOk(fat, metas, chains, ss) && SectorsOk(data, |fat|, ss) && i < |metas| && metas[i].name != ""
    requires offset <= metas[i].size && ByteAt(offset, ss) + |buf| <= ss && WriteChain(fat, chains[i], c, offset, ss)
    requires e == Entry(c[0], Max(metas[i].size, offset + |buf|), metas[i].name)
    ensures Below(c, |fat|) && Below(c, |data|) && Below(chains[i], |data|)
    ensures var x := c[SectorAt(offset, ss)];
            var fat2 := if fat[x] == 0 then fat[x := END] else fat;
            var data2 := data[x := data[x][..ByteAt(offset, ss)] + buf + data[x][ByteAt(offset, ss) + |buf|..]];
            && ImageOk(fat2, metas[i := e], chains[i := c], ss) && SectorsOk(data2, |fat|, ss)
            && offset <= |FileBytes(data, chains[i], metas[i].size)|
            && FileBytes(data2, c, e.size) == Patched(FileBytes(data, chains[i], metas[i].size), offset, buf)
            && (forall j: nat :: j < |metas| && j != i ==>
                  Below(chains[j], |data|) && FileBytes(data2, chains[j], metas[j].size) == FileBytes(data, chains[j], metas[j].size))
  {
    hide Start, Patched, FileBytes, Flat, SectorAt, ByteAt;
    assert FileOk(fat, metas[i], chains[i], ss);
    ChainHolds(fat, metas[i], chains[i], data, ss);
    NewSize(fat, metas[i], chains[i], c, offset, |buf|, ss);
    FatMarked(fat, metas, chains, ss, i, e, c, offset);
    ChainDistinct(fat, metas[i], chains[i], c, offset, ss);
    BytesWritten(data, |fat|, ss, c, metas[i].size, buf, offset);
    SameBytes(fat, metas[i], chains[i], c, data, offset, ss);
    OthersUntouched(fat, metas, chains, data, ss, i, c, offset, data[c[SectorAt(offset, ss)]][..ByteAt(offset, ss)] + buf + data[c[SectorAt(offset, ss)]][ByteAt(offset, ss) + |buf|..]);
  }

  datatype NodeResult = Made(entry: nat) | NameTooLong | NoSpaceLeft | NotImplemented

  lemma StillNamed(metas: seq<Entry>, metas2: seq<Entry>, name: string)
    requires |metas2| == |metas|
    requires var i := FirstNamed(metas, name);
             i < |metas| ==> metas2[i].name == name && forall j: nat :: j < |metas| && j != i ==> metas2[j] == metas[j]
    requires FirstNamed(metas, name) < |metas|
    ensures FirstNamed(metas2, name) == FirstNamed(metas, name)
  {
    FirstNamedIs(metas2, name, FirstNamed(metas, name));
  }

  lemma NowNamed(metas: seq<Entry>, metas2: seq<Entry>, name: string, i: nat)
    requires |metas2| == |metas| && i < |metas| && metas2[i].name == name && FirstNamed(metas, name) == |metas|
    requires forall j: nat :: j < |metas| && j != i ==> metas2[j] == metas[j]
    ensures FirstNamed(metas2, name) == i
  {
    FirstNamedIs(metas2, name, i);
  }

  lemma MadeOk(fat: seq<nat>, metas: seq<Entry>, chains: seq<seq<nat>>, data: seq<seq<int>>, ss: nat, i: nat, name: string)
    requires ImageOk(fat, metas, chains, ss) && SectorsOk(data, |fat|, ss) && i < |metas| && metas[i].name == "" && name != ""
    ensures ImageOk(fat, metas[i := Entry(END, 0, name)], chains[i := []], ss)
    ensures FileBytes(data, [], 0) == []
  {
    assert FileOk(fat, metas[i], chains[i], ss);
    Replaced(fat, fat, metas, chains, ss, i, Entry(END, 0, name), []);
  }

  lemma {:induction false} AllFree(fat: seq<nat>, x: nat)
    requires x <= |fat| && forall k :: x <= k < |fat| ==> fat[k] == 0
    ensures FreeCount(fat, x) == |fat| - x
    decreases |fat| - x
  {
    if x < |fat| { AllFree(fat, x + 1); }
  }

  lemma ImageFacts(fat: seq<nat>, metas: seq<Entry>, chains: seq<seq<nat>>, ss: nat)
    requires ImageOk(fat, metas, chains, ss)
    ensures ss > 0 && |fat| <= END && |chains| == |metas|
  {
  }

  /** A filled chain becomes the file of a free entry; the other files keep entry, chain and bytes. */
  lemma StoredOk(fat0: seq<nat>, fat: seq<nat>, metas: seq<Entry>, chains: seq<seq<nat>>, data0: seq<seq<int>>, data: seq<seq<int>>,
                 ss: nat, i: nat, name: string, first: nat, c: seq<nat>, src: seq<int>, copied: nat)
    requires ImageOk(fat0, metas, chains, ss) && SectorsOk(data0, |fat0|, ss) && i < |metas| && metas[i].name == "" && name != ""
    requires Filled(fat0, fat, data0, data, ss, first, c, src, copied)
    ensures ImageOk(fat, metas[i := Entry(first, copied, name)], chains[i := c], ss) && SectorsOk(data, |fat|, ss)
    ensures Below(c, |data|) && FileBytes(data, c, copied) == src[..copied] && copied <= |src|
    ensures copied == |src| <==> |src| <= Start(FreeCount(fat0, 0), ss)
    ensures forall j: nat :: j < |metas| && j != i ==>
      Below(chains[j], |data|) && Below(chains[j], |data0|) && FileBytes(data, chains[j], metas[j].size) == FileBytes(data0, chains[j], metas[j].size)
  {
    hide Start, Flat, FreeCount;
    assert FileOk(fat0, metas[i], chains[i], ss);
    Replaced(fat0, fat, metas, chains, ss, i, Entry(first, copied, name), c);
    forall j: nat | j < |metas| && j != i
      ensures Below(chains[j], |data|) && Below(chains[j], |data0|) && FileBytes(data, chains[j], metas[j].size) == FileBytes(data0, chains[j], metas[j].size)
    {
      assert FileOk(fat0, metas[j], chains[j], ss);
      ChainHolds(fat0, metas[j], chains[j], data0, ss);
      BytesKept(fat0, chains, j, c, data0, data, metas[j].size);
    }
  }

  /** Writing only sectors that were free leaves the bytes of every chain alone. */
  lemma BytesKept(fat0: seq<nat>, chains: seq<seq<nat>>, j: nat, c: seq<nat>, data0: seq<seq<int>>, data: seq<seq<int>>, size: nat)
    requires j < |chains| && Below(chains[j], |fat0|) && Below(chains[j], |data0|) && |data| == |data0|
    requires forall x: nat :: x < |fat0| ==> (fat0[x] != 0 <==> OnChain(chains, x))
    requires forall x :: x in c ==> x < |fat0| && fat0[x] == 0
    requires forall x: nat :: x < |data| && x !in c ==> data[x] == data0[x]
    ensures FileBytes(data, chains[j], size) == FileBytes(data0, chains[j], size)
  {
    forall k: nat | k < |chains[j]|
      ensures data[chains[j][k]] == data0[chains[j][k]]
    {
      assert OnChain(chains, chains[j][k]);
    }
    FlatKept(data0, data, chains[j]);
  }

  /** The chain's sectors hold the first `copied` bytes of `src`, and no other sector changed. */
  ghost predicate Progress(data0: seq<seq<int>>, data: seq<seq<int>>, n: nat, ss: nat, c: seq<nat>, src: seq<int>, copied: nat) {
    && SectorsOk(data, n, ss) && Below(c, n) && |data| == |data0|
    && (forall x: nat :: x < |data| && x !in c ==> data[x] == data0[x])
    && |Flat(data, c)| == Start(|c|, ss) && copied <= |src| && copied <= |Flat(data, c)| && Flat(data, c)[..copied] == src[..copied]
  }

  lemma NoProgress(data0: seq<seq<int>>, n: nat, ss: nat, src: seq<int>, c: seq<nat>)
    requires SectorsOk(data0, n, ss) && |c| == 1
    ensures Progress(data0, data0, n, ss, c[..0], src, 0)
  {
    StartNext(0, ss);
    assert c[..0] == [];
  }

  lemma ProgressBound(data0: seq<seq<int>>, data: seq<seq<int>>, n: nat, ss: nat, c: seq<nat>, src: seq<int>, copied: nat)
    requires Progress(data0, data, n, ss, c, src, copied)
    ensures copied <= |src|
  {
  }

  lemma PutRow(data0: seq<seq<int>>, data: seq<seq<int>>, n: nat, ss: nat, c: seq<nat>, src: seq<int>, copied: nat, count: nat, row: seq<int>)
    requires c != [] && c[|c| - 1] < n && forall k: nat :: k < |c| - 1 ==> c[k] != c[|c| - 1]
    requires copied == Start(|c| - 1, ss) && Progress(data0, data, n, ss, c[..|c| - 1], src, copied)
    requires copied + count <= |src| && count <= ss && row == src[copied..copied + count] + data[c[|c| - 1]][count..]
    ensures Progress(data0, data[c[|c| - 1] := row], n, ss, c, src, copied + count)
  {
    hide Start, Flat;
    var m: nat := |c| - 1;
    assert |data[c[m]]| == ss;
    forall k: nat | k < |c|
      ensures c[k] < n
    {
      if k < m { assert c[..m][k] < n; }
    }
    assert Flat(data, c[..m]) == Flat(data, c[..m])[..copied];
    FillSector(data, n, ss, c, src, row, count);
    forall x: nat | x < |data| && x !in c
      ensures x !in c[..m]
    {
    }
  }

  lemma BuildDistinct(fat0: seq<nat>, fat: seq<nat>, c: seq<nat>)
    requires Building(fat0, fat, c)
    ensures |fat| == |fat0| && forall k: nat :: k < |c| - 1 ==> c[k] != c[|c| - 1]
  {
  }

  /** The chain `c` was built from free sectors and holds the first `copied` bytes of `src`: all of them
      exactly when there are enough free sectors. */
  ghost predicate Filled(fat0: seq<nat>, fat: seq<nat>, data0: seq<seq<int>>, data: seq<seq<int>>, ss: nat, first: nat, c: seq<nat>, src: seq<int>, copied: nat)
    requires ss > 0
  {
    && |fat| == |fat0| && |data| == |data0| && SectorsOk(data, |fat|, ss)
    && c != [] && Below(c, |fat|) && ChainOk(fat, first, c) && SizeOk(copied, |c|, ss)
    && (forall x :: x in c ==> x < |fat| && fat0[x] == 0 && fat[x] != 0)
    && (forall x: nat :: x < |fat| && x !in c ==> fat[x] == fat0[x])
    && (forall x: nat :: x < |data| && x !in c ==> data[x] == data0[x])
    && copied <= |src| && FileBytes(data, c, copied) == src[..copied]
    && (copied == |src| <==> |src| <= Start(FreeCount(fat0, 0), ss))
  }

  lemma FillEnd(fat0: seq<nat>, fat: seq<nat>, data0: seq<seq<int>>, data: seq<seq<int>>, ss: nat, c: seq<nat>, src: seq<int>, copied: nat)
    requires ss > 0 && Building(fat0, fat, c) && Progress(data0, data, |fat|, ss, c, src, copied)
    requires |c| == 1 || Start(|c| - 1, ss) < copied
    requires FreeCount(fat0, 0) >= |c|
    requires copied == |src| || (copied == Start(|c|, ss) && FreeCount(fat0, 0) == |c|)
    ensures Filled(fat0, fat[c[|c| - 1] := END], data0, data, ss, c[0], c, src, copied)
  {
    BuildEnd(fat0, fat, c);
    StartOrder(|c|, FreeCount(fat0, 0), ss);
    hide Start, FreeCount, Flat;
  }

  lemma PieceIs(b: seq<int>, f: seq<int>, x: nat, y: nat)
    requires IsPiece(b, f, x, y)
    ensures x <= y <= |f| && b == f[x..y]
  {
  }

  lemma PieceStart(f: seq<int>, x: nat)
    requires x <= |f|
    ensures IsPiece([], f, x, x)
  {
  }
}
