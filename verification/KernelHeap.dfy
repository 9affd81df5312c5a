/** The kernel heap: `memory_allocate` and `memory_free` (src/std/memory.c, lines 1-158).

    Free segments form a singly linked list in address order whose headers, a `next` pointer and a
    length, are stored in the memory they describe. A live block stores its recorded length in its
    first word. Memory is addressed by words of four bytes; every access must be to a mapped word. */
module KernelHeap {

  const WORD: nat := 4
  const HEADER: nat := 8
  const PAGE_SIZE: nat := 4096
  const U32: nat := 0x1_0000_0000
  // __kernel_start + MAX_KERNEL_SIZE
  const HEAP_BASE: nat := 0xC080_0000
  // The low two megabytes are identity-mapped at boot.
  const LOW_END: nat := 0x20_0000

  datatype Seg = Seg(addr: nat, len: nat)

  // A live block: its first word's address and the size the caller asked for.
  datatype Block = Block(addr: nat, size: nat)

  type Memory = map<nat, nat>

  function RoundUp(n: nat): nat {
    (n + 3) / 4 * 4
  }

  lemma RoundUpBound(n: nat)
    ensures n <= RoundUp(n) < n + 4 && RoundUp(n) % 4 == 0
  {
  }

  lemma RoundUpAdd(n: nat, k: nat)
    ensures RoundUp(n + k * 4096) == RoundUp(n) + k * 4096
  {
  }

  lemma RoundUpSub(len: nat, n: nat)
    requires n % 4 == 0 && n <= len
    ensures RoundUp(len - n) == RoundUp(len) - n
  {
  }

  /** `true_size`: `align_forward(size + 4, 4)` in 32-bit arithmetic. */
  function TrueSize(size: nat): nat {
    ((size + WORD) % 0x1_0000_0000 + WORD - 1) % 0x1_0000_0000 / 4 * 4
  }

  /** The test for splitting a segment, in 32-bit arithmetic. */
  predicate SplitTest(n: nat, len: nat) {
    (n + HEADER) % 0x1_0000_0000 <= len
  }

  lemma SplitIs(n: nat, len: nat)
    requires n + HEADER < U32
    ensures SplitTest(n, len) <==> n + HEADER <= len
  {
  }

  /** The size arithmetic is right exactly for sizes up to 2^32 - 16: above that the rounding or the
      split test wraps, and a segment too short for the block passes as long enough. */
  lemma SizesHandled(size: nat)
    requires size < U32
    ensures (forall len: nat :: SplitTest(TrueSize(size), len) ==> size + WORD + HEADER <= len) <==> size <= U32 - 16
    ensures size <= U32 - 16 ==> TrueSize(size) == RoundUp(size + WORD)
  {
    var n := TrueSize(size);
    if size > U32 - 16 {
      assert SplitTest(n, (n + HEADER) % 0x1_0000_0000) && (n + HEADER) % 0x1_0000_0000 < size + WORD + HEADER;
    } else {
      assert n == RoundUp(size + WORD) && size + WORD <= n && n + HEADER < U32;
      forall len: nat | SplitTest(n, len)
        ensures size + WORD + HEADER <= len
      {
        hide TrueSize, RoundUp;
        SplitIs(n, len);
      }
    }
  }

  // ---------------------------------------------------------------------------
  // What is where

  predicate SegOk(s: Seg, top: nat) {
    s.addr % 4 == 0 && s.len >= 5 && HEAP_BASE <= s.addr && s.addr + RoundUp(s.len) <= top
  }

  predicate BlockOk(b: Block, top: nat) {
    b.addr % 4 == 0 && b.size >= 1 && HEAP_BASE <= b.addr && b.addr + RoundUp(b.size + WORD) <= top
  }

  predicate SegBefore(s: Seg, t: Seg) {
    s.addr + RoundUp(s.len) <= t.addr
  }

  predicate BlocksApart(a: Block, b: Block) {
    a.addr + RoundUp(a.size + WORD) <= b.addr || b.addr + RoundUp(b.size + WORD) <= a.addr
  }

  predicate SegBlockApart(s: Seg, b: Block) {
    s.addr + RoundUp(s.len) <= b.addr || b.addr + RoundUp(b.size + WORD) <= s.addr
  }

  /** The free list is in address order, and no two segments or blocks overlap, headers included. */
  ghost predicate Layout(free: seq<Seg>, live: seq<Block>, top: nat) {
    && (forall i :: 0 <= i < |free| ==> SegOk(free[i], top))
    && (forall i :: 0 <= i < |live| ==> BlockOk(live[i], top))
    && (forall i, j :: 0 <= i < j < |free| ==> SegBefore(free[i], free[j]))
    && (forall i, j :: 0 <= i < j < |live| ==> BlocksApart(live[i], live[j]))
    && (forall i, j :: 0 <= i < |free| && 0 <= j < |live| ==> SegBlockApart(free[i], live[j]))
  }

  function AddrAt(free: seq<Seg>, i: int): nat {
    if 0 <= i < |free| then free[i].addr else 0
  }

  predicate HeaderAt(mem: Memory, free: seq<Seg>, i: nat)
    requires i < |free|
  {
    && free[i].addr in mem && mem[free[i].addr] == AddrAt(free, i + 1)
    && free[i].addr + WORD in mem && mem[free[i].addr + WORD] == free[i].len
  }

  predicate RecordAt(mem: Memory, b: Block) {
    b.addr in mem && mem[b.addr] == b.size + WORD
  }

  /** The memory holds the list of free segments. */
  ghost predicate Headers(mem: Memory, free: seq<Seg>) {
    forall i :: 0 <= i < |free| ==> HeaderAt(mem, free, i)
  }

  /** The memory holds every live block's recorded length. */
  ghost predicate Records(mem: Memory, live: seq<Block>) {
    forall i :: 0 <= i < |live| ==> RecordAt(mem, live[i])
  }

  function FreeBytes(free: seq<Seg>): nat {
    if free == [] then 0 else FreeBytes(free[..|free| - 1]) + free[|free| - 1].len
  }

  function LiveBytes(live: seq<Block>): nat {
    if live == [] then 0 else LiveBytes(live[..|live| - 1]) + RoundUp(live[|live| - 1].size + WORD)
  }

  /** The last free segment lies above every live block. Growth and the search in `memory_free`
      rely on it. */
  ghost predicate TailFree(free: seq<Seg>, live: seq<Block>) {
    free != [] ==> forall i :: 0 <= i < |live| ==> live[i].addr < free[|free| - 1].addr
  }

  predicate IsWord(a: nat) {
    a % 4 == 0 && (a < LOW_END || HEAP_BASE <= a < U32)
  }

  // ---------------------------------------------------------------------------
  // Sums

  lemma {:induction false} FreeBytesSplice(free: seq<Seg>, i: nat, mid: seq<Seg>, k: nat)
    requires i <= k <= |free|
    ensures FreeBytes(free[..i] + mid + free[k..]) + FreeBytes(free[i..k]) == FreeBytes(free) + FreeBytes(mid)
  {
    FreeBytesConcat(free[..i] + mid, free[k..]);
    FreeBytesConcat(free[..i], mid);
    FreeBytesConcat(free[..i] + free[i..k], free[k..]);
    FreeBytesConcat(free[..i], free[i..k]);
    assert free[..i] + free[i..k] + free[k..] == free;
  }

  lemma {:induction false} FreeBytesConcat(x: seq<Seg>, y: seq<Seg>)
    ensures FreeBytes(x + y) == FreeBytes(x) + FreeBytes(y)
  {
    if y == [] {
      assert x + y == x;
    } else {
      assert (x + y)[..|x + y| - 1] == x + y[..|y| - 1];
      FreeBytesConcat(x, y[..|y| - 1]);
    }
  }

  lemma {:induction false} LiveBytesWithout(live: seq<Block>, k: nat)
    requires k < |live|
    ensures LiveBytes(live[..k] + live[k + 1..]) + RoundUp(live[k].size + WORD) == LiveBytes(live)
  {
    var m := |live| - 1;
    if k == m {
      assert live[..k] + live[k + 1..] == live[..m];
    } else {
      LiveBytesWithout(live[..m], k);
      var rest := live[..m][..k] + live[..m][k + 1..];
      assert live[..k] + live[k + 1..] == rest + [live[m]];
      assert (rest + [live[m]])[..|rest|] == rest;
    }
  }

  lemma LiveBytesPush(live: seq<Block>, b: Block)
    ensures LiveBytes(live + [b]) == LiveBytes(live) + RoundUp(b.size + WORD)
  {
    assert (live + [b])[..|live|] == live;
  }

  // ---------------------------------------------------------------------------
  // Allocation on the list

  /** The first segment long enough for `n` bytes; `|free|` when there is none. */
  function FirstFit(free: seq<Seg>, n: nat): (i: nat)
    ensures i <= |free|
    ensures i < |free| ==> n <= free[i].len
    ensures forall k :: 0 <= k < i ==> free[k].len < n
  {
    if free == [] then 0 else
    if n <= free[0].len then 0 else 1 + FirstFit(free[1..], n)
  }

  lemma FirstFitIs(free: seq<Seg>, n: nat, i: nat)
    requires i <= |free|
    requires forall k :: 0 <= k < i ==> free[k].len < n
    requires i < |free| ==> n <= free[i].len
    ensures FirstFit(free, n) == i
  {
    assert FirstFit(free, n) >= i;
  }

  /** The list the search runs over: an empty one first gets the page at `page`. */
  function Started(free: seq<Seg>, page: nat): seq<Seg> {
    if free == [] then [Seg(page, PAGE_SIZE)] else free
  }

  /** Lengthen the last segment by `k` pages. */
  function Grow(free: seq<Seg>, k: nat): seq<Seg>
    requires free != []
  {
    var last := free[|free| - 1];
    free[|free| - 1 := Seg(last.addr, last.len + k * 4096)]
  }

  /** The pages the growth loop has to commit. */
  function PagesFor(free: seq<Seg>, n: nat): nat
    requires free != []
  {
    var len := free[|free| - 1].len;
    if FirstFit(free, n) < |free| || n <= len then 0 else (n - len + 4095) / 4096
  }

  /** When no segment fits, these are the fewest pages that make the last one long enough. */
  lemma FewestPages(free: seq<Seg>, n: nat)
    requires free != [] && FirstFit(free, n) == |free|
    ensures var len, k := free[|free| - 1].len, PagesFor(free, n);
            k > 0 && len + (k - 1) * 4096 < n <= len + k * 4096
  {
    hide FirstFit;
    assert free[|free| - 1].len < n;
  }

  /** The list and the index of the segment the block is cut from. */
  function Chosen(free: seq<Seg>, n: nat): (seq<Seg>, nat)
    requires free != []
  {
    var i := FirstFit(free, n);
    (Grow(free, PagesFor(free, n)), if i < |free| then i else |free| - 1)
  }

  /** Cut `n` bytes off the front of segment `i`, or unlink it when too little would remain. */
  function Take(free: seq<Seg>, i: nat, n: nat): seq<Seg>
    requires i < |free| && n <= free[i].len
  {
    if n + HEADER <= free[i].len
    then free[..i] + [Seg(free[i].addr + n, free[i].len - n)] + free[i + 1..]
    else free[..i] + free[i + 1..]
  }

  lemma ChosenFits(free: seq<Seg>, n: nat)
    requires free != []
    ensures var (g, i) := Chosen(free, n); |g| == |free| && i < |g| && n <= g[i].len && g[i].addr == free[i].addr
    ensures FirstFit(free, n) < |free| ==> Chosen(free, n).0 == free && PagesFor(free, n) == 0
  {
    var i := FirstFit(free, n);
    if i < |free| {
      assert free[|free| - 1 := free[|free| - 1]] == free;
    } else {
      assert free[|free| - 1].len < n;
    }
  }

  lemma StartedLayout(live: seq<Block>, top: nat)
    requires Layout([], live, top) && HEAP_BASE <= top && top % 4096 == 0
    ensures Layout(Started([], top), live, top + PAGE_SIZE) && TailFree(Started([], top), live) && TailFree([], live)
  {
    hide RoundUp;
    RoundUpPage();
    PageWords(top);
    LayoutUp([], live, top, top + PAGE_SIZE);
    LiveBelow([], live, top);
    var s := Seg(top, PAGE_SIZE);
    forall j | 0 <= j < |live|
      ensures SegBlockApart(s, live[j])
    {
      assert BlockOk(live[j], top);
    }
    assert SegOk(s, top + PAGE_SIZE);
  }

  lemma RoundUpPage()
    ensures RoundUp(PAGE_SIZE) == PAGE_SIZE
  {
  }

  /** Block `b` starts in the memory that the last segment grows into. */
  predicate InGrowth(free: seq<Seg>, b: Block, k: nat)
    requires free != []
  {
    var last := free[|free| - 1];
    last.addr < b.addr < last.addr + RoundUp(last.len + k * 4096)
  }

  /** Growing the last segment keeps the heap well formed if and only if no live block starts in the
      memory it grows into. The code never looks: it commits pages at `next_page_virt_addr` but
      appends their length to the last free segment, wherever that lies. */
  lemma GrowthIsSafe(free: seq<Seg>, live: seq<Block>, top: nat, k: nat)
    requires Layout(free, live, top) && free != []
    ensures Layout(Grow(free, k), live, top + k * 4096)
            <==> forall j :: 0 <= j < |live| ==> !InGrowth(free, live[j], k)
  {
    if forall j :: 0 <= j < |live| ==> !InGrowth(free, live[j], k) {
      GrowthClear(free, live, top, k);
    }
    forall j | 0 <= j < |live| && InGrowth(free, live[j], k)
      ensures !SegBlockApart(Grow(free, k)[|free| - 1], live[j])
    {
      hide Layout;
      RoundUpBound(live[j].size + WORD);
    }
  }

  lemma GrowthClear(free: seq<Seg>, live: seq<Block>, top: nat, k: nat)
    requires Layout(free, live, top) && free != []
    requires forall j :: 0 <= j < |live| ==> !InGrowth(free, live[j], k)
    ensures Layout(Grow(free, k), live, top + k * 4096)
  {
    RoundUpAdd(free[|free| - 1].len, k);
    hide RoundUp;
    var m := |free| - 1;
    var g := Grow(free, k);
    forall j | 0 <= j < |live|
      ensures SegBlockApart(g[m], live[j])
    {
      RoundUpBound(live[j].size + WORD);
      assert !InGrowth(free, live[j], k) && SegBlockApart(free[m], live[j]);
    }
    forall i | 0 <= i < |free|
      ensures SegOk(g[i], top + k * 4096)
    {
      assert SegOk(free[i], top);
    }
    GrowKeepsOrder(free, live, top, k);
  }

  lemma GrowKeepsOrder(free: seq<Seg>, live: seq<Block>, top: nat, k: nat)
    requires Layout(free, live, top) && free != []
    ensures var g := Grow(free, k);
            (forall i, j :: 0 <= i < j < |g| ==> SegBefore(g[i], g[j])) &&
            (forall i, j :: 0 <= i < |g| - 1 && 0 <= j < |live| ==> SegBlockApart(g[i], live[j])) &&
            (forall j :: 0 <= j < |live| ==> BlockOk(live[j], top + k * 4096))
  {
    hide RoundUp;
    var g := Grow(free, k);
    forall i, j | 0 <= i < j < |g|
      ensures SegBefore(g[i], g[j])
    {
      assert SegBefore(free[i], free[j]);
    }
  }

  /** With the last free segment above every live block, growth is safe. */
  lemma TailFreeGrowth(free: seq<Seg>, live: seq<Block>, top: nat, k: nat)
    requires Layout(free, live, top) && free != [] && TailFree(free, live)
    ensures Layout(Grow(free, k), live, top + k * 4096)
  {
    GrowthIsSafe(free, live, top, k);
  }

  /** A block cut from a free segment overlaps no live block and no remaining free segment. */
  lemma TakeLayout(free: seq<Seg>, live: seq<Block>, top: nat, i: nat, size: nat)
    requires Layout(free, live, top) && i < |free| && size >= 1 && RoundUp(size + WORD) <= free[i].len
    ensures Layout(Take(free, i, RoundUp(size + WORD)), live + [Block(free[i].addr, size)], top)
  {
    var n := RoundUp(size + WORD);
    RoundUpBound(size + WORD);
    RoundUpBound(free[i].len);
    RoundUpSub(free[i].len, n);
    TakeSorted(free, live, top, i, n);
    hide RoundUp;
    var b := Block(free[i].addr, size);
    var f := Take(free, i, n);
    forall k | 0 <= k < |f|
      ensures SegOk(f[k], top) && SegBlockApart(f[k], b)
    {
      TakeOrigin(free, i, n, k);
    }
    forall j | 0 <= j < |live|
      ensures BlocksApart(live[j], b)
    {
      assert SegBlockApart(free[i], live[j]);
    }
    forall k, j | 0 <= k < |f| && 0 <= j < |live|
      ensures SegBlockApart(f[k], live[j])
    {
      TakeOrigin(free, i, n, k);
      assert SegBlockApart(free[i], live[j]);
    }
  }

  /** Each remaining segment is an old one, or the end of the one that was cut. */
  lemma TakeOrigin(free: seq<Seg>, i: nat, n: nat, k: nat)
    requires i < |free| && n <= free[i].len && k < |Take(free, i, n)|
    ensures var f := Take(free, i, n);
            (k < i && f[k] == free[k])
            || (k == i && n + HEADER <= free[i].len && f[k] == Seg(free[i].addr + n, free[i].len - n))
            || (exists t :: i < t < |free| && f[k] == free[t])
  {
    var d := if n + HEADER <= free[i].len then 0 else 1;
    if k + d > i {
      assert Take(free, i, n)[k] == free[k + d];
    }
  }

  lemma TakeSorted(free: seq<Seg>, live: seq<Block>, top: nat, i: nat, n: nat)
    requires Layout(free, live, top) && i < |free| && n <= free[i].len && n % 4 == 0
    ensures var f := Take(free, i, n); forall x, y :: 0 <= x < y < |f| ==> SegBefore(f[x], f[y])
  {
    RoundUpBound(free[i].len);
    RoundUpSub(free[i].len, n);
    hide RoundUp;
    var f := Take(free, i, n);
    var d := if n + HEADER <= free[i].len then 0 else 1;
    forall x, y | 0 <= x < y < |f|
      ensures SegBefore(f[x], f[y])
    {
      var ox := if x < i then x else x + d;
      var oy := if y < i then y else y + d;
      assert SegBefore(free[ox], free[oy]);
    }
  }

  /** The last free segment stays above every live block exactly unless the block uses up the last
      segment while a lower one remains free. */
  lemma TakeKeepsTail(free: seq<Seg>, live: seq<Block>, top: nat, i: nat, size: nat)
    requires Layout(free, live, top) && i < |free| && size >= 1 && RoundUp(size + WORD) <= free[i].len
    requires TailFree(free, live)
    ensures TailFree(Take(free, i, RoundUp(size + WORD)), live + [Block(free[i].addr, size)])
            <==> !(i == |free| - 1 && i > 0 && free[i].len < RoundUp(size + WORD) + HEADER)
  {
    var n := RoundUp(size + WORD);
    var f := Take(free, i, n);
    var l := live + [Block(free[i].addr, size)];
    var m := |free| - 1;
    if i == m && i > 0 && free[i].len < n + HEADER {
      assert SegBefore(free[m - 1], free[m]);
      assert l[|live|].addr > f[|f| - 1].addr;
    } else if f != [] {
      if i < m { assert SegBefore(free[i], free[m]); }
      forall j | 0 <= j < |l|
        ensures l[j].addr < f[|f| - 1].addr
      {
      }
    }
  }

  lemma NoBytes()
    ensures FreeBytes([]) == 0
  {
  }

  /** An allocation keeps the last free segment above every live block unless it uses up the last
      segment, grown or not, while a lower one remains. */
  lemma AllocationKeepsTail(free: seq<Seg>, live: seq<Block>, top: nat, size: nat)
    requires Layout(free, live, top) && free != [] && TailFree(free, live) && size >= 1
    ensures var n := RoundUp(size + WORD);
            var (g, i) := Chosen(free, n);
            && i < |g| && n <= g[i].len
            && (TailFree(Take(g, i, n), live + [Block(g[i].addr, size)]) <==> !(i == |g| - 1 && i > 0 && g[i].len < n + HEADER))
  {
    hide RoundUp, Layout, PagesFor, Take;
    var n := RoundUp(size + WORD);
    ChosenFits(free, n);
    var (g, i) := Chosen(free, n);
    TailFreeGrowth(free, live, top, PagesFor(free, n));
    TakeKeepsTail(g, live, top + PagesFor(free, n) * 4096, i, size);
  }

  /** A heap on which the next growth runs into live blocks: two blocks of 8 bytes were allocated, the
      first freed, and the rest of the page allocated exactly. */
  lemma GrowthOverlaps()
    ensures var free := [Seg(HEAP_BASE, 12)];
            var live := [Block(HEAP_BASE + 12, 8), Block(HEAP_BASE + 24, 4068)];
            Layout(free, live, HEAP_BASE + 4096) && !TailFree(free, live)
            && !Layout(Grow(free, 1), live, HEAP_BASE + 8192)
  {
    var free := [Seg(HEAP_BASE, 12)];
    var live := [Block(HEAP_BASE + 12, 8), Block(HEAP_BASE + 24, 4068)];
    assert InGrowth(free, live[0], 1);
    GrowthIsSafe(free, live, HEAP_BASE + 4096, 1);
  }

  lemma TakeBytes(free: seq<Seg>, i: nat, n: nat)
    requires i < |free| && n <= free[i].len
    ensures FreeBytes(Take(free, i, n)) + n <= FreeBytes(free)
    ensures n + HEADER <= free[i].len ==> FreeBytes(Take(free, i, n)) + n == FreeBytes(free)
  {
    hide FreeBytes;
    assert free[i..i + 1] == [free[i]];
    OneBytes(free[i]);
    if n + HEADER <= free[i].len {
      var r := Seg(free[i].addr + n, free[i].len - n);
      OneBytes(r);
      FreeBytesSplice(free, i, [r], i + 1);
    } else {
      NoBytes();
      FreeBytesSplice(free, i, [], i + 1);
      assert free[..i] + [] + free[i + 1..] == free[..i] + free[i + 1..];
    }
  }

  lemma OneBytes(s: Seg)
    ensures FreeBytes([s]) == s.len
  {
    assert [s][..0] == [];
  }

  lemma GrowBytes(free: seq<Seg>, k: nat)
    requires free != []
    ensures FreeBytes(Grow(free, k)) == FreeBytes(free) + k * 4096
  {
    assert Grow(free, k)[..|free| - 1] == free[..|free| - 1];
  }

  // ---------------------------------------------------------------------------
  // Allocation in memory

  /** `mem2` differs from `mem` at most at `link` and inside `[from, to)`. */
  ghost predicate WritesWithin(mem: Memory, mem2: Memory, link: nat, from: nat, to: nat) {
    && mem.Keys == mem2.Keys
    && forall a :: a in mem && a != link && !(from <= a < to) ==> mem2[a] == mem[a]
  }

  /** Segments `lo..hi` of the list are replaced by `mid`, none or one segment, and the link into it. */
  lemma HeadersReplaced(mem: Memory, mem2: Memory, free: seq<Seg>, lo: nat, hi: nat, mid: seq<Seg>, from: nat, to: nat, top: nat)
    requires lo <= hi <= |free| && |mid| <= 1 && Headers(mem, free) && Layout(free, [], top)
    requires WritesWithin(mem, mem2, AddrAt(free, lo - 1), from, to)
    requires forall i :: 0 <= i < lo ==> free[i].addr + HEADER <= from
    requires forall i :: hi <= i < |free| ==> to <= free[i].addr
    requires lo > 0 ==> free[lo - 1].addr in mem2 && mem2[free[lo - 1].addr] == AddrAt(free[..lo] + mid + free[hi..], lo)
    requires mid != [] ==> HeaderAt(mem2, free[..lo] + mid + free[hi..], lo)
    ensures Headers(mem2, free[..lo] + mid + free[hi..])
  {
    hide RoundUp;
    var f := free[..lo] + mid + free[hi..];
    forall i | 0 <= i < |f|
      ensures HeaderAt(mem2, f, i)
    {
      if i < lo {
        assert HeaderAt(mem, free, i) && SegOk(free[i], top);
        if lo > 0 && i < lo - 1 { assert SegBefore(free[i], free[lo - 1]); RoundUpBound(free[i].len); }
      } else if i >= lo + |mid| {
        var o := i - lo - |mid| + hi;
        assert f[i] == free[o] && AddrAt(f, i + 1) == AddrAt(free, o + 1);
        assert HeaderAt(mem, free, o) && SegOk(free[o], top);
        if lo > 0 { assert SegBefore(free[lo - 1], free[o]); RoundUpBound(free[lo - 1].len); }
      }
    }
  }

  /** Neither the word at `link` nor any from `from` to `to` belongs to block `b`. */
  predicate Aside(b: Block, link: nat, from: nat, to: nat) {
    var end := b.addr + RoundUp(b.size + WORD);
    (link < b.addr || end <= link) && (to <= b.addr || end <= from)
  }

  /** Every word of block `b`, its record included, is in `mem2` what it was in `mem`. */
  ghost predicate BlockKept(mem: Memory, mem2: Memory, b: Block) {
    forall a :: b.addr <= a < b.addr + RoundUp(b.size + WORD) && a in mem ==> a in mem2 && mem2[a] == mem[a]
  }

  /** So is every word of every block. */
  ghost predicate PayloadKept(mem: Memory, mem2: Memory, live: seq<Block>) {
    forall j :: 0 <= j < |live| ==> BlockKept(mem, mem2, live[j])
  }

  /** Writes outside the blocks leave their words, and so the recorded lengths, alone. */
  lemma RecordsKept(mem: Memory, mem2: Memory, live: seq<Block>, link: nat, from: nat, to: nat)
    requires Records(mem, live) && WritesWithin(mem, mem2, link, from, to)
    requires forall j :: 0 <= j < |live| ==> Aside(live[j], link, from, to)
    ensures Records(mem2, live) && PayloadKept(mem, mem2, live)
  {
    hide RoundUp;
    forall j | 0 <= j < |live|
      ensures RecordAt(mem2, live[j]) && BlockKept(mem, mem2, live[j])
    {
      assert RecordAt(mem, live[j]) && Aside(live[j], link, from, to);
      RoundUpBound(live[j].size + WORD);
    }
  }

  lemma PayloadSame(mem: Memory, live: seq<Block>)
    ensures PayloadKept(mem, mem, live)
  {
  }

  lemma PayloadChain(mem: Memory, mem1: Memory, mem2: Memory, live: seq<Block>)
    requires PayloadKept(mem, mem1, live) && PayloadKept(mem1, mem2, live)
    ensures PayloadKept(mem, mem2, live)
  {
    forall j | 0 <= j < |live|
      ensures BlockKept(mem, mem2, live[j])
    {
      assert BlockKept(mem, mem1, live[j]) && BlockKept(mem1, mem2, live[j]);
    }
  }

  lemma HeaderMapped(free: seq<Seg>, live: seq<Block>, top: nat, i: int)
    requires Layout(free, live, top)
    ensures AddrAt(free, i) != 0 <==> 0 <= i < |free|
    ensures 0 <= i < |free| ==> HEAP_BASE <= free[i].addr && free[i].addr + HEADER <= top && free[i].addr % 4 == 0 && free[i].addr + free[i].len <= top
  {
    if 0 <= i < |free| {
      assert SegOk(free[i], top);
      RoundUpBound(free[i].len);
    }
  }

  lemma LiveOutside(free: seq<Seg>, live: seq<Block>, top: nat, i: nat)
    requires Layout(free, live, top) && i < |free|
    ensures forall j :: 0 <= j < |live| ==> Aside(live[j], AddrAt(free, i - 1), free[i].addr, free[i].addr + RoundUp(free[i].len))
  {
    RoundUpBound(free[i].len);
    if i > 0 { RoundUpBound(free[i - 1].len); }
    hide RoundUp;
    forall j | 0 <= j < |live|
      ensures Aside(live[j], AddrAt(free, i - 1), free[i].addr, free[i].addr + RoundUp(free[i].len))
    {
      RoundUpBound(live[j].size + WORD);
      assert SegBlockApart(free[i], live[j]) && BlockOk(live[j], top);
      if i > 0 { assert SegBlockApart(free[i - 1], live[j]) && SegOk(free[i - 1], top); }
    }
  }

  lemma SegsOutside(free: seq<Seg>, live: seq<Block>, top: nat, i: nat)
    requires Layout(free, live, top) && i < |free|
    ensures forall k :: 0 <= k < i ==> free[k].addr + HEADER <= free[i].addr
    ensures forall k :: i < k < |free| ==> free[i].addr + RoundUp(free[i].len) <= free[k].addr
  {
    hide RoundUp;
    forall k | 0 <= k < i
      ensures free[k].addr + HEADER <= free[i].addr
    {
      RoundUpBound(free[k].len);
      assert SegOk(free[k], top) && SegBefore(free[k], free[i]);
    }
    forall k | i < k < |free|
      ensures free[i].addr + RoundUp(free[i].len) <= free[k].addr
    {
      assert SegBefore(free[i], free[k]);
    }
  }

  /** The words written when a block is cut off segment `i` leave a well-formed list and the records. */
  lemma CutStored(mem: Memory, mem2: Memory, free: seq<Seg>, live: seq<Block>, top: nat, i: nat, size: nat)
    requires Layout(free, live, top) && Headers(mem, free) && Records(mem, live) && i < |free|
    requires size >= 1 && RoundUp(size + WORD) <= free[i].len
    requires WritesWithin(mem, mem2, AddrAt(free, i - 1), free[i].addr, free[i].addr + RoundUp(free[i].len))
    requires RecordAt(mem2, Block(free[i].addr, size))
    requires var f := Take(free, i, RoundUp(size + WORD));
             && (i > 0 ==> free[i - 1].addr in mem2 && mem2[free[i - 1].addr] == AddrAt(f, i))
             && (|f| == |free| ==> HeaderAt(mem2, f, i))
    ensures Headers(mem2, Take(free, i, RoundUp(size + WORD)))
    ensures Records(mem2, live + [Block(free[i].addr, size)]) && PayloadKept(mem, mem2, live)
  {
    var n := RoundUp(size + WORD);
    var f := Take(free, i, n);
    SegsOutside(free, live, top, i);
    LiveOutside(free, live, top, i);
    RecordsKept(mem, mem2, live, AddrAt(free, i - 1), free[i].addr, free[i].addr + RoundUp(free[i].len));
    NoLive(free, live, top);
    hide RoundUp, Layout, PayloadKept;
    var mid := if n + HEADER <= free[i].len then [Seg(free[i].addr + n, free[i].len - n)] else [];
    assert f == free[..i] + mid + free[i + 1..];
    HeadersReplaced(mem, mem2, free, i, i + 1, mid, free[i].addr, free[i].addr + RoundUp(free[i].len), top);
  }

  /** Memory after a link to `segment` is redirected to `next`; `prev` is 0 at the head. */
  function Relinked(mem: Memory, prev: nat, next: nat): Memory {
    if prev != 0 then mem[prev := next] else mem
  }

  /** Memory after a block of `n` bytes is split off the front of `segment`. */
  function SplitCells(mem: Memory, prev: nat, segment: nat, next: nat, len: nat, n: nat, record: nat): Memory
    requires n <= len
  {
    Relinked(mem, prev, segment + n)[segment + n := next][segment + n + WORD := len - n][segment := record]
  }

  lemma SplitCellsAre(mem: Memory, prev: nat, segment: nat, next: nat, len: nat, n: nat, record: nat, to: nat)
    requires n <= len && HEADER <= n && segment + n + HEADER <= to && prev < segment
    requires (prev != 0 ==> prev in mem) && segment in mem && segment + n in mem && segment + n + WORD in mem
    ensures var mem2 := SplitCells(mem, prev, segment, next, len, n, record);
            && WritesWithin(mem, mem2, prev, segment, to) && (prev != 0 ==> mem2[prev] == segment + n)
            && mem2[segment] == record && mem2[segment + n] == next && mem2[segment + n + WORD] == len - n
  {
    assert SplitCells(mem, prev, segment, next, len, n, record).Keys == mem.Keys;
  }

  lemma SplitStored(mem: Memory, free: seq<Seg>, live: seq<Block>, top: nat, i: nat, size: nat)
    requires Layout(free, live, top) && Headers(mem, free) && Records(mem, live) && i < |free|
    requires size >= 1 && RoundUp(size + WORD) + HEADER <= free[i].len
    requires free[i].addr + RoundUp(size + WORD) in mem && free[i].addr + RoundUp(size + WORD) + WORD in mem
    ensures var n := RoundUp(size + WORD);
            var mem2 := SplitCells(mem, AddrAt(free, i - 1), free[i].addr, AddrAt(free, i + 1), free[i].len, n, size + WORD);
            Headers(mem2, Take(free, i, n)) && Records(mem2, live + [Block(free[i].addr, size)]) && PayloadKept(mem, mem2, live) && mem2.Keys == mem.Keys
  {
    hide RoundUp;
    var n := RoundUp(size + WORD);
    var f := Take(free, i, n);
    RoundUpBound(size + WORD);
    RoundUpBound(free[i].len);
    CutPlace(mem, free, live, top, i);
    SplitAddrs(free, i, n);
    hide Layout, Headers, Records, PayloadKept, Take, SplitCells, WritesWithin, AddrAt;
    SplitCellsAre(mem, AddrAt(free, i - 1), free[i].addr, AddrAt(free, i + 1), free[i].len, n, size + WORD, free[i].addr + RoundUp(free[i].len));
    var mem2 := SplitCells(mem, AddrAt(free, i - 1), free[i].addr, AddrAt(free, i + 1), free[i].len, n, size + WORD);
    assert HeaderAt(mem2, f, i);
    CutStored(mem, mem2, free, live, top, i, size);
  }

  lemma SplitAddrs(free: seq<Seg>, i: nat, n: nat)
    requires i < |free| && n + HEADER <= free[i].len
    ensures var f := Take(free, i, n);
            |f| == |free| && f[i] == Seg(free[i].addr + n, free[i].len - n) && AddrAt(f, i) == free[i].addr + n && AddrAt(f, i + 1) == AddrAt(free, i + 1)
  {
  }

  /** Where segment `i` and its predecessor lie. */
  lemma CutPlace(mem: Memory, free: seq<Seg>, live: seq<Block>, top: nat, i: nat)
    requires Layout(free, live, top) && Headers(mem, free) && i < |free|
    ensures free[i].addr in mem && AddrAt(free, i - 1) < free[i].addr
    ensures AddrAt(free, i - 1) != 0 <==> i > 0
    ensures i > 0 ==> AddrAt(free, i - 1) == free[i - 1].addr && free[i - 1].addr in mem
  {
    hide RoundUp;
    HeaderMapped(free, live, top, i);
    HeaderMapped(free, live, top, i - 1);
    assert HeaderAt(mem, free, i) && (i > 0 ==> HeaderAt(mem, free, i - 1) && SegBefore(free[i - 1], free[i]));
    if i > 0 { RoundUpBound(free[i - 1].len); }
  }

  lemma UnlinkStored(mem: Memory, free: seq<Seg>, live: seq<Block>, top: nat, i: nat, size: nat)
    requires Layout(free, live, top) && Headers(mem, free) && Records(mem, live) && i < |free|
    requires size >= 1 && RoundUp(size + WORD) <= free[i].len < RoundUp(size + WORD) + HEADER
    ensures var n := RoundUp(size + WORD);
            var mem2 := Relinked(mem, AddrAt(free, i - 1), AddrAt(free, i + 1))[free[i].addr := size + WORD];
            Headers(mem2, Take(free, i, n)) && Records(mem2, live + [Block(free[i].addr, size)]) && PayloadKept(mem, mem2, live) && mem2.Keys == mem.Keys
  {
    hide RoundUp;
    var n := RoundUp(size + WORD);
    var f := Take(free, i, n);
    RoundUpBound(free[i].len);
    HeaderMapped(free, live, top, i - 1);
    SegsOutside(free, live, top, i);
    assert HeaderAt(mem, free, i) && (i > 0 ==> HeaderAt(mem, free, i - 1));
    assert AddrAt(f, i) == AddrAt(free, i + 1);
    hide Layout, PayloadKept;
    var mem2 := Relinked(mem, AddrAt(free, i - 1), AddrAt(free, i + 1))[free[i].addr := size + WORD];
    assert mem2.Keys == mem.Keys;
    CutStored(mem, mem2, free, live, top, i, size);
  }

  lemma NoLive(free: seq<Seg>, live: seq<Block>, top: nat)
    requires Layout(free, live, top)
    ensures Layout(free, [], top)
  {
  }

  lemma LiveBelow(free: seq<Seg>, live: seq<Block>, top: nat)
    requires Layout(free, live, top)
    ensures forall j :: 0 <= j < |live| ==> HEAP_BASE <= live[j].addr && live[j].addr + HEADER <= top
    ensures forall j :: 0 <= j < |live| ==> Aside(live[j], top, top, top + HEADER)
  {
    forall j | 0 <= j < |live|
      ensures HEAP_BASE <= live[j].addr && live[j].addr + HEADER <= top && Aside(live[j], top, top, top + HEADER)
    {
      assert BlockOk(live[j], top);
    }
  }

  lemma WordAfter(a: nat)
    requires a % 4 == 0
    ensures (a + WORD) % 4 == 0
  {
  }

  lemma BlockPlace(live: seq<Block>, free: seq<Seg>, top: nat, k: nat)
    requires Layout(free, live, top) && k < |live|
    ensures HEAP_BASE <= live[k].addr && live[k].addr % 4 == 0 && live[k].addr + HEADER <= top
  {
    assert BlockOk(live[k], top);
  }

  lemma PageWords(page: nat)
    requires page % 4096 == 0
    ensures page % 4 == 0 && (page + WORD) % 4 == 0
  {
    var q := page / 4096;
    FourTimes(1024 * q);
    FourTimes(1024 * q + 1);
  }

  lemma FourTimes(x: nat)
    ensures 4 * x % 4 == 0
  {
  }

  lemma OneHeader(mem: Memory, s: Seg)
    requires s.addr in mem && mem[s.addr] == 0 && s.addr + WORD in mem && mem[s.addr + WORD] == s.len
    ensures Headers(mem, [s]) && AddrAt([s], 0) == s.addr
  {
  }

  lemma PagesCount(free: seq<Seg>, n: nat, c: nat)
    requires free != [] && FirstFit(free, n) == |free|
    requires var len := free[|free| - 1].len; len + c * 4096 >= n && (c > 0 ==> len + (c - 1) * 4096 < n)
    ensures PagesFor(free, n) == c
  {
    assert free[|free| - 1].len < n;
  }

  lemma PagesMore(free: seq<Seg>, n: nat, c: nat)
    requires free != [] && FirstFit(free, n) == |free| && free[|free| - 1].len + c * 4096 < n
    ensures PagesFor(free, n) > c
  {
  }

  /** What `memory_allocate` does to the free list and the live blocks: `p` is 0 exactly when the
      pages run out, and otherwise the block is the front of the first fit, or of the grown last
      segment. */
  ghost predicate Allocated(free: seq<Seg>, live: seq<Block>, page: nat, frames: nat, size: nat, p: nat, free2: seq<Seg>, live2: seq<Block>)
  {
    var s := Started(free, page);
    var n := RoundUp(size + WORD);
    var enough := frames >= PagesFor(s, n) + (if free == [] then 1 else 0);
    && (p != 0 <==> enough)
    && (!enough ==> live2 == live && free2 == if frames == 0 then free else s)
    && (enough ==>
          var (g, i) := Chosen(s, n);
          i < |g| && n <= g[i].len && p == g[i].addr + WORD && free2 == Take(g, i, n) && live2 == live + [Block(g[i].addr, size)])
  }

  /** What cutting a block off segment `i` does to the layout, the sums and the head of the list. */
  lemma CutFacts(mem: Memory, free: seq<Seg>, live: seq<Block>, top: nat, i: nat, size: nat)
    requires Layout(free, live, top) && i < |free| && size >= 1 && RoundUp(size + WORD) <= free[i].len && Headers(mem, free)
    ensures var n := RoundUp(size + WORD);
            var f := Take(free, i, n);
            var l := live + [Block(free[i].addr, size)];
            && n % 4 == 0 && n >= HEADER && Layout(f, l, top)
            && FreeBytes(f) + LiveBytes(l) <= FreeBytes(free) + LiveBytes(live)
            && AddrAt(f, 0) == (if i > 0 then AddrAt(free, 0) else if n + HEADER <= free[i].len then free[i].addr + n else AddrAt(free, i + 1))
    ensures free[i].addr == AddrAt(free, 0) <==> i == 0
    ensures HEAP_BASE <= free[i].addr && free[i].addr % 4 == 0 && free[i].addr + free[i].len <= top && HeaderAt(mem, free, i)
    ensures (free[i].addr + WORD) % 4 == 0 && free[i].addr + HEADER <= top
    ensures var rest := free[i].addr + RoundUp(size + WORD); rest % 4 == 0 && (rest + WORD) % 4 == 0
    ensures AddrAt(free, i - 1) != 0 ==> HEAP_BASE <= AddrAt(free, i - 1) && AddrAt(free, i - 1) % 4 == 0 && AddrAt(free, i - 1) < top
  {
    hide RoundUp, Layout, FreeBytes, LiveBytes, Headers;
    RoundUpBound(size + WORD);
    HeaderMapped(free, live, top, i);
    HeaderMapped(free, live, top, i - 1);
    TakeLayout(free, live, top, i, size);
    TakeBytes(free, i, RoundUp(size + WORD));
    LiveBytesPush(live, Block(free[i].addr, size));
    HeaderIs(mem, free, i);
    TakeHead(free, live, top, i, RoundUp(size + WORD));
  }

  lemma HeaderIs(mem: Memory, free: seq<Seg>, i: nat)
    requires Headers(mem, free) && i < |free|
    ensures HeaderAt(mem, free, i)
  {
  }

  lemma TakeHead(free: seq<Seg>, live: seq<Block>, top: nat, i: nat, n: nat)
    requires Layout(free, live, top) && i < |free| && n <= free[i].len
    ensures free[i].addr == AddrAt(free, 0) <==> i == 0
    ensures AddrAt(Take(free, i, n), 0) ==
            if i > 0 then AddrAt(free, 0) else if n + HEADER <= free[i].len then free[i].addr + n else AddrAt(free, i + 1)
  {
    hide RoundUp;
    if i > 0 { SegsOutside(free, live, top, i); }
  }

  lemma LayoutUp(free: seq<Seg>, live: seq<Block>, top: nat, top2: nat)
    requires Layout(free, live, top) && top <= top2
    ensures Layout(free, live, top2)
  {
    hide RoundUp;
    forall i | 0 <= i < |free|
      ensures SegOk(free[i], top2)
    {
      assert SegOk(free[i], top);
    }
    forall i | 0 <= i < |live|
      ensures BlockOk(live[i], top2)
    {
      assert BlockOk(live[i], top);
    }
  }

  lemma GrowHeaders(mem2: Memory, mem: Memory, free: seq<Seg>, live: seq<Block>, top: nat, k: nat)
    requires Layout(free, live, top) && free != [] && Headers(mem, free) && Records(mem, live)
    requires mem2 == mem[free[|free| - 1].addr + WORD := free[|free| - 1].len + k * 4096]
    ensures Headers(mem2, Grow(free, k)) && Records(mem2, live) && PayloadKept(mem, mem2, live)
  {
    RoundUpBound(free[|free| - 1].len);
    hide RoundUp;
    var m := |free| - 1;
    var g := Grow(free, k);
    forall i | 0 <= i < |g|
      ensures HeaderAt(mem2, g, i)
    {
      assert HeaderAt(mem, free, i) && AddrAt(g, i + 1) == AddrAt(free, i + 1);
      if i < m { assert SegBefore(free[i], free[m]) && SegOk(free[i], top); RoundUpBound(free[i].len); }
    }
    var a := free[m].addr + WORD;
    assert HeaderAt(mem, free, m);
    forall j | 0 <= j < |live|
      ensures Aside(live[j], a, a, a + WORD)
    {
      assert SegBlockApart(free[m], live[j]);
    }
    RecordsKept(mem, mem2, live, a, a, a + WORD);
  }

  // ---------------------------------------------------------------------------
  // Freeing on the list

  /** The first segment above address `a`; `|free|` when there is none. */
  function Position(free: seq<Seg>, a: nat): (j: nat)
    ensures j <= |free|
    ensures j < |free| ==> a < free[j].addr
    ensures forall i :: 0 <= i < j ==> free[i].addr <= a
  {
    if free == [] || a < free[0].addr then 0 else 1 + Position(free[1..], a)
  }

  lemma PositionIs(free: seq<Seg>, a: nat, j: nat)
    requires j <= |free| && (j < |free| ==> a < free[j].addr)
    requires forall i :: 0 <= i < j ==> free[i].addr <= a
    ensures Position(free, a) == j
  {
    assert Position(free, a) >= j;
  }

  predicate MergesNext(free: seq<Seg>, j: nat, s: Seg) {
    j < |free| && s.addr + s.len == free[j].addr
  }

  predicate MergesPrev(free: seq<Seg>, j: nat, s: Seg) {
    0 < j <= |free| && free[j - 1].addr + free[j - 1].len == s.addr
  }

  /** The segment that `s` becomes part of when it is put back before segment `j`: it is joined with a
      neighbour exactly when their ends meet. */
  function Merged(free: seq<Seg>, j: nat, s: Seg): Seg {
    var len := s.len + if MergesNext(free, j, s) then free[j].len else 0;
    if MergesPrev(free, j, s) then Seg(free[j - 1].addr, free[j - 1].len + len) else Seg(s.addr, len)
  }

  function Lo(free: seq<Seg>, j: nat, s: Seg): nat {
    if MergesPrev(free, j, s) then j - 1 else j
  }

  function Hi(free: seq<Seg>, j: nat, s: Seg): nat {
    if MergesNext(free, j, s) then j + 1 else j
  }

  function Freed(free: seq<Seg>, j: nat, s: Seg): seq<Seg>
    requires j <= |free|
  {
    free[..Lo(free, j, s)] + [Merged(free, j, s)] + free[Hi(free, j, s)..]
  }

  function Without(live: seq<Block>, k: nat): seq<Block>
    requires k < |live|
  {
    live[..k] + live[k + 1..]
  }

  /** Freeing raises the free bytes by exactly the freed length. */
  lemma FreedBytes(free: seq<Seg>, j: nat, s: Seg)
    requires j <= |free|
    ensures FreeBytes(Freed(free, j, s)) == FreeBytes(free) + s.len
  {
    hide FreeBytes, Merged;
    var lo: int, hi: int := Lo(free, j, s), Hi(free, j, s);
    FreeBytesSplice(free, lo, [Merged(free, j, s)], hi);
    OneBytes(Merged(free, j, s));
    RangeBytes(free, lo, j);
    RangeBytes(free, j, hi);
    RangeSplit(free, lo, j, hi);
    MergedLen(free, j, s);
  }

  lemma MergedLen(free: seq<Seg>, j: nat, s: Seg)
    requires j <= |free|
    ensures Merged(free, j, s).len == s.len + (if MergesPrev(free, j, s) then free[j - 1].len else 0)
                                            + (if MergesNext(free, j, s) then free[j].len else 0)
  {
  }

  /** The free bytes of a range of at most one segment. */
  lemma RangeBytes(free: seq<Seg>, x: nat, y: nat)
    requires x <= y <= |free| && y <= x + 1
    ensures FreeBytes(free[x..y]) == if x == y then 0 else free[x].len
  {
    if x < y {
      assert free[x..y] == [free[x]];
      OneBytes(free[x]);
    }
  }

  lemma RangeSplit(free: seq<Seg>, x: nat, y: nat, z: nat)
    requires x <= y <= z <= |free|
    ensures FreeBytes(free[x..z]) == FreeBytes(free[x..y]) + FreeBytes(free[y..z])
  {
    hide FreeBytes;
    assert free[x..z] == free[x..y] + free[y..z];
    FreeBytesConcat(free[x..y], free[y..z]);
  }

  /** A live block lies between the free segments on either side of its position. */
  lemma {:induction false} BlockBetween(free: seq<Seg>, live: seq<Block>, top: nat, k: nat)
    requires Layout(free, live, top) && k < |live|
    ensures forall i :: 0 <= i < Position(free, live[k].addr) ==> free[i].addr + RoundUp(free[i].len) <= live[k].addr
    ensures forall i :: Position(free, live[k].addr) <= i < |free| ==> live[k].addr + RoundUp(live[k].size + WORD) <= free[i].addr
  {
    hide RoundUp;
    var j := Position(free, live[k].addr);
    forall i | 0 <= i < j
      ensures free[i].addr + RoundUp(free[i].len) <= live[k].addr
    {
      RoundUpBound(live[k].size + WORD);
      assert SegBlockApart(free[i], live[k]);
    }
    forall i | j <= i < |free|
      ensures live[k].addr + RoundUp(live[k].size + WORD) <= free[i].addr
    {
      RoundUpBound(free[j].len);
      assert SegBlockApart(free[i], live[k]);
      assert j < i ==> SegBefore(free[j], free[i]);
    }
  }

  /** The merged segment covers the block and the neighbours it joins, with no gap. */
  lemma {:induction false} MergedExtent(free: seq<Seg>, live: seq<Block>, top: nat, k: nat)
    requires Layout(free, live, top) && k < |live|
    ensures var s := Seg(live[k].addr, live[k].size + WORD);
            var j := Position(free, live[k].addr);
            var m := Merged(free, j, s);
            && SegOk(m, top) && m.addr <= s.addr
            && m.addr + RoundUp(m.len) == (if MergesNext(free, j, s) then free[j].addr + RoundUp(free[j].len) else s.addr + RoundUp(s.len))
            && m.addr == (if MergesPrev(free, j, s) then free[j - 1].addr else s.addr)
  {
    var s := Seg(live[k].addr, live[k].size + WORD);
    var j := Position(free, live[k].addr);
    assert BlockOk(live[k], top);
    assert MergesNext(free, j, s) ==> SegOk(free[j], top);
    assert MergesPrev(free, j, s) ==> SegOk(free[j - 1], top);
    JoinExtent(free, j, s, top);
  }

  lemma JoinExtent(free: seq<Seg>, j: nat, s: Seg, top: nat)
    requires SegOk(s, top)
    requires MergesNext(free, j, s) ==> SegOk(free[j], top)
    requires MergesPrev(free, j, s) ==> SegOk(free[j - 1], top)
    ensures var m := Merged(free, j, s);
            && SegOk(m, top) && m.addr <= s.addr
            && m.addr + RoundUp(m.len) == (if MergesNext(free, j, s) then free[j].addr + RoundUp(free[j].len) else s.addr + RoundUp(s.len))
            && m.addr == (if MergesPrev(free, j, s) then free[j - 1].addr else s.addr)
  {
    hide RoundUp;
    var t := Seg(s.addr, s.len + if MergesNext(free, j, s) then free[j].len else 0);
    if MergesNext(free, j, s) { JoinTwo(s, free[j], top); }
    if MergesPrev(free, j, s) { JoinTwo(free[j - 1], t, top); }
  }

  lemma JoinTwo(s: Seg, t: Seg, top: nat)
    requires SegOk(s, top) && SegOk(t, top) && s.addr + s.len == t.addr
    ensures RoundUp(s.len + t.len) == s.len + RoundUp(t.len) && SegOk(Seg(s.addr, s.len + t.len), top)
  {
    Mod4(s.addr, s.len, t.addr);
    RoundUpJoin(s.len, t.len);
    hide RoundUp;
  }

  lemma Mod4(x: nat, y: nat, z: nat)
    requires x % 4 == 0 && z % 4 == 0 && x + y == z
    ensures y % 4 == 0
  {
  }

  lemma RoundUpJoin(x: nat, y: nat)
    ensures x % 4 == 0 ==> RoundUp(x + y) == x + RoundUp(y)
  {
  }

  /** What the segments kept by `Freed` are, with where they lie. */
  lemma {:induction false} FreedKept(free: seq<Seg>, live: seq<Block>, top: nat, k: nat)
    requires Layout(free, live, top) && k < |live|
    ensures var s := Seg(live[k].addr, live[k].size + WORD);
            var j := Position(free, live[k].addr);
            var m := Merged(free, j, s);
            && (forall i :: 0 <= i < Lo(free, j, s) ==> SegBefore(free[i], m))
            && (forall i :: Hi(free, j, s) <= i < |free| ==> SegBefore(m, free[i]))
  {
    hide RoundUp, Position;
    var s := Seg(live[k].addr, live[k].size + WORD);
    var j := Position(free, live[k].addr);
    var m := Merged(free, j, s);
    MergedExtent(free, live, top, k);
    BlockBetween(free, live, top, k);
    forall i | 0 <= i < Lo(free, j, s)
      ensures SegBefore(free[i], m)
    {
      if MergesPrev(free, j, s) { assert SegBefore(free[i], free[j - 1]); }
    }
    forall i | Hi(free, j, s) <= i < |free|
      ensures SegBefore(m, free[i])
    {
      if MergesNext(free, j, s) { assert SegBefore(free[j], free[i]); }
    }
  }

  /** The other live blocks stay clear of the merged segment. */
  lemma {:induction false} FreedClear(free: seq<Seg>, live: seq<Block>, top: nat, k: nat)
    requires Layout(free, live, top) && k < |live|
    ensures var s := Seg(live[k].addr, live[k].size + WORD);
            var m := Merged(free, Position(free, live[k].addr), s);
            forall x :: 0 <= x < |Without(live, k)| ==> SegBlockApart(m, Without(live, k)[x])
  {
    hide RoundUp, Position;
    var s := Seg(live[k].addr, live[k].size + WORD);
    var j := Position(free, live[k].addr);
    var m := Merged(free, j, s);
    MergedExtent(free, live, top, k);
    forall x | 0 <= x < |Without(live, k)|
      ensures SegBlockApart(m, Without(live, k)[x])
    {
      var y := if x < k then x else x + 1;
      assert Without(live, k)[x] == live[y];
      ClearOf(free, live, top, k, y, j);
    }
  }

  lemma {:induction false} ClearOf(free: seq<Seg>, live: seq<Block>, top: nat, k: nat, y: nat, j: nat)
    requires Layout(free, live, top) && k < |live| && y < |live| && y != k && j == Position(free, live[k].addr)
    ensures SegBlockApart(Merged(free, j, Seg(live[k].addr, live[k].size + WORD)), live[y])
  {
    hide RoundUp, Position;
    var s := Seg(live[k].addr, live[k].size + WORD);
    MergedExtent(free, live, top, k);
    BlockBetween(free, live, top, k);
    assert if y < k then BlocksApart(live[y], live[k]) else BlocksApart(live[k], live[y]);
    RoundUpBound(live[y].size + WORD);
    RoundUpBound(live[k].size + WORD);
    if MergesNext(free, j, s) { assert SegBlockApart(free[j], live[y]); RoundUpBound(free[j].len); }
    if MergesPrev(free, j, s) { assert SegBlockApart(free[j - 1], live[y]); RoundUpBound(free[j - 1].len); }
  }

  /** Putting a block back keeps the list sorted and everything apart. */
  lemma {:induction false} FreedLayout(free: seq<Seg>, live: seq<Block>, top: nat, k: nat)
    requires Layout(free, live, top) && k < |live|
    ensures var s := Seg(live[k].addr, live[k].size + WORD);
            Layout(Freed(free, Position(free, live[k].addr), s), Without(live, k), top)
  {
    hide RoundUp, Position;
    var s := Seg(live[k].addr, live[k].size + WORD);
    var j := Position(free, live[k].addr);
    MergedExtent(free, live, top, k);
    FreedKept(free, live, top, k);
    FreedClear(free, live, top, k);
    Spliced(free, live, Without(live, k), top, Lo(free, j, s), Hi(free, j, s), Merged(free, j, s));
  }

  lemma Spliced(free: seq<Seg>, live: seq<Block>, rest: seq<Block>, top: nat, lo: nat, hi: nat, m: Seg)
    requires Layout(free, live, top) && lo <= hi <= |free| && SegOk(m, top)
    requires forall i :: 0 <= i < lo ==> SegBefore(free[i], m)
    requires forall i :: hi <= i < |free| ==> SegBefore(m, free[i])
    requires exists k :: 0 <= k < |live| && rest == Without(live, k)
    requires forall x :: 0 <= x < |rest| ==> SegBlockApart(m, rest[x])
    ensures Layout(free[..lo] + [m] + free[hi..], rest, top)
  {
    hide RoundUp;
    var f := free[..lo] + [m] + free[hi..];
    var k :| 0 <= k < |live| && rest == Without(live, k);
    forall x, y | 0 <= x < y < |f|
      ensures SegBefore(f[x], f[y])
    {
      if x != lo && y != lo {
        var ox := if x < lo then x else x - lo - 1 + hi;
        var oy := if y < lo then y else y - lo - 1 + hi;
        assert SegBefore(free[ox], free[oy]);
      }
    }
    forall x, y | 0 <= x < |f| && 0 <= y < |rest|
      ensures SegBlockApart(f[x], rest[y]) && SegOk(f[x], top)
    {
      if x != lo {
        var ox := if x < lo then x else x - lo - 1 + hi;
        assert SegBlockApart(free[ox], live[if y < k then y else y + 1]);
      }
    }
    forall x | 0 <= x < |f|
      ensures SegOk(f[x], top)
    {
      if x != lo { assert SegOk(free[if x < lo then x else x - lo - 1 + hi], top); }
    }
  }

  /** The words written when a block is put back leave a well-formed list and the other records. */
  lemma {:induction false} FreedStored(mem: Memory, mem2: Memory, free: seq<Seg>, live: seq<Block>, top: nat, k: nat)
    requires Layout(free, live, top) && Headers(mem, free) && Records(mem, live) && k < |live|
    requires var s := Seg(live[k].addr, live[k].size + WORD);
             var j := Position(free, s.addr);
             var m := Merged(free, j, s);
             var lo := Lo(free, j, s);
             && WritesWithin(mem, mem2, AddrAt(free, lo - 1), m.addr, s.addr + HEADER)
             && (lo > 0 ==> free[lo - 1].addr in mem2 && mem2[free[lo - 1].addr] == m.addr)
             && m.addr in mem2 && mem2[m.addr] == AddrAt(free, Hi(free, j, s))
             && m.addr + WORD in mem2 && mem2[m.addr + WORD] == m.len
    ensures var s := Seg(live[k].addr, live[k].size + WORD);
            && Headers(mem2, Freed(free, Position(free, s.addr), s))
            && Records(mem2, Without(live, k)) && PayloadKept(mem, mem2, Without(live, k))
  {
    hide RoundUp, Position;
    var s := Seg(live[k].addr, live[k].size + WORD);
    var j := Position(free, s.addr);
    var m := Merged(free, j, s);
    var lo: int := Lo(free, j, s);
    FreedAround(free, live, top, k);
    RestClear(free, live, top, k);
    NoLive(free, live, top);
    assert Freed(free, j, s) == free[..lo] + [m] + free[Hi(free, j, s)..];
    hide Layout, Merged, Freed, Lo, Hi;
    RestRecords(mem, live, k);
    RecordsKept(mem, mem2, Without(live, k), AddrAt(free, lo - 1), m.addr, s.addr + HEADER);
    hide Records, RecordAt, PayloadKept;
    HeadersReplaced(mem, mem2, free, lo, Hi(free, j, s), [m], m.addr, s.addr + HEADER, top);
  }

  lemma {:induction false} FreedAround(free: seq<Seg>, live: seq<Block>, top: nat, k: nat)
    requires Layout(free, live, top) && k < |live|
    ensures var s := Seg(live[k].addr, live[k].size + WORD);
            var j := Position(free, s.addr);
            var m := Merged(free, j, s);
            && m.addr <= s.addr
            && (forall i :: 0 <= i < Lo(free, j, s) ==> free[i].addr + HEADER <= m.addr)
            && (forall i :: Hi(free, j, s) <= i < |free| ==> s.addr + HEADER <= free[i].addr)
  {
    hide RoundUp, Position;
    var s := Seg(live[k].addr, live[k].size + WORD);
    var j := Position(free, s.addr);
    var m := Merged(free, j, s);
    MergedExtent(free, live, top, k);
    FreedKept(free, live, top, k);
    BlockBetween(free, live, top, k);
    RoundUpBound(s.len);
    assert BlockOk(live[k], top);
    forall i | 0 <= i < Lo(free, j, s)
      ensures free[i].addr + HEADER <= m.addr
    {
      RoundUpBound(free[i].len);
      assert SegOk(free[i], top) && SegBefore(free[i], m);
    }
  }

  lemma RestRecords(mem: Memory, live: seq<Block>, k: nat)
    requires Records(mem, live) && k < |live|
    ensures Records(mem, Without(live, k)) && RecordAt(mem, live[k])
  {
    forall x | 0 <= x < |Without(live, k)|
      ensures RecordAt(mem, Without(live, k)[x])
    {
      assert RecordAt(mem, live[if x < k then x else x + 1]);
    }
  }

  /** No word of another live block is among those written. */
  lemma {:induction false} RestClear(free: seq<Seg>, live: seq<Block>, top: nat, k: nat)
    requires Layout(free, live, top) && k < |live|
    ensures var s := Seg(live[k].addr, live[k].size + WORD);
            var j := Position(free, s.addr);
            var rest := Without(live, k);
            forall x :: 0 <= x < |rest| ==> Aside(rest[x], AddrAt(free, Lo(free, j, s) - 1), Merged(free, j, s).addr, s.addr + HEADER)
  {
    hide RoundUp, Position;
    var s := Seg(live[k].addr, live[k].size + WORD);
    var j := Position(free, s.addr);
    var m := Merged(free, j, s);
    var lo: int := Lo(free, j, s);
    var rest := Without(live, k);
    MergedExtent(free, live, top, k);
    FreedClear(free, live, top, k);
    assert BlockOk(live[k], top);
    forall x | 0 <= x < |rest|
      ensures Aside(rest[x], AddrAt(free, lo - 1), m.addr, s.addr + HEADER)
    {
      var b := live[if x < k then x else x + 1];
      assert rest[x] == b && BlockOk(b, top) && SegBlockApart(m, b);
      RoundUpBound(b.size + WORD);
      if MergesNext(free, j, s) { assert SegOk(free[j], top); RoundUpBound(free[j].len); }
      RoundUpBound(s.len);
      if lo > 0 { assert SegBlockApart(free[lo - 1], b) && SegOk(free[lo - 1], top); RoundUpBound(free[lo - 1].len); }
    }
  }

  /** Freeing keeps the last free segment above every live block. */
  lemma {:induction false} FreeKeepsTail(free: seq<Seg>, live: seq<Block>, top: nat, k: nat)
    requires Layout(free, live, top) && k < |live| && TailFree(free, live) && free != []
    ensures Position(free, live[k].addr) < |free|
    ensures var s := Seg(live[k].addr, live[k].size + WORD);
            TailFree(Freed(free, Position(free, live[k].addr), s), Without(live, k))
  {
    hide RoundUp, Position;
    var s := Seg(live[k].addr, live[k].size + WORD);
    var j := Position(free, live[k].addr);
    var f := Freed(free, j, s);
    var m := Merged(free, j, s);
    FreedClear(free, live, top, k);
    MergedExtent(free, live, top, k);
    forall x | 0 <= x < |Without(live, k)|
      ensures Without(live, k)[x].addr < f[|f| - 1].addr
    {
      var b := live[if x < k then x else x + 1];
      assert Without(live, k)[x] == b && SegBlockApart(m, b) && b.addr < free[|free| - 1].addr;
      RoundUpBound(b.size + WORD);
    }
  }

  /** Segment `i` does not end where the next one begins. */
  predicate GapAfter(free: seq<Seg>, i: nat) {
    i + 1 < |free| ==> free[i].addr + free[i].len != free[i + 1].addr
  }

  /** No two segments of the list touch. */
  ghost predicate Coarse(free: seq<Seg>) {
    forall i: nat :: i < |free| ==> GapAfter(free, i)
  }

  /** Both neighbours are joined whenever they touch, so no two segments of the list ever touch. */
  lemma {:induction false} FreeKeepsCoarse(free: seq<Seg>, j: nat, s: Seg)
    requires Coarse(free) && j <= |free|
    ensures Coarse(Freed(free, j, s))
  {
    var f := Freed(free, j, s);
    var lo: int, hi: int := Lo(free, j, s), Hi(free, j, s);
    forall i: nat | i < |f|
      ensures GapAfter(f, i)
    {
      if i < lo - 1 { assert GapAfter(free, i); }
      if i == lo - 1 && MergesPrev(free, j, s) { assert GapAfter(free, lo - 1); }
      if i == lo && MergesNext(free, j, s) { assert GapAfter(free, j); }
      if i > lo { assert GapAfter(free, i - lo - 1 + hi); }
    }
  }

  lemma TakeKeepsCoarse(free: seq<Seg>, i: nat, n: nat, live: seq<Block>, top: nat)
    requires Layout(free, live, top) && Coarse(free) && i < |free| && 0 < n <= free[i].len
    ensures Coarse(Take(free, i, n))
  {
    hide RoundUp;
    var f := Take(free, i, n);
    var d := |free| - |f|;
    forall x: nat | x < |f|
      ensures GapAfter(f, x)
    {
      if x < i { assert GapAfter(free, x); } else { assert GapAfter(free, x + d); }
      if x + 1 == i && i < |f| {
        assert SegBefore(free[x], free[i]) && (d == 0 || SegBefore(free[i], free[i + 1]));
        RoundUpBound(free[x].len);
        RoundUpBound(free[i].len);
        assert SegOk(free[i], top);
      }
    }
  }

  lemma GrowKeepsCoarse(free: seq<Seg>, k: nat)
    requires Coarse(free) && free != []
    ensures Coarse(Grow(free, k))
  {
    forall i: nat | i < |free|
      ensures GapAfter(Grow(free, k), i)
    {
      assert GapAfter(free, i);
    }
  }

  /** Freeing a block right after it was split off gives the old list back if and only if its size is
      a multiple of four: the bytes that rounding added are not recorded, so they stay lost and keep
      the pieces apart. */
  lemma {:induction false} AllocateFreeRoundTrip(free: seq<Seg>, live: seq<Block>, top: nat, i: nat, size: nat)
    requires Layout(free, live, top) && Coarse(free) && i < |free| && size >= 1
    requires RoundUp(size + WORD) + HEADER <= free[i].len
    ensures var f := Take(free, i, RoundUp(size + WORD));
            var a := free[i].addr;
            Freed(f, Position(f, a), Seg(a, size + WORD)) == free <==> size % 4 == 0
  {
    var n := RoundUp(size + WORD);
    RoundUpBound(size + WORD);
    assert n == size + WORD <==> size % 4 == 0;
    hide RoundUp;
    var f := Take(free, i, n);
    var s := Seg(free[i].addr, size + WORD);
    SegsOutside(free, live, top, i);
    PositionIs(f, s.addr, i);
    hide Position, Layout;
    assert i > 0 ==> f[i - 1] == free[i - 1] && GapAfter(free, i - 1);
    assert !MergesPrev(f, i, s) && (MergesNext(f, i, s) <==> n == size + WORD);
    PutBackWhole(free, i, n, s);
  }

  /** Freeing a block that took a whole segment gives the old list back if and only if its recorded
      length is the segment's: up to seven further bytes are lost. (When the segment was the last of
      the list `memory_free` does not get that far, see `InsertLoopEnds`.) */
  lemma {:induction false} ExactFitRoundTrip(free: seq<Seg>, live: seq<Block>, top: nat, i: nat, size: nat)
    requires Layout(free, live, top) && Coarse(free) && i < |free| && size >= 1
    requires RoundUp(size + WORD) <= free[i].len < RoundUp(size + WORD) + HEADER
    ensures var f := Take(free, i, RoundUp(size + WORD));
            var a := free[i].addr;
            Freed(f, Position(f, a), Seg(a, size + WORD)) == free <==> free[i].len == size + WORD
  {
    hide RoundUp, Position, Freed;
    RoundUpBound(size + WORD);
    RoundUpBound(free[i].len);
    var s := Seg(free[i].addr, size + WORD);
    SegsOutside(free, live, top, i);
    hide Layout;
    assert GapAfter(free, i) && (i > 0 ==> GapAfter(free, i - 1));
    PositionIs(Take(free, i, RoundUp(size + WORD)), s.addr, i);
    PutBackAlone(free, i, s);
  }

  lemma PutBackAlone(free: seq<Seg>, i: nat, s: Seg)
    requires i < |free|
    requires !MergesPrev(free[..i] + free[i + 1..], i, s) && !MergesNext(free[..i] + free[i + 1..], i, s)
    ensures Freed(free[..i] + free[i + 1..], i, s) == free <==> free[i] == s
  {
    var f := free[..i] + free[i + 1..];
    assert f[..i] == free[..i] && f[i..] == free[i + 1..];
    assert free == free[..i] + [free[i]] + free[i + 1..];
    assert (free[..i] + [s] + free[i + 1..])[i] == s;
  }

  lemma PutBackWhole(free: seq<Seg>, i: nat, n: nat, s: Seg)
    requires i < |free| && n + HEADER <= free[i].len && s.addr == free[i].addr && 0 < s.len <= n
    requires !MergesPrev(Take(free, i, n), i, s)
    ensures Freed(Take(free, i, n), i, s) == free <==> s.len == n
  {
    var f := Take(free, i, n);
    if s.len == n {
      assert Merged(f, i, s) == free[i];
      assert Freed(f, i, s) == free;
    } else {
      assert |Freed(f, i, s)| == |free| + 1;
    }
  }

  /** The calls that lead to the heap of `GrowthOverlaps`: two blocks of 8 bytes, the first freed, and a
      block that uses up the rest of the page. */
  lemma GrowthOverlapReached()
    ensures var s2 := Take(Take(Started([], HEAP_BASE), 0, 12), 0, 12);
            var s3 := Freed(s2, Position(s2, HEAP_BASE), Seg(HEAP_BASE, 12));
            && TrueSize(8) == 12 && TrueSize(4068) == 4072
            && FirstFit(s3, 4072) == 1 < |s3| && s3[1].len == 4072
            && Take(s3, 1, 4072) == [Seg(HEAP_BASE, 12)]
  {
    var s1 := Take(Started([], HEAP_BASE), 0, 12);
    assert s1 == [Seg(HEAP_BASE + 12, 4084)];
    var s2 := Take(s1, 0, 12);
    assert s2 == [Seg(HEAP_BASE + 24, 4072)];
    PositionIs(s2, HEAP_BASE, 0);
    var s3 := Freed(s2, 0, Seg(HEAP_BASE, 12));
    assert s3 == [Seg(HEAP_BASE, 12), Seg(HEAP_BASE + 24, 4072)];
    FirstFitIs(s3, 4072, 1);
  }

  // ---------------------------------------------------------------------------
  // The search for the place of a freed block

  datatype Cursor = Cursor(prevPrev: nat, prev: nat, next: nat, nextNext: nat)

  function CursorAt(free: seq<Seg>, t: int): Cursor {
    Cursor(AddrAt(free, t - 3), AddrAt(free, t - 2), AddrAt(free, t - 1), AddrAt(free, t))
  }

  /** The body of the second loop: shift, and follow `next_next` unless it is null. */
  function Shift(mem: Memory, c: Cursor): Cursor {
    Cursor(c.prev, c.next, c.nextNext, if c.nextNext in mem && c.nextNext != 0 then mem[c.nextNext] else c.nextNext)
  }

  function Shifts(mem: Memory, c: Cursor, t: nat): Cursor {
    if t == 0 then c else Shift(mem, Shifts(mem, c, t - 1))
  }

  lemma ShiftsOne(mem: Memory, c: Cursor)
    ensures Shifts(mem, c, 1) == Shift(mem, c)
  {
    assert Shifts(mem, c, 0) == c;
  }

  /** The second loop of `memory_free` ends if and only if a free segment lies above the block: past
      the end of the list the cursor stays null, and null compares below every block. */
  lemma {:induction false} InsertLoopEnds(mem: Memory, free: seq<Seg>, live: seq<Block>, top: nat, k: nat)
    requires Layout(free, live, top) && Headers(mem, free) && k < |live|
    ensures var j := Position(free, live[k].addr);
            (exists t :: live[k].addr <= Shifts(mem, CursorAt(free, j), t).next) <==> j < |free|
  {
    hide RoundUp, Position;
    var a := live[k].addr;
    var j := Position(free, a);
    var c := CursorAt(free, j);
    assert BlockOk(live[k], top);
    if j < |free| {
      ShiftsOne(mem, c);
      assert a <= Shifts(mem, c, 1).next;
    } else {
      BlockBetween(free, live, top, k);
      if j > 0 { RoundUpBound(free[j - 1].len); assert SegOk(free[j - 1], top); }
      forall t: nat
        ensures Shifts(mem, c, t).next < a
      {
        NullStays(mem, c, t, a);
      }
    }
  }

  lemma {:induction false} NullStays(mem: Memory, c: Cursor, t: nat, a: nat)
    requires c.nextNext == 0 && c.next < a && a > 0
    ensures Shifts(mem, c, t).nextNext == 0 && Shifts(mem, c, t).next < a
  {
    if t > 0 { NullStays(mem, c, t - 1, a); }
  }

  lemma GrowAddrs(free: seq<Seg>, k: nat)
    requires free != []
    ensures |Grow(free, k)| == |free| && forall i :: AddrAt(Grow(free, k), i) == AddrAt(free, i)
  {
  }

  /** Where a live block and its free neighbours lie, and what their headers hold. */
  lemma {:induction false} PutBackFacts(mem: Memory, free: seq<Seg>, live: seq<Block>, top: nat, k: nat)
    requires Layout(free, live, top) && Headers(mem, free) && Records(mem, live) && k < |live|
    requires Position(free, live[k].addr) < |free|
    ensures var a := live[k].addr;
            var j := Position(free, a);
            && HEAP_BASE <= a && a % 4 == 0 && a + HEADER <= free[j].addr && RecordAt(mem, live[k])
            && free[j].addr % 4 == 0 && free[j].addr + HEADER <= top && HeaderAt(mem, free, j)
            && (j > 0 ==> free[j - 1].addr % 4 == 0 && HEAP_BASE <= free[j - 1].addr && free[j - 1].addr + HEADER <= a && HeaderAt(mem, free, j - 1))
            && (j > 1 ==> free[j - 2].addr % 4 == 0 && HEAP_BASE <= free[j - 2].addr && free[j - 2].addr + HEADER <= free[j - 1].addr && free[j - 2].addr in mem)
  {
    hide RoundUp, Position;
    var a := live[k].addr;
    var j := Position(free, a);
    BlockBetween(free, live, top, k);
    assert BlockOk(live[k], top) && RecordAt(mem, live[k]) && HeaderAt(mem, free, j);
    RoundUpBound(live[k].size + WORD);
    HeaderMapped(free, live, top, j);
    if j > 0 {
      HeaderMapped(free, live, top, j - 1);
      RoundUpBound(free[j - 1].len);
      assert HeaderAt(mem, free, j - 1);
    }
    if j > 1 {
      HeaderMapped(free, live, top, j - 2);
      RoundUpBound(free[j - 2].len);
      assert HeaderAt(mem, free, j - 2) && SegBefore(free[j - 2], free[j - 1]);
    }
  }

  /** The cursor's segments are mapped, and the joins found from it are the merges of the list. */
  lemma {:induction false} CursorMapped(mem: Memory, free: seq<Seg>, live: seq<Block>, top: nat, k: nat)
    requires Layout(free, live, top) && Headers(mem, free) && Records(mem, live) && k < |live| && live[k].addr + WORD in mem
    requires Position(free, live[k].addr) < |free|
    ensures var c := CursorAt(free, Position(free, live[k].addr) + 1);
            && HEAP_BASE <= live[k].addr && live[k].addr % 4 == 0 && (live[k].addr + WORD) % 4 == 0 && live[k].addr + HEADER <= top
            && HEAP_BASE <= c.next + WORD < top && (c.next + WORD) % 4 == 0 && live[k].addr in mem
            && (c.prev != 0 ==> HEAP_BASE <= c.prev + WORD < top && (c.prev + WORD) % 4 == 0)
            && Joins(mem, free, live[k], Position(free, live[k].addr))
  {
    hide RoundUp, Layout, Position, Headers, Records, Joins;
    var j: int := Position(free, live[k].addr);
    PutBackFacts(mem, free, live, top, k);
    assert AddrAt(free, j) == free[j].addr && (j > 0 ==> AddrAt(free, j - 1) == free[j - 1].addr);
    assert CursorAt(free, j + 1).next == AddrAt(free, j) && CursorAt(free, j + 1).prev == AddrAt(free, j - 1);
    JoinFacts(mem, free, live, k, j);
    hide HeaderAt, CursorAt, RecordAt;
    WordAfter(live[k].addr);
    WordAfter(free[j].addr);
    if j > 0 { WordAfter(free[j - 1].addr); }
  }

  lemma {:induction false} NotFree(free: seq<Seg>, live: seq<Block>, top: nat, k: nat)
    requires Layout(free, live, top) && k < |live|
    ensures live[k].addr > 0 && forall i :: 0 <= i < |free| ==> free[i].addr != live[k].addr
  {
    hide RoundUp;
    assert BlockOk(live[k], top);
    RoundUpBound(live[k].size + WORD);
    forall i | 0 <= i < |free|
      ensures free[i].addr != live[k].addr
    {
      RoundUpBound(free[i].len);
      assert SegBlockApart(free[i], live[k]) && SegOk(free[i], top);
    }
  }

  /** The joined segment is mapped, and so is what precedes it in the list, null included. */
  lemma {:induction false} LinkedPlace(free: seq<Seg>, live: seq<Block>, top: nat, k: nat)
    requires Layout(free, live, top) && k < |live| && free != []
    ensures var s := Seg(live[k].addr, live[k].size + WORD);
            var j := Position(free, s.addr);
            var m := Merged(free, j, s);
            var p := AddrAt(free, Lo(free, j, s) - 1);
            && m.addr % 4 == 0 && HEAP_BASE <= m.addr && m.addr + HEADER <= top && m.addr <= s.addr
            && p % 4 == 0 && (p == 0 || HEAP_BASE <= p) && p < m.addr && (p != 0 <==> Lo(free, j, s) > 0)
            && AddrAt(Freed(free, j, s), 0) == (if AddrAt(free, 0) > m.addr then m.addr else AddrAt(free, 0))
  {
    hide RoundUp, Position;
    var s := Seg(live[k].addr, live[k].size + WORD);
    var j := Position(free, s.addr);
    var m := Merged(free, j, s);
    var lo: int := Lo(free, j, s);
    MergedExtent(free, live, top, k);
    RoundUpBound(m.len);
    FreedAround(free, live, top, k);
    FreedKept(free, live, top, k);
    assert BlockOk(live[k], top);
    HeaderMapped(free, live, top, 0);
    HeaderMapped(free, live, top, lo - 1);
    if lo == 0 && !MergesPrev(free, j, s) { assert j == 0 && m.addr == s.addr < free[0].addr; }
  }

  /** Linking the joined segment in completes the list. */
  lemma {:induction false} LinkedStored(mem: Memory, mem1: Memory, free: seq<Seg>, live: seq<Block>, top: nat, k: nat)
    requires Layout(free, live, top) && Headers(mem, free) && Records(mem, live) && k < |live| && free != []
    requires 0 in mem
    requires var s := Seg(live[k].addr, live[k].size + WORD);
             var j := Position(free, s.addr);
             var m := Merged(free, j, s);
             && WritesWithin(mem, mem1, AddrAt(free, Lo(free, j, s) - 1), m.addr, s.addr + HEADER)
             && m.addr in mem1 && m.addr + WORD in mem1 && mem1[m.addr + WORD] == m.len
    ensures var s := Seg(live[k].addr, live[k].size + WORD);
            var j := Position(free, s.addr);
            var m := Merged(free, j, s);
            var mem2 := mem1[AddrAt(free, Lo(free, j, s) - 1) := m.addr][m.addr := AddrAt(free, Hi(free, j, s))];
            Headers(mem2, Freed(free, j, s)) && Records(mem2, Without(live, k)) && PayloadKept(mem, mem2, Without(live, k))
  {
    hide RoundUp, Position, Layout, Records, PayloadKept;
    var s := Seg(live[k].addr, live[k].size + WORD);
    var j := Position(free, s.addr);
    var m := Merged(free, j, s);
    var lo: int := Lo(free, j, s);
    LinkedPlace(free, live, top, k);
    if lo > 0 { HeaderIs(mem, free, lo - 1); }
    hide Headers;
    var mem2 := mem1[AddrAt(free, lo - 1) := m.addr][m.addr := AddrAt(free, Hi(free, j, s))];
    assert mem2.Keys == mem.Keys;
    FreedStored(mem, mem2, free, live, top, k);
  }

  /** Memory after the joins, by the same tests on the words in memory. */
  function JoinedNext(mem: Memory, a: nat, next: nat): Memory
    requires a + WORD in mem && next + WORD in mem
  {
    if a + mem[a + WORD] == next then mem[a + WORD := mem[a + WORD] + mem[next + WORD]] else mem
  }

  function JoinedPrev(mem: Memory, a: nat, prev: nat): Memory
    requires a + WORD in mem && (prev != 0 ==> prev + WORD in mem)
  {
    if prev != 0 && prev + mem[prev + WORD] == a then mem[prev + WORD := mem[prev + WORD] + mem[a + WORD]] else mem
  }

  /** The joins found by reading lengths from memory are the merges of the list. */
  ghost predicate Joins(mem: Memory, free: seq<Seg>, b: Block, j: nat)
    requires b.addr in mem
  {
    var s := Seg(b.addr, b.size + WORD);
    var c := CursorAt(free, j + 1);
    var m := Merged(free, j, s);
    var mem1 := mem[b.addr + WORD := mem[b.addr]];
    && c.next + WORD in mem1 && (c.prev != 0 ==> c.prev + WORD in mem1)
    && var mem2 := JoinedNext(mem1, b.addr, c.next);
    && mem2.Keys == mem1.Keys
    && var mem3 := JoinedPrev(mem2, b.addr, c.prev);
    && (m.addr, AddrAt(free, Lo(free, j, s) - 1)) == (if c.prev != 0 && c.prev + mem2[c.prev + WORD] == b.addr then (c.prev, c.prevPrev) else (b.addr, c.prev))
    && AddrAt(free, Hi(free, j, s)) == (if b.addr + mem1[b.addr + WORD] == c.next then c.nextNext else c.next)
    && m.addr + WORD in mem3 && mem3[m.addr + WORD] == m.len
    && WritesWithin(mem, mem3, AddrAt(free, Lo(free, j, s) - 1), m.addr, b.addr + HEADER)
  }

  lemma JoinFacts(mem: Memory, free: seq<Seg>, live: seq<Block>, k: nat, j: nat)
    requires k < |live| && j < |free| && RecordAt(mem, live[k]) && live[k].addr + HEADER <= free[j].addr && HeaderAt(mem, free, j)
    requires j > 0 ==> HeaderAt(mem, free, j - 1) && free[j - 1].addr + HEADER <= live[k].addr && free[j - 1].addr > 0
    requires live[k].addr + WORD in mem
    ensures Joins(mem, free, live[k], j)
  {
    var a := live[k].addr;
    var s := Seg(a, live[k].size + WORD);
    var c := CursorAt(free, j + 1);
    assert c.next == free[j].addr && (j > 0 ==> c.prev == free[j - 1].addr) && (j == 0 ==> c.prev == 0);
    var mem1 := mem[a + WORD := mem[a]];
    var mem2 := JoinedNext(mem1, a, c.next);
    assert mem1.Keys == mem.Keys;
    NextJoined(mem1, a, s.len, c.next, free[j].len);
    if j > 0 { PrevJoined(mem2, a, c.prev, free[j - 1].len); }
    hide JoinedNext, JoinedPrev;
    JoinedWrites(mem, JoinedPrev(mem2, a, c.prev), free, j, s);
  }

  lemma NextJoined(mem: Memory, a: nat, len: nat, next: nat, nextLen: nat)
    requires a + WORD in mem && mem[a + WORD] == len && next + WORD in mem && mem[next + WORD] == nextLen
    ensures var mem2 := JoinedNext(mem, a, next);
            && mem2.Keys == mem.Keys && mem2[a + WORD] == len + (if a + len == next then nextLen else 0)
            && forall x :: x in mem && x != a + WORD ==> mem2[x] == mem[x]
  {
    assert JoinedNext(mem, a, next).Keys == mem.Keys;
  }

  lemma PrevJoined(mem: Memory, a: nat, prev: nat, prevLen: nat)
    requires a + WORD in mem && prev != 0 && prev + WORD in mem && mem[prev + WORD] == prevLen
    ensures var mem2 := JoinedPrev(mem, a, prev);
            && mem2.Keys == mem.Keys && mem2[prev + WORD] == prevLen + (if prev + prevLen == a then mem[a + WORD] else 0)
            && forall x :: x in mem && x != prev + WORD ==> mem2[x] == mem[x]
  {
    assert JoinedPrev(mem, a, prev).Keys == mem.Keys;
  }

  lemma JoinedWrites(mem: Memory, mem3: Memory, free: seq<Seg>, j: nat, s: Seg)
    requires mem3.Keys == mem.Keys
    requires forall x :: x in mem && x != s.addr + WORD && !(MergesPrev(free, j, s) && x == free[j - 1].addr + WORD) ==> mem3[x] == mem[x]
    requires j > 0 ==> j <= |free| && free[j - 1].addr + HEADER <= s.addr
    ensures WritesWithin(mem, mem3, AddrAt(free, Lo(free, j, s) - 1), Merged(free, j, s).addr, s.addr + HEADER)
  {
  }

  /** `s` is joined with what it touches: the whole's address and its neighbours, its length in memory,
      and no other word changed outside the pieces. */
  ghost predicate Coalesced(mem: Memory, mem2: Memory, free: seq<Seg>, s: Seg, segment: nat, prev: nat, next: nat) {
    var j := Position(free, s.addr);
    var m := Merged(free, j, s);
    && segment == m.addr && prev == AddrAt(free, Lo(free, j, s) - 1) && next == AddrAt(free, Hi(free, j, s))
    && m.addr + WORD in mem2 && mem2[m.addr + WORD] == m.len
    && WritesWithin(mem, mem2, prev, m.addr, s.addr + HEADER)
  }

  class Heap {
    var mem: Memory
    // `free_segments_head` and `next_page_virt_addr`
    var head: nat
    var nextPage: nat
    // How many more calls of `pfa_commit_page` succeed.
    var frames: nat
    ghost var free: seq<Seg>
    ghost var live: seq<Block>

    ghost predicate PagesOk()
      reads this
    {
      && HEAP_BASE <= nextPage && nextPage % 4096 == 0 && nextPage + frames * 4096 <= U32
      && (forall a {:trigger a in mem} :: IsWord(a) ==> a in mem)
    }

    ghost predicate Linked()
      reads this
    {
      head == AddrAt(free, 0) && Headers(mem, free) && Records(mem, live)
    }

    ghost predicate Valid()
      reads this
    {
      && PagesOk() && Linked() && Layout(free, live, nextPage)
      && FreeBytes(free) + LiveBytes(live) <= nextPage - HEAP_BASE
    }

    ghost predicate Mapped(a: nat)
      reads this
    {
      a % 4 == 0 && (a < LOW_END || HEAP_BASE <= a < nextPage)
    }

    function Load(a: nat): nat
      requires PagesOk() && Mapped(a)
      reads this
    {
      mem[a]
    }

    method Store(a: nat, value: nat)
      requires PagesOk() && Mapped(a)
      modifies this`mem
      ensures mem == old(mem)[a := value] && PagesOk()
    {
      mem := mem[a := value];
    }

    /** `pfa_commit_page(next_page_virt_addr)` and the advance past the page. */
    method CommitPage() returns (ok: bool)
      requires PagesOk()
      modifies this`frames, this`nextPage
      ensures PagesOk() && ok == (old(frames) > 0)
      ensures ok ==> frames == old(frames) - 1 && nextPage == old(nextPage) + PAGE_SIZE
      ensures !ok ==> frames == old(frames) && nextPage == old(nextPage)
    {
      ok := frames > 0;
      if ok {
        frames := frames - 1;
        nextPage := nextPage + PAGE_SIZE;
      }
    }

    constructor (initial: Memory, available: nat)
      requires forall a {:trigger a in initial} :: IsWord(a) ==> a in initial
      requires HEAP_BASE + available * 4096 <= U32
      ensures Valid() && free == [] && live == [] && nextPage == HEAP_BASE
    {
      mem, head, nextPage, frames := initial, 0, HEAP_BASE, available;
      free, live := [], [];
    }

    /** The first-fit walk over the list in memory. */
    method FindFit(n: nat) returns (prevPrev: nat, prev: nat, segment: nat, canSplit: bool)
      requires Valid() && n + HEADER < U32
      ensures var i := FirstFit(free, n);
              && segment == AddrAt(free, i) && prev == AddrAt(free, i - 1) && prevPrev == AddrAt(free, i - 2)
              && canSplit == (i < |free| && n + HEADER <= free[i].len)
    {
      hide RoundUp, FreeBytes, LiveBytes, Layout, Records, SplitTest;
      HeaderMapped(free, live, nextPage, 0);
      prevPrev, prev, segment, canSplit := 0, 0, head, false;
      ghost var i: nat := 0;
      while segment != 0
        invariant i <= |free|
        invariant segment == AddrAt(free, i) && prev == AddrAt(free, i - 1) && prevPrev == AddrAt(free, i - 2)
        invariant !canSplit && (segment != 0 <==> i < |free|)
        invariant forall k :: 0 <= k < i ==> free[k].len < n
        decreases |free| - i
      {
        assert HeaderAt(mem, free, i);
        HeaderMapped(free, live, nextPage, i);
        HeaderMapped(free, live, nextPage, i + 1);
        SplitIs(n, free[i].len);
        if SplitTest(n, Load(segment + WORD)) {
          canSplit := true;
          break;
        } else if n <= Load(segment + WORD) {
          break;
        }
        prevPrev, prev, segment := prev, segment, Load(segment);
        i := i + 1;
      }
      FirstFitIs(free, n, i);
    }

    /** An empty list gets a fresh page as its only segment. */
    method Start() returns (ok: bool)
      requires Valid() && free == []
      modifies this
      ensures Valid() && live == old(live) && TailFree(free, live)
      ensures ok == (old(frames) > 0)
      ensures free == if ok then Started([], old(nextPage)) else []
      ensures !ok ==> nextPage == old(nextPage) && frames == 0
      ensures ok ==> nextPage == old(nextPage) + PAGE_SIZE && frames == old(frames) - 1
      ensures PayloadKept(old(mem), mem, live)
    {
      hide Layout, TailFree, RoundUp, FreeBytes, LiveBytes, Headers, Records, AddrAt, Aside, PayloadKept;
      PayloadSame(mem, live);
      LiveBelow(free, live, nextPage);
      NoBytes();
      StartedLayout(live, nextPage);
      PageWords(nextPage);
      ok := CommitPage();
      if ok {
        head := nextPage - PAGE_SIZE;
        Store(head, 0);
        Store(head + WORD, PAGE_SIZE);
        free := [Seg(head, PAGE_SIZE)];
        OneHeader(mem, free[0]);
        OneBytes(free[0]);
        RecordsKept(old(mem), mem, live, head, head, head + HEADER);
      }
    }

    /** The growth loop: commit pages until `length` reaches `n`. */
    method CommitUpTo(length: nat, n: nat) returns (ok: bool, grown: nat, ghost c: nat)
      requires PagesOk()
      modifies this`frames, this`nextPage
      ensures PagesOk() && frames == old(frames) - c && nextPage == old(nextPage) + c * 4096
      ensures grown == length + c * 4096 && (c > 0 ==> length + (c - 1) * 4096 < n)
      ensures ok == (n <= grown) && (!ok ==> frames == 0)
    {
      grown, c := length, 0;
      while grown < n
        invariant PagesOk() && frames == old(frames) - c && nextPage == old(nextPage) + c * 4096
        invariant grown == length + c * 4096 && (c > 0 ==> length + (c - 1) * 4096 < n)
        decreases n - grown
      {
        ok := CommitPage();
        if !ok { return; }
        grown := grown + PAGE_SIZE;
        c := c + 1;
      }
      ok := true;
    }

    /** Growth of the last segment; a failed commit leaves the list as it was. */
    method GrowLast(n: nat, last: nat) returns (ok: bool)
      requires Valid() && free != [] && last == free[|free| - 1].addr
      requires FirstFit(free, n) == |free| && TailFree(free, live)
      modifies this
      ensures Valid() && live == old(live)
      ensures ok == (PagesFor(old(free), n) <= old(frames))
      ensures free == if ok then Grow(old(free), PagesFor(old(free), n)) else old(free)
      ensures nextPage == old(nextPage) + (old(frames) - frames) * 4096
      ensures frames == if ok then old(frames) - PagesFor(old(free), n) else 0
      ensures PayloadKept(old(mem), mem, live)
    {
      hide RoundUp, FreeBytes, LiveBytes, PagesFor, Records, TailFree, Layout, PayloadKept;
      PayloadSame(mem, live);
      ghost var m: nat := |free| - 1;
      assert HeaderAt(mem, free, m);
      HeaderMapped(free, live, nextPage, m);
      hide Headers;
      var length: nat;
      ghost var c: nat;
      ok, length, c := CommitUpTo(Load(last + WORD), n);
      if !ok {
        LayoutUp(free, live, old(nextPage), nextPage);
        PagesMore(free, n, c);
        return;
      }
      PagesCount(free, n, c);
      Store(last + WORD, length);
      TailFreeGrowth(free, live, old(nextPage), c);
      GrowBytes(free, c);
      GrowHeaders(mem, old(mem), free, live, old(nextPage), c);
      free := Grow(free, c);
    }

    ghost predicate CutAt(size: nat, prev: nat, segment: nat, i: nat)
      reads this
    {
      && Valid() && i < |free| && size >= 1 && RoundUp(size + WORD) <= free[i].len
      && segment == free[i].addr && prev == AddrAt(free, i - 1)
    }

    /** The block takes the front of segment `i` and leaves the rest free. */
    method SplitOff(size: nat, trueSize: nat, prev: nat, segment: nat, ghost i: nat)
      requires CutAt(size, prev, segment, i) && trueSize == RoundUp(size + WORD) && trueSize + HEADER <= free[i].len
      modifies this`mem, this`head, this`free, this`live
      ensures Valid() && free == Take(old(free), i, trueSize) && live == old(live) + [Block(segment, size)]
      ensures PayloadKept(old(mem), mem, old(live))
    {
      hide RoundUp, Layout, FreeBytes, LiveBytes, Headers, Records, PayloadKept, Take;
      CutFacts(mem, free, live, nextPage, i, size);
      hide AddrAt;
      SplitStored(mem, free, live, nextPage, i, size);
      var remaining := segment + trueSize;
      var next, length := Load(segment), Load(segment + WORD);
      if prev != 0 { Store(prev, remaining); }
      Store(remaining, next);
      Store(remaining + WORD, length - trueSize);
      if segment == head { head := remaining; }
      Store(segment, size + WORD);
      free, live := Take(free, i, trueSize), live + [Block(segment, size)];
    }

    /** The block takes the whole of segment `i`. */
    method Unlink(size: nat, prev: nat, segment: nat, ghost i: nat)
      requires CutAt(size, prev, segment, i) && free[i].len < RoundUp(size + WORD) + HEADER
      modifies this`mem, this`head, this`free, this`live
      ensures Valid() && free == Take(old(free), i, RoundUp(size + WORD)) && live == old(live) + [Block(segment, size)]
      ensures PayloadKept(old(mem), mem, old(live))
    {
      hide RoundUp, Layout, FreeBytes, LiveBytes, Headers, Records, PayloadKept, Take;
      CutFacts(mem, free, live, nextPage, i, size);
      UnlinkStored(mem, free, live, nextPage, i, size);
      var next := Load(segment);
      if prev != 0 { Store(prev, next); }
      if segment == head { head := next; }
      Store(segment, size + WORD);
      free, live := Take(free, i, RoundUp(size + WORD)), live + [Block(segment, size)];
    }

    /** The search, and the growth when no segment is long enough. */
    method Choose(n: nat) returns (ok: bool, prev: nat, segment: nat, canSplit: bool, ghost i: nat)
      requires Valid() && free != [] && n + HEADER < U32
      requires FirstFit(free, n) < |free| || TailFree(free, live)
      modifies this
      ensures Valid() && live == old(live) && ok == (PagesFor(old(free), n) <= old(frames))
      ensures !ok ==> free == old(free) && frames == 0
      ensures ok ==> (free, i) == Chosen(old(free), n) && i < |free| && n <= free[i].len
      ensures ok ==> segment == free[i].addr && prev == AddrAt(free, i - 1) && canSplit == (n + HEADER <= free[i].len)
      ensures PayloadKept(old(mem), mem, live)
    {
      hide PayloadKept, RoundUp, Layout, FreeBytes, LiveBytes, Headers, Records, Grow, TailFree, PagesFor, SplitTest;
      PayloadSame(mem, live);
      i := FirstFit(free, n);
      ChosenFits(free, n);
      HeaderMapped(free, live, nextPage, i);
      var prevPrev;
      prevPrev, prev, segment, canSplit := FindFit(n);
      ok := true;
      if segment == 0 {
        GrowAddrs(free, PagesFor(free, n));
        ok := GrowLast(n, prev);
        if !ok { return; }
        i := |free| - 1;
        segment, prev := prev, prevPrev;
        HeaderMapped(free, live, nextPage, i);
        HeaderIs(mem, free, i);
        canSplit := SplitTest(n, Load(segment + WORD));
        SplitIs(n, free[i].len);
      }
    }

    /** Cut the block off segment `i` one way or the other. */
    method CutOff(size: nat, trueSize: nat, prev: nat, segment: nat, canSplit: bool, ghost i: nat)
      requires CutAt(size, prev, segment, i) && trueSize == RoundUp(size + WORD) && canSplit == (trueSize + HEADER <= free[i].len)
      modifies this`mem, this`head, this`free, this`live
      ensures Valid() && free == Take(old(free), i, trueSize) && live == old(live) + [Block(segment, size)]
      ensures PayloadKept(old(mem), mem, old(live))
    {
      hide PayloadKept, Layout, Take, FreeBytes, LiveBytes, Headers, Records, RoundUp;
      if canSplit {
        SplitOff(size, trueSize, prev, segment, i);
      } else {
        Unlink(size, prev, segment, i);
      }
    }

    /** `memory_allocate`. The heap must have a fit, be empty of free segments, or have its last free
        segment above every live block. */
    method Allocate(size: nat) returns (p: nat)
      requires Valid() && 1 <= size <= U32 - 16
      requires free == [] || FirstFit(free, RoundUp(size + WORD)) < |free| || TailFree(free, live)
      modifies this
      ensures Valid()
      ensures Allocated(old(free), old(live), old(nextPage), old(frames), size, p, free, live)
      ensures p % 4 == 0 && (p == 0 ==> frames == 0)
      ensures PayloadKept(old(mem), mem, old(live))
    {
      hide PayloadKept, RoundUp, Layout, FreeBytes, LiveBytes, Headers, Records, Take, Chosen, TailFree, PagesFor, SplitTest;
      SizesHandled(size);
      RoundUpBound(size + WORD);
      HeaderMapped(free, live, nextPage, 0);
      var trueSize := TrueSize(size);
      hide TrueSize;
      PayloadSame(mem, live);
      if head == 0 {
        var ok := Start();
        if !ok { return 0; }
      }
      ghost var mem1 := mem;
      var ok, prev, segment, canSplit;
      ghost var i;
      ok, prev, segment, canSplit, i := Choose(trueSize);
      PayloadChain(old(mem), mem1, mem, live);
      if !ok { return 0; }
      ghost var mem2 := mem;
      HeaderMapped(free, live, nextPage, i);
      CutOff(size, trueSize, prev, segment, canSplit, i);
      PayloadChain(old(mem), mem2, mem, old(live));
      p := segment + WORD;
    }

    /** The two loops that find the neighbours of `segment` in the list. */
    method FindPlace(segment: nat) returns (c: Cursor)
      requires Valid() && Position(free, segment) < |free| && segment > 0
      requires forall i :: 0 <= i < |free| ==> free[i].addr != segment
      ensures c == CursorAt(free, Position(free, segment) + 1)
    {
      hide RoundUp, Layout, FreeBytes, LiveBytes, Records, PagesOk;
      ghost var j: nat := Position(free, segment);
      ghost var i: nat := 0;
      HeaderMapped(free, live, nextPage, 0);
      c := Cursor(0, 0, 0, head);
      while c.nextNext != 0
        invariant i <= j && c == CursorAt(free, i)
        invariant segment > c.next
        decreases j - i
      {
        if c.nextNext > segment && c.next < segment { break; }
        HeaderIs(mem, free, i);
        HeaderMapped(free, live, nextPage, i);
        assert CursorAt(free, i + 1).nextNext == mem[free[i].addr];
        c := Cursor(c.prev, c.next, c.nextNext, Load(c.nextNext));
        i := i + 1;
      }
      HeaderMapped(free, live, nextPage, i);
      assert i == j;
      while c.next < segment
        invariant i == j || i == j + 1
        invariant c == CursorAt(free, i)
        decreases j + 1 - i
      {
        HeaderIs(mem, free, i);
        HeaderMapped(free, live, nextPage, i);
        HeaderMapped(free, live, nextPage, i + 1);
        c := Cursor(c.prev, c.next, c.nextNext, if c.nextNext != 0 then Load(c.nextNext) else c.nextNext);
        i := i + 1;
      }
    }

    /** Absorb the next segment when it begins where `segment` ends. */
    method JoinNext(segment: nat, next: nat, nextNext: nat) returns (rest: nat)
      requires PagesOk() && Mapped(segment + WORD) && Mapped(next + WORD)
      modifies this`mem
      ensures PagesOk()
      ensures mem == JoinedNext(old(mem), segment, next)
      ensures rest == if segment + old(mem)[segment + WORD] == next then nextNext else next
    {
      rest := next;
      if segment + Load(segment + WORD) == next {
        Store(segment + WORD, Load(segment + WORD) + Load(next + WORD));
        rest := nextNext;
      }
    }

    /** Be absorbed by the previous segment when it ends where `segment` begins. */
    method JoinPrev(segment: nat, prev: nat, prevPrev: nat) returns (whole: nat, before: nat)
      requires PagesOk() && Mapped(segment + WORD) && (prev != 0 ==> Mapped(prev + WORD))
      modifies this`mem
      ensures PagesOk()
      ensures mem == JoinedPrev(old(mem), segment, prev)
      ensures (whole, before) == if prev != 0 && prev + old(mem)[prev + WORD] == segment then (prev, prevPrev) else (segment, prev)
    {
      whole, before := segment, prev;
      if prev != 0 && prev + Load(prev + WORD) == segment {
        Store(prev + WORD, Load(prev + WORD) + Load(segment + WORD));
        whole, before := prev, prevPrev;
      }
    }

    /** Record the length of the freed segment and join it with the neighbours it touches. */
    method Coalesce(block: nat, c: Cursor, ghost k: nat) returns (segment: nat, prev: nat, next: nat)
      requires Valid() && k < |live| && block == live[k].addr && Position(free, block) < |free|
      requires c == CursorAt(free, Position(free, block) + 1)
      modifies this`mem
      ensures PagesOk()
      ensures Coalesced(old(mem), mem, free, Seg(block, live[k].size + WORD), segment, prev, next)
    {
      hide RoundUp, Layout, FreeBytes, LiveBytes, Headers, Records, Position, WritesWithin;
      hide CursorAt, Merged, Lo, Hi, AddrAt, JoinedNext, JoinedPrev;
      BlockPlace(live, free, nextPage, k);
      WordAfter(block);
      assert IsWord(block + WORD);
      CursorMapped(mem, free, live, nextPage, k);
      Store(block + WORD, Load(block));
      next := JoinNext(block, c.next, c.nextNext);
      segment, prev := JoinPrev(block, c.prev, c.prevPrev);
    }

    /** Link the joined segment in between its neighbours. */
    method LinkIn(segment: nat, prev: nat, next: nat)
      requires PagesOk() && Mapped(segment) && Mapped(prev) && prev != segment
      modifies this`mem, this`head
      ensures PagesOk() && mem == old(mem)[prev := segment][segment := next]
      ensures head == if old(head) > segment then segment else old(head)
    {
      if head > segment { head := segment; }
      // At the front of the list `prev` is null and this writes to address 0.
      Store(prev, segment);
      Store(segment, next);
    }

    /** `memory_free` of the live block `k` at `address`. With no free segment left it returns at
        once and the block stays allocated for good. Otherwise a free segment must lie above it. */
    method Free(address: nat, ghost k: nat)
      requires Valid() && k < |live| && address == live[k].addr + WORD
      requires free == [] || Position(free, live[k].addr) < |free|
      modifies this`mem, this`head, this`free, this`live
      ensures Valid()
      ensures old(free) == [] ==> mem == old(mem) && free == [] && live == old(live)
      ensures old(free) != [] ==>
        var s := Seg(address - WORD, old(live)[k].size + WORD);
        && free == Freed(old(free), Position(old(free), s.addr), s)
        && live == Without(old(live), k)
        && FreeBytes(free) == FreeBytes(old(free)) + s.len
      ensures PayloadKept(old(mem), mem, Without(old(live), k))
    {
      hide PayloadKept, Aside, RoundUp, Layout, FreeBytes, LiveBytes, Headers, Records, Position, Freed, Merged, Lo, Hi, CursorAt, WritesWithin;
      PayloadSame(mem, Without(live, k));
      HeaderMapped(free, live, nextPage, 0);
      if head == 0 { return; }
      hide AddrAt;
      var block := address - WORD;
      ghost var s := Seg(block, live[k].size + WORD);
      ghost var j: nat := Position(free, block);
      NotFree(free, live, nextPage, k);
      var c := FindPlace(block);
      var segment, prev, next := Coalesce(block, c, k);
      LinkedPlace(free, live, nextPage, k);
      LinkedStored(old(mem), mem, free, live, nextPage, k);
      LinkIn(segment, prev, next);
      FreedLayout(free, live, nextPage, k);
      FreedBytes(free, j, s);
      LiveBytesWithout(live, k);
      RoundUpBound(s.len);
      free, live := Freed(free, j, s), Without(live, k);
    }
  }
}
