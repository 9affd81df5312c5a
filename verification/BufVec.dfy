/** Scatter/gather buffers in memory: `fuse_buf_size`, `fuse_bufvec_current`, `fuse_bufvec_advance`,
    the memory-to-memory case of `fuse_buf_copy_one`, and `fuse_buf_copy`
    (tagfs/FUSE_driver/libfuse/lib/buffer.c, lines 22-40 and 227-324). */
module BufVec {
  import opened Options

  const SIZE_MAX: nat := 0xffff_ffff_ffff_ffff

  // A `struct fuse_buf` in memory: a range of cells.
  datatype Buf = Buf(base: nat, size: nat)

  function Cells(b: Buf): (s: seq<nat>)
    ensures |s| == b.size
  {
    seq(b.size, i => b.base + i)
  }

  /** The cells of a vector in order. */
  function Flat(bufs: seq<Buf>): seq<nat> {
    if bufs == [] then [] else Cells(bufs[0]) + Flat(bufs[1..])
  }

  /** The cells from the cursor on. */
  function Rest(bufs: seq<Buf>, idx: nat, off: nat): seq<nat> {
    if idx < |bufs| && off <= bufs[idx].size then Cells(bufs[idx])[off..] + Flat(bufs[idx + 1..]) else []
  }

  function Total(bufs: seq<Buf>): nat {
    if bufs == [] then 0 else Total(bufs[..|bufs| - 1]) + bufs[|bufs| - 1].size
  }

  predicate CursorOk(bufs: seq<Buf>, idx: nat, off: nat) {
    idx <= |bufs| && (idx < |bufs| ==> off <= bufs[idx].size)
  }

  predicate Distinct(s: seq<nat>) {
    forall i, j :: 0 <= i < j < |s| ==> s[i] != s[j]
  }

  predicate InBounds(s: seq<nat>, bound: nat) {
    forall k :: 0 <= k < |s| ==> s[k] < bound
  }

  predicate Apart(d: seq<nat>, s: seq<nat>) {
    forall k, m :: 0 <= k < |d| && 0 <= m < |s| ==> d[k] != s[m]
  }

  function Min(a: nat, b: nat): nat {
    if a < b then a else b
  }

  /** What is left of a list of cells after the first `c`. */
  function After(s: seq<nat>, c: nat): (r: seq<nat>)
    requires c <= |s|
    ensures |r| == |s| - c
  {
    s[c..]
  }

  // From position `c` on, `len` cells of `d` run upward from `base`.
  ghost predicate IsRun(d: seq<nat>, c: nat, len: nat, base: nat) {
    c + len <= |d| && d[c..c + len] == Cells(Buf(base, len))
  }

  lemma AfterAfter(s: seq<nat>, a: nat, b: nat)
    requires a + b <= |s|
    ensures After(After(s, a), b) == After(s, a + b)
  {
  }

  lemma RunAfter(s: seq<nat>, c: nat, len: nat, base: nat)
    requires c <= |s| && IsRun(After(s, c), 0, len, base)
    ensures IsRun(s, c, len, base)
  {
    assert After(s, c)[0..len] == s[c..c + len];
  }

  // Moving on by `len` cells within the current piece drops them from the rest.
  lemma {:induction false} RestAdvance(bufs: seq<Buf>, idx: nat, off: nat, len: nat)
    requires idx < |bufs| && off + len <= bufs[idx].size
    ensures |Rest(bufs, idx, off)| >= bufs[idx].size - off >= len
    ensures IsRun(Rest(bufs, idx, off), 0, len, bufs[idx].base + off)
    ensures Rest(bufs, idx, off + len) == After(Rest(bufs, idx, off), len)
    ensures off + len == bufs[idx].size ==> Rest(bufs, idx + 1, 0) == After(Rest(bufs, idx, off), len)
  {
    var r := Rest(bufs, idx, off);
    var tail := Flat(bufs[idx + 1..]);
    assert Cells(bufs[idx])[off..][len..] == Cells(bufs[idx])[off + len..];
    assert r[len..] == Cells(bufs[idx])[off..][len..] + tail;
    assert r[0..len] == Cells(bufs[idx])[off..][..len];
    if off + len == bufs[idx].size {
      assert Cells(bufs[idx])[off + len..] == [];
      assert r[len..] == tail;
      if idx + 1 < |bufs| {
        assert bufs[idx + 1..][1..] == bufs[idx + 2..];
        assert Cells(bufs[idx + 1])[0..] == Cells(bufs[idx + 1]);
      }
    }
  }

  // ---------------------------------------------------------------------------
  // Where the pieces end

  /** The cursor after `len` more cells of the current piece. */
  function Moved(bufs: seq<Buf>, idx: nat, off: nat, len: nat): (nat, nat)
    requires idx < |bufs|
  {
    if off + len < bufs[idx].size then (idx, off + len)
    else (idx + 1, if idx + 1 == |bufs| then off + len else 0)
  }

  /** What is left of the vector's last piece. */
  function LastPiece(bufs: seq<Buf>, idx: nat, off: nat): nat {
    if idx >= |bufs| then 0
    else if idx < |bufs| - 1 then bufs[|bufs| - 1].size
    else if off <= bufs[idx].size then bufs[idx].size - off else 0
  }

  /** Where the piece that holds the `p`-th cell from the cursor on begins; 0 for the current piece. */
  function PieceStart(bufs: seq<Buf>, idx: nat, off: nat, p: nat): nat
    decreases |bufs| - idx
  {
    if idx >= |bufs| || off > bufs[idx].size || p <= bufs[idx].size - off then 0
    else (bufs[idx].size - off) + PieceStart(bufs, idx + 1, 0, p - (bufs[idx].size - off))
  }

  function Max(a: nat, b: nat): nat {
    if a < b then b else a
  }

  /** The last run of a copy begins where the later of two pieces begins. */
  function LastStart(sb: seq<Buf>, si: nat, so: nat, db: seq<Buf>, di: nat, do: nat, p: nat): nat {
    Max(PieceStart(sb, si, so, p), PieceStart(db, di, do, p))
  }

  /** The copy comes to the end of the source vector with something to copy. */
  predicate Lags(sb: seq<Buf>, si: nat, so: nat, db: seq<Buf>, di: nat, do: nat) {
    LastPiece(sb, si, so) > 0 && |Rest(sb, si, so)| <= |Rest(db, di, do)|
  }

  /** The length of the run that reaches the end of the source vector; 0 if none does. */
  function FinalRun(sb: seq<Buf>, si: nat, so: nat, db: seq<Buf>, di: nat, do: nat): int {
    if Lags(sb, si, so, db, di, do)
    then |Rest(sb, si, so)| - LastStart(sb, si, so, db, di, do, |Rest(sb, si, so)|)
    else 0
  }

  lemma {:induction false} StartBelow(bufs: seq<Buf>, idx: nat, off: nat, p: nat)
    requires p > 0
    ensures PieceStart(bufs, idx, off, p) < p
    decreases |bufs| - idx
  {
    if idx < |bufs| && off <= bufs[idx].size < p + off {
      StartBelow(bufs, idx + 1, 0, p - (bufs[idx].size - off));
    }
  }

  // Moving on shifts the starts that still lie ahead.
  lemma StartMoved(bufs: seq<Buf>, idx: nat, off: nat, len: nat, p: nat)
    requires idx < |bufs| && off + len <= bufs[idx].size && len < p
    ensures var (i, o) := Moved(bufs, idx, off, len);
            var q := PieceStart(bufs, i, o, p - len);
            PieceStart(bufs, idx, off, p) == if off + len == bufs[idx].size || q > 0 then len + q else 0
  {
    if off + len == bufs[idx].size {
      assert PieceStart(bufs, |bufs|, off + len, p - len) == 0 == PieceStart(bufs, |bufs|, 0, p - len);
    }
  }

  lemma LastMoved(bufs: seq<Buf>, idx: nat, off: nat, len: nat)
    requires idx < |bufs| && off + len <= bufs[idx].size
    ensures var (i, o) := Moved(bufs, idx, off, len);
            i < |bufs| ==> (LastPiece(bufs, i, o) > 0 <==> LastPiece(bufs, idx, off) > 0)
    ensures Moved(bufs, idx, off, len).0 == |bufs| ==> LastPiece(bufs, idx, off) == len
  {
  }

  // One turn moves at least one of the cursors to the end of its piece.
  lemma LastStartMoved(sb: seq<Buf>, si: nat, so: nat, db: seq<Buf>, di: nat, do: nat, p: nat)
    requires si < |sb| && so <= sb[si].size && di < |db| && do <= db[di].size
    requires Min(sb[si].size - so, db[di].size - do) < p
    ensures var len := Min(sb[si].size - so, db[di].size - do);
            var (si', so') := Moved(sb, si, so, len);
            var (di', do') := Moved(db, di, do, len);
            LastStart(sb, si, so, db, di, do, p) == len + LastStart(sb, si', so', db, di', do', p - len)
  {
    var len: nat := Min(sb[si].size - so, db[di].size - do);
    StartMoved(sb, si, so, len, p);
    StartMoved(db, di, do, len, p);
  }

  lemma {:induction false} LastIsLeft(bufs: seq<Buf>, idx: nat, off: nat)
    ensures LastPiece(bufs, idx, off) <= |Rest(bufs, idx, off)| || (idx < |bufs| && off > bufs[idx].size)
    decreases |bufs| - idx
  {
    if idx + 1 < |bufs| && off <= bufs[idx].size {
      LastIsLeft(bufs, idx + 1, 0);
      assert Cells(bufs[idx + 1])[0..] == Cells(bufs[idx + 1]);
      assert bufs[idx + 1..][1..] == bufs[idx + 2..];
    }
  }

  /** When every piece holds something the condition is about lengths alone: the source's rest is not
      empty and no longer than the destination's. */
  lemma {:induction false} LagsByLength(sb: seq<Buf>, si: nat, so: nat, db: seq<Buf>, di: nat, do: nat)
    requires CursorOk(sb, si, so) && (si < |sb| ==> so < sb[si].size)
    requires forall i :: 0 <= i < |sb| ==> sb[i].size > 0
    ensures Lags(sb, si, so, db, di, do) <==> 0 < |Rest(sb, si, so)| <= |Rest(db, di, do)|
  {
    LastIsLeft(sb, si, so);
  }

  /** One destination piece of four cells and one source piece of two: after the copy the destination's
      cursor is where it was. */
  lemma LagExample()
    ensures FinalRun([Buf(8, 2)], 0, 0, [Buf(0, 4)], 0, 0) == 2
  {
  }

  // ---------------------------------------------------------------------------
  // The code

  /** Total size, saturating. */
  method FuseBufSize(bufs: seq<Buf>) returns (size: nat)
    requires forall i :: 0 <= i < |bufs| ==> bufs[i].size <= SIZE_MAX
    ensures size == Min(Total(bufs), SIZE_MAX)
  {
    size := 0;
    for i := 0 to |bufs|
      invariant size == Total(bufs[..i]) && size < SIZE_MAX
    {
      assert bufs[..i + 1][..i] == bufs[..i];
      if bufs[i].size >= SIZE_MAX - size {
        TotalGrows(bufs, i + 1);
        return SIZE_MAX;
      }
      size := size + bufs[i].size;
    }
    assert bufs[..|bufs|] == bufs;
  }

  lemma {:induction false} TotalGrows(bufs: seq<Buf>, i: nat)
    requires i <= |bufs|
    ensures Total(bufs[..i]) <= Total(bufs)
  {
    if i == |bufs| {
      assert bufs[..i] == bufs;
    } else {
      TotalGrows(bufs[..|bufs| - 1], i);
      assert bufs[..|bufs| - 1][..i] == bufs[..i];
    }
  }

  /** The size is the number of cells. */
  lemma {:induction false} TotalIsFlat(bufs: seq<Buf>)
    ensures |Flat(bufs)| == Total(bufs)
  {
    if bufs != [] {
      var k := |bufs| - 1;
      TotalIsFlat(bufs[..k]);
      FlatAppend(bufs[..k], bufs[k]);
      assert bufs[..k] + [bufs[k]] == bufs;
    }
  }

  lemma {:induction false} FlatAppend(bufs: seq<Buf>, b: Buf)
    ensures Flat(bufs + [b]) == Flat(bufs) + Cells(b)
  {
    if bufs == [] {
      assert [b][1..] == [] && [] + [b] == [b];
      assert Cells(b) + [] == Cells(b);
    } else {
      assert (bufs + [b])[1..] == bufs[1..] + [b];
      FlatAppend(bufs[1..], b);
      assert Cells(bufs[0]) + (Flat(bufs[1..]) + Cells(b)) == Cells(bufs[0]) + Flat(bufs[1..]) + Cells(b);
    }
  }

  /** `fuse_buf_copy_one` between two memory buffers: memcpy or memmove, as the ranges require. */
  method CopyOne<T>(mem: array<T>, dst: nat, src: nat, len: nat) returns (res: nat)
    requires dst + len <= mem.Length && src + len <= mem.Length
    modifies mem
    ensures res == len
    ensures mem[dst..dst + len] == old(mem[src..src + len])
    ensures mem[..dst] == old(mem[..dst]) && mem[dst + len..] == old(mem[dst + len..])
  {
    if dst != src {
      forall i | dst <= i < dst + len {
        mem[i] := mem[i - dst + src];
      }
    }
    return len;
  }

  class Bufvec {
    const bufs: seq<Buf>
    var idx: nat
    var off: nat

    constructor (bufs: seq<Buf>)
      ensures this.bufs == bufs && Valid() && Left() == Flat(bufs)
    {
      this.bufs, idx, off := bufs, 0, 0;
      new;
      if bufs != [] {
        assert Cells(bufs[0])[0..] == Cells(bufs[0]);
      }
    }

    predicate Valid()
      reads this
    {
      CursorOk(bufs, idx, off)
    }

    function Left(): seq<nat>
      reads this
    {
      Rest(bufs, idx, off)
    }

    /** `fuse_bufvec_current`: the piece whose cells from the offset on the rest begins with, or none when
        nothing is left. */
    method Current() returns (b: Option<Buf>)
      requires Valid()
      ensures b == if idx < |bufs| then Some(bufs[idx]) else None
      ensures b.Some? ==> IsRun(Left(), 0, b.value.size - off, b.value.base + off)
      ensures b.None? ==> Left() == []
    {
      if idx < |bufs| {
        RestAdvance(bufs, idx, off, bufs[idx].size - off);
        return Some(bufs[idx]);
      } else {
        return None;
      }
    }

    /** `fuse_bufvec_advance`: says whether a piece is left. */
    method Advance(len: nat) returns (more: bool)
      requires Valid() && (idx < |bufs| ==> off + len <= bufs[idx].size)
      modifies this
      ensures Valid() && (more <==> idx < |bufs|)
      ensures (idx, off) == if old(idx) < |bufs| then Moved(bufs, old(idx), old(off), len) else (old(idx), old(off))
      ensures old(idx) < |bufs| ==> len <= |old(Left())| && Left() == After(old(Left()), len)
      ensures idx == old(idx) || idx == old(idx) + 1
      ensures idx > old(idx) <==> old(idx) < |bufs| && old(off) + len == bufs[old(idx)].size
    {
      var b := Current();
      if b.None? {
        return false;
      }
      RestAdvance(bufs, idx, off, len);
      off := off + len;
      if off == b.value.size {
        idx := idx + 1;
        if idx == |bufs| {
          return false;
        }
        off := 0;
      }
      return true;
    }
  }

  /** Copied so far: the first `c` cells of `d` hold what the first `c` of `s` held; all else is
      as it was. */
  ghost predicate CopiedUpTo<T>(before: seq<T>, now: seq<T>, d: seq<nat>, s: seq<nat>, c: nat) {
    && |now| == |before| && c <= |d| && c <= |s| && InBounds(d, |before|) && InBounds(s, |before|)
    && (forall k :: 0 <= k < c ==> now[d[k]] == before[s[k]])
    && (forall a :: 0 <= a < |before| && a !in d[..c] ==> now[a] == before[a])
  }

  lemma RunAt(d: seq<nat>, c: nat, len: nat, base: nat, j: nat)
    requires c + len <= |d| && IsRun(d, c, len, base) && c <= j < c + len
    ensures d[j] == base + (j - c)
  {
    assert d[j] == d[c..c + len][j - c];
  }

  // Cells before the run lie outside it.
  lemma NotInRun(d: seq<nat>, c: nat, len: nat, base: nat, k: nat)
    requires Distinct(d) && c + len <= |d| && IsRun(d, c, len, base) && k < c
    ensures !(base <= d[k] < base + len)
  {
    if base <= d[k] < base + len {
      RunAt(d, c, len, base, c + (d[k] - base));
    }
  }

  // One more run of `len` cells.
  lemma CopiedMore<T>(before: seq<T>, mid: seq<T>, now: seq<T>, d: seq<nat>, s: seq<nat>, c: nat, len: nat, db: nat, sb: nat)
    requires CopiedUpTo(before, mid, d, s, c) && |now| == |before|
    requires Distinct(d) && Apart(d, s)
    requires c + len <= |d| && c + len <= |s|
    requires IsRun(d, c, len, db) && IsRun(s, c, len, sb)
    requires db + len <= |before| && sb + len <= |before|
    requires now[db..db + len] == mid[sb..sb + len]
    requires now[..db] == mid[..db] && now[db + len..] == mid[db + len..]
    ensures CopiedUpTo(before, now, d, s, c + len)
  {
    forall a | 0 <= a < |before| && !(db <= a < db + len) ensures now[a] == mid[a] {
      if a < db {
        assert now[..db][a] == mid[..db][a];
      } else {
        assert now[db + len..][a - db - len] == mid[db + len..][a - db - len];
      }
    }
    forall k | 0 <= k < c + len ensures now[d[k]] == before[s[k]] {
      if k < c {
        NotInRun(d, c, len, db, k);
      } else {
        RunAt(d, c, len, db, k);
        RunAt(s, c, len, sb, k);
        assert now[db..db + len][k - c] == mid[sb..sb + len][k - c];
        assert s[k] !in d[..c];
      }
    }
    forall a | 0 <= a < |before| && a !in d[..c + len] ensures now[a] == before[a] {
      assert forall k :: 0 <= k < c + len ==> d[..c + len][k] == d[k];
      assert forall k :: 0 <= k < c ==> d[..c][k] == d[k];
      if db <= a < db + len {
        RunAt(d, c, len, db, c + (a - db));
      }
    }
  }

  /** `fuse_buf_copy` between memory vectors that do not overlap, in pieces of any sizes: the
      shorter rest is copied, in order, and nothing else is touched. The destination's cursor
      falls short by the last run exactly when that run comes to the end of the source vector:
      when the source's last piece is not empty and its rest is no longer than the destination's. */
  method FuseBufCopy<T>(mem: array<T>, dst: Bufvec, src: Bufvec) returns (copied: nat, ghost last: int)
    requires dst.Valid() && src.Valid()
    requires dst == src ==> forall i :: 0 <= i < |dst.bufs| ==> dst.bufs[i].size <= SIZE_MAX
    requires dst != src ==>
               && Distinct(dst.Left()) && InBounds(dst.Left(), mem.Length)
               && InBounds(src.Left(), mem.Length) && Apart(dst.Left(), src.Left())
    modifies mem, dst, src
    ensures dst == src ==> copied == Min(Total(dst.bufs), SIZE_MAX) && mem[..] == old(mem[..]) && dst.Left() == old(dst.Left())
    ensures dst != src ==>
              && copied == Min(|old(src.Left())|, |old(dst.Left())|)
              && CopiedUpTo(old(mem[..]), mem[..], old(dst.Left()), old(src.Left()), copied)
              && src.Left() == After(old(src.Left()), copied)
              && 0 <= last <= copied && dst.Left() == After(old(dst.Left()), copied - last)
              && last == old(FinalRun(src.bufs, src.idx, src.off, dst.bufs, dst.idx, dst.off))
              && (dst.Left() == After(old(dst.Left()), copied) <==> !old(Lags(src.bufs, src.idx, src.off, dst.bufs, dst.idx, dst.off)))
  {
    hide CopiedUpTo, InBounds, Apart, Distinct, Rest, Total, Flat, Cells, FinalRun, Lags;
    last := 0;
    if dst == src {
      copied := FuseBufSize(dst.bufs);
      return;
    }
    copied, last := CopyLoop(mem, dst, src);
  }

  /** The loop, for two vectors. */
  method CopyLoop<T>(mem: array<T>, dst: Bufvec, src: Bufvec) returns (copied: nat, ghost last: int)
    requires dst != src && dst.Valid() && src.Valid()
    requires Distinct(dst.Left()) && InBounds(dst.Left(), mem.Length)
    requires InBounds(src.Left(), mem.Length) && Apart(dst.Left(), src.Left())
    modifies mem, dst, src
    ensures copied == Min(|old(src.Left())|, |old(dst.Left())|)
    ensures CopiedUpTo(old(mem[..]), mem[..], old(dst.Left()), old(src.Left()), copied)
    ensures src.Left() == After(old(src.Left()), copied)
    ensures 0 <= last <= copied && dst.Left() == After(old(dst.Left()), copied - last)
    ensures last == old(FinalRun(src.bufs, src.idx, src.off, dst.bufs, dst.idx, dst.off))
    ensures last > 0 <==> old(Lags(src.bufs, src.idx, src.off, dst.bufs, dst.idx, dst.off))
  {
    hide CopiedUpTo, InBounds, Apart, Distinct, Rest, Total, After, Flat, Cells, LastPiece, PieceStart, LastStart, Moved;
    copied, last := 0, 0;
    ghost var before, d, s := mem[..], dst.Left(), src.Left();
    ghost var start := LastStart(src.bufs, src.idx, src.off, dst.bufs, dst.idx, dst.off, |s|);
    ghost var ends := LastPiece(src.bufs, src.idx, src.off) > 0;
    ProgressNone(before, d, s);
    LastIsLeft(src.bufs, src.idx, src.off);
    while true
      invariant dst.Valid() && src.Valid()
      invariant last == 0 && Progress(before, mem[..], dst.Left(), src.Left(), d, s, copied)
      invariant ends <==> LastPiece(src.bufs, src.idx, src.off) > 0
      invariant copied < |s| ==> start == copied + LastStart(src.bufs, src.idx, src.off, dst.bufs, dst.idx, dst.off, |s| - copied)
      decreases |src.bufs| - src.idx + |dst.bufs| - dst.idx
    {
      var sb := src.Current();
      var db := dst.Current();
      LastIsLeft(src.bufs, src.idx, src.off);
      if sb.None? || db.None? {
        NoPiece(src.bufs, src.idx, src.off);
        NoPiece(dst.bufs, dst.idx, dst.off);
        break;
      }
      TurnMoves(src.bufs, src.idx, src.off, dst.bufs, dst.idx, dst.off, |s| - copied);
      var res, srcMore, dstMore := CopyStep(mem, dst, src, before, d, s, copied);
      copied := copied + res;
      if !srcMore {
        last := res;
        break;
      }
      LastIsLeft(src.bufs, src.idx, src.off);
      if !dstMore {
        break;
      }
    }
  }

  lemma NoPiece(bufs: seq<Buf>, idx: nat, off: nat)
    requires idx <= |bufs|
    ensures idx == |bufs| ==> Rest(bufs, idx, off) == [] && LastPiece(bufs, idx, off) == 0
  {
  }

  // What one turn of the loop does to the last run.
  lemma TurnMoves(sb: seq<Buf>, si: nat, so: nat, db: seq<Buf>, di: nat, do: nat, p: nat)
    requires si < |sb| && so <= sb[si].size && di < |db| && do <= db[di].size
    ensures var len := Min(sb[si].size - so, db[di].size - do);
            var (si', so') := Moved(sb, si, so, len);
            var (di', do') := Moved(db, di, do, len);
            && (si' < |sb| ==> (LastPiece(sb, si', so') > 0 <==> LastPiece(sb, si, so) > 0))
            && (si' == |sb| ==> LastPiece(sb, si, so) == len)
            && (len < p ==> LastStart(sb, si, so, db, di, do, p) == len + LastStart(sb, si', so', db, di', do', p - len))
            && (p <= len ==> LastStart(sb, si, so, db, di, do, p) == 0)
  {
    var len: nat := Min(sb[si].size - so, db[di].size - do);
    LastMoved(sb, si, so, len);
    if len < p { LastStartMoved(sb, si, so, db, di, do, p); }
  }

  /** The loop's invariant: the first `c` cells are copied and both cursors stand behind them. */
  ghost predicate Progress<T>(before: seq<T>, now: seq<T>, dl: seq<nat>, sl: seq<nat>, d: seq<nat>, s: seq<nat>, c: nat) {
    && c <= |d| && c <= |s|
    && CopiedUpTo(before, now, d, s, c)
    && dl == After(d, c) && sl == After(s, c)
  }

  lemma ProgressNone<T>(mem: seq<T>, d: seq<nat>, s: seq<nat>)
    requires InBounds(d, |mem|) && InBounds(s, |mem|)
    ensures Progress(mem, mem, d, s, d, s, 0)
  {
  }

  /** One turn of the loop: copy as much as both current pieces allow, then advance the source and,
      only if it has a piece left, the destination. */
  method CopyStep<T>(mem: array<T>, dst: Bufvec, src: Bufvec, ghost before: seq<T>, ghost d: seq<nat>, ghost s: seq<nat>, ghost c: nat)
    returns (res: nat, srcMore: bool, dstMore: bool)
    requires dst != src && dst.Valid() && src.Valid() && dst.idx < |dst.bufs| && src.idx < |src.bufs|
    requires Progress(before, mem[..], dst.Left(), src.Left(), d, s, c) && Distinct(d) && Apart(d, s)
    modifies mem, dst, src
    ensures dst.Valid() && src.Valid() && dst.idx >= old(dst.idx) && src.idx >= old(src.idx)
    ensures c + res <= |d| && c + res <= |s| && CopiedUpTo(before, mem[..], d, s, c + res)
    ensures src.Left() == After(s, c + res) && (srcMore <==> src.idx < |src.bufs|) && (!srcMore ==> c + res == |s|)
    ensures !srcMore ==> dst.Left() == After(d, c)
    ensures srcMore ==> dst.Left() == After(d, c + res) && (dstMore <==> dst.idx < |dst.bufs|) && (!dstMore ==> c + res == |d|)
    ensures srcMore && dstMore ==> dst.idx + src.idx > old(dst.idx + src.idx)
    ensures res == Min(src.bufs[old(src.idx)].size - old(src.off), dst.bufs[old(dst.idx)].size - old(dst.off))
    ensures (src.idx, src.off) == Moved(src.bufs, old(src.idx), old(src.off), res)
    ensures srcMore ==> (dst.idx, dst.off) == Moved(dst.bufs, old(dst.idx), old(dst.off), res)
  {
    hide Rest, Cells, Flat, CopiedUpTo, Distinct, Apart, InBounds, After, IsRun;
    var sb, db := src.bufs[src.idx], dst.bufs[dst.idx];
    var len := Min(sb.size - src.off, db.size - dst.off);
    RestAdvance(src.bufs, src.idx, src.off, len);
    RestAdvance(dst.bufs, dst.idx, dst.off, len);
    RunAfter(s, c, len, sb.base + src.off);
    RunAfter(d, c, len, db.base + dst.off);
    res := CopyPieces(mem, db.base + dst.off, sb.base + src.off, len, before, d, s, c);
    AfterAfter(s, c, res);
    AfterAfter(d, c, res);
    srcMore := src.Advance(res);
    dstMore := false;
    if !srcMore {
      Exhausted(src.bufs, src.off);
      return;
    }
    dstMore := dst.Advance(res);
    if !dstMore {
      Exhausted(dst.bufs, dst.off);
    }
  }

  // The copy of one run, which lies within the current piece of either vector.
  method CopyPieces<T>(mem: array<T>, db: nat, sb: nat, len: nat, ghost before: seq<T>, ghost d: seq<nat>, ghost s: seq<nat>, ghost c: nat)
    returns (res: nat)
    requires CopiedUpTo(before, mem[..], d, s, c) && Distinct(d) && Apart(d, s)
    requires c + len <= |d| && c + len <= |s|
    requires IsRun(d, c, len, db) && IsRun(s, c, len, sb)
    modifies mem
    ensures res == len && CopiedUpTo(before, mem[..], d, s, c + len)
  {
    res := 0;
    if len > 0 {
      RunInMemory(d, c, len, db, mem.Length);
      RunInMemory(s, c, len, sb, mem.Length);
      ghost var mid := mem[..];
      res := CopyOne(mem, db, sb, len);
      CopiedMore(before, mid, mem[..], d, s, c, len, db, sb);
    }
  }

  lemma Exhausted(bufs: seq<Buf>, off: nat)
    ensures Rest(bufs, |bufs|, off) == []
  {
  }

  lemma RunInMemory(d: seq<nat>, c: nat, len: nat, base: nat, bound: nat)
    requires c + len <= |d| && InBounds(d, bound) && IsRun(d, c, len, base) && len > 0
    ensures base + len <= bound
  {
    RunAt(d, c, len, base, c + len - 1);
  }
}
