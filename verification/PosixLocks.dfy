/** The POSIX byte-range lock list kept on every cached node
    (tagfs/FUSE_driver/libfuse/lib/fuse.c, lines 128-135 and 3973-4090).

    A list may interleave several owners. Per owner it is kept canonical: non-empty
    ranges in ascending order, pairwise disjoint, and never touching when the types agree.
    `TypeAt` gives the meaning of a list: the lock an owner has on one byte. */
module PosixLocks {
  import opened Options

  const OFFSET_MAX: int := 0x7fff_ffff_ffff_ffff

  datatype LockType = ReadLock | WriteLock | Unlock

  datatype Lock = Lock(typ: LockType, start: int, end: int, pid: int, owner: int)

  // The caller's `struct flock`, with the length convention of fcntl(): zero means "to the end".
  datatype Flock = Flock(typ: LockType, start: int, len: int, pid: int)

  predicate ValidRange(l: Lock) {
    0 <= l.start <= l.end <= OFFSET_MAX
  }

  predicate Covers(l: Lock, owner: int, b: int) {
    l.owner == owner && l.start <= b <= l.end
  }

  /** The type of lock `owner` has on byte `b`; Unlock when it has none. */
  function TypeAt(ls: seq<Lock>, owner: int, b: int): LockType {
    if ls == [] then Unlock
    else if Covers(ls[0], owner, b) then ls[0].typ
    else TypeAt(ls[1..], owner, b)
  }

  // `a` may precede `b` in a canonical list.
  predicate Before(a: Lock, b: Lock) {
    a.owner == b.owner ==> a.end < b.start && (a.typ == b.typ ==> a.end + 1 < b.start)
  }

  ghost predicate Canonical(ls: seq<Lock>) {
    && (forall i :: 0 <= i < |ls| ==> ValidRange(ls[i]) && ls[i].typ != Unlock)
    && (forall i, j :: 0 <= i < j < |ls| ==> Before(ls[i], ls[j]))
  }

  /** What a request means, byte by byte: inside the range of its owner the requested type,
      elsewhere whatever was there. */
  function Requested(ls: seq<Lock>, req: Lock, owner: int, b: int): LockType {
    if Covers(req, owner, b) then req.typ else TypeAt(ls, owner, b)
  }

  ghost predicate Overwrites(before: seq<Lock>, req: Lock, after: seq<Lock>) {
    forall o, b :: TypeAt(after, o, b) == Requested(before, req, o, b)
  }

  /** Two owners' lock types on the same byte can stand together. */
  predicate Compatible(s: LockType, t: LockType) {
    s == Unlock || t == Unlock || (s == ReadLock && t == ReadLock)
  }

  ghost predicate ConflictFree(ls: seq<Lock>) {
    forall o, p, b :: o != p ==> Compatible(TypeAt(ls, o, b), TypeAt(ls, p, b))
  }

  predicate Conflicts(l: Lock, req: Lock) {
    && l.owner != req.owner
    && req.start <= l.end && l.start <= req.end
    && (l.typ == WriteLock || req.typ == WriteLock)
  }

  // ---------------------------------------------------------------------------
  // Reading a list point by point

  lemma {:induction false} TypeAtConcat(x: seq<Lock>, y: seq<Lock>, o: int, b: int)
    requires forall i :: 0 <= i < |x| ==> x[i].typ != Unlock
    ensures TypeAt(x + y, o, b) == if TypeAt(x, o, b) != Unlock then TypeAt(x, o, b) else TypeAt(y, o, b)
  {
    if x == [] {
      assert x + y == y;
    } else {
      assert (x + y)[1..] == x[1..] + y;
      TypeAtConcat(x[1..], y, o, b);
    }
  }

  // A list read around one of its cells.
  lemma TypeAtAround(x: seq<Lock>, m: seq<Lock>, y: seq<Lock>, o: int, b: int)
    requires forall i :: 0 <= i < |x| ==> x[i].typ != Unlock
    requires forall i :: 0 <= i < |m| ==> m[i].typ != Unlock
    ensures TypeAt(x + m + y, o, b) ==
            if TypeAt(x, o, b) != Unlock then TypeAt(x, o, b)
            else if TypeAt(m, o, b) != Unlock then TypeAt(m, o, b)
            else TypeAt(y, o, b)
  {
    assert forall i :: 0 <= i < |x + m| ==> (x + m)[i].typ != Unlock;
    TypeAtConcat(x + m, y, o, b);
    TypeAtConcat(x, m, o, b);
  }

  lemma {:induction false} TypeAtNone(ls: seq<Lock>, o: int, b: int)
    requires forall i :: 0 <= i < |ls| ==> !Covers(ls[i], o, b)
    ensures TypeAt(ls, o, b) == Unlock
  {
    if ls != [] {
      TypeAtNone(ls[1..], o, b);
    }
  }

  lemma {:induction false} TypeAtWitness(ls: seq<Lock>, o: int, b: int) returns (i: nat)
    requires TypeAt(ls, o, b) != Unlock
    ensures i < |ls| && Covers(ls[i], o, b) && ls[i].typ == TypeAt(ls, o, b)
  {
    if Covers(ls[0], o, b) {
      i := 0;
    } else {
      var k := TypeAtWitness(ls[1..], o, b);
      i := k + 1;
    }
  }

  // In a canonical list the covering cell is unique, so any covering cell gives the type.
  lemma TypeAtCell(ls: seq<Lock>, i: nat, o: int, b: int)
    requires Canonical(ls) && i < |ls| && Covers(ls[i], o, b)
    ensures TypeAt(ls, o, b) == ls[i].typ
  {
    assert ls == ls[..i] + [ls[i]] + ls[i + 1..];
    forall k | 0 <= k < i ensures !Covers(ls[..i][k], o, b) {
      assert Before(ls[k], ls[i]);
    }
    TypeAtNone(ls[..i], o, b);
    TypeAtAround(ls[..i], [ls[i]], ls[i + 1..], o, b);
  }

  // ---------------------------------------------------------------------------
  // The insertion loop

  /** Loop invariant of `Insert`: `cur` is the request grown by merging, `ls` the list so far,
      the first `i` cells of which lie below `cur` for its owner. Outside `cur` nothing has
      changed, and what merging added to `cur` already had the requested type. */
  ghost predicate Progress(ls0: seq<Lock>, req: Lock, ls: seq<Lock>, i: nat, cur: Lock) {
    && i <= |ls|
    && Canonical(ls)
    && ValidRange(cur) && ValidRange(req)
    && cur.owner == req.owner && cur.typ == req.typ
    && cur.start <= req.start && req.end <= cur.end
    && (forall j :: 0 <= j < i ==> Before(ls[j], cur))
    && (forall o, b :: !Covers(cur, o, b) ==> TypeAt(ls, o, b) == TypeAt(ls0, o, b))
    && (forall o, b :: Covers(cur, o, b) && !Covers(req, o, b) ==> TypeAt(ls0, o, b) == req.typ)
  }

  // Replace cell `i` by the cells `m`.
  function Splice(ls: seq<Lock>, i: nat, m: seq<Lock>): seq<Lock>
    requires i < |ls|
  {
    ls[..i] + m + ls[i + 1..]
  }

  /** What a request leaves of a cell it overlaps: the part below it and the part above it. */
  function Remainder(l: Lock, cur: Lock): seq<Lock> {
    if l.start < cur.start && cur.end < l.end then [l.(end := cur.start - 1), l.(start := cur.end + 1)]
    else if l.start < cur.start then [l.(end := cur.start - 1)]
    else if cur.end < l.end then [l.(start := cur.end + 1)]
    else []
  }

  predicate Overlaps(l: Lock, cur: Lock) {
    l.start <= cur.end && cur.start <= l.end
  }

  // Off the request, what remains of a cell is the cell.
  lemma RemainderAt(l: Lock, cur: Lock, o: int, b: int)
    requires l.owner == cur.owner && Overlaps(l, cur) && !Covers(cur, o, b)
    ensures TypeAt(Remainder(l, cur), o, b) == TypeAt([l], o, b)
  {
    assert TypeAt([l], o, b) == if Covers(l, o, b) then l.typ else Unlock;
    var m := Remainder(l, cur);
    if |m| == 2 {
      assert m[1..] == [m[1]];
      assert TypeAt(m[1..], o, b) == if Covers(m[1], o, b) then l.typ else Unlock;
    }
  }

  lemma SpliceKeeps(ls: seq<Lock>, i: nat, cur: Lock, o: int, b: int)
    requires Canonical(ls) && i < |ls| && ls[i].owner == cur.owner && Overlaps(ls[i], cur)
    requires !Covers(cur, o, b)
    ensures TypeAt(Splice(ls, i, Remainder(ls[i], cur)), o, b) == TypeAt(ls, o, b)
  {
    assert ls == ls[..i] + [ls[i]] + ls[i + 1..];
    TypeAtAround(ls[..i], [ls[i]], ls[i + 1..], o, b);
    TypeAtAround(ls[..i], Remainder(ls[i], cur), ls[i + 1..], o, b);
    RemainderAt(ls[i], cur, o, b);
  }

  // A touching or overlapping cell of the requested type is absorbed into the request.
  lemma Absorb(ls0: seq<Lock>, req: Lock, ls: seq<Lock>, i: nat, cur: Lock, cur': Lock)
    requires Progress(ls0, req, ls, i, cur) && i < |ls|
    requires ls[i].owner == cur.owner && ls[i].typ == cur.typ
    requires cur.start <= ls[i].end + 1 && ls[i].start <= cur.end + 1
    requires cur' == cur.(start := if ls[i].start < cur.start then ls[i].start else cur.start,
                          end := if cur.end < ls[i].end then ls[i].end else cur.end)
    ensures Progress(ls0, req, Splice(ls, i, []), i, cur')
  {
    var ls' := Splice(ls, i, []);
    forall j | 0 <= j < i ensures Before(ls'[j], cur') {
      assert Before(ls[j], ls[i]) && Before(ls[j], cur);
    }
    forall o, b | !Covers(cur', o, b) ensures TypeAt(ls', o, b) == TypeAt(ls0, o, b) {
      SpliceKeeps(ls, i, cur', o, b);
    }
    forall o, b | Covers(cur', o, b) && !Covers(req, o, b) ensures TypeAt(ls0, o, b) == req.typ {
      if !Covers(cur, o, b) {
        TypeAtCell(ls, i, o, b);
      }
    }
  }

  // A cell of another type loses the part inside the request: all of it, its end, its start or
  // its middle. What remains below the request is passed over.
  lemma Cut(ls0: seq<Lock>, req: Lock, ls: seq<Lock>, i: nat, cur: Lock)
    requires Progress(ls0, req, ls, i, cur) && i < |ls|
    requires ls[i].owner == cur.owner && ls[i].typ != cur.typ && Overlaps(ls[i], cur)
    ensures Progress(ls0, req, Splice(ls, i, Remainder(ls[i], cur)), if ls[i].start < cur.start then i + 1 else i, cur)
  {
    var m := Remainder(ls[i], cur);
    var ls' := Splice(ls, i, m);
    forall j, k | 0 <= j < k < |ls'| ensures Before(ls'[j], ls'[k]) {
      if j < i <= k < i + |m| {
        assert Before(ls[j], ls[i]);
      } else if i <= j < i + |m| && i + |m| <= k {
        assert Before(ls[i], ls[k - |m| + 1]);
      } else if j < i || i + |m| <= j {
        assert Before(ls[if j < i then j else j - |m| + 1], ls[if k < i then k else k - |m| + 1]);
      }
    }
    forall o, b | !Covers(cur, o, b) ensures TypeAt(ls', o, b) == TypeAt(ls0, o, b) {
      SpliceKeeps(ls, i, cur, o, b);
    }
  }

  // Once every later cell of the owner lies above, placing the request completes the overwrite.
  lemma Place(ls0: seq<Lock>, req: Lock, ls: seq<Lock>, i: nat, cur: Lock)
    requires Progress(ls0, req, ls, i, cur)
    requires forall j :: i <= j < |ls| ==> Before(cur, ls[j])
    ensures var ls' := if req.typ == Unlock then ls else ls[..i] + [cur] + ls[i..];
            Canonical(ls') && Overwrites(ls0, req, ls')
  {
    if req.typ == Unlock {
      forall o, b | Covers(cur, o, b) ensures TypeAt(ls, o, b) == Unlock {
        TypeAtNone(ls, o, b);
      }
    } else {
      forall o, b ensures TypeAt(ls[..i] + [cur] + ls[i..], o, b) == Requested(ls0, req, o, b) {
        PlacedAt(ls, i, cur, o, b);
      }
    }
  }

  lemma PlacedAt(ls: seq<Lock>, i: nat, cur: Lock, o: int, b: int)
    requires Canonical(ls) && i <= |ls| && cur.typ != Unlock
    requires forall j :: 0 <= j < i ==> Before(ls[j], cur)
    requires forall j :: i <= j < |ls| ==> Before(cur, ls[j])
    ensures TypeAt(ls[..i] + [cur] + ls[i..], o, b) == if Covers(cur, o, b) then cur.typ else TypeAt(ls, o, b)
  {
    assert ls == ls[..i] + ls[i..];
    TypeAtConcat(ls[..i], ls[i..], o, b);
    TypeAtAround(ls[..i], [cur], ls[i..], o, b);
    if Covers(cur, o, b) {
      TypeAtNone(ls[..i], o, b);
    }
  }

  // The request is already inside a cell of its own type: nothing needs to be placed.
  lemma Contained(ls0: seq<Lock>, req: Lock, ls: seq<Lock>, i: nat, cur: Lock)
    requires Progress(ls0, req, ls, i, cur) && i < |ls|
    requires ls[i].owner == cur.owner && ls[i].typ == cur.typ
    requires ls[i].start <= cur.start && cur.end <= ls[i].end
    ensures Overwrites(ls0, req, ls)
  {
    forall o, b ensures TypeAt(ls, o, b) == Requested(ls0, req, o, b) {
      if Covers(cur, o, b) {
        TypeAtCell(ls, i, o, b);
      }
    }
  }

  // If the first later cell of the owner lies above the request, so do all that follow it.
  lemma AllAbove(ls: seq<Lock>, i: nat, cur: Lock)
    requires Canonical(ls) && i < |ls| && ls[i].owner == cur.owner
    requires Before(cur, ls[i])
    ensures forall j :: i <= j < |ls| ==> Before(cur, ls[j])
  {
    forall j | i < j < |ls| ensures Before(cur, ls[j]) {
      assert Before(ls[i], ls[j]);
    }
  }

  lemma ProgressFacts(ls0: seq<Lock>, req: Lock, ls: seq<Lock>, i: nat, cur: Lock)
    requires Progress(ls0, req, ls, i, cur)
    ensures i <= |ls| && Canonical(ls) && ValidRange(cur) && cur.owner == req.owner && cur.typ == req.typ
    ensures cur.start <= req.start && req.end <= cur.end
    ensures i < |ls| ==> ValidRange(ls[i])
  {
  }

  lemma ProgressStart(ls: seq<Lock>, req: Lock)
    requires Canonical(ls) && ValidRange(req)
    ensures Progress(ls, req, ls, 0, req)
  {
  }

  // A cell of another owner, or below the request, is passed over.
  lemma Skip(ls0: seq<Lock>, req: Lock, ls: seq<Lock>, i: nat, cur: Lock)
    requires Progress(ls0, req, ls, i, cur) && i < |ls| && Before(ls[i], cur)
    ensures Progress(ls0, req, ls, i + 1, cur)
  {
  }

  // ---------------------------------------------------------------------------
  // Who is recorded

  /** The pid recorded for `owner` at byte `b`. */
  function PidAt(ls: seq<Lock>, owner: int, b: int): Option<int> {
    if ls == [] then None
    else if Covers(ls[0], owner, b) then Some(ls[0].pid)
    else PidAt(ls[1..], owner, b)
  }

  /** One lock of the owner, of the type requested, already contains the request. */
  ghost predicate Held(ls: seq<Lock>, req: Lock) {
    exists i :: 0 <= i < |ls| && Holds(ls[i], req)
  }

  predicate Holds(l: Lock, req: Lock) {
    l.owner == req.owner && l.typ == req.typ && l.start <= req.start && req.end <= l.end
  }

  /** From `lo` to `hi` the owner's bytes carry the request's pid, or none after an unlock; all other
      bytes carry the pid they had. What was merged beyond the request had its type already. */
  ghost predicate Signed(before: seq<Lock>, req: Lock, after: seq<Lock>, lo: int, hi: int) {
    && lo <= req.start && req.end <= hi
    && (forall b :: lo <= b <= hi && !(req.start <= b <= req.end) ==> TypeAt(before, req.owner, b) == req.typ)
    && (forall o, b :: PidAt(after, o, b) ==
          if o == req.owner && lo <= b <= hi then (if req.typ == Unlock then None else Some(req.pid)) else PidAt(before, o, b))
  }

  /** Whose lock each byte is after a request: a request that was held already changes nothing. */
  ghost predicate Recorded(before: seq<Lock>, req: Lock, after: seq<Lock>) {
    if Held(before, req) then after == before else exists lo, hi :: Signed(before, req, after, lo, hi)
  }

  lemma {:induction false} PidAtConcat(x: seq<Lock>, y: seq<Lock>, o: int, b: int)
    ensures PidAt(x + y, o, b) == if PidAt(x, o, b).Some? then PidAt(x, o, b) else PidAt(y, o, b)
  {
    if x == [] {
      assert x + y == y;
    } else {
      assert (x + y)[1..] == x[1..] + y;
      PidAtConcat(x[1..], y, o, b);
    }
  }

  lemma PidAtAround(x: seq<Lock>, m: seq<Lock>, y: seq<Lock>, o: int, b: int)
    ensures PidAt(x + m + y, o, b) ==
            if PidAt(x, o, b).Some? then PidAt(x, o, b)
            else if PidAt(m, o, b).Some? then PidAt(m, o, b)
            else PidAt(y, o, b)
  {
    PidAtConcat(x + m, y, o, b);
    PidAtConcat(x, m, o, b);
  }

  lemma {:induction false} PidAtNone(ls: seq<Lock>, o: int, b: int)
    requires forall i :: 0 <= i < |ls| ==> !Covers(ls[i], o, b)
    ensures PidAt(ls, o, b) == None
  {
    if ls != [] {
      PidAtNone(ls[1..], o, b);
    }
  }

  // Off the request, what remains of a cell carries the cell's pid.
  lemma RemainderPid(l: Lock, cur: Lock, o: int, b: int)
    requires l.owner == cur.owner && Overlaps(l, cur) && !Covers(cur, o, b)
    ensures PidAt(Remainder(l, cur), o, b) == if Covers(l, o, b) then Some(l.pid) else None
  {
    var m := Remainder(l, cur);
    if |m| == 2 {
      assert m[1..] == [m[1]];
      assert PidAt(m[1..], o, b) == if Covers(m[1], o, b) then Some(l.pid) else None;
    }
  }

  // Replacing a cell by parts of itself keeps the pids off the request.
  lemma SplicePid(ls: seq<Lock>, i: nat, cur: Lock, o: int, b: int)
    requires i < |ls| && ls[i].owner == cur.owner && Overlaps(ls[i], cur) && !Covers(cur, o, b)
    ensures PidAt(Splice(ls, i, Remainder(ls[i], cur)), o, b) == PidAt(ls, o, b)
  {
    assert ls == ls[..i] + [ls[i]] + ls[i + 1..];
    PidAtAround(ls[..i], [ls[i]], ls[i + 1..], o, b);
    PidAtAround(ls[..i], Remainder(ls[i], cur), ls[i + 1..], o, b);
    RemainderPid(ls[i], cur, o, b);
  }

  /** The loop invariant for the pids: `cur` carries the request's; off `cur` every byte has its old
      one; the owner's cells of the type, from `i` on, are still old ones; and as soon as anything has
      changed no old lock held the request. */
  ghost predicate Signing(ls0: seq<Lock>, req: Lock, ls: seq<Lock>, i: nat, cur: Lock) {
    && cur.pid == req.pid && cur.owner == req.owner && cur.typ == req.typ
    && (forall o, b :: !Covers(cur, o, b) ==> PidAt(ls, o, b) == PidAt(ls0, o, b))
    && (forall j :: i <= j < |ls| && ls[j].owner == req.owner && ls[j].typ == req.typ ==> ls[j] in ls0)
    && ((ls == ls0 && cur == req) || !Held(ls0, req))
  }

  // Two cells of a canonical list are in each other's way: a holder leaves no room for another.
  lemma NotHeld(ls: seq<Lock>, i: nat, req: Lock)
    requires Canonical(ls) && i < |ls| && ls[i].owner == req.owner && !Holds(ls[i], req) && ValidRange(req)
    requires if ls[i].typ == req.typ then req.start <= ls[i].end + 1 && ls[i].start <= req.end + 1 else Overlaps(ls[i], req)
    ensures !Held(ls, req)
  {
    if h :| 0 <= h < |ls| && Holds(ls[h], req) {
      assert h < i ==> Before(ls[h], ls[i]);
      assert i < h ==> Before(ls[i], ls[h]);
    }
  }

  lemma SignedStart(ls: seq<Lock>, req: Lock)
    ensures Signing(ls, req, ls, 0, req)
  {
  }

  lemma SignedSkip(ls0: seq<Lock>, req: Lock, ls: seq<Lock>, i: nat, cur: Lock)
    requires Signing(ls0, req, ls, i, cur)
    ensures Signing(ls0, req, ls, i + 1, cur)
  {
  }

  // Absorbing a cell.
  lemma SignedAbsorb(ls0: seq<Lock>, req: Lock, ls: seq<Lock>, i: nat, cur: Lock, cur': Lock)
    requires Progress(ls0, req, ls, i, cur) && Signing(ls0, req, ls, i, cur) && i < |ls|
    requires ls[i].owner == cur.owner && ls[i].typ == cur.typ && !Holds(ls[i], cur)
    requires cur.start <= ls[i].end + 1 && ls[i].start <= cur.end + 1
    requires cur' == cur.(start := if ls[i].start < cur.start then ls[i].start else cur.start,
                          end := if cur.end < ls[i].end then ls[i].end else cur.end)
    ensures Signing(ls0, req, Splice(ls, i, []), i, cur')
  {
    ProgressFacts(ls0, req, ls, i, cur);
    hide Progress, Canonical, Held, PidAt;
    if ls == ls0 && cur == req {
      NotHeld(ls, i, req);
    }
    forall o, b | !Covers(cur', o, b) ensures PidAt(Splice(ls, i, []), o, b) == PidAt(ls0, o, b) {
      SplicePid(ls, i, cur', o, b);
    }
  }

  // Cutting a cell.
  lemma SignedCut(ls0: seq<Lock>, req: Lock, ls: seq<Lock>, i: nat, cur: Lock)
    requires Progress(ls0, req, ls, i, cur) && Signing(ls0, req, ls, i, cur) && i < |ls|
    requires ls[i].owner == cur.owner && ls[i].typ != cur.typ && Overlaps(ls[i], cur)
    ensures Signing(ls0, req, Splice(ls, i, Remainder(ls[i], cur)), if ls[i].start < cur.start then i + 1 else i, cur)
  {
    ProgressFacts(ls0, req, ls, i, cur);
    hide Progress, Canonical, Held, PidAt;
    if ls == ls0 && cur == req {
      NotHeld(ls, i, req);
    }
    var m: seq<Lock> := Remainder(ls[i], cur);
    forall o, b | !Covers(cur, o, b) ensures PidAt(Splice(ls, i, m), o, b) == PidAt(ls0, o, b) {
      SplicePid(ls, i, cur, o, b);
    }
  }

  // Stopping early: the request was held and nothing has changed.
  lemma SignedContained(ls0: seq<Lock>, req: Lock, ls: seq<Lock>, i: nat, cur: Lock)
    requires Progress(ls0, req, ls, i, cur) && Signing(ls0, req, ls, i, cur) && i < |ls| && Holds(ls[i], cur)
    ensures ls == ls0 && Held(ls0, req)
  {
    ProgressFacts(ls0, req, ls, i, cur);
    assert ls[i] in ls0;
    var k :| 0 <= k < |ls0| && ls0[k] == ls[i];
    assert Holds(ls0[k], req);
  }

  // Placing the request.
  lemma SignedPlace(ls0: seq<Lock>, req: Lock, ls: seq<Lock>, i: nat, cur: Lock)
    requires Progress(ls0, req, ls, i, cur) && Signing(ls0, req, ls, i, cur)
    requires forall j :: i <= j < |ls| ==> Before(cur, ls[j])
    ensures !Held(ls0, req)
    ensures Signed(ls0, req, if req.typ == Unlock then ls else ls[..i] + [cur] + ls[i..], cur.start, cur.end)
  {
    assert forall j :: 0 <= j < i ==> Before(ls[j], cur);
    var ls' := if req.typ == Unlock then ls else ls[..i] + [cur] + ls[i..];
    forall o, b ensures PidAt(ls', o, b) ==
        if o == req.owner && cur.start <= b <= cur.end then (if req.typ == Unlock then None else Some(req.pid)) else PidAt(ls0, o, b)
    {
      assert ls == ls[..i] + ls[i..];
      PidAtConcat(ls[..i], ls[i..], o, b);
      PidAtAround(ls[..i], [cur], ls[i..], o, b);
      if Covers(cur, o, b) {
        PidAtNone(ls, o, b);
        PidAtNone(ls[..i], o, b);
      }
    }
    forall b | cur.start <= b <= cur.end && !(req.start <= b <= req.end) ensures TypeAt(ls0, req.owner, b) == req.typ {
      assert Covers(cur, req.owner, b) && !Covers(req, req.owner, b);
    }
  }

  // The two invariants of the loop together, step by step.

  ghost predicate Inserting(ls0: seq<Lock>, req: Lock, ls: seq<Lock>, i: nat, cur: Lock) {
    Progress(ls0, req, ls, i, cur) && Signing(ls0, req, ls, i, cur)
  }

  lemma Begin(ls: seq<Lock>, req: Lock)
    requires Canonical(ls) && ValidRange(req)
    ensures Inserting(ls, req, ls, 0, req)
  {
    ProgressStart(ls, req);
    SignedStart(ls, req);
  }

  lemma InsertingFacts(ls0: seq<Lock>, req: Lock, ls: seq<Lock>, i: nat, cur: Lock)
    requires Inserting(ls0, req, ls, i, cur)
    ensures i <= |ls| && Canonical(ls) && ValidRange(cur) && cur.owner == req.owner && cur.typ == req.typ
    ensures cur.start <= req.start && req.end <= cur.end
    ensures i < |ls| ==> ValidRange(ls[i])
  {
    ProgressFacts(ls0, req, ls, i, cur);
  }

  lemma PassOver(ls0: seq<Lock>, req: Lock, ls: seq<Lock>, i: nat, cur: Lock)
    requires Inserting(ls0, req, ls, i, cur) && i < |ls| && Before(ls[i], cur)
    ensures Inserting(ls0, req, ls, i + 1, cur)
  {
    Skip(ls0, req, ls, i, cur);
    SignedSkip(ls0, req, ls, i, cur);
  }

  lemma TakeIn(ls0: seq<Lock>, req: Lock, ls: seq<Lock>, i: nat, cur: Lock, cur': Lock)
    requires Inserting(ls0, req, ls, i, cur) && i < |ls|
    requires ls[i].owner == cur.owner && ls[i].typ == cur.typ && !Holds(ls[i], cur)
    requires cur.start <= ls[i].end + 1 && ls[i].start <= cur.end + 1
    requires cur' == cur.(start := if ls[i].start < cur.start then ls[i].start else cur.start,
                          end := if cur.end < ls[i].end then ls[i].end else cur.end)
    ensures Inserting(ls0, req, Splice(ls, i, []), i, cur')
  {
    Absorb(ls0, req, ls, i, cur, cur');
    SignedAbsorb(ls0, req, ls, i, cur, cur');
  }

  lemma CutOut(ls0: seq<Lock>, req: Lock, ls: seq<Lock>, i: nat, cur: Lock)
    requires Inserting(ls0, req, ls, i, cur) && i < |ls|
    requires ls[i].owner == cur.owner && ls[i].typ != cur.typ && Overlaps(ls[i], cur)
    ensures Inserting(ls0, req, Splice(ls, i, Remainder(ls[i], cur)), if ls[i].start < cur.start then i + 1 else i, cur)
  {
    Cut(ls0, req, ls, i, cur);
    SignedCut(ls0, req, ls, i, cur);
  }

  lemma Stop(ls0: seq<Lock>, req: Lock, ls: seq<Lock>, i: nat, cur: Lock)
    requires Inserting(ls0, req, ls, i, cur) && i < |ls| && Holds(ls[i], cur)
    ensures Overwrites(ls0, req, ls) && Recorded(ls0, req, ls)
  {
    Contained(ls0, req, ls, i, cur);
    SignedContained(ls0, req, ls, i, cur);
  }

  lemma PutIn(ls0: seq<Lock>, req: Lock, ls: seq<Lock>, i: nat, cur: Lock)
    requires Inserting(ls0, req, ls, i, cur)
    requires forall j :: i <= j < |ls| ==> Before(cur, ls[j])
    ensures var ls' := if req.typ == Unlock then ls else ls[..i] + [cur] + ls[i..];
            Canonical(ls') && Overwrites(ls0, req, ls') && Recorded(ls0, req, ls')
  {
    Place(ls0, req, ls, i, cur);
    SignedPlace(ls0, req, ls, i, cur);
  }

  // ---------------------------------------------------------------------------
  // Conflicts between owners

  /** `locks_conflict` finds a cell exactly when some byte of the request is held by another
      owner in a way the request cannot share. */
  lemma ConflictMeaning(ls: seq<Lock>, req: Lock)
    requires Canonical(ls) && ValidRange(req) && req.typ != Unlock
    ensures (exists i :: 0 <= i < |ls| && Conflicts(ls[i], req))
       <==> (exists o, b :: o != req.owner && Covers(req, req.owner, b) && !Compatible(TypeAt(ls, o, b), req.typ))
  {
    if i :| 0 <= i < |ls| && Conflicts(ls[i], req) {
      var b := if ls[i].start < req.start then req.start else ls[i].start;
      TypeAtCell(ls, i, ls[i].owner, b);
      assert Covers(req, req.owner, b) && !Compatible(TypeAt(ls, ls[i].owner, b), req.typ);
    }
    if o, b :| o != req.owner && Covers(req, req.owner, b) && !Compatible(TypeAt(ls, o, b), req.typ) {
      var i := TypeAtWitness(ls, o, b);
      assert Conflicts(ls[i], req);
    }
  }

  /** A request that met no conflict leaves the list free of conflicts between owners. */
  lemma ConflictFreeKept(ls: seq<Lock>, req: Lock, ls': seq<Lock>)
    requires Canonical(ls) && ConflictFree(ls) && ValidRange(req)
    requires req.typ == Unlock || forall i :: 0 <= i < |ls| ==> !Conflicts(ls[i], req)
    requires Overwrites(ls, req, ls')
    ensures ConflictFree(ls')
  {
    forall o, p, b | o != p ensures Compatible(TypeAt(ls', o, b), TypeAt(ls', p, b)) {
      assert Compatible(TypeAt(ls, o, b), TypeAt(ls, p, b));
      if req.typ != Unlock {
        ConflictMeaning(ls, req);
        assert Covers(req, o, b) ==> Compatible(TypeAt(ls, p, b), req.typ);
        assert Covers(req, p, b) ==> Compatible(TypeAt(ls, o, b), req.typ);
      }
    }
  }

  /** The type of the latest request of `o` that covered `b`. */
  function Latest(reqs: seq<Lock>, o: int, b: int): LockType {
    if reqs == [] then Unlock
    else if Covers(reqs[|reqs| - 1], o, b) then reqs[|reqs| - 1].typ
    else Latest(reqs[..|reqs| - 1], o, b)
  }

  /** Whole runs: a list grown from empty by any requests records, for every owner and byte,
      exactly the latest request that covered it. */
  lemma {:induction false} RunRecordsLatest(reqs: seq<Lock>, lists: seq<seq<Lock>>, o: int, b: int)
    requires |lists| == |reqs| + 1 && lists[0] == []
    requires forall i :: 0 <= i < |reqs| ==> Overwrites(lists[i], reqs[i], lists[i + 1])
    ensures TypeAt(lists[|reqs|], o, b) == Latest(reqs, o, b)
  {
    if reqs != [] {
      var n := |reqs| - 1;
      assert Overwrites(lists[n], reqs[n], lists[n + 1]);
      RunRecordsLatest(reqs[..n], lists[..|reqs|], o, b);
    }
  }

  // ---------------------------------------------------------------------------
  // The wire format

  /** `flock_to_lock` with the owner its callers then set. */
  function FlockToLock(f: Flock, owner: int): Lock {
    Lock(f.typ, f.start, if f.len != 0 then f.start + f.len - 1 else OFFSET_MAX, f.pid, owner)
  }

  /** `lock_to_flock`. */
  function LockToFlock(l: Lock): Flock {
    Flock(l.typ, l.start, if l.end == OFFSET_MAX then 0 else l.end - l.start + 1, l.pid)
  }

  /** Lengths survive the conversion to ranges and back, except that an explicit length reaching
      the last offset comes back as zero, "to the end". */
  lemma FlockRoundTrip(f: Flock, owner: int)
    requires 0 <= f.start <= OFFSET_MAX && 0 <= f.len && f.start + f.len - 1 <= OFFSET_MAX
    ensures ValidRange(FlockToLock(f, owner))
    ensures LockToFlock(FlockToLock(f, owner)) == f <==> f.len == 0 || f.start + f.len - 1 != OFFSET_MAX
    ensures FlockToLock(LockToFlock(FlockToLock(f, owner)), owner) == FlockToLock(f, owner)
  {
    var l := FlockToLock(f, owner);
    assert l.end == OFFSET_MAX ==> LockToFlock(l).len == 0;
  }

  // The bytes of a `struct flock`.
  predicate InFlock(f: Flock, b: int) {
    f.start <= b <= OFFSET_MAX && (f.len == 0 || b < f.start + f.len)
  }

  /** A request is for the owner it is given, and for the type, pid and bytes that were asked for. */
  lemma FlockMeans(f: Flock, owner: int, o: int, b: int)
    requires 0 <= f.start <= OFFSET_MAX && 0 <= f.len && f.start + f.len - 1 <= OFFSET_MAX
    ensures Covers(FlockToLock(f, owner), o, b) <==> o == owner && InFlock(f, b)
    ensures FlockToLock(f, owner).typ == f.typ && FlockToLock(f, owner).pid == f.pid
  {
    var l := FlockToLock(f, owner);
    assert f.len == 0 ==> l.end == OFFSET_MAX;
  }

  /** A lock survives the conversion to the wire and back. */
  lemma LockRoundTrip(l: Lock)
    requires ValidRange(l)
    ensures FlockToLock(LockToFlock(l), l.owner) == l
  {
    assert l.end != OFFSET_MAX ==> LockToFlock(l).len > 0;
  }

  // In a canonical list any covering cell gives the pid.
  lemma PidAtCell(ls: seq<Lock>, i: nat, o: int, b: int)
    requires Canonical(ls) && i < |ls| && Covers(ls[i], o, b)
    ensures PidAt(ls, o, b) == Some(ls[i].pid)
  {
    assert ls == ls[..i] + [ls[i]] + ls[i + 1..];
    forall k | 0 <= k < i ensures !Covers(ls[..i][k], o, b) {
      assert Before(ls[k], ls[i]);
    }
    PidAtNone(ls[..i], o, b);
    PidAtAround(ls[..i], [ls[i]], ls[i + 1..], o, b);
  }

  /** `r` describes a lock of another owner, by type and pid, on a byte asked for, that `f` cannot share. */
  ghost predicate Names(ls: seq<Lock>, f: Flock, owner: int, r: Flock, o: int, b: int) {
    && o != owner && InFlock(f, b) && InFlock(r, b) && !Compatible(r.typ, f.typ)
    && TypeAt(ls, o, b) == r.typ && PidAt(ls, o, b) == Some(r.pid)
  }

  lemma ConflictNamed(ls: seq<Lock>, f: Flock, owner: int, i: nat)
    requires Canonical(ls) && i < |ls| && f.typ != Unlock && Conflicts(ls[i], FlockToLock(f, owner))
    requires 0 <= f.start <= OFFSET_MAX && 0 <= f.len && f.start + f.len - 1 <= OFFSET_MAX
    ensures exists o, b :: Names(ls, f, owner, LockToFlock(ls[i]), o, b)
  {
    var l, req := ls[i], FlockToLock(f, owner);
    var b := if l.start < req.start then req.start else l.start;
    FlockMeans(f, owner, owner, b);
    LockRoundTrip(l);
    FlockMeans(LockToFlock(l), l.owner, l.owner, b);
    TypeAtCell(ls, i, l.owner, b);
    PidAtCell(ls, i, l.owner, b);
    assert Names(ls, f, owner, LockToFlock(l), l.owner, b);
  }

  class LockList {
    var locks: seq<Lock>

    constructor ()
      ensures locks == [] && Canonical(locks)
    {
      locks := [];
    }

    /** `locks_conflict`: the first lock of another owner that the request clashes with. */
    method Conflict(req: Lock) returns (i: nat)
      ensures i <= |locks|
      ensures forall j :: 0 <= j < i ==> !Conflicts(locks[j], req)
      ensures i < |locks| ==> Conflicts(locks[i], req)
    {
      i := 0;
      while i < |locks| && !Conflicts(locks[i], req)
        invariant i <= |locks|
        invariant forall j :: 0 <= j < i ==> !Conflicts(locks[j], req)
      {
        i := i + 1;
      }
    }

    /** The list's part of `fuse_lib_getlk`: an answer is given exactly when some byte asked for is held by
        another owner in a way that cannot be shared, and then it describes such a lock. */
    method GetLk(f: Flock, owner: int) returns (found: bool, r: Flock)
      requires Canonical(locks) && f.typ != Unlock
      requires 0 <= f.start <= OFFSET_MAX && 0 <= f.len && f.start + f.len - 1 <= OFFSET_MAX
      ensures found <==> exists o, b :: o != owner && InFlock(f, b) && !Compatible(TypeAt(locks, o, b), f.typ)
      ensures found ==> exists o, b :: Names(locks, f, owner, r, o, b)
      ensures !found ==> r == f
    {
      hide Canonical, TypeAt, PidAt;
      var req := FlockToLock(f, owner);
      FlockRoundTrip(f, owner);
      var i := Conflict(req);
      ConflictMeaning(locks, req);
      forall b ensures Covers(req, owner, b) <==> InFlock(f, b) {
        FlockMeans(f, owner, owner, b);
      }
      found, r := i < |locks|, f;
      if found {
        r := LockToFlock(locks[i]);
        ConflictNamed(locks, f, owner, i);
      }
    }

    // The part of the loop for a lock of another type that overlaps the request: it goes, or loses its end,
    // its start or its middle. `above` says that what is left of it lies above.
    method CutAt(i: nat, lock: Lock, ghost ls0: seq<Lock>, ghost req: Lock) returns (next: nat, above: bool, split: bool)
      requires Inserting(ls0, req, locks, i, lock) && i < |locks|
      requires locks[i].owner == lock.owner && locks[i].typ != lock.typ && Overlaps(locks[i], lock)
      modifies this
      ensures Inserting(ls0, req, locks, next, lock) && next <= |locks|
      ensures above ==> !split && forall j :: next <= j < |locks| ==> Before(lock, locks[j])
      ensures split ==> next < |locks| && locks[next].owner == lock.owner && locks[next].typ != lock.typ && lock.end < locks[next].start
      ensures |locks| <= |old(locks)| + (if split then 1 else 0) && (split ==> old(locks)[i].start < lock.start)
      ensures !above && !split ==> |locks| - next < |old(locks)| - i
    {
      hide Inserting, Canonical;
      var l := locks[i];
      InsertingFacts(ls0, req, locks, i, lock);
      CutOut(ls0, req, locks, i, lock);
      above, split := false, false;
      if lock.start <= l.start && l.end <= lock.end {
        locks := Splice(locks, i, []);
        next := i;
      } else if l.end <= lock.end {
        var l' := l.(end := lock.start - 1);
        locks := Splice(locks, i, [l']);
        next := i + 1;
      } else if lock.start <= l.start {
        var l' := l.(start := lock.end + 1);
        locks := Splice(locks, i, [l']);
        next, above := i, true;
        InsertingFacts(ls0, req, locks, i, lock);
        AllAbove(locks, i, lock);
      } else {
        var l', upper := l.(end := lock.start - 1), l.(start := lock.end + 1);
        locks := Splice(locks, i, [l', upper]);
        next, split := i + 1, true;
      }
    }

    /** `locks_insert`: the request replaces, trims, splits or merges with the owner's locks.
        `newl1` and `newl2` say which of the two cells allocated up front are still unused; `used` counts
        those that became part of the list. Clearing everything allocates none and uses none. */
    method Insert(req: Lock) returns (ghost used: nat)
      requires Canonical(locks) && ValidRange(req)
      modifies this
      ensures Canonical(locks)
      ensures Overwrites(old(locks), req, locks)
      ensures used <= 2
      ensures req.typ == Unlock ==> used <= 1
      ensures req.typ == Unlock && req.start == 0 && req.end == OFFSET_MAX ==> used == 0
      ensures |locks| <= |old(locks)| + used
      ensures Recorded(old(locks), req, locks)
    {
      hide Inserting, Canonical, Overwrites, Recorded;
      var newl1 := req.typ != Unlock || req.start != 0 || req.end != OFFSET_MAX;
      var newl2 := newl1;
      var lock: Lock, i: nat := req, 0;
      ghost var ls0 := locks;
      Begin(locks, req);
      ghost var splits: nat := 0;
      used := 0;
      while i < |locks|
        invariant Inserting(ls0, req, locks, i, lock)
        invariant !newl1 ==> req.typ == Unlock && req.start == 0 && req.end == OFFSET_MAX
        invariant newl2 <==> newl1 && splits == 0
        invariant splits == 1 ==> i < |locks| && locks[i].owner == lock.owner
                                  && locks[i].typ != lock.typ && lock.end < locks[i].start
        invariant 0 <= splits <= 1 && |locks| <= |ls0| + splits && used == splits
        decreases 1 - splits, |locks| - i
      {
        var l := locks[i];
        InsertingFacts(ls0, req, locks, i, lock);
        if l.owner != lock.owner {
          PassOver(ls0, req, locks, i, lock);
          i := i + 1;
          continue;
        }
        if lock.typ == l.typ {
          if l.end < lock.start - 1 {
            PassOver(ls0, req, locks, i, lock);
            i := i + 1;
            continue;
          }
          if lock.end < l.start - 1 {
            AllAbove(locks, i, lock);
            break;
          }
          if l.start <= lock.start && lock.end <= l.end {
            Stop(ls0, req, locks, i, lock);
            return;
          }
          ghost var cur := lock;
          if l.start < lock.start {
            lock := lock.(start := l.start);
          }
          if lock.end < l.end {
            lock := lock.(end := l.end);
          }
          TakeIn(ls0, req, locks, i, cur, lock);
          locks := Splice(locks, i, []);
        } else {
          if l.end < lock.start {
            PassOver(ls0, req, locks, i, lock);
            i := i + 1;
            continue;
          }
          if lock.end < l.start {
            AllAbove(locks, i, lock);
            break;
          }
          var next, above, split := CutAt(i, lock, ls0, req);
          i := next;
          if above { break; }
          if split {
            assert newl2;  // the second cell is there, and this is its only use
            newl2, splits, used := false, 1, 1;
          }
        }
      }
      InsertingFacts(ls0, req, locks, i, lock);
      PutIn(ls0, req, locks, i, lock);
      if req.typ != Unlock {
        assert newl1;
        locks, used := locks[..i] + [lock] + locks[i..], used + 1;
      }
    }
  }
}
