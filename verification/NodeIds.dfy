/** Issue of node identities: `next_id` (tagfs/FUSE_driver/libfuse/lib/fuse.c, lines 838-847). The
    kernel interface demands that a pair of node id and generation be unique for the lifetime of
    the file system (tagfs/FUSE_driver/libfuse/include/fuse_kernel.h, lines 692-694). */
module NodeIds {
  import opened Forest

  const U32: nat := 0x1_0000_0000
  const U64: nat := 0x1_0000_0000_0000_0000
  const FUSE_UNKNOWN_INO: Id := 0xffff_ffff

  // The 32-bit counter and the `unsigned int` generation.
  datatype Counter = Counter(ctr: nat, generation: nat)

  predicate InRange(c: Counter) {
    c.ctr < U32 && c.generation < U32
  }

  /** One turn of the loop body. */
  function Step(c: Counter): Counter {
    var ctr := (c.ctr + 1) % U32;
    Counter(ctr, if ctr == 0 then (c.generation + 1) % U32 else c.generation)
  }

  function Advance(c: Counter, k: nat): Counter {
    if k == 0 then c else Step(Advance(c, k - 1))
  }

  /** The loop goes round again on this counter value. */
  predicate Rejected(ctr: Id, live: set<Id>) {
    ctr == 0 || ctr == FUSE_UNKNOWN_INO || ctr in live
  }

  /** A counter as one 64-bit number, generation first. */
  function Position(c: Counter): nat {
    c.generation * U32 + c.ctr
  }

  /** Every step moves the pair up by one, lexicographically, until the 64-bit number wraps; the
      generation changes exactly when the counter does. */
  lemma StepPosition(c: Counter)
    requires InRange(c)
    ensures InRange(Step(c))
    ensures Position(Step(c)) == if c == Counter(U32 - 1, U32 - 1) then 0 else Position(c) + 1
    ensures Step(c).generation != c.generation <==> c.ctr == U32 - 1
  {
    if c.ctr < U32 - 1 {
      assert (c.ctr + 1) % U32 == c.ctr + 1;
    } else {
      assert (c.generation + 1) % U32 == if c.generation == U32 - 1 then 0 else c.generation + 1;
    }
  }

  lemma ModSucc(a: nat)
    ensures (a + 1) % U64 == if a % U64 == U64 - 1 then 0 else a % U64 + 1
  {
  }

  lemma {:induction false} AdvancePosition(c: Counter, k: nat)
    requires InRange(c)
    ensures InRange(Advance(c, k))
    ensures Position(Advance(c, k)) == (Position(c) + k) % U64
  {
    if k > 0 {
      AdvancePosition(c, k - 1);
      StepPosition(Advance(c, k - 1));
      ModSucc(Position(c) + k - 1);
    }
  }

  lemma {:induction false} AdvanceAdd(c: Counter, j: nat, k: nat)
    ensures Advance(Advance(c, j), k) == Advance(c, j + k)
  {
    if k > 0 {
      AdvanceAdd(c, j, k - 1);
    }
  }

  lemma {:induction false} AdvanceCtr(c: Counter, k: nat)
    requires InRange(c)
    ensures Advance(c, k).ctr == (c.ctr + k) % U32
  {
    if k > 0 {
      AdvanceCtr(c, k - 1);
    }
  }

  // After this many turns the counter is at `id`.
  function TurnsTo(c: Counter, id: Id): nat
    requires InRange(c) && id < U32
  {
    if id > c.ctr then id - c.ctr else id + U32 - c.ctr
  }

  lemma ReachesId(c: Counter, id: Id)
    requires InRange(c) && id < U32
    ensures 1 <= TurnsTo(c, id) <= U32 && Advance(c, TurnsTo(c, id)).ctr == id
  {
    AdvanceCtr(c, TurnsTo(c, id));
  }

  /** The search stops at the first counter value that is usable and not live. It needs a usable
      id that is free, and within 2^32 turns it meets it. */
  method NextId(c: Counter, live: set<Id>) returns (r: Counter, ghost turns: nat)
    requires InRange(c)
    requires exists id :: 1 <= id < FUSE_UNKNOWN_INO && id !in live
    ensures InRange(r) && 1 <= r.ctr < FUSE_UNKNOWN_INO && r.ctr !in live
    ensures 1 <= turns <= U32 && r == Advance(c, turns)
    ensures forall j :: 1 <= j < turns ==> Rejected(Advance(c, j).ctr, live)
  {
    ghost var id :| 1 <= id < FUSE_UNKNOWN_INO && id !in live;
    ghost var bound := TurnsTo(c, id);
    ReachesId(c, id);
    assert Advance(c, 1) == Step(Advance(c, 0)) == Step(c);
    r, turns := Step(c), 1;
    while r.ctr == 0 || r.ctr == FUSE_UNKNOWN_INO || r.ctr in live
      invariant 1 <= turns <= bound && r == Advance(c, turns) && InRange(r)
      invariant forall j :: 1 <= j < turns ==> Rejected(Advance(c, j).ctr, live)
      decreases bound - turns
    {
      assert turns != bound;
      r, turns := Step(r), turns + 1;
    }
  }

  /** The search stops if and only if some usable id is free. */
  lemma SearchStops(c: Counter, live: set<Id>)
    requires InRange(c)
    ensures (exists k: nat :: 1 <= k && !Rejected(Advance(c, k).ctr, live))
       <==> (exists id :: 1 <= id < FUSE_UNKNOWN_INO && id !in live)
  {
    if k: nat :| 1 <= k && !Rejected(Advance(c, k).ctr, live) {
      AdvancePosition(c, k);
      hide Advance;
      assert Advance(c, k).ctr !in live;
    }
    if id :| 1 <= id < FUSE_UNKNOWN_INO && id !in live {
      ReachesId(c, id);
      hide Advance;
      assert !Rejected(Advance(c, TurnsTo(c, id)).ctr, live);
    }
  }

  // The ids 1..n.
  function IdsUpTo(n: nat): (ids: set<Id>)
    ensures |ids| == n
    ensures forall id :: id in ids <==> 1 <= id <= n
  {
    if n == 0 then {} else IdsUpTo(n - 1) + {n}
  }

  /** With fewer than 2^32 - 2 nodes alive there is always an id left, so the search stops. */
  lemma IdLeft(live: set<Id>)
    requires |live| < U32 - 2
    ensures exists id :: 1 <= id < FUSE_UNKNOWN_INO && id !in live
  {
    var all := IdsUpTo(FUSE_UNKNOWN_INO - 1);
    if all <= live {
      SubsetSize(all, live);
    }
    var id :| id in all && id !in live;
    assert 1 <= id < FUSE_UNKNOWN_INO;
  }

  lemma {:induction false} SubsetSize<T>(a: set<T>, b: set<T>)
    requires a <= b
    ensures |a| <= |b|
  {
    if x :| x in a {
      SubsetSize(a - {x}, b - {x});
    }
  }

  function Total(turns: seq<nat>): nat {
    if turns == [] then 0 else Total(turns[..|turns| - 1]) + turns[|turns| - 1]
  }

  // Searches in a row: each starts at the counter the last one left.
  ghost predicate Run(counters: seq<Counter>, turns: seq<nat>) {
    && |counters| == |turns| + 1
    && InRange(counters[0])
    && forall i :: 0 <= i < |turns| ==> turns[i] >= 1 && counters[i + 1] == Advance(counters[i], turns[i])
  }

  lemma {:induction false} RunPosition(counters: seq<Counter>, turns: seq<nat>)
    requires Run(counters, turns)
    ensures InRange(counters[|turns|])
    ensures counters[|turns|] == Advance(counters[0], Total(turns))
  {
    var n := |turns|;
    if n > 0 {
      RunPosition(counters[..n], turns[..n - 1]);
      AdvanceAdd(counters[0], Total(turns[..n - 1]), turns[n - 1]);
      AdvancePosition(counters[0], Total(turns));
    }
  }

  lemma {:induction false} TotalGrows(turns: seq<nat>, i: nat)
    requires i <= |turns| && forall k :: 0 <= k < |turns| ==> turns[k] >= 1
    ensures Total(turns) >= Total(turns[..i]) + |turns| - i
  {
    if i == |turns| {
      assert turns[..i] == turns;
    } else {
      var n := |turns| - 1;
      TotalGrows(turns[..n], i);
      assert turns[..n][..i] == turns[..i];
    }
  }

  // The positions of two counters of a run differ by the turns between them.
  lemma RunGap(counters: seq<Counter>, turns: seq<nat>, i: nat, j: nat)
    requires Run(counters, turns) && i < j <= |turns|
    ensures Total(turns[..i]) < Total(turns[..j]) <= Total(turns)
    ensures InRange(counters[0])
    ensures counters[i] == Advance(counters[0], Total(turns[..i])) && counters[j] == Advance(counters[0], Total(turns[..j]))
  {
    RunPosition(counters[..i + 1], turns[..i]);
    RunPosition(counters[..j + 1], turns[..j]);
    TotalGrows(turns[..j], i);
    TotalGrows(turns, j);
    assert turns[..j][..i] == turns[..i];
  }

  lemma PositionInjective(c: Counter, c': Counter)
    requires InRange(c) && InRange(c') && Position(c) == Position(c')
    ensures c == c'
  {
    assert Position(c) % 0x1_0000_0000 == c.ctr && Position(c') % 0x1_0000_0000 == c'.ctr;
  }

  lemma ModRepeats(a: nat, d: nat)
    ensures (a + d) % 0x1_0000_0000_0000_0000 == a % 0x1_0000_0000_0000_0000 <==> d % 0x1_0000_0000_0000_0000 == 0
  {
  }

  /** Two searches of a run end at the same identity exactly when the turns between them are a
      multiple of 2^64. */
  lemma IdentitiesRepeat(counters: seq<Counter>, turns: seq<nat>, i: nat, j: nat)
    requires Run(counters, turns) && i < j <= |turns|
    ensures counters[i] == counters[j] <==> (Total(turns[..j]) - Total(turns[..i])) % U64 == 0
  {
    RunGap(counters, turns, i, j);
    hide Run, Total, Advance;
    AdvancePosition(counters[0], Total(turns[..i]));
    AdvancePosition(counters[0], Total(turns[..j]));
    ModRepeats(Position(counters[0]) + Total(turns[..i]), Total(turns[..j]) - Total(turns[..i]));
    if counters[i] != counters[j] && Position(counters[i]) == Position(counters[j]) {
      PositionInjective(counters[i], counters[j]);
    }
  }

  /** So no identity is issued twice in a run of fewer than 2^64 turns. */
  lemma IdentitiesFresh(counters: seq<Counter>, turns: seq<nat>, i: nat, j: nat)
    requires Run(counters, turns) && i < j <= |turns|
    requires Total(turns) < U64
    ensures counters[i] != counters[j]
  {
    RunGap(counters, turns, i, j);
    IdentitiesRepeat(counters, turns, i, j);
  }

  /** The identities a cache has issued: `issued` starts with the initial counter and has one entry for
      every node made since, found after `turns` turns; no search ends at the root's id. */
  ghost predicate History(issued: seq<Counter>, turns: seq<nat>, counter: Counter) {
    && Run(issued, turns) && issued[0] == Counter(0, 0) && issued[|turns|] == counter
    && forall k :: 1 <= k < |issued| ==> 1 <= issued[k].ctr < FUSE_UNKNOWN_INO && issued[k].ctr != FUSE_ROOT_ID
  }

  lemma HistoryGrows(issued: seq<Counter>, turns: seq<nat>, counter: Counter, more: nat)
    requires History(issued, turns, counter) && more >= 1
    requires var c := Advance(counter, more); 1 <= c.ctr < FUSE_UNKNOWN_INO && c.ctr != FUSE_ROOT_ID
    ensures History(issued + [Advance(counter, more)], turns + [more], Advance(counter, more))
  {
    hide Advance;
  }

  /** Uniqueness over a cache's whole history: two nodes made have the same pair of node id and
      generation exactly when the turns between them are a multiple of 2^64, and none has the root's. */
  lemma HistoryUnique(issued: seq<Counter>, turns: seq<nat>, counter: Counter, i: nat, j: nat)
    requires History(issued, turns, counter) && 1 <= i < j <= |turns|
    ensures issued[i] == issued[j] <==> (Total(turns[..j]) - Total(turns[..i])) % U64 == 0
    ensures Total(turns) < U64 ==> issued[i] != issued[j]
    ensures issued[i].ctr != FUSE_ROOT_ID && issued[j].ctr != FUSE_ROOT_ID
  {
    IdentitiesRepeat(issued, turns, i, j);
    if Total(turns) < U64 { IdentitiesFresh(issued, turns, i, j); }
  }
}
