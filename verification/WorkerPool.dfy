/** The worker pool of the multi-threaded session loop: `list_add_worker`, `list_del_worker`, the
    locked sections of `fuse_do_work`, `fuse_loop_start_thread` and `fuse_join_worker`
    (tagfs/FUSE_driver/libfuse/lib/fuse_loop_mt.c, lines 110-212 and 320-415).

    Each section between lock and unlock of `mt_lock` is one step. */
module WorkerPool {
  import opened Options

  type WorkerId = nat

  // The worker embedded in `struct fuse_mt`, which anchors the ring.
  const MAIN: WorkerId := 0

  // What a worker's thread is doing: receiving, processing a request, or finished.
  datatype Phase = Waiting | Working(isforget: bool) | Returned

  datatype Worker = Worker(id: WorkerId, phase: Phase)

  datatype Pool = Pool(list: seq<Worker>, numworker: int, numavail: int, exited: bool, joining: bool)

  datatype Config = Config(maxIdle: int, maxThreads: int)

  datatype Step =
    | Begin(i: nat, isforget: bool, gotInit: bool, started: Option<WorkerId>)
    | End(i: nat)
    | Quit(i: nat)
    | Exit
    | StartJoining
    | JoinFirst

  function Busy(list: seq<Worker>): nat {
    if list == [] then 0 else Busy(list[..|list| - 1]) + if list[|list| - 1].phase == Working(false) then 1 else 0
  }

  function Max(a: int, b: int): int {
    if a < b then b else a
  }

  /** `numavail` is the number of workers not processing a request other than a forget; the pool is
      never empty nor above its limit; and the ring holds as many workers as are counted until
      the main thread begins to join them. */
  predicate PoolOk(p: Pool, c: Config) {
    && p.numavail == p.numworker - Busy(p.list)
    && 1 <= p.numworker <= Max(1, c.maxThreads)
    && (if p.joining then p.exited && |p.list| <= p.numworker else |p.list| == p.numworker)
    && IdsOk(p.list)
  }

  predicate IdsOk(list: seq<Worker>) {
    && (forall i, j :: 0 <= i < j < |list| ==> list[i].id != list[j].id)
    && (forall i :: 0 <= i < |list| ==> list[i].id != MAIN)
  }

  function Without<T>(s: seq<T>, i: nat): seq<T>
    requires i < |s|
  {
    s[..i] + s[i + 1..]
  }

  // A freshly started worker joins the ring at its end.
  function Started(p: Pool, id: WorkerId): Pool {
    p.(list := p.list + [Worker(id, Waiting)], numavail := p.numavail + 1, numworker := p.numworker + 1)
  }

  predicate FreshId(p: Pool, id: WorkerId) {
    IdsOk(p.list) ==> IdsOk(p.list + [Worker(id, Waiting)])
  }

  predicate Enabled(p: Pool, step: Step) {
    match step
    case Begin(i, _, _, started) => i < |p.list| && p.list[i].phase == Waiting && (started.Some? ==> FreshId(p, started.value))
    case End(i) => i < |p.list| && p.list[i].phase.Working?
    case Quit(i) => i < |p.list| && p.list[i].phase == Waiting
    case Exit => true
    case StartJoining => p.exited
    case JoinFirst => p.joining && p.list != [] && !p.list[0].phase.Working?
  }

  function Phased(p: Pool, i: nat, phase: Phase): Pool
    requires i < |p.list|
  {
    p.(list := p.list[i := p.list[i].(phase := phase)])
  }

  /** One locked section. */
  function Next(p: Pool, c: Config, step: Step): Pool
    requires Enabled(p, step)
  {
    match step
    case Begin(i, isforget, gotInit, started) =>
      if p.exited then Phased(p, i, Returned)
      else
        var q := Phased(p, i, Working(isforget)).(numavail := if isforget then p.numavail else p.numavail - 1);
        if q.numavail == 0 && q.numworker < c.maxThreads && gotInit && started.Some? then Started(q, started.value) else q
    case End(i) =>
      var q := p.(numavail := if p.list[i].phase.isforget then p.numavail else p.numavail + 1);
      if c.maxIdle != -1 && q.numavail > c.maxIdle && q.numworker > 1 then
        if p.exited then Phased(q, i, Returned)
        else q.(list := Without(p.list, i), numavail := q.numavail - 1, numworker := q.numworker - 1)
      else Phased(q, i, Waiting)
    case Quit(i) => Phased(p, i, Returned)
    case Exit => p.(exited := true)
    case StartJoining => p.(joining := true)
    case JoinFirst => p.(list := p.list[1..])
  }

  lemma {:induction false} BusyUpdate(list: seq<Worker>, i: nat, w: Worker)
    requires i < |list|
    ensures Busy(list[i := w]) + (if list[i].phase == Working(false) then 1 else 0)
         == Busy(list) + if w.phase == Working(false) then 1 else 0
  {
    var k := |list| - 1;
    if i == k {
      assert list[i := w][..k] == list[..k];
    } else {
      assert list[i := w][..k] == list[..k][i := w];
      BusyUpdate(list[..k], i, w);
    }
  }

  lemma {:induction false} BusyWithout(list: seq<Worker>, i: nat)
    requires i < |list|
    ensures Busy(Without(list, i)) == Busy(list) - if list[i].phase == Working(false) then 1 else 0
  {
    var k := |list| - 1;
    if i == k {
      assert Without(list, i) == list[..k];
    } else {
      BusyWithout(list[..k], i);
      BusyPush(Without(list[..k], i), list[k]);
      assert Without(list, i) == Without(list[..k], i) + [list[k]];
    }
  }

  lemma BusyPush(list: seq<Worker>, w: Worker)
    ensures Busy(list + [w]) == Busy(list) + if w.phase == Working(false) then 1 else 0
  {
    assert (list + [w])[..|list|] == list;
  }

  lemma {:induction false} BusyBound(list: seq<Worker>)
    ensures Busy(list) <= |list|
  {
    if list != [] {
      BusyBound(list[..|list| - 1]);
    }
  }

  /** The first worker, as started under the lock before the loop. */
  lemma FirstWorker(c: Config, id: WorkerId)
    requires id != MAIN
    ensures PoolOk(Started(Pool([], 0, 0, false, false), id), c)
  {
    BusyPush([], Worker(id, Waiting));
    assert [] + [Worker(id, Waiting)] == [Worker(id, Waiting)];
  }

  lemma IdsUpdate(list: seq<Worker>, i: nat, phase: Phase)
    requires i < |list| && IdsOk(list)
    ensures IdsOk(list[i := list[i].(phase := phase)])
  {
  }

  lemma IdsWithout(list: seq<Worker>, i: nat)
    requires i < |list| && IdsOk(list)
    ensures IdsOk(Without(list, i))
  {
  }

  /** Every locked section keeps the accounting. */
  lemma StepKeeps(p: Pool, c: Config, step: Step)
    requires PoolOk(p, c) && Enabled(p, step)
    ensures PoolOk(Next(p, c, step), c)
  {
    match step
    case Begin(i, isforget, gotInit, started) => BeginKeeps(p, c, i, isforget, gotInit, started);
    case End(i) => EndKeeps(p, c, i);
    case Quit(i) =>
      hide IdsOk;
      PhasedCounts(p, i, Returned);
    case JoinFirst =>
      hide IdsOk, Busy;
      JoinCounts(p.list);
    case _ =>
      hide IdsOk, Busy;
  }

  lemma JoinCounts(list: seq<Worker>)
    requires list != [] && IdsOk(list) && !list[0].phase.Working?
    ensures IdsOk(list[1..]) && Busy(list[1..]) == Busy(list)
  {
    BusyWithout(list, 0);
    assert Without(list, 0) == list[1..];
    hide Busy;
  }

  lemma EndKeeps(p: Pool, c: Config, i: nat)
    requires PoolOk(p, c) && Enabled(p, End(i))
    ensures PoolOk(Next(p, c, End(i)), c)
  {
    hide IdsOk, Busy;
    PhasedCounts(p, i, Waiting);
    PhasedCounts(p, i, Returned);
    BusyWithout(p.list, i);
    IdsWithout(p.list, i);
    var q := p.(numavail := if p.list[i].phase.isforget then p.numavail else p.numavail + 1);
    PhasedFields(q, i, Waiting);
    PhasedFields(q, i, Returned);
  }

  lemma PhasedCounts(p: Pool, i: nat, phase: Phase)
    requires i < |p.list| && IdsOk(p.list)
    ensures IdsOk(Phased(p, i, phase).list) && |Phased(p, i, phase).list| == |p.list|
    ensures Busy(Phased(p, i, phase).list) + (if p.list[i].phase == Working(false) then 1 else 0)
         == Busy(p.list) + if phase == Working(false) then 1 else 0
  {
    BusyUpdate(p.list, i, p.list[i].(phase := phase));
    IdsUpdate(p.list, i, phase);
  }

  lemma BeginKeeps(p: Pool, c: Config, i: nat, isforget: bool, gotInit: bool, started: Option<WorkerId>)
    requires PoolOk(p, c) && Enabled(p, Begin(i, isforget, gotInit, started))
    ensures PoolOk(Next(p, c, Begin(i, isforget, gotInit, started)), c)
  {
    hide IdsOk, Busy, FreshId;
    PhasedCounts(p, i, Returned);
    PhasedCounts(p, i, Working(isforget));
    if started.Some? {
      StartedCounts(p, i, Working(isforget), started.value);
    }
    PhasedFields(p, i, Returned);
    PhasedFields(p, i, Working(isforget));
    hide Phased;
  }

  lemma StartedCounts(p: Pool, i: nat, phase: Phase, id: WorkerId)
    requires i < |p.list| && IdsOk(p.list) && FreshId(p, id)
    ensures var list := Phased(p, i, phase).list + [Worker(id, Waiting)];
            IdsOk(list) && Busy(list) == Busy(Phased(p, i, phase).list)
  {
    var w := Worker(id, Waiting);
    BusyPush(Phased(p, i, phase).list, w);
    IdsUpdate(p.list + [w], i, phase);
    hide Busy, IdsOk;
    assert (p.list + [w])[i := p.list[i].(phase := phase)] == Phased(p, i, phase).list + [w];
  }

  lemma PhasedFields(p: Pool, i: nat, phase: Phase)
    requires i < |p.list|
    ensures Phased(p, i, phase) == p.(list := Phased(p, i, phase).list)
  {
  }

  lemma {:induction false} RunKeeps(pools: seq<Pool>, steps: seq<Step>, c: Config, k: nat)
    requires |pools| == |steps| + 1 && k <= |steps| && PoolOk(pools[0], c)
    requires forall i :: 0 <= i < |steps| ==> Enabled(pools[i], steps[i]) && pools[i + 1] == Next(pools[i], c, steps[i])
    ensures PoolOk(pools[k], c)
  {
    if k > 0 {
      RunKeeps(pools, steps, c, k - 1);
      StepKeeps(pools[k - 1], c, steps[k - 1]);
    }
  }

  // ---------------------------------------------------------------------------
  // Who listens

  /** How many workers are in a phase. */
  function Count(list: seq<Worker>, phase: Phase): nat {
    if list == [] then 0 else Count(list[..|list| - 1], phase) + if list[|list| - 1].phase == phase then 1 else 0
  }

  lemma {:induction false} CountUpdate(list: seq<Worker>, i: nat, w: Worker, phase: Phase)
    requires i < |list|
    ensures Count(list[i := w], phase) + (if list[i].phase == phase then 1 else 0)
         == Count(list, phase) + if w.phase == phase then 1 else 0
  {
    var k := |list| - 1;
    if i == k {
      assert list[i := w][..k] == list[..k];
    } else {
      assert list[i := w][..k] == list[..k][i := w];
      CountUpdate(list[..k], i, w, phase);
    }
  }

  lemma CountPush(list: seq<Worker>, w: Worker, phase: Phase)
    ensures Count(list + [w], phase) == Count(list, phase) + if w.phase == phase then 1 else 0
  {
    assert (list + [w])[..|list|] == list;
  }

  /** What `numavail` counts besides the workers that listen: those that process a forget and those
      that have returned. */
  lemma {:induction false} Accounted(list: seq<Worker>)
    ensures |list| - Busy(list) == Count(list, Waiting) + Count(list, Working(true)) + Count(list, Returned)
  {
    if list != [] {
      var w := list[|list| - 1];
      Accounted(list[..|list| - 1]);
      assert w.phase.Working? ==> w.phase == Working(w.phase.isforget);
    }
  }

  /** After a request is taken some worker listens for the next one exactly when another one did before,
      or the pool may grow and its count of available workers is right to call for it: the request is
      not a forget, no worker processes one and none has returned. */
  lemma SomeoneListens(p: Pool, c: Config, i: nat, isforget: bool, gotInit: bool, started: Option<WorkerId>)
    requires PoolOk(p, c) && Enabled(p, Begin(i, isforget, gotInit, started)) && !p.exited
    ensures var q := Next(p, c, Begin(i, isforget, gotInit, started));
            var room := p.numworker < c.maxThreads && gotInit && started.Some?;
            Count(q.list, Waiting) >= 1
            <==> Count(p.list, Waiting) >= 2
                 || (room && !isforget && Count(p.list, Working(true)) == 0 && Count(p.list, Returned) == 0)
  {
    Accounted(p.list);
    var q := Phased(p, i, Working(isforget));
    CountUpdate(p.list, i, p.list[i].(phase := Working(isforget)), Waiting);
    if started.Some? { CountPush(q.list, Worker(started.value, Waiting), Waiting); }
    hide Count, Busy, IdsOk, FreshId;
  }

  /** The only worker that listens takes a forget: nobody listens any more, although the pool still
      counts one as available and so starts no thread, whatever room it has. */
  lemma ForgetSilences(p: Pool, c: Config, i: nat, gotInit: bool, started: Option<WorkerId>)
    requires PoolOk(p, c) && Enabled(p, Begin(i, true, gotInit, started)) && !p.exited && Count(p.list, Waiting) == 1
    ensures var q := Next(p, c, Begin(i, true, gotInit, started));
            Count(q.list, Waiting) == 0 && q.numavail >= 1 && q.numworker == p.numworker
  {
    Accounted(p.list);
    SomeoneListens(p, c, i, true, gotInit, started);
    hide Count, Busy, IdsOk, FreshId;
  }

  /** What taking a request does, in terms of what the workers are doing: this worker processes it, and one
      more thread is started exactly when the pool may grow, the request is no forget, nobody else waits,
      and no other worker processes a forget or has returned. Once the session is over it returns. */
  lemma BeginExact(p: Pool, c: Config, i: nat, isforget: bool, gotInit: bool, started: Option<WorkerId>)
    requires PoolOk(p, c) && Enabled(p, Begin(i, isforget, gotInit, started)) && !p.joining
    ensures var starts := |p.list| < c.maxThreads && gotInit && started.Some? && !isforget
                          && Count(p.list, Waiting) == 1 && Count(p.list, Working(true)) == 0 && Count(p.list, Returned) == 0;
            var now := p.list[i := Worker(p.list[i].id, if p.exited then Returned else Working(isforget))];
            Next(p, c, Begin(i, isforget, gotInit, started)).list
              == if !p.exited && starts then now + [Worker(started.value, Waiting)] else now
  {
    Accounted(p.list);
    var w := p.list[i].(phase := Returned);
    CountUpdate(p.list, i, w, Waiting);
    hide Count, Busy, IdsOk, FreshId;
  }

  /** What finishing a request does: the worker leaves the pool exactly when idle workers are limited and
      there are then more of them than the limit (this one, those that wait, process a forget or have
      returned), unless it is the last worker or the session is over; otherwise it waits again, or returns
      if it would have left but for the end of the session. Nobody else is affected. */
  lemma EndExact(p: Pool, c: Config, i: nat)
    requires PoolOk(p, c) && Enabled(p, End(i)) && !p.joining
    ensures var idle := Count(p.list, Waiting) + Count(p.list, Working(true)) + Count(p.list, Returned)
                        + if p.list[i].phase.isforget then 0 else 1;
            var surplus := c.maxIdle != -1 && idle > c.maxIdle && |p.list| > 1;
            Next(p, c, End(i)).list
              == if surplus && !p.exited then p.list[..i] + p.list[i + 1..]
                 else p.list[i := Worker(p.list[i].id, if surplus then Returned else Waiting)]
  {
    Accounted(p.list);
    hide Count, Busy, IdsOk;
  }

  // ---------------------------------------------------------------------------
  // The ring of workers

  // The ring read once round, starting and ending at MAIN.
  ghost function Round(order: seq<WorkerId>): seq<WorkerId> {
    [MAIN] + order + [MAIN]
  }

  // The nodes at positions `i` and `i + 1` point at each other.
  ghost predicate LinkAt(next: map<WorkerId, WorkerId>, prev: map<WorkerId, WorkerId>, ring: seq<WorkerId>, i: nat)
    requires i + 1 < |ring|
  {
    ring[i] in next && next[ring[i]] == ring[i + 1] && ring[i + 1] in prev && prev[ring[i + 1]] == ring[i]
  }

  ghost predicate Linked(next: map<WorkerId, WorkerId>, prev: map<WorkerId, WorkerId>, ring: seq<WorkerId>) {
    forall i :: 0 <= i < |ring| - 1 ==> LinkAt(next, prev, ring, i)
  }

  ghost predicate OrderOk(order: seq<WorkerId>) {
    (forall i, j :: 0 <= i < j < |order| ==> order[i] != order[j]) && MAIN !in order
  }

  // The interior of the ring is the order, and no link is used twice.
  lemma RingFacts(order: seq<WorkerId>)
    requires OrderOk(order)
    ensures |Round(order)| == |order| + 2 && Round(order)[0] == MAIN && Round(order)[|order| + 1] == MAIN
    ensures forall i :: 0 < i <= |order| ==> Round(order)[i] == order[i - 1]
    ensures forall i, j :: 0 <= i < j <= |order| ==> Round(order)[i] != Round(order)[j]
    ensures forall i, j :: 0 < i < j <= |order| + 1 ==> Round(order)[i] != Round(order)[j]
  {
    assert forall i :: 0 < i <= |order| ==> Round(order)[i] == order[i - 1];
    hide Round;
    forall i | 0 < i <= |order| ensures Round(order)[i] != MAIN {
      assert order[i - 1] in order;
    }
  }

  lemma LinkedAdd(next: map<WorkerId, WorkerId>, prev: map<WorkerId, WorkerId>, order: seq<WorkerId>, w: WorkerId)
    requires OrderOk(order) && Linked(next, prev, Round(order)) && w != MAIN && w !in order
    ensures MAIN in prev && OrderOk(order + [w])
    ensures Linked(next[w := MAIN][prev[MAIN] := w], prev[w := prev[MAIN]][MAIN := w], Round(order + [w]))
  {
    var ring, ring', m := Round(order), Round(order + [w]), |order|;
    RingFacts(order);
    RingFacts(order + [w]);
    assert forall i :: 0 <= i <= m ==> ring'[i] == ring[i];
    assert ring'[m + 1] == w;
    var last := ring[m];
    assert LinkAt(next, prev, ring, m);
    hide Round, OrderOk;
    var n, p := next[w := MAIN][last := w], prev[w := last][MAIN := w];
    forall i | 0 <= i < |ring'| - 1 ensures LinkAt(n, p, ring', i) {
      if i < m {
        assert LinkAt(next, prev, ring, i);
        assert ring[i] != ring[m] && ring[i + 1] != ring[m + 1] && ring'[i] != ring'[m + 1] && ring'[i + 1] != ring'[m + 1];
      }
    }
    assert Linked(n, p, ring');
  }

  lemma LinkedDelete(next: map<WorkerId, WorkerId>, prev: map<WorkerId, WorkerId>, order: seq<WorkerId>, k: nat)
    requires OrderOk(order) && Linked(next, prev, Round(order)) && k < |order|
    ensures order[k] in next && order[k] in prev && OrderOk(Without(order, k))
    ensures Linked(next[prev[order[k]] := next[order[k]]], prev[next[order[k]] := prev[order[k]]], Round(Without(order, k)))
  {
    var ring, ring' := Round(order), Round(Without(order, k));
    RingFacts(order);
    assert OrderOk(Without(order, k));
    assert |ring'| == |order| + 1;
    assert forall i :: 0 <= i < |ring'| ==> ring'[i] == ring[if i <= k then i else i + 1];
    assert ring[k + 1] == order[k];
    assert LinkAt(next, prev, ring, k) && LinkAt(next, prev, ring, k + 1);
    hide Round, Without, OrderOk;
    var n, p := next[ring[k] := ring[k + 2]], prev[ring[k + 2] := ring[k]];
    forall i | 0 <= i < |ring'| - 1 ensures LinkAt(n, p, ring', i) {
      var a := if i <= k then i else i + 1;
      assert ring'[i] == ring[a];
      if i != k {
        assert LinkAt(next, prev, ring, a);
        assert ring'[i + 1] == ring[a + 1];
        assert ring[a] != ring[k] && ring[a + 1] != ring[k + 2];
      } else {
        assert ring'[i + 1] == ring[k + 2];
      }
    }
    assert Linked(n, p, ring');
  }

  /** Doubly linked circular list of workers around MAIN. */
  class Ring {
    var next: map<WorkerId, WorkerId>
    var prev: map<WorkerId, WorkerId>
    ghost var order: seq<WorkerId>

    ghost predicate Valid()
      reads this
    {
      OrderOk(order) && Linked(next, prev, Round(order))
    }

    constructor ()
      ensures Valid() && order == []
    {
      next, prev, order := map[MAIN := MAIN], map[MAIN := MAIN], [];
    }

    /** `list_add_worker` in front of MAIN, that is, at the end of the list. */
    method Add(w: WorkerId)
      requires Valid() && w != MAIN && w !in order
      modifies this
      ensures Valid() && order == old(order) + [w]
    {
      LinkedAdd(next, prev, order, w);
      hide Linked, OrderOk;
      var p := prev[MAIN];
      next := next[w := MAIN];
      prev := prev[w := p];
      next := next[p := w];
      prev := prev[MAIN := w];
      order := order + [w];
    }

    /** `list_del_worker`: the ring closes over the worker. */
    method Delete(w: WorkerId, ghost k: nat)
      requires Valid() && k < |order| && order[k] == w
      modifies this
      ensures Valid() && order == Without(old(order), k)
    {
      LinkedDelete(next, prev, order, k);
      hide Linked, OrderOk;
      var p := prev[w];
      var n := next[w];
      next := next[p := n];
      prev := prev[n := p];
      order := Without(order, k);
    }
  }
}
