/** The hierarchical path locks of the node cache: `try_get_path`, `try_get_path2`, `unlock_path`,
    `queue_element_wakeup`, `wake_up_queued` and the requests and releases around them
    (tagfs/FUSE_driver/libfuse/lib/fuse.c, lines 972-1362).

    Every access happens under one mutex, so each critical section is one step. A `treelock` counts
    the read paths through a node, is -1 under a writer, and is offset by INT_MIN while a writer
    waits for the readers to leave. */
module TreeLocks {
  import opened Options
  import opened Forest

  const TREELOCK_WRITE: int := -1
  const TREELOCK_WAIT_OFFSET: int := -0x8000_0000

  // Each path takes a thread and a C stack: their number stays far below this.
  const MAX_PATHS: nat := 0x7fff_fffe

  type Locks = map<Id, int>

  /** The cached tree as the locks see it. */
  datatype Tree = Tree(nodes: set<Id>, links: Links, names: map<Link, Id>, rank: Id -> nat)

  // A path to a node, or to a name under it; `write` asks for the node of that name exclusively.
  datatype Request = Request(nodeid: Id, name: Option<string>, write: bool)

  // A granted request: the path read-locked and the node write-locked.
  datatype Grant = Grant(nodeid: Id, wnode: Option<Id>, path: seq<Id>)

  datatype Outcome = Granted | Again | Stale

  ghost predicate TreeOk(t: Tree) {
    && FUSE_ROOT_ID in t.nodes && FUSE_ROOT_ID !in t.links
    && (forall n :: n in t.links ==> n in t.nodes)
    && (forall n :: n in t.links ==> t.links[n].parent in t.nodes)
    && (forall l :: l in t.names ==> t.names[l] in t.links && t.links[t.names[l]] == l)
    && (forall n :: n in t.links ==> t.links[n] in t.names && t.names[t.links[n]] == n)
    && Ranks(t.links, t.rank)
  }

  /** The nodes a walk from `n` to the root passes, up to where it ends. */
  ghost function Chain(t: Tree, n: Id): seq<Id>
    requires Ranks(t.links, t.rank)
    decreases t.rank(n)
  {
    if n in t.links then [n] + Chain(t, t.links[n].parent) else []
  }

  /** Where that walk ends: the root, or a node without a name. */
  ghost function Top(t: Tree, n: Id): Id
    requires Ranks(t.links, t.rank)
    decreases t.rank(n)
  {
    if n in t.links then Top(t, t.links[n].parent) else n
  }

  /** `lookup_node` for the node to be write-locked, if it is cached. */
  function Target(t: Tree, r: Request): Option<Id> {
    if r.write && r.name.Some? && Link(r.nodeid, r.name.value) in t.names
    then Some(t.names[Link(r.nodeid, r.name.value)]) else None
  }

  // A request names a live node, and asks for a write lock only by name.
  predicate GoodRequest(t: Tree, r: Request) {
    r.nodeid in t.nodes && (r.write ==> r.name.Some?)
  }

  // ---------------------------------------------------------------------------
  // Locking and unlocking as changes of all treelocks at once

  function Taken(tl: Locks, path: seq<Id>): Locks {
    map n | n in tl :: if n in path then tl[n] + 1 else tl[n]
  }

  function Down(lock: int): int {
    if lock - 1 == TREELOCK_WAIT_OFFSET then 0 else lock - 1
  }

  function Dropped(tl: Locks, path: seq<Id>): Locks {
    map n | n in tl :: if n in path then Down(tl[n]) else tl[n]
  }

  function WriteLocked(tl: Locks, w: Option<Id>): Locks {
    if w.Some? then tl[w.value := TREELOCK_WRITE] else tl
  }

  function Unlocked(tl: Locks, g: Grant): Locks {
    Dropped(if g.wnode.Some? then tl[g.wnode.value := 0] else tl, g.path)
  }

  predicate Blocked(tl: Locks, path: seq<Id>)
    requires forall n :: n in path ==> n in tl
  {
    exists i :: 0 <= i < |path| && tl[path[i]] < 0
  }

  /** What `try_get_path` decides and leaves behind. */
  ghost function Try(t: Tree, tl: Locks, r: Request): (Outcome, Locks)
    requires TreeOk(t) && tl.Keys == t.nodes && GoodRequest(t, r)
  {
    ChainInTree(t, r.nodeid);
    var w := Target(t, r);
    if w.Some? && tl[w.value] != 0 then
      (Again, if tl[w.value] > 0 then tl[w.value := tl[w.value] + TREELOCK_WAIT_OFFSET] else tl)
    else if Blocked(tl, Chain(t, r.nodeid)) then (Again, tl)
    else if Top(t, r.nodeid) != FUSE_ROOT_ID then (Stale, tl)
    else (Granted, Taken(WriteLocked(tl, w), Chain(t, r.nodeid)))
  }

  ghost function GrantOf(t: Tree, r: Request): Grant
    requires Ranks(t.links, t.rank)
  {
    Grant(r.nodeid, Target(t, r), Chain(t, r.nodeid))
  }

  lemma {:induction false} ChainInTree(t: Tree, n: Id)
    requires TreeOk(t) && n in t.nodes
    ensures forall m :: m in Chain(t, n) ==> m in t.links && m in t.nodes && t.rank(m) <= t.rank(n)
    ensures forall i, j :: 0 <= i < j < |Chain(t, n)| ==> Chain(t, n)[i] != Chain(t, n)[j]
    ensures Top(t, n) in t.nodes && Top(t, n) !in t.links
    decreases t.rank(n)
  {
    if n in t.links {
      ChainInTree(t, t.links[n].parent);
    }
  }

  // The node to be write-locked is a child of the path's first node, so it is not on the path.
  lemma TargetOffPath(t: Tree, r: Request)
    requires TreeOk(t) && GoodRequest(t, r) && Target(t, r).Some?
    ensures Target(t, r).value in t.nodes && Target(t, r).value !in Chain(t, r.nodeid)
  {
    var w := Target(t, r).value;
    assert t.links[w] == Link(r.nodeid, r.name.value);
    ChainInTree(t, r.nodeid);
  }

  // ---------------------------------------------------------------------------
  // The invariant

  function Readers(held: seq<Grant>, n: Id): nat {
    if held == [] then 0
    else Readers(held[..|held| - 1], n) + if n in held[|held| - 1].path then 1 else 0
  }

  function Writers(held: seq<Grant>, n: Id): nat {
    if held == [] then 0
    else Writers(held[..|held| - 1], n) + if held[|held| - 1].wnode == Some(n) then 1 else 0
  }

  /** The three states of a treelock: so many readers, so many readers and a writer waiting for
      them, or one writer and no reader. */
  predicate LockState(lock: int, readers: nat, writers: nat) {
    || (writers == 0 && lock == readers)
    || (writers == 0 && readers >= 1 && lock == TREELOCK_WAIT_OFFSET + readers)
    || (writers == 1 && readers == 0 && lock == TREELOCK_WRITE)
  }

  ghost predicate LocksOk(tl: Locks, held: seq<Grant>) {
    && |held| <= MAX_PATHS
    && forall n {:trigger tl[n]} :: n in tl ==> LockState(tl[n], Readers(held, n), Writers(held, n))
  }

  /** Every held path is still the walk from its node to the root, so `unlock_path`, which walks
      again, releases exactly what was locked. */
  ghost predicate PathsOk(t: Tree, held: seq<Grant>)
    requires TreeOk(t)
  {
    forall i :: 0 <= i < |held| ==> PathOk(t, held[i])
  }

  ghost predicate PathOk(t: Tree, g: Grant)
    requires TreeOk(t)
  {
    && g.nodeid in t.nodes && g.path == Chain(t, g.nodeid) && Top(t, g.nodeid) == FUSE_ROOT_ID
    && (g.wnode.Some? ==> g.wnode.value in t.nodes && g.wnode.value !in g.path)
  }

  lemma {:induction false} CountBounds(held: seq<Grant>, n: Id)
    ensures Readers(held, n) <= |held| && Writers(held, n) <= |held|
  {
    if held != [] {
      CountBounds(held[..|held| - 1], n);
    }
  }

  lemma CountPush(held: seq<Grant>, g: Grant, n: Id)
    ensures Readers(held + [g], n) == Readers(held, n) + if n in g.path then 1 else 0
    ensures Writers(held + [g], n) == Writers(held, n) + if g.wnode == Some(n) then 1 else 0
  {
    assert (held + [g])[..|held|] == held;
  }

  // The grants but for one.
  function Without(held: seq<Grant>, i: nat): seq<Grant>
    requires i < |held|
  {
    held[..i] + held[i + 1..]
  }

  lemma WithoutOne(held: seq<Grant>, i: nat)
    requires i < |held|
    ensures multiset(held) == multiset(Without(held, i)) + multiset{held[i]}
  {
    assert held == held[..i] + [held[i]] + held[i + 1..];
  }

  lemma {:induction false} CountWithout(held: seq<Grant>, i: nat, n: Id)
    requires i < |held|
    ensures Readers(Without(held, i), n) == Readers(held, n) - if n in held[i].path then 1 else 0
    ensures Writers(Without(held, i), n) == Writers(held, n) - if held[i].wnode == Some(n) then 1 else 0
  {
    var k := |held| - 1;
    if i == k {
      assert Without(held, i) == held[..k];
    } else {
      CountWithout(held[..k], i, n);
      var rest := Without(held[..k], i);
      assert Without(held, i) == rest + [held[k]];
      CountPush(rest, held[k], n);
      assert held[..k][i] == held[i];
      hide Without;
    }
  }

  lemma {:induction false} ReaderCounted(held: seq<Grant>, i: nat, n: Id)
    requires i < |held|
    ensures n in held[i].path ==> Readers(held, n) >= 1
    ensures held[i].wnode == Some(n) ==> Writers(held, n) >= 1
  {
    CountWithout(held, i, n);
  }

  // ---------------------------------------------------------------------------
  // What one attempt and one release do

  ghost predicate Attempt(t: Tree, tl: Locks, held: seq<Grant>) {
    TreeOk(t) && tl.Keys == t.nodes && LocksOk(tl, held) && |held| < MAX_PATHS
  }

  lemma GrantKeepsLocks(t: Tree, tl: Locks, held: seq<Grant>, r: Request)
    requires Attempt(t, tl, held) && GoodRequest(t, r)
    requires Try(t, tl, r).0 == Granted
    ensures LocksOk(Try(t, tl, r).1, held + [GrantOf(t, r)]) && PathOk(t, GrantOf(t, r))
    ensures Try(t, tl, r).1.Keys == t.nodes
  {
    var tl', g := Try(t, tl, r).1, GrantOf(t, r);
    ChainInTree(t, r.nodeid);
    if g.wnode.Some? {
      TargetOffPath(t, r);
    }
    forall n | n in tl' ensures LockState(tl'[n], Readers(held + [g], n), Writers(held + [g], n)) {
      CountPush(held, g, n);
      CountBounds(held, n);
      assert LockState(tl[n], Readers(held, n), Writers(held, n));
    }
  }

  lemma FailureKeepsLocks(t: Tree, tl: Locks, held: seq<Grant>, r: Request)
    requires Attempt(t, tl, held) && GoodRequest(t, r)
    requires Try(t, tl, r).0 != Granted
    ensures LocksOk(Try(t, tl, r).1, held) && Marked(tl, Try(t, tl, r).1)
    ensures Try(t, tl, r).1.Keys == t.nodes
    ensures Try(t, tl, r).0 == Stale ==> Try(t, tl, r).1 == tl
  {
    hide Ranks, Chain, Top, LocksOk, Taken;
    TryKeys(t, tl, r);
    if Try(t, tl, r).1 != tl {
      MarkKeepsLocks(tl, held, Target(t, r).value);
    }
  }

  // A waiting mark on a node that has readers is one of the states of a treelock.
  lemma MarkKeepsLocks(tl: Locks, held: seq<Grant>, w: Id)
    requires LocksOk(tl, held) && w in tl && tl[w] > 0
    ensures LocksOk(tl[w := tl[w] + TREELOCK_WAIT_OFFSET], held)
  {
    CountBounds(held, w);
    assert LockState(tl[w], Readers(held, w), Writers(held, w));
  }

  /** A failed attempt leaves everything as it was, or a waiting mark on one node that has readers. */
  ghost predicate Marked(tl: Locks, tl': Locks) {
    tl' == tl || exists w :: w in tl && tl[w] > 0 && tl' == tl[w := tl[w] + TREELOCK_WAIT_OFFSET]
  }

  // What a holder knows of the treelocks it holds: the assertions of `unlock_path`.
  lemma HeldStates(t: Tree, tl: Locks, held: seq<Grant>, i: nat)
    requires TreeOk(t) && tl.Keys == t.nodes && LocksOk(tl, held) && i < |held| && PathOk(t, held[i])
    ensures held[i].wnode.Some? ==> held[i].wnode.value in tl && tl[held[i].wnode.value] == TREELOCK_WRITE
    ensures forall n :: n in held[i].path ==> n in tl && tl[n] !in {0, TREELOCK_WAIT_OFFSET, TREELOCK_WRITE}
  {
    ChainInTree(t, held[i].nodeid);
    hide TreeOk, Chain, Top;
    if held[i].wnode.Some? {
      ReaderCounted(held, i, held[i].wnode.value);
    }
    forall n | n in held[i].path ensures n in tl && tl[n] !in {0, TREELOCK_WAIT_OFFSET, TREELOCK_WRITE} {
      ReaderCounted(held, i, n);
      CountBounds(held, n);
    }
  }

  /** Dropping a held path undoes exactly its locks. */
  lemma ReleaseKeepsLocks(t: Tree, tl: Locks, held: seq<Grant>, i: nat)
    requires TreeOk(t) && tl.Keys == t.nodes && LocksOk(tl, held) && PathsOk(t, held) && i < |held|
    ensures LocksOk(Unlocked(tl, held[i]), Without(held, i)) && PathsOk(t, Without(held, i))
    ensures Unlocked(tl, held[i]).Keys == t.nodes
  {
    hide Ranks, PathOk, Chain, Top;
    assert PathOk(t, held[i]);
    HeldStates(t, tl, held, i);
    UnlockCounts(tl, held, i);
  }

  lemma UnlockCounts(tl: Locks, held: seq<Grant>, i: nat)
    requires LocksOk(tl, held) && i < |held|
    requires held[i].wnode.Some? ==> held[i].wnode.value in tl
    ensures LocksOk(Unlocked(tl, held[i]), Without(held, i)) && Unlocked(tl, held[i]).Keys == tl.Keys
  {
    var tl' := Unlocked(tl, held[i]);
    forall n | n in tl' ensures LockState(tl'[n], Readers(Without(held, i), n), Writers(Without(held, i), n)) {
      ReaderCounted(held, i, n);
      CountWithout(held, i, n);
      CountBounds(held, n);
      hide Without;
      assert LockState(tl[n], Readers(held, n), Writers(held, n));
    }
  }

  // ---------------------------------------------------------------------------
  // One path or two: `try_get_path` and `try_get_path2`

  datatype Demand = Demand(first: Request, second: Option<Request>)

  predicate GoodDemand(t: Tree, d: Demand) {
    GoodRequest(t, d.first) && (d.second.Some? ==> GoodRequest(t, d.second.value))
  }

  /** The outcome of a demand, the treelocks afterwards, and what is then held. When the second
      path cannot be had, the first is released again. */
  ghost function TryDemand(t: Tree, tl: Locks, d: Demand): (Outcome, Locks, seq<Grant>)
    requires TreeOk(t) && tl.Keys == t.nodes && GoodDemand(t, d)
  {
    var (o1, tl1) := Try(t, tl, d.first);
    TryKeys(t, tl, d.first);
    if o1 != Granted then (o1, tl1, [])
    else if d.second.None? then (Granted, tl1, [GrantOf(t, d.first)])
    else
      var (o2, tl2) := Try(t, tl1, d.second.value);
      if o2 == Granted then (Granted, tl2, [GrantOf(t, d.first), GrantOf(t, d.second.value)])
      else (o2, Unlocked(tl2, GrantOf(t, d.first)), [])
  }

  lemma TryKeys(t: Tree, tl: Locks, r: Request)
    requires TreeOk(t) && tl.Keys == t.nodes && GoodRequest(t, r)
    ensures Try(t, tl, r).1.Keys == t.nodes
  {
    if Target(t, r).Some? {
      TargetOffPath(t, r);
    }
    ChainInTree(t, r.nodeid);
  }

  // What releasing a grant makes of each treelock it set, even if one was marked meanwhile.
  lemma UndoneLocks(tl: Locks, g: Grant, tl2: Locks, n: Id)
    requires g.wnode.Some? ==> g.wnode.value in tl && tl[g.wnode.value] == 0 && g.wnode.value !in g.path
    requires n in tl && (n in g.path ==> tl[n] >= 0)
    requires n in tl2
    ensures var tl1 := Taken(WriteLocked(tl, g.wnode), g.path);
            && n in tl1 && n in Unlocked(tl2, g)
            && (tl2[n] == tl1[n] ==> Unlocked(tl2, g)[n] == tl[n])
            && (tl1[n] > 0 && tl2[n] == tl1[n] + TREELOCK_WAIT_OFFSET ==>
                  Unlocked(tl2, g)[n] == if tl[n] == 0 then 0 else tl[n] + TREELOCK_WAIT_OFFSET)
            && (tl1[n] > 0 ==> tl[n] >= 0)
  {
  }

  // Undoing a grant after the locks were left alone, or one of them was marked.
  lemma UndoGrant(tl: Locks, g: Grant, tl2: Locks)
    requires g.wnode.Some? ==> g.wnode.value in tl && tl[g.wnode.value] == 0 && g.wnode.value !in g.path
    requires forall n :: n in g.path ==> n in tl && tl[n] >= 0
    requires Marked(Taken(WriteLocked(tl, g.wnode), g.path), tl2)
    ensures Marked(tl, Unlocked(tl2, g))
    ensures tl2 == Taken(WriteLocked(tl, g.wnode), g.path) ==> Unlocked(tl2, g) == tl
  {
    hide Taken, Dropped, Unlocked, WriteLocked;
    var tl1: Locks := Taken(WriteLocked(tl, g.wnode), g.path);
    if tl2 == tl1 {
      UndoExactly(tl, g);
    } else {
      var w :| w in tl1 && tl1[w] > 0 && tl2 == tl1[w := tl1[w] + TREELOCK_WAIT_OFFSET];
      UndoMarked(tl, g, w);
    }
  }

  lemma KeysTaken(tl: Locks, g: Grant)
    requires g.wnode.Some? ==> g.wnode.value in tl
    ensures Taken(WriteLocked(tl, g.wnode), g.path).Keys == tl.Keys
  {
  }

  lemma KeysUnlocked(g: Grant, tl2: Locks)
    requires g.wnode.Some? ==> g.wnode.value in tl2
    ensures Unlocked(tl2, g).Keys == tl2.Keys
  {
  }

  lemma UndoExactly(tl: Locks, g: Grant)
    requires g.wnode.Some? ==> g.wnode.value in tl && tl[g.wnode.value] == 0 && g.wnode.value !in g.path
    requires forall n :: n in g.path ==> n in tl && tl[n] >= 0
    ensures Unlocked(Taken(WriteLocked(tl, g.wnode), g.path), g) == tl
  {
    hide Taken, Dropped, Unlocked, WriteLocked;
    var tl1: Locks := Taken(WriteLocked(tl, g.wnode), g.path);
    KeysTaken(tl, g);
    KeysUnlocked(g, tl1);
    forall n | n in tl ensures Unlocked(tl1, g)[n] == tl[n] {
      UndoneLocks(tl, g, tl1, n);
    }
  }

  lemma UndoMarked(tl: Locks, g: Grant, w: Id)
    requires g.wnode.Some? ==> g.wnode.value in tl && tl[g.wnode.value] == 0 && g.wnode.value !in g.path
    requires forall n :: n in g.path ==> n in tl && tl[n] >= 0
    requires var tl1 := Taken(WriteLocked(tl, g.wnode), g.path); w in tl1 && tl1[w] > 0
    ensures var tl1 := Taken(WriteLocked(tl, g.wnode), g.path);
            Marked(tl, Unlocked(tl1[w := tl1[w] + TREELOCK_WAIT_OFFSET], g))
  {
    hide Taken, Dropped, Unlocked, WriteLocked, Marked;
    var tl1: Locks := Taken(WriteLocked(tl, g.wnode), g.path);
    var tl2: Locks := tl1[w := tl1[w] + TREELOCK_WAIT_OFFSET];
    KeysTaken(tl, g);
    KeysUnlocked(g, tl2);
    var back: Locks := Unlocked(tl2, g);
    forall n | n in tl ensures back[n] == if n == w && tl[w] != 0 then tl[w] + TREELOCK_WAIT_OFFSET else tl[n] {
      UndoneLocks(tl, g, tl2, n);
    }
    UndoneLocks(tl, g, tl2, w);
    MarkOrNot(tl, w, back);
  }

  lemma MarkOrNot(tl: Locks, w: Id, back: Locks)
    requires w in tl && tl[w] >= 0 && back.Keys == tl.Keys
    requires forall n :: n in tl ==> back[n] == if n == w && tl[w] != 0 then tl[w] + TREELOCK_WAIT_OFFSET else tl[n]
    ensures Marked(tl, back)
  {
    if tl[w] == 0 {
      assert back == tl;
    } else {
      assert back == tl[w := tl[w] + TREELOCK_WAIT_OFFSET];
    }
  }

  // Releasing the first path after the second failed restores every lock but a waiting mark
  // that still has other readers to wait for.
  lemma RollbackMarked(t: Tree, tl: Locks, r: Request, tl2: Locks)
    requires TreeOk(t) && tl.Keys == t.nodes && GoodRequest(t, r) && Try(t, tl, r).0 == Granted
    requires Marked(Try(t, tl, r).1, tl2)
    ensures Marked(tl, Unlocked(tl2, GrantOf(t, r)))
    ensures tl2 == Try(t, tl, r).1 ==> Unlocked(tl2, GrantOf(t, r)) == tl
  {
    var g := GrantOf(t, r);
    ChainInTree(t, r.nodeid);
    if g.wnode.Some? {
      TargetOffPath(t, r);
    }
    assert forall n :: n in g.path ==> tl[n] >= 0;
    hide TreeOk, Chain, Top, Marked;
    UndoGrant(tl, g, tl2);
  }

  ghost predicate Room(t: Tree, tl: Locks, held: seq<Grant>, extra: nat) {
    TreeOk(t) && tl.Keys == t.nodes && LocksOk(tl, held) && PathsOk(t, held) && |held| + extra <= MAX_PATHS
  }

  /** Whatever a demand's outcome, the locks match what is held; a failed demand leaves at most a
      waiting mark, and one that gives up leaves nothing. */
  lemma DemandKeepsLocks(t: Tree, tl: Locks, held: seq<Grant>, d: Demand)
    requires Room(t, tl, held, 2) && GoodDemand(t, d)
    ensures var (o, tl', gs) := TryDemand(t, tl, d);
            && Room(t, tl', held + gs, 0) && |gs| <= 2
            && (o != Granted ==> gs == [] && Marked(tl, tl'))
            && (o == Stale ==> tl' == tl)
  {
    hide TreeOk, LocksOk, Try, Marked;
    var (o1, tl1) := Try(t, tl, d.first);
    if o1 != Granted {
      FailureKeepsLocks(t, tl, held, d.first);
      assert held + [] == held;
    } else {
      GrantKeepsLocks(t, tl, held, d.first);
      if d.second.Some? {
        SecondKeepsLocks(t, tl, held, d);
      }
    }
  }

  lemma SecondKeepsLocks(t: Tree, tl: Locks, held: seq<Grant>, d: Demand)
    requires Room(t, tl, held, 2) && GoodDemand(t, d) && d.second.Some? && Try(t, tl, d.first).0 == Granted
    ensures var (o, tl', gs) := TryDemand(t, tl, d);
            && Room(t, tl', held + gs, 0) && |gs| <= 2
            && (o != Granted ==> gs == [] && Marked(tl, tl'))
            && (o == Stale ==> tl' == tl)
  {
    hide LocksOk, Try, Marked;
    var tl1, g1, r2 := Try(t, tl, d.first).1, GrantOf(t, d.first), d.second.value;
    GrantKeepsLocks(t, tl, held, d.first);
    var (o2, tl2) := Try(t, tl1, r2);
    if o2 == Granted {
      GrantKeepsLocks(t, tl1, held + [g1], r2);
      assert held + [g1] + [GrantOf(t, r2)] == held + [g1, GrantOf(t, r2)];
    } else {
      FailureKeepsLocks(t, tl1, held + [g1], r2);
      ReleaseKeepsLocks(t, tl2, held + [g1], |held|);
      assert Without(held + [g1], |held|) == held && held + [] == held;
      RollbackMarked(t, tl, d.first, tl2);
    }
  }

  // ---------------------------------------------------------------------------
  // Failure is lasting while nothing is released

  /** What blocked a reader or a writer before still blocks it. */
  ghost predicate Harder(tl: Locks, tl': Locks) {
    && tl'.Keys == tl.Keys
    && forall n :: n in tl ==> (tl[n] < 0 ==> tl'[n] < 0) && (tl[n] != 0 ==> tl'[n] != 0)
  }

  lemma MarkedHarder(t: Tree, tl: Locks, held: seq<Grant>, tl': Locks)
    requires Room(t, tl, held, 0) && Marked(tl, tl')
    ensures Harder(tl, tl')
  {
    if tl' != tl {
      var w :| w in tl && tl[w] > 0 && tl' == tl[w := tl[w] + TREELOCK_WAIT_OFFSET];
      CountBounds(held, w);
      assert LockState(tl[w], Readers(held, w), Writers(held, w));
    }
  }

  lemma GrantHarder(t: Tree, tl: Locks, r: Request)
    requires TreeOk(t) && tl.Keys == t.nodes && GoodRequest(t, r) && Try(t, tl, r).0 == Granted
    ensures Harder(tl, Try(t, tl, r).1)
  {
    ChainInTree(t, r.nodeid);
    TryKeys(t, tl, r);
    hide TreeOk, Chain, Top;
  }

  lemma GrantsHarder(t: Tree, tl: Locks, tl': Locks, r: Request)
    requires TreeOk(t) && tl.Keys == tl'.Keys == t.nodes && GoodRequest(t, r)
    requires Try(t, tl, r).0 == Granted && Try(t, tl', r).0 == Granted && Harder(tl, tl')
    ensures Harder(Try(t, tl, r).1, Try(t, tl', r).1)
  {
    ChainInTree(t, r.nodeid);
    TryKeys(t, tl, r);
    TryKeys(t, tl', r);
    hide TreeOk, Chain, Top;
  }

  lemma AgainStays(t: Tree, tl: Locks, tl': Locks, r: Request)
    requires TreeOk(t) && tl.Keys == tl'.Keys == t.nodes && GoodRequest(t, r) && Harder(tl, tl')
    ensures Try(t, tl, r).0 == Again ==> Try(t, tl', r).0 == Again
    ensures Try(t, tl, r).0 == Granted ==> Try(t, tl', r).0 in {Granted, Again}
  {
    ChainInTree(t, r.nodeid);
    if Blocked(tl, Chain(t, r.nodeid)) {
      var i :| 0 <= i < |Chain(t, r.nodeid)| && tl[Chain(t, r.nodeid)[i]] < 0;
      assert tl'[Chain(t, r.nodeid)[i]] < 0;
    }
  }

  lemma DemandAgainStays(t: Tree, tl: Locks, tl': Locks, d: Demand)
    requires TreeOk(t) && tl.Keys == tl'.Keys == t.nodes && GoodDemand(t, d) && Harder(tl, tl')
    requires TryDemand(t, tl, d).0 == Again
    ensures TryDemand(t, tl', d).0 == Again
  {
    hide TreeOk, Try, Harder;
    AgainStays(t, tl, tl', d.first);
    TryKeys(t, tl, d.first);
    TryKeys(t, tl', d.first);
    if Try(t, tl, d.first).0 == Granted && Try(t, tl', d.first).0 == Granted {
      GrantsHarder(t, tl, tl', d.first);
      AgainStays(t, Try(t, tl, d.first).1, Try(t, tl', d.first).1, d.second.value);
    }
  }

  lemma DemandHarder(t: Tree, tl: Locks, held: seq<Grant>, d: Demand)
    requires Room(t, tl, held, 2) && GoodDemand(t, d)
    ensures Harder(tl, TryDemand(t, tl, d).1)
  {
    DemandKeepsLocks(t, tl, held, d);
    var (o, tl', gs) := TryDemand(t, tl, d);
    hide Try, Marked, LocksOk;
    if o != Granted {
      MarkedHarder(t, tl, held, tl');
    } else {
      GrantHarder(t, tl, d.first);
      TryKeys(t, tl, d.first);
      if d.second.Some? {
        GrantHarder(t, Try(t, tl, d.first).1, d.second.value);
      }
    }
  }

  // ---------------------------------------------------------------------------
  // The retry queue

  // A request waiting for its paths, or a `forget` waiting for one node to be unlocked.
  datatype Waiter =
    | PathWaiter(demand: Demand, done: bool, err: Outcome)
    | ForgetWaiter(nodeid: Id, signalled: bool)

  datatype Table = Table(tl: Locks, held: seq<Grant>, queue: seq<Waiter>)

  predicate IsPending(w: Waiter) {
    w.PathWaiter? && !w.done
  }

  function Pending(queue: seq<Waiter>): nat {
    if queue == [] then 0 else Pending(queue[..|queue| - 1]) + if IsPending(queue[|queue| - 1]) then 1 else 0
  }

  lemma {:induction false} PendingUpdate(queue: seq<Waiter>, i: nat, w: Waiter)
    requires i < |queue|
    ensures Pending(queue[i := w]) + (if IsPending(queue[i]) then 1 else 0) == Pending(queue) + if IsPending(w) then 1 else 0
  {
    var k := |queue| - 1;
    if i == k {
      assert queue[i := w][..k] == queue[..k];
    } else {
      assert queue[i := w][..k] == queue[..k][i := w];
      PendingUpdate(queue[..k], i, w);
    }
  }

  ghost predicate GoodWaiter(t: Tree, w: Waiter) {
    match w
    case PathWaiter(d, _, _) => GoodDemand(t, d)
    case ForgetWaiter(n, _) => n in t.nodes
  }

  /** The invariant of the lock manager. The room keeps pending requests within the bound. */
  ghost predicate TableOk(t: Tree, s: Table) {
    && Room(t, s.tl, s.held, 2 * Pending(s.queue))
    && forall i :: 0 <= i < |s.queue| ==> GoodWaiter(t, s.queue[i])
  }

  /** `queue_element_wakeup` for the element at `i`. */
  ghost function Poll(t: Tree, s: Table, i: nat): Table
    requires TreeOk(t) && s.tl.Keys == t.nodes && i < |s.queue| && GoodWaiter(t, s.queue[i])
  {
    match s.queue[i]
    case ForgetWaiter(n, signalled) => s.(queue := s.queue[i := ForgetWaiter(n, signalled || s.tl[n] == 0)])
    case PathWaiter(d, done, err) =>
      if done then s
      else
        var (o, tl, gs) := TryDemand(t, s.tl, d);
        if o == Again then s.(tl := tl)
        else Table(tl, s.held + gs, s.queue[i := PathWaiter(d, true, o)])
  }

  /** The waiter's turn is settled: its request is granted or given up or would still fail, and a
      waiting `forget` has been told if its node is unlocked. */
  ghost predicate Settled(t: Tree, tl: Locks, w: Waiter)
    requires TreeOk(t) && tl.Keys == t.nodes && GoodWaiter(t, w)
  {
    match w
    case ForgetWaiter(n, signalled) => tl[n] == 0 ==> signalled
    case PathWaiter(d, done, _) => done || TryDemand(t, tl, d).0 == Again
  }

  lemma SettledStays(t: Tree, tl: Locks, tl': Locks, w: Waiter)
    requires TreeOk(t) && tl.Keys == tl'.Keys == t.nodes && GoodWaiter(t, w) && Harder(tl, tl')
    requires Settled(t, tl, w)
    ensures Settled(t, tl', w)
  {
    if w.PathWaiter? && !w.done {
      DemandAgainStays(t, tl, tl', w.demand);
    }
  }

  lemma RoomLess(t: Tree, tl: Locks, held: seq<Grant>, a: nat, b: nat)
    requires Room(t, tl, held, a) && |held| + b <= MAX_PATHS
    ensures Room(t, tl, held, b)
  {
  }

  lemma {:induction false} PendingBound(queue: seq<Waiter>, i: nat)
    requires i < |queue| && IsPending(queue[i])
    ensures Pending(queue) >= 1
  {
    PendingUpdate(queue, i, ForgetWaiter(0, false));
  }

  // One turn keeps the invariant, makes nothing easier, and settles its element.
  lemma PollKeeps(t: Tree, s: Table, i: nat)
    requires TableOk(t, s) && i < |s.queue|
    ensures var s' := Poll(t, s, i);
            && TableOk(t, s') && |s'.queue| == |s.queue|
            && Harder(s.tl, s'.tl)
            && Settled(t, s'.tl, s'.queue[i])
            && (forall j :: 0 <= j < |s.queue| && j != i ==> s'.queue[j] == s.queue[j])
  {
    var w, s' := s.queue[i], Poll(t, s, i);
    assert GoodWaiter(t, w);
    hide LocksOk, Harder, TryDemand;
    PendingUpdate(s.queue, i, s'.queue[i]);
    if IsPending(w) {
      PendingBound(s.queue, i);
      RoomLess(t, s.tl, s.held, 2 * Pending(s.queue), 2);
      DemandKeepsLocks(t, s.tl, s.held, w.demand);
      DemandHarder(t, s.tl, s.held, w.demand);
      if TryDemand(t, s.tl, w.demand).0 == Again {
        assert s.held + [] == s.held;
        DemandAgainStays(t, s.tl, s'.tl, w.demand);
      }
    } else {
      HarderSelf(s.tl);
    }
  }

  lemma HarderSelf(tl: Locks)
    ensures Harder(tl, tl)
  {
  }

  /** `wake_up_queued` from the element at `i` on. */
  ghost function Wake(t: Tree, s: Table, i: nat): Table
    requires TableOk(t, s) && i <= |s.queue|
    decreases |s.queue| - i
  {
    if i == |s.queue| then s
    else
      PollKeeps(t, s, i);
      Wake(t, Poll(t, s, i), i + 1)
  }

  /** No missed wake-up: after a pass over the queue every element is settled. A request that is
      still waiting would fail again if it were tried again. */
  lemma {:induction false} NoMissedWakeup(t: Tree, s: Table, i: nat)
    requires TableOk(t, s) && i <= |s.queue|
    requires forall j :: 0 <= j < i ==> Settled(t, s.tl, s.queue[j])
    ensures TableOk(t, Wake(t, s, i)) && |Wake(t, s, i).queue| == |s.queue|
    ensures forall j :: 0 <= j < |s.queue| ==> Settled(t, Wake(t, s, i).tl, Wake(t, s, i).queue[j])
    decreases |s.queue| - i
  {
    hide Poll, LocksOk, PathsOk, Settled, GoodWaiter, Ranks;
    if i < |s.queue| {
      PollKeeps(t, s, i);
      PollSettles(t, s, i);
      NoMissedWakeup(t, Poll(t, s, i), i + 1);
    }
  }

  // One turn settles its element and leaves the ones before it settled.
  lemma PollSettles(t: Tree, s: Table, i: nat)
    requires TableOk(t, s) && i < |s.queue|
    requires forall j :: 0 <= j < i ==> Settled(t, s.tl, s.queue[j])
    ensures TableOk(t, Poll(t, s, i)) && |Poll(t, s, i).queue| == |s.queue|
    ensures forall j :: 0 <= j < i + 1 ==> Settled(t, Poll(t, s, i).tl, Poll(t, s, i).queue[j])
  {
    hide Poll, LocksOk, PathsOk, Harder, Settled, Ranks;
    PollKeeps(t, s, i);
    var s' := Poll(t, s, i);
    forall j | 0 <= j < i + 1 ensures Settled(t, s'.tl, s'.queue[j]) {
      if j < i {
        SettledStays(t, s.tl, s'.tl, s.queue[j]);
      }
    }
  }

  // ---------------------------------------------------------------------------
  // All interleavings: every critical section is a step

  datatype State = State(t: Tree, s: Table)

  datatype Step =
    | Acquire(demand: Demand)
    | Release(i: nat, j: Option<nat>)
    | Leave(k: nat)
    | AwaitUnlock(n: Id)
    | Move(n: Id, link: Option<Link>, rank: Id -> nat)
    | Add(n: Id, l: Link, rank: Id -> nat)
    | Remove(n: Id)

  function Renamed(names: map<Link, Id>, links: Links, n: Id, link: Option<Link>): map<Link, Id> {
    var rest := if n in links then names - {links[n]} else names;
    if link.Some? then rest[link.value := n] else rest
  }

  function MovedTree(t: Tree, n: Id, link: Option<Link>, rank: Id -> nat): Tree {
    Tree(t.nodes, if link.Some? then t.links[n := link.value] else t.links - {n}, Renamed(t.names, t.links, n, link), rank)
  }

  function AddedTree(t: Tree, n: Id, l: Link, rank: Id -> nat): Tree {
    Tree(t.nodes + {n}, t.links[n := l], t.names[l := n], rank)
  }

  function RemovedTree(t: Tree, n: Id): Tree {
    Tree(t.nodes - {n}, t.links - {n}, Renamed(t.names, t.links, n, None), t.rank)
  }

  ghost predicate Refers(w: Waiter, n: Id) {
    match w
    case ForgetWaiter(m, _) => m == n
    case PathWaiter(d, _, _) => d.first.nodeid == n || (d.second.Some? && d.second.value.nodeid == n)
  }

  /** When a step may be taken. A node's place in the tree changes only under its write lock, and a
      node is added only under a name that is not cached, and leaves the cache only unlocked,
      childless and with no request naming it. */
  ghost predicate Enabled(z: State, step: Step)
    requires TableOk(z.t, z.s)
  {
    match step
    case Acquire(d) => GoodDemand(z.t, d) && |z.s.held| + 2 * Pending(z.s.queue) + 2 <= MAX_PATHS
    case Release(i, j) => i < |z.s.held| && (j.Some? ==> j.value < |z.s.held| - 1)
    case Leave(k) => k < |z.s.queue| && !IsPending(z.s.queue[k])
    case AwaitUnlock(n) => n in z.t.nodes && z.s.tl[n] != 0
    case Move(n, link, rank) => n in z.t.nodes && z.s.tl[n] == TREELOCK_WRITE && TreeOk(MovedTree(z.t, n, link, rank))
    case Add(n, l, rank) => n !in z.t.nodes && l !in z.t.names && TreeOk(AddedTree(z.t, n, l, rank))
    case Remove(n) =>
      && n in z.t.nodes && z.s.tl[n] == 0 && n != FUSE_ROOT_ID
      && (forall m :: m in z.t.links ==> z.t.links[m].parent != n)
      && (forall k :: 0 <= k < |z.s.queue| ==> !Refers(z.s.queue[k], n))
  }

  ghost function Dropping(s: Table, i: nat): Table
    requires i < |s.held|
  {
    s.(tl := Unlocked(s.tl, s.held[i]), held := Without(s.held, i))
  }

  ghost function DroppingAll(s: Table, i: nat, j: Option<nat>): Table
    requires i < |s.held| && (j.Some? ==> j.value < |s.held| - 1)
  {
    if j.Some? then Dropping(Dropping(s, i), j.value) else Dropping(s, i)
  }

  ghost function Next(z: State, step: Step): State
    requires TableOk(z.t, z.s) && Enabled(z, step)
  {
    var s := z.s;
    match step
    case Acquire(d) =>
      var (o, tl, gs) := TryDemand(z.t, s.tl, d);
      if o == Again then z.(s := Table(tl, s.held, s.queue + [PathWaiter(d, false, Again)]))
      else z.(s := Table(tl, s.held + gs, s.queue))
    case Release(i, j) =>
      DroppingKeeps(z.t, s, i, j);
      z.(s := Wake(z.t, DroppingAll(s, i, j), 0))
    case Leave(k) => z.(s := s.(queue := s.queue[..k] + s.queue[k + 1..]))
    case AwaitUnlock(n) => z.(s := s.(queue := s.queue + [ForgetWaiter(n, false)]))
    case Move(n, link, rank) => z.(t := MovedTree(z.t, n, link, rank))
    case Add(n, l, rank) => State(AddedTree(z.t, n, l, rank), s.(tl := s.tl[n := 0]))
    case Remove(n) => State(RemovedTree(z.t, n), s.(tl := s.tl - {n}))
  }

  lemma DroppingKeeps(t: Tree, s: Table, i: nat, j: Option<nat>)
    requires TableOk(t, s) && i < |s.held| && (j.Some? ==> j.value < |s.held| - 1)
    ensures TableOk(t, DroppingAll(s, i, j))
  {
    hide TreeOk, LocksOk, PathsOk, Unlocked;
    ReleaseKeepsLocks(t, s.tl, s.held, i);
    if j.Some? {
      ReleaseKeepsLocks(t, Unlocked(s.tl, s.held[i]), Without(s.held, i), j.value);
    }
  }

  lemma {:induction false} ChainKept(t: Tree, t': Tree, x: Id)
    requires Ranks(t.links, t.rank) && Ranks(t'.links, t'.rank)
    requires forall m :: m in Chain(t, x) ==> m in t.links && m in t'.links && t'.links[m] == t.links[m]
    requires Top(t, x) !in t'.links
    ensures Chain(t', x) == Chain(t, x) && Top(t', x) == Top(t, x)
    decreases t.rank(x)
  {
    if x in t.links {
      assert x in Chain(t, x);
      ChainKept(t, t', t.links[x].parent);
    }
  }

  // Held paths do not meet a node that has no readers, so its place may change under them.
  lemma PathsKept(t: Tree, t': Tree, held: seq<Grant>, n: Id)
    requires TreeOk(t) && TreeOk(t') && PathsOk(t, held) && Readers(held, n) == 0
    requires n in t'.nodes || (forall i :: 0 <= i < |held| ==> held[i].nodeid != n && held[i].wnode != Some(n))
    requires forall m :: m in t.nodes && m != n ==> m in t'.nodes
    requires forall m :: m in t.links && m != n ==> m in t'.links && t'.links[m] == t.links[m]
    ensures PathsOk(t', held)
  {
    forall i | 0 <= i < |held| ensures PathOk(t', held[i]) {
      assert PathOk(t, held[i]);
      ReaderCounted(held, i, n);
      ChainInTree(t, held[i].nodeid);
      ChainKept(t, t', held[i].nodeid);
    }
  }

  // A node in no state of being locked is neither on a held path nor the end of one.
  lemma UnlockedUnheld(t: Tree, s: Table, n: Id)
    requires TableOk(t, s) && n in t.nodes && s.tl[n] == 0 && n != FUSE_ROOT_ID
    ensures Readers(s.held, n) == 0
    ensures forall i :: 0 <= i < |s.held| ==> s.held[i].nodeid != n && s.held[i].wnode != Some(n)
  {
    CountBounds(s.held, n);
    assert LockState(s.tl[n], Readers(s.held, n), Writers(s.held, n));
    forall i | 0 <= i < |s.held| ensures s.held[i].nodeid != n && s.held[i].wnode != Some(n) {
      assert PathOk(t, s.held[i]);
      ReaderCounted(s.held, i, n);
      ChainInTree(t, n);
    }
  }

  lemma RemovedOk(t: Tree, n: Id)
    requires TreeOk(t) && n != FUSE_ROOT_ID && forall m :: m in t.links ==> t.links[m].parent != n
    ensures TreeOk(RemovedTree(t, n))
  {
  }

  lemma {:induction false} NewcomerUncounted(t: Tree, held: seq<Grant>, n: Id)
    requires TreeOk(t) && PathsOk(t, held) && n !in t.nodes
    ensures Readers(held, n) == 0 && Writers(held, n) == 0
  {
    if held != [] {
      assert PathOk(t, held[|held| - 1]);
      ChainInTree(t, held[|held| - 1].nodeid);
      var rest := held[..|held| - 1];
      forall i | 0 <= i < |rest| ensures PathOk(t, rest[i]) {
        assert PathOk(t, held[i]);
      }
      NewcomerUncounted(t, rest, n);
    }
  }

  /** Safety: every step of every thread keeps the invariant. */
  lemma StepKeepsInvariant(z: State, step: Step)
    requires TableOk(z.t, z.s) && Enabled(z, step)
    ensures TableOk(Next(z, step).t, Next(z, step).s)
  {
    var s := z.s;
    match step
    case Acquire(d) => AcquireKeeps(z, d);
    case Release(i, j) =>
      DroppingKeeps(z.t, s, i, j);
      NoMissedWakeup(z.t, DroppingAll(s, i, j), 0);
    case Leave(k) => LeaveKeeps(z, k);
    case AwaitUnlock(n) =>
      assert Pending(s.queue + [ForgetWaiter(n, false)]) == Pending(s.queue) by {
        assert (s.queue + [ForgetWaiter(n, false)])[..|s.queue|] == s.queue;
      }
    case Move(n, link, rank) => MoveKeeps(z, n, link, rank);
    case Add(n, l, rank) => AddKeeps(z, n, l, rank);
    case Remove(n) => RemoveKeeps(z, n);
  }

  lemma AcquireKeeps(z: State, d: Demand)
    requires TableOk(z.t, z.s) && Enabled(z, Acquire(d))
    ensures TableOk(z.t, Next(z, Acquire(d)).s)
  {
    hide LocksOk, TryDemand;
    RoomLess(z.t, z.s.tl, z.s.held, 2 * Pending(z.s.queue), 2);
    DemandKeepsLocks(z.t, z.s.tl, z.s.held, d);
    assert z.s.held + [] == z.s.held;
    var w := PathWaiter(d, false, Again);
    assert (z.s.queue + [w])[..|z.s.queue|] == z.s.queue;
  }

  lemma {:induction false} PendingWithout(queue: seq<Waiter>, k: nat)
    requires k < |queue| && !IsPending(queue[k])
    ensures Pending(queue[..k] + queue[k + 1..]) == Pending(queue)
  {
    var m := |queue| - 1;
    if k == m {
      assert queue[..k] + queue[k + 1..] == queue[..m];
    } else {
      PendingWithout(queue[..m], k);
      var rest := queue[..m][..k] + queue[..m][k + 1..];
      assert queue[..k] + queue[k + 1..] == rest + [queue[m]];
      assert (rest + [queue[m]])[..|rest|] == rest;
    }
  }

  lemma LeaveKeeps(z: State, k: nat)
    requires TableOk(z.t, z.s) && Enabled(z, Leave(k))
    ensures TableOk(z.t, Next(z, Leave(k)).s)
  {
    hide Room;
    PendingWithout(z.s.queue, k);
  }

  lemma MoveKeeps(z: State, n: Id, link: Option<Link>, rank: Id -> nat)
    requires TableOk(z.t, z.s) && Enabled(z, Move(n, link, rank))
    ensures TableOk(MovedTree(z.t, n, link, rank), z.s)
  {
    CountBounds(z.s.held, n);
    assert LockState(z.s.tl[n], Readers(z.s.held, n), Writers(z.s.held, n));
    PathsKept(z.t, MovedTree(z.t, n, link, rank), z.s.held, n);
    WaitersKept(z.t, MovedTree(z.t, n, link, rank), z.s.queue);
    hide TreeOk, LocksOk, PathsOk;
  }

  lemma AddKeeps(z: State, n: Id, l: Link, rank: Id -> nat)
    requires TableOk(z.t, z.s) && Enabled(z, Add(n, l, rank))
    ensures TableOk(AddedTree(z.t, n, l, rank), z.s.(tl := z.s.tl[n := 0]))
  {
    hide Room, PathsOk, LocksOk, GoodWaiter;
    AddRoom(z, n, l, rank);
    WaitersKept(z.t, AddedTree(z.t, n, l, rank), z.s.queue);
  }

  lemma AddRoom(z: State, n: Id, l: Link, rank: Id -> nat)
    requires TableOk(z.t, z.s) && Enabled(z, Add(n, l, rank))
    ensures Room(AddedTree(z.t, n, l, rank), z.s.tl[n := 0], z.s.held, 2 * Pending(z.s.queue))
  {
    hide TreeOk, PathsOk, Pending, GoodWaiter;
    NewcomerUncounted(z.t, z.s.held, n);
    AddPaths(z, n, l, rank);
  }

  lemma AddPaths(z: State, n: Id, l: Link, rank: Id -> nat)
    requires TableOk(z.t, z.s) && Enabled(z, Add(n, l, rank)) && Readers(z.s.held, n) == 0
    ensures PathsOk(AddedTree(z.t, n, l, rank), z.s.held)
  {
    hide LocksOk, PathsOk, Pending, GoodWaiter;
    PathsKept(z.t, AddedTree(z.t, n, l, rank), z.s.held, n);
  }

  lemma RemoveKeeps(z: State, n: Id)
    requires TableOk(z.t, z.s) && Enabled(z, Remove(n))
    ensures TableOk(RemovedTree(z.t, n), z.s.(tl := z.s.tl - {n}))
  {
    UnlockedUnheld(z.t, z.s, n);
    RemovedOk(z.t, n);
    PathsKept(z.t, RemovedTree(z.t, n), z.s.held, n);
    WaitersKept(z.t, RemovedTree(z.t, n), z.s.queue);
    hide TreeOk, PathsOk;
  }

  lemma WaitersKept(t: Tree, t': Tree, queue: seq<Waiter>)
    requires forall i :: 0 <= i < |queue| ==> GoodWaiter(t, queue[i])
    requires forall i, m :: 0 <= i < |queue| && m in t.nodes && m !in t'.nodes ==> !Refers(queue[i], m)
    ensures forall i :: 0 <= i < |queue| ==> GoodWaiter(t', queue[i])
  {
  }

  /** The invariant holds in every state of every run. */
  lemma {:induction false} RunKeepsInvariant(states: seq<State>, steps: seq<Step>, k: nat)
    requires |states| == |steps| + 1 && k <= |steps|
    requires TableOk(states[0].t, states[0].s)
    requires forall i :: 0 <= i < |steps| && TableOk(states[i].t, states[i].s) ==>
               Enabled(states[i], steps[i]) && states[i + 1] == Next(states[i], steps[i])
    ensures TableOk(states[k].t, states[k].s)
  {
    if k > 0 {
      RunKeepsInvariant(states, steps, k - 1);
      StepKeepsInvariant(states[k - 1], steps[k - 1]);
    }
  }

  /** What the invariant means: a treelock of -1 marks exactly the node of one held write lock, which
      is on no held path and has no second writer; a waiting mark stands only while a path is held
      through the node; and 0 means that nothing is held. */
  lemma Exclusion(t: Tree, s: Table, n: Id)
    requires TableOk(t, s) && n in t.nodes
    ensures s.tl[n] == TREELOCK_WRITE <==> exists i :: 0 <= i < |s.held| && s.held[i].wnode == Some(n)
    ensures s.tl[n] == TREELOCK_WRITE ==> forall i :: 0 <= i < |s.held| ==> n !in s.held[i].path
    ensures forall i, j :: 0 <= i < j < |s.held| ==> !(s.held[i].wnode == s.held[j].wnode == Some(n))
    ensures s.tl[n] < TREELOCK_WRITE ==> exists i :: 0 <= i < |s.held| && n in s.held[i].path
    ensures s.tl[n] == 0 <==> forall i :: 0 <= i < |s.held| ==> n !in s.held[i].path && s.held[i].wnode != Some(n)
  {
    CountBounds(s.held, n);
    assert LockState(s.tl[n], Readers(s.held, n), Writers(s.held, n));
    hide TreeOk, PathsOk, LocksOk;
    CountMeans(s.held, n);
    if Writers(s.held, n) <= 1 {
      OneWriter(s.held, n);
    }
  }

  lemma CountMeans(held: seq<Grant>, n: Id)
    ensures Readers(held, n) >= 1 <==> exists i :: 0 <= i < |held| && n in held[i].path
    ensures Writers(held, n) >= 1 <==> exists i :: 0 <= i < |held| && held[i].wnode == Some(n)
  {
    CountWitness(held, n);
    if i :| 0 <= i < |held| && n in held[i].path {
      ReaderCounted(held, i, n);
    }
    if i :| 0 <= i < |held| && held[i].wnode == Some(n) {
      ReaderCounted(held, i, n);
    }
  }

  lemma OneWriter(held: seq<Grant>, n: Id)
    requires Writers(held, n) <= 1
    ensures forall i, j :: 0 <= i < j < |held| ==> !(held[i].wnode == held[j].wnode == Some(n))
  {
    forall i, j | 0 <= i < j < |held| ensures !(held[i].wnode == held[j].wnode == Some(n)) {
      CountWithout(held, i, n);
      assert Without(held, i)[j - 1] == held[j];
      ReaderCounted(Without(held, i), j - 1, n);
    }
  }

  lemma {:induction false} CountWitness(held: seq<Grant>, n: Id)
    ensures Readers(held, n) >= 1 ==> exists i :: 0 <= i < |held| && n in held[i].path
    ensures Writers(held, n) >= 1 ==> exists i :: 0 <= i < |held| && held[i].wnode == Some(n)
  {
    if held != [] {
      CountWitness(held[..|held| - 1], n);
      assert forall i :: 0 <= i < |held| - 1 ==> held[..|held| - 1][i] == held[i];
    }
  }

  ghost predicate AllSettled(z: State)
    requires TableOk(z.t, z.s)
  {
    forall k :: 0 <= k < |z.s.queue| ==> Settled(z.t, z.s.tl, z.s.queue[k])
  }

  /** A release settles every waiter, whatever the state before; and until the tree itself changes
      no other step unsettles one. So no waiter is left behind that could have been served. */
  lemma WaitersStaySettled(z: State, step: Step)
    requires TableOk(z.t, z.s) && Enabled(z, step)
    requires step.Release? || (AllSettled(z) && (step.Acquire? || step.Leave? || step.AwaitUnlock?))
    ensures TableOk(Next(z, step).t, Next(z, step).s) && AllSettled(Next(z, step))
  {
    StepKeepsInvariant(z, step);
    match step
    case Release(i, j) =>
      DroppingKeeps(z.t, z.s, i, j);
      NoMissedWakeup(z.t, DroppingAll(z.s, i, j), 0);
    case Acquire(d) => AcquireStaysSettled(z, d);
    case _ =>
  }

  lemma AcquireStaysSettled(z: State, d: Demand)
    requires TableOk(z.t, z.s) && Enabled(z, Acquire(d)) && AllSettled(z)
    requires TableOk(z.t, Next(z, Acquire(d)).s)
    ensures AllSettled(Next(z, Acquire(d)))
  {
    RoomLess(z.t, z.s.tl, z.s.held, 2 * Pending(z.s.queue), 2);
    DemandHarder(z.t, z.s.tl, z.s.held, d);
    var s' := Next(z, Acquire(d)).s;
    hide LocksOk, TryDemand, Harder;
    forall k | 0 <= k < |s'.queue| ensures Settled(z.t, s'.tl, s'.queue[k]) {
      if k < |z.s.queue| {
        SettledStays(z.t, z.s.tl, s'.tl, z.s.queue[k]);
      } else {
        DemandAgainStays(z.t, z.s.tl, s'.tl, d);
      }
    }
  }

  // ---------------------------------------------------------------------------
  // Demands that block themselves

  /** The two halves of a demand are in each other's way: one wants to write what the other reads
      or writes. `try_get_path2` lacks the check for this, as the FIXME at line 1082 says. */
  ghost predicate SelfConflict(t: Tree, d: Demand)
    requires TreeOk(t)
  {
    d.second.Some? &&
    var w1, w2 := Target(t, d.first), Target(t, d.second.value);
    || (w1.Some? && (w1.value in Chain(t, d.second.value.nodeid) || w1 == w2))
    || (w2.Some? && w2.value in Chain(t, d.first.nodeid))
  }

  ghost predicate Attached(t: Tree, d: Demand)
    requires TreeOk(t)
  {
    Top(t, d.first.nodeid) == FUSE_ROOT_ID && (d.second.Some? ==> Top(t, d.second.value.nodeid) == FUSE_ROOT_ID)
  }

  // What the first path's grant does to the treelocks the second looks at.
  lemma AfterFirst(t: Tree, tl: Locks, r: Request, n: Id)
    requires TreeOk(t) && tl.Keys == t.nodes && GoodRequest(t, r) && Try(t, tl, r).0 == Granted && n in t.nodes
    ensures var tl1 := Try(t, tl, r).1;
            && n in tl1
            && tl1[n] == (if Target(t, r) == Some(n) then TREELOCK_WRITE
                          else if n in Chain(t, r.nodeid) then tl[n] + 1 else tl[n])
            && (n in Chain(t, r.nodeid) ==> tl[n] >= 0)
  {
    ChainInTree(t, r.nodeid);
    TryKeys(t, tl, r);
    if Target(t, r).Some? {
      TargetOffPath(t, r);
    }
  }

  /** A demand that blocks itself is never granted, whatever the state of the locks; and if it gets
      its first path it is told to wait. */
  lemma SelfConflictNeverGranted(t: Tree, tl: Locks, d: Demand)
    requires TreeOk(t) && tl.Keys == t.nodes && GoodDemand(t, d) && SelfConflict(t, d)
    ensures TryDemand(t, tl, d).0 != Granted
    ensures Try(t, tl, d.first).0 == Granted ==> TryDemand(t, tl, d).0 == Again
  {
    hide Chain, Top, Target, Try, Unlocked, Ranks;
    TryKeys(t, tl, d.first);
    if Try(t, tl, d.first).0 == Granted {
      var tl1: Locks, r2: Request := Try(t, tl, d.first).1, d.second.value;
      var w1, w2 := Target(t, d.first), Target(t, r2);
      ChainInTree(t, r2.nodeid);
      if w2.Some? && (w2.value in Chain(t, d.first.nodeid) || w1 == w2) {
        TargetOffPath(t, r2);
        AfterFirst(t, tl, d.first, w2.value);
        BusyAgain(t, tl1, r2, w2.value);
      } else {
        AfterFirst(t, tl, d.first, w1.value);
        BusyAgain(t, tl1, r2, w1.value);
      }
    }
  }

  // A path through a node under a writer, or a write lock on a node that is not free, has to wait.
  lemma BusyAgain(t: Tree, tl: Locks, r: Request, n: Id)
    requires TreeOk(t) && tl.Keys == t.nodes && GoodRequest(t, r) && n in tl
    requires (n in Chain(t, r.nodeid) && tl[n] < 0) || (Target(t, r) == Some(n) && tl[n] != 0)
    ensures Try(t, tl, r).0 == Again
  {
    hide Chain, Top, Target, Taken, Ranks;
    ChainInTree(t, r.nodeid);
    if n in Chain(t, r.nodeid) && tl[n] < 0 {
      var i: nat :| i < |Chain(t, r.nodeid)| && Chain(t, r.nodeid)[i] == n;
      assert tl[Chain(t, r.nodeid)[i]] < 0;
    }
  }

  /** The first path can be had and then bars the second. */
  ghost predicate SelfBlocked(t: Tree, d: Demand)
    requires TreeOk(t)
  {
    Top(t, d.first.nodeid) == FUSE_ROOT_ID && SelfConflict(t, d)
  }

  /** With nothing held, a demand is granted exactly when its nodes are attached and it does not
      block itself, and has to wait exactly when it does. */
  lemma GrantedWhenFree(t: Tree, tl: Locks, d: Demand)
    requires TreeOk(t) && tl.Keys == t.nodes && GoodDemand(t, d)
    requires forall n :: n in tl ==> tl[n] == 0
    ensures TryDemand(t, tl, d).0 == Granted <==> Attached(t, d) && !SelfConflict(t, d)
    ensures TryDemand(t, tl, d).0 == Again <==> SelfBlocked(t, d)
  {
    hide Chain, Top, Target, Try, Unlocked, Ranks;
    FreeOutcome(t, tl, d.first);
    if SelfConflict(t, d) {
      SelfConflictNeverGranted(t, tl, d);
    } else if Top(t, d.first.nodeid) == FUSE_ROOT_ID && d.second.Some? {
      TryKeys(t, tl, d.first);
      SecondFree(t, tl, d);
      FreeOutcome(t, Try(t, tl, d.first).1, d.second.value);
    }
  }

  // The first path leaves the second free unless they are in each other's way.
  lemma SecondFree(t: Tree, tl: Locks, d: Demand)
    requires TreeOk(t) && tl.Keys == t.nodes && GoodDemand(t, d) && d.second.Some? && !SelfConflict(t, d)
    requires Try(t, tl, d.first).0 == Granted && forall n :: n in tl ==> tl[n] == 0
    ensures var tl1, r2 := Try(t, tl, d.first).1, d.second.value;
            && (forall n :: n in Chain(t, r2.nodeid) && n in tl1 ==> tl1[n] >= 0)
            && (Target(t, r2).Some? && Target(t, r2).value in tl1 ==> tl1[Target(t, r2).value] == 0)
  {
    hide Chain, Top, Target, Try, Ranks;
    var tl1: Locks, r2: Request := Try(t, tl, d.first).1, d.second.value;
    TryKeys(t, tl, d.first);
    ChainInTree(t, r2.nodeid);
    if Target(t, r2).Some? {
      TargetOffPath(t, r2);
    }
    forall n | n in Chain(t, r2.nodeid) || Target(t, r2) == Some(n)
      ensures n in tl1 && tl1[n] >= 0 && (Target(t, r2) == Some(n) ==> tl1[n] == 0)
    {
      AfterFirst(t, tl, d.first, n);
    }
  }

  // Nothing in its way, a path is granted if it leads to the root.
  lemma FreeOutcome(t: Tree, tl: Locks, r: Request)
    requires TreeOk(t) && tl.Keys == t.nodes && GoodRequest(t, r)
    requires forall n :: n in Chain(t, r.nodeid) && n in tl ==> tl[n] >= 0
    requires Target(t, r).Some? && Target(t, r).value in tl ==> tl[Target(t, r).value] == 0
    ensures Try(t, tl, r).0 == if Top(t, r.nodeid) == FUSE_ROOT_ID then Granted else Stale
  {
    ChainInTree(t, r.nodeid);
    if Target(t, r).Some? {
      TargetOffPath(t, r);
    }
  }

  // ---------------------------------------------------------------------------
  // Runs that come to rest

  // No path is held, so every treelock is 0.
  lemma AllFree(t: Tree, s: Table)
    requires TableOk(t, s) && s.held == []
    ensures forall n :: n in s.tl ==> s.tl[n] == 0
  {
    forall n | n in s.tl ensures s.tl[n] == 0 {
      assert LockState(s.tl[n], Readers(s.held, n), Writers(s.held, n));
    }
  }

  /** At rest, a settled waiter is one that blocks itself, or has been answered. */
  ghost predicate AtRest(t: Tree, w: Waiter)
    requires TreeOk(t)
  {
    match w
    case ForgetWaiter(_, signalled) => signalled
    case PathWaiter(d, done, _) => done || SelfBlocked(t, d)
  }

  lemma SettledAtRest(t: Tree, s: Table, w: Waiter)
    requires TableOk(t, s) && s.held == [] && GoodWaiter(t, w)
    ensures Settled(t, s.tl, w) <==> AtRest(t, w)
  {
    hide TryDemand, SelfBlocked, LocksOk, PathsOk;
    AllFree(t, s);
    if w.PathWaiter? {
      GrantedWhenFree(t, s.tl, w.demand);
    }
  }

  /** Whenever nothing is held, every waiter has been answered or blocks itself. */
  ghost predicate NoneForgotten(z: State)
    requires TableOk(z.t, z.s)
  {
    z.s.held == [] ==> forall k :: 0 <= k < |z.s.queue| ==> AtRest(z.t, z.s.queue[k])
  }

  /** A waiting demand that wants to write `n` twice, and so is freed when `n` leaves the cache. */
  ghost predicate WantsTwice(t: Tree, w: Waiter, n: Id) {
    IsPending(w) && w.demand.second.Some? && Target(t, w.demand.first) == Target(t, w.demand.second.value) == Some(n)
  }

  ghost predicate Unblocks(z: State, step: Step) {
    step.Remove? && z.s.held == [] && exists k :: 0 <= k < |z.s.queue| && WantsTwice(z.t, z.s.queue[k], step.n)
  }

  /** No step leaves behind a waiter that could be served with nothing held. The one exception:
      a node that a waiting demand names twice leaves the cache, which wakes nobody. */
  lemma NoneForgottenKept(z: State, step: Step)
    requires TableOk(z.t, z.s) && Enabled(z, step) && NoneForgotten(z)
    ensures TableOk(Next(z, step).t, Next(z, step).s)
    ensures NoneForgotten(Next(z, step)) <==> !Unblocks(z, step)
  {
    hide AtRest, LocksOk, PathsOk, Wake, TryDemand;
    StepKeepsInvariant(z, step);
    match step
    case Release(i, j) => ReleaseRests(z, i, j);
    case Acquire(d) => AcquireRests(z, d);
    case Leave(k) =>
    case AwaitUnlock(n) => AwaitedIsHeld(z, n);
    case Move(n, link, rank) => AwaitedIsHeld(z, n);
    case Add(n, l, rank) => AddRests(z, n, l, rank);
    case Remove(n) => RemoveRests(z, n);
  }

  lemma ReleaseRests(z: State, i: nat, j: Option<nat>)
    requires TableOk(z.t, z.s) && Enabled(z, Release(i, j))
    requires TableOk(z.t, Next(z, Release(i, j)).s)
    ensures NoneForgotten(Next(z, Release(i, j)))
  {
    hide AtRest, Settled, LocksOk, PathsOk;
    WaitersStaySettled(z, Release(i, j));
    var z' := Next(z, Release(i, j));
    if z'.s.held == [] {
      forall k | 0 <= k < |z'.s.queue| ensures AtRest(z.t, z'.s.queue[k]) {
        SettledAtRest(z.t, z'.s, z'.s.queue[k]);
      }
    }
  }

  lemma AcquireRests(z: State, d: Demand)
    requires TableOk(z.t, z.s) && Enabled(z, Acquire(d)) && NoneForgotten(z)
    requires TableOk(z.t, Next(z, Acquire(d)).s)
    ensures NoneForgotten(Next(z, Acquire(d)))
  {
    hide SelfBlocked, LocksOk, PathsOk, TryDemand;
    if z.s.held == [] {
      AllFree(z.t, z.s);
      GrantedWhenFree(z.t, z.s.tl, d);
    }
  }

  lemma AwaitedIsHeld(z: State, n: Id)
    requires TableOk(z.t, z.s) && n in z.s.tl && z.s.tl[n] != 0
    ensures z.s.held != []
  {
    if z.s.held == [] {
      AllFree(z.t, z.s);
    }
  }

  // Adding a node changes no path and takes away no target.
  lemma AddRests(z: State, n: Id, l: Link, rank: Id -> nat)
    requires TableOk(z.t, z.s) && Enabled(z, Add(n, l, rank)) && NoneForgotten(z)
    requires TableOk(AddedTree(z.t, n, l, rank), Next(z, Add(n, l, rank)).s)
    ensures NoneForgotten(Next(z, Add(n, l, rank)))
  {
    hide LocksOk, PathsOk, AtRest, GoodWaiter;
    if z.s.held == [] {
      forall k | 0 <= k < |z.s.queue| ensures AtRest(AddedTree(z.t, n, l, rank), z.s.queue[k]) {
        AddRest(z.t, n, l, rank, z.s.queue[k]);
      }
    }
  }

  lemma AddRest(t: Tree, n: Id, l: Link, rank: Id -> nat, w: Waiter)
    requires TreeOk(t) && n !in t.nodes && l !in t.names && TreeOk(AddedTree(t, n, l, rank))
    requires GoodWaiter(t, w) && AtRest(t, w)
    ensures AtRest(AddedTree(t, n, l, rank), w)
  {
    if IsPending(w) {
      var t': Tree := AddedTree(t, n, l, rank);
      var d: Demand := w.demand;
      AddedWalk(t, n, l, rank, d.first);
      AddedWalk(t, n, l, rank, d.second.value);
      BlockedMore(t, t', d);
    }
  }

  lemma AddedWalk(t: Tree, n: Id, l: Link, rank: Id -> nat, r: Request)
    requires TreeOk(t) && n !in t.nodes && l !in t.names && TreeOk(AddedTree(t, n, l, rank)) && GoodRequest(t, r)
    ensures SameWalks(t, AddedTree(t, n, l, rank), r)
    ensures Target(t, r).Some? ==> Target(AddedTree(t, n, l, rank), r) == Target(t, r)
  {
    hide Chain, Top;
    ChainInTree(t, r.nodeid);
    WalkKept(t, AddedTree(t, n, l, rank), r.nodeid, n);
  }

  ghost predicate SameWalks(t: Tree, t': Tree, r: Request)
    requires TreeOk(t) && TreeOk(t')
  {
    Chain(t', r.nodeid) == Chain(t, r.nodeid) && Top(t', r.nodeid) == Top(t, r.nodeid)
  }

  lemma BlockedMore(t: Tree, t': Tree, d: Demand)
    requires TreeOk(t) && TreeOk(t') && SelfBlocked(t, d)
    requires SameWalks(t, t', d.first) && SameWalks(t, t', d.second.value)
    requires Target(t, d.first).Some? ==> Target(t', d.first) == Target(t, d.first)
    requires Target(t, d.second.value).Some? ==> Target(t', d.second.value) == Target(t, d.second.value)
    ensures SelfBlocked(t', d) || (Target(t, d.first) == Target(t, d.second.value) == None)
  {
    hide TreeOk, Target;
  }

  // Walks that do not meet `n` stay when only its place changes.
  lemma WalkKept(t: Tree, t': Tree, x: Id, n: Id)
    requires TreeOk(t) && TreeOk(t') && x in t.nodes && n !in Chain(t, x) && Top(t, x) != n
    requires forall m :: m != n ==> (m in t.links <==> m in t'.links) && (m in t.links ==> t'.links[m] == t.links[m])
    ensures Chain(t', x) == Chain(t, x) && Top(t', x) == Top(t, x)
  {
    ChainInTree(t, x);
    ChainKept(t, t', x);
  }

  // A node without children is on no walk but its own.
  lemma {:induction false} LeafOffWalks(t: Tree, x: Id, n: Id)
    requires TreeOk(t) && x != n && forall m :: m in t.links ==> t.links[m].parent != n
    ensures n !in Chain(t, x) && Top(t, x) != n
    decreases t.rank(x)
  {
    if x in t.links {
      LeafOffWalks(t, t.links[x].parent, n);
    }
  }

  // Removing a leaf frees exactly the demands that wanted to write it twice.
  lemma RemoveRests(z: State, n: Id)
    requires TableOk(z.t, z.s) && Enabled(z, Remove(n)) && NoneForgotten(z)
    requires TableOk(RemovedTree(z.t, n), Next(z, Remove(n)).s)
    ensures NoneForgotten(Next(z, Remove(n))) <==> !Unblocks(z, Remove(n))
  {
    hide LocksOk, PathsOk, AtRest, WantsTwice, GoodWaiter;
    if z.s.held == [] {
      forall k | 0 <= k < |z.s.queue|
        ensures AtRest(RemovedTree(z.t, n), z.s.queue[k]) <==> !WantsTwice(z.t, z.s.queue[k], n)
      {
        RemoveRest(z.t, n, z.s.queue[k]);
      }
    }
  }

  lemma RemoveRest(t: Tree, n: Id, w: Waiter)
    requires TreeOk(t) && TreeOk(RemovedTree(t, n)) && forall m :: m in t.links ==> t.links[m].parent != n
    requires GoodWaiter(t, w) && !Refers(w, n) && AtRest(t, w)
    ensures AtRest(RemovedTree(t, n), w) <==> !WantsTwice(t, w, n)
  {
    hide TreeOk, Target, Chain, Top;
    if IsPending(w) {
      RemovedWalk(t, n, w.demand.first);
      RemovedWalk(t, n, w.demand.second.value);
    }
  }

  lemma RemovedWalk(t: Tree, n: Id, r: Request)
    requires TreeOk(t) && TreeOk(RemovedTree(t, n)) && GoodRequest(t, r) && r.nodeid != n
    requires forall m :: m in t.links ==> t.links[m].parent != n
    ensures SameWalks(t, RemovedTree(t, n), r) && n !in Chain(t, r.nodeid)
    ensures Target(RemovedTree(t, n), r) == if Target(t, r) == Some(n) then None else Target(t, r)
  {
    hide Chain, Top;
    LeafOffWalks(t, r.nodeid, n);
    WalkKept(t, RemovedTree(t, n), r.nodeid, n);
    TargetRemoved(t, n, r);
  }

  lemma TargetRemoved(t: Tree, n: Id, r: Request)
    requires TreeOk(t)
    ensures Target(RemovedTree(t, n), r) == if Target(t, r) == Some(n) then None else Target(t, r)
  {
  }

  /** Such a step: a demand names one cached entry twice and waits; the entry's node is forgotten;
      now the demand could be granted, and nobody tries it again. */
  lemma LeftWaiting() returns (z: State)
    ensures TableOk(z.t, z.s) && NoneForgotten(z) && Enabled(z, Remove(2)) && Unblocks(z, Remove(2))
    ensures TableOk(Next(z, Remove(2)).t, Next(z, Remove(2)).s) && !NoneForgotten(Next(z, Remove(2)))
  {
    var l, r := Link(FUSE_ROOT_ID, "a"), Request(FUSE_ROOT_ID, Some("a"), true);
    var t := Tree({FUSE_ROOT_ID, 2}, map[2 := l], map[l := 2], (n: Id) => n);
    var w := PathWaiter(Demand(r, Some(r)), false, Again);
    z := State(t, Table(map[FUSE_ROOT_ID := 0, 2 := 0], [], [w]));
    assert WantsTwice(t, w, 2) && SelfBlocked(t, w.demand);
    assert forall n :: Readers([], n) == 0 && Writers([], n) == 0;
    assert z.s.queue[..0] == [];
    assert Pending(z.s.queue) == 1;
    NoneForgottenKept(z, Remove(2));
  }

  /** In every state of every run that starts with no waiter: when nothing is held, the only
      requests still waiting are those that block themselves. */
  lemma {:induction false} OnlySelfBlockedWait(states: seq<State>, steps: seq<Step>, k: nat)
    requires |states| == |steps| + 1 && k <= |steps|
    requires TableOk(states[0].t, states[0].s) && states[0].s.queue == []
    requires forall i :: 0 <= i < |steps| && TableOk(states[i].t, states[i].s) ==>
               Enabled(states[i], steps[i]) && states[i + 1] == Next(states[i], steps[i]) && !Unblocks(states[i], steps[i])
    ensures TableOk(states[k].t, states[k].s) && NoneForgotten(states[k])
  {
    hide TableOk, NoneForgotten, Enabled, Next, Unblocks;
    if k == 0 {
      NobodyWaits(states[0]);
    } else {
      OnlySelfBlockedWait(states, steps, k - 1);
      NoneForgottenKept(states[k - 1], steps[k - 1]);
    }
  }

  lemma NobodyWaits(z: State)
    requires TableOk(z.t, z.s) && z.s.queue == []
    ensures NoneForgotten(z)
  {
  }

  // ---------------------------------------------------------------------------
  // What the attempts mean, node by node

  /** `m` is a node that a path from `n` goes through: `n` or one above it, the root left out. */
  ghost predicate OnTheWay(t: Tree, n: Id, m: Id)
    requires Ranks(t.links, t.rank)
  {
    m in t.links && IsBelow(t.links, t.rank, m, n)
  }

  lemma {:induction false} ChainIs(t: Tree, n: Id, m: Id)
    requires Ranks(t.links, t.rank)
    ensures m in Chain(t, n) <==> OnTheWay(t, n, m)
    decreases t.rank(n)
  {
    if n in t.links {
      ChainIs(t, t.links[n].parent, m);
    }
  }

  lemma {:induction false} TopIs(t: Tree, n: Id)
    requires TreeOk(t)
    ensures Top(t, n) == FUSE_ROOT_ID <==> IsBelow(t.links, t.rank, FUSE_ROOT_ID, n)
    decreases t.rank(n)
  {
    if n in t.links {
      TopIs(t, t.links[n].parent);
    }
  }

  /** The node a request locks for writing is the one that hangs at its name, if it asks for that. */
  lemma TargetIs(t: Tree, r: Request, n: Id)
    requires TreeOk(t)
    ensures Target(t, r) == Some(n) <==> r.write && r.name.Some? && n in t.links && t.links[n] == Link(r.nodeid, r.name.value)
  {
  }

  /** One attempt. It is granted exactly when the node to be written is free, no node on the way is under a
      writer or has one waiting, and the way ends at the root; then those nodes have one reader more and
      the written one is at -1. It has to wait exactly when one of them is in its way, and then at most
      the readers of the node to be written learn that a writer waits. */
  lemma TryMeans(t: Tree, tl: Locks, r: Request)
    requires TreeOk(t) && tl.Keys == t.nodes && GoodRequest(t, r)
    ensures var (o, tl'), w := Try(t, tl, r), Target(t, r);
            && tl'.Keys == t.nodes && (w.Some? ==> w.value in tl)
            && (o == Granted <==>
                  && (w.Some? ==> tl[w.value] == 0) && (forall m :: m in tl && OnTheWay(t, r.nodeid, m) ==> tl[m] >= 0)
                  && IsBelow(t.links, t.rank, FUSE_ROOT_ID, r.nodeid))
            && (o == Again <==>
                  (w.Some? && tl[w.value] != 0) || exists m :: m in tl && OnTheWay(t, r.nodeid, m) && tl[m] < 0)
            && (o == Granted ==> forall m :: m in tl ==>
                  tl'[m] == if w == Some(m) then -1 else if OnTheWay(t, r.nodeid, m) then tl[m] + 1 else tl[m])
            && (o != Granted ==> tl' == if w.Some? && tl[w.value] > 0 then tl[w.value := tl[w.value] - 0x8000_0000] else tl)
  {
    hide IsBelow, Ranks, Target;
    TryKeys(t, tl, r);
    ChainInTree(t, r.nodeid);
    TopIs(t, r.nodeid);
    if Target(t, r).Some? {
      TargetOffPath(t, r);
    }
    forall m ensures m in Chain(t, r.nodeid) <==> OnTheWay(t, r.nodeid, m) {
      ChainIs(t, r.nodeid, m);
    }
    hide OnTheWay, Chain, Top, TreeOk;
    BlockedIs(tl, Chain(t, r.nodeid));
  }

  /** The same of one attempt that locks `w` for writing, if any. */
  ghost predicate Meant(t: Tree, tl: Locks, r: Request, w: Option<Id>, o: Outcome, tl': Locks)
    requires Ranks(t.links, t.rank)
  {
    && tl'.Keys == tl.Keys
    && (w.Some? ==> w.value in tl && (tl[w.value] != 0 ==> o == Again))
    && (o == Granted ==>
          IsBelow(t.links, t.rank, FUSE_ROOT_ID, r.nodeid) && forall m :: m in tl ==>
            && (OnTheWay(t, r.nodeid, m) ==> tl[m] >= 0)
            && tl'[m] == if w == Some(m) then -1 else if OnTheWay(t, r.nodeid, m) then tl[m] + 1 else tl[m])
    && (o == Again ==> (w.Some? && tl[w.value] != 0) || exists m :: m in tl && OnTheWay(t, r.nodeid, m) && tl[m] < 0)
    && (o == Stale ==> !IsBelow(t.links, t.rank, FUSE_ROOT_ID, r.nodeid))
    && (o != Granted ==> tl' == if w.Some? && tl[w.value] > 0 then tl[w.value := tl[w.value] - 0x8000_0000] else tl)
  }

  lemma TryMeant(t: Tree, tl: Locks, r: Request)
    requires TreeOk(t) && tl.Keys == t.nodes && GoodRequest(t, r)
    ensures Meant(t, tl, r, Target(t, r), Try(t, tl, r).0, Try(t, tl, r).1)
  {
    hide Try, Target, OnTheWay, IsBelow, Ranks;
    TryMeans(t, tl, r);
  }

  lemma BlockedIs(tl: Locks, path: seq<Id>)
    requires forall n :: n in path ==> n in tl
    ensures Blocked(tl, path) <==> exists m :: m in path && tl[m] < 0
  {
    if m :| m in path && tl[m] < 0 {
      var i :| 0 <= i < |path| && path[i] == m;
      assert tl[path[i]] < 0;
    }
  }

  /** A release, node by node: the written node is free again; on the way each node has one reader less,
      and the last one to leave also takes the mark of a waiting writer away; nothing else changes. */
  lemma ReleaseMeans(t: Tree, tl: Locks, held: seq<Grant>, i: nat, m: Id)
    requires TreeOk(t) && tl.Keys == t.nodes && LocksOk(tl, held) && i < |held| && PathOk(t, held[i]) && m in tl
    ensures var tl' := Unlocked(tl, held[i]);
            && m in tl'
            && tl'[m] == if held[i].wnode == Some(m) then 0
                         else if !OnTheWay(t, held[i].nodeid, m) then tl[m]
                         else if Readers(held, m) == 1 then 0 else tl[m] - 1
  {
    ChainIs(t, held[i].nodeid, m);
    HeldStates(t, tl, held, i);
    hide TreeOk, Chain, Top, OnTheWay, Ranks;
    ReaderCounted(held, i, m);
    CountBounds(held, m);
    assert LockState(tl[m], Readers(held, m), Writers(held, m));
  }

  // Nothing stands in the way of a request.
  ghost predicate Clear(t: Tree, tl: Locks, r: Request)
    requires TreeOk(t) && tl.Keys == t.nodes && GoodRequest(t, r)
  {
    && (Target(t, r).Some? ==> Target(t, r).value in tl ==> tl[Target(t, r).value] == 0)
    && forall m :: m in tl && OnTheWay(t, r.nodeid, m) ==> tl[m] >= 0
  }

  /** One path or two, as one condition on the locks before: granted exactly when nothing stands in the way
      of either, they are not in each other's way and both lead to the root. */
  lemma DemandMeans(t: Tree, tl: Locks, d: Demand)
    requires TreeOk(t) && tl.Keys == t.nodes && GoodDemand(t, d)
    ensures var (o, tl', gs) := TryDemand(t, tl, d);
            var first := Clear(t, tl, d.first);
            var both := first && (d.second.Some? ==> Clear(t, tl, d.second.value) && !SelfConflict(t, d));
            && (o == Granted <==> both && Attached(t, d))
            && (o == Again <==> !first || (!both && Top(t, d.first.nodeid) == FUSE_ROOT_ID))
            && |gs| == (if o != Granted then 0 else if d.second.Some? then 2 else 1)
            && (o == Granted ==> gs[0] == GrantOf(t, d.first) && (d.second.Some? ==> gs[1] == GrantOf(t, d.second.value)))
  {
    hide Chain, Top, Target, Try, Unlocked, Ranks, Clear;
    ClearGranted(t, tl, d.first);
    if Try(t, tl, d.first).0 == Granted && d.second.Some? {
      TryKeys(t, tl, d.first);
      if SelfConflict(t, d) {
        SelfConflictNeverGranted(t, tl, d);
      } else {
        ClearSecond(t, tl, d);
        ClearGranted(t, Try(t, tl, d.first).1, d.second.value);
      }
    }
  }

  lemma ClearGranted(t: Tree, tl: Locks, r: Request)
    requires TreeOk(t) && tl.Keys == t.nodes && GoodRequest(t, r)
    ensures Try(t, tl, r).0 == if !Clear(t, tl, r) then Again else if Top(t, r.nodeid) == FUSE_ROOT_ID then Granted else Stale
  {
    hide OnTheWay, Try, Target, Top;
    TryMeans(t, tl, r);
    TopIs(t, r.nodeid);
  }

  // The first path's locks leave the second path's way as it was, unless they are in each other's way.
  lemma ClearSecond(t: Tree, tl: Locks, d: Demand)
    requires TreeOk(t) && tl.Keys == t.nodes && GoodDemand(t, d) && d.second.Some? && !SelfConflict(t, d)
    requires Try(t, tl, d.first).0 == Granted && Try(t, tl, d.first).1.Keys == t.nodes
    ensures Clear(t, Try(t, tl, d.first).1, d.second.value) <==> Clear(t, tl, d.second.value)
  {
    hide Chain, Top, Target, Try, Ranks, OnTheWay;
    var tl1: Locks, r1: Request, r2: Request := Try(t, tl, d.first).1, d.first, d.second.value;
    forall m | m in tl
      ensures m in Chain(t, r1.nodeid) <==> OnTheWay(t, r1.nodeid, m)
      ensures m in Chain(t, r2.nodeid) <==> OnTheWay(t, r2.nodeid, m)
      ensures m in tl1 && tl1[m] == if Target(t, r1) == Some(m) then -1 else if m in Chain(t, r1.nodeid) then tl[m] + 1 else tl[m]
      ensures m in Chain(t, r1.nodeid) ==> tl[m] >= 0
    {
      ChainIs(t, r1.nodeid, m);
      ChainIs(t, r2.nodeid, m);
      AfterFirst(t, tl, r1, m);
    }
    assert Target(t, r2).Some? ==> Target(t, r2) != Target(t, r1);
  }

  /** The requests of a demand, in order. */
  function Paths(d: Demand): seq<Request> {
    [d.first] + if d.second.Some? then [d.second.value] else []
  }

  /** What a demand that is answered gains: one grant for each of its paths, for that path's node and the
      node at its name. */
  ghost predicate Gained(t: Tree, before: seq<Grant>, after: seq<Grant>, d: Demand)
    requires TreeOk(t)
  {
    && |after| == |before| + |Paths(d)| && after[..|before|] == before
    && forall k :: 0 <= k < |Paths(d)| ==>
         var g, r := after[|before| + k], Paths(d)[k];
         && g.nodeid == r.nodeid && g.wnode == Target(t, r)
         && forall m :: m in g.path <==> OnTheWay(t, r.nodeid, m)
  }

  /** The answer a waiter gets: granted exactly if it gained its paths, stale exactly if it gained nothing
      because one of its nodes is not attached to the root. */
  ghost predicate RightAnswer(t: Tree, before: seq<Grant>, after: seq<Grant>, d: Demand, err: Outcome)
    requires TreeOk(t)
  {
    && (err == Granted || err == Stale)
    && (err == Granted <==> Gained(t, before, after, d))
    && (err == Stale <==> after == before)
    && (err == Granted <==> Attached(t, d))
  }

  lemma DemandAnswers(t: Tree, tl: Locks, held: seq<Grant>, d: Demand)
    requires TreeOk(t) && tl.Keys == t.nodes && GoodDemand(t, d)
    ensures var (o, tl', gs) := TryDemand(t, tl, d);
            if o == Again then gs == [] else RightAnswer(t, held, held + gs, d, o)
  {
    hide Chain, Top, Target, Try, Ranks, Clear, TryDemand, OnTheWay;
    DemandMeans(t, tl, d);
    forall m
      ensures m in Chain(t, d.first.nodeid) <==> OnTheWay(t, d.first.nodeid, m)
      ensures d.second.Some? ==> (m in Chain(t, d.second.value.nodeid) <==> OnTheWay(t, d.second.value.nodeid, m))
    {
      ChainIs(t, d.first.nodeid, m);
      if d.second.Some? { ChainIs(t, d.second.value.nodeid, m); }
    }
    var gs: seq<Grant> := TryDemand(t, tl, d).2;
    assert |gs| == 0 ==> held + gs == held;
    assert (held + gs)[..|held|] == held;
  }

  /** One turn of one waiter, as the waiter sees it. */
  ghost predicate Turned(t: Tree, s: Table, s': Table, i: nat)
    requires TreeOk(t) && i < |s.queue|
  {
    && |s'.queue| == |s.queue| && (forall k :: 0 <= k < |s.queue| && k != i ==> s'.queue[k] == s.queue[k])
    && match s.queue[i]
       case ForgetWaiter(n, signalled) =>
         s'.tl == s.tl && s'.held == s.held && s'.queue[i] == ForgetWaiter(n, signalled || (n in s.tl && s.tl[n] == 0))
       case PathWaiter(d, done, err) =>
         && s'.queue[i].PathWaiter? && s'.queue[i].demand == d
         && (done ==> s' == s)
         && (!done && s'.queue[i].done ==> RightAnswer(t, s.held, s'.held, d, s'.queue[i].err))
         && (!s'.queue[i].done ==> s'.held == s.held && s'.queue == s.queue)
  }

  lemma PollTurns(t: Tree, s: Table, i: nat)
    requires TreeOk(t) && s.tl.Keys == t.nodes && i < |s.queue| && GoodWaiter(t, s.queue[i])
    ensures Turned(t, s, Poll(t, s, i), i)
    ensures IsPending(s.queue[i]) ==>
      (Poll(t, s, i).queue[i].done <==> TryDemand(t, s.tl, s.queue[i].demand).0 != Again)
  {
    hide TryDemand, RightAnswer;
    if s.queue[i].PathWaiter? {
      DemandAnswers(t, s.tl, s.held, s.queue[i].demand);
      assert s.held + [] == s.held;
    }
  }

  // A waiter keeps what it waits for, and an answer once given.
  predicate StillWaits(w: Waiter, w': Waiter) {
    match w
    case ForgetWaiter(n, signalled) => w'.ForgetWaiter? && w'.nodeid == n && (signalled ==> w'.signalled)
    case PathWaiter(d, done, _) => w'.PathWaiter? && w'.demand == d && (done ==> w' == w)
  }

  /** A pass from element `i` on leaves the earlier elements alone, every waiter in its place, and every
      path held. */
  lemma {:induction false} PassKeeps(t: Tree, s: Table, i: nat)
    requires TableOk(t, s) && i <= |s.queue|
    ensures var s' := Wake(t, s, i);
            && |s'.queue| == |s.queue| && s'.queue[..i] == s.queue[..i] && s.held <= s'.held
            && forall k :: 0 <= k < |s.queue| ==> StillWaits(s.queue[k], s'.queue[k])
    decreases |s.queue| - i
  {
    hide Poll, LocksOk, PathsOk, RightAnswer, GoodWaiter, Harder, Settled;
    if i < |s.queue| {
      PollKeeps(t, s, i);
      PollTurned(t, s, i);
      var s1: Table := Poll(t, s, i);
      PassKeeps(t, s1, i + 1);
      assert Wake(t, s, i).queue[..i] == Wake(t, s1, i + 1).queue[..i + 1][..i];
      assert s1.queue[..i + 1][..i] == s.queue[..i];
    }
  }

  lemma PollTurned(t: Tree, s: Table, i: nat)
    requires TableOk(t, s) && i < |s.queue|
    ensures TreeOk(t) && Turned(t, s, Poll(t, s, i), i) && s.held <= Poll(t, s, i).held
    ensures IsPending(s.queue[i]) ==>
      (Poll(t, s, i).queue[i].done <==> TryDemand(t, s.tl, s.queue[i].demand).0 != Again)
  {
    hide TryDemand, RightAnswer, LocksOk, PathsOk;
    PollTurns(t, s, i);
  }

  /** First come, first served: the first request in the queue that waits is decided on the locks as they
      are when the pass begins. */
  lemma {:induction false} FirstInLine(t: Tree, s: Table, i: nat, k: nat)
    requires TableOk(t, s) && i <= k < |s.queue| && IsPending(s.queue[k])
    requires forall j :: i <= j < k ==> !IsPending(s.queue[j])
    ensures var q := Wake(t, s, i).queue;
            k < |q| && q[k].PathWaiter? && (q[k].done <==> TryDemand(t, s.tl, s.queue[k].demand).0 != Again)
    decreases k - i
  {
    hide LocksOk, PathsOk, RightAnswer, TryDemand, Poll, Harder, Settled, Ranks;
    PollKeeps(t, s, i);
    PollTurned(t, s, i);
    var s1: Table := Poll(t, s, i);
    PassKeeps(t, s1, i + 1);
    if i == k {
      assert Wake(t, s1, i + 1).queue[k] == Wake(t, s1, i + 1).queue[..i + 1][k];
    } else {
      FirstInLine(t, s1, i + 1, k);
    }
  }

  // ---------------------------------------------------------------------------
  // The code

  /** The walk from `n`, cut off at `end`. */
  ghost function ChainTo(t: Tree, n: Id, end: Option<Id>): seq<Id>
    requires Ranks(t.links, t.rank)
    decreases t.rank(n)
  {
    if n in t.links && end != Some(n) then [n] + ChainTo(t, t.links[n].parent, end) else []
  }

  // The walk from `n` does end at `end` or at the root.
  ghost predicate Stops(t: Tree, n: Id, end: Option<Id>)
    requires Ranks(t.links, t.rank)
    decreases t.rank(n)
  {
    n == FUSE_ROOT_ID || end == Some(n) || (n in t.links && Stops(t, t.links[n].parent, end))
  }

  lemma {:induction false} ChainToPrefix(t: Tree, n: Id, end: Option<Id>)
    requires TreeOk(t) && n in t.nodes
    ensures ChainTo(t, n, end) <= Chain(t, n)
    ensures end.None? ==> ChainTo(t, n, end) == Chain(t, n)
    ensures end.None? && Top(t, n) == FUSE_ROOT_ID ==> Stops(t, n, end)
    decreases t.rank(n)
  {
    if n in t.links {
      ChainToPrefix(t, t.links[n].parent, end);
    }
  }

  // A walk that has passed `done` and stands at `m`.
  ghost predicate WalkedTo(t: Tree, n: Id, done: seq<Id>, m: Id)
    requires Ranks(t.links, t.rank)
  {
    Chain(t, n) == done + Chain(t, m) && Top(t, n) == Top(t, m)
  }

  lemma {:induction false} WalkBack(t: Tree, n: Id, done: seq<Id>, m: Id)
    requires TreeOk(t) && n in t.nodes && m in t.nodes && WalkedTo(t, n, done, m)
    ensures ChainTo(t, n, Some(m)) == done && Stops(t, n, Some(m))
    decreases t.rank(n)
  {
    hide WalkedTo, Chain, Top;
    if done == [] {
      SameWalk(t, n, m);
    } else {
      WalkedOn(t, n, done, m);
      WalkBack(t, t.links[n].parent, done[1..], m);
    }
  }

  // Where a walk that has passed some nodes set out from, and went first.
  lemma WalkedOn(t: Tree, n: Id, done: seq<Id>, m: Id)
    requires TreeOk(t) && n in t.nodes && m in t.nodes && WalkedTo(t, n, done, m) && done != []
    ensures n in t.links && done[0] == n && n != m
    ensures t.links[n].parent in t.nodes && WalkedTo(t, t.links[n].parent, done[1..], m)
  {
    assert Chain(t, n)[0] == done[0];
    assert |Chain(t, n)| > |Chain(t, m)|;
    assert Chain(t, n)[1..] == Chain(t, t.links[n].parent);
    assert (done + Chain(t, m))[1..] == done[1..] + Chain(t, m);
  }

  // Walks of equal nodes and equal ends start at the same node.
  lemma SameWalk(t: Tree, n: Id, m: Id)
    requires TreeOk(t) && n in t.nodes && m in t.nodes && WalkedTo(t, n, [], m)
    ensures n == m
  {
    assert Chain(t, n) == Chain(t, m);
    ChainInTree(t, n);
    ChainInTree(t, m);
    if n in t.links {
      assert Chain(t, n)[0] == n;
    }
    if m in t.links {
      assert Chain(t, m)[0] == m;
    }
  }

  lemma TakenMore(tl: Locks, done: seq<Id>, m: Id)
    requires m in tl && m !in done
    ensures m in Taken(tl, done) && Taken(tl, done)[m] == tl[m] && Taken(tl, done)[m := tl[m] + 1] == Taken(tl, done + [m])
  {
  }

  lemma DroppedMore(tl: Locks, done: seq<Id>, m: Id)
    requires m in tl && m !in done
    ensures Dropped(tl, done)[m] == tl[m] && Dropped(tl, done)[m := Down(tl[m])] == Dropped(tl, done + [m])
  {
  }

  lemma DroppedNone(tl: Locks)
    ensures Dropped(tl, []) == tl
  {
  }

  lemma UnlockStep(t: Tree, base: Locks, n: Id, end: Option<Id>, done: seq<Id>, m: Id)
    requires TreeOk(t) && base.Keys == t.nodes && n in t.nodes && m in t.nodes && Stops(t, m, end)
    requires ChainTo(t, n, end) == done + ChainTo(t, m, end)
    requires end != Some(m) && m != FUSE_ROOT_ID
    ensures m in t.links && t.links[m].parent in t.nodes && t.rank(t.links[m].parent) < t.rank(m)
    ensures Stops(t, t.links[m].parent, end)
    ensures ChainTo(t, n, end) == done + [m] + ChainTo(t, t.links[m].parent, end)
    ensures m in ChainTo(t, n, end)
    ensures m in Dropped(base, done) && Dropped(base, done)[m] == base[m]
    ensures Dropped(base, done)[m := Down(base[m])] == Dropped(base, done + [m])
  {
    assert done + ChainTo(t, m, end) == done + [m] + ChainTo(t, t.links[m].parent, end);
    NotYetPassed(t, n, end, done, m);
    hide TreeOk, Chain, ChainTo, Stops;
    DroppedMore(base, done, m);
  }

  lemma NotYetPassed(t: Tree, n: Id, end: Option<Id>, done: seq<Id>, m: Id)
    requires TreeOk(t) && n in t.nodes && m in t.links && end != Some(m)
    requires ChainTo(t, n, end) == done + ChainTo(t, m, end)
    ensures m in ChainTo(t, n, end) && m !in done
  {
    assert ChainTo(t, m, end)[0] == m;
    assert ChainTo(t, n, end)[|done|] == m;
    ChainInTree(t, n);
    ChainToPrefix(t, n, end);
    hide TreeOk, ChainTo, Chain, Stops;
    assert Chain(t, n)[|done|] == m;
    assert forall i :: 0 <= i < |done| ==> Chain(t, n)[i] == done[i];
  }


  lemma RanksIn(t: Tree)
    requires TreeOk(t)
    ensures Ranks(t.links, t.rank)
  {
  }

  lemma WalkStopped(t: Tree, m: Id, end: Option<Id>)
    requires TreeOk(t) && (end == Some(m) || m == FUSE_ROOT_ID)
    ensures ChainTo(t, m, end) == []
  {
  }

  lemma WalkStart(t: Tree, base: Locks, n: Id)
    requires TreeOk(t)
    ensures WalkedTo(t, n, [], n) && Taken(base, []) == base
  {
    assert [] + Chain(t, n) == Chain(t, n);
  }

  // The target is busy: the request fails, marking it if it is held by readers.
  lemma TargetBusy(t: Tree, tl: Locks, r: Request)
    requires TreeOk(t) && tl.Keys == t.nodes && GoodRequest(t, r) && Target(t, r).Some?
    ensures Target(t, r).value in tl && Target(t, r).value !in Chain(t, r.nodeid)
    ensures var w := Target(t, r).value;
            tl[w] != 0 ==> Try(t, tl, r) == (Again, if tl[w] > 0 then tl[w := tl[w] + TREELOCK_WAIT_OFFSET] else tl)
  {
    TargetOffPath(t, r);
  }

  lemma StepUp(t: Tree, base: Locks, n: Id, done: seq<Id>, m: Id)
    requires TreeOk(t) && base.Keys == t.nodes && n in t.nodes && m in t.links && WalkedTo(t, n, done, m)
    ensures t.links[m].parent in t.nodes && WalkedTo(t, n, done + [m], t.links[m].parent)
    ensures m in Chain(t, n)
    ensures m in Taken(base, done) && Taken(base, done)[m] == base[m]
    ensures Taken(base, done)[m := base[m] + 1] == Taken(base, done + [m])
    ensures t.rank(t.links[m].parent) < t.rank(m)
  {
    hide WalkedTo, Chain, Top, Taken;
    WalkedUp(t, n, done, m);
    TakenMore(base, done, m);
  }

  lemma WalkedUp(t: Tree, n: Id, done: seq<Id>, m: Id)
    requires TreeOk(t) && n in t.nodes && m in t.links && WalkedTo(t, n, done, m)
    ensures WalkedTo(t, n, done + [m], t.links[m].parent) && m in Chain(t, n) && m !in done
  {
    ChainInTree(t, n);
    assert Chain(t, n)[|done|] == m;
    assert m !in done by {
      assert forall i :: 0 <= i < |done| ==> Chain(t, n)[i] == done[i];
    }
    assert done + Chain(t, m) == done + [m] + Chain(t, t.links[m].parent);
  }

  // An attempt may take its locks only if its target is free.
  ghost predicate TargetFree(t: Tree, tl: Locks, r: Request)
    requires TreeOk(t) && tl.Keys == t.nodes && GoodRequest(t, r)
  {
    Target(t, r).Some? ==> Target(t, r).value in tl && tl[Target(t, r).value] == 0 && Target(t, r).value !in Chain(t, r.nodeid)
  }

  // Stopped at `m`, which is nameless or blocked: `unlock_path` can undo what was done.
  lemma GiveBack(t: Tree, tl: Locks, r: Request, done: seq<Id>, m: Id)
    requires TreeOk(t) && tl.Keys == t.nodes && GoodRequest(t, r) && TargetFree(t, tl, r)
    requires m in t.nodes && m != FUSE_ROOT_ID && WalkedTo(t, r.nodeid, done, m) && forall n :: n in done ==> n in tl && tl[n] >= 0
    requires m in t.links ==> tl[m] < 0
    ensures ChainTo(t, r.nodeid, Some(m)) == done && Stops(t, r.nodeid, Some(m))
    ensures Target(t, r).Some? ==> Target(t, r).value !in done
    ensures var tl1, w := Taken(WriteLocked(tl, Target(t, r)), done), Target(t, r);
            && tl1.Keys == t.nodes
            && (w.Some? ==> tl1[w.value] == TREELOCK_WRITE)
            && (forall n :: n in done ==> tl1[n] !in {0, TREELOCK_WAIT_OFFSET, TREELOCK_WRITE})
            && Unlocked(tl1, Grant(r.nodeid, w, done)) == tl
            && Try(t, tl, r) == (if m in t.links then Again else Stale, tl)
  {
    WalkBack(t, r.nodeid, done, m);
    WalkFails(t, tl, r, done, m);
    hide TreeOk, Ranks, ChainTo, Stops, Chain, Top, Try;
    UndoGrant(tl, Grant(r.nodeid, Target(t, r), done), Taken(WriteLocked(tl, Target(t, r)), done));
    hide Unlocked, Dropped, Marked;
  }

  lemma WalkFails(t: Tree, tl: Locks, r: Request, done: seq<Id>, m: Id)
    requires TreeOk(t) && tl.Keys == t.nodes && GoodRequest(t, r) && TargetFree(t, tl, r)
    requires m in t.nodes && m != FUSE_ROOT_ID && WalkedTo(t, r.nodeid, done, m) && forall n :: n in done ==> n in tl && tl[n] >= 0
    requires m in t.links ==> tl[m] < 0
    ensures Try(t, tl, r) == (if m in t.links then Again else Stale, tl)
    ensures forall n :: n in done ==> n in Chain(t, r.nodeid)
  {
    ChainInTree(t, r.nodeid);
    assert forall n :: n in done ==> n in done + Chain(t, m);
    if m in t.links {
      assert Chain(t, r.nodeid)[|done|] == m;
      assert Blocked(tl, Chain(t, r.nodeid));
    } else {
      assert Chain(t, r.nodeid) == done;
    }
  }

  // Arrived at the root: the request is granted.
  lemma WalkDone(t: Tree, tl: Locks, r: Request, done: seq<Id>)
    requires TreeOk(t) && tl.Keys == t.nodes && GoodRequest(t, r) && TargetFree(t, tl, r)
    requires WalkedTo(t, r.nodeid, done, FUSE_ROOT_ID) && forall n :: n in done ==> n in tl && tl[n] >= 0
    ensures Try(t, tl, r) == (Granted, Taken(WriteLocked(tl, Target(t, r)), done)) && Try(t, tl, r).1.Keys == t.nodes
  {
    TryKeys(t, tl, r);
    assert Chain(t, r.nodeid) == done;
  }

  // A held path meets what `unlock_path` asks for.
  lemma HeldCanBeFreed(t: Tree, tl: Locks, held: seq<Grant>, i: nat)
    requires TreeOk(t) && tl.Keys == t.nodes && LocksOk(tl, held) && PathsOk(t, held) && i < |held|
    ensures var g := held[i];
            && g.nodeid in t.nodes && Stops(t, g.nodeid, None) && ChainTo(t, g.nodeid, None) == g.path
            && (g.wnode.Some? ==> g.wnode.value in t.nodes && tl[g.wnode.value] == TREELOCK_WRITE && g.wnode.value !in g.path)
            && (forall n :: n in g.path ==> n in t.nodes && tl[n] !in {0, TREELOCK_WAIT_OFFSET, TREELOCK_WRITE})
  {
    assert PathOk(t, held[i]);
    HeldStates(t, tl, held, i);
    ChainToPrefix(t, held[i].nodeid, None);
  }

  // When the second attempt has failed, the first path is still locked and can be given back.
  lemma FirstStillHeld(t: Tree, tl: Locks, held: seq<Grant>, d: Demand, tl2: Locks)
    requires TreeOk(t) && tl.Keys == t.nodes && GoodDemand(t, d) && d.second.Some?
    requires LocksOk(tl, held) && |held| + 2 <= MAX_PATHS
    requires Try(t, tl, d.first).0 == Granted && Try(t, tl, d.first).1.Keys == t.nodes
    requires Try(t, Try(t, tl, d.first).1, d.second.value).0 != Granted
    requires tl2 == Try(t, Try(t, tl, d.first).1, d.second.value).1
    ensures tl2.Keys == t.nodes
    ensures var g := GrantOf(t, d.first);
            && Stops(t, g.nodeid, None) && ChainTo(t, g.nodeid, None) == g.path
            && (g.wnode.Some? ==> g.wnode.value in t.nodes && tl2[g.wnode.value] == TREELOCK_WRITE && g.wnode.value !in g.path)
            && (forall n :: n in g.path ==> n in t.nodes && tl2[n] !in {0, TREELOCK_WAIT_OFFSET, TREELOCK_WRITE})
  {
    var g, tl1 := GrantOf(t, d.first), Try(t, tl, d.first).1;
    GrantKeepsLocks(t, tl, held, d.first);
    FailureKeepsLocks(t, tl1, held + [g], d.second.value);
    hide LocksOk, Try;
    assert (held + [g])[|held|] == g;
    HeldStates(t, tl2, held + [g], |held|);
    ChainToPrefix(t, g.nodeid, None);
  }

  class PathLocks {
    var t: Tree
    var treelock: Locks
    var lockq: seq<Waiter>
    ghost var held: seq<Grant>

    ghost function Now(): Table
      reads this
    {
      Table(treelock, held, lockq)
    }

    ghost predicate Shape()
      reads this
    {
      TreeOk(t) && treelock.Keys == t.nodes
    }

    ghost predicate Valid()
      reads this
    {
      TableOk(t, Now())
    }

    /** `unlock_path`: its three assertions about each treelock are the second precondition. */
    method UnlockPath(nodeid: Id, wnode: Option<Id>, end: Option<Id>)
      requires Shape() && nodeid in t.nodes && Stops(t, nodeid, end)
      requires wnode.Some? ==> wnode.value in t.nodes && treelock[wnode.value] == TREELOCK_WRITE && wnode.value !in ChainTo(t, nodeid, end)
      requires forall n :: n in ChainTo(t, nodeid, end) ==>
                 n in t.nodes && treelock[n] !in {0, TREELOCK_WAIT_OFFSET, TREELOCK_WRITE}
      modifies `treelock
      ensures treelock == Unlocked(old(treelock), Grant(nodeid, wnode, ChainTo(t, nodeid, end)))
    {
      hide TreeOk, Ranks, Dropped, ChainTo, Stops;
      RanksIn(t);
      if wnode.Some? {
        treelock := treelock[wnode.value := 0];
      }
      var node := nodeid;
      ghost var base, done := treelock, [];
      DroppedNone(base);
      while end != Some(node) && node != FUSE_ROOT_ID
        invariant TreeOk(t) && node in t.nodes && Stops(t, node, end)
        invariant ChainTo(t, nodeid, end) == done + ChainTo(t, node, end)
        invariant treelock == Dropped(base, done)
        decreases t.rank(node)
      {
        UnlockStep(t, base, nodeid, end, done, node);
        var lock := treelock[node] - 1;
        if lock == TREELOCK_WAIT_OFFSET {
          lock := 0;
        }
        treelock := treelock[node := lock];
        done := done + [node];
        node := t.links[node].parent;
      }
      WalkStopped(t, node, end);
      assert done == ChainTo(t, nodeid, end);
    }

    /** `try_get_path` with `need_lock`: lock the target, then every node up to the root; give all of
        it back on meeting a blocked or a nameless node. */
    method TryGetPath(r: Request) returns (o: Outcome, wnode: Option<Id>)
      requires Shape() && GoodRequest(t, r)
      modifies `treelock
      ensures Shape() && (o, treelock) == Try(t, old(treelock), r)
      ensures wnode == Target(t, r)
      ensures wnode == if r.write && Link(r.nodeid, r.name.value) in t.names then Some(t.names[Link(r.nodeid, r.name.value)]) else None
      ensures Meant(t, old(treelock), r, wnode, o, treelock)
    {
      hide Try, Taken, TreeOk, Ranks, WalkedTo, Meant;
      RanksIn(t);
      TryMeant(t, treelock, r);
      wnode := Target(t, r);
      ghost var tl := treelock;
      if wnode.Some? {
        TargetBusy(t, tl, r);
        if treelock[wnode.value] != 0 {
          if treelock[wnode.value] > 0 {
            treelock := treelock[wnode.value := treelock[wnode.value] + TREELOCK_WAIT_OFFSET];
          }
          return Again, wnode;
        }
        treelock := treelock[wnode.value := TREELOCK_WRITE];
      }
      var node := r.nodeid;
      ghost var base, done := treelock, [];
      WalkStart(t, base, node);
      while node != FUSE_ROOT_ID
        invariant node in t.nodes && WalkedTo(t, r.nodeid, done, node)
        invariant treelock == Taken(base, done) && base == WriteLocked(tl, wnode)
        invariant TreeOk(t) && TargetFree(t, tl, r) && wnode == Target(t, r)
        invariant forall n :: n in done ==> n in tl && tl[n] >= 0
        decreases t.rank(node)
      {
        if node !in t.links {
          GiveBack(t, tl, r, done, node);
          UnlockPath(r.nodeid, wnode, Some(node));
          return Stale, wnode;
        }
        StepUp(t, base, r.nodeid, done, node);
        if treelock[node] < 0 {
          GiveBack(t, tl, r, done, node);
          UnlockPath(r.nodeid, wnode, Some(node));
          return Again, wnode;
        }
        treelock := treelock[node := treelock[node] + 1];
        done := done + [node];
        node := t.links[node].parent;
      }
      WalkDone(t, tl, r, done);
      o := Granted;
    }

    /** `try_get_path2`, or `try_get_path` for a demand of one path. */
    method TryGetPaths(d: Demand) returns (o: Outcome, ghost gs: seq<Grant>)
      requires Shape() && GoodDemand(t, d)
      requires |held| + 2 <= MAX_PATHS && LocksOk(treelock, held)
      modifies `treelock
      ensures Shape() && (o, treelock, gs) == TryDemand(t, old(treelock), d)
    {
      hide Try, LocksOk, Ranks, Chain, Target, Meant;
      ghost var tl := treelock;
      var w1, w2;
      TryKeys(t, tl, d.first);
      o, w1 := TryGetPath(d.first);
      gs := [];
      if o == Granted {
        gs := [GrantOf(t, d.first)];
        if d.second.Some? {
          ghost var tl1 := treelock;
          o, w2 := TryGetPath(d.second.value);
          if o == Granted {
            gs := [GrantOf(t, d.first), GrantOf(t, d.second.value)];
          } else {
            FirstStillHeld(t, tl, held, d, treelock);
            assert Grant(d.first.nodeid, w1, ChainTo(t, d.first.nodeid, None)) == GrantOf(t, d.first);
            UnlockPath(d.first.nodeid, w1, None);
            gs := [];
          }
        }
      }
    }

    /** `queue_element_wakeup`. */
    method QueueElementWakeup(i: nat)
      requires Valid() && i < |lockq|
      modifies `treelock, `lockq, `held
      ensures Valid() && Now() == Poll(t, old(Now()), i)
      ensures Turned(t, old(Now()), Now(), i)
      ensures old(IsPending(lockq[i])) ==> (lockq[i].done <==> TryDemand(t, old(treelock), old(lockq[i].demand)).0 != Again)
    {
      PollTurned(t, Now(), i);
      PollKeeps(t, Now(), i);
      assert GoodWaiter(t, lockq[i]);
      match lockq[i]
      case ForgetWaiter(n, signalled) =>
        if treelock[n] == 0 {
          lockq := lockq[i := ForgetWaiter(n, true)];
        } else {
          lockq := lockq[i := ForgetWaiter(n, signalled)];
        }
      case PathWaiter(d, done, err) =>
        if done {
          return;
        }
        PendingBound(lockq, i);
        hide TryDemand, LocksOk, TreeOk;
        ghost var gs;
        var o;
        o, gs := TryGetPaths(d);
        if o == Again {
          return;
        }
        held := held + gs;
        lockq := lockq[i := PathWaiter(d, true, o)];
    }

    /** `wake_up_queued`. */
    method WakeUpQueued()
      requires Valid()
      modifies `treelock, `lockq, `held
      ensures Valid() && Now() == Wake(t, old(Now()), 0)
    {
      hide Room, Poll, TreeOk, GoodWaiter;
      ghost var s := Now();
      var i := 0;
      while i < |lockq|
        invariant Valid() && i <= |lockq| && |lockq| == |s.queue|
        invariant Wake(t, s, 0) == Wake(t, Now(), i)
      {
        PollKeeps(t, Now(), i);
        QueueElementWakeup(i);
        i := i + 1;
      }
    }

    /** `get_path_common` and `get_path2` up to the point where the thread has its outcome or waits. */
    method GetPaths(d: Demand) returns (o: Outcome)
      requires Valid() && Enabled(State(t, Now()), Acquire(d))
      modifies `treelock, `lockq, `held
      ensures Valid() && State(t, Now()) == Next(old(State(t, Now())), Acquire(d))
      ensures o == TryDemand(t, old(treelock), d).0
      ensures lockq == if o == Again then old(lockq) + [PathWaiter(d, false, Again)] else old(lockq)
      ensures if o == Again then held == old(held) else RightAnswer(t, old(held), held, d, o)
    {
      hide TryDemand, LocksOk, PathsOk, Ranks, RightAnswer;
      ghost var gs;
      StepKeepsInvariant(State(t, Now()), Acquire(d));
      DemandAnswers(t, treelock, held, d);
      o, gs := TryGetPaths(d);
      if o == Again {
        lockq := lockq + [PathWaiter(d, false, Again)];
      } else {
        held := held + gs;
      }
    }

    // Give back one held path: `unlock_path` and the count of it.
    method UnlockHeld(nodeid: Id, wnode: Option<Id>, ghost i: nat)
      requires Valid() && i < |held| && held[i].nodeid == nodeid && held[i].wnode == wnode
      modifies `treelock, `held
      ensures Valid() && Now() == Dropping(old(Now()), i)
    {
      hide LocksOk, TreeOk, Unlocked, Without;
      assert TableOk(t, Now());
      DroppingKeeps(t, Now(), i, None);
      HeldCanBeFreed(t, treelock, held, i);
      UnlockPath(nodeid, wnode, None);
      held := Without(held, i);
    }

    /** `free_path_wrlock` and `free_path2`: release one or two held paths, then retry the queue. */
    method FreePaths(nodeid1: Id, wnode1: Option<Id>, second: Option<(Id, Option<Id>)>, ghost i: nat, ghost j: Option<nat>)
      requires Valid() && Enabled(State(t, Now()), Release(i, j))
      requires held[i].nodeid == nodeid1 && held[i].wnode == wnode1 && (second.Some? <==> j.Some?)
      requires j.Some? ==> second.value == (Without(held, i)[j.value].nodeid, Without(held, i)[j.value].wnode)
      modifies `treelock, `lockq, `held
      ensures Valid() && State(t, Now()) == Next(old(State(t, Now())), Release(i, j))
      ensures AllSettled(State(t, Now()))
      ensures (if j.Some? then Without(Without(old(held), i), j.value) else Without(old(held), i)) <= held
      ensures |lockq| == |old(lockq)| && forall k :: 0 <= k < |lockq| ==> StillWaits(old(lockq[k]), lockq[k])
    {
      hide TableOk, AllSettled, Wake, Unlocked, StillWaits;
      ghost var z := State(t, Now());
      WaitersStaySettled(z, Release(i, j));
      UnlockHeld(nodeid1, wnode1, i);
      if second.Some? {
        UnlockHeld(second.value.0, second.value.1, j.value);
      }
      assert Now() == DroppingAll(z.s, i, j);
      PassKeeps(t, Now(), 0);
      WakeUpQueued();
    }
  }
}
