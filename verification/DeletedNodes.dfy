/** Nodes that leave the cache against the path locks: the assertion of `delete_node` that a node
    goes only unlocked, derived from what the kernel looks up and what is held
    (tagfs/FUSE_driver/libfuse/lib/fuse.c, lines 816-836 and 1364-1400). */
module DeletedNodes {
  import opened Options
  import opened Forest
  import opened NodeCache
  import opened TreeLocks

  /** The tree of the two tables, as the locks see it. */
  function TreeOf(nodes: Nodes, names: Names, rank: Id -> nat): Tree {
    Tree(nodes.Keys, LinksOf(nodes), names, rank)
  }

  // A consistent cache is a tree the locks can walk.
  lemma TreeOfOk(nodes: Nodes, names: Names, rank: Id -> nat)
    requires Consistent(nodes, names, rank)
    ensures TreeOk(TreeOf(nodes, names, rank))
  {
    hide Counted, Kids;
    LooseRanks(nodes, names, rank);
    hide Ranks, Ranked;
    forall n | n in LinksOf(nodes) ensures LinksOf(nodes)[n].parent in nodes {
      assert nodes[n].link.value in names;
    }
  }

  /** Every held path and every write lock is on behalf of a node the kernel still looks up. */
  predicate HeldLookedUp(nodes: Nodes, held: seq<Grant>) {
    forall i :: 0 <= i < |held| ==>
      && IsLookedUp(nodes, held[i].nodeid)
      && (held[i].wnode.Some? ==> IsLookedUp(nodes, held[i].wnode.value))
  }

  predicate IsLookedUp(nodes: Nodes, n: Id) {
    n in nodes && nodes[n].nlookup > 0
  }

  // What a walk passes lies above where it starts, also where other links have changed.
  lemma {:induction false} ChainAbove(t: Tree, n: Id, m: Id, links: Links, rank: Id -> nat)
    requires Ranks(t.links, t.rank) && Ranks(links, rank) && m in Chain(t, n)
    requires forall k :: k in Chain(t, n) ==> k in links && k in t.links && links[k] == t.links[k]
    ensures IsBelow(links, rank, m, n)
    decreases t.rank(n)
  {
    if m != n {
      assert n in Chain(t, n);
      ChainAbove(t, t.links[n].parent, m, links, rank);
    }
  }

  /** Places change only under write locks. Then a node that leaves the cache is on no held path, and
      it is unlocked exactly if nobody holds it for writing. */
  lemma LeavingUnlocked(nodes: Nodes, names: Names, rank: Id -> nat, s: Table, moved: set<Id>,
                        links: Links, rank1: Id -> nat, nodes': Nodes, names': Names, rank': Id -> nat, n: Id)
    requires Consistent(nodes', names', rank') && PlacedBy(nodes', links) && Ranks(links, rank1)
    requires TableOk(TreeOf(nodes, names, rank), s)
    requires forall m :: m in LinksOf(nodes) && m !in moved ==> m in links && links[m] == LinksOf(nodes)[m]
    requires forall m :: m in moved && m in nodes ==> s.tl[m] == TREELOCK_WRITE
    requires forall i :: 0 <= i < |s.held| ==> IsLookedUp(nodes', s.held[i].nodeid)
    requires n in nodes && n !in nodes'
    ensures s.tl[n] == 0 <==> forall i :: 0 <= i < |s.held| ==> s.held[i].wnode != Some(n)
  {
    var t := TreeOf(nodes, names, rank);
    Exclusion(t, s, n);
    hide Consistent, PlacedBy, LocksOk, GoodWaiter, Pending;
    forall i: nat | i < |s.held| ensures n !in s.held[i].path {
      if n in s.held[i].path {
        PathUnmoved(t, s, i, moved, links);
        ChainAbove(t, s.held[i].nodeid, n, links, rank1);
        AncestorsSurvive(links, rank1, nodes', names', rank', n, s.held[i].nodeid);
      }
    }
  }

  // No node under a write lock is on a held path, so held paths keep their links.
  lemma PathUnmoved(t: Tree, s: Table, i: nat, moved: set<Id>, links: Links)
    requires TableOk(t, s) && i < |s.held|
    requires forall m :: m in t.links && m !in moved ==> m in links && links[m] == t.links[m]
    requires forall m :: m in moved && m in t.nodes ==> s.tl[m] == TREELOCK_WRITE
    ensures s.held[i].path == Chain(t, s.held[i].nodeid)
    ensures forall k :: k in s.held[i].path ==> k in links && k in t.links && links[k] == t.links[k]
  {
    assert PathOk(t, s.held[i]);
    ChainInTree(t, s.held[i].nodeid);
    HeldStates(t, s.tl, s.held, i);
  }

  /** The assertion of `delete_node` during a forget: whatever leaves the cache is unlocked. What
      makes it so is that the last lookup of a node is given back only once the node is unlocked,
      and that then every holder's nodes are still looked up. */
  lemma ForgetDeletesUnlocked(nodes: Nodes, names: Names, rank: Id -> nat, x: Id, left: nat, nodes': Nodes, names': Names, s: Table)
    requires Consistent(nodes, names, rank) && Consistent(nodes', names', rank)
    requires x in nodes && x != FUSE_ROOT_ID && Shrunk(nodes[x := nodes[x].(nlookup := left)], nodes')
    requires TableOk(TreeOf(nodes, names, rank), s)
    requires HeldLookedUp(nodes, s.held) && (left == 0 ==> s.tl[x] == 0)
    ensures HeldLookedUp(nodes', s.held)
    ensures forall n :: n in nodes && n !in nodes' ==> s.tl[n] == 0
  {
    hide Consistent, TreeOk, LocksOk, PathsOk, GoodWaiter, Pending, LinksOf;
    PlacesStay(nodes, x, left, nodes');
    RanksIn(TreeOf(nodes, names, rank));
    StillLookedUp(TreeOf(nodes, names, rank), nodes, x, left, nodes', s);
    forall n | n in nodes && n !in nodes' ensures s.tl[n] == 0 {
      LeavingUnlocked(nodes, names, rank, s, {}, LinksOf(nodes), rank, nodes', names', rank, n);
    }
  }

  lemma PlacesStay(nodes: Nodes, x: Id, left: nat, nodes': Nodes)
    requires x in nodes && Shrunk(nodes[x := nodes[x].(nlookup := left)], nodes')
    ensures PlacedBy(nodes', LinksOf(nodes))
  {
  }

  // A forget of an unlocked node, or of some of its lookups, leaves every holder's nodes looked up.
  lemma StillLookedUp(t: Tree, nodes: Nodes, x: Id, left: nat, nodes': Nodes, s: Table)
    requires TableOk(t, s) && x in t.nodes && x in nodes && x != FUSE_ROOT_ID
    requires Shrunk(nodes[x := nodes[x].(nlookup := left)], nodes')
    requires HeldLookedUp(nodes, s.held) && (left == 0 ==> s.tl[x] == 0)
    ensures HeldLookedUp(nodes', s.held)
  {
    if left == 0 {
      UnlockedUnheld(t, s, x);
    }
    hide TableOk, TreeOk;
    forall n | IsLookedUp(nodes, n) && (n != x || left > 0) ensures IsLookedUp(nodes', n) {
      assert nodes[x := nodes[x].(nlookup := left)][n].nlookup > 0;
    }
  }
}
