/** The reference-counted forest of cached nodes: `hash_name`, `unhash_name`, `delete_node`,
    `unref_node`, `find_node`, `forget_node`, `unlink_node`, `remove_node`, `rename_node` and
    `exchange_node` (tagfs/FUSE_driver/libfuse/lib/fuse.c, lines 733-907 and 1364-1487), for the
    setting `remember=0`.

    The id table and the name table appear as the finite maps that LinearHash shows them to be. */
module NodeCache {
  import opened Options
  import opened Forest
  import opened NodeIds

  datatype Node = Node(generation: nat, refctr: int, nlookup: nat, link: Option<Link>)

  type Nodes = map<Id, Node>
  type Names = map<Link, Id>

  function LinksOf(nodes: Nodes): Links {
    map n | n in nodes && nodes[n].link.Some? :: nodes[n].link.value
  }

  /** The entries of the name table that hang under `p`. */
  ghost function Kids(names: Names, p: Id): set<Link> {
    set l | l in names && l.parent == p
  }

  /** What a node is kept for: its children, and the kernel's lookups counted as one. */
  ghost function Refs(names: Names, n: Id, nlookup: nat): nat {
    |Kids(names, n)| + if nlookup > 0 then 1 else 0
  }

  /** Both tables describe the same forest: no entry dangles and every name is unique. */
  ghost predicate Linked(nodes: Nodes, names: Names) {
    && FUSE_ROOT_ID in nodes && nodes[FUSE_ROOT_ID].nlookup > 0 && nodes[FUSE_ROOT_ID].link.None?
    && (forall l {:trigger names[l]} :: l in names ==> names[l] in nodes && nodes[names[l]].link == Some(l))
    && (forall l {:trigger l.parent, l in names} :: l in names ==> l.parent in nodes)
    && (forall n {:trigger nodes[n].link.value} :: n in nodes && nodes[n].link.Some? ==>
          nodes[n].link.value in names && names[nodes[n].link.value] == n)
  }

  ghost predicate Ranked(names: Names, rank: Id -> nat) {
    forall l {:trigger names[l]} :: l in names ==> rank(l.parent) < rank(names[l])
  }

  /** Every count is right, except that `pending` still counts one reference to be dropped. */
  ghost predicate Counted(nodes: Nodes, names: Names, pending: Option<Id>) {
    forall n {:trigger nodes[n].refctr} :: n in nodes ==>
      nodes[n].refctr == Refs(names, n, nodes[n].nlookup) + if pending == Some(n) then 1 else 0
  }

  /** Consistent up to work in progress: the nodes in `doomed` have lost their last reference but
      are still in the id table, and `pending` has one reference left to drop. */
  ghost predicate Loose(nodes: Nodes, names: Names, rank: Id -> nat, doomed: set<Id>, pending: Option<Id>) {
    && Linked(nodes, names)
    && Ranked(names, rank)
    && Counted(nodes, names, pending)
    && (pending.Some? ==> pending.value in nodes && pending.value !in doomed)
    && (forall n :: n in doomed ==> n in nodes)
    && (forall n {:trigger nodes[n].refctr} :: n in nodes ==> (n in doomed <==> nodes[n].refctr == 0))
  }

  ghost predicate Consistent(nodes: Nodes, names: Names, rank: Id -> nat) {
    Loose(nodes, names, rank, {}, None)
  }

  lemma LooseRanks(nodes: Nodes, names: Names, rank: Id -> nat)
    requires Linked(nodes, names)
    ensures Ranked(names, rank) <==> Ranks(LinksOf(nodes), rank)
  {
    if Ranks(LinksOf(nodes), rank) {
      forall l | l in names ensures rank(l.parent) < rank(names[l]) {
        assert names[l] in LinksOf(nodes);
      }
    }
  }

  /** Dropping references removes nodes that nothing looked up and touches nothing else but counts. */
  ghost predicate Shrunk(nodes: Nodes, nodes': Nodes) {
    && (forall n :: n in nodes' ==> n in nodes && nodes'[n] == nodes[n].(refctr := nodes'[n].refctr))
    && (forall n :: n in nodes && nodes[n].nlookup > 0 ==> n in nodes')
  }

  lemma KidsAdd(names: Names, l: Link, n: Id, p: Id)
    requires l !in names
    ensures |Kids(names[l := n], p)| == |Kids(names, p)| + if p == l.parent then 1 else 0
  {
    if p == l.parent {
      assert Kids(names[l := n], p) == Kids(names, p) + {l};
    } else {
      assert Kids(names[l := n], p) == Kids(names, p);
    }
  }

  lemma KidsRemove(names: Names, l: Link, p: Id)
    requires l in names
    ensures |Kids(names - {l}, p)| == |Kids(names, p)| - if p == l.parent then 1 else 0
  {
    if p == l.parent {
      assert Kids(names, p) == Kids(names - {l}, p) + {l};
    } else {
      assert Kids(names - {l}, p) == Kids(names, p);
    }
  }

  lemma HasKid(names: Names, l: Link)
    requires l in names
    ensures |Kids(names, l.parent)| > 0
  {
    assert l in Kids(names, l.parent);
  }

  // Taking a name out of the table leaves the parent with one reference too many.
  lemma NameDropped(nodes: Nodes, names: Names, rank: Id -> nat, doomed: set<Id>, n: Id, l: Link)
    requires Loose(nodes, names, rank, doomed, None) && n in nodes && nodes[n].link == Some(l)
    ensures Loose(nodes[n := nodes[n].(link := None)], names - {l}, rank, doomed, Some(l.parent))
    ensures rank(l.parent) < rank(n)
  {
    assert l == nodes[n].link.value;
    assert l.parent in nodes && rank(l.parent) < rank(n);
    HasKid(names, l);
    assert nodes[l.parent].refctr > 0;
    assert l.parent !in doomed;
    CountsAfterDrop(nodes, names, n, l);
    LinkedAfterDrop(nodes, names, n, l);
    hide Linked, Counted, Kids;
  }

  lemma LinkedAfterDrop(nodes: Nodes, names: Names, n: Id, l: Link)
    requires Linked(nodes, names) && n in nodes && nodes[n].link == Some(l)
    ensures Linked(nodes[n := nodes[n].(link := None)], names - {l})
  {
    assert l == nodes[n].link.value;
  }

  lemma CountsAfterDrop(nodes: Nodes, names: Names, n: Id, l: Link)
    requires Counted(nodes, names, None) && l in names && n in nodes
    ensures Counted(nodes[n := nodes[n].(link := None)], names - {l}, Some(l.parent))
  {
    forall m {:trigger Kids(names - {l}, m)} ensures |Kids(names - {l}, m)| == |Kids(names, m)| - if m == l.parent then 1 else 0 {
      KidsRemove(names, l, m);
    }
  }

  // Only the counts of node `n` change.
  lemma NodeRecounted(nodes: Nodes, names: Names, rank: Id -> nat, doomed: set<Id>, pending: Option<Id>,
                      n: Id, v: Node, doomed': set<Id>, pending': Option<Id>)
    requires Loose(nodes, names, rank, doomed, pending) && n in nodes && v.link == nodes[n].link
    requires pending in {None, Some(n)} && pending' in {None, Some(n)}
    requires n == FUSE_ROOT_ID ==> v.nlookup > 0
    requires v.refctr == Refs(names, n, v.nlookup) + if pending' == Some(n) then 1 else 0
    requires doomed' == if v.refctr == 0 then doomed + {n} else doomed - {n}
    ensures Loose(nodes[n := v], names, rank, doomed', pending')
  {
    hide Kids;
    LinksSame(nodes, names, n, v);
    hide Linked;
  }

  lemma LinksSame(nodes: Nodes, names: Names, n: Id, v: Node)
    requires Linked(nodes, names) && n in nodes && v.link == nodes[n].link
    requires n == FUSE_ROOT_ID ==> v.nlookup > 0
    ensures Linked(nodes[n := v], names)
  {
  }

  lemma CountOf(nodes: Nodes, names: Names, pending: Option<Id>, n: Id)
    requires Counted(nodes, names, pending) && n in nodes
    ensures nodes[n].refctr == Refs(names, n, nodes[n].nlookup) + if pending == Some(n) then 1 else 0
  {
  }

  // One reference of the node goes, perhaps the last.
  lemma RefDropped(nodes: Nodes, names: Names, rank: Id -> nat, doomed: set<Id>, n: Id)
    requires Loose(nodes, names, rank, doomed, Some(n))
    ensures var nodes' := nodes[n := nodes[n].(refctr := nodes[n].refctr - 1)];
            Loose(nodes', names, rank, if nodes'[n].refctr == 0 then doomed + {n} else doomed, None)
  {
    hide Linked, Ranked, Counted, Kids;
    CountOf(nodes, names, Some(n), n);
    var v := nodes[n].(refctr := nodes[n].refctr - 1);
    assert n == FUSE_ROOT_ID ==> v.nlookup > 0 by { RootLooked(nodes, names); }
    assert doomed - {n} == doomed;
    NodeRecounted(nodes, names, rank, doomed, Some(n), n, v, if v.refctr == 0 then doomed + {n} else doomed - {n}, None);
  }

  lemma RootLooked(nodes: Nodes, names: Names)
    requires Linked(nodes, names)
    ensures FUSE_ROOT_ID in nodes && nodes[FUSE_ROOT_ID].nlookup > 0 && nodes[FUSE_ROOT_ID].link == None
  {
  }

  lemma DoomedUnused(nodes: Nodes, names: Names, rank: Id -> nat, doomed: set<Id>, n: Id)
    requires Loose(nodes, names, rank, doomed, None) && n in doomed
    ensures nodes[n].nlookup == 0
  {
    assert nodes[n].refctr == 0;
  }

  // A detached node without references has no children either and can leave the id table.
  lemma NodeDropped(nodes: Nodes, names: Names, rank: Id -> nat, doomed: set<Id>, n: Id)
    requires Loose(nodes, names, rank, doomed + {n}, None) && n !in doomed && nodes[n].link == None
    ensures Loose(nodes - {n}, names, rank, doomed, None)
    ensures n != FUSE_ROOT_ID
  {
    forall l | l in names ensures l.parent != n {
      HasKid(names, l);
    }
  }

  // Putting a free name into the table, with its reference on the parent.
  lemma NameAdded(nodes: Nodes, names: Names, rank: Id -> nat, n: Id, l: Link)
    requires Linked(nodes, names) && Ranked(names, rank) && n in nodes && nodes[n].link == None && n != FUSE_ROOT_ID
    requires l !in names && l.parent in nodes && rank(l.parent) < rank(n)
    ensures Linked(HashedNodes(nodes, n, l), names[l := n]) && Ranked(names[l := n], rank)
  {
  }

  lemma CountsAfterHash(nodes: Nodes, names: Names, n: Id, l: Link)
    requires Counted(nodes, names, None) && n in nodes && l !in names && l.parent in nodes
    ensures Counted(HashedNodes(nodes, n, l), names[l := n], None)
  {
    forall m {:trigger Kids(names[l := n], m)} ensures |Kids(names[l := n], m)| == |Kids(names, m)| + if m == l.parent then 1 else 0 {
      KidsAdd(names, l, n, m);
    }
    hide Kids;
  }

  /** `hash_name` on the id table's side: one more reference to the parent, and the link. */
  function HashedNodes(nodes: Nodes, n: Id, l: Link): (r: Nodes)
    requires n in nodes && l.parent in nodes
    ensures r.Keys == nodes.Keys
  {
    var nodes1 := nodes[l.parent := nodes[l.parent].(refctr := nodes[l.parent].refctr + 1)];
    nodes1[n := nodes1[n].(link := Some(l))]
  }

  lemma FoundNode(nodes: Nodes, names: Names, rank: Id -> nat, l: Link)
    requires Consistent(nodes, names, rank) && l in names
    ensures names[l] in nodes && nodes[names[l]].link == Some(l) && names[l] != FUSE_ROOT_ID && l.parent in nodes
    ensures rank(l.parent) < rank(names[l])
  {
  }

  // The counts stay right when a node (still without references, or known) gets a free name.
  lemma NamePlaced(nodes: Nodes, names: Names, rank: Id -> nat, doomed: set<Id>, n: Id, l: Link)
    requires Loose(nodes, names, rank, doomed, None) && n in nodes && nodes[n].link == None && n != FUSE_ROOT_ID
    requires l !in names && l.parent in nodes && l.parent !in doomed && rank(l.parent) < rank(n)
    ensures Loose(HashedNodes(nodes, n, l), names[l := n], rank, doomed, None)
  {
    NameAdded(nodes, names, rank, n, l);
    CountsAfterHash(nodes, names, n, l);
    assert nodes[l.parent].refctr > 0;
    hide Linked, Counted, Kids;
  }

  /** `inc_nlookup`: the first lookup counts as a reference. */
  function Looked(n: Node): Node {
    n.(refctr := if n.nlookup == 0 then n.refctr + 1 else n.refctr, nlookup := n.nlookup + 1)
  }

  lemma LookupCounted(nodes: Nodes, names: Names, rank: Id -> nat, doomed: set<Id>, n: Id)
    requires Loose(nodes, names, rank, doomed, None) && n in nodes
    ensures Loose(nodes[n := Looked(nodes[n])], names, rank, doomed - {n}, None)
  {
    hide Linked, Ranked, Counted, Kids;
    CountOf(nodes, names, None, n);
    NodeRecounted(nodes, names, rank, doomed, None, n, Looked(nodes[n]), doomed - {n}, None);
  }

  // ---------------------------------------------------------------------------
  // Lookups answered and forgotten

  // What an operation means for the kernel's counts: a lookup answered with a node, lookups of one
  // given back, or neither.
  datatype Event = Answer(n: Id) | Forget(n: Id, k: nat) | Other

  // The lookups of `n` that an event adds or takes away.
  function Change(e: Event, n: Id): int {
    match e
    case Answer(m) => if m == n then 1 else 0
    case Forget(m, k) => if m == n then -(k as int) else 0
    case Other => 0
  }

  /** Every count is what it was and the event's change; only an answer makes a node, from no lookups. */
  ghost predicate Tallied(nodes: Nodes, e: Event, nodes': Nodes) {
    forall n {:trigger nodes'[n].nlookup} :: n in nodes' ==>
      && (n in nodes || e == Answer(n))
      && nodes'[n].nlookup == (if n in nodes then nodes[n].nlookup else 0) + Change(e, n)
  }

  function Balance(events: seq<Event>, n: Id): int {
    if events == [] then 0 else Balance(events[..|events| - 1], n) + Change(events[|events| - 1], n)
  }

  /** Over any run of operations in which a node stays cached once it is there, its count is the one it
      had at the start, if any, and the lookups answered since less those given back. */
  lemma {:induction false} LookupsBalance(states: seq<Nodes>, events: seq<Event>, n: Id)
    requires |states| == |events| + 1
    requires forall i :: 0 <= i < |events| ==> Tallied(states[i], events[i], states[i + 1])
    requires forall i :: 1 <= i < |states| ==> n in states[i]
    requires n in states[0] || events != []
    ensures states[|events|][n].nlookup == (if n in states[0] then states[0][n].nlookup else 0) + Balance(events, n)
  {
    if events != [] {
      var k := |events| - 1;
      assert Tallied(states[k], events[k], states[k + 1]);
      assert states[k + 1][n].nlookup == (if n in states[k] then states[k][n].nlookup else 0) + Change(events[k], n);
      if k > 0 {
        LookupsBalance(states[..k + 1], events[..k], n);
      } else {
        assert events[..k] == [];
      }
    }
  }

  lemma RelinkedTallied(nodes: Nodes, nodes': Nodes, moved: set<Id>)
    requires Relinked(nodes, nodes', moved)
    ensures Tallied(nodes, Other, nodes')
  {
  }

  // Forgetting lookups leaves one reference to drop when it forgets the last of them.
  lemma LookupsForgotten(nodes: Nodes, names: Names, rank: Id -> nat, n: Id, k: nat)
    requires Consistent(nodes, names, rank) && n in nodes && n != FUSE_ROOT_ID && 0 < nodes[n].nlookup && k <= nodes[n].nlookup
    ensures var left := nodes[n].nlookup - k;
            Loose(nodes[n := nodes[n].(nlookup := left)], names, rank, {}, if left == 0 then Some(n) else None)
  {
    hide Linked, Ranked, Counted, Kids;
    var left := nodes[n].nlookup - k;
    CountOf(nodes, names, None, n);
    NodeRecounted(nodes, names, rank, {}, None, n, nodes[n].(nlookup := left), {}, if left == 0 then Some(n) else None);
  }

  // A node new to the id table has no reference yet.
  lemma NodeAdded(nodes: Nodes, names: Names, rank: Id -> nat, n: Id, generation: nat, rank': Id -> nat)
    requires Consistent(nodes, names, rank) && n !in nodes
    requires forall m :: m != n ==> rank'(m) == rank(m)
    ensures Loose(nodes[n := Node(generation, 0, 0, None)], names, rank', {n}, None)
  {
    NewNodeLinked(nodes, names, n, generation);
    forall l | l in names ensures rank'(l.parent) < rank'(names[l]) {
      FoundNode(nodes, names, rank, l);
    }
    hide Linked, Kids;
  }

  lemma NewNodeLinked(nodes: Nodes, names: Names, n: Id, generation: nat)
    requires Linked(nodes, names) && n !in nodes
    ensures Linked(nodes[n := Node(generation, 0, 0, None)], names)
    ensures Refs(names, n, 0) == 0
  {
    assert Kids(names, n) == {};
    hide Kids;
  }

  // A ranking of more links ranks what is left of them.
  lemma Reranked(nodes: Nodes, names: Names, rank: Id -> nat, links: Links, rank': Id -> nat)
    requires Consistent(nodes, names, rank) && Ranks(links, rank')
    requires forall n :: n in LinksOf(nodes) ==> n in links && links[n] == LinksOf(nodes)[n]
    ensures Consistent(nodes, names, rank')
  {
    hide Counted, Kids;
    LooseRanks(nodes, names, rank');
  }

  /** Nodes outside `moved` kept their place, and nothing looked up went away. */
  ghost predicate Relinked(nodes: Nodes, nodes': Nodes, moved: set<Id>) {
    && (forall n :: n in nodes' ==> n in nodes && nodes'[n] == nodes[n].(refctr := nodes'[n].refctr, link := nodes'[n].link)
                                    && (n !in moved ==> nodes'[n].link == nodes[n].link))
    && (forall n :: n in nodes && nodes[n].nlookup > 0 ==> n in nodes')
  }

  // ---------------------------------------------------------------------------
  // What a consistent cache keeps alive

  ghost function Above(nodes: Nodes, rank: Id -> nat, n: Id): set<Id> {
    set k | k in nodes && rank(k) > rank(n)
  }

  /** No leaks: every node in the id table is looked up by the kernel or has such a node below it. */
  lemma {:induction false} KeptForALookup(nodes: Nodes, names: Names, rank: Id -> nat, n: Id) returns (m: Id)
    requires Consistent(nodes, names, rank) && n in nodes
    ensures Ranks(LinksOf(nodes), rank)
    ensures m in nodes && nodes[m].nlookup > 0 && IsBelow(LinksOf(nodes), rank, n, m)
    decreases Above(nodes, rank, n)
  {
    hide Linked, Ranked, Counted;
    LooseRanks(nodes, names, rank);
    if nodes[n].nlookup > 0 {
      m := n;
    } else {
      var c := AKid(nodes, names, rank, n);
      assert c in Above(nodes, rank, n) && c !in Above(nodes, rank, c);
      assert Above(nodes, rank, c) <= Above(nodes, rank, n);
      m := KeptForALookup(nodes, names, rank, c);
      BelowTransitive(LinksOf(nodes), rank, n, c, m);
    }
  }

  // A node kept without lookups has a child.
  lemma AKid(nodes: Nodes, names: Names, rank: Id -> nat, n: Id) returns (c: Id)
    requires Consistent(nodes, names, rank) && n in nodes && nodes[n].nlookup == 0
    ensures c in nodes && rank(n) < rank(c) && Ranks(LinksOf(nodes), rank) && IsBelow(LinksOf(nodes), rank, n, c)
  {
    LooseRanks(nodes, names, rank);
    assert nodes[n].refctr > 0;
    assert |Kids(names, n)| > 0;
    var l :| l in Kids(names, n);
    c := names[l];
    assert nodes[c].link.value == l && LinksOf(nodes)[c] == l;
  }

  /** The places of the nodes that are left are those of `links`. */
  ghost predicate PlacedBy(nodes: Nodes, links: Links) {
    forall k :: k in nodes ==> nodes[k].link == if k in links then Some(links[k]) else None
  }

  // A surviving node keeps all its ancestors.
  lemma {:induction false} AncestorsSurvive(links: Links, rank: Id -> nat, nodes': Nodes, names': Names, rank': Id -> nat, n: Id, m: Id)
    requires Ranks(links, rank) && Consistent(nodes', names', rank') && m in nodes' && PlacedBy(nodes', links)
    requires IsBelow(links, rank, n, m)
    ensures n in nodes'
    decreases rank(m)
  {
    if m != n {
      assert nodes'[m].link.value in names';
      AncestorsSurvive(links, rank, nodes', names', rank', n, nodes'[m].link.value.parent);
    }
  }

  /** Some node that is looked up hangs at or below `n`. */
  ghost predicate Needed(links: Links, rank: Id -> nat, nodes: Nodes, n: Id)
    requires Ranks(links, rank)
  {
    exists m :: m in nodes && nodes[m].nlookup > 0 && IsBelow(links, rank, n, m)
  }

  /** Exactness of the delete cascade: when the nodes that are left hang as in `links`, they are
      precisely those that a looked-up one hangs at or below there. */
  lemma CascadeExact(links: Links, rank: Id -> nat, nodes': Nodes, names': Names, rank': Id -> nat, n: Id)
    requires Ranks(links, rank) && Consistent(nodes', names', rank') && PlacedBy(nodes', links)
    ensures n in nodes' <==> Needed(links, rank, nodes', n)
  {
    LooseRanks(nodes', names', rank');
    hide Linked, Ranked, Counted, Kids;
    if n in nodes' {
      var m := KeptForALookup(nodes', names', rank', n);
      BelowKept(LinksOf(nodes'), rank', links, rank, n, m);
    }
    if m :| m in nodes' && nodes'[m].nlookup > 0 && IsBelow(links, rank, n, m) {
      AncestorsSurvive(links, rank, nodes', names', rank', n, m);
    }
  }

  /** Between two consistent states, where nodes only disappeared and links stayed, what is left is
      precisely what was above some node still looked up. */
  lemma SurvivorsExact(nodes: Nodes, names: Names, rank: Id -> nat, nodes': Nodes, names': Names, rank': Id -> nat, n: Id)
    requires Consistent(nodes, names, rank) && Consistent(nodes', names', rank')
    requires forall k :: k in nodes' ==> k in nodes && nodes'[k].link == nodes[k].link
    ensures Ranks(LinksOf(nodes), rank)
    ensures n in nodes' <==> n in nodes && Needed(LinksOf(nodes), rank, nodes', n)
  {
    LooseRanks(nodes, names, rank);
    hide Linked, Ranked, Counted, Kids;
    CascadeExact(LinksOf(nodes), rank, nodes', names', rank', n);
  }

  // Where nodes only moved, the lookups are the old ones.
  lemma NeededBefore(links: Links, rank: Id -> nat, nodes: Nodes, nodes': Nodes, moved: set<Id>, n: Id)
    requires Ranks(links, rank) && Relinked(nodes, nodes', moved)
    ensures Needed(links, rank, nodes', n) <==> Needed(links, rank, nodes, n)
  {
    hide IsBelow;
    if m :| m in nodes && nodes[m].nlookup > 0 && IsBelow(links, rank, n, m) {
      assert m in nodes' && nodes'[m].nlookup > 0;
    }
    if m :| m in nodes' && nodes'[m].nlookup > 0 && IsBelow(links, rank, n, m) {
      assert m in nodes && nodes[m].nlookup > 0;
    }
  }

  function LinksWithout(links: Links, gone: set<Id>): Links {
    map n | n in links && n !in gone :: links[n]
  }

  /** After `remove_node` what is left is exactly what lies at or above a looked-up node once the
      removed name's link is cut. */
  lemma RemoveExact(nodes: Nodes, names: Names, rank: Id -> nat, x: Id, nodes': Nodes, names': Names, rank': Id -> nat, n: Id)
    requires Consistent(nodes, names, rank) && Consistent(nodes', names', rank') && Cleared(nodes, names, {x}, nodes', names')
    ensures Ranks(LinksWithout(LinksOf(nodes), {x}), rank)
    ensures n in nodes' <==> Needed(LinksWithout(LinksOf(nodes), {x}), rank, nodes, n)
  {
    hide Loose, Cleared, PlacedBy, Needed, Ranked, IsBelow, LinksOf, Counted, Kids, Linked;
    ConsistentParts(nodes, names, rank);
    LooseRanks(nodes, names, rank);
    var links := LinksWithout(LinksOf(nodes), {x});
    RemovePlaced(nodes, names, x, nodes', names');
    CascadeExact(links, rank, nodes', names', rank', n);
    NeededBefore(links, rank, nodes, nodes', {x}, n);
  }

  lemma ConsistentParts(nodes: Nodes, names: Names, rank: Id -> nat)
    requires Consistent(nodes, names, rank)
    ensures Linked(nodes, names) && Ranked(names, rank)
  {
  }

  lemma RemovePlaced(nodes: Nodes, names: Names, x: Id, nodes': Nodes, names': Names)
    requires Cleared(nodes, names, {x}, nodes', names')
    ensures PlacedBy(nodes', LinksWithout(LinksOf(nodes), {x})) && Relinked(nodes, nodes', {x})
  {
  }

  lemma ExchangePlaced(nodes: Nodes, names: Names, l: Link, l': Link, nodes': Nodes, names': Names)
    requires Exchanged(nodes, names, l, l', nodes', names') && Linked(nodes', names') && l != l'
    ensures PlacedBy(nodes', ExchangedLinks(LinksOf(nodes), At(names, l), At(names, l'), l, l'))
    ensures Relinked(nodes, nodes', Both(At(names, l), At(names, l')))
  {
    assert l in names ==> nodes'[names[l]].link == Some(l');
    assert l' in names ==> nodes'[names[l']].link == Some(l);
  }

  /** After `rename_node`, once the node hangs at its new name and the one replaced hangs nowhere. */
  lemma RenameExact(nodes: Nodes, names: Names, l: Link, l': Link, nodes': Nodes, names': Names, rank': Id -> nat,
                    links: Links, rank: Id -> nat, n: Id)
    requires l in names && Renamed(nodes, names, l, l', nodes', names') && Consistent(nodes', names', rank')
    requires links == LinksWithout(LinksOf(nodes), if l' in names then {names[l']} else {})[names[l] := l'] && Ranks(links, rank)
    ensures n in nodes' <==> Needed(links, rank, nodes, n)
  {
    var over := if l' in names then {names[l']} else {};
    assert nodes'[names[l]].link == Some(l');
    hide Linked, Ranked, Counted, Kids;
    assert PlacedBy(nodes', links);
    CascadeExact(links, rank, nodes', names', rank', n);
    NeededBefore(links, rank, nodes, nodes', {names[l]} + over, n);
  }

  /** After `exchange_node`, once the places are exchanged. */
  lemma ExchangeExact(nodes: Nodes, names: Names, l: Link, l': Link, nodes': Nodes, names': Names, rank': Id -> nat,
                      links: Links, rank: Id -> nat, n: Id)
    requires Exchanged(nodes, names, l, l', nodes', names') && Consistent(nodes', names', rank') && l != l'
    requires links == ExchangedLinks(LinksOf(nodes), At(names, l), At(names, l'), l, l') && Ranks(links, rank)
    ensures n in nodes' <==> Needed(links, rank, nodes, n)
  {
    hide Loose, Exchanged, PlacedBy, Needed, Ranked, IsBelow, LinksOf, ExchangedLinks, Counted, Kids, Linked;
    ConsistentParts(nodes', names', rank');
    ExchangePlaced(nodes, names, l, l', nodes', names');
    CascadeExact(links, rank, nodes', names', rank', n);
    NeededBefore(links, rank, nodes, nodes', Both(At(names, l), At(names, l')), n);
  }

  /** What is left is exactly what lies at or above a node that is still looked up. */
  ghost predicate KeptForLookups(nodes: Nodes, rank: Id -> nat, nodes': Nodes) {
    && Ranks(LinksOf(nodes), rank)
    && forall m :: m in nodes' <==> m in nodes && Needed(LinksOf(nodes), rank, nodes', m)
  }

  lemma ForgetExact(nodes: Nodes, names: Names, rank: Id -> nat, n: Id, left: nat, nodes': Nodes, names': Names)
    requires Consistent(nodes, names, rank) && Consistent(nodes', names', rank) && n in nodes
    requires Shrunk(nodes[n := nodes[n].(nlookup := left)], nodes')
    ensures KeptForLookups(nodes, rank, nodes')
  {
    hide Linked, Ranked, Counted, Kids, LinksOf, Needed;
    LooseRanks(nodes, names, rank);
    assert forall k :: k in nodes' ==> k in nodes && nodes'[k].link == nodes[k].link;
    hide Shrunk;
    forall m ensures m in nodes' <==> m in nodes && Needed(LinksOf(nodes), rank, nodes', m) {
      SurvivorsExact(nodes, names, rank, nodes', names', rank, m);
    }
  }

  lemma ShrunkNone(nodes: Nodes)
    ensures Shrunk(nodes, nodes)
  {
  }

  // When `x` is detached, only nodes above its parent can go with it.
  lemma {:induction false} OthersSurvive(nodes: Nodes, rank: Id -> nat, nodes': Nodes, names': Names, x: Id, n: Id, m: Id)
    requires Ranks(LinksOf(nodes), rank) && Consistent(nodes', names', rank) && m in nodes' && x in LinksOf(nodes)
    requires forall k :: k in nodes' ==> k in nodes && (k != x ==> nodes'[k].link == nodes[k].link)
    requires IsBelow(LinksOf(nodes), rank, n, m) && n != x && !IsBelow(LinksOf(nodes), rank, n, LinksOf(nodes)[x].parent)
    ensures n in nodes'
    decreases rank(m)
  {
    if m != n && m != x {
      assert nodes'[m].link.value in names';
      OthersSurvive(nodes, rank, nodes', names', x, n, nodes[m].link.value.parent);
    }
  }

  /** What taking the names of the nodes in `moved` away does: they lose their places, and no other
      name or place changes. */
  ghost predicate Cleared(nodes: Nodes, names: Names, moved: set<Id>, nodes': Nodes, names': Names) {
    && Relinked(nodes, nodes', moved)
    && (forall n :: n in nodes' && n in moved ==> nodes'[n].link == None)
    && (forall k :: k in names' ==> k in names && names'[k] == names[k] && names[k] !in moved)
  }

  lemma ClearedTwice(nodes: Nodes, names: Names, a: set<Id>, nodes1: Nodes, names1: Names, b: set<Id>, nodes2: Nodes, names2: Names)
    requires Cleared(nodes, names, a, nodes1, names1) && Cleared(nodes1, names1, b, nodes2, names2)
    ensures Cleared(nodes, names, a + b, nodes2, names2)
  {
  }

  /** `n` is not among the nodes that may go when `x` gives up its reference on its parent. */
  ghost predicate OffTheWay(links: Links, rank: Id -> nat, x: Id, n: Id)
    requires Ranks(links, rank)
  {
    n != x && (x in links ==> !IsBelow(links, rank, n, links[x].parent))
  }

  lemma Survives(nodes: Nodes, names: Names, rank: Id -> nat, x: Id, nodes': Nodes, names': Names, n: Id)
    requires Consistent(nodes, names, rank) && Consistent(nodes', names', rank)
    requires x in LinksOf(nodes) && Relinked(nodes, nodes', {x})
    requires Ranks(LinksOf(nodes), rank) && n in nodes && OffTheWay(LinksOf(nodes), rank, x, n)
    ensures n in nodes'
  {
    hide Linked, Ranked, Counted, Kids, LinksOf;
    var d := KeptForALookup(nodes, names, rank, n);
    OthersSurvive(nodes, rank, nodes', names', x, n, d);
  }

  lemma DetachedAlready(nodes: Nodes, names: Names, x: Id)
    requires Linked(nodes, names) && x in nodes && nodes[x].link == None
    ensures Cleared(nodes, names, {x}, nodes, names)
  {
    forall l | l in names ensures names[l] != x {
      assert nodes[names[l]].link == Some(l);
    }
  }

  lemma NamesSubset(nodes: Nodes, names: Names, x: Id, l: Link, nodes': Nodes, names': Names)
    requires Linked(nodes, names) && Linked(nodes', names') && Relinked(nodes, nodes', {x})
    requires x in nodes && nodes[x].link == Some(l) && x in nodes' && nodes'[x].link == None
    ensures l !in names' && Cleared(nodes, names, {x}, nodes', names')
  {
    assert nodes[x].link.value == l;
    forall k | k in names' ensures k in names && names'[k] == names[k] && k != l {
      var m := names'[k];
      assert nodes'[m].link == Some(k) && m != x;
      assert nodes[m].link.value == k;
    }
  }

  lemma ClearedNothing(nodes: Nodes, names: Names)
    ensures Cleared(nodes, names, {}, nodes, names)
  {
  }

  lemma ReadyToMove(nodes0: Nodes, names0: Names, l: Link, l': Link, dir: Id, nodes: Nodes, names: Names)
    requires l in names0 && dir in nodes0 && nodes0[dir].nlookup > 0
    requires Cleared(nodes0, names0, (if l' in names0 then {names0[l']} else {}) + {names0[l]}, nodes, names)
    ensures dir in nodes && l' !in names
    ensures Cleared(nodes0, names0, {names0[l]} + (if l' in names0 then {names0[l']} else {}), nodes, names)
  {
    assert (if l' in names0 then {names0[l']} else {}) + {names0[l]} == {names0[l]} + (if l' in names0 then {names0[l']} else {});
  }

  // Where a node is to move to, the walk up from its new place does not meet it.
  lemma MovedOffTheWay(nodes: Nodes, rank: Id -> nat, n: Id, over: Id, dir: Id)
    requires Ranks(LinksOf(nodes), rank) && !IsBelow(LinksOf(nodes), rank, n, dir) && n != over
    requires over in nodes && (nodes[over].link.Some? ==> nodes[over].link.value.parent == dir)
    ensures OffTheWay(LinksOf(nodes), rank, over, n)
  {
    hide IsBelow;
  }

  // A ranking for the new place of `n`.
  lemma RankForMove(nodes0: Nodes, names0: Names, rank0: Id -> nat, n: Id, l: Link, moved: set<Id>, nodes: Nodes, names: Names)
    returns (rank: Id -> nat)
    requires Ranks(LinksOf(nodes0), rank0) && !IsBelow(LinksOf(nodes0), rank0, n, l.parent)
    requires Cleared(nodes0, names0, moved, nodes, names) && n in moved
    requires Consistent(nodes, names, rank0)
    ensures Consistent(nodes, names, rank) && rank(l.parent) < rank(n)
  {
    hide Consistent, IsBelow, Cleared;
    ReparentAcyclic(LinksOf(nodes0), rank0, n, l);
    var links := LinksOf(nodes0)[n := l];
    rank :| Ranks(links, rank);
    assert rank(links[n].parent) < rank(n);
    LinksAfterClear(nodes0, names0, n, l, moved, nodes, names);
    hide LinksOf, Ranks;
    Reranked(nodes, names, rank0, links, rank);
  }

  lemma LinksAfterClear(nodes0: Nodes, names0: Names, n: Id, l: Link, moved: set<Id>, nodes: Nodes, names: Names)
    requires Cleared(nodes0, names0, moved, nodes, names) && n in moved
    ensures forall m :: m in LinksOf(nodes) ==> m in LinksOf(nodes0)[n := l] && LinksOf(nodes0)[n := l][m] == LinksOf(nodes)[m]
  {
  }

  /** Outcome of moving the node named `l` to the name `l'`, replacing the node there if any. */
  ghost predicate Renamed(nodes: Nodes, names: Names, l: Link, l': Link, nodes': Nodes, names': Names)
    requires l in names
  {
    var n := names[l];
    var over := if l' in names then {names[l']} else {};
    && l' in names' && names'[l'] == n
    && (l in names' ==> l == l')
    && Relinked(nodes, nodes', {n} + over)
    && (forall m :: m in over && m != n && m in nodes' ==> nodes'[m].link == None)
    && (forall k :: k in names && k != l && k != l' ==> (k in names' ==> names'[k] == names[k]))
  }

  lemma RenamedTallied(nodes: Nodes, names: Names, l: Link, l': Link, nodes': Nodes, names': Names)
    requires l in names && Renamed(nodes, names, l, l', nodes', names')
    ensures Tallied(nodes, Other, nodes')
  {
    RelinkedTallied(nodes, nodes', {names[l]} + if l' in names then {names[l']} else {});
  }

  lemma RenameEnd(nodes0: Nodes, names0: Names, l: Link, l': Link, nodes: Nodes, names: Names)
    requires l in names0
    requires Cleared(nodes0, names0, {names0[l]} + (if l' in names0 then {names0[l']} else {}), nodes, names)
    requires names0[l] in nodes && l'.parent in nodes && l' !in names
    ensures Renamed(nodes0, names0, l, l', HashedNodes(nodes, names0[l], l'), names[l' := names0[l]])
  {
  }

  // The nodes an exchange moves.
  function Both(o: Option<Id>, n: Option<Id>): set<Id> {
    if o.Some? && n.Some? then {o.value, n.value}
    else if o.Some? then {o.value}
    else if n.Some? then {n.value}
    else {}
  }

  function At(names: Names, l: Link): Option<Id> {
    if l in names then Some(names[l]) else None
  }

  // Links after an exchange of the places `l` and `l'`.
  function ExchangedLinks(links: Links, o: Option<Id>, n: Option<Id>, l: Link, l': Link): Links {
    var moved := if o.Some? then links[o.value := l'] else links;
    if n.Some? then moved[n.value := l] else moved
  }

  /** The caller's side of the contract of an exchange: neither node moves below itself. */
  ghost predicate MayExchange(nodes: Nodes, names: Names, rank: Id -> nat, l: Link, l': Link) {
    && Ranks(LinksOf(nodes), rank)
    && l.parent in nodes && nodes[l.parent].nlookup > 0
    && l'.parent in nodes && nodes[l'.parent].nlookup > 0
    && (l in names ==> !IsBelow(LinksOf(nodes), rank, names[l], l'.parent))
    && (l' in names ==> !IsBelow(LinksOf(nodes), rank, names[l'], l.parent))
  }

  lemma ExchangeRank(nodes: Nodes, names: Names, rank: Id -> nat, l: Link, l': Link) returns (rank': Id -> nat)
    requires Linked(nodes, names) && MayExchange(nodes, names, rank, l, l') && l != l'
    ensures Ranks(ExchangedLinks(LinksOf(nodes), At(names, l), At(names, l'), l, l'), rank')
    ensures l in names ==> rank'(l'.parent) < rank'(names[l])
    ensures l' in names ==> rank'(l.parent) < rank'(names[l'])
  {
    var links := LinksOf(nodes);
    var links' := ExchangedLinks(links, At(names, l), At(names, l'), l, l');
    assert l in names ==> names[l] in links && links[names[l]] == l;
    assert l' in names ==> names[l'] in links && links[names[l']] == l';
    assert l in names && l' in names ==> names[l] != names[l'];
    hide Linked, LinksOf, IsBelow;
    if l in names && l' in names {
      ExchangeAcyclic(links, rank, names[l], names[l']);
      rank' :| Ranks(links', rank');
    } else if l in names {
      ReparentAcyclic(links, rank, names[l], l');
      rank' :| Ranks(links', rank');
    } else if l' in names {
      ReparentAcyclic(links, rank, names[l'], l);
      rank' :| Ranks(links', rank');
    } else {
      rank' := rank;
    }
    assert l in names ==> names[l] in links' && links'[names[l]] == l';
    assert l' in names ==> names[l'] in links' && links'[names[l']] == l;
  }

  lemma LinksAfterExchange(nodes0: Nodes, names0: Names, l: Link, l': Link, nodes: Nodes, names: Names)
    requires Cleared(nodes0, names0, Both(At(names0, l), At(names0, l')), nodes, names)
    ensures var links' := ExchangedLinks(LinksOf(nodes0), At(names0, l), At(names0, l'), l, l');
            forall m :: m in LinksOf(nodes) ==> m in links' && links'[m] == LinksOf(nodes)[m]
  {
  }

  /** Hashing a node twice under one name spoils its parent's count, whatever the ranking. */
  lemma HashedTwice(nodes: Nodes, names: Names, rank: Id -> nat, n: Id, l: Link, rank': Id -> nat)
    requires Consistent(nodes, names, rank) && n in nodes && nodes[n].link == Some(l) && l.parent in nodes
    ensures !Consistent(HashedNodes(nodes, n, l), names[l := n], rank')
  {
    assert nodes[n].link.value == l;
    assert names[l := n] == names;
    CountOf(nodes, names, None, l.parent);
    hide Kids;
    if Consistent(HashedNodes(nodes, n, l), names[l := n], rank') {
      CountOf(HashedNodes(nodes, n, l), names, None, l.parent);
    }
  }

  // When the first of two nodes has lost its place, the way up from the second still misses it.
  lemma StillOffTheWay(nodes: Nodes, names: Names, rank: Id -> nat, x: Id, n: Id, moved: set<Id>, nodes': Nodes, names': Names)
    requires Ranks(LinksOf(nodes), rank) && Ranks(LinksOf(nodes'), rank)
    requires OffTheWay(LinksOf(nodes), rank, x, n) && Cleared(nodes, names, moved, nodes', names')
    ensures OffTheWay(LinksOf(nodes'), rank, x, n)
  {
    assert forall m :: m in LinksOf(nodes') ==> m in LinksOf(nodes) && LinksOf(nodes)[m] == LinksOf(nodes')[m];
    if x in LinksOf(nodes') {
      var p := LinksOf(nodes')[x].parent;
      hide LinksOf;
      if IsBelow(LinksOf(nodes'), rank, n, p) {
        BelowKept(LinksOf(nodes'), rank, LinksOf(nodes), rank, n, p);
      }
    }
  }

  /** Outcome of exchanging two places, either of which may be empty. */
  ghost predicate Exchanged(nodes: Nodes, names: Names, l: Link, l': Link, nodes': Nodes, names': Names) {
    && At(names', l') == At(names, l) && At(names', l) == At(names, l')
    && Relinked(nodes, nodes', Both(At(names, l), At(names, l')))
    && (forall k :: k in names' && k != l && k != l' ==> k in names && names'[k] == names[k])
  }

  function Hashed(nodes: Nodes, n: Option<Id>, l: Link): Nodes
    requires n.Some? ==> n.value in nodes && l.parent in nodes
  {
    if n.Some? then HashedNodes(nodes, n.value, l) else nodes
  }

  function Named(names: Names, n: Option<Id>, l: Link): Names {
    if n.Some? then names[l := n.value] else names
  }

  // Between different places, the links as they will be have a ranking.
  lemma ExchangeReady(nodes0: Nodes, names0: Names, rank0: Id -> nat, l: Link, l': Link, nodes: Nodes, names: Names)
    returns (rank: Id -> nat)
    requires Linked(nodes0, names0) && MayExchange(nodes0, names0, rank0, l, l') && l != l'
    requires Consistent(nodes, names, rank0) && Cleared(nodes0, names0, Both(At(names0, l), At(names0, l')), nodes, names)
    ensures Consistent(nodes, names, rank)
    ensures l in names0 ==> rank(l'.parent) < rank(names0[l])
    ensures l' in names0 ==> rank(l.parent) < rank(names0[l'])
  {
    hide Consistent;
    rank := ExchangeRank(nodes0, names0, rank0, l, l');
    LinksAfterExchange(nodes0, names0, l, l', nodes, names);
    hide LinksOf, IsBelow, Linked, Cleared, Ranks, ExchangedLinks;
    Reranked(nodes, names, rank0, ExchangedLinks(LinksOf(nodes0), At(names0, l), At(names0, l'), l, l'), rank);
  }

  // The two calls of `hash_name` complete the exchange, or spoil a count.
  lemma ExchangeDone(nodes0: Nodes, names0: Names, rank: Id -> nat, l: Link, l': Link, nodes: Nodes, names: Names)
    requires Linked(nodes0, names0)
    requires l.parent in nodes0 && nodes0[l.parent].nlookup > 0 && l'.parent in nodes0 && nodes0[l'.parent].nlookup > 0
    requires Consistent(nodes, names, rank) && Cleared(nodes0, names0, Both(At(names0, l), At(names0, l')), nodes, names)
    requires Both(At(names0, l), At(names0, l')) <= nodes.Keys
    requires l in names0 ==> rank(l'.parent) < rank(names0[l])
    requires l' in names0 ==> rank(l.parent) < rank(names0[l'])
    ensures l.parent in nodes && l'.parent in nodes
    ensures var o, n := At(names0, l), At(names0, l');
            var nodes2, names2 := Hashed(Hashed(nodes, o, l'), n, l), Named(Named(names, o, l'), n, l);
            && (Consistent(nodes2, names2, rank) <==> l != l' || l !in names0)
            && (l != l' || l !in names0 ==> Exchanged(nodes0, names0, l, l', nodes2, names2))
  {
    var o, n := At(names0, l), At(names0, l');
    ExchangeFacts(nodes0, names0, l, l', nodes, names);
    var nodes1, names1 := Hashed(nodes, o, l'), Named(names, o, l');
    hide Linked, Ranked, Counted, Kids, Cleared, Exchanged, Relinked;
    if o.Some? {
      NamePlaced(nodes, names, rank, {}, o.value, l');
    }
    if n.Some? && l == l' {
      HashedTwice(nodes1, names1, rank, n.value, l, rank);
    } else if n.Some? {
      NamePlaced(nodes1, names1, rank, {}, n.value, l);
    }
    if l != l' || l !in names0 {
      ExchangeOutcome(nodes0, names0, l, l', nodes, names);
    }
  }

  lemma ExchangedTallied(nodes: Nodes, names: Names, l: Link, l': Link, nodes': Nodes, names': Names)
    requires Exchanged(nodes, names, l, l', nodes', names')
    ensures Tallied(nodes, Other, nodes')
  {
    RelinkedTallied(nodes, nodes', Both(At(names, l), At(names, l')));
  }

  lemma ExchangeFacts(nodes0: Nodes, names0: Names, l: Link, l': Link, nodes: Nodes, names: Names)
    requires Linked(nodes0, names0)
    requires l.parent in nodes0 && nodes0[l.parent].nlookup > 0 && l'.parent in nodes0 && nodes0[l'.parent].nlookup > 0
    requires Cleared(nodes0, names0, Both(At(names0, l), At(names0, l')), nodes, names)
    requires Both(At(names0, l), At(names0, l')) <= nodes.Keys
    ensures l.parent in nodes && l'.parent in nodes && l !in names && l' !in names
    ensures l in names0 ==> names0[l] in nodes && nodes[names0[l]].link == None && names0[l] != FUSE_ROOT_ID
    ensures l' in names0 ==> names0[l'] in nodes && nodes[names0[l']].link == None && names0[l'] != FUSE_ROOT_ID
    ensures l in names0 && l' in names0 && l != l' ==> names0[l] != names0[l']
  {
    assert l in names0 ==> names0[l] in Both(At(names0, l), At(names0, l')) && nodes0[names0[l]].link == Some(l);
    assert l' in names0 ==> names0[l'] in Both(At(names0, l), At(names0, l')) && nodes0[names0[l']].link == Some(l');
  }

  lemma ExchangeOutcome(nodes0: Nodes, names0: Names, l: Link, l': Link, nodes: Nodes, names: Names)
    requires Cleared(nodes0, names0, Both(At(names0, l), At(names0, l')), nodes, names)
    requires Both(At(names0, l), At(names0, l')) <= nodes.Keys
    requires l.parent in nodes && l'.parent in nodes && l !in names && l' !in names
    requires l != l' || l !in names0
    ensures var o, n := At(names0, l), At(names0, l');
            Exchanged(nodes0, names0, l, l', Hashed(Hashed(nodes, o, l'), n, l), Named(Named(names, o, l'), n, l))
  {
    var o, n := At(names0, l), At(names0, l');
    if o.Some? {
      HashedRelinked(nodes0, nodes, Both(o, n), o.value, l');
    }
    if n.Some? {
      HashedRelinked(nodes0, Hashed(nodes, o, l'), Both(o, n), n.value, l);
    }
    hide Relinked, HashedNodes;
  }

  lemma HashedRelinked(nodes0: Nodes, nodes: Nodes, moved: set<Id>, n: Id, l: Link)
    requires Relinked(nodes0, nodes, moved) && n in moved && n in nodes && l.parent in nodes
    ensures Relinked(nodes0, HashedNodes(nodes, n, l), moved)
  {
  }

  // ---------------------------------------------------------------------------
  // The loop check before a rename

  // 0, -EINVAL and -ENOTEMPTY
  datatype LoopCheck = NoLoop | IntoOwnSubtree | OverAncestor

  /** The node of a name, or its directory when the name is not cached. */
  function Here(names: Names, l: Link): Id {
    if l in names then names[l] else l.parent
  }

  /** `a` is a named node strictly above `n`. */
  ghost predicate HangsAbove(links: Links, rank: Id -> nat, a: Id, n: Id)
    requires Ranks(links, rank)
  {
    a != n && a in links && IsBelow(links, rank, a, n)
  }

  lemma NotBothAbove(links: Links, rank: Id -> nat, a: Id, n: Id)
    requires Ranks(links, rank)
    ensures !(HangsAbove(links, rank, a, n) && HangsAbove(links, rank, n, a))
  {
    if HangsAbove(links, rank, a, n) && HangsAbove(links, rank, n, a) {
      BelowRank(links, rank, a, n);
      BelowRank(links, rank, n, a);
      BelowRank(links, rank, a, links[n].parent);
    }
  }

  ghost function LoopChecked(links: Links, names: Names, rank: Id -> nat, l: Link, l': Link): LoopCheck
    requires Ranks(links, rank)
  {
    if HangsAbove(links, rank, Here(names, l), Here(names, l')) then IntoOwnSubtree
    else if l' in names && HangsAbove(links, rank, Here(names, l'), Here(names, l)) then OverAncestor
    else NoLoop
  }

  /** What the loop check lets through: after it a rename of a cached node makes a cycle exactly when the
      node is moved directly under itself, to a name that is not cached. The walk leaves out its start. */
  lemma LoopCheckGap(nodes: Nodes, names: Names, rank: Id -> nat, l: Link, l': Link)
    requires Linked(nodes, names) && Ranks(LinksOf(nodes), rank) && l in names
    requires LoopChecked(LinksOf(nodes), names, rank, l, l') == NoLoop
    ensures Acyclic(LinksOf(nodes)[names[l] := l']) <==> !(l' !in names && l'.parent == names[l])
  {
    var links := LinksOf(nodes);
    var n := names[l];
    assert n in links && links[n] == l;
    ReparentAcyclic(links, rank, n, l');
    if l' in names {
      var m := names[l'];
      assert m in links && links[m] == l';
      assert n != m ==> (IsBelow(links, rank, n, m) <==> IsBelow(links, rank, n, l'.parent));
      if n == m && IsBelow(links, rank, n, l'.parent) { BelowRank(links, rank, n, l'.parent); }
    }
  }

  // ---------------------------------------------------------------------------

  class Cache {
    var nodes: Nodes
    var names: Names
    var counter: Counter
    ghost var rank: Id -> nat
    // The identities issued so far and the turns of the counter for each.
    ghost var issued: seq<Counter>
    ghost var turns: seq<nat>

    ghost predicate Valid()
      reads `nodes, `names, `counter, `rank
    {
      Consistent(nodes, names, rank) && InRange(counter)
    }

    /** Every identity issued is one the counter came to. */
    ghost predicate Tracked()
      reads `issued, `turns, `counter
    {
      History(issued, turns, counter)
    }

    /** The root as `fuse_new` sets it up (lines 5078-5103). */
    constructor ()
      ensures Valid() && Tracked() && nodes.Keys == {FUSE_ROOT_ID} && names == map[]
    {
      issued, turns := [Counter(0, 0)], [];
      counter := Counter(0, 0);
      nodes := map[FUSE_ROOT_ID := Node(0, 1, 1, None)];
      names := map[];
      rank := _ => 0;
      new;
      assert Kids(names, FUSE_ROOT_ID) == {};
    }

    /** `unref_node`: drop the pending reference of `n`; the last one deletes the node. Only nodes
        ranked at or above `n` in the tree are affected. */
    method UnrefNode(n: Id, ghost doomed: set<Id>)
      requires Loose(nodes, names, rank, doomed, Some(n))
      requires forall d :: d in doomed ==> rank(d) > rank(n)
      modifies `nodes, `names
      ensures Loose(nodes, names, rank, doomed, None)
      ensures Shrunk(old(nodes), nodes)
      ensures forall m :: m in old(nodes) && rank(m) > rank(n) ==> m in nodes && nodes[m] == old(nodes)[m]
      decreases rank(n), 2
    {
      hide Linked, Ranked, Counted;
      RefDropped(nodes, names, rank, doomed, n);
      nodes := nodes[n := nodes[n].(refctr := nodes[n].refctr - 1)];
      if nodes[n].refctr == 0 {
        DeleteNode(n, doomed);
      }
    }

    /** `delete_node`: leave the name table, which may cascade to the parent, then the id table. */
    method DeleteNode(n: Id, ghost doomed: set<Id>)
      requires n in nodes && n !in doomed && Loose(nodes, names, rank, doomed + {n}, None)
      requires forall d :: d in doomed ==> rank(d) > rank(n)
      modifies `nodes, `names
      ensures Loose(nodes, names, rank, doomed, None)
      ensures Shrunk(old(nodes), nodes)
      ensures forall m :: m in old(nodes) && rank(m) > rank(n) ==> m in nodes && nodes[m] == old(nodes)[m]
      decreases rank(n), 1
    {
      hide Linked, Ranked, Counted;
      DoomedUnused(nodes, names, rank, doomed + {n}, n);
      UnhashName(n, doomed + {n});
      NodeDropped(nodes, names, rank, doomed, n);
      nodes := nodes - {n};
    }

    /** `unhash_name`: a node with a name leaves the name table and gives up its reference on the
        parent. The link is cleared before the parent is released; nothing looks at it between. */
    method UnhashName(n: Id, ghost doomed: set<Id>)
      requires n in nodes && Loose(nodes, names, rank, doomed, None)
      requires forall d :: d in doomed ==> rank(d) >= rank(n)
      modifies `nodes, `names
      ensures Loose(nodes, names, rank, doomed, None)
      ensures Shrunk(old(nodes)[n := old(nodes)[n].(link := None)], nodes)
      ensures n in nodes && nodes[n] == old(nodes)[n].(link := None)
      ensures forall m :: m in old(nodes) && rank(m) >= rank(n) && m != n ==> m in nodes && nodes[m] == old(nodes)[m]
      decreases rank(n), 0
    {
      hide Linked, Ranked, Counted;
      if nodes[n].link.Some? {
        var l := nodes[n].link.value;
        NameDropped(nodes, names, rank, doomed, n, l);
        names := names - {l};
        nodes := nodes[n := nodes[n].(link := None)];
        UnrefNode(l.parent, doomed);
      }
    }

    /** `hash_name`: push the name and reference the parent. */
    method HashName(n: Id, l: Link)
      requires n in nodes && l.parent in nodes
      modifies `nodes, `names
      ensures nodes == HashedNodes(old(nodes), n, l) && names == old(names)[l := n]
    {
      nodes := nodes[l.parent := nodes[l.parent].(refctr := nodes[l.parent].refctr + 1)];
      nodes := nodes[n := nodes[n].(link := Some(l))];
      names := names[l := n];
    }

    /** The new node of `find_node`: its identity is the first free one after the counter. It enters
        the id table just before the name table; nothing looks between. */
    method MakeNode(l: Link) returns (n: Id)
      requires Valid() && Tracked() && l.parent in nodes && l !in names
      requires exists id :: 1 <= id < FUSE_UNKNOWN_INO && id !in nodes.Keys
      modifies this
      ensures Loose(nodes, names, rank, {n}, None) && InRange(counter) && Tracked()
      ensures n !in old(nodes) && n != FUSE_ROOT_ID && names == old(names)[l := n]
      ensures nodes == HashedNodes(old(nodes)[n := Node(counter.generation, 0, 0, None)], n, l)
      ensures counter.ctr == n && issued == old(issued) + [counter] && |turns| == |old(turns)| + 1
      ensures turns[..|old(turns)|] == old(turns) && counter == Advance(old(counter), turns[|old(turns)|]) && turns[|old(turns)|] >= 1
    {
      hide Linked, Ranked, Counted, Kids, Advance;
      RootLooked(nodes, names);
      ghost var counter0, more := counter, 0;
      counter, more := NextId(counter, nodes.Keys);
      HistoryGrows(issued, turns, counter0, more);
      issued, turns := issued + [counter], turns + [more];
      n := counter.ctr;
      ghost var rank0 := rank;
      rank := (m: Id) => if m == n then rank0(l.parent) + 1 else rank0(m);
      NodeAdded(nodes, names, rank0, n, counter.generation, rank);
      nodes := nodes[n := Node(counter.generation, 0, 0, None)];
      NamePlaced(nodes, names, rank, {n}, n, l);
      HashName(n, l);
    }

    /** `find_node`: the node for a name under `parent` (or `parent` itself), made if it is not
        there, with one more lookup. The counter moves on exactly when a node is made, and then to the
        node's identity. */
    method FindNode(parent: Id, name: Option<string>) returns (n: Id)
      requires Valid() && Tracked() && parent in nodes
      requires exists id :: 1 <= id < FUSE_UNKNOWN_INO && id !in nodes.Keys
      modifies this
      ensures Valid() && Tracked() && n in nodes
      ensures name.None? ==> n == parent && names == old(names)
      ensures name.Some? ==> names == old(names)[Link(parent, name.value) := n]
      ensures n in old(nodes) ==> nodes == old(nodes)[n := Looked(old(nodes)[n])] && names == old(names)
      ensures n in old(nodes) ==>
                && nodes.Keys == old(nodes).Keys && (forall m :: m in nodes && m != n ==> nodes[m] == old(nodes)[m])
                && nodes[n].nlookup == old(nodes)[n].nlookup + 1
                && nodes[n].generation == old(nodes)[n].generation && nodes[n].link == old(nodes)[n].link
      ensures Tallied(old(nodes), Answer(n), nodes)
      ensures n in old(nodes) ==> counter == old(counter) && issued == old(issued) && turns == old(turns)
      ensures n !in old(nodes) ==>
                && nodes.Keys == old(nodes).Keys + {n} && name.Some?
                && nodes[n] == Node(counter.generation, 1, 1, Some(Link(parent, name.value))) && counter.ctr == n
                && forall m :: m in old(nodes) ==> nodes[m] == old(nodes)[m].(refctr := nodes[m].refctr)
      ensures n !in old(nodes) ==>
                && n != FUSE_ROOT_ID && issued == old(issued) + [counter]
                && exists k: nat :: k >= 1 && turns == old(turns) + [k] && counter == Advance(old(counter), k)
    {
      hide Linked, Ranked, Counted, Kids, Advance, History;
      ghost var doomed: set<Id> := {};
      if name.None? {
        n := parent;
      } else if Link(parent, name.value) in names {
        n := names[Link(parent, name.value)];
        FoundNode(nodes, names, rank, Link(parent, name.value));
      } else {
        n := MakeNode(Link(parent, name.value));
        doomed := {n};
        assert turns == old(turns) + [turns[|old(turns)|]];
      }
      LookupCounted(nodes, names, rank, doomed, n);
      nodes := nodes[n := Looked(nodes[n])];
    }

    /** `forget_node`, past its wait for the tree lock: give back `k` lookups. What remains of the
        cache is exactly what lies above a node that is still looked up. */
    method ForgetNode(n: Id, k: nat)
      requires Valid() && n in nodes && 0 < nodes[n].nlookup && k <= nodes[n].nlookup
      modifies `nodes, `names
      ensures Valid()
      ensures n == FUSE_ROOT_ID ==> nodes == old(nodes) && names == old(names)
      ensures n != FUSE_ROOT_ID ==> Shrunk(old(nodes)[n := old(nodes)[n].(nlookup := old(nodes)[n].nlookup - k)], nodes)
      ensures KeptForLookups(old(nodes), rank, nodes)
      ensures Tallied(old(nodes), if n == FUSE_ROOT_ID then Other else Forget(n, k), nodes)
    {
      hide Linked, Ranked, Counted, Kids, KeptForLookups;
      ghost var nodes0, names0 := nodes, names;
      ghost var left := if n == FUSE_ROOT_ID then nodes[n].nlookup else nodes[n].nlookup - k;
      if n != FUSE_ROOT_ID {
        LookupsForgotten(nodes, names, rank, n, k);
        nodes := nodes[n := nodes[n].(nlookup := nodes[n].nlookup - k)];
        ShrunkNone(nodes);
        if nodes[n].nlookup == 0 {
          UnrefNode(n, {});
        }
      } else {
        assert nodes == nodes[n := nodes[n].(nlookup := left)];
        ShrunkNone(nodes);
      }
      ForgetExact(nodes0, names0, rank, n, left, nodes, names);
    }

    // `unhash_name` outside a cascade, as the operations on names use it. Nodes that are off the
    // way from `x` to the root stay.
    method Detach(x: Id, ghost keep: set<Id>)
      requires Valid() && x in nodes && keep <= nodes.Keys && Ranks(LinksOf(nodes), rank)
      requires forall n :: n in keep ==> OffTheWay(LinksOf(nodes), rank, x, n)
      modifies `nodes, `names
      ensures Valid() && Cleared(old(nodes), old(names), {x}, nodes, names) && x in nodes && nodes[x].link == None
      ensures keep <= nodes.Keys
    {
      hide Linked, Ranked, Counted, Kids, OffTheWay;
      if nodes[x].link.Some? {
        ghost var nodes0, names0 := nodes, names;
        UnhashName(x, {});
        NamesSubset(nodes0, names0, x, nodes0[x].link.value, nodes, names);
        assert x in LinksOf(nodes0);
        forall n | n in keep ensures n in nodes {
          Survives(nodes0, names0, rank, x, nodes, names, n);
        }
      } else {
        DetachedAlready(nodes, names, x);
      }
    }

    /** `remove_node`: the name goes; the node stays while something still refers to it. */
    method RemoveNode(dir: Id, name: string)
      requires Valid()
      modifies `nodes, `names
      ensures Valid() && Link(dir, name) !in names
      ensures if Link(dir, name) in old(names) then Cleared(old(nodes), old(names), {old(names)[Link(dir, name)]}, nodes, names)
              else nodes == old(nodes) && names == old(names)
      ensures Tallied(old(nodes), Other, nodes)
    {
      hide Linked, Ranked, Counted, Kids;
      if Link(dir, name) in names {
        FoundNode(nodes, names, rank, Link(dir, name));
        LooseRanks(nodes, names, rank);
        Detach(names[Link(dir, name)], {});
      }
    }

    /** `rename_node`. The caller's side of the contract: the new directory is looked up, and does
        not lie in the subtree that moves. `hide` asks for a name that must not be taken. */
    method RenameNode(olddir: Id, oldname: string, newdir: Id, newname: string, hidden: bool) returns (busy: bool)
      requires Valid() && Ranks(LinksOf(nodes), rank)
      requires newdir in nodes && nodes[newdir].nlookup > 0
      requires Link(olddir, oldname) in names ==> !IsBelow(LinksOf(nodes), rank, names[Link(olddir, oldname)], newdir)
      modifies `nodes, `names, `rank
      ensures Valid()
      ensures busy <==> hidden && Link(olddir, oldname) in old(names) && Link(newdir, newname) in old(names)
      ensures busy || Link(olddir, oldname) !in old(names) ==> nodes == old(nodes) && names == old(names)
      ensures !busy && Link(olddir, oldname) in old(names) ==>
                Renamed(old(nodes), old(names), Link(olddir, oldname), Link(newdir, newname), nodes, names)
      ensures Tallied(old(nodes), Other, nodes)
    {
      hide Linked, Ranked, Counted, Kids, Cleared, OffTheWay, Renamed;
      var l, l' := Link(olddir, oldname), Link(newdir, newname);
      busy := false;
      if l !in names {
        return;
      }
      var n := names[l];
      FoundNode(nodes, names, rank, l);
      ghost var nodes0, names0, over := nodes, names, {};
      if l' in names {
        if hidden {
          busy := true;
          return;
        }
        over := {names[l']};
        FoundNode(nodes, names, rank, l');
        if n != names[l'] {
          MovedOffTheWay(nodes, rank, n, names[l'], newdir);
        }
        Detach(names[l'], if n == names[l'] then {} else {n});
      } else {
        ClearedNothing(nodes, names);
      }
      ghost var nodes1, names1 := nodes, names;
      LooseRanks(nodes, names, rank);
      Detach(n, {});
      ClearedTwice(nodes0, names0, over, nodes1, names1, {n}, nodes, names);
      ReadyToMove(nodes0, names0, l, l', newdir, nodes, names);
      rank := RankForMove(nodes0, names0, rank, n, l', over + {n}, nodes, names);
      NamePlaced(nodes, names, rank, {}, n, l');
      RenameEnd(nodes0, names0, l, l', nodes, names);
      RenamedTallied(nodes0, names0, l, l', HashedNodes(nodes, n, l'), names[l' := n]);
      HashName(n, l');
    }

    /** One loop of `check_dir_loop`: does the walk from `from` to the root pass `target` above its start? */
    method WalkMeets(from: Id, target: Id) returns (met: bool)
      requires Valid() && Ranks(LinksOf(nodes), rank) && from in nodes
      ensures met <==> HangsAbove(LinksOf(nodes), rank, target, from)
    {
      var node := from;
      met := false;
      while node != FUSE_ROOT_ID
        invariant node in nodes
        invariant target != from && target in LinksOf(nodes) ==>
                    (IsBelow(LinksOf(nodes), rank, target, from) <==> IsBelow(LinksOf(nodes), rank, target, node))
        decreases rank(node)
      {
        if nodes[node].link.None? { return; }
        if node != from && node == target { return true; }
        assert node in LinksOf(nodes) && nodes[node].link.value in names;
        node := nodes[node].link.value.parent;
      }
    }

    /** `check_dir_loop` (compiled in on FreeBSD only). */
    method CheckDirLoop(olddir: Id, oldname: string, newdir: Id, newname: string) returns (r: LoopCheck)
      requires Valid() && Ranks(LinksOf(nodes), rank) && olddir in nodes && newdir in nodes
      ensures r == LoopChecked(LinksOf(nodes), names, rank, Link(olddir, oldname), Link(newdir, newname))
      ensures var l, l' := Link(olddir, oldname), Link(newdir, newname);
              var from, to := if l in names then names[l] else olddir, if l' in names then names[l'] else newdir;
              && (r == IntoOwnSubtree <==> HangsAbove(LinksOf(nodes), rank, from, to))
              && (r == OverAncestor <==> l' in names && HangsAbove(LinksOf(nodes), rank, to, from))
    {
      hide Linked, Ranked, Counted, Kids, IsBelow, HangsAbove, LinksOf, Ranks;
      var l, l' := Link(olddir, oldname), Link(newdir, newname);
      if l in names { FoundNode(nodes, names, rank, l); }
      if l' in names { FoundNode(nodes, names, rank, l'); }
      NotBothAbove(LinksOf(nodes), rank, Here(names, l), Here(names, l'));
      var met := WalkMeets(Here(names, l'), Here(names, l));
      if met { return IntoOwnSubtree; }
      if l' in names {
        met := WalkMeets(Here(names, l), Here(names, l'));
        if met { return OverAncestor; }
      }
      r := NoLoop;
    }

    // The two calls of `unhash_name` in `exchange_node`.
    method UnhashBoth(l: Link, l': Link)
      requires Valid() && MayExchange(nodes, names, rank, l, l')
      modifies `nodes, `names
      ensures Valid() && Cleared(old(nodes), old(names), Both(At(old(names), l), At(old(names), l')), nodes, names)
      ensures Both(At(old(names), l), At(old(names), l')) <= nodes.Keys
    {
      hide Linked, Ranked, Counted, Kids, Cleared, OffTheWay, IsBelow;
      var o, n := At(names, l), At(names, l');
      ghost var nodes0, names0 := nodes, names;
      if l in names { FoundNode(nodes, names, rank, l); }
      if l' in names { FoundNode(nodes, names, rank, l'); }
      ghost var different := o.Some? && n.Some? && o != n;
      if different {
        MovedOffTheWay(nodes, rank, n.value, o.value, l.parent);
        MovedOffTheWay(nodes, rank, o.value, n.value, l'.parent);
      }
      ClearedNothing(nodes, names);
      if o.Some? {
        Detach(o.value, if different then {n.value} else {});
      }
      ghost var nodes1, names1 := nodes, names;
      LooseRanks(nodes, names, rank);
      ClearedNothing(nodes, names);
      if different {
        StillOffTheWay(nodes0, names0, rank, n.value, o.value, {o.value}, nodes1, names1);
      }
      if n.Some? {
        Detach(n.value, if different then {o.value} else {});
      }
      ClearedTwice(nodes0, names0, Both(o, None), nodes1, names1, Both(None, n), nodes, names);
      assert Both(o, None) + Both(None, n) == Both(o, n);
    }

    /** `exchange_node`. When both names are the same entry it is hashed twice, and the cache is no
        longer consistent; in every other case the places are exchanged. */
    method ExchangeNode(olddir: Id, oldname: string, newdir: Id, newname: string)
      requires Valid() && MayExchange(nodes, names, rank, Link(olddir, oldname), Link(newdir, newname))
      modifies `nodes, `names, `rank
      ensures Valid() <==> Link(olddir, oldname) != Link(newdir, newname) || Link(olddir, oldname) !in old(names)
      ensures Valid() ==> Exchanged(old(nodes), old(names), Link(olddir, oldname), Link(newdir, newname), nodes, names)
      ensures Valid() ==> Tallied(old(nodes), Other, nodes)
    {
      hide Linked, Ranked, Counted, Kids, Cleared, Exchanged, IsBelow, HashedNodes, Looked, Relinked, Tallied;
      var l, l' := Link(olddir, oldname), Link(newdir, newname);
      var o, n := At(names, l), At(names, l');
      ghost var nodes0, names0 := nodes, names;
      UnhashBoth(l, l');
      if l != l' {
        rank := ExchangeReady(nodes0, names0, rank, l, l', nodes, names);
      } else if o.Some? {
        FoundNode(nodes0, names0, rank, l);
      }
      ExchangeDone(nodes0, names0, rank, l, l', nodes, names);
      if l != l' || o.None? {
        ExchangedTallied(nodes0, names0, l, l', Hashed(Hashed(nodes, o, l'), n, l), Named(Named(names, o, l'), n, l));
      }
      if o.Some? {
        HashName(o.value, l');
      }
      if n.Some? {
        HashName(n.value, l);
      }
    }
  }
}
