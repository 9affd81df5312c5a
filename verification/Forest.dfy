/** Parent links between nodes, as kept by `struct node` (tagfs/FUSE_driver/libfuse/lib/fuse.c,
    lines 137-155): a node hangs under a parent by a name, or is detached. */
module Forest {

  type Id = nat

  const FUSE_ROOT_ID: Id := 1

  datatype Link = Link(parent: Id, name: string)

  type Links = map<Id, Link>

  /** `rank` grows from parent to child, so the links have no cycle and walks upward end. */
  ghost predicate Ranks(links: Links, rank: Id -> nat) {
    forall n :: n in links ==> rank(links[n].parent) < rank(n)
  }

  ghost predicate Acyclic(links: Links) {
    exists rank: Id -> nat :: Ranks(links, rank)
  }

  /** `n` is `a` or lies in the subtree under it. */
  ghost predicate IsBelow(links: Links, rank: Id -> nat, a: Id, n: Id)
    requires Ranks(links, rank)
    decreases rank(n)
  {
    n == a || (n in links && IsBelow(links, rank, a, links[n].parent))
  }

  lemma {:induction false} BelowRank(links: Links, rank: Id -> nat, a: Id, n: Id)
    requires Ranks(links, rank) && IsBelow(links, rank, a, n)
    ensures rank(a) <= rank(n)
    decreases rank(n)
  {
    if n != a {
      BelowRank(links, rank, a, links[n].parent);
    }
  }

  lemma {:induction false} BelowTransitive(links: Links, rank: Id -> nat, a: Id, b: Id, c: Id)
    requires Ranks(links, rank) && IsBelow(links, rank, a, b) && IsBelow(links, rank, b, c)
    ensures IsBelow(links, rank, a, c)
    decreases rank(c)
  {
    if c != b {
      BelowTransitive(links, rank, a, b, links[c].parent);
    }
  }

  // Links on the way up that are kept keep the relation; the ranking does not matter.
  lemma {:induction false} BelowKept(links: Links, rank: Id -> nat, links': Links, rank': Id -> nat, a: Id, n: Id)
    requires Ranks(links, rank) && Ranks(links', rank') && IsBelow(links, rank, a, n)
    requires forall m :: m in links && m != a && IsBelow(links, rank, a, m) ==> m in links' && links'[m] == links[m]
    ensures IsBelow(links', rank', a, n)
    decreases rank(n)
  {
    if n != a {
      BelowKept(links, rank, links', rank', a, links[n].parent);
    }
  }

  /** Moving a node (with its subtree) under a new parent keeps the links free of cycles exactly
      when the new parent is not the node itself or something below it. */
  lemma ReparentAcyclic(links: Links, rank: Id -> nat, n: Id, l: Link)
    requires Ranks(links, rank)
    ensures Acyclic(links[n := l]) <==> !IsBelow(links, rank, n, l.parent)
  {
    var links' := links[n := l];
    if !IsBelow(links, rank, n, l.parent) {
      var rank' := (m: Id) => if IsBelow(links, rank, n, m) then rank(m) + rank(l.parent) + 1 else rank(m);
      forall m | m in links' ensures rank'(links'[m].parent) < rank'(m) {
        assert m != n ==> (IsBelow(links, rank, n, m) <==> IsBelow(links, rank, n, links[m].parent));
      }
      assert Ranks(links', rank');
    } else if Acyclic(links') {
      var r: Id -> nat :| Ranks(links', r);
      assert r(links'[n].parent) < r(n);
      BelowKept(links, rank, links', r, n, l.parent);
      BelowRank(links', r, n, l.parent);
    }
  }

  // After moving `o`, whatever lies below `n` lay below `n` or below `o` before.
  lemma {:induction false} BelowAfterMove(links: Links, rank: Id -> nat, o: Id, l: Link, rank': Id -> nat, n: Id, x: Id)
    requires Ranks(links, rank) && Ranks(links[o := l], rank') && IsBelow(links[o := l], rank', n, x)
    ensures IsBelow(links, rank, n, x) || IsBelow(links, rank, o, x)
    decreases rank'(x)
  {
    if x != n && x != o {
      BelowAfterMove(links, rank, o, l, rank', n, links[x].parent);
    }
  }

  /** Exchanging two nodes' places keeps the links free of cycles when neither goes below itself. */
  lemma ExchangeAcyclic(links: Links, rank: Id -> nat, o: Id, n: Id)
    requires Ranks(links, rank) && o in links && n in links && o != n
    requires !IsBelow(links, rank, o, links[n].parent) && !IsBelow(links, rank, n, links[o].parent)
    ensures Acyclic(links[o := links[n]][n := links[o]])
  {
    var moved := links[o := links[n]];
    ReparentAcyclic(links, rank, o, links[n]);
    var rank': Id -> nat :| Ranks(moved, rank');
    if IsBelow(moved, rank', n, links[o].parent) {
      BelowAfterMove(links, rank, o, links[n], rank', n, links[o].parent);
      BelowRank(links, rank, o, links[o].parent);
    }
    ReparentAcyclic(moved, rank', n, links[o]);
  }
}
