/** The shape of a block tree, which no operation on flags or payloads changes. */
module TreeShape {
  import opened BlockIndexes

  /** Every node but the root hangs off another node, one level below it. */
  ghost predicate Shape(s: set<BlockIndex>, root: BlockIndex) {
    && root in s && root.pprev == null
    && forall x <- s :: x.Sound() && (x == root || (x.pprev != null && x.pprev in s))
  }

  ghost function Children(s: set<BlockIndex>, x: BlockIndex): set<BlockIndex> {
    set n <- s | n.pprev == x
  }

  /** The forward links are the backward links turned around. */
  ghost predicate Linked(s: set<BlockIndex>)
    reads s`pnext
  {
    forall x <- s :: x.pnext == Children(s, x)
  }

  /** A block and everything behind it. */
  ghost function Subtree(s: set<BlockIndex>, b: BlockIndex): set<BlockIndex>
    requires forall x <- s :: x.Sound()
  {
    set x <- s | b in x.Ancestors()
  }

  ghost function Below(s: set<BlockIndex>, b: BlockIndex): set<BlockIndex>
    requires forall x <- s :: x.Sound()
  {
    Subtree(s, b) - {b}
  }

  lemma ShapeOf(s: set<BlockIndex>, root: BlockIndex, x: BlockIndex)
    requires Shape(s, root) && x in s
    ensures x.Sound() && (x != root ==> x.pprev != null && x.pprev in s)
  {
  }

  lemma NextAreChildren(s: set<BlockIndex>, x: BlockIndex)
    requires Linked(s) && x in s
    ensures x.pnext == Children(s, x)
  {
  }

  lemma {:induction false} AncestorsInside(s: set<BlockIndex>, root: BlockIndex, b: BlockIndex)
    requires Shape(s, root) && b in s
    ensures b.Ancestors() <= s && root in b.Ancestors()
    decreases b.height
  {
    if b != root {
      AncestorsInside(s, root, b.pprev);
    }
  }

  /** A block below another one is behind one of its children. */
  lemma {:induction false} BehindAChild(s: set<BlockIndex>, root: BlockIndex, b: BlockIndex, x: BlockIndex)
    requires Shape(s, root) && b in s && x in Below(s, b)
    ensures exists c <- Children(s, b) :: x in Subtree(s, c)
    decreases x.height
  {
    if x.pprev == b {
      assert x in Children(s, b);
    } else {
      assert x.pprev in Below(s, b);
      BehindAChild(s, root, b, x.pprev);
      var c :| c in Children(s, b) && x.pprev in Subtree(s, c);
      assert x in Subtree(s, c);
    }
  }

  /** A subtree is its first block and the blocks that follow one of its blocks. */
  lemma SubtreeStep(s: set<BlockIndex>, root: BlockIndex, b: BlockIndex)
    requires Shape(s, root) && b in s && b != root
    ensures b in Subtree(s, b) && b.pprev !in Subtree(s, b) && root !in Subtree(s, b)
    ensures forall x <- s :: x in Subtree(s, b) <==> x == b || x.pprev in Subtree(s, b)
  {
    AncestorHeights(b.pprev);
  }

  /** The subtree of a child is part of what is below the block, and shrinks. */
  lemma ChildSubtree(s: set<BlockIndex>, root: BlockIndex, b: BlockIndex, c: BlockIndex)
    requires Shape(s, root) && b in s && c in Children(s, b)
    ensures Subtree(s, c) <= Below(s, b)
    ensures Subtree(s, c) < Subtree(s, b)
  {
    forall x <- Subtree(s, c)
      ensures x in Below(s, b)
    {
      AncestorHeights(x);
      AncestorsNest(c, x);
    }
    assert b !in Subtree(s, c) && b in Subtree(s, b);
  }

  lemma SiblingsApart(s: set<BlockIndex>, root: BlockIndex, c: BlockIndex, d: BlockIndex)
    requires Shape(s, root) && c in s && d in s && c.pprev == d.pprev && c != d && c != root && d != root
    ensures Subtree(s, c) !! Subtree(s, d)
  {
    forall x | x in Subtree(s, c)
      ensures x !in Subtree(s, d)
    {
      if x in Subtree(s, d) {
        OneAncestorPerHeight(x, c, d);
      }
    }
  }

  ghost function Subtrees(s: set<BlockIndex>, cs: set<BlockIndex>): set<BlockIndex>
    requires forall x <- s :: x.Sound()
  {
    set x <- s | exists c <- cs :: x in Subtree(s, c)
  }

  lemma AllChildren(s: set<BlockIndex>, root: BlockIndex, b: BlockIndex)
    requires Shape(s, root) && b in s
    ensures Subtrees(s, Children(s, b)) == Below(s, b)
  {
    forall x <- Below(s, b)
      ensures x in Subtrees(s, Children(s, b))
    {
      BehindAChild(s, root, b, x);
    }
    forall x <- Subtrees(s, Children(s, b))
      ensures x in Below(s, b)
    {
      var c :| c in Children(s, b) && x in Subtree(s, c);
      ChildSubtree(s, root, b, c);
    }
  }

  /** Taking one child out of a set of children splits its subtree off. */
  lemma OneChildLess(s: set<BlockIndex>, root: BlockIndex, b: BlockIndex, cs: set<BlockIndex>, c: BlockIndex)
    requires Shape(s, root) && b in s && cs <= Children(s, b) && c in cs
    ensures Subtrees(s, cs) == Subtree(s, c) + Subtrees(s, cs - {c})
    ensures Subtree(s, c) !! Subtrees(s, cs - {c})
    ensures forall d <- cs - {c} :: Subtree(s, d) !! Subtree(s, c)
  {
    forall d <- cs - {c}
      ensures Subtree(s, d) !! Subtree(s, c)
    {
      SiblingsApart(s, root, c, d);
    }
    forall x <- Subtrees(s, cs)
      ensures x in Subtree(s, c) + Subtrees(s, cs - {c})
    {
      var d :| d in cs && x in Subtree(s, d);
    }
  }

  /** Hanging one more block off a tree leaves a tree. */
  lemma OneMoreNode(s: set<BlockIndex>, root: BlockIndex, n: BlockIndex)
    requires Shape(s, root) && n !in s && n.pprev != null && n.pprev in s && n.height == n.pprev.height + 1
    ensures Shape(s + {n}, root)
    ensures forall x <- s :: n !in x.Ancestors() && Children(s + {n}, x) == Children(s, x) + if x == n.pprev then {n} else {}
    ensures Children(s + {n}, n) == {}
  {
    forall x <- s
      ensures n !in x.Ancestors()
    {
      AncestorsInside(s, root, x);
    }
    assert forall x <- s :: x.pprev != n;
    assert n.pprev != n;
  }

  lemma OneMoreLink(s: set<BlockIndex>, root: BlockIndex, n: BlockIndex)
    requires Shape(s, root) && n !in s && n.pprev != null && n.pprev in s && n.height == n.pprev.height + 1
    requires forall x <- s :: x.pnext == Children(s, x) + if x == n.pprev then {n} else {}
    requires n.pnext == {}
    ensures Shape(s + {n}, root) && Linked(s + {n})
  {
    OneMoreNode(s, root, n);
  }

  lemma NotBehindItself(s: set<BlockIndex>, root: BlockIndex, n: BlockIndex)
    requires Shape(s, root) && n in s && n.pprev != null
    ensures n.pprev in s && n !in n.pprev.Ancestors() && n.Ancestors() == n.pprev.Ancestors() + {n}
    ensures n.height == n.pprev.height + 1
  {
    AncestorHeights(n.pprev);
  }

  /** What two blocks have in common is what lies up to their fork. */
  lemma UpToFork(a: BlockIndex, b: BlockIndex, fork: BlockIndex)
    requires a.Sound() && b.Sound() && fork in a.Ancestors() && fork in b.Ancestors()
    requires forall c <- a.Ancestors() * b.Ancestors() :: c.height <= fork.height
    ensures fork.Sound() && forall x <- b.Ancestors() :: x in a.Ancestors() <==> x in fork.Ancestors()
    ensures forall x <- a.Ancestors() :: x in b.Ancestors() <==> x in fork.Ancestors()
  {
    AncestorsNest(fork, a);
    AncestorsNest(fork, b);
    forall x <- a.Ancestors() * b.Ancestors()
      ensures x in fork.Ancestors()
    {
      AncestorsAreAChain(a, x, fork);
    }
  }

  lemma {:induction false} NotBehind(s: set<BlockIndex>, root: BlockIndex, n: BlockIndex, x: BlockIndex)
    requires Shape(s, root) && n in s && x in s && x != n && Children(s, n) == {}
    ensures x.Sound() && n !in x.Ancestors()
    decreases x.height
  {
    assert x !in Children(s, n);
    if x != root {
      NotBehind(s, root, n, x.pprev);
    }
  }

  /** Unlinking a leaf leaves a linked tree. */
  lemma OneLinkLess(s: set<BlockIndex>, root: BlockIndex, n: BlockIndex)
    requires Shape(s, root) && n in s && n != root && Children(s, n) == {}
    requires forall x <- s - {n} :: x.pnext == Children(s, x) - {n}
    ensures Linked(s - {n})
  {
    assert forall x <- s :: Children(s - {n}, x) == Children(s, x) - {n};
  }
}
