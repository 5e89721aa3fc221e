/** What the flags, the levels and the tips of a block tree have to do with each other. */
module TreeInvariants {
  import opened BlockIndexes
  import opened TreeShape

  ghost function WithPrev(x: BlockIndex): set<BlockIndex> {
    if x.pprev == null then {x} else {x, x.pprev}
  }

  /** A block is a failed child exactly when the block before it failed. */
  ghost predicate Inherits(x: BlockIndex)
    reads WithPrev(x)`failedBlock, WithPrev(x)`failedPop, WithPrev(x)`failedChild
  {
    x.failedChild <==> x.pprev != null && x.pprev.Failed()
  }

  ghost predicate AllInherit(s: set<BlockIndex>, root: BlockIndex)
    requires Shape(s, root)
    reads s`failedBlock, s`failedPop, s`failedChild
  {
    forall x <- s :: Inherits(x)
  }

  /** Everything below a block follows the block before it; depends on the subtree alone. */
  ghost predicate InheritBelow(s: set<BlockIndex>, root: BlockIndex, b: BlockIndex)
    requires Shape(s, root)
    reads Subtree(s, b)`failedBlock, Subtree(s, b)`failedPop, Subtree(s, b)`failedChild
  {
    forall x <- Below(s, b) :: Inherits(x)
  }

  ghost predicate InheritFrom(s: set<BlockIndex>, root: BlockIndex, b: BlockIndex)
    requires Shape(s, root)
    reads (WithPrev(b) + Subtree(s, b))`failedBlock, (WithPrev(b) + Subtree(s, b))`failedPop
    reads (WithPrev(b) + Subtree(s, b))`failedChild
  {
    Inherits(b) && InheritBelow(s, root, b)
  }

  lemma InheritByChildren(s: set<BlockIndex>, root: BlockIndex, b: BlockIndex)
    requires Shape(s, root) && b in s
    ensures (forall c <- Children(s, b) :: InheritFrom(s, root, c)) ==> InheritBelow(s, root, b)
  {
    if forall c <- Children(s, b) :: InheritFrom(s, root, c) {
      forall x <- Below(s, b)
        ensures Inherits(x)
      {
        BehindAChild(s, root, b, x);
        var c :| c in Children(s, b) && x in Subtree(s, c);
        assert InheritFrom(s, root, c);
      }
    }
  }

  /** Failure reaches everything below a failed block. */
  lemma {:induction false} FailureSpreads(s: set<BlockIndex>, root: BlockIndex, b: BlockIndex, x: BlockIndex)
    requires Shape(s, root) && b in s && b.Failed() && InheritBelow(s, root, b) && x in Below(s, b)
    ensures x.failedChild
    decreases x.height
  {
    if x.pprev != b {
      FailureSpreads(s, root, b, x.pprev);
    }
  }

  /** The blocks that may be tips. */
  ghost function Able(s: set<BlockIndex>): set<BlockIndex>
    reads s`level, s`failedBlock, s`failedPop, s`failedChild
  {
    set x <- s | x.CanBeATip()
  }

  /** Of the blocks that may be tips, those with no such block right behind them. */
  ghost function TipsOf(able: set<BlockIndex>): set<BlockIndex> {
    set x <- able | forall n <- able :: n.pprev != x
  }

  /** One more block that may be a tip, with none behind it, replaces the one before it. */
  lemma OneMoreAble(able: set<BlockIndex>, b: BlockIndex)
    requires b !in able && forall n <- able :: n.pprev != b
    requires b.Sound()
    ensures TipsOf(able + {b}) == set x <- TipsOf(able) + {b} | x != b.pprev
  {
  }

  /** When a set of blocks with everything behind them stops being able, the only block that
      may become a tip is the one before them. */
  lemma FewerAble(s: set<BlockIndex>, root: BlockIndex, able: set<BlockIndex>, b: BlockIndex)
    requires Shape(s, root) && b in s && able <= s && b != root
    ensures var less := able - Subtree(s, b);
            var kept := TipsOf(able) - Subtree(s, b);
            TipsOf(less) == if b.pprev in less && forall n <- less :: n.pprev != b.pprev
                            then kept + {b.pprev} else kept
  {
    var less := able - Subtree(s, b);
    forall x <- less, n <- able - less | n.pprev == x
      ensures x == b.pprev
    {
      assert n in Subtree(s, b);
    }
  }

  /** A block with none behind it stops being able: trying the block before it is enough. */
  lemma OneLessAble(able: set<BlockIndex>, b: BlockIndex)
    requires b.Sound() && b.pprev != null && forall n <- able :: n.pprev != b
    ensures var less := able - {b};
            var kept := TipsOf(able) - {b};
            TipsOf(less) == if b.pprev in TipsOf(less) then set x <- kept + {b.pprev} | x != b.pprev.pprev else kept
  {
    var less := able - {b};
    if b.pprev in TipsOf(less) {
      assert b.pprev.pprev !in TipsOf(less);
      assert TipsOf(less) == TipsOf(able) - {b} + {b.pprev};
    } else {
      assert TipsOf(less) == TipsOf(able) - {b};
    }
  }

  /** Below a failed block everything has failed. */
  lemma FailedChildren(s: set<BlockIndex>, root: BlockIndex, r: BlockIndex)
    requires Shape(s, root) && r in s && AllInherit(s, root) && r.Failed()
    ensures forall c <- Children(s, r) ::
              InheritBelow(s, root, c) && r !in Subtree(s, c) && Subtree(s, c) <= s && c.failedChild
    ensures forall n <- Able(s) :: n.pprev != r
  {
    hide BlockIndex.Ancestors, BlockIndex.Sound;
    forall c <- Children(s, r)
      ensures InheritBelow(s, root, c) && r !in Subtree(s, c) && Subtree(s, c) <= s && c.failedChild
    {
      ChildSubtree(s, root, r, c);
      assert Inherits(c);
    }
    forall n <- Able(s)
      ensures n.pprev != r
    {
      assert Inherits(n);
    }
  }

  lemma TipsAreAble(able: set<BlockIndex>, fewer: set<BlockIndex>, tips: set<BlockIndex>)
    requires tips == TipsOf(able) || tips == TipsOf(fewer)
    requires fewer <= able
    ensures tips <= able
  {
  }

  /** Dropping a subtree from the tips and trying the block before it leaves the right tips,
      whether or not the first block of the subtree was taken into account before. */
  lemma TipsAfterDrop(s: set<BlockIndex>, root: BlockIndex, able: set<BlockIndex>, b: BlockIndex, tips: set<BlockIndex>)
    requires Shape(s, root) && b in s && able <= s && b != root
    requires tips == TipsOf(able) || tips == TipsOf(able - {b})
    ensures var less := able - Subtree(s, b);
            var kept := tips - Subtree(s, b);
            TipsOf(less) == if b.pprev in TipsOf(less) then set x <- kept + {b.pprev} | x != b.pprev.pprev else kept
  {
    SubtreeStep(s, root, b);
    AncestorHeights(b.pprev);
    FewerAble(s, root, able, b);
    FewerAble(s, root, able - {b}, b);
    var less := able - Subtree(s, b);
    assert able - {b} - Subtree(s, b) == less;
    var kept := tips - Subtree(s, b);
    if b.pprev in TipsOf(less) {
      assert b.pprev.pprev !in TipsOf(less);
      assert TipsOf(less) == kept + {b.pprev};
    }
  }

  /** The applied blocks are the chain from the root to `top`. */
  ghost predicate AppliedChain(s: set<BlockIndex>, root: BlockIndex, top: BlockIndex)
    requires Shape(s, root)
    reads s`active
  {
    top in s && forall x <- s :: x.active <==> x in top.Ancestors()
  }

  /** Applied blocks are fully valid. */
  ghost predicate AppliedSound(s: set<BlockIndex>)
    reads s`active, s`level, s`failedBlock, s`failedPop, s`failedChild
  {
    forall x <- s :: x.active ==> !x.Failed() && x.level == CAN_BE_APPLIED
  }

  /** Levels are known, a block is connected exactly when its body was added and the block
      before it is connected, unless it is still waiting; and only a connected block that is
      not known to be fully valid can have failed because of its payloads. */
  ghost predicate LevelsFollow(s: set<BlockIndex>, root: BlockIndex, waiting: set<BlockIndex>)
    requires Shape(s, root)
    reads s`level, s`bodyAdded, s`failedPop
  {
    root.level == CAN_BE_APPLIED && forall x <- s :: LevelFollows(root, x, x in waiting)
  }

  ghost predicate LevelFollows(root: BlockIndex, x: BlockIndex, waits: bool)
    requires x == root || x.pprev != null
    reads WithPrev(x)`level, x`bodyAdded, x`failedPop
  {
    && VALID_TREE <= x.level <= CAN_BE_APPLIED
    && (x.failedPop ==> x.Connected() && x.level < CAN_BE_APPLIED)
    && (x != root ==> (x.Connected() <==> x.bodyAdded && x.pprev.Connected() && !waits))
  }

  lemma ConnectedBlock(s: set<BlockIndex>, root: BlockIndex, waiting: set<BlockIndex>, x: BlockIndex)
    requires Shape(s, root) && LevelsFollow(s, root, waiting) && x in s && x != root && x.Connected()
    ensures x.Sound() && x.bodyAdded && x.pprev != null && x.pprev in s && x.pprev.Connected()
    ensures x !in waiting && root.level == CAN_BE_APPLIED
  {
    assert LevelFollows(root, x, x in waiting);
  }

  lemma WaitingBlock(s: set<BlockIndex>, root: BlockIndex, waiting: set<BlockIndex>,
                     finalized: set<Id>, rejected: set<BlockIndex>, x: BlockIndex)
    requires Shape(s, root) && LevelsFollow(s, root, waiting) && PopFollows(s, root, finalized, rejected)
    requires x in s && x != root && x in waiting
    ensures x.Sound() && !x.Connected() && x !in rejected && !x.failedPop
  {
    assert LevelFollows(root, x, x in waiting);
    assert PopFollowsAt(s, x, finalized, x in rejected);
  }

  /** Nothing behind an unconnected block is connected. */
  lemma UnconnectedAncestor(s: set<BlockIndex>, root: BlockIndex, waiting: set<BlockIndex>, b: BlockIndex, index: BlockIndex)
    requires Shape(s, root) && LevelsFollow(s, root, waiting) && b in s && b.Connected() && !index.Connected()
    ensures b.Sound() && index !in b.Ancestors()
  {
    if index in b.Ancestors() {
      ConnectedUpwards(s, root, waiting, b, index);
    }
  }

  lemma FreshlyConnected(s: set<BlockIndex>, root: BlockIndex, x: BlockIndex, finalized: set<Id>)
    requires x in s && x.Sound() && x.pprev != null && x.level == CONNECTED && x.bodyAdded && x.pprev.Connected()
    requires x.failedPop <==> Duplicate(Stored(s), x, finalized)
    ensures LevelFollows(root, x, false) && PopFollowsAt(s, x, finalized, false)
  {
  }

  lemma {:induction false} ConnectedUpwards(s: set<BlockIndex>, root: BlockIndex, waiting: set<BlockIndex>,
                                           b: BlockIndex, a: BlockIndex)
    requires Shape(s, root) && LevelsFollow(s, root, waiting)
    requires b in s && b.Connected() && a in b.Ancestors()
    ensures a in s && a.Connected()
    decreases b.height
  {
    if a != b {
      ConnectedUpwards(s, root, waiting, b.pprev, a);
    }
  }

  /** The payload ids that each block stores. */
  ghost function Stored(s: set<BlockIndex>): map<BlockIndex, set<Id>>
    reads s`atvIds, s`vtbIds, s`vbkIds
  {
    map x | x in s :: x.Ids()
  }

  /** The payload is in a final block or in a block before `b`. */
  ghost predicate IsDuplicate(stored: map<BlockIndex, set<Id>>, b: BlockIndex, finalized: set<Id>, i: Id)
    requires b.Sound()
  {
    i in finalized || exists a <- stored :: a in b.ProperAncestors() && i in stored[a]
  }

  /** Some payload of the block is a duplicate. */
  ghost predicate Duplicate(stored: map<BlockIndex, set<Id>>, b: BlockIndex, finalized: set<Id>)
    requires b in stored && b.Sound()
  {
    exists i <- stored[b] :: IsDuplicate(stored, b, finalized, i)
  }

  /** Whether a block holds a duplicate does not depend on payloads stored elsewhere. */
  lemma DuplicateElsewhere(before: map<BlockIndex, set<Id>>, after: map<BlockIndex, set<Id>>, b: BlockIndex,
                           finalized: set<Id>, index: BlockIndex)
    requires b in before && b.Sound() && index !in b.Ancestors()
    requires forall x :: x != index ==> (x in before <==> x in after) && (x in before ==> before[x] == after[x])
    ensures Duplicate(before, b, finalized) <==> Duplicate(after, b, finalized)
  {
    assert index !in b.ProperAncestors();
    assert forall i :: IsDuplicate(before, b, finalized, i) == IsDuplicate(after, b, finalized, i);
  }

  /** A connected block failed because of its payloads exactly when it holds a duplicate, or
      its commands were rejected. */
  ghost predicate PopFollows(s: set<BlockIndex>, root: BlockIndex, finalized: set<Id>, rejected: set<BlockIndex>)
    requires Shape(s, root)
    reads s`level, s`failedPop, s`atvIds, s`vtbIds, s`vbkIds
  {
    forall b <- s :: b != root ==> PopFollowsAt(s, b, finalized, b in rejected)
  }

  ghost predicate PopFollowsAt(s: set<BlockIndex>, b: BlockIndex, finalized: set<Id>, rejected: bool)
    requires b in s && b.Sound()
    reads b`level, b`failedPop, s`atvIds, s`vtbIds, s`vbkIds
  {
    && (rejected ==> b.Connected())
    && (b.Connected() ==> (b.failedPop <==> Duplicate(Stored(s), b, finalized) || rejected))
  }

  /** A block without a body holds no payloads; a list holds no id twice. */
  ghost predicate BodiesFollow(s: set<BlockIndex>, root: BlockIndex)
    reads s`bodyAdded, s`atvIds, s`vtbIds, s`vbkIds
  {
    forall x <- s ::
      && (x == root || !x.bodyAdded ==> x.Ids() == {})
      && forall k: Kind :: Distinct(x.PayloadIds(k))
  }

  predicate Distinct(ids: seq<Id>) {
    forall i, j :: 0 <= i < j < |ids| ==> ids[i] != ids[j]
  }

  /** A new header, without a body, keeps everything as it was for the other blocks. */
  lemma OneMoreHeader(s: set<BlockIndex>, root: BlockIndex, n: BlockIndex, finalized: set<Id>, rejected: set<BlockIndex>)
    requires Shape(s, root) && n !in s && n.pprev != null && n.pprev in s && n.height == n.pprev.height + 1
    requires n.level == VALID_TREE && !n.failedBlock && !n.failedPop && !n.bodyAdded && n.Ids() == {}
    requires n.failedChild == n.pprev.Failed() && n !in rejected && !n.active
    requires forall k: Kind :: n.PayloadIds(k) == []
    ensures Shape(s + {n}, root) && Able(s + {n}) == Able(s)
    ensures AllInherit(s, root) ==> AllInherit(s + {n}, root)
    ensures AppliedSound(s) ==> AppliedSound(s + {n})
    ensures forall top <- s :: AppliedChain(s, root, top) ==> AppliedChain(s + {n}, root, top)
    ensures BodiesFollow(s, root) ==> BodiesFollow(s + {n}, root)
    ensures LevelsFollow(s, root, {}) ==> LevelsFollow(s + {n}, root, {})
    ensures PopFollows(s, root, finalized, rejected) ==> PopFollows(s + {n}, root, finalized, rejected)
  {
    hide BlockIndex.Ancestors, BlockIndex.Ids, Duplicate, BlockIndex.ProperAncestors;
    OneMoreNode(s, root, n);
    if LevelsFollow(s, root, {}) {
      forall x <- s + {n}
        ensures (x == root || x.pprev != null) && LevelFollows(root, x, false)
      {
        if x in s {
          assert LevelFollows(root, x, x in {});
        }
      }
    }
    if PopFollows(s, root, finalized, rejected) {
      forall b <- s | b != root
        ensures b.Sound() && PopFollowsAt(s + {n}, b, finalized, b in rejected)
      {
        ShapeOf(s, root, b);
        assert PopFollowsAt(s, b, finalized, b in rejected);
        DuplicateElsewhere(Stored(s), Stored(s + {n}), b, finalized, n);
      }
    }
  }

  /** A bootstrap block alone is a tree that follows every rule. */
  lemma OneNode(root: BlockIndex, finalized: set<Id>)
    requires root.pprev == null && root.pnext == {} && root.level == CAN_BE_APPLIED && root.active
    requires !root.Failed() && root.Ids() == {} && forall k: Kind :: root.PayloadIds(k) == []
    ensures Shape({root}, root) && Linked({root}) && AllInherit({root}, root)
    ensures AppliedSound({root}) && AppliedChain({root}, root, root)
    ensures Able({root}) == {root} && TipsOf({root}) == {root}
    ensures BodiesFollow({root}, root) && LevelsFollow({root}, root, {}) && PopFollows({root}, root, finalized, {})
  {
  }

  /** What comes before a valid block is valid. */
  lemma {:induction false} ValidUpwards(s: set<BlockIndex>, root: BlockIndex, b: BlockIndex, a: BlockIndex)
    requires Shape(s, root) && AllInherit(s, root) && b in s && a in b.Ancestors() && !b.Failed()
    ensures a in s && !a.Failed()
    decreases b.height
  {
    if a != b {
      assert Inherits(b);
      ValidUpwards(s, root, b.pprev, a);
    }
  }

  /** A block fails only if it, or a block before it, failed of its own. */
  lemma {:induction false} OwnFailures(s: set<BlockIndex>, root: BlockIndex, b: BlockIndex)
    requires Shape(s, root) && AllInherit(s, root) && b in s
    requires forall a <- b.Ancestors() :: !a.failedBlock && !a.failedPop
    ensures !b.Failed()
    decreases b.height
  {
    assert Inherits(b);
    if b.pprev != null {
      OwnFailures(s, root, b.pprev);
    }
  }

  /** When no child of a block is connected, nothing behind the block is. */
  lemma {:induction false} NothingConnectedBehind(s: set<BlockIndex>, root: BlockIndex, b: BlockIndex, x: BlockIndex)
    requires Shape(s, root) && LevelsFollow(s, root, {}) && b in s && x in s && x.Connected() && x != b
    requires forall c <- Children(s, b) :: !c.Connected()
    ensures x.Sound() && b !in x.Ancestors()
    decreases x.height
  {
    ShapeOf(s, root, x);
    if b in x.Ancestors() {
      assert LevelFollows(root, x, false);
      if x.pprev != b {
        NothingConnectedBehind(s, root, b, x.pprev);
      }
    }
  }

  lemma SameButOne(before: map<BlockIndex, set<Id>>, after: map<BlockIndex, set<Id>>, b: BlockIndex,
                   finalized: set<Id>, pid: Id)
    requires b in before && b in after && b.Sound() && before[b] - {pid} == after[b] - {pid}
    requires forall i :: IsDuplicate(before, b, finalized, i) == IsDuplicate(after, b, finalized, i)
    requires !IsDuplicate(before, b, finalized, pid)
    ensures Duplicate(before, b, finalized) == Duplicate(after, b, finalized)
  {
    hide IsDuplicate;
    if i :| i in before[b] && IsDuplicate(before, b, finalized, i) {
      assert i in before[b] - {pid};
      assert i in after[b] && IsDuplicate(after, b, finalized, i);
    }
    if i :| i in after[b] && IsDuplicate(after, b, finalized, i) {
      assert IsDuplicate(before, b, finalized, i);
      assert i in after[b] - {pid};
      assert i in before[b];
    }
  }

  /** Which blocks failed by their payloads does not change when a payload that is no
      duplicate comes to, or leaves, a block with nothing connected behind it. */
  lemma OneMoreOrLess(s: set<BlockIndex>, root: BlockIndex, finalized: set<Id>, rejected: set<BlockIndex>,
                      before: map<BlockIndex, set<Id>>, b: BlockIndex, pid: Id)
    requires Shape(s, root) && LevelsFollow(s, root, {}) && b in s && b != root && b.Sound()
    requires forall c <- Children(s, b) :: !c.Connected()
    requires before.Keys == s && forall x <- s | x != b :: x.Ids() == before[x]
    requires b.Ids() - {pid} == before[b] - {pid} && !IsDuplicate(before, b, finalized, pid)
    requires forall x <- s | x != root :: x.Sound() && (x in rejected ==> x.Connected()) &&
               (x.Connected() ==> (x.failedPop <==> Duplicate(before, x, finalized) || x in rejected))
    ensures PopFollows(s, root, finalized, rejected) && !IsDuplicate(Stored(s), b, finalized, pid)
  {
    hide BlockIndex.Ancestors, BlockIndex.Ids, Shape, LevelFollows;
    var after := Stored(s);
    NotBehindItself(s, root, b) by {
      ShapeOf(s, root, b);
    }
    assert forall i :: IsDuplicate(before, b, finalized, i) == IsDuplicate(after, b, finalized, i);
    SameButOne(before, after, b, finalized, pid);
    forall x <- s | x != root
      ensures PopFollowsAt(s, x, finalized, x in rejected)
    {
      if x.Connected() && x != b {
        NothingConnectedBehind(s, root, b, x);
        DuplicateElsewhere(before, after, x, finalized, b);
      }
    }
  }

  /** Nothing else depends on a block with none behind it. */
  lemma OneNodeLess(s: set<BlockIndex>, root: BlockIndex, n: BlockIndex, finalized: set<Id>, rejected: set<BlockIndex>)
    requires Shape(s, root) && n in s && n != root && Children(s, n) == {}
    ensures Shape(s - {n}, root) && Able(s - {n}) == Able(s) - {n}
    ensures forall x <- s - {n} :: n !in x.Ancestors()
    ensures AllInherit(s, root) ==> AllInherit(s - {n}, root)
    ensures AppliedSound(s) ==> AppliedSound(s - {n})
    ensures forall top <- s - {n} :: AppliedChain(s, root, top) ==> AppliedChain(s - {n}, root, top)
    ensures BodiesFollow(s, root) ==> BodiesFollow(s - {n}, root)
    ensures LevelsFollow(s, root, {}) ==> LevelsFollow(s - {n}, root, {})
    ensures PopFollows(s, root, finalized, rejected) ==> PopFollows(s - {n}, root, finalized, rejected)
  {
    hide BlockIndex.Ancestors, BlockIndex.Ids, Duplicate, BlockIndex.ProperAncestors;
    forall x <- s - {n}
      ensures n !in x.Ancestors() && x.pprev != n && x.Sound()
    {
      assert x !in Children(s, n);
      NotBehind(s, root, n, x);
    }
    if LevelsFollow(s, root, {}) {
      forall x <- s - {n}
        ensures (x == root || x.pprev != null) && LevelFollows(root, x, false)
      {
        assert LevelFollows(root, x, x in {});
      }
    }
    if PopFollows(s, root, finalized, rejected) {
      forall b <- s - {n} | b != root
        ensures b.Sound() && PopFollowsAt(s - {n}, b, finalized, b in rejected)
      {
        assert PopFollowsAt(s, b, finalized, b in rejected);
        DuplicateElsewhere(Stored(s), Stored(s - {n}), b, finalized, n);
      }
    }
  }
}
