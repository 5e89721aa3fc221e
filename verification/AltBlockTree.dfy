/** The tree of ALT blocks: headers and bodies arrive in any order, blocks are connected,
    invalidated, revalidated and stripped of their payloads. */
module AltTree {
  import opened BlockIndexes
  import opened Chains
  import opened PayloadsIndexes
  import opened TreeShape
  import opened TreeInvariants

  datatype Reason = FailedBlock | FailedPop | FailedChild

  predicate HasFlag(b: BlockIndex, reason: Reason)
    reads b`failedBlock, b`failedPop, b`failedChild
  {
    match reason
    case FailedBlock => b.failedBlock
    case FailedPop => b.failedPop
    case FailedChild => b.failedChild
  }

  /** The block, if the reason is the given one. */
  ghost function On(b: BlockIndex, reason: Reason, flag: Reason): set<BlockIndex> {
    if reason == flag then {b} else {}
  }

  method SetFlag(b: BlockIndex, reason: Reason, value: bool)
    modifies On(b, reason, FailedBlock)`failedBlock
    modifies On(b, reason, FailedPop)`failedPop
    modifies On(b, reason, FailedChild)`failedChild
    ensures HasFlag(b, reason) == value
  {
    match reason
    case FailedBlock => b.failedBlock := value;
    case FailedPop => b.failedPop := value;
    case FailedChild => b.failedChild := value;
  }

  /** The ids of a block body. */
  datatype PopIds = PopIds(context: seq<Id>, vtbs: seq<Id>, atvs: seq<Id>)

  predicate NoDuplicates(pop: PopIds) {
    Distinct(pop.context) && Distinct(pop.vtbs) && Distinct(pop.atvs)
  }

  class AltBlockTree {
    const root: BlockIndex
    var blocks: map<Hash, BlockIndex>
    var tips: set<BlockIndex>
    var activeTip: BlockIndex
    const payloadsIndex: PayloadsIndex
    const finalized: set<Id>
    ghost var rejected: set<BlockIndex>
    var appliedBlockCount: int

    /** Bootstraps the tree with its root block; `finalized` are the payloads known to be in
        blocks that are final. */
    constructor (hash: Hash, height: nat, finalized: set<Id>)
      ensures Valid()
      ensures root.hash == hash && root.height == height && fresh(root)
      ensures blocks == map[hash := root] && tips == {root} && activeTip == root
      ensures this.finalized == finalized && rejected == {}
    {
      hide Valid, IndexExact, Wired, Able, TipsOf, BlockIndex.Ids;
      var index := new BlockIndex.Root(hash, height);
      root, blocks, tips := index, map[hash := index], {};
      activeTip, appliedBlockCount := index, 1;
      payloadsIndex := new PayloadsIndex();
      this.finalized, rejected := finalized, {};
      new;
      index.active := true;
      var raised := index.RaiseValidity(CAN_BE_APPLIED);
      assert raised;
      BootstrapIsWired(hash);
      TryAddTip(index);
      BootstrapIsValid(hash);
    }

    lemma BootstrapIsWired(hash: Hash)
      requires blocks == map[hash := root] && root.pprev == null && root.pnext == {}
      requires root.level == CAN_BE_APPLIED && !root.Failed()
      ensures Wired() && Nodes() == {root} && TipsOf(Able(Nodes())) == {root}
    {
      assert blocks[hash] == root && Nodes() == {root};
      assert Able(Nodes()) == {root};
    }

    lemma BootstrapIsValid(hash: Hash)
      requires blocks == map[hash := root] && root.hash == hash && root.pprev == null && root.pnext == {}
      requires root.level == CAN_BE_APPLIED && root.active && !root.Failed()
      requires forall k: Kind :: root.PayloadIds(k) == []
      requires activeTip == root && appliedBlockCount == 1 && tips == {root} && rejected == {}
      requires payloadsIndex.Valid() && forall i: Id, h: Hash :: !payloadsIndex.Holds(i, h)
      ensures Valid()
    {
      hide Shape, Linked, AllInherit, AppliedSound, AppliedChain, Able, TipsOf, BodiesFollow, LevelsFollow, PopFollows;
      hide BlockIndex.Ids, BlockIndex.Ancestors, BlockIndex.Sound, PayloadsIndex.Valid, PayloadsIndex.Holds;
      assert blocks[hash] == root && Nodes() == {root};
      root.NoIdsAtAll();
      OneNode(root, finalized);
    }

    ghost function Nodes(): set<BlockIndex>
      reads this`blocks
    {
      blocks.Values
    }

    ghost predicate Wired()
      reads this`blocks, Nodes()`pnext
    {
      Shape(Nodes(), root) && Linked(Nodes())
    }

    // ---------------------------------------------------------------- tips

    /** Makes a valid tip a tip, in place of the block before it. */
    method TryAddTip(index: BlockIndex)
      requires Wired() && index in Nodes()
      modifies this`tips
      ensures tips == if index in TipsOf(Able(Nodes())) then set x <- old(tips) + {index} | x != index.pprev
                      else old(tips)
    {
      assert index.pnext == Children(Nodes(), index);
      assert index.IsValidTip() <==> index in TipsOf(Able(Nodes()));
      if !index.IsValidTip() {
        return;
      }
      if index.pprev != null && index.pprev in tips {
        tips := tips - {index.pprev};
      }
      assert index.Sound();
      tips := tips + {index};
    }

    // ---------------------------------------------------------------- failing

    method DoInvalidate(block: BlockIndex, reason: Reason)
      requires block.level < CAN_BE_APPLIED || reason != FailedPop
      modifies this`tips, On(block, reason, FailedBlock)`failedBlock
      modifies On(block, reason, FailedPop)`failedPop, On(block, reason, FailedChild)`failedChild
      ensures HasFlag(block, reason)
      ensures tips == old(tips) - {block}
    {
      SetFlag(block, reason, true);
      tips := tips - {block};
    }

    /** Marks a block behind a failed one, and everything behind it that is not marked yet. */
    method FailSubtree(b: BlockIndex)
      requires Wired() && b in Nodes() && b.pprev != null && b.pprev.Failed()
      requires InheritBelow(Nodes(), root, b) && tips <= Able(Nodes())
      modifies Nodes()`failedChild, this`tips
      ensures forall x <- Nodes() :: x.failedChild == (x in Subtree(Nodes(), b) || old(x.failedChild))
      ensures tips == old(tips) - Subtree(Nodes(), b)
      decreases Subtree(Nodes(), b), 1
    {
      ghost var s := Nodes();
      var failed := b.Failed();
      forall c <- Children(s, b)
        ensures InheritBelow(s, root, c) && b !in Subtree(s, c)
      {
        ChildSubtree(s, root, b, c);
      }
      DoInvalidate(b, FailedChild);
      if failed {
        forall x <- Below(s, b)
          ensures x.failedChild && old(x.failedChild) && x !in old(tips)
        {
          FailureSpreads(s, root, b, x);
        }
        return;
      }
      FailChildren(b);
    }

    /** Marks everything below a failed block whose children are not marked yet. */
    method FailChildren(b: BlockIndex)
      requires Wired() && b in Nodes() && b.Failed()
      requires forall c <- Children(Nodes(), b) :: InheritBelow(Nodes(), root, c)
      requires tips <= Able(Nodes())
      modifies Nodes()`failedChild, this`tips
      ensures forall x <- Nodes() :: x.failedChild == (x in Below(Nodes(), b) || old(x.failedChild))
      ensures tips == old(tips) - Below(Nodes(), b)
      decreases Subtree(Nodes(), b), 0
    {
      ghost var s := Nodes();
      var rest := b.pnext;
      AllChildren(s, root, b);
      assert Subtrees(s, {}) == {} && rest == Children(s, b);
      hide BlockIndex.Ancestors, BlockIndex.Sound, Subtree, Subtrees, InheritBelow;
      while rest != {}
        invariant rest <= Children(s, b) && b.Failed()
        invariant forall x <- s :: x.failedChild == ((x in Below(s, b) && x !in Subtrees(s, rest)) || old(x.failedChild))
        invariant forall x :: x in tips <==> x in old(tips) && (x in Below(s, b) ==> x in Subtrees(s, rest))
        invariant tips <= Able(s)
        invariant forall c <- rest :: InheritBelow(s, root, c)
      {
        var c :| c in rest;
        OneChildLess(s, root, b, rest, c);
        ChildSubtree(s, root, b, c);
        FailChild(c, b, rest);
        rest := rest - {c};
      }
    }

    /** One child of `FailChildren`; what is behind the other ones stays as it is. */
    method FailChild(c: BlockIndex, b: BlockIndex, ghost others: set<BlockIndex>)
      requires Wired() && b in Nodes() && b.Failed() && c in others && others <= Children(Nodes(), b)
      requires forall d <- others :: InheritBelow(Nodes(), root, d)
      requires forall d <- others - {c} :: Subtree(Nodes(), d) !! Subtree(Nodes(), c)
      requires tips <= Able(Nodes())
      modifies Nodes()`failedChild, this`tips
      ensures forall x <- Nodes() :: x.failedChild == (x in Subtree(Nodes(), c) || old(x.failedChild))
      ensures tips == old(tips) - Subtree(Nodes(), c) && tips <= Able(Nodes())
      ensures forall d <- others - {c} :: InheritBelow(Nodes(), root, d)
      decreases Subtree(Nodes(), c), 2
    {
      ghost var s := Nodes();
      assert forall d <- others :: Subtree(s, d) <= s;
      hide BlockIndex.Ancestors, BlockIndex.Sound, Subtree, InheritBelow;
      FailSubtree(c);
      forall d <- others - {c}
        ensures InheritBelow(s, root, d)
      {
        assert old(InheritBelow(s, root, d));
      }
    }

    // ---------------------------------------------------------------- applying

    /** Unapplies one block, the last one applied. */
    method UnapplyBlock(index: BlockIndex)
      requires Wired() && index in Nodes() && index != root
      requires AppliedChain(Nodes(), root, index)
      requires appliedBlockCount == index.height - root.height + 1 && AppliedSound(Nodes())
      modifies index`active, this`appliedBlockCount
      ensures AppliedSound(Nodes())
      ensures AppliedChain(Nodes(), root, index.pprev)
      ensures appliedBlockCount == index.pprev.height - root.height + 1
    {
      assert index.active && index.pprev.active;
      assert forall n <- index.pnext :: !n.active by {
        AncestorHeights(index);
      }
      AncestorHeights(index.pprev);
      AncestorsInside(Nodes(), root, index.pprev);
      AncestorHeights(index.pprev);
      index.active := false;
      appliedBlockCount := appliedBlockCount - 1;
    }

    /** Unapplies the blocks from `from` down to an ancestor `to`, which stays applied. */
    method Unapply(from: BlockIndex, to: BlockIndex)
      requires Wired() && from in Nodes() && to in from.Ancestors()
      requires AppliedChain(Nodes(), root, from)
      requires appliedBlockCount == from.height - root.height + 1 && AppliedSound(Nodes())
      modifies Nodes()`active, this`appliedBlockCount
      ensures AppliedSound(Nodes())
      ensures to in Nodes() && AppliedChain(Nodes(), root, to)
      ensures appliedBlockCount == to.height - root.height + 1
    {
      AncestorsInside(Nodes(), root, from);
      var current := from;
      while current != to
        invariant current in from.Ancestors() && to in current.Ancestors()
        invariant AppliedChain(Nodes(), root, current) && AppliedSound(Nodes())
        invariant appliedBlockCount == current.height - root.height + 1
        decreases current.height
      {
        PrevIsAncestor(current, from);
        UnapplyBlock(current);
        current := current.pprev;
      }
    }

    // ---------------------------------------------------------------- (in)validating subtrees

    /** Flags a block that had not failed, and everything below it. */
    method FlagAll(r: BlockIndex, reason: Reason)
      requires Wired() && r in Nodes() && r != root && reason != FailedChild
      requires r.level < CAN_BE_APPLIED || reason != FailedPop
      requires AllInherit(Nodes(), root) && tips <= Able(Nodes())
      modifies On(r, reason, FailedBlock)`failedBlock, On(r, reason, FailedPop)`failedPop
      modifies Nodes()`failedChild, this`tips
      ensures HasFlag(r, reason)
      ensures forall x <- Nodes() :: x.failedChild == (x in Below(Nodes(), r) || old(x.failedChild))
      ensures tips == old(tips) - Subtree(Nodes(), r)
    {
      ghost var s := Nodes();
      SubtreeStep(s, root, r);
      DoInvalidate(r, reason);
      forall c <- Children(s, r)
        ensures InheritBelow(s, root, c)
      {
        ChildSubtree(s, root, r, c);
      }
      hide BlockIndex.Ancestors, BlockIndex.Sound, Subtree;
      FailChildren(r);
    }

    /** Afterwards the flags follow from each other again. */
    method FlagSubtree(r: BlockIndex, reason: Reason)
      requires Wired() && r in Nodes() && r != root && reason != FailedChild && !r.Failed()
      requires r.level < CAN_BE_APPLIED || reason != FailedPop
      requires AllInherit(Nodes(), root) && tips <= Able(Nodes())
      modifies On(r, reason, FailedBlock)`failedBlock, On(r, reason, FailedPop)`failedPop
      modifies Nodes()`failedChild, this`tips
      ensures HasFlag(r, reason) && AllInherit(Nodes(), root)
      ensures forall x <- Nodes() :: x !in Subtree(Nodes(), r) ==> x.failedChild == old(x.failedChild)
      ensures Able(Nodes()) == old(Able(Nodes())) - Subtree(Nodes(), r)
      ensures tips == old(tips) - Subtree(Nodes(), r)
    {
      ghost var s := Nodes();
      SubtreeStep(s, root, r);
      hide BlockIndex.Ancestors, BlockIndex.Sound, Subtree;
      FlagAll(r, reason);
      forall x <- s
        ensures Inherits(x)
      {
        assert old(Inherits(x));
      }
    }

    /** Leaves the main chain below a block that lies on it. */
    method StepBehind(r: BlockIndex, ghost top: BlockIndex)
      requires Wired() && r in Nodes() && r != root
      requires activeTip in Nodes() && AppliedChain(Nodes(), root, top)
      requires if r in activeTip.Ancestors() then top == activeTip && appliedBlockCount == top.height - root.height + 1
               else r !in top.Ancestors()
      requires AppliedSound(Nodes())
      modifies Nodes()`active, this`activeTip, this`appliedBlockCount
      ensures AppliedSound(Nodes())
      ensures activeTip == if r in old(activeTip).Ancestors() then r.pprev else old(activeTip)
      ensures AppliedChain(Nodes(), root, if r in old(activeTip).Ancestors() then r.pprev else top)
      ensures appliedBlockCount == if r in old(activeTip).Ancestors() then r.pprev.height - root.height + 1
                                   else old(appliedBlockCount)
      ensures forall x <- Subtree(Nodes(), r) :: !x.active
    {
      ghost var s := Nodes();
      var isOnMainChain := activeTip.IsDescendantOf(r);
      if isOnMainChain {
        PrevIsAncestor(r, activeTip);
        AncestorsNest(r.pprev, activeTip);
        Unapply(activeTip, r.pprev);
        activeTip := r.pprev;
        AncestorHeights(r.pprev);
      }
      forall x <- Subtree(s, r)
        ensures !x.active
      {
        ghost var t := if r in old(activeTip).Ancestors() then r.pprev else top;
        if x in t.Ancestors() {
          AncestorsNest(x, t);
        }
      }
    }

    /** The part of `InvalidateSubtree` behind the main chain: flags, then tips. */
    method FlagAndRetip(r: BlockIndex, reason: Reason)
      requires Wired() && r in Nodes() && r != root && reason != FailedChild && !r.Failed()
      requires r.level < CAN_BE_APPLIED || reason != FailedPop
      requires AllInherit(Nodes(), root) && AppliedSound(Nodes())
      requires forall x <- Subtree(Nodes(), r) :: !x.active
      requires tips == TipsOf(Able(Nodes())) || tips == TipsOf(Able(Nodes()) - {r})
      modifies On(r, reason, FailedBlock)`failedBlock, On(r, reason, FailedPop)`failedPop
      modifies Nodes()`failedChild, this`tips
      ensures HasFlag(r, reason) && AllInherit(Nodes(), root) && AppliedSound(Nodes())
      ensures tips == TipsOf(Able(Nodes()))
    {
      hide BlockIndex.Ancestors, BlockIndex.Sound, Subtree, AllInherit, TipsOf;
      ghost var s := Nodes();
      ghost var able := Able(s);
      SubtreeStep(s, root, r);
      TipsAfterDrop(s, root, able, r, tips);
      TipsAreAble(able, able - {r}, tips);
      FlagSubtree(r, reason);
      assert AppliedSound(s);
      TryAddTip(r.pprev);
    }

    /** Marks a block as failed and everything below it as failed children; if the block is
        applied, the tree first steps back to the block before it. Which blocks are failed
        children follows from the flags the blocks have of their own. */
    method InvalidateSubtree(r: BlockIndex, reason: Reason, ghost top: BlockIndex)
      requires Wired() && r in Nodes() && r != root && reason != FailedChild
      requires r.level < CAN_BE_APPLIED || reason != FailedPop
      requires AllInherit(Nodes(), root) && AppliedSound(Nodes())
      requires tips == TipsOf(Able(Nodes())) || tips == TipsOf(Able(Nodes()) - {r})
      requires activeTip in Nodes() && AppliedChain(Nodes(), root, top)
      requires if r in activeTip.Ancestors() then top == activeTip && appliedBlockCount == top.height - root.height + 1
               else r !in top.Ancestors()
      modifies On(r, reason, FailedBlock)`failedBlock, On(r, reason, FailedPop)`failedPop
      modifies Nodes()`failedChild, Nodes()`active
      modifies this`tips, this`activeTip, this`appliedBlockCount
      ensures HasFlag(r, reason) && AllInherit(Nodes(), root) && AppliedSound(Nodes())
      ensures tips == TipsOf(Able(Nodes()))
      ensures activeTip == if r in old(activeTip).Ancestors() then r.pprev else old(activeTip)
      ensures AppliedChain(Nodes(), root, if r in old(activeTip).Ancestors() then r.pprev else top)
      ensures appliedBlockCount == if r in old(activeTip).Ancestors() then r.pprev.height - root.height + 1
                                   else old(appliedBlockCount)
    {
      hide BlockIndex.Ancestors, BlockIndex.Sound;
      ghost var s := Nodes();
      if r.Failed() {
        assert !r.active && r !in Able(s);
        assert Able(s) == Able(s) - {r};
        InvalidateFailed(r, reason);
        return;
      }
      StepBehind(r, top);
      FlagAndRetip(r, reason);
    }

    /** A block that has failed already: everything below it is flagged as it is. */
    method InvalidateFailed(r: BlockIndex, reason: Reason)
      requires Wired() && r in Nodes() && r != root && reason != FailedChild && r.Failed() && !r.active
      requires r.level < CAN_BE_APPLIED || reason != FailedPop
      requires AllInherit(Nodes(), root) && AppliedSound(Nodes())
      requires tips == TipsOf(Able(Nodes()))
      modifies On(r, reason, FailedBlock)`failedBlock, On(r, reason, FailedPop)`failedPop
      modifies this`tips
      ensures HasFlag(r, reason) && AllInherit(Nodes(), root) && AppliedSound(Nodes())
      ensures tips == old(tips) == TipsOf(Able(Nodes()))
    {
      hide BlockIndex.Ancestors, BlockIndex.Sound;
      ghost var able := Able(Nodes());
      if HasFlag(r, reason) {
        return;
      }
      DoInvalidate(r, reason);
      assert Able(Nodes()) == able;
    }

    // ---------------------------------------------------------------- reviving

    /** Clears a flag; the block replaces the one before it as a tip if that makes it valid. */
    method DoReValidate(block: BlockIndex, reason: Reason)
      requires Wired() && block in Nodes() && HasFlag(block, reason)
      requires forall n <- Able(Nodes()) :: n.pprev != block
      requires tips == TipsOf(Able(Nodes()))
      modifies this`tips, On(block, reason, FailedBlock)`failedBlock
      modifies On(block, reason, FailedPop)`failedPop, On(block, reason, FailedChild)`failedChild
      ensures !HasFlag(block, reason)
      ensures tips == TipsOf(Able(Nodes()))
      ensures Able(Nodes()) == old(Able(Nodes())) + if block.CanBeATip() then {block} else {}
    {
      ghost var able := Able(Nodes());
      SetFlag(block, reason, false);
      if block.CanBeATip() {
        OneMoreAble(able, block);
        assert Able(Nodes()) == able + {block};
      } else {
        assert Able(Nodes()) == able;
      }
      TryAddTip(block);
    }

    /** Clears the mark of a block behind a valid one, and of everything behind it that is
        invalid for no other reason. */
    method ReviveSubtree(b: BlockIndex)
      requires Wired() && b in Nodes() && b.pprev != null && !b.pprev.Failed() && b.failedChild
      requires InheritBelow(Nodes(), root, b) && tips == TipsOf(Able(Nodes()))
      modifies Nodes()`failedChild, this`tips
      ensures forall x <- Nodes() :: x !in Subtree(Nodes(), b) ==> x.failedChild == old(x.failedChild)
      ensures forall x <- Nodes() :: x.failedChild ==> old(x.failedChild)
      ensures InheritFrom(Nodes(), root, b) && tips == TipsOf(Able(Nodes()))
      decreases Subtree(Nodes(), b), 1
    {
      ghost var s := Nodes();
      forall c <- Children(s, b)
        ensures InheritBelow(s, root, c) && b !in Subtree(s, c) && c.failedChild
      {
        ChildSubtree(s, root, b, c);
        assert c in Subtree(s, c) && Inherits(c);
      }
      SubtreeStep(s, root, b);
      hide BlockIndex.Ancestors, BlockIndex.Sound, Subtree;
      DoReValidate(b, FailedChild);
      if b.Failed() {
        forall x <- s | x in Below(s, b)
          ensures Inherits(x)
        {
          assert old(Inherits(x));
        }
        return;
      }
      ReviveChildren(b);
    }

    method ReviveChildren(b: BlockIndex)
      requires Wired() && b in Nodes() && !b.Failed()
      requires forall c <- Children(Nodes(), b) :: c.failedChild && InheritBelow(Nodes(), root, c)
      requires tips == TipsOf(Able(Nodes()))
      modifies Nodes()`failedChild, this`tips
      ensures forall x <- Nodes() :: x !in Below(Nodes(), b) ==> x.failedChild == old(x.failedChild)
      ensures forall x <- Nodes() :: x.failedChild ==> old(x.failedChild)
      ensures InheritBelow(Nodes(), root, b) && tips == TipsOf(Able(Nodes()))
      decreases Subtree(Nodes(), b), 0
    {
      ghost var s := Nodes();
      var rest := b.pnext;
      AllChildren(s, root, b);
      assert rest == Children(s, b);
      hide BlockIndex.Ancestors, BlockIndex.Sound, Subtree, Subtrees, InheritBelow, InheritFrom;
      while rest != {}
        invariant rest <= Children(s, b) && !b.Failed()
        invariant forall x <- s :: x !in Below(s, b) ==> x.failedChild == old(x.failedChild)
        invariant forall x <- s :: x.failedChild ==> old(x.failedChild)
        invariant forall c <- rest :: c.failedChild && InheritBelow(s, root, c)
        invariant forall c <- Children(s, b) - rest :: InheritFrom(s, root, c)
        invariant tips == TipsOf(Able(s))
      {
        var c :| c in rest;
        ChildSubtree(s, root, b, c);
        ReviveChild(c, b, rest);
        rest := rest - {c};
      }
      InheritByChildren(s, root, b);
    }

    /** One child of `ReviveChildren`; the other subtrees stay as they are. */
    method ReviveChild(c: BlockIndex, b: BlockIndex, ghost rest: set<BlockIndex>)
      requires Wired() && b in Nodes() && !b.Failed() && c in rest && rest <= Children(Nodes(), b)
      requires forall d <- rest :: d.failedChild && InheritBelow(Nodes(), root, d)
      requires forall d <- Children(Nodes(), b) - rest :: InheritFrom(Nodes(), root, d)
      requires tips == TipsOf(Able(Nodes()))
      modifies Nodes()`failedChild, this`tips
      ensures forall x <- Nodes() :: x !in Below(Nodes(), b) ==> x.failedChild == old(x.failedChild)
      ensures forall x <- Nodes() :: x.failedChild ==> old(x.failedChild)
      ensures forall d <- rest - {c} :: d.failedChild && InheritBelow(Nodes(), root, d)
      ensures forall d <- Children(Nodes(), b) - (rest - {c}) :: InheritFrom(Nodes(), root, d)
      ensures tips == TipsOf(Able(Nodes()))
      decreases Subtree(Nodes(), c), 2
    {
      ghost var s := Nodes();
      forall d <- Children(s, b)
        ensures Subtree(s, d) <= Below(s, b) && d in Subtree(s, d) && (d != c ==> Subtree(s, d) !! Subtree(s, c))
      {
        ChildSubtree(s, root, b, d);
        if d != c {
          SiblingsApart(s, root, c, d);
        }
      }
      hide BlockIndex.Ancestors, BlockIndex.Sound, Subtree, InheritBelow, InheritFrom;
      ReviveSubtree(c);
      forall d <- rest - {c}
        ensures InheritBelow(s, root, d)
      {
        assert old(InheritBelow(s, root, d));
      }
      forall d <- Children(s, b) - rest
        ensures InheritFrom(s, root, d)
      {
        assert old(InheritFrom(s, root, d));
      }
    }

    /** Clears a flag of a block, and the marks below it that this leaves without a reason. */
    method RevalidateSubtree(r: BlockIndex, reason: Reason)
      requires Wired() && r in Nodes() && r != root && reason != FailedChild
      requires AllInherit(Nodes(), root) && AppliedSound(Nodes())
      requires tips == TipsOf(Able(Nodes()))
      modifies On(r, reason, FailedBlock)`failedBlock, On(r, reason, FailedPop)`failedPop
      modifies Nodes()`failedChild, this`tips
      ensures !HasFlag(r, reason) && AllInherit(Nodes(), root) && AppliedSound(Nodes())
      ensures tips == TipsOf(Able(Nodes()))
    {
      hide BlockIndex.Ancestors, BlockIndex.Sound, Inherits, TipsOf, Able;
      if !HasFlag(r, reason) {
        return;
      }
      var other := (reason != FailedBlock && r.failedBlock) || (reason != FailedPop && r.failedPop) || r.failedChild;
      if other {
        ClearOwn(r, reason);
      } else {
        ClearLast(r, reason);
      }
    }

    /** The block stays invalid for another reason, and so does everything below it. */
    method ClearOwn(r: BlockIndex, reason: Reason)
      requires Wired() && r in Nodes() && r != root && reason != FailedChild && HasFlag(r, reason)
      requires (reason != FailedBlock && r.failedBlock) || (reason != FailedPop && r.failedPop) || r.failedChild
      requires AllInherit(Nodes(), root) && AppliedSound(Nodes())
      requires tips == TipsOf(Able(Nodes()))
      modifies this`tips, On(r, reason, FailedBlock)`failedBlock, On(r, reason, FailedPop)`failedPop
      ensures !HasFlag(r, reason) && AllInherit(Nodes(), root) && AppliedSound(Nodes())
      ensures tips == TipsOf(Able(Nodes()))
    {
      hide BlockIndex.Ancestors, BlockIndex.Sound, TipsOf, Able, Linked;
      ghost var s := Nodes();
      FailedChildren(s, root, r);
      DoReValidate(r, reason);
      forall x <- s
        ensures Inherits(x)
      {
        assert old(Inherits(x));
      }
    }

    /** The block becomes valid. */
    method ClearLast(r: BlockIndex, reason: Reason)
      requires Wired() && r in Nodes() && r != root && reason != FailedChild && HasFlag(r, reason)
      requires !r.failedChild && (reason == FailedBlock || !r.failedBlock) && (reason == FailedPop || !r.failedPop)
      requires AllInherit(Nodes(), root)
      requires tips == TipsOf(Able(Nodes()))
      modifies On(r, reason, FailedBlock)`failedBlock, On(r, reason, FailedPop)`failedPop
      modifies Nodes()`failedChild, this`tips
      ensures !HasFlag(r, reason) && AllInherit(Nodes(), root)
      ensures forall x <- Nodes() :: x.failedChild ==> old(x.failedChild)
      ensures tips == TipsOf(Able(Nodes()))
    {
      hide BlockIndex.Ancestors, BlockIndex.Sound, Subtree, TipsOf, Able;
      ghost var s := Nodes();
      SubtreeStep(s, root, r);
      FailedChildren(s, root, r);
      DoReValidate(r, reason);
      forall c <- Children(s, r)
        ensures c.failedChild && InheritBelow(s, root, c)
      {
        SubtreeStep(s, root, c);
        forall x <- s | x in Below(s, c)
          ensures Inherits(x)
        {
          assert old(Inherits(x));
        }
      }
      ReviveChildren(r);
      forall x <- s
        ensures Inherits(x)
      {
        if x !in Below(s, r) {
          assert old(Inherits(x));
        }
      }
    }

    // ---------------------------------------------------------------- payloads

    /** The index holds exactly the pairs of a payload id and the block that stores it. */
    ghost predicate IndexExact()
      reads this`blocks, payloadsIndex, Nodes()`atvIds, Nodes()`vtbIds, Nodes()`vbkIds
    {
      && (forall h <- blocks :: blocks[h].hash == h)
      && payloadsIndex.Valid()
      && forall i: Id, h: Hash :: payloadsIndex.Holds(i, h) <==> h in blocks && i in blocks[h].Ids()
    }

    /** Stores the ids of one kind in a block that has none of them, and in the index. */
    method CommitPayloadsIds(b: BlockIndex, k: Kind, pids: seq<Id>)
      requires b in Nodes() && IndexExact() && b.PayloadIds(k) == []
      modifies b`atvIds, b`vtbIds, b`vbkIds, payloadsIndex
      ensures IndexExact() && b.PayloadIds(k) == pids
      ensures forall o: Kind :: o != k ==> b.PayloadIds(o) == old(b.PayloadIds(o))
    {
      b.SetPayloads(k, pids);
      for n := 0 to |pids|
        modifies payloadsIndex
        invariant payloadsIndex.Valid()
        invariant forall i: Id, h: Hash ::
                    payloadsIndex.Holds(i, h) <==> old(payloadsIndex.Holds(i, h)) || (h == b.hash && i in pids[..n])
      {
        payloadsIndex.Add(pids[n], b.hash);
      }
      assert blocks[b.hash] == b;
    }

    /** Takes the ids of one kind out of the index. */
    method ClearSideEffects(b: BlockIndex, k: Kind)
      requires payloadsIndex.Valid()
      modifies payloadsIndex
      ensures payloadsIndex.Valid()
      ensures forall i: Id, h: Hash ::
                payloadsIndex.Holds(i, h) <==> old(payloadsIndex.Holds(i, h)) && !(h == b.hash && i in b.PayloadIds(k))
    {
      var pids := b.PayloadIds(k);
      for n := 0 to |pids|
        invariant payloadsIndex.Valid()
        invariant forall i: Id, h: Hash ::
                    payloadsIndex.Holds(i, h) <==> old(payloadsIndex.Holds(i, h)) && !(h == b.hash && i in pids[..n])
      {
        payloadsIndex.Remove(pids[n], b.hash);
      }
    }
  
    // ---------------------------------------------------------------- connecting

    /** What every step keeps of the flags, the tips and the applied chain, when the blocks up
        to `top` are applied. */
    ghost predicate CoreAt(top: BlockIndex)
      reads this`blocks, this`tips, this`activeTip, this`appliedBlockCount, Nodes()`pnext, Nodes()`level
      reads Nodes()`failedBlock, Nodes()`failedPop, Nodes()`failedChild, Nodes()`active
    {
      && Wired()
      && AllInherit(Nodes(), root)
      && AppliedSound(Nodes()) && activeTip in Nodes() && AppliedChain(Nodes(), root, top)
      && appliedBlockCount == top.height - root.height + 1
      && tips == TipsOf(Able(Nodes()))
    }

    /** Between the operations the active chain is the applied one. */
    ghost predicate Core()
      reads this`blocks, this`tips, this`activeTip, this`appliedBlockCount, Nodes()`pnext, Nodes()`level
      reads Nodes()`failedBlock, Nodes()`failedPop, Nodes()`failedChild, Nodes()`active
    {
      CoreAt(activeTip)
    }

    /** The blocks that wait to be connected right behind a block that has just been. */
    ghost function Ready(b: BlockIndex): set<BlockIndex>
      reads this`blocks, Nodes()`bodyAdded
    {
      set c <- Children(Nodes(), b) | c.bodyAdded
    }

    /** The first half of connecting a block: no assertion fails, and its level is raised. */
    method RaiseToConnected(index: BlockIndex, ghost waiting: set<BlockIndex>)
      requires Core() && LevelsFollow(Nodes(), root, waiting)
      requires index in waiting && index in Nodes() && index != root && index.bodyAdded && index.pprev.Connected()
      modifies index`level
      ensures index.level == CONNECTED && old(index.level) < CONNECTED && !index.failedPop && !index.active
      ensures index.AllDescendantsUnconnected() && forall c <- Children(Nodes(), index) :: !c.Connected()
      ensures LevelsFollow(Nodes(), root, waiting - {index} + Ready(index)) && index !in Ready(index)
      ensures AppliedSound(Nodes())
      ensures tips == TipsOf(Able(Nodes()) - {index})
      ensures index.CanBeATip() <==> !index.Failed()
    {
      ghost var s := Nodes();
      hide BlockIndex.Ancestors, BlockIndex.Sound, TipsOf, AllInherit;
      ghost var able := Able(s);
      assert !index.Connected() && !index.active;
      assert index.pnext == Children(s, index);
      assert index.AllDescendantsUnconnected();
      var success := index.RaiseValidity(CONNECTED);
      assert success;
      assert Able(s) - {index} == able;
    }

    /** Whether a block holds a payload that a block before it, or a final block, holds too. */
    method FindDuplicates(index: BlockIndex) returns (duplicates: bool)
      requires Wired() && IndexExact() && index in Nodes() && index != root
      requires index.Connected() && index.AllDescendantsUnconnected()
      ensures duplicates <==> Duplicate(Stored(Nodes()), index, finalized)
    {
      hide BlockIndex.Ancestors, BlockIndex.Sound, Duplicate;
      var mutator := new BlockPayloadMutator(this, index);
      assert mutator.Ready();
      duplicates := mutator.HasStatefulDuplicates();
    }

    /** The second half of connecting a block: it fails or becomes a tip. */
    method JudgeBlock(index: BlockIndex, duplicates: bool)
      requires Wired() && AllInherit(Nodes(), root) && AppliedSound(Nodes())
      requires activeTip in Nodes() && AppliedChain(Nodes(), root, activeTip)
      requires appliedBlockCount == activeTip.height - root.height + 1
      requires index in Nodes() && index != root && index.level == CONNECTED && !index.failedPop && !index.active
      requires index.AllDescendantsUnconnected() && tips == TipsOf(Able(Nodes()) - {index})
      modifies index`failedPop, Nodes()`failedChild, Nodes()`active
      modifies this`tips, this`activeTip, this`appliedBlockCount
      ensures Core() && activeTip == old(activeTip) && index.failedPop == duplicates
    {
      ghost var s := Nodes();
      ghost var able := Able(s) - {index};
      hide BlockIndex.Ancestors, Shape, AllInherit;
      assert index.pnext == Children(s, index) && index.Sound() by {
        ShapeOf(s, root, index);
      }
      if duplicates {
        InvalidateSubtree(index, FailedPop, activeTip);
        assert index !in Able(s);
      } else if index.CanBeATip() {
        OneMoreAble(able, index);
        assert able + {index} == Able(s);
      } else {
        assert able == Able(s);
      }
      TryAddTip(index);
    }

    /** After the second half every block follows the rules again. */
    method JudgeFollowing(index: BlockIndex, duplicates: bool, ghost waiting: set<BlockIndex>)
      requires Wired() && AllInherit(Nodes(), root) && AppliedSound(Nodes())
      requires activeTip in Nodes() && AppliedChain(Nodes(), root, activeTip)
      requires appliedBlockCount == activeTip.height - root.height + 1
      requires index in Nodes() && index != root && index.level == CONNECTED && !index.failedPop && !index.active
      requires index.AllDescendantsUnconnected() && tips == TipsOf(Able(Nodes()) - {index})
      requires LevelsFollow(Nodes(), root, waiting) && index !in waiting && index !in rejected
      requires duplicates <==> Duplicate(Stored(Nodes()), index, finalized)
      requires forall b <- Nodes() | b != root && b != index :: PopFollowsAt(Nodes(), b, finalized, b in rejected)
      modifies index`failedPop, Nodes()`failedChild, Nodes()`active
      modifies this`tips, this`activeTip, this`appliedBlockCount
      ensures Core() && activeTip == old(activeTip)
      ensures LevelsFollow(Nodes(), root, waiting) && PopFollows(Nodes(), root, finalized, rejected)
    {
      hide BlockIndex.Ancestors, BlockIndex.Sound, Duplicate, AllInherit, AppliedSound, AppliedChain, Linked;
      hide PopFollowsAt, Shape, TipsOf, Able;
      ghost var s := Nodes();
      ConnectedBlock(s, root, waiting, index);
      JudgeBlock(index, duplicates);
      FreshlyConnected(s, root, index, finalized);
      forall x <- s
        ensures x.Sound() && (x == root || x.pprev != null) && LevelFollows(root, x, x in waiting)
        ensures x != root ==> PopFollowsAt(s, x, finalized, x in rejected)
      {
        ShapeOf(s, root, x);
        if x != index {
          assert old(LevelFollows(root, x, x in waiting));
          assert x != root ==> old(PopFollowsAt(s, x, finalized, x in rejected));
        }
      }
    }

    /** Connects a block: it becomes a valid tip unless it, or a block before it, failed. A
        block that holds a duplicate payload fails. */
    method ConnectBlock(index: BlockIndex, ghost waiting: set<BlockIndex>) returns (valid: bool)
      requires Core() && IndexExact()
      requires LevelsFollow(Nodes(), root, waiting) && PopFollows(Nodes(), root, finalized, rejected)
      requires index in waiting && index in Nodes() && index != root && index.bodyAdded && index.pprev.Connected()
      modifies index`level, index`failedPop, Nodes()`failedChild, Nodes()`active
      modifies this`tips, this`activeTip, this`appliedBlockCount
      ensures Core() && IndexExact()
      ensures LevelsFollow(Nodes(), root, waiting - {index} + Ready(index))
      ensures PopFollows(Nodes(), root, finalized, rejected)
      ensures index.level == CONNECTED && old(index.level) < CONNECTED
      ensures activeTip == old(activeTip)
      ensures forall c <- Children(Nodes(), index) :: !c.Connected()
      ensures valid <==> !index.Failed()
    {
      hide BlockIndex.Ancestors, BlockIndex.Sound, Duplicate, TipsOf, AllInherit, Linked, AppliedSound, AppliedChain;
      hide LevelsFollow, IndexExact, Shape, Able, PopFollowsAt;
      WaitingBlock(Nodes(), root, waiting, finalized, rejected, index);
      RaiseToConnected(index, waiting);
      var duplicates := FindDuplicates(index);
      JudgeFollowing(index, duplicates, waiting - {index} + Ready(index));
      valid := !index.Failed();
    }
  
    // ---------------------------------------------------------------- bodies

    /** What every run keeps. */
    ghost predicate Valid()
      reads this, payloadsIndex, Nodes()
    {
      && Core() && IndexExact() && BodiesFollow(Nodes(), root)
      && LevelsFollow(Nodes(), root, {}) && PopFollows(Nodes(), root, finalized, rejected)
    }

    ghost predicate LevelsRight()
      reads this`blocks, Nodes()`level, Nodes()`bodyAdded, Nodes()`failedPop
    {
      Shape(Nodes(), root) && LevelsFollow(Nodes(), root, {})
    }

    /** `PopFollows`, for payloads stored as a given map says. */
    ghost predicate PopFollowed(stored: map<BlockIndex, set<Id>>)
      reads this`blocks, this`rejected, Nodes()`level, Nodes()`failedPop
    {
      && stored.Keys == Nodes()
      && forall x <- Nodes() | x != root :: x.Sound() && (x in rejected ==> x.Connected()) &&
           (x.Connected() ==> (x.failedPop <==> Duplicate(stored, x, finalized) || x in rejected))
    }

    lemma PopFollowedNow()
      requires Valid()
      ensures LevelsRight() && PopFollowed(Stored(Nodes()))
    {
      forall x <- Nodes() | x != root
        ensures x.Sound() && PopFollowsAt(Nodes(), x, finalized, x in rejected)
      {
        ShapeOf(Nodes(), root, x);
      }
    }

    /** Stores the payload ids of a block that has none. */
    method StoreIds(index: BlockIndex, pop: PopIds)
      requires IndexExact() && index in Nodes() && index.Ids() == {}
      modifies index`atvIds, index`vtbIds, index`vbkIds, payloadsIndex
      ensures IndexExact()
      ensures index.vbkIds == pop.context && index.vtbIds == pop.vtbs && index.atvIds == pop.atvs
    {
      hide PayloadsIndex.Valid, PayloadsIndex.Holds;
      index.NoIds();
      CommitPayloadsIds(index, VbkKind, pop.context);
      assert index.vbkIds == index.PayloadIds(VbkKind);
      CommitPayloadsIds(index, VtbKind, pop.vtbs);
      assert index.vbkIds == index.PayloadIds(VbkKind) && index.vtbIds == index.PayloadIds(VtbKind);
      CommitPayloadsIds(index, AtvKind, pop.atvs);
      assert index.vbkIds == index.PayloadIds(VbkKind) && index.vtbIds == index.PayloadIds(VtbKind);
      assert index.atvIds == index.PayloadIds(AtvKind);
    }

    /** The payloads of an unconnected block concern no connected block. */
    method SetPayloads(index: BlockIndex, pop: PopIds)
      requires Wired() && IndexExact() && BodiesFollow(Nodes(), root)
      requires LevelsFollow(Nodes(), root, {}) && PopFollows(Nodes(), root, finalized, rejected)
      requires index in Nodes() && index != root && !index.bodyAdded && NoDuplicates(pop)
      modifies index`atvIds, index`vtbIds, index`vbkIds, index`bodyAdded, payloadsIndex
      ensures IndexExact() && BodiesFollow(Nodes(), root) && index.bodyAdded
      ensures index.vbkIds == pop.context && index.vtbIds == pop.vtbs && index.atvIds == pop.atvs
      ensures LevelsFollow(Nodes(), root, if index.pprev.Connected() then {index} else {})
      ensures PopFollows(Nodes(), root, finalized, rejected)
      ensures !index.Connected()
    {
      hide BlockIndex.Ancestors, BlockIndex.Sound, BlockIndex.ProperAncestors, Duplicate, Linked, IndexExact;
      hide BlockIndex.Ids, Shape, Distinct;
      ghost var s := Nodes();
      ShapeOf(s, root, index);
      assert LevelFollows(root, index, false) && !index.Connected();
      forall b <- s | b.Connected()
        ensures b.Sound() && index !in b.Ancestors()
      {
        UnconnectedAncestor(s, root, {}, b, index);
      }
      ghost var before := Stored(s);
      StoreIds(index, pop);
      index.bodyAdded := true;
      forall x <- s
        ensures x == root || x.pprev != null
        ensures LevelFollows(root, x, x == index && index.pprev.Connected())
      {
        ShapeOf(s, root, x);
        assert old(LevelFollows(root, x, false));
      }
      forall b <- s | b != root
        ensures b.Sound() && PopFollowsAt(s, b, finalized, b in rejected)
      {
        ShapeOf(s, root, b);
        assert old(PopFollowsAt(s, b, finalized, b in rejected));
        if b.Connected() {
          DuplicateElsewhere(before, Stored(s), b, finalized, index);
        }
      }
    }
  
    ghost function Unconnected(): set<BlockIndex>
      reads this`blocks, Nodes()`level
    {
      set x <- Nodes() | !x.Connected()
    }

    /** The blocks on the stack of `AcceptBlock`: each follows a connected block and is not
        connected itself; those that have a body wait to be connected. */
    ghost predicate Stacked(stack: seq<BlockIndex>, waiting: set<BlockIndex>)
      reads this`blocks, Nodes()`level, Nodes()`bodyAdded
    {
      && (forall n, m :: 0 <= n < m < |stack| ==> stack[n] != stack[m])
      && (forall x <- stack :: x in Nodes() && x != root && x.pprev != null && x.pprev in Nodes()
                               && x.pprev.Connected() && !x.Connected())
      && waiting == set x <- Nodes() | x in stack && x.bodyAdded
    }

    /** Pushes the blocks right behind a block that has just been connected. */
    method PushNext(stack: seq<BlockIndex>, b: BlockIndex, ghost waiting: set<BlockIndex>) returns (r: seq<BlockIndex>)
      requires Wired() && b in Nodes() && b.Connected() && Stacked(stack, waiting)
      requires forall c <- Children(Nodes(), b) :: c !in stack && !c.Connected()
      ensures Stacked(r, waiting + Ready(b))
    {
      r := stack;
      var rest := b.pnext;
      while rest != {}
        invariant rest <= Children(Nodes(), b) && forall c <- rest :: c !in r
        invariant Stacked(r, waiting + (Ready(b) - rest))
      {
        var c :| c in rest;
        r := r + [c];
        rest := rest - {c};
      }
      assert Ready(b) - rest == Ready(b);
    }

    /** Connects a waiting block and pushes the blocks right behind it. */
    method ConnectAndPush(top: BlockIndex, stack: seq<BlockIndex>, ghost waiting: set<BlockIndex>)
      returns (r: seq<BlockIndex>, ghost next: set<BlockIndex>)
      requires Core() && IndexExact() && BodiesFollow(Nodes(), root)
      requires LevelsFollow(Nodes(), root, waiting) && PopFollows(Nodes(), root, finalized, rejected)
      requires Stacked(stack + [top], waiting) && top.bodyAdded
      modifies top`level, top`failedPop, Nodes()`failedChild, Nodes()`active
      modifies this`tips, this`activeTip, this`appliedBlockCount
      ensures Core() && IndexExact() && BodiesFollow(Nodes(), root)
      ensures LevelsFollow(Nodes(), root, next) && PopFollows(Nodes(), root, finalized, rejected)
      ensures Stacked(r, next) && activeTip == old(activeTip)
      ensures top.level == CONNECTED && old(top.level) < CONNECTED
    {
      hide BlockIndex.Ancestors, BlockIndex.Sound, Shape, Linked, AllInherit, AppliedSound, AppliedChain, Able, TipsOf;
      hide PopFollows, LevelsFollow, IndexExact, BodiesFollow;
      ghost var s := Nodes();
      Popped(stack, top, waiting);
      var _ := ConnectBlock(top, waiting);
      assert Stacked(stack, waiting - {top});
      r := PushNext(stack, top, waiting - {top});
      next := waiting - {top} + Ready(top);
    }

    lemma EmptyStack(waiting: set<BlockIndex>)
      requires Stacked([], waiting)
      ensures waiting == {}
    {
    }

    lemma Popped(stack: seq<BlockIndex>, top: BlockIndex, waiting: set<BlockIndex>)
      requires Stacked(stack + [top], waiting)
      ensures Stacked(stack, waiting - {top}) && top in Nodes() && top !in stack
      ensures !top.Connected() && (top.bodyAdded <==> top in waiting)
      ensures forall x <- stack :: x.pprev != top
      ensures !top.bodyAdded ==> waiting - {top} == waiting
    {
      var all := stack + [top];
      assert all[|stack|] == top;
      forall n | 0 <= n < |stack|
        ensures stack[n] != top && stack[n] in all
      {
        assert all[n] == stack[n];
      }
      forall n, m | 0 <= n < m < |stack|
        ensures stack[n] != stack[m]
      {
        assert all[n] == stack[n] && all[m] == stack[m];
      }
      assert forall x :: x in all <==> x in stack || x == top;
    }

    /** Accepts the body of a block: stores it and connects whatever is now connected through
        it. None of the assertions of `ConnectBlock` fails along the way. */
    method AcceptBlock(index: BlockIndex, pop: PopIds)
      requires Valid() && index in Nodes() && index != root && !index.bodyAdded && NoDuplicates(pop)
      modifies index`atvIds, index`vtbIds, index`vbkIds, index`bodyAdded, payloadsIndex
      modifies Nodes()`level, Nodes()`failedPop, Nodes()`failedChild, Nodes()`active
      modifies this`tips, this`activeTip, this`appliedBlockCount
      ensures Valid() && index.bodyAdded
      ensures index.vbkIds == pop.context && index.vtbIds == pop.vtbs && index.atvIds == pop.atvs
      ensures forall x <- Nodes() :: x.level == old(x.level) || (old(x.level) < CONNECTED && x.level == CONNECTED)
      ensures activeTip == old(activeTip)
    {
      hide BlockIndex.Ancestors, BlockIndex.Sound, Shape, Linked, AllInherit, AppliedSound, AppliedChain, Able, TipsOf;
      hide PopFollows, LevelsFollow, IndexExact, BodiesFollow, NoDuplicates;
      ShapeOf(Nodes(), root, index);
      SetPayloads(index, pop);
      if !index.pprev.Connected() {
        return;
      }
      ConnectFrom(index);
    }

    /** Connects a block that waits alone, and everything connected through it. */
    method ConnectFrom(index: BlockIndex)
      requires Wired() && Core() && IndexExact() && BodiesFollow(Nodes(), root)
      requires LevelsFollow(Nodes(), root, {index}) && PopFollows(Nodes(), root, finalized, rejected)
      requires Stacked([index], {index})
      modifies Nodes()`level, Nodes()`failedPop, Nodes()`failedChild, Nodes()`active
      modifies this`tips, this`activeTip, this`appliedBlockCount
      ensures Core() && IndexExact() && BodiesFollow(Nodes(), root)
      ensures LevelsFollow(Nodes(), root, {}) && PopFollows(Nodes(), root, finalized, rejected)
      ensures forall x <- Nodes() :: x.level == old(x.level) || (old(x.level) < CONNECTED && x.level == CONNECTED)
      ensures activeTip == old(activeTip)
    {
      hide BlockIndex.Ancestors, BlockIndex.Sound, Shape, Linked, AllInherit, AppliedSound, AppliedChain, Able, TipsOf;
      hide Core, PopFollows, LevelsFollow, IndexExact, BodiesFollow, Stacked;
      assert [] + [index] == [index];
      Popped([], index, {index});
      var stack, waiting := ConnectAndPush(index, [], {index});
      while stack != []
        invariant Wired() && Core() && IndexExact() && BodiesFollow(Nodes(), root)
        invariant LevelsFollow(Nodes(), root, waiting) && PopFollows(Nodes(), root, finalized, rejected)
        invariant Stacked(stack, waiting) && activeTip == old(activeTip)
        invariant forall x <- Nodes() :: x.level == old(x.level) || (old(x.level) < CONNECTED && x.level == CONNECTED)
        decreases Unconnected(), |stack|
      {
        var top := stack[|stack| - 1];
        var below := stack[..|stack| - 1];
        assert stack == below + [top];
        Popped(below, top, waiting);
        if !top.bodyAdded {
          stack := below;
          continue;
        }
        ghost var unconnected := Unconnected();
        stack, waiting := ConnectAndPush(top, below, waiting);
        assert top in unconnected && Unconnected() == unconnected - {top};
      }
      EmptyStack(waiting);
    }
  
    /** Takes the payloads of a block out of the block and the index. */
    method EraseIds(index: BlockIndex)
      requires IndexExact() && index in Nodes()
      modifies index`atvIds, index`vtbIds, index`vbkIds, payloadsIndex
      ensures IndexExact() && index.Ids() == {} && !index.HasPayloads()
      ensures forall k: Kind :: index.PayloadIds(k) == []
    {
      if index.HasPayloads() {
        ClearSideEffects(index, VbkKind);
        ClearSideEffects(index, VtbKind);
        ClearSideEffects(index, AtvKind);
        assert forall i :: i in index.Ids() <==> i in index.PayloadIds(VbkKind) || i in index.PayloadIds(VtbKind)
                                                 || i in index.PayloadIds(AtvKind);
        index.ClearPayloads();
      } else {
        index.NoIds();
      }
    }

    /** A block with nothing connected behind it falls back to a mere header. */
    method Disconnect(index: BlockIndex)
      requires Core() && index in Nodes() && index != root && !index.active && !index.failedPop
      requires forall c <- Children(Nodes(), index) :: !c.Connected()
      requires VALID_TREE <= index.level
      modifies index`level, this`tips
      ensures Core() && index.level == if old(index.level) >= CONNECTED then VALID_TREE else old(index.level)
    {
      hide BlockIndex.Ancestors, BlockIndex.Sound, AllInherit, AppliedChain, TipsOf, Shape, Linked;
      ghost var s := Nodes();
      ghost var able := Able(s);
      ShapeOf(s, root, index);
      OneLessAble(able, index);
      if index.Connected() {
        var success := index.LowerValidity(VALID_TREE);
        assert success;
      }
      assert Able(s) == able - {index};
      tips := tips - {index};
      TryAddTip(index.pprev);
    }

    method Revalidate(r: BlockIndex, reason: Reason)
      requires Core() && r in Nodes() && r != root && reason != FailedChild
      modifies On(r, reason, FailedBlock)`failedBlock, On(r, reason, FailedPop)`failedPop
      modifies Nodes()`failedChild, this`tips
      ensures Core() && !HasFlag(r, reason)
    {
      hide BlockIndex.Ancestors, BlockIndex.Sound, AllInherit, AppliedSound, AppliedChain, Able, TipsOf, Shape, Linked;
      RevalidateSubtree(r, reason);
    }

    /** A block whose body is gone becomes a mere header that has not failed by its payloads. */
    method RevertToHeader(index: BlockIndex)
      requires Core() && index in Nodes() && index != root && !index.bodyAdded && !index.active
      requires forall c <- Children(Nodes(), index) :: !c.Connected()
      requires VALID_TREE <= index.level && root.level == CAN_BE_APPLIED
      requires forall x <- Nodes() | x != index :: (x == root || x.pprev != null) && LevelFollows(root, x, false)
      modifies index`level, index`failedPop, Nodes()`failedChild, this`tips
      ensures Core() && LevelsFollow(Nodes(), root, {})
      ensures index.level == VALID_TREE && !index.failedPop
    {
      hide BlockIndex.Ancestors, BlockIndex.Sound, AllInherit, AppliedSound, AppliedChain, Able, TipsOf, Linked, Core;
      ghost var s := Nodes();
      Revalidate(index, FailedPop);
      Disconnect(index);
    }

    /** Takes a body out of a block; only the levels of the block itself are still to follow. */
    method EraseBody(index: BlockIndex)
      requires Wired() && IndexExact() && BodiesFollow(Nodes(), root) && LevelsFollow(Nodes(), root, {})
      requires index in Nodes() && index != root
      modifies index`atvIds, index`vtbIds, index`vbkIds, index`bodyAdded, payloadsIndex
      ensures IndexExact() && BodiesFollow(Nodes(), root)
      ensures !index.bodyAdded && VALID_TREE <= index.level && root.level == CAN_BE_APPLIED
      ensures forall k: Kind :: index.PayloadIds(k) == []
      ensures forall x <- Nodes() | x != index :: (x == root || x.pprev != null) && LevelFollows(root, x, false)
    {
      hide BlockIndex.Ancestors, BlockIndex.Sound, BlockIndex.Ids, IndexExact, Linked;
      assert LevelFollows(root, index, false);
      EraseIds(index);
      index.bodyAdded := false;
      forall x <- Nodes() | x != index
        ensures (x == root || x.pprev != null) && LevelFollows(root, x, false)
      {
        assert old(LevelFollows(root, x, false));
      }
    }

    /** Removes the payloads of a block with no connected block behind it. */
    method RemoveAllPayloads(index: BlockIndex)
      requires Valid() && index in Nodes() && index != root && index.bodyAdded && !index.active
      requires index.AllDescendantsUnconnected()
      modifies index`atvIds, index`vtbIds, index`vbkIds, index`bodyAdded, payloadsIndex
      modifies index`level, index`failedPop, Nodes()`failedChild, this`tips, this`rejected
      ensures Valid() && !index.bodyAdded && index.level == VALID_TREE && !index.failedPop
      ensures forall k: Kind :: index.PayloadIds(k) == []
      ensures rejected == old(rejected) - {index}
    {
      hide BlockIndex.Ancestors, BlockIndex.Sound, BlockIndex.Ids, AllInherit, AppliedSound, AppliedChain, Able, TipsOf;
      hide Shape, IndexExact, Duplicate, BlockIndex.ProperAncestors, BodiesFollow, Linked, LevelsFollow, CoreAt;
      hide BlockIndex.PayloadIds, LevelFollows;
      CoreIsWired(activeTip);
      ghost var s := Nodes();
      ghost var before := Stored(s);
      ShapeOf(s, root, index);
      NextAreChildren(s, index);
      EraseBody(index);
      RevertToHeader(index);
      rejected := rejected - {index};
      forall b <- s | b != root && b != index
        ensures b.Sound() && (b in rejected ==> b.Connected())
        ensures b.Connected() ==> (b.failedPop <==> Duplicate(before, b, finalized) || b in rejected)
      {
        ShapeOf(s, root, b);
        assert old(PopFollowsAt(s, b, finalized, b in rejected));
      }
      PopWithout(index, before);
    }

    /** Removing payloads from a block that is not connected any more concerns no other block. */
    lemma PopWithout(index: BlockIndex, before: map<BlockIndex, set<Id>>)
      requires Wired() && LevelsFollow(Nodes(), root, {}) && index in Nodes() && !index.Connected() && index !in rejected
      requires before.Keys == Nodes() && forall x <- Nodes() :: x != index ==> x.Ids() == before[x]
      requires forall b <- Nodes() | b != root && b != index && b.Connected() ::
                 b.Sound() && (b.failedPop <==> Duplicate(before, b, finalized) || b in rejected)
      requires forall b <- Nodes() :: b != index && b != root && b in rejected ==> b.Connected()
      ensures PopFollows(Nodes(), root, finalized, rejected)
    {
      hide BlockIndex.Ancestors, BlockIndex.Ids, Duplicate, BlockIndex.ProperAncestors;
      ghost var s := Nodes();
      forall b <- s | b != root
        ensures b.Sound() && PopFollowsAt(s, b, finalized, b in rejected)
      {
        ShapeOf(s, root, b);
        if b.Connected() {
          UnconnectedAncestor(s, root, {}, b, index);
          DuplicateElsewhere(before, Stored(s), b, finalized, index);
        }
      }
    }
  
    // ---------------------------------------------------------------- headers

    /** Creates the block of an unknown header behind a known one. */
    method CreateBlockIndex(hash: Hash, prev: BlockIndex) returns (index: BlockIndex)
      requires prev in Nodes() && hash !in blocks && IndexExact()
      modifies this`blocks, prev`pnext
      ensures fresh(index) && blocks == old(blocks)[hash := index] && Nodes() == old(Nodes()) + {index}
      ensures index.pprev == prev && index.hash == hash && index.height == prev.height + 1
      ensures prev.pnext == old(prev.pnext) + {index} && index.pnext == {}
      ensures index.level == 0 && !index.failedBlock && !index.failedPop && !index.bodyAdded && !index.active
      ensures index.failedChild == prev.Failed()
      ensures (forall k: Kind :: index.PayloadIds(k) == []) && index.Ids() == {} && IndexExact()
    {
      hide BlockIndex.Ids, PayloadsIndex.Valid, PayloadsIndex.Holds;
      ghost var s := Nodes();
      index := new BlockIndex.Next(prev, hash);
      index.NoIdsAtAll();
      blocks := blocks[hash := index];
      assert Nodes() == s + {index} by {
        assert forall h <- old(blocks) :: blocks[h] == old(blocks)[h];
        assert blocks[hash] == index;
      }
    }

    /** The new block becomes part of the tree. */
    method InsertBlockHeader(hash: Hash, prev: BlockIndex) returns (index: BlockIndex)
      requires Wired() && prev in Nodes() && hash !in blocks && prev.level >= VALID_TREE && IndexExact()
      modifies this`blocks, prev`pnext
      ensures fresh(index) && blocks == old(blocks)[hash := index] && Nodes() == old(Nodes()) + {index}
      ensures index.pprev == prev && index.hash == hash && index.height == prev.height + 1
      ensures Wired() && IndexExact() && index.pnext == {}
      ensures index.level == VALID_TREE && !index.failedBlock && !index.failedPop && !index.bodyAdded && !index.active
      ensures index.failedChild == prev.Failed()
      ensures (forall k: Kind :: index.PayloadIds(k) == []) && index.Ids() == {}
    {
      hide BlockIndex.Ancestors, BlockIndex.Sound, BlockIndex.Ids, Shape, IndexExact, Children, BlockIndex.PayloadIds;
      ghost var s := Nodes();
      index := CreateBlockIndex(hash, prev);
      OneMoreLink(s, root, index);
      var raised := index.RaiseValidity(VALID_TREE);
      assert raised;
    }

    /** A new header leaves a valid tree. */
    method AddHeader(hash: Hash, prev: BlockIndex) returns (index: BlockIndex)
      requires Valid() && prev in Nodes() && hash !in blocks
      modifies this`blocks, this`tips, prev`pnext
      ensures Valid()
      ensures fresh(index) && blocks == old(blocks)[hash := index]
      ensures index.pprev == prev && index.hash == hash && index.height == prev.height + 1
      ensures tips == old(tips) && !index.bodyAdded && index.failedChild == index.Failed() == prev.Failed()
      ensures index.pnext == {} && index.level == VALID_TREE && !index.failedBlock
    {
      hide BlockIndex.Ancestors, BlockIndex.Sound, BlockIndex.Ids, Able, AllInherit, AppliedSound, AppliedChain;
      hide BodiesFollow, PopFollows, IndexExact, Linked, Shape;
      ghost var s := Nodes();
      ShapeOf(s, root, prev);
      assert LevelFollows(root, prev, false);
      index := InsertBlockHeader(hash, prev);
      OneMoreHeader(s, root, index, finalized, rejected);
      assert index !in s;
      TryAddTip(index);
    }

    /** Accepts a header. A known header is found again, one without a known predecessor is
        refused, and one behind a failed block is stored but reported as invalid. */
    method AcceptBlockHeader(hash: Hash, prevHash: Hash) returns (ok: bool)
      requires Valid() && hash != prevHash
      modifies this`blocks, this`tips, (if prevHash in blocks then {blocks[prevHash]} else {})`pnext
      ensures Valid()
      ensures ok <==> hash == root.hash || (prevHash in old(blocks) && hash in blocks && !blocks[hash].Failed())
      ensures tips == old(tips)
      ensures hash == root.hash || prevHash !in old(blocks) || hash in old(blocks) ==> blocks == old(blocks)
      ensures hash != root.hash && prevHash in old(blocks) && hash !in old(blocks) ==>
                && hash in blocks && fresh(blocks[hash]) && blocks == old(blocks)[hash := blocks[hash]]
                && blocks[hash].pprev == old(blocks)[prevHash] && !blocks[hash].bodyAdded && !blocks[hash].failedBlock
                && blocks[hash].hash == hash && blocks[hash].pnext == {} && blocks[hash].level == VALID_TREE
                && blocks[hash].Failed() == blocks[prevHash].Failed()
    {
      hide BlockIndex.Ancestors, BlockIndex.Sound, BlockIndex.Ids, Linked, AllInherit, AppliedSound, AppliedChain;
      hide BodiesFollow, LevelsFollow, PopFollows, IndexExact;
      if hash == root.hash {
        return true;
      }
      if prevHash !in blocks {
        return false;
      }
      var index: BlockIndex;
      if hash in blocks {
        index := blocks[hash];
      } else {
        index := AddHeader(hash, blocks[prevHash]);
        assert blocks[hash] == index;
      }
      if index.Failed() {
        return false;
      }
      TryAddTip(index);
      assert tips == old(tips);
      return true;
    }
  
    // ---------------------------------------------------------------- invalidation by the altchain

    /** The altchain declares a block invalid. */
    method InvalidateBlock(r: BlockIndex)
      requires Valid() && r in Nodes() && r != root
      modifies r`failedBlock, Nodes()`failedChild, Nodes()`active
      modifies this`tips, this`activeTip, this`appliedBlockCount
      ensures Valid() && r.failedBlock
      ensures activeTip == if r in old(activeTip).Ancestors() then r.pprev else old(activeTip)
    {
      hide BlockIndex.Ancestors, BlockIndex.Sound, Shape, Linked, AllInherit, AppliedSound, Able, TipsOf;
      hide PopFollows, LevelsFollow, IndexExact, BodiesFollow;
      ShapeOf(Nodes(), root, r);
      InvalidateSubtree(r, FailedBlock, activeTip);
    }

    /** The altchain takes that back. */
    method RevalidateBlock(r: BlockIndex)
      requires Valid() && r in Nodes() && r != root
      modifies r`failedBlock, Nodes()`failedChild, this`tips
      ensures Valid() && !r.failedBlock
    {
      hide BlockIndex.Ancestors, BlockIndex.Sound, CoreAt, PopFollows, LevelsFollow, IndexExact, BodiesFollow;
      Revalidate(r, FailedBlock);
    }

    // ---------------------------------------------------------------- changing the state

    /** The commands of a block failed: so does the block. */
    method RejectBlock(index: BlockIndex)
      requires index in Nodes() && index != root && index.pprev != null && CoreAt(index.pprev)
      requires LevelsFollow(Nodes(), root, {}) && PopFollows(Nodes(), root, finalized, rejected)
      requires index.Connected() && !index.Failed() && index !in activeTip.Ancestors() && index.level < CAN_BE_APPLIED
      modifies index`failedPop, Nodes()`failedChild, Nodes()`active
      modifies this`tips, this`activeTip, this`appliedBlockCount, this`rejected
      ensures activeTip == old(activeTip) && CoreAt(index.pprev)
      ensures LevelsFollow(Nodes(), root, {}) && PopFollows(Nodes(), root, finalized, rejected)
      ensures index.failedPop && rejected == old(rejected) + {index}
    {
      hide BlockIndex.Ancestors, BlockIndex.Sound, Stored, Linked, AllInherit, AppliedSound, AppliedChain, Able, TipsOf;
      hide Shape, Duplicate;
      ghost var s := Nodes();
      NotBehindItself(s, root, index);
      Failing(index);
      InvalidateSubtree(index, FailedPop, index.pprev);
      rejected := rejected + {index};
      forall x <- s
        ensures (x == root || x.pprev != null) && LevelFollows(root, x, false)
        ensures x.Sound() && (x != root ==> PopFollowsAt(s, x, finalized, x in rejected))
      {
        ShapeOf(s, root, x);
        assert old(LevelFollows(root, x, false));
        assert x != root ==> old(PopFollowsAt(s, x, finalized, x in rejected));
      }
    }

    lemma CoreIsWired(top: BlockIndex)
      requires CoreAt(top)
      ensures Wired() && activeTip in Nodes()
    {
    }

    lemma Failing(index: BlockIndex)
      requires Wired() && LevelsFollow(Nodes(), root, {}) && index in Nodes() && index != root && index.Connected()
      ensures index.pprev != null && index.bodyAdded && index.pprev.Connected()
    {
      assert LevelFollows(root, index, false);
    }

    /** Raises the level of a block about to be applied: it follows the only applied chain, so
        it becomes fully valid. */
    method RaiseToApplied(index: BlockIndex)
      requires index in Nodes() && index != root && index.pprev != null && CoreAt(index.pprev)
      requires index.Connected() && !index.Failed() && index.level <= CAN_BE_APPLIED
      modifies index`level
      ensures CoreAt(index.pprev) && index.level == CAN_BE_APPLIED
    {
      hide BlockIndex.Ancestors, BlockIndex.Sound, Linked, TipsOf, Shape, AllInherit;
      ghost var s := Nodes();
      ghost var able := Able(s);
      NotBehindItself(s, root, index);
      AncestorsInside(s, root, index.pprev);
      assert index.pprev.active by {
        ShapeOf(s, root, index.pprev);
      }
      var onlyChain := !index.pprev.Failed() && index.pprev.level >= CAN_BE_APPLIED
                       && index.height == root.height + appliedBlockCount;
      var _ := index.RaiseValidity(if onlyChain then CAN_BE_APPLIED else MAYBE_WITH_OTHER_CHAIN);
      assert Able(s) == able;
    }

    method Activate(index: BlockIndex)
      requires index in Nodes() && index != root && index.pprev != null && CoreAt(index.pprev)
      requires index.level == CAN_BE_APPLIED && !index.Failed()
      modifies index`active, this`appliedBlockCount
      ensures CoreAt(index)
    {
      hide BlockIndex.Ancestors, BlockIndex.Sound, Linked, TipsOf, Shape, AllInherit, Able;
      NotBehindItself(Nodes(), root, index);
      index.active := true;
      appliedBlockCount := appliedBlockCount + 1;
    }

    /** The commands of a block succeeded, or it has none. */
    method MarkApplied(index: BlockIndex)
      requires index in Nodes() && index != root && index.pprev != null && CoreAt(index.pprev)
      requires LevelsFollow(Nodes(), root, {}) && PopFollows(Nodes(), root, finalized, rejected)
      requires index.Connected() && !index.Failed()
      modifies index`level, index`active, this`appliedBlockCount
      ensures CoreAt(index) && index.Connected()
      ensures LevelsFollow(Nodes(), root, {}) && PopFollows(Nodes(), root, finalized, rejected)
    {
      hide BlockIndex.Ancestors, BlockIndex.Sound, Stored, Duplicate, CoreAt, Shape, Linked;
      ghost var s := Nodes();
      CoreIsWired(index.pprev);
      Failing(index);
      assert LevelFollows(root, index, false);
      RaiseToApplied(index);
      forall x <- s
        ensures (x == root || x.pprev != null) && LevelFollows(root, x, false)
        ensures x.Sound() && (x != root ==> PopFollowsAt(s, x, finalized, x in rejected))
      {
        ShapeOf(s, root, x);
        assert old(LevelFollows(root, x, false));
        assert x != root ==> old(PopFollowsAt(s, x, finalized, x in rejected));
      }
      Activate(index);
    }

    /** Applies one block on top of the applied chain. `executes` says whether its commands
        succeed; if they do not, the block fails. */
    method ApplyBlock(index: BlockIndex, executes: bool) returns (ok: bool)
      requires index in Nodes() && index != root && index.pprev != null && CoreAt(index.pprev)
      requires LevelsFollow(Nodes(), root, {}) && PopFollows(Nodes(), root, finalized, rejected)
      requires index.Connected() && !index.Failed()
      requires index in activeTip.Ancestors() || index.level == CAN_BE_APPLIED ==> executes
      modifies index`level, index`active, index`failedPop, Nodes()`failedChild, Nodes()`active
      modifies this`tips, this`activeTip, this`appliedBlockCount, this`rejected
      ensures ok <==> executes || !index.HasPayloads()
      ensures activeTip == old(activeTip)
      ensures CoreAt(if ok then index else index.pprev)
      ensures LevelsFollow(Nodes(), root, {}) && PopFollows(Nodes(), root, finalized, rejected)
      ensures index.Connected() && index.failedPop == !ok
      ensures ok ==> rejected == old(rejected) && forall x <- Nodes() :: x.failedChild == old(x.failedChild)
    {
      hide BlockIndex.Ancestors, BlockIndex.Sound, CoreAt, PopFollows;
      if index.HasPayloads() && !executes {
        assert LevelFollows(root, index, false);
        RejectBlock(index);
        return false;
      }
      MarkApplied(index);
      return true;
    }
  
    /** The commands of every block after `from` up to `to` succeed. */
    ghost predicate Executable(from: BlockIndex, to: BlockIndex, executes: BlockIndex -> bool)
      requires from.Sound() && to.Sound()
      reads this`blocks, Nodes()`atvIds, Nodes()`vtbIds, Nodes()`vbkIds
    {
      forall b <- Nodes() :: b in to.Ancestors() ==> b in from.Ancestors() || executes(b) || !b.HasPayloads()
    }

    /** The next block on the path to `to`, and what it adds to the commands executed. */
    lemma NextToApply(from: BlockIndex, top: BlockIndex, to: BlockIndex, executes: BlockIndex -> bool)
      requires Wired() && from in Nodes() && to in Nodes() && to.Sound() && top in to.Ancestors() && top != to
      requires top.Sound() && from in top.Ancestors() && from.Sound()
      ensures var n := At(to, top.height + 1);
              && n != null && n.pprev == top && n in Nodes() && n in to.Ancestors() && n.Sound()
              && n !in top.Ancestors() && n.Ancestors() == top.Ancestors() + {n} && n !in from.Ancestors()
              && (Executable(from, n, executes) <==>
                  Executable(from, top, executes) && (executes(n) || !n.HasPayloads()))
              && (Executable(from, to, executes) ==> Executable(from, n, executes))
    {
      NextOnPath(to, top);
      var n := At(to, top.height + 1);
      AncestorsInside(Nodes(), root, to);
      NotBehindItself(Nodes(), root, n);
      AncestorsNest(from, top);
      AncestorsNest(n, to);
    }

    /** Applies the next block on the path from `from` to a valid block `to`; if it fails, what
        was applied is unapplied again. */
    method ApplyNext(index: BlockIndex, from: BlockIndex, to: BlockIndex, executes: bool) returns (ok: bool)
      requires to in Nodes() && to.Sound() && index in to.Ancestors() && index in Nodes()
      requires index.pprev != null && CoreAt(index.pprev) && index.pprev.Sound() && from in index.pprev.Ancestors()
      requires LevelsFollow(Nodes(), root, {}) && PopFollows(Nodes(), root, finalized, rejected)
      requires to.Connected() && !to.Failed()
      requires index in activeTip.Ancestors() || index.level == CAN_BE_APPLIED ==> executes
      modifies index`level, index`failedPop, Nodes()`failedChild, Nodes()`active
      modifies this`tips, this`activeTip, this`appliedBlockCount, this`rejected
      ensures ok <==> executes || !index.HasPayloads()
      ensures activeTip == old(activeTip)
      ensures from in Nodes() && CoreAt(if ok then index else from)
      ensures LevelsFollow(Nodes(), root, {}) && PopFollows(Nodes(), root, finalized, rejected)
      ensures index.Connected() && old(index.Connected()) && index.failedPop == !ok && !old(index.failedPop)
      ensures to.Failed() == !ok && to.Connected()
      ensures ok ==> rejected == old(rejected)
    {
      hide BlockIndex.Ancestors, BlockIndex.Sound, PopFollows, AllInherit, AppliedSound, AppliedChain, Able, TipsOf;
      hide LevelsFollow, Linked, IndexExact, BlockIndex.Ids;
      ghost var s := Nodes();
      ConnectedUpwards(s, root, {}, to, index);
      ValidUpwards(s, root, to, index);
      AncestorsInside(s, root, index.pprev);
      ok := ApplyBlock(index, executes);
      if ok {
        return;
      }
      if !to.Failed() {
        ValidUpwards(s, root, to, index);
      }
      Unapply(index.pprev, from);
    }
  
    /** What `Apply` has to know of the blocks it is going to apply. */
    ghost predicate MayApply(from: BlockIndex, to: BlockIndex, executes: BlockIndex -> bool)
      requires from.Sound() && to.Sound() && activeTip.Sound()
      reads this`blocks, this`activeTip, Nodes()`level
    {
      forall b <- Nodes() | b in to.Ancestors() && b !in from.Ancestors() ::
        b in activeTip.Ancestors() || b.level == CAN_BE_APPLIED ==> executes(b)
    }

    /** The loop of `Apply`: applies the blocks after `from` up to a valid block `to`. */
    method ApplyChain(from: BlockIndex, to: BlockIndex, executes: BlockIndex -> bool) returns (ok: bool)
      requires to in Nodes() && to.Sound() && from in to.Ancestors() && from in Nodes() && from.Sound() && CoreAt(from)
      requires LevelsFollow(Nodes(), root, {}) && PopFollows(Nodes(), root, finalized, rejected)
      requires to.Connected() && !to.Failed() && from != to
      requires activeTip.Sound() && MayApply(from, to, executes)
      modifies Nodes()`level, Nodes()`failedPop, Nodes()`failedChild, Nodes()`active
      modifies this`tips, this`activeTip, this`appliedBlockCount, this`rejected
      ensures ok <==> Executable(from, to, executes)
      ensures activeTip == old(activeTip) && CoreAt(if ok then to else from) && to.Failed() == !ok
      ensures LevelsFollow(Nodes(), root, {}) && PopFollows(Nodes(), root, finalized, rejected)
      ensures forall x <- Nodes() :: x.Connected() == old(x.Connected())
      ensures forall x <- Nodes() :: x in activeTip.Ancestors() || ok ==> x.failedPop == old(x.failedPop)
      ensures ok ==> rejected == old(rejected)
      ensures ok ==> forall x <- Nodes() :: x !in to.Ancestors() ==> x.level == old(x.level)
    {
      hide BlockIndex.Ancestors, BlockIndex.Sound, CoreAt, PopFollows, LevelsFollow, At, Shape, Linked, Executable;
      hide BlockIndex.HasPayloads, BlockIndex.PayloadIds, BlockIndex.Failed, BlockIndex.Connected;
      CoreIsWired(from);
      var path := PathAfter(from, to);
      NothingToExecute(from, executes);
      ghost var top := from;
      for n := 0 to |path|
        invariant top in to.Ancestors() && top.Sound() && top.height == from.height + n && top in Nodes()
        invariant from in top.Ancestors() && CoreAt(top) && Wired()
        invariant LevelsFollow(Nodes(), root, {}) && PopFollows(Nodes(), root, finalized, rejected)
        invariant to.Connected() && !to.Failed() && Executable(from, top, executes)
        invariant activeTip == old(activeTip) && rejected == old(rejected)
        invariant forall x <- Nodes() :: x.Connected() == old(x.Connected()) && x.failedPop == old(x.failedPop)
        invariant forall x <- Nodes() :: x !in top.Ancestors() ==> x.level == old(x.level)
      {
        NextToApply(from, top, to, executes);
        var index := path[n];
        var executed := ApplyNext(index, from, to, executes(index));
        if !executed {
          return false;
        }
        top := index;
      }
      OneAncestorPerHeight(to, top, to);
      return true;
    }

    /** The blocks after `from` up to `to`, in order. */
    method PathAfter(from: BlockIndex, to: BlockIndex) returns (path: seq<BlockIndex?>)
      requires to.Sound() && from in to.Ancestors() && from != to
      ensures |path| == to.height - from.height
      ensures forall i :: 0 <= i < |path| ==> path[i] == At(to, from.height + 1 + i)
    {
      AncestorHeights(to);
      var chain := new Chain(from.height + 1, to);
      NextOnPath(to, from);
      path := chain.blocks;
    }

    lemma NothingToExecute(from: BlockIndex, executes: BlockIndex -> bool)
      requires from.Sound()
      ensures Executable(from, from, executes)
    {
    }
  
    /** Applies the blocks after `from` up to `to`, all of them or none. */
    method Apply(from: BlockIndex, to: BlockIndex, executes: BlockIndex -> bool) returns (ok: bool)
      requires to in Nodes() && to.Sound() && from in to.Ancestors() && from in Nodes() && from.Sound() && CoreAt(from)
      requires LevelsFollow(Nodes(), root, {}) && PopFollows(Nodes(), root, finalized, rejected)
      requires to.Connected() && activeTip.Sound() && MayApply(from, to, executes)
      modifies Nodes()`level, Nodes()`failedPop, Nodes()`failedChild, Nodes()`active
      modifies this`tips, this`activeTip, this`appliedBlockCount, this`rejected
      ensures ok <==> !old(to.Failed()) && Executable(from, to, executes)
      ensures activeTip == old(activeTip) && CoreAt(if ok then to else from) && to.Failed() == !ok
      ensures LevelsFollow(Nodes(), root, {}) && PopFollows(Nodes(), root, finalized, rejected)
      ensures forall x <- Nodes() :: x.Connected() == old(x.Connected())
      ensures forall x <- Nodes() :: x in activeTip.Ancestors() || ok ==> x.failedPop == old(x.failedPop)
      ensures ok ==> rejected == old(rejected)
      ensures ok ==> forall x <- Nodes() :: x !in to.Ancestors() ==> x.level == old(x.level)
    {
      hide BlockIndex.Ancestors, BlockIndex.Sound, PopFollows, LevelsFollow, Shape, Linked, Executable, MayApply;
      if from == to {
        NothingToExecute(from, executes);
        return true;
      }
      if to.Failed() {
        return false;
      }
      ok := ApplyChain(from, to, executes);
    }

    /** Goes back to the active chain after the other one could not be applied: its blocks are
        known to be fully valid and nothing on it failed meanwhile, so this succeeds. */
    method Rollback(fork: BlockIndex, executes: BlockIndex -> bool)
      requires fork in Nodes() && fork.Sound() && CoreAt(fork) && activeTip.Sound() && fork in activeTip.Ancestors()
      requires LevelsFollow(Nodes(), root, {}) && PopFollows(Nodes(), root, finalized, rejected)
      requires activeTip.Connected()
      requires forall b <- activeTip.Ancestors() :: !b.failedBlock && !b.failedPop && executes(b)
      modifies Nodes()`level, Nodes()`failedPop, Nodes()`failedChild, Nodes()`active
      modifies this`tips, this`activeTip, this`appliedBlockCount, this`rejected
      ensures activeTip == old(activeTip) && Core() && rejected == old(rejected)
      ensures LevelsFollow(Nodes(), root, {}) && PopFollows(Nodes(), root, finalized, rejected)
      ensures forall x <- Nodes() :: x.Connected() == old(x.Connected()) && x.failedPop == old(x.failedPop)
    {
      hide BlockIndex.Ancestors, BlockIndex.Sound, PopFollows, LevelsFollow, Shape, Linked;
      OwnFailures(Nodes(), root, activeTip);
      var success := Apply(fork, activeTip, executes);
      assert success;
    }

    /** A block that failed has, or follows, a block that failed of its own; and the other way
        round. */
    lemma FailureHasASource(to: BlockIndex)
      requires Wired() && AllInherit(Nodes(), root) && to in Nodes() && to.Sound()
      ensures to.Failed() <==> exists a <- to.Ancestors() :: a in Nodes() && (a.failedBlock || a.failedPop)
    {
      AncestorsInside(Nodes(), root, to);
      if !to.Failed() {
        forall a <- to.Ancestors()
          ensures !a.Failed()
        {
          ValidUpwards(Nodes(), root, to, a);
        }
      } else if forall a <- to.Ancestors() :: !a.failedBlock && !a.failedPop {
        OwnFailures(Nodes(), root, to);
      }
    }

    /** Unapplies the active chain down to the fork and applies the other one, or comes back. */
    method SwitchTo(to: BlockIndex, fork: BlockIndex, executes: BlockIndex -> bool) returns (ok: bool)
      requires Core() && LevelsFollow(Nodes(), root, {}) && PopFollows(Nodes(), root, finalized, rejected)
      requires to in Nodes() && to.Sound() && to.Connected() && activeTip.Sound() && activeTip.Connected()
      requires fork in Nodes() && fork in activeTip.Ancestors() && fork in to.Ancestors() && fork.Sound()
      requires MayApply(fork, to, executes)
      requires forall b <- activeTip.Ancestors() :: !b.failedBlock && !b.failedPop && executes(b)
      requires activeTip.Ancestors() <= Nodes()
      modifies Nodes()`level, Nodes()`failedPop, Nodes()`failedChild, Nodes()`active
      modifies this`tips, this`activeTip, this`appliedBlockCount, this`rejected
      ensures ok <==> !old(to.Failed()) && Executable(fork, to, executes)
      ensures activeTip == old(activeTip) && CoreAt(if ok then to else activeTip) && to.Failed() == !ok
      ensures LevelsFollow(Nodes(), root, {}) && PopFollows(Nodes(), root, finalized, rejected)
      ensures forall x <- Nodes() :: x.Connected() == old(x.Connected())
      ensures ok ==> rejected == old(rejected) && forall x <- Nodes() :: x.failedPop == old(x.failedPop)
      ensures ok ==> forall x <- Nodes() :: x !in to.Ancestors() ==> x.level == old(x.level)
    {
      hide BlockIndex.Ancestors, BlockIndex.Sound, PopFollows, LevelsFollow, Shape, Linked, Executable, MayApply;
      hide AllInherit, AppliedSound, AppliedChain, Able, TipsOf;
      var from := activeTip;
      Unapply(from, fork);
      ok := Apply(fork, to, executes);
      if !ok {
        FailureHasASource(to);
        Rollback(fork, executes);
        FailureHasASource(to);
      }
    }

    /** The active chain is fully valid and its commands succeed. */
    lemma ActiveIsValid(to: BlockIndex, executes: BlockIndex -> bool)
      requires Core() && LevelsFollow(Nodes(), root, {}) && to in Nodes() && to.Sound() && activeTip.Sound()
      requires forall b <- Nodes() :: b.level == CAN_BE_APPLIED ==> executes(b)
      ensures activeTip.Connected() && !activeTip.Failed() && activeTip.Ancestors() <= Nodes()
      ensures forall b <- activeTip.Ancestors() :: !b.failedBlock && !b.failedPop && executes(b)
      ensures Executable(activeTip, activeTip, executes)
      ensures root in activeTip.Ancestors() && root in to.Ancestors()
    {
      AncestorsInside(Nodes(), root, activeTip);
      AncestorsInside(Nodes(), root, to);
      assert activeTip.active;
    }

    lemma AtTheFork(to: BlockIndex, fork: BlockIndex, executes: BlockIndex -> bool)
      requires Wired() && to in Nodes() && activeTip in Nodes() && to.Sound() && activeTip.Sound()
      requires fork in activeTip.Ancestors() && fork in to.Ancestors()
      requires forall c <- activeTip.Ancestors() * to.Ancestors() :: c.height <= fork.height
      requires forall b <- Nodes() :: b.level == CAN_BE_APPLIED ==> executes(b)
      ensures fork in Nodes() && fork.Sound() && MayApply(fork, to, executes)
      ensures Executable(fork, to, executes) <==> Executable(activeTip, to, executes)
    {
      AncestorsInside(Nodes(), root, to);
      UpToFork(activeTip, to, fork);
    }

    /** Moves the applied chain and the active tip to a connected block, or leaves both where
        they are. It succeeds exactly when the block is valid and the commands of all blocks
        between the fork and the block succeed; the command outcome of a block known to be fully
        valid is success. */
    method SetState(to: BlockIndex, executes: BlockIndex -> bool) returns (ok: bool)
      requires Valid() && to in Nodes() && to.Connected()
      requires forall b <- Nodes() :: b.level == CAN_BE_APPLIED ==> executes(b)
      modifies Nodes()`level, Nodes()`failedPop, Nodes()`failedChild, Nodes()`active
      modifies this`tips, this`activeTip, this`appliedBlockCount, this`rejected
      ensures Valid() && activeTip == if ok then to else old(activeTip)
      ensures ok <==> !old(to.Failed()) && Executable(old(activeTip), to, executes)
      ensures to.Failed() == !ok
      ensures forall x <- Nodes() :: x.Connected() == old(x.Connected())
      ensures ok ==> rejected == old(rejected) && forall x <- Nodes() :: x.failedPop == old(x.failedPop)
      ensures to.Sound() && (ok ==> forall x <- Nodes() :: x !in to.Ancestors() ==> x.level == old(x.level))
    {
      hide BlockIndex.Ancestors, BlockIndex.Sound, PopFollows, LevelsFollow, Linked, IndexExact, BodiesFollow;
      hide CoreAt, Shape, Executable, MayApply;
      CoreIsWired(activeTip);
      ShapeOf(Nodes(), root, to);
      ShapeOf(Nodes(), root, activeTip);
      ActiveIsValid(to, executes);
      if activeTip == to {
        return true;
      }
      var fork := GetForkBlock(activeTip, to);
      assert root in activeTip.Ancestors() * to.Ancestors();
      AtTheFork(to, fork, executes);
      ok := SwitchTo(to, fork, executes);
      if ok {
        OverrideTip(to);
      }
    }

    /** Makes the last applied block, which is fully valid, the tip of the active chain. */
    method OverrideTip(to: BlockIndex)
      requires CoreAt(to)
      modifies this`activeTip
      ensures activeTip == to && Core()
    {
      assert to.active && !to.Failed() && to.level >= CAN_BE_APPLIED;
      activeTip := to;
    }
  
    // ---------------------------------------------------------------- removing a leaf

    /** Turns a leaf into a deleted block without payloads, and finds the tips without it. */
    method DeleteTemporarily(leaf: BlockIndex)
      requires Wired() && IndexExact() && leaf in Nodes() && leaf != root && leaf.pnext == {}
      requires tips == TipsOf(Able(Nodes()))
      modifies leaf`atvIds, leaf`vtbIds, leaf`vbkIds, leaf`level, leaf`bodyAdded, payloadsIndex, this`tips
      ensures IndexExact() && leaf.Ids() == {}
      ensures tips == TipsOf(old(Able(Nodes())) - {leaf})
    {
      hide BlockIndex.Ancestors, BlockIndex.Sound, BlockIndex.Ids, Shape, IndexExact, TipsOf;
      ghost var s := Nodes();
      ghost var able := Able(s);
      ShapeOf(s, root, leaf);
      NextAreChildren(s, leaf);
      forall n <- able
        ensures n.pprev != leaf
      {
        assert n !in Children(s, leaf);
      }
      OneLessAble(able, leaf);
      EraseIds(leaf);
      tips := tips - {leaf};
      leaf.level := 0;
      leaf.bodyAdded := false;
      TryAddTip(leaf.pprev);
      assert Able(s) == able - {leaf};
    }

    /** Unlinks a leaf without payloads from the block before it and forgets it. */
    method DeallocateBlock(leaf: BlockIndex)
      requires Wired() && IndexExact() && leaf in Nodes() && leaf != root && leaf.pnext == {} && leaf.Ids() == {}
      modifies WithPrev(leaf)`pnext, this`blocks
      ensures Wired() && IndexExact()
      ensures blocks == old(blocks) - {leaf.hash} && Nodes() == old(Nodes()) - {leaf}
    {
      hide BlockIndex.Ancestors, BlockIndex.Sound, BlockIndex.Ids, PayloadsIndex.Valid, PayloadsIndex.Holds;
      ghost var s := Nodes();
      NextAreChildren(s, leaf);
      assert leaf.pprev in s && leaf.pprev.pnext == Children(s, leaf.pprev);
      leaf.pprev.pnext := leaf.pprev.pnext - {leaf};
      blocks := blocks - {leaf.hash};
      assert Nodes() == s - {leaf} by {
        assert forall b <- s :: old(blocks)[b.hash] == b;
        assert forall b <- s - {leaf} :: b.hash != leaf.hash && b.hash in blocks && blocks[b.hash] == b;
      }
      OneLinkLess(s, root, leaf);
    }

    /** Takes a leaf that is not applied out of the tree. Its payloads leave the index, and the
        block before it may become a tip. */
    method DropLeaf(leaf: BlockIndex)
      requires Valid() && leaf in Nodes() && leaf != root && leaf.pnext == {} && leaf != activeTip
      modifies leaf, WithPrev(leaf)`pnext, payloadsIndex, this`blocks, this`tips
      ensures Valid()
      ensures blocks == old(blocks) - {leaf.hash} && Nodes() == old(Nodes()) - {leaf}
    {
      hide BlockIndex.Ancestors, BlockIndex.Sound, BlockIndex.Ids, Able, AllInherit, AppliedSound, AppliedChain, TipsOf;
      hide BodiesFollow, PopFollows, LevelsFollow, IndexExact, Linked, Shape;
      NextAreChildren(Nodes(), leaf);
      OneNodeLess(Nodes(), root, leaf, finalized, rejected);
      DeleteTemporarily(leaf);
      DeallocateBlock(leaf);
    }

    /** Removes a leaf; if it is the active tip the tree steps back to the block before it. */
    method RemoveLeaf(leaf: BlockIndex)
      requires Valid() && leaf in Nodes() && leaf != root && leaf.pnext == {}
      modifies leaf, WithPrev(leaf)`pnext, payloadsIndex, this`blocks, this`tips, this`activeTip
      modifies this`appliedBlockCount, Nodes()`active
      ensures Valid()
      ensures blocks == old(blocks) - {leaf.hash} && Nodes() == old(Nodes()) - {leaf}
      ensures activeTip == if leaf == old(activeTip) then leaf.pprev else old(activeTip)
    {
      hide BlockIndex.Ancestors, BlockIndex.Sound, BlockIndex.Ids, Able, AllInherit, TipsOf;
      hide BodiesFollow, PopFollows, LevelsFollow, IndexExact, Linked, Shape;
      ShapeOf(Nodes(), root, leaf);
      NextAreChildren(Nodes(), leaf);
      LeafOnChain(leaf);
      StepBehind(leaf, activeTip);
      DropLeaf(leaf);
    }

    lemma LeafOnChain(leaf: BlockIndex)
      requires Wired() && leaf in Nodes() && leaf != root && Children(Nodes(), leaf) == {} && activeTip in Nodes()
      ensures leaf.Sound() && activeTip.Sound() && leaf.pprev != null && leaf.pprev in Nodes()
      ensures leaf in activeTip.Ancestors() <==> leaf == activeTip
    {
      if leaf != activeTip {
        NotBehind(Nodes(), root, leaf, activeTip);
      }
    }
  }

  /** Adds payloads one by one to a connected block that has no connected block behind it. */
  class BlockPayloadMutator {
    const tree: AltBlockTree
    const block: BlockIndex
    const chain: Chain
    var ids: set<Id>

    /** What the mutator relies on: the tree's index, and the chain before the block. */
    ghost predicate Ready()
      reads tree`blocks, tree.Nodes()`pnext, tree.payloadsIndex, chain
      reads tree.Nodes()`atvIds, tree.Nodes()`vtbIds, tree.Nodes()`vbkIds
    {
      && tree.Wired() && tree.IndexExact() && block in tree.Nodes() && block != tree.root
      && chain.Valid() && chain.startHeight == tree.root.height && chain.top == block.pprev
    }

    constructor (tree: AltBlockTree, block: BlockIndex)
      requires tree.Wired() && tree.IndexExact() && block in tree.Nodes() && block != tree.root
      requires block.Connected() && block.AllDescendantsUnconnected()
      ensures Ready() && fresh(chain)
      ensures this.tree == tree && this.block == block && ids == block.Ids()
    {
      AncestorsInside(tree.Nodes(), tree.root, block.pprev);
      RootIsLowest(block.pprev, tree.root);
      RootIsLowest(block.pprev, block.pprev);
      this.tree, this.block := tree, block;
      chain := new Chain(tree.root.height, block.pprev);
      ids := block.Ids();
    }

    /** The payload is in a final block or in a block before this one. */
    method IsStatefulDuplicate(id: Id) returns (duplicate: bool)
      requires Ready()
      ensures duplicate <==> IsDuplicate(Stored(tree.Nodes()), block, tree.finalized, id)
    {
      var rest := tree.payloadsIndex.Find(id);
      while rest != {}
        invariant forall h <- rest :: tree.payloadsIndex.Holds(id, h)
        invariant forall h: Hash :: tree.payloadsIndex.Holds(id, h) && h !in rest ==>
                    tree.blocks[h] !in block.ProperAncestors()
      {
        var h :| h in rest;
        var candidate := tree.blocks[h];
        InTheChain(candidate);
        if chain.Contains(candidate) {
          return true;
        }
        rest := rest - {h};
      }
      forall a <- block.ProperAncestors()
        ensures id !in a.Ids()
      {
        AncestorsInside(tree.Nodes(), tree.root, block.pprev);
        assert tree.blocks[a.hash] == a;
      }
      duplicate := id in tree.finalized;
    }

    /** The chain of the mutator is exactly what lies before its block. */
    lemma InTheChain(candidate: BlockIndex)
      requires Ready()
      ensures chain.Contains(candidate) <==> candidate in block.ProperAncestors()
    {
      chain.ContainsAncestors(candidate);
      AncestorsInside(tree.Nodes(), tree.root, block.pprev);
      if candidate in block.ProperAncestors() {
        RootIsLowest(block.pprev, candidate);
        RootIsLowest(block.pprev, tree.root);
      }
    }

    method HasStatefulDuplicatesOf(k: Kind) returns (duplicates: bool)
      requires Ready()
      ensures duplicates <==> exists i <- block.PayloadIds(k) :: IsDuplicate(Stored(tree.Nodes()), block, tree.finalized, i)
    {
      var pids := block.PayloadIds(k);
      for n := 0 to |pids|
        invariant forall m :: 0 <= m < n ==> !IsDuplicate(Stored(tree.Nodes()), block, tree.finalized, pids[m])
      {
        var duplicate := IsStatefulDuplicate(pids[n]);
        if duplicate {
          return true;
        }
      }
      return false;
    }

    /** Some payload of the block is a duplicate. */
    method HasStatefulDuplicates() returns (duplicates: bool)
      requires Ready()
      ensures duplicates <==> Duplicate(Stored(tree.Nodes()), block, tree.finalized)
    {
      hide IsDuplicate;
      duplicates := HasStatefulDuplicatesOf(VbkKind);
      if !duplicates {
        duplicates := HasStatefulDuplicatesOf(VtbKind);
      }
      if !duplicates {
        duplicates := HasStatefulDuplicatesOf(AtvKind);
      }
      assert duplicates <==> exists k: Kind, i :: i in block.PayloadIds(k) && IsDuplicate(Stored(tree.Nodes()), block, tree.finalized, i);
      assert forall i :: i in block.Ids() <==> exists k: Kind :: i in block.PayloadIds(k) by {
        assert block.atvIds == block.PayloadIds(AtvKind) && block.vtbIds == block.PayloadIds(VtbKind);
        assert block.vbkIds == block.PayloadIds(VbkKind);
      }
    }

    method InsertId(k: Kind, pid: Id)
      requires tree.IndexExact() && block in tree.Nodes() && pid !in block.Ids()
      requires BodiesFollow(tree.Nodes(), tree.root) && block.bodyAdded && block != tree.root
      modifies block`atvIds, block`vtbIds, block`vbkIds, tree.payloadsIndex
      ensures tree.IndexExact() && BodiesFollow(tree.Nodes(), tree.root)
      ensures forall i: Id, h: Hash :: tree.payloadsIndex.Holds(i, h) <==>
                old(tree.payloadsIndex.Holds(i, h)) || (i == pid && h == block.hash)
      ensures block.PayloadIds(k) == old(block.PayloadIds(k)) + [pid] && block.OtherIds(k) == old(block.OtherIds(k))
      ensures block.Ids() == old(block.Ids()) + {pid}
      ensures forall o: Kind :: o != k ==> block.PayloadIds(o) == old(block.PayloadIds(o))
    {
      hide PayloadsIndex.Valid, PayloadsIndex.Holds, BlockIndex.Ids, BlockIndex.OtherIds, BlockIndex.PayloadIds;
      block.IdsSplit(k);
      block.InsertPayloadIds(k, [pid]);
      tree.payloadsIndex.Add(pid, block.hash);
      assert tree.blocks[block.hash] == block;
    }

    /** Takes an id that was appended out of the block again. */
    method TakeBack(k: Kind, pid: Id, ghost before: seq<Id>)
      requires block.PayloadIds(k) == before + [pid] && pid !in before && pid !in block.OtherIds(k)
      requires Distinct(block.PayloadIds(k))
      modifies block`atvIds, block`vtbIds, block`vbkIds
      ensures block.Ids() == old(block.Ids()) - {pid} && pid in old(block.Ids())
      ensures block.PayloadIds(k) == before && Distinct(before)
      ensures forall o: Kind :: o != k ==> block.PayloadIds(o) == old(block.PayloadIds(o))
    {
      hide BlockIndex.Ids, BlockIndex.OtherIds;
      block.IdsSplit(k);
      AppendThenRemove(before, pid);
      assert forall n :: 0 <= n < |before| ==> before[n] == block.PayloadIds(k)[n];
      block.RemovePayloadId(k, pid);
    }

    /** Takes the last id of a list out again. */
    method RemoveId(k: Kind, pid: Id, ghost before: seq<Id>)
      requires tree.IndexExact() && block in tree.Nodes()
      requires block.PayloadIds(k) == before + [pid] && pid !in before && pid !in block.OtherIds(k)
      requires BodiesFollow(tree.Nodes(), tree.root) && block.bodyAdded && block != tree.root
      modifies block`atvIds, block`vtbIds, block`vbkIds, tree.payloadsIndex
      ensures tree.IndexExact() && BodiesFollow(tree.Nodes(), tree.root) && block.Ids() == old(block.Ids()) - {pid}
      ensures forall i: Id, h: Hash :: tree.payloadsIndex.Holds(i, h) <==>
                old(tree.payloadsIndex.Holds(i, h)) && !(i == pid && h == block.hash)
      ensures block.PayloadIds(k) == before
      ensures forall o: Kind :: o != k ==> block.PayloadIds(o) == old(block.PayloadIds(o))
    {
      hide PayloadsIndex.Valid, PayloadsIndex.Holds, BlockIndex.Ids, BlockIndex.OtherIds, BlockIndex.PayloadIds;
      TakeBack(k, pid, before);
      tree.payloadsIndex.Remove(pid, block.hash);
      assert tree.blocks[block.hash] == block;
    }

    /** The tree is as valid as before when a payload that is no duplicate came or went. */
    lemma StillValid(before: map<BlockIndex, set<Id>>, pid: Id)
      requires tree.Core() && tree.IndexExact() && BodiesFollow(tree.Nodes(), tree.root) && tree.LevelsRight()
      requires block in tree.Nodes() && block != tree.root && block.Sound()
      requires forall c <- Children(tree.Nodes(), block) :: !c.Connected()
      requires before.Keys == tree.Nodes() && forall x <- tree.Nodes() | x != block :: x.Ids() == before[x]
      requires block.Ids() - {pid} == before[block] - {pid} && !IsDuplicate(before, block, tree.finalized, pid)
      requires tree.PopFollowed(before)
      ensures tree.Valid() && !IsDuplicate(Stored(tree.Nodes()), block, tree.finalized, pid)
      ensures tree.PopFollowed(Stored(tree.Nodes()))
    {
      hide BlockIndex.Ancestors, BlockIndex.Sound, BlockIndex.Ids, Shape, Linked, IsDuplicate, Duplicate;
      hide LevelFollows, BodiesFollow, AllInherit, AppliedSound, AppliedChain, Able, TipsOf;
      OneMoreOrLess(tree.Nodes(), tree.root, tree.finalized, tree.rejected, before, block, pid);
    }

    lemma NotHeld(pid: Id)
      requires tree.IndexExact() && block in tree.Nodes() && pid !in block.Ids()
      ensures !tree.payloadsIndex.Holds(pid, block.hash)
    {
      assert tree.blocks[block.hash] == block;
    }

    /** Inserting a payload that is new to the block and the blocks before it. */
    method InsertNew(k: Kind, pid: Id)
      requires tree.Valid() && Ready() && block.bodyAdded && block.Sound()
      requires forall c <- Children(tree.Nodes(), block) :: !c.Connected()
      requires pid !in block.Ids() && !IsDuplicate(Stored(tree.Nodes()), block, tree.finalized, pid)
      modifies block`atvIds, block`vtbIds, block`vbkIds, tree.payloadsIndex
      ensures tree.Valid() && Ready() && !IsDuplicate(Stored(tree.Nodes()), block, tree.finalized, pid)
      ensures !old(tree.payloadsIndex.Holds(pid, block.hash))
      ensures forall i: Id, h: Hash :: tree.payloadsIndex.Holds(i, h) <==>
                old(tree.payloadsIndex.Holds(i, h)) || (i == pid && h == block.hash)
      ensures block.PayloadIds(k) == old(block.PayloadIds(k)) + [pid] && block.OtherIds(k) == old(block.OtherIds(k))
      ensures block.Ids() == old(block.Ids()) + {pid}
      ensures forall o: Kind :: o != k ==> block.PayloadIds(o) == old(block.PayloadIds(o))
    {
      hide BlockIndex.Ancestors, BlockIndex.Sound, BlockIndex.Ids, BlockIndex.OtherIds, BlockIndex.PayloadIds;
      hide AltBlockTree.CoreAt, AltBlockTree.IndexExact, AltBlockTree.LevelsRight, AltBlockTree.PopFollowed;
      hide PopFollows, LevelsFollow, BodiesFollow, IsDuplicate, Duplicate;
      tree.PopFollowedNow();
      ghost var stored := Stored(tree.Nodes());
      NotHeld(pid);
      InsertId(k, pid);
      StillValid(stored, pid);
    }

    /** Removing the payload inserted last. */
    method RemoveNew(k: Kind, pid: Id, ghost before: seq<Id>)
      requires tree.Valid() && Ready() && block.bodyAdded && block.Sound()
      requires forall c <- Children(tree.Nodes(), block) :: !c.Connected()
      requires !IsDuplicate(Stored(tree.Nodes()), block, tree.finalized, pid)
      requires block.PayloadIds(k) == before + [pid] && pid !in before && pid !in block.OtherIds(k)
      modifies block`atvIds, block`vtbIds, block`vbkIds, tree.payloadsIndex
      ensures tree.Valid() && Ready()
      ensures forall i: Id, h: Hash :: tree.payloadsIndex.Holds(i, h) <==>
                old(tree.payloadsIndex.Holds(i, h)) && !(i == pid && h == block.hash)
      ensures block.PayloadIds(k) == before && block.Ids() == old(block.Ids()) - {pid}
      ensures forall o: Kind :: o != k ==> block.PayloadIds(o) == old(block.PayloadIds(o))
    {
      hide BlockIndex.Ancestors, BlockIndex.Sound, BlockIndex.Ids, BlockIndex.OtherIds, BlockIndex.PayloadIds;
      hide AltBlockTree.CoreAt, AltBlockTree.IndexExact, AltBlockTree.LevelsRight, AltBlockTree.PopFollowed;
      hide PopFollows, LevelsFollow, BodiesFollow, IsDuplicate, Duplicate;
      tree.PopFollowedNow();
      ghost var stored := Stored(tree.Nodes());
      RemoveId(k, pid, before);
      StillValid(stored, pid);
    }

    /** Adds one payload. A duplicate of a payload before the block is refused, and so is one
        whose commands fail in an applied block; then the lists of the block and the pairs in
        the index are as they were. An id that failed is still remembered as seen. */
    method Add(k: Kind, pid: Id, executes: bool) returns (ok: bool)
      requires tree.Valid() && Ready() && block.bodyAdded && block.Sound()
      requires forall c <- Children(tree.Nodes(), block) :: !c.Connected()
      requires block.Ids() <= ids && pid !in ids
      modifies this`ids, block`atvIds, block`vtbIds, block`vbkIds, tree.payloadsIndex
      ensures tree.Valid() && Ready() && block.Ids() <= ids
      ensures ok <==> !old(IsDuplicate(Stored(tree.Nodes()), block, tree.finalized, pid)) && (executes || !block.active)
      ensures block.PayloadIds(k) == old(block.PayloadIds(k)) + if ok then [pid] else []
      ensures forall o: Kind :: o != k ==> block.PayloadIds(o) == old(block.PayloadIds(o))
      ensures !ok ==> forall i: Id, h: Hash :: tree.payloadsIndex.Holds(i, h) <==> old(tree.payloadsIndex.Holds(i, h))
      ensures ids == old(ids) + if old(IsDuplicate(Stored(tree.Nodes()), block, tree.finalized, pid)) then {} else {pid}
    {
      hide BlockIndex.Ancestors, BlockIndex.Sound, BlockIndex.Ids, BlockIndex.OtherIds, BlockIndex.PayloadIds;
      hide AltBlockTree.Valid, Ready, IsDuplicate, Duplicate, PayloadsIndex.Holds, Stored;
      var duplicate := IsStatefulDuplicate(pid);
      if duplicate {
        return false;
      }
      InsertNew(k, pid);
      ids := ids + {pid};
      if !block.active {
        return true;
      }
      if !executes {
        RemoveNew(k, pid, old(block.PayloadIds(k)));
        return false;
      }
      return true;
    }

    /** The payload is in a final block or in a block before this one. */
    ghost predicate SeenBefore(id: Id)
      requires block.Sound()
      reads tree`blocks, (tree.Nodes() - {block})`atvIds, (tree.Nodes() - {block})`vtbIds, (tree.Nodes() - {block})`vbkIds
    {
      id in tree.finalized || exists a <- tree.Nodes() - {block} :: a in block.ProperAncestors() && id in a.Ids()
    }

    lemma SeenIsDuplicate(id: Id)
      requires tree.Wired() && block in tree.Nodes() && block != tree.root && block.Sound()
      ensures SeenBefore(id) <==> IsDuplicate(Stored(tree.Nodes()), block, tree.finalized, id)
    {
      hide BlockIndex.Ids;
      NotBehindItself(tree.Nodes(), tree.root, block);
    }

    /** What holds between the calls of `Add`. */
    ghost predicate Adding()
      reads this, tree, tree.payloadsIndex, tree.Nodes(), chain
    {
      && tree.Valid() && Ready() && block.bodyAdded && block.active && block.Sound() && block.Ids() <= ids
      && forall c <- Children(tree.Nodes(), block) :: !c.Connected()
    }

    /** `Add` to an applied block. */
    method AddApplied(k: Kind, pid: Id, executes: bool) returns (ok: bool)
      requires Adding() && pid !in ids
      modifies this`ids, block`atvIds, block`vtbIds, block`vbkIds, tree.payloadsIndex
      ensures Adding()
      ensures ok <==> !old(SeenBefore(pid)) && executes
      ensures block.PayloadIds(k) == old(block.PayloadIds(k)) + if ok then [pid] else []
      ensures forall o: Kind :: o != k ==> block.PayloadIds(o) == old(block.PayloadIds(o))
      ensures ids == old(ids) + if old(SeenBefore(pid)) then {} else {pid}
    {
      hide BlockIndex.Ids, BlockIndex.PayloadIds, BlockIndex.Ancestors, SeenBefore, IsDuplicate;
      SeenIsDuplicate(pid);
      ok := Add(k, pid, executes);
    }
  }
}
