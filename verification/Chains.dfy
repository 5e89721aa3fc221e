/** A chain held in memory: one slot a height from a start height up to the tip. */
module Chains {
  import opened BlockIndexes

  /** The ancestor at a height, or null. */
  ghost function At(b: BlockIndex, h: int): (r: BlockIndex?)
    requires b.Sound()
    ensures r != null ==> r in b.Ancestors() && r.height == h
    decreases b.height
  {
    if b.height == h then b else if b.pprev == null then null else At(b.pprev, h)
  }

  lemma {:induction false} AtIsTheAncestor(b: BlockIndex, a: BlockIndex)
    requires b.Sound() && a in b.Ancestors()
    ensures At(b, a.height) == a
    decreases b.height
  {
    AncestorHeights(b);
    if a != b {
      AtIsTheAncestor(b.pprev, a);
    }
  }

  lemma AtOfAncestor(b: BlockIndex, a: BlockIndex, h: int)
    requires b.Sound() && a in b.Ancestors() && h <= a.height
    ensures a.Sound() && At(a, h) == At(b, h)
  {
    AncestorsNest(a, b);
    var x, y := At(b, h), At(a, h);
    if x != null {
      AncestorsAreAChain(b, x, a);
      AtIsTheAncestor(a, x);
    } else if y != null {
      AtIsTheAncestor(b, y);
    }
  }

  /** Above an ancestor the path goes on with a block right behind it. */
  lemma {:induction false} NextOnPath(b: BlockIndex, a: BlockIndex)
    requires b.Sound() && a in b.Ancestors() && a != b
    ensures var n := At(b, a.height + 1);
            n != null && n.Sound() && n.pprev == a && n.Ancestors() == a.Ancestors() + {n} && a.height < b.height
    decreases b.height
  {
    AncestorHeights(b);
    if b.pprev == a {
      assert At(b, b.height) == b;
    } else {
      NextOnPath(b.pprev, a);
    }
  }

  /** The oldest block in memory behind a block. */
  ghost function RootOf(b: BlockIndex): (r: BlockIndex)
    requires b.Sound()
    ensures r.pprev == null && r in b.Ancestors()
    decreases b.height
  {
    if b.pprev == null then b else RootOf(b.pprev)
  }

  lemma {:induction false} RootIsLowest(b: BlockIndex, a: BlockIndex)
    requires b.Sound() && a in b.Ancestors()
    ensures a.Sound() && RootOf(a) == RootOf(b) && RootOf(b).height <= a.height
    ensures a.pprev == null ==> a == RootOf(b)
    decreases b.height
  {
    AncestorHeights(b);
    if a != b {
      RootIsLowest(b.pprev, a);
    } else {
      AncestorHeights(b);
    }
  }

  class Chain {
    const startHeight: nat
    var blocks: seq<BlockIndex?>
    ghost var top: BlockIndex?

    /** The slots hold the ancestors of the tip, and null where it has none. */
    ghost predicate Valid()
      reads this
    {
      if blocks == [] then top == null else
        && top != null && top.Sound() && top.height == startHeight + |blocks| - 1
        && forall i :: 0 <= i < |blocks| ==> blocks[i] == At(top, startHeight + i)
    }

    constructor (startHeight: nat, tip: BlockIndex?)
      requires tip != null ==> tip.Sound()
      ensures Valid() && this.startHeight == startHeight
      ensures top == if tip == null || tip.height < startHeight then null else tip
    {
      this.startHeight, blocks, top := startHeight, [], null;
      new;
      SetTip(tip);
    }

    /** The block at a height of the chain, or null. */
    function Get(height: int): BlockIndex?
      reads this
    {
      if height < startHeight then null
      else if height - startHeight >= |blocks| then null
      else blocks[height - startHeight]
    }

    predicate Contains(index: BlockIndex?)
      reads this
    {
      index != null && Get(index.height) == index
    }

    function Tip(): BlockIndex?
      reads this
    {
      if blocks == [] then null else blocks[|blocks| - 1]
    }

    /** A valid chain contains exactly the ancestors of its tip from the start height on. */
    lemma ContainsAncestors(index: BlockIndex)
      requires Valid()
      ensures Contains(index) <==> top != null && index in top.Ancestors() && index.height >= startHeight
      ensures Tip() == top
    {
      if blocks != [] {
        AtIsTheAncestor(top, top);
        AncestorHeights(top);
        if index in top.Ancestors() {
          AtIsTheAncestor(top, index);
        }
      }
    }

    /** Moves the tip. The slots shared with the old chain are kept and only those above the
        fork are written; the new tip must belong to the tree of the old one. */
    method SetTip(tip: BlockIndex?)
      requires Valid()
      requires tip != null ==> tip.Sound()
      requires tip != null && top != null ==> RootOf(tip) == RootOf(top)
      modifies this
      ensures Valid()
      ensures top == if tip == null || tip.height < startHeight then null else tip
    {
      hide At, RootOf, BlockIndex.Ancestors, BlockIndex.Sound;
      if tip == null || tip.height < startHeight {
        blocks, top := [], null;
        return;
      }
      AncestorHeights(tip);
      ghost var was := top;
      ghost var size := |blocks|;
      var innerHeight := tip.height - startHeight;
      blocks := if innerHeight < |blocks| then blocks[..innerHeight + 1]
      else blocks + seq(innerHeight + 1 - |blocks|, _ => null);
      top := tip;
      var index: BlockIndex? := tip;
      ghost var low: int := innerHeight + 1;
      while index != null && !Contains(index) && index.height >= startHeight
        invariant top == tip && |blocks| == innerHeight + 1 && low <= |blocks|
        invariant index != null ==> index.Sound() && index in tip.Ancestors()
        invariant low == if index == null then RootOf(tip).height - startHeight else index.height - startHeight + 1
        invariant forall i :: 0 <= i < |blocks| && low <= i ==> blocks[i] == At(tip, startHeight + i)
        invariant forall i :: 0 <= i < |blocks| && i < low ==>
                    blocks[i] == if was != null && i < size then At(was, startHeight + i) else null
        decreases if index == null then 0 else index.height + 1
      {
        AncestorHeights(index);
        AtIsTheAncestor(tip, index);
        RootIsLowest(tip, index);
        if index.pprev != null {
          PrevIsAncestor(index, tip);
        }
        assert low - 1 == index.height - startHeight;
        blocks := blocks[index.height - startHeight := index];
        index, low := index.pprev, low - 1;
      }
      if index != null && index.height >= startHeight {
        assert was != null && blocks[index.height - startHeight] == At(was, index.height);
      }
      forall i | 0 <= i < |blocks| && i < low
        ensures blocks[i] == At(tip, startHeight + i)
      {
        KeptSlot(tip, was, index, startHeight + i);
      }
    }
  }

  /** A slot that `SetTip` keeps is right: both chains run through the block where its loop
      stopped, or neither reaches down to the slot. */
  lemma KeptSlot(tip: BlockIndex, was: BlockIndex?, index: BlockIndex?, h: int)
    requires tip.Sound() && h <= tip.height
    requires was != null ==> was.Sound() && RootOf(was) == RootOf(tip)
    requires if index == null then h < RootOf(tip).height
             else index in tip.Ancestors() && was != null && index in was.Ancestors() && h <= index.height
    ensures index != null ==> At(tip, h) == At(was, h)
    ensures index == null ==> At(tip, h) == null && (was != null ==> At(was, h) == null)
  {
    if index == null {
      if At(tip, h) != null {
        RootIsLowest(tip, At(tip, h));
      }
      if was != null && At(was, h) != null {
        RootIsLowest(was, At(was, h));
      }
    } else {
      AtOfAncestor(tip, index, h);
      AtOfAncestor(was, index, h);
    }
  }
}
