/** A node of a block tree: the link to the previous block, the validity level, the status
    flags and the ids of the payloads stored in the block. */
module BlockIndexes {
  import opened Codec

  type Hash = bytes
  type Id = bytes

  /** The three payload lists of an ALT block. */
  datatype Kind = AtvKind | VtbKind | VbkKind

  const VALID_TREE := 1
  const CONNECTED := 2
  const MAYBE_WITH_OTHER_CHAIN := 3
  const CAN_BE_APPLIED := 4

  /** A list without the first occurrence of an id. */
  function WithoutFirst(s: seq<Id>, x: Id): seq<Id> {
    if s == [] then [] else if s[0] == x then s[1..] else [s[0]] + WithoutFirst(s[1..], x)
  }

  lemma {:induction false} FirstAt(s: seq<Id>, x: Id, it: nat)
    requires it < |s| && s[it] == x && forall n :: 0 <= n < it ==> s[n] != x
    ensures WithoutFirst(s, x) == s[..it] + s[it + 1..]
  {
    if it > 0 {
      FirstAt(s[1..], x, it - 1);
      assert s[1..][..it - 1] == s[1..it] && s[1..][it..] == s[it + 1..];
      assert s[..it] == [s[0]] + s[1..it];
    }
  }

  method EraseFirst(s: seq<Id>, x: Id) returns (r: seq<Id>)
    requires x in s
    ensures r == WithoutFirst(s, x)
  {
    var it := 0;
    while s[it] != x
      invariant 0 <= it < |s| && forall n :: 0 <= n < it ==> s[n] != x
      decreases |s| - it
    {
      assert exists n :: it < n < |s| && s[n] == x;
      it := it + 1;
    }
    FirstAt(s, x, it);
    r := s[..it] + s[it + 1..];
  }

  /** Removing undoes appending. */
  lemma {:induction false} AppendThenRemove(s: seq<Id>, x: Id)
    requires x !in s
    ensures WithoutFirst(s + [x], x) == s
  {
    if s != [] {
      assert (s + [x])[1..] == s[1..] + [x];
      AppendThenRemove(s[1..], x);
    }
  }

  class BlockIndex {
    const pprev: BlockIndex?
    const height: nat
    const hash: Hash
    var pnext: set<BlockIndex>

    // The validity level and the flags that share one status word in the program.
    var level: nat
    var failedBlock: bool
    var failedPop: bool
    var failedChild: bool
    var bodyAdded: bool
    var active: bool

    var atvIds: seq<Id>
    var vtbIds: seq<Id>
    var vbkIds: seq<Id>

    /** A root block, before its validity is raised. */
    constructor Root(hash: Hash, height: nat)
      ensures pprev == null && this.height == height && this.hash == hash
      ensures pnext == {} && level == 0 && !Failed() && !bodyAdded && !active
      ensures forall k: Kind :: PayloadIds(k) == []
    {
      this.pprev, this.height, this.hash := null, height, hash;
      pnext, level := {}, 0;
      failedBlock, failedPop, failedChild, bodyAdded, active := false, false, false, false, false;
      atvIds, vtbIds, vbkIds := [], [], [];
    }

    /** A block behind `prev`; a failed predecessor makes it a failed child. */
    constructor Next(prev: BlockIndex, hash: Hash)
      modifies prev`pnext
      ensures pprev == prev && height == prev.height + 1 && this.hash == hash
      ensures prev.pnext == old(prev.pnext) + {this}
      ensures pnext == {} && level == 0 && !failedBlock && !failedPop && !bodyAdded && !active
      ensures failedChild == prev.Failed()
      ensures forall k: Kind :: PayloadIds(k) == []
    {
      pprev, height, this.hash := prev, prev.height + 1, hash;
      pnext, level := {}, 0;
      failedBlock, failedPop, bodyAdded, active := false, false, false, false;
      failedChild := prev.Failed();
      atvIds, vtbIds, vbkIds := [], [], [];
      new;
      prev.pnext := prev.pnext + {this};
    }

    predicate Failed()
      reads this`failedBlock, this`failedPop, this`failedChild
    {
      failedBlock || failedPop || failedChild
    }

    predicate Connected()
      reads this`level
    {
      level >= CONNECTED
    }

    /** The block may be a tip: it is valid and connected. */
    predicate CanBeATip()
      reads this`level, this`failedBlock, this`failedPop, this`failedChild
    {
      !Failed() && Connected()
    }

    predicate IsValidTip()
      reads this`level, this`failedBlock, this`failedPop, this`failedChild, this`pnext
      reads pnext`level, pnext`failedBlock, pnext`failedPop, pnext`failedChild
    {
      CanBeATip() && forall n <- pnext :: !n.CanBeATip()
    }

    predicate AllDescendantsUnconnected()
      reads this`pnext, pnext`level
    {
      forall n <- pnext :: !n.Connected()
    }

    /** Raises the level unless the block failed because of its payloads or is there already. */
    method RaiseValidity(upTo: nat) returns (raised: bool)
      requires !failedPop && level < upTo ==> pprev == null || pprev.level >= upTo
      modifies this`level
      ensures raised <==> !failedPop && old(level) < upTo
      ensures level == if raised then upTo else old(level)
    {
      if failedPop {
        return false;
      }
      if level < upTo {
        level := upTo;
        return true;
      }
      return false;
    }

    /** Lowers the level unless the block failed because of its payloads or is there already. */
    method LowerValidity(upTo: nat) returns (lowered: bool)
      modifies this`level
      ensures lowered <==> !failedPop && old(level) > upTo
      ensures level == if lowered then upTo else old(level)
    {
      if failedPop {
        return false;
      }
      if level > upTo {
        level := upTo;
        return true;
      }
      return false;
    }

    function PayloadIds(k: Kind): seq<Id>
      reads this`atvIds, this`vtbIds, this`vbkIds
    {
      match k
      case AtvKind => atvIds
      case VtbKind => vtbIds
      case VbkKind => vbkIds
    }

    /** Every id stored in the block, of whatever kind. */
    function Ids(): set<Id>
      reads this`atvIds, this`vtbIds, this`vbkIds
    {
      (set i <- atvIds) + (set i <- vtbIds) + (set i <- vbkIds)
    }

    /** The ids of the kinds other than `k`. */
    ghost function OtherIds(k: Kind): (s: set<Id>)
      reads this`atvIds, this`vtbIds, this`vbkIds
      ensures Ids() == s + set i <- PayloadIds(k)
    {
      match k
      case AtvKind => (set i <- vtbIds) + (set i <- vbkIds)
      case VtbKind => (set i <- atvIds) + (set i <- vbkIds)
      case VbkKind => (set i <- atvIds) + (set i <- vtbIds)
    }

    lemma IdsSplit(k: Kind)
      ensures Ids() == OtherIds(k) + set i <- PayloadIds(k)
    {
    }

    predicate HasPayloads()
      reads this`atvIds, this`vtbIds, this`vbkIds
      ensures HasPayloads() <==> Ids() != {}
    {
      assert atvIds != [] ==> atvIds[0] in Ids();
      assert vtbIds != [] ==> vtbIds[0] in Ids();
      assert vbkIds != [] ==> vbkIds[0] in Ids();
      atvIds != [] || vtbIds != [] || vbkIds != []
    }

    lemma NoIdsAtAll()
      requires forall k: Kind :: PayloadIds(k) == []
      ensures Ids() == {}
    {
      assert PayloadIds(AtvKind) == PayloadIds(VtbKind) == PayloadIds(VbkKind) == [];
    }

    lemma NoIds()
      requires Ids() == {}
      ensures forall k: Kind :: PayloadIds(k) == []
    {
      assert !HasPayloads();
    }

    method SetPayloads(k: Kind, pids: seq<Id>)
      modifies this`atvIds, this`vtbIds, this`vbkIds
      ensures PayloadIds(k) == pids
      ensures forall o: Kind :: o != k ==> PayloadIds(o) == old(PayloadIds(o))
      ensures Ids() == old(OtherIds(k)) + (set i <- pids) && OtherIds(k) == old(OtherIds(k))
    {
      match k
      case AtvKind => atvIds := pids;
      case VtbKind => vtbIds := pids;
      case VbkKind => vbkIds := pids;
    }

    method InsertPayloadIds(k: Kind, pids: seq<Id>)
      modifies this`atvIds, this`vtbIds, this`vbkIds
      ensures PayloadIds(k) == old(PayloadIds(k)) + pids
      ensures forall o: Kind :: o != k ==> PayloadIds(o) == old(PayloadIds(o))
      ensures Ids() == old(Ids()) + (set i <- pids) && OtherIds(k) == old(OtherIds(k))
    {
      SetPayloads(k, PayloadIds(k) + pids);
    }

    /** Removes the first occurrence of an id that must be there. */
    method RemovePayloadId(k: Kind, pid: Id)
      requires pid in PayloadIds(k)
      modifies this`atvIds, this`vtbIds, this`vbkIds
      ensures PayloadIds(k) == WithoutFirst(old(PayloadIds(k)), pid)
      ensures forall o: Kind :: o != k ==> PayloadIds(o) == old(PayloadIds(o))
      ensures Ids() == old(OtherIds(k)) + (set i <- PayloadIds(k)) && OtherIds(k) == old(OtherIds(k))
    {
      var erased := EraseFirst(PayloadIds(k), pid);
      SetPayloads(k, erased);
    }

    method ClearPayloads()
      modifies this`atvIds, this`vtbIds, this`vbkIds
      ensures forall k: Kind :: PayloadIds(k) == []
      ensures Ids() == {}
    {
      atvIds, vtbIds, vbkIds := [], [], [];
    }

    // ---------------------------------------------------------------- ancestors

    /** Heights grow by one from the oldest block in memory up to this one. */
    ghost predicate Sound()
      decreases height
    {
      pprev == null || (height == pprev.height + 1 && pprev.Sound())
    }

    /** The block, the one before it, and so on to the oldest one in memory. */
    ghost function Ancestors(): (s: set<BlockIndex>)
      requires Sound()
      ensures this in s
      decreases height
    {
      if pprev == null then {this} else {this} + pprev.Ancestors()
    }

    ghost function ProperAncestors(): set<BlockIndex>
      requires Sound()
    {
      if pprev == null then {} else pprev.Ancestors()
    }

    method GetPrev() returns (r: BlockIndex?)
      requires Sound()
      ensures r == pprev
    {
      r := pprev;
    }

    /** The ancestor at a height; null exactly when there is none. */
    method GetAncestor(atHeight: nat) returns (r: BlockIndex?)
      requires Sound()
      ensures r != null ==> r in Ancestors() && r.height == atHeight
      ensures r == null ==> forall a <- Ancestors() :: a.height != atHeight
    {
      AncestorHeights(this);
      if atHeight > height {
        return null;
      }
      r := this;
      while r != null && r.height > atHeight
        invariant r != null ==> r.Sound() && r in Ancestors() && r.height >= atHeight
        invariant forall a <- Ancestors() :: a.height <= atHeight ==> r != null && a in r.Ancestors()
        decreases if r == null then 0 else r.height + 1
      {
        AncestorHeights(r);
        AncestorsNest(r, this);
        r := r.GetPrev();
      }
      if r != null {
        AncestorHeights(r);
      }
    }

    method IsDescendantOf(ancestor: BlockIndex) returns (yes: bool)
      requires Sound()
      ensures yes <==> ancestor in Ancestors()
    {
      var a := GetAncestor(ancestor.height);
      if ancestor in Ancestors() && a != null {
        OneAncestorPerHeight(this, a, ancestor);
      }
      yes := a == ancestor;
    }
  }

  /** Ancestors are sound, and no higher than their descendants. */
  lemma {:induction false} AncestorHeights(b: BlockIndex)
    requires b.Sound()
    ensures forall a <- b.Ancestors() :: a.Sound() && (a == b || a.height < b.height)
    decreases b.height
  {
    if b.pprev != null {
      AncestorHeights(b.pprev);
    }
  }

  lemma {:induction false} AncestorsNest(a: BlockIndex, b: BlockIndex)
    requires b.Sound() && a in b.Ancestors()
    ensures a.Sound() && a.Ancestors() <= b.Ancestors()
    decreases b.height
  {
    if a != b {
      AncestorsNest(a, b.pprev);
    }
  }

  lemma PrevIsAncestor(a: BlockIndex, b: BlockIndex)
    requires b.Sound() && a in b.Ancestors() && a.pprev != null
    ensures a.Sound() && a.pprev.Sound() && a.pprev in b.Ancestors() && a.height == a.pprev.height + 1
  {
    AncestorsNest(a, b);
  }

  /** A chain has one block at each height. */
  lemma {:induction false} OneAncestorPerHeight(b: BlockIndex, a: BlockIndex, c: BlockIndex)
    requires b.Sound() && a in b.Ancestors() && c in b.Ancestors() && a.height == c.height
    ensures a == c
    decreases b.height
  {
    AncestorHeights(b);
    if a != b && c != b {
      OneAncestorPerHeight(b.pprev, a, c);
    }
  }

  /** Of two ancestors the higher one descends from the lower one. */
  lemma {:induction false} AncestorsAreAChain(b: BlockIndex, a: BlockIndex, c: BlockIndex)
    requires b.Sound() && a in b.Ancestors() && c in b.Ancestors() && a.height <= c.height
    ensures c.Sound() && a in c.Ancestors()
    decreases b.height
  {
    AncestorHeights(b);
    if c != b && a != b {
      AncestorsAreAChain(b.pprev, a, c);
    }
  }

  /** The highest common ancestor of two blocks; null exactly when they share none. */
  method GetForkBlock(a: BlockIndex, b: BlockIndex) returns (fork: BlockIndex?)
    requires a.Sound() && b.Sound()
    ensures fork == null <==> a.Ancestors() !! b.Ancestors()
    ensures fork != null ==> fork in a.Ancestors() * b.Ancestors() &&
                             forall c <- a.Ancestors() * b.Ancestors() :: c.height <= fork.height
  {
    var initialHeight := if a.height < b.height then a.height else b.height;
    AncestorHeights(a);
    AncestorHeights(b);
    var cursorA := a.GetAncestor(initialHeight);
    var cursorB := b.GetAncestor(initialHeight);
    forall c <- a.Ancestors() * b.Ancestors()
      ensures cursorA != null && cursorB != null && c in cursorA.Ancestors() && c in cursorB.Ancestors()
    {
      ReachesHeight(a, c, initialHeight);
      ReachesHeight(b, c, initialHeight);
      AncestorsAreAChain(a, c, cursorA);
      AncestorsAreAChain(b, c, cursorB);
    }
    while cursorA != null && cursorB != null
      invariant cursorA != null ==> cursorA.Sound() && cursorA in a.Ancestors()
      invariant cursorB != null ==> cursorB.Sound() && cursorB in b.Ancestors()
      invariant cursorA != null && cursorB != null ==> cursorA.height == cursorB.height
      invariant forall c <- a.Ancestors() * b.Ancestors() ::
                  cursorA != null && cursorB != null && c in cursorA.Ancestors() && c in cursorB.Ancestors()
      decreases if cursorA == null then 0 else cursorA.height + 1
    {
      AncestorHeights(cursorA);
      AncestorHeights(cursorB);
      if cursorA == cursorB {
        return cursorA;
      }
      AncestorsNest(cursorA, a);
      AncestorsNest(cursorB, b);
      cursorA, cursorB := cursorA.pprev, cursorB.pprev;
    }
    assert a.Ancestors() * b.Ancestors() == {};
    return null;
  }

  /** Between an ancestor and the block there is a block at every height. */
  lemma {:induction false} ReachesHeight(b: BlockIndex, c: BlockIndex, h: nat)
    requires b.Sound() && c in b.Ancestors() && c.height <= h <= b.height
    ensures exists a <- b.Ancestors() :: a.height == h
    decreases b.height
  {
    AncestorHeights(b);
    if h < b.height {
      ReachesHeight(b.pprev, c, h);
    }
  }

  /** A candidate is outdated exactly when it is neither the final block nor a descendant of
      it; the branch that spares an ancestor of the final block is never reached, because
      every lower candidate has been declared outdated before it. */
  method IsBlockOutdated(finalBlock: BlockIndex, candidate: BlockIndex) returns (outdated: bool)
    requires finalBlock.Sound() && candidate.Sound()
    ensures outdated <==> finalBlock !in candidate.Ancestors()
    decreases candidate.height
  {
    AncestorHeights(candidate);
    AncestorHeights(finalBlock);
    var below := candidate.GetAncestor(finalBlock.height);
    if finalBlock in candidate.Ancestors() && below != null {
      OneAncestorPerHeight(candidate, below, finalBlock);
    }
    if below == finalBlock {
      return false;
    }
    if candidate.height < finalBlock.height {
      return true;
    }
    if candidate.height == finalBlock.height && finalBlock != candidate {
      return true;
    }
    var above := finalBlock.GetAncestor(candidate.height);
    if above == candidate {
      return false;
    }
    var fork := GetForkBlock(finalBlock, candidate);
    if fork == null {
      return true;
    }
    outdated := IsBlockOutdated(finalBlock, fork);
    AncestorsNest(fork, candidate);
  }
}
