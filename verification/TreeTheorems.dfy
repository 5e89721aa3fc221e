/** What follows for every tree that a run can reach: the headers, the bodies and the marks of
    the altchain determine everything else. */
module TreeTheorems {
  import opened BlockIndexes
  import opened TreeShape
  import opened TreeInvariants
  import opened PayloadsIndexes
  import opened AltTree

  /** A block is connected exactly when it and every block before it, up to the root, have
      their bodies. */
  lemma {:induction false} ConnectedIffBodies(t: AltBlockTree, b: BlockIndex)
    requires t.Valid() && b in t.Nodes()
    ensures b.Sound()
    ensures b.Connected() <==> forall a <- b.Ancestors() :: a == t.root || a.bodyAdded
    decreases b.height
  {
    hide PopFollows, AltBlockTree.IndexExact, AllInherit, AppliedSound, AppliedChain, Linked, BodiesFollow, TipsOf, Able;
    ShapeOf(t.Nodes(), t.root, b);
    assert LevelFollows(t.root, b, false);
    if b != t.root {
      ConnectedIffBodies(t, b.pprev);
    }
  }

  /** The index finds exactly the blocks that store a payload. */
  lemma IndexFindsContainingBlocks(t: AltBlockTree, id: Id)
    requires t.Valid()
    ensures t.payloadsIndex.Find(id) == set b <- t.Nodes() | id in b.Ids() :: b.hash
  {
    hide PopFollows, LevelsFollow, AllInherit, AppliedSound, AppliedChain, Linked, Shape, BodiesFollow, TipsOf, Able;
    forall h: Hash
      ensures h in t.payloadsIndex.Find(id) <==> exists b <- t.Nodes() :: id in b.Ids() && b.hash == h
    {
      assert t.payloadsIndex.Holds(id, h) <==> h in t.blocks && id in t.blocks[h].Ids();
    }
  }

  /** A connected block that did not fail by its payloads shares none with a block before it
      or with a final block. */
  lemma NoSharedPayloads(t: AltBlockTree, b: BlockIndex, a: BlockIndex)
    requires t.Valid() && b in t.Nodes() && b.Connected() && !b.failedPop && b.Sound()
    requires a in b.ProperAncestors()
    ensures a in t.Nodes() && a.Ids() !! b.Ids() && (b != t.root ==> b.Ids() !! t.finalized)
  {
    hide AltBlockTree.IndexExact, LevelsFollow, AllInherit, AppliedSound, AppliedChain, Linked, BodiesFollow, TipsOf, Able;
    AncestorsInside(t.Nodes(), t.root, b);
    assert b != t.root;
    assert PopFollowsAt(t.Nodes(), b, t.finalized, b in t.rejected);
    forall i | i in b.Ids()
      ensures i !in a.Ids() && i !in t.finalized
    {
      assert !IsDuplicate(Stored(t.Nodes()), b, t.finalized, i);
      assert a in Stored(t.Nodes());
    }
  }

  /** Along a valid connected chain no payload occurs in two blocks. */
  lemma PayloadsDistinctAlongChain(t: AltBlockTree, tip: BlockIndex, a: BlockIndex, b: BlockIndex)
    requires t.Valid() && tip in t.Nodes() && tip.Sound() && tip.CanBeATip()
    requires a in tip.Ancestors() && b in tip.Ancestors() && a != b
    ensures a.Ids() !! b.Ids()
  {
    hide AltBlockTree.IndexExact, PopFollows, BodiesFollow, TipsOf, Able;
    ValidUpwards(t.Nodes(), t.root, tip, a);
    ValidUpwards(t.Nodes(), t.root, tip, b);
    ConnectedUpwards(t.Nodes(), t.root, {}, tip, a);
    ConnectedUpwards(t.Nodes(), t.root, {}, tip, b);
    var low, high := if a.height <= b.height then a else b, if a.height <= b.height then b else a;
    AncestorsAreAChain(tip, low, high);
    NoSharedPayloads(t, high, low);
  }

  // ---------------------------------------------------------------- what fixes a tree

  /** What the flags of a tree depend on: the blocks marked as failed, those that are
      connected, the payload ids that blocks store or that are final, and the blocks whose
      commands were refused. */
  datatype Record = Record(root: BlockIndex, marked: set<BlockIndex>, connected: set<BlockIndex>,
                           stored: map<BlockIndex, set<Id>>, finalized: set<Id>, rejected: set<BlockIndex>)
  {
    ghost predicate PopFails(x: BlockIndex)
      requires x in stored && x.Sound()
    {
      x != root && x in connected && (Duplicate(stored, x, finalized) || x in rejected)
    }

    /** The block, or one before it, failed of its own. */
    ghost predicate Fails(x: BlockIndex)
      requires x.Sound()
    {
      exists a <- x.Ancestors() :: a in stored && a.Sound() && (a in marked || PopFails(a))
    }
  }

  ghost function RecordOf(t: AltBlockTree): Record
    reads t, t.Nodes()
  {
    Record(t.root, (set x <- t.Nodes() | x.failedBlock), (set x <- t.Nodes() | x.Connected()), Stored(t.Nodes()),
           t.finalized, t.rejected)
  }

  lemma PopFailuresAreFixed(t: AltBlockTree, x: BlockIndex)
    requires t.Valid() && x in t.Nodes()
    ensures x.Sound() && (x.failedPop <==> RecordOf(t).PopFails(x))
  {
    hide AltBlockTree.IndexExact, AllInherit, AppliedSound, AppliedChain, Linked, BodiesFollow, TipsOf, Able;
    hide Duplicate, BlockIndex.Ids;
    ShapeOf(t.Nodes(), t.root, x);
    assert LevelFollows(t.root, x, false);
    assert x != t.root ==> PopFollowsAt(t.Nodes(), x, t.finalized, x in t.rejected);
  }

  lemma FailuresAreFixed(t: AltBlockTree, x: BlockIndex)
    requires t.Valid() && x in t.Nodes()
    ensures x.Sound() && (x.Failed() <==> RecordOf(t).Fails(x))
  {
    hide AltBlockTree.IndexExact, AppliedSound, AppliedChain, Linked, BodiesFollow, TipsOf, Able, PopFollows;
    hide LevelsFollow, Record.PopFails, BlockIndex.Failed, BlockIndex.Ids;
    ShapeOf(t.Nodes(), t.root, x);
    AncestorsInside(t.Nodes(), t.root, x);
    t.FailureHasASource(x);
    forall a <- x.Ancestors()
      ensures a in t.Nodes() && a.Sound() && (a.failedPop <==> RecordOf(t).PopFails(a))
    {
      PopFailuresAreFixed(t, a);
    }
  }

  /** The flags and forward links of a block follow from the record of the tree. */
  lemma RecordFixesBlock(t: AltBlockTree, x: BlockIndex)
    requires t.Valid() && x in t.Nodes()
    ensures x.Sound() && t.activeTip.Sound()
    ensures x.pnext == Children(t.Nodes(), x) && (x.active <==> x in t.activeTip.Ancestors())
    ensures x.failedPop <==> RecordOf(t).PopFails(x)
    ensures x.failedChild <==> x.pprev != null && x.pprev.Sound() && RecordOf(t).Fails(x.pprev)
  {
    hide AltBlockTree.IndexExact, AppliedSound, BodiesFollow, TipsOf, Able, PopFollows;
    hide LevelsFollow, Record.PopFails, Record.Fails, BlockIndex.Failed, BlockIndex.Ids, BlockIndex.Ancestors, RecordOf;
    ShapeOf(t.Nodes(), t.root, x);
    ShapeOf(t.Nodes(), t.root, t.activeTip);
    PopFailuresAreFixed(t, x);
    assert Inherits(x);
    if x != t.root {
      FailuresAreFixed(t, x.pprev);
    }
  }

  /** Forward links, flags, tips, counters and the index all follow from the headers, the
      record and the active tip: two states of a tree in which those agree differ at most in
      how far the connected blocks are known to be valid. */
  lemma RecordFixesTree(t: AltBlockTree)
    requires t.Valid()
    ensures t.activeTip.Sound() && forall x <- t.Nodes() :: x.Sound()
    ensures forall x <- t.Nodes() :: x.pnext == Children(t.Nodes(), x) && (x.active <==> x in t.activeTip.Ancestors())
    ensures forall x <- t.Nodes() :: x.failedPop <==> RecordOf(t).PopFails(x)
    ensures forall x <- t.Nodes() ::
              x.failedChild <==> x.pprev != null && x.pprev.Sound() && RecordOf(t).Fails(x.pprev)
    ensures t.tips == TipsOf(Able(t.Nodes())) && t.appliedBlockCount == t.activeTip.height - t.root.height + 1
    ensures forall i: Id, h: Hash :: t.payloadsIndex.Holds(i, h) <==> h in t.blocks && i in t.blocks[h].Ids()
  {
    hide AppliedSound, AppliedChain, BodiesFollow, TipsOf, Able, PopFollows, Shape, Linked, AllInherit;
    hide LevelsFollow, Record.PopFails, Record.Fails, BlockIndex.Ids, BlockIndex.Ancestors, PayloadsIndex.Valid;
    ShapeOf(t.Nodes(), t.root, t.activeTip);
    forall x <- t.Nodes()
      ensures x.Sound() && x.pnext == Children(t.Nodes(), x) && (x.active <==> x in t.activeTip.Ancestors())
      ensures x.failedPop <==> RecordOf(t).PopFails(x)
      ensures x.failedChild <==> x.pprev != null && x.pprev.Sound() && RecordOf(t).Fails(x.pprev)
    {
      RecordFixesBlock(t, x);
    }
  }

  // ---------------------------------------------------------------- arrival order

  /** Two trees hold the same headers, bodies and marks of the altchain. */
  ghost predicate SameInput(t: AltBlockTree, u: AltBlockTree)
    reads t, u, t.Nodes(), u.Nodes()
  {
    && t.blocks.Keys == u.blocks.Keys && t.root.hash == u.root.hash && t.finalized == u.finalized
    && forall h <- t.blocks :: SameBlock(t.blocks[h], u.blocks[h])
  }

  ghost predicate SameBlock(b: BlockIndex, c: BlockIndex)
    reads b, c
  {
    && (b.pprev == null <==> c.pprev == null) && (b.pprev != null ==> b.pprev.hash == c.pprev.hash)
    && b.bodyAdded == c.bodyAdded && b.failedBlock == c.failedBlock && b.Ids() == c.Ids()
  }

  ghost function Hashes(s: set<BlockIndex>): set<Hash> {
    set b <- s :: b.hash
  }

  /** The twin of a block: its predecessor is the twin of the predecessor. */
  lemma Twins(t: AltBlockTree, u: AltBlockTree, h: Hash)
    requires t.Valid() && u.Valid() && SameInput(t, u) && h in t.blocks
    ensures h in u.blocks && SameBlock(t.blocks[h], u.blocks[h])
    ensures t.blocks[h].Sound() && u.blocks[h].Sound() && t.blocks[h] in t.Nodes() && u.blocks[h] in u.Nodes()
    ensures t.blocks[h] == t.root <==> u.blocks[h] == u.root
    ensures t.blocks[h].hash == h && u.blocks[h].hash == h && t.root.pprev == null && u.root.pprev == null
    ensures t.blocks[h] != t.root ==>
              (var p := t.blocks[h].pprev.hash;
               p in t.blocks && t.blocks[p] == t.blocks[h].pprev && p in u.blocks && u.blocks[p] == u.blocks[h].pprev)
  {
    hide PopFollows, LevelsFollow, AllInherit, AppliedSound, AppliedChain, Linked, BodiesFollow, TipsOf, Able;
    hide PayloadsIndex.Valid, PayloadsIndex.Holds;
    ShapeOf(t.Nodes(), t.root, t.blocks[h]);
    ShapeOf(u.Nodes(), u.root, u.blocks[h]);
  }

  lemma {:induction false} SameLevels(t: AltBlockTree, u: AltBlockTree, h: Hash)
    requires t.Valid() && u.Valid() && SameInput(t, u) && h in t.blocks
    ensures h in u.blocks && t.blocks[h].Sound() && u.blocks[h].Sound()
    ensures t.blocks[h].Connected() <==> u.blocks[h].Connected()
    ensures Hashes(t.blocks[h].Ancestors()) == Hashes(u.blocks[h].Ancestors())
    decreases t.blocks[h].height
  {
    hide PopFollows, AltBlockTree.IndexExact, AllInherit, AppliedSound, AppliedChain, Linked, BodiesFollow, TipsOf, Able, SameInput;
    Twins(t, u, h);
    var b, c := t.blocks[h], u.blocks[h];
    assert LevelFollows(t.root, b, false) && LevelFollows(u.root, c, false);
    if b != t.root {
      SameLevels(t, u, b.pprev.hash);
      assert b.Ancestors() == {b} + b.pprev.Ancestors() && c.Ancestors() == {c} + c.pprev.Ancestors();
      assert Hashes({b} + b.pprev.Ancestors()) == {h} + Hashes(b.pprev.Ancestors());
      assert Hashes({c} + c.pprev.Ancestors()) == {h} + Hashes(c.pprev.Ancestors());
    }
  }

  lemma Twin(t: AltBlockTree, b: BlockIndex)
    requires t.Valid() && b in t.Nodes()
    ensures b.hash in t.blocks && t.blocks[b.hash] == b
  {
    hide PopFollows, LevelsFollow, AllInherit, AppliedSound, AppliedChain, Linked, BodiesFollow, TipsOf, Able, Shape;
  }

  lemma Symmetric(t: AltBlockTree, u: AltBlockTree)
    requires SameInput(t, u)
    ensures SameInput(u, t)
  {
    assert forall h <- u.blocks :: h in t.blocks && SameBlock(t.blocks[h], u.blocks[h]);
  }

  /** What is a duplicate in one tree is one in the other. */
  lemma DuplicateCarries(t: AltBlockTree, u: AltBlockTree, h: Hash)
    requires t.Valid() && u.Valid() && SameInput(t, u) && h in t.blocks && t.blocks[h] != t.root
    requires t.blocks[h].Sound() && Duplicate(Stored(t.Nodes()), t.blocks[h], t.finalized)
    ensures h in u.blocks && u.blocks[h].Sound() && Duplicate(Stored(u.Nodes()), u.blocks[h], u.finalized)
  {
    hide PopFollows, LevelsFollow, AltBlockTree.IndexExact, AllInherit, AppliedSound, AppliedChain, Linked;
    hide BodiesFollow, TipsOf, Able, BlockIndex.Ids, BlockIndex.Sound, BlockIndex.Ancestors;
    Twins(t, u, h);
    var b, c := t.blocks[h], u.blocks[h];
    var before, after := Stored(t.Nodes()), Stored(u.Nodes());
    var i :| i in before[b] && IsDuplicate(before, b, t.finalized, i);
    assert i in after[c];
    if i !in t.finalized {
      var a :| a in before && a in b.ProperAncestors() && i in before[a];
      SameLevels(t, u, b.pprev.hash);
      assert a.hash in Hashes(b.pprev.Ancestors());
      var d :| d in c.pprev.Ancestors() && d.hash == a.hash;
      AncestorsInside(u.Nodes(), u.root, c.pprev);
      Twin(t, a);
      Twin(u, d);
      Twins(t, u, a.hash);
      assert d in after && i in after[d];
    }
    assert IsDuplicate(after, c, u.finalized, i);
  }

  /** The same blocks had commands that were tried and refused. */
  ghost predicate SameRejections(t: AltBlockTree, u: AltBlockTree)
    reads t, u
  {
    forall h <- t.blocks | h in u.blocks :: t.blocks[h] in t.rejected <==> u.blocks[h] in u.rejected
  }

  lemma SameVerdict(t: AltBlockTree, u: AltBlockTree, h: Hash)
    requires t.Valid() && u.Valid() && SameInput(t, u) && SameRejections(t, u) && h in t.blocks
    ensures h in u.blocks && t.blocks[h].failedPop == u.blocks[h].failedPop
  {
    hide AltBlockTree.IndexExact, AllInherit, Linked, BodiesFollow, TipsOf, Able, BlockIndex.Ids, Duplicate;
    hide BlockIndex.Ancestors, SameInput;
    Twins(t, u, h);
    SameLevels(t, u, h);
    var b, c := t.blocks[h], u.blocks[h];
    assert LevelFollows(t.root, b, false) && LevelFollows(u.root, c, false);
    if b != t.root && b.Connected() {
      assert PopFollowsAt(t.Nodes(), b, t.finalized, b in t.rejected);
      assert PopFollowsAt(u.Nodes(), c, u.finalized, c in u.rejected);
      if b.failedPop && b !in t.rejected {
        DuplicateCarries(t, u, h);
      }
      if c.failedPop && c !in u.rejected {
        Symmetric(t, u);
        DuplicateCarries(u, t, h);
      }
    }
  }

  lemma {:induction false} SameFailure(t: AltBlockTree, u: AltBlockTree, h: Hash)
    requires t.Valid() && u.Valid() && SameInput(t, u) && SameRejections(t, u) && h in t.blocks
    ensures h in u.blocks && t.blocks[h].failedChild == u.blocks[h].failedChild
    ensures t.blocks[h].Failed() == u.blocks[h].Failed()
    decreases t.blocks[h].height
  {
    hide AltBlockTree.IndexExact, PopFollows, LevelsFollow, Linked, BodiesFollow, TipsOf, Able, BlockIndex.Ids;
    hide BlockIndex.Ancestors, SameInput;
    Twins(t, u, h);
    SameVerdict(t, u, h);
    var b, c := t.blocks[h], u.blocks[h];
    assert Inherits(b) && Inherits(c);
    if b != t.root {
      SameFailure(t, u, b.pprev.hash);
    }
  }

  /** A block that may be a tip has a twin that may be one, behind the twin of its predecessor. */
  lemma AbleTwinBehind(t: AltBlockTree, u: AltBlockTree, h: Hash, d: BlockIndex)
    requires t.Valid() && u.Valid() && SameInput(t, u) && SameRejections(t, u)
    requires h in t.blocks && h in u.blocks && d in Able(u.Nodes()) && d.pprev == u.blocks[h]
    ensures exists e <- Able(t.Nodes()) :: e.pprev == t.blocks[h]
  {
    hide AltBlockTree.IndexExact, PopFollows, LevelsFollow, Linked, BodiesFollow, BlockIndex.Ids, BlockIndex.Ancestors;
    hide SameInput, AllInherit, Shape, BlockIndex.Failed, TipsOf;
    Symmetric(t, u);
    Twin(u, d);
    Twins(u, t, d.hash);
    Twins(t, u, d.hash);
    SameLevels(t, u, d.hash);
    SameFailure(t, u, d.hash);
    Twins(t, u, h);
    var e := t.blocks[d.hash];
    assert e.pprev.hash == h;
    assert e in Able(t.Nodes()) && e.pprev == t.blocks[h];
  }

  lemma TipCarries(t: AltBlockTree, u: AltBlockTree, h: Hash)
    requires t.Valid() && u.Valid() && SameInput(t, u) && SameRejections(t, u)
    requires h in t.blocks && t.blocks[h] in t.tips
    ensures h in u.blocks && u.blocks[h] in u.tips
  {
    hide AltBlockTree.IndexExact, PopFollows, LevelsFollow, Linked, BodiesFollow, BlockIndex.Ids, BlockIndex.Ancestors;
    hide SameInput, AllInherit, Shape, BlockIndex.Failed;
    Twins(t, u, h);
    SameLevels(t, u, h);
    SameFailure(t, u, h);
    var c := u.blocks[h];
    forall d <- Able(u.Nodes())
      ensures d.pprev != c
    {
      if d.pprev == c {
        AbleTwinBehind(t, u, h, d);
      }
    }
  }

  /** The order in which headers, bodies, removals and marks arrived leaves no trace: two runs
      that ended with the same headers, bodies and marks agree on which blocks are connected
      and which failed for which reason, on the tips, and on the index, provided the same
      blocks had commands that were tried and refused: the only memory a tree has beyond that. */
  lemma ArrivalOrderDoesNotMatter(t: AltBlockTree, u: AltBlockTree)
    requires t.Valid() && u.Valid() && SameInput(t, u) && SameRejections(t, u)
    ensures forall h <- t.blocks :: h in u.blocks
              && t.blocks[h].Connected() == u.blocks[h].Connected()
              && t.blocks[h].failedPop == u.blocks[h].failedPop
              && t.blocks[h].failedChild == u.blocks[h].failedChild
              && (t.blocks[h] in t.tips <==> u.blocks[h] in u.tips)
    ensures forall i: Id, h: Hash :: t.payloadsIndex.Holds(i, h) <==> u.payloadsIndex.Holds(i, h)
  {
    hide PopFollows, LevelsFollow, Linked, BodiesFollow, BlockIndex.Ids, BlockIndex.Ancestors, AllInherit, Shape;
    hide BlockIndex.Failed, TipsOf, Able;
    Symmetric(t, u);
    forall h <- t.blocks
      ensures h in u.blocks
      ensures t.blocks[h].Connected() == u.blocks[h].Connected()
      ensures t.blocks[h].failedPop == u.blocks[h].failedPop
      ensures t.blocks[h].failedChild == u.blocks[h].failedChild
      ensures t.blocks[h] in t.tips <==> u.blocks[h] in u.tips
    {
      SameLevels(t, u, h);
      SameVerdict(t, u, h);
      SameFailure(t, u, h);
      if t.blocks[h] in t.tips {
        TipCarries(t, u, h);
      }
      if u.blocks[h] in u.tips {
        TipCarries(u, t, h);
      }
    }
    forall h <- t.blocks
      ensures t.blocks[h].Ids() == u.blocks[h].Ids()
    {
      assert SameBlock(t.blocks[h], u.blocks[h]);
    }
  }
}
