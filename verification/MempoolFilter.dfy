/** Building a block body from the mempool: candidates are added one by one to a temporary
    block on top of the active chain, and what cannot be added is dropped. */
module MempoolFilter {
  import opened BlockIndexes
  import opened TreeShape
  import opened TreeInvariants
  import opened PayloadsIndexes
  import opened AltTree
  import opened CountingContexts
  import opened TreeTheorems
  import Serde

  /** A payload as far as filtering is concerned: its id and the size of its encoding. */
  datatype Payload = Payload(id: Id, size: nat)

  datatype Candidates = Candidates(context: seq<Payload>, vtbs: seq<Payload>, atvs: seq<Payload>)

  function IdsOf(ps: seq<Payload>): (ids: seq<Id>)
    ensures |ids| == |ps| && forall i :: 0 <= i < |ps| ==> ids[i] == ps[i].id
  {
    seq(|ps|, i requires 0 <= i < |ps| => ps[i].id)
  }

  function SizeOf(ps: seq<Payload>): nat {
    if ps == [] then 0 else SizeOf(ps[..|ps| - 1]) + ps[|ps| - 1].size
  }

  /** The size of the encoding of a body with these payloads. */
  function EstimateOf(c: Candidates): nat {
    4 + Serde.SingleBESize(|c.context|) + SizeOf(c.context) + Serde.SingleBESize(|c.vtbs|) + SizeOf(c.vtbs)
    + Serde.SingleBESize(|c.atvs|) + SizeOf(c.atvs)
  }

  /** `kept` is what is left of `all` at the positions `at`. */
  ghost predicate Picked(all: seq<Payload>, at: seq<nat>, kept: seq<Payload>) {
    && |at| == |kept|
    && (forall j :: 0 <= j < |at| ==> at[j] < |all| && kept[j] == all[at[j]])
    && forall i, j :: 0 <= i < j < |at| ==> at[i] < at[j]
  }

  /** Whether the commands of a payload succeed after the payloads kept so far. */
  type Oracle = (seq<Payload>, Payload) -> bool

  /** Just the first `j` of the positions are before `i`. */
  ghost predicate Passed(at: seq<nat>, j: nat, i: nat) {
    && j <= |at| && (forall n :: 0 <= n < j ==> at[n] < i) && forall n :: j <= n < |at| ==> i < at[n]
  }

  /** The commands of candidate `i` fail after what was kept of the candidates before it. */
  ghost predicate FailsAt(executes: Oracle, all: seq<Payload>, i: nat, at: seq<nat>, kept: seq<Payload>)
    requires i < |all|
  {
    exists j: nat :: j <= |kept| && Passed(at, j, i) && !executes(kept[..j], all[i])
  }

  /** The commands of each payload succeed after those before it. */
  ghost predicate AllExecute(executes: Oracle, kept: seq<Payload>) {
    forall j :: 0 <= j < |kept| ==> executes(kept[..j], kept[j])
  }

  lemma OneMoreExecutes(executes: Oracle, kept: seq<Payload>, p: Payload)
    requires AllExecute(executes, kept) && executes(kept, p)
    ensures AllExecute(executes, kept + [p])
  {
    var more := kept + [p];
    forall j | 0 <= j < |more|
      ensures executes(more[..j], more[j])
    {
      if j < |kept| {
        assert more[..j] == kept[..j];
      } else {
        assert more[..j] == kept;
      }
    }
  }

  lemma FailsNow(executes: Oracle, all: seq<Payload>, i: nat, at: seq<nat>, kept: seq<Payload>)
    requires i < |all| && |at| == |kept| && (forall n :: 0 <= n < |at| ==> at[n] < i) && !executes(kept, all[i])
    ensures FailsAt(executes, all, i, at, kept)
  {
    assert kept[..|kept|] == kept && Passed(at, |kept|, i);
  }

  lemma FailsStill(executes: Oracle, all: seq<Payload>, i: nat, at: seq<nat>, kept: seq<Payload>, n: nat, p: Payload)
    requires i < |all| && |at| == |kept| && FailsAt(executes, all, i, at, kept) && i < n
    ensures FailsAt(executes, all, i, at + [n], kept + [p])
  {
    var j: nat :| j <= |kept| && Passed(at, j, i) && !executes(kept[..j], all[i]);
    assert (kept + [p])[..j] == kept[..j] && Passed(at + [n], j, i);
  }

  /** Why a candidate was dropped: it is in a block before, its commands fail, an earlier
      candidate had its id, or there is no room for it. */
  ghost predicate Refused(m: BlockPayloadMutator, k: Kind, executes: Oracle, seen: set<Id>,
                          all: seq<Payload>, i: nat, limits: Limits, tally: Tally, at: seq<nat>, kept: seq<Payload>)
    requires i < |all| && m.block.Sound()
    reads m.tree`blocks, (m.tree.Nodes() - {m.block})`atvIds, (m.tree.Nodes() - {m.block})`vtbIds
    reads (m.tree.Nodes() - {m.block})`vbkIds
  {
    || m.SeenBefore(all[i].id) || FailsAt(executes, all, i, at, kept) || all[i].id in seen
    || (exists j :: 0 <= j < i && all[j].id == all[i].id)
    || !tally.CanFit(limits, k, all[i].size)
  }

  lemma NoRoomLater(t: Tally, limits: Limits, k: Kind, size: nat, k': Kind, size': nat)
    requires !t.CanFit(limits, k, size)
    ensures !t.Add(k', size').CanFit(limits, k, size)
  {
    hide Tally.Estimate;
    EstimateGrows(t, k', size');
  }

  /** What the loop over the candidates of one kind keeps; `ids` are the ids tried so far. */
  ghost predicate Filtered(m: BlockPayloadMutator, k: Kind, executes: Oracle, seen: set<Id>,
                           ids: set<Id>, all: seq<Payload>, n: nat, limits: Limits, tally: Tally,
                           at: seq<nat>, kept: seq<Payload>)
    requires n <= |all| && m.block.Sound()
    reads m.tree`blocks, (m.tree.Nodes() - {m.block})`atvIds, (m.tree.Nodes() - {m.block})`vtbIds
    reads (m.tree.Nodes() - {m.block})`vbkIds
  {
    && Picked(all, at, kept) && (forall j :: 0 <= j < |at| ==> at[j] < n)
    && seen <= ids && (forall i <- ids :: i in seen || exists j :: 0 <= j < n && all[j].id == i)
    && (forall j :: 0 <= j < |kept| ==>
          kept[j].id in ids && kept[j].id !in seen && !m.SeenBefore(kept[j].id))
    && AllExecute(executes, kept)
    && (forall i, j :: 0 <= i < j < |kept| ==> kept[i].id != kept[j].id)
    && (forall i: nat :: i < n && i !in at ==> Refused(m, k, executes, seen, all, i, limits, tally, at, kept))
  }

  lemma NothingYet(m: BlockPayloadMutator, k: Kind, executes: Oracle, ids: set<Id>,
                   all: seq<Payload>, limits: Limits, tally: Tally)
    requires m.Adding()
    ensures m.block.Sound() && Filtered(m, k, executes, ids, ids, all, 0, limits, tally, [], [])
  {
  }

  lemma DropOne(m: BlockPayloadMutator, k: Kind, executes: Oracle, seen: set<Id>, ids: set<Id>,
                ids': set<Id>, all: seq<Payload>, n: nat, limits: Limits, tally: Tally, at: seq<nat>, kept: seq<Payload>)
    requires n < |all| && m.block.Sound() && Filtered(m, k, executes, seen, ids, all, n, limits, tally, at, kept)
    requires ids' == ids || ids' == ids + {all[n].id}
    requires m.SeenBefore(all[n].id) || !executes(kept, all[n]) || all[n].id in ids || !tally.CanFit(limits, k, all[n].size)
    ensures Filtered(m, k, executes, seen, ids', all, n + 1, limits, tally, at, kept)
  {
    hide BlockPayloadMutator.SeenBefore, BlockIndex.Sound, Tally.CanFit;
    if !executes(kept, all[n]) {
      FailsNow(executes, all, n, at, kept);
    }
    assert Refused(m, k, executes, seen, all, n, limits, tally, at, kept);
  }

  lemma KeepOne(m: BlockPayloadMutator, k: Kind, executes: Oracle, seen: set<Id>, ids: set<Id>,
                all: seq<Payload>, n: nat, limits: Limits, tally: Tally, at: seq<nat>, kept: seq<Payload>)
    requires n < |all| && m.block.Sound() && Filtered(m, k, executes, seen, ids, all, n, limits, tally, at, kept)
    requires !m.SeenBefore(all[n].id) && executes(kept, all[n]) && all[n].id !in ids
    ensures Filtered(m, k, executes, seen, ids + {all[n].id}, all, n + 1, limits, tally.Add(k, all[n].size),
                     at + [n], kept + [all[n]])
  {
    hide BlockPayloadMutator.SeenBefore, BlockIndex.Sound, Tally.CanFit;
    forall i: nat | i < n && i !in at
      ensures Refused(m, k, executes, seen, all, i, limits, tally.Add(k, all[n].size), at + [n], kept + [all[n]])
    {
      assert Refused(m, k, executes, seen, all, i, limits, tally, at, kept);
      if FailsAt(executes, all, i, at, kept) {
        FailsStill(executes, all, i, at, kept, n, all[n]);
      }
      if !tally.CanFit(limits, k, all[i].size) {
        NoRoomLater(tally, limits, k, all[i].size, k, all[n].size);
      }
    }
    OneMoreExecutes(executes, kept, all[n]);
    var at', kept' := at + [n], kept + [all[n]];
    assert forall i :: i in at' <==> i in at || i == n;
  }

  /** The counts and sizes after some more payloads of one kind. */
  ghost predicate Counted(before: Tally, after: Tally, k: Kind, kept: seq<Payload>) {
    && after.Count(k) == before.Count(k) + |kept| && after.Size(k) == before.Size(k) + SizeOf(kept)
    && forall o: Kind :: o != k ==> after.Count(o) == before.Count(o) && after.Size(o) == before.Size(o)
  }

  lemma CountNothing(t: Tally, k: Kind)
    ensures Counted(t, t, k, [])
  {
  }

  lemma CountOne(before: Tally, after: Tally, k: Kind, kept: seq<Payload>, p: Payload)
    requires Counted(before, after, k, kept)
    ensures Counted(before, after.Add(k, p.size), k, kept + [p])
    ensures IdsOf(kept + [p]) == IdsOf(kept) + [p.id]
  {
    assert (kept + [p])[..|kept|] == kept;
  }

  /** A run of payloads in order, none of a later kind. */
  ghost predicate UpTo(steps: seq<Step>, k: Kind) {
    InOrder(steps) && forall s <- steps :: Rank(s.kind) <= Rank(k)
  }

  /** Everything that the loop over the candidates of one kind keeps. */
  ghost predicate Progress(m: BlockPayloadMutator, k: Kind, executes: Oracle, seen: set<Id>,
                           ids: set<Id>, all: seq<Payload>, n: nat, limits: Limits, before: Tally, tally: Tally,
                           at: seq<nat>, kept: seq<Payload>, steps: seq<Step>)
    requires n <= |all| && m.block.Sound()
    reads m.tree`blocks, (m.tree.Nodes() - {m.block})`atvIds, (m.tree.Nodes() - {m.block})`vtbIds
    reads (m.tree.Nodes() - {m.block})`vbkIds
  {
    && Filtered(m, k, executes, seen, ids, all, n, limits, tally, at, kept)
    && tally == Run(EMPTY, steps) && Accepted(limits, steps) && UpTo(steps, k) && Counted(before, tally, k, kept)
  }

  lemma Started(m: BlockPayloadMutator, k: Kind, executes: Oracle, all: seq<Payload>, limits: Limits,
                before: Tally, steps: seq<Step>)
    requires m.Adding() && before == Run(EMPTY, steps) && Accepted(limits, steps) && UpTo(steps, k)
    ensures m.block.Sound() && Progress(m, k, executes, m.ids, m.ids, all, 0, limits, before, before, [], [], steps)
  {
    hide BlockPayloadMutator.Adding, Filtered, Run, Accepted, UpTo, Counted;
    NothingYet(m, k, executes, m.ids, all, limits, before);
    CountNothing(before, k);
  }

  lemma Dropped(m: BlockPayloadMutator, k: Kind, executes: Oracle, seen: set<Id>, ids: set<Id>,
                ids': set<Id>, all: seq<Payload>, n: nat, limits: Limits, before: Tally, tally: Tally, at: seq<nat>,
                kept: seq<Payload>, steps: seq<Step>)
    requires n < |all| && m.block.Sound()
    requires Progress(m, k, executes, seen, ids, all, n, limits, before, tally, at, kept, steps)
    requires ids' == ids || ids' == ids + {all[n].id}
    requires m.SeenBefore(all[n].id) || !executes(kept, all[n]) || all[n].id in ids || !tally.CanFit(limits, k, all[n].size)
    ensures Progress(m, k, executes, seen, ids', all, n + 1, limits, before, tally, at, kept, steps)
  {
    hide BlockPayloadMutator.SeenBefore, BlockIndex.Sound, Tally.CanFit, Filtered, Run, Accepted, UpTo, Counted;
    DropOne(m, k, executes, seen, ids, ids', all, n, limits, tally, at, kept);
  }

  lemma Added(m: BlockPayloadMutator, k: Kind, executes: Oracle, seen: set<Id>, ids: set<Id>,
              all: seq<Payload>, n: nat, limits: Limits, before: Tally, tally: Tally, at: seq<nat>,
              kept: seq<Payload>, steps: seq<Step>)
    requires n < |all| && m.block.Sound() && SizeOk(k, all[n].size)
    requires Progress(m, k, executes, seen, ids, all, n, limits, before, tally, at, kept, steps)
    requires !m.SeenBefore(all[n].id) && executes(kept, all[n]) && all[n].id !in ids && tally.CanFit(limits, k, all[n].size)
    ensures Progress(m, k, executes, seen, ids + {all[n].id}, all, n + 1, limits, before, tally.Add(k, all[n].size),
                     at + [n], kept + [all[n]], steps + [Step(k, all[n].size)])
    ensures IdsOf(kept + [all[n]]) == IdsOf(kept) + [all[n].id]
  {
    hide BlockPayloadMutator.SeenBefore, BlockIndex.Sound, Tally.CanFit, Filtered, Run, Accepted, Counted, Tally.Add, SizeOk;
    KeepOne(m, k, executes, seen, ids, all, n, limits, tally, at, kept);
    OneMore(limits, steps, Step(k, all[n].size));
    CountOne(before, tally, k, kept, all[n]);
  }

  /** Adds the candidates of one kind one by one and keeps those that were added, in order. */
  method ApplyPayloads(m: BlockPayloadMutator, context: CountingContext, k: Kind, payloads: seq<Payload>,
                       executes: Oracle, ghost steps: seq<Step>)
    returns (kept: seq<Payload>, ghost at: seq<nat>, ghost steps': seq<Step>)
    requires m.Adding() && context.Value() == Run(EMPTY, steps) && Accepted(context.limits, steps) && UpTo(steps, k)
    requires forall p <- payloads :: SizeOk(k, p.size)
    modifies m`ids, m.block`atvIds, m.block`vtbIds, m.block`vbkIds, m.tree.payloadsIndex, context
    ensures m.Adding() && m.block.Sound()
    ensures Progress(m, k, executes, old(m.ids), m.ids, payloads, |payloads|, context.limits, old(context.Value()),
                     context.Value(), at, kept, steps')
    ensures m.block.PayloadIds(k) == old(m.block.PayloadIds(k)) + IdsOf(kept)
    ensures forall o: Kind :: o != k ==> m.block.PayloadIds(o) == old(m.block.PayloadIds(o))
  {
    hide BlockPayloadMutator.Adding, Progress, Run, Accepted, Tally.CanFit, BlockIndex.PayloadIds, Tally.Add, IdsOf, SizeOk;
    hide UpTo;
    kept, at, steps' := [], [], steps;
    Started(m, k, executes, payloads, context.limits, context.Value(), steps);
    NoIds();
    for n := 0 to |payloads|
      invariant m.Adding() && m.block.Sound() && m.tree.Nodes() == old(m.tree.Nodes())
      invariant Progress(m, k, executes, old(m.ids), m.ids, payloads, n, context.limits, old(context.Value()),
                         context.Value(), at, kept, steps')
      invariant m.block.PayloadIds(k) == old(m.block.PayloadIds(k)) + IdsOf(kept)
      invariant forall o: Kind :: o != k ==> m.block.PayloadIds(o) == old(m.block.PayloadIds(o))
    {
      var payload := payloads[n];
      ghost var ids, before, tally := m.ids, old(context.Value()), context.Value();
      assert Progress(m, k, executes, old(m.ids), ids, payloads, n, context.limits, before, tally, at, kept, steps');
      var fits := context.CanFit(k, payload.size);
      if !fits || payload.id in m.ids {
        Dropped(m, k, executes, old(m.ids), ids, ids, payloads, n, context.limits, before, tally, at, kept, steps');
        continue;
      }
      var added := m.AddApplied(k, payload.id, executes(kept, payload));
      if !added {
        Dropped(m, k, executes, old(m.ids), ids, m.ids, payloads, n, context.limits, before, tally, at, kept, steps');
        continue;
      }
      Added(m, k, executes, old(m.ids), ids, payloads, n, context.limits, before, tally, at, kept, steps');
      assert forall b <- m.tree.Nodes() :: b as object != context;
      context.Update(k, payload.size);
      kept, at, steps' := kept + [payload], at + [n], steps' + [Step(k, payload.size)];
    }
  }

  lemma NoIds()
    ensures IdsOf([]) == []
  {
  }

  lemma ActiveTipKnown(tree: AltBlockTree)
    requires tree.Valid()
    ensures tree.activeTip in tree.Nodes() && tree.activeTip.hash in tree.blocks
    ensures tree.blocks[tree.activeTip.hash] == tree.activeTip
    ensures tree.activeTip.Connected() && !tree.activeTip.Failed()
    ensures tree.root.hash in tree.blocks && tree.blocks[tree.root.hash] == tree.root && tree.root.pprev == null
  {
    hide AllInherit, TipsOf, Able, Linked, PopFollows, LevelsFollow, BodiesFollow;
    ShapeOf(tree.Nodes(), tree.root, tree.activeTip);
    assert tree.activeTip.active;
  }

  lemma NotRejected(tree: AltBlockTree, b: BlockIndex)
    requires tree.Valid() && b in tree.Nodes() && b != tree.root && !b.Connected()
    ensures b !in tree.rejected
  {
    hide AllInherit, TipsOf, Able, Linked, LevelsFollow, BodiesFollow, AltBlockTree.IndexExact, AppliedChain, AppliedSound;
    ShapeOf(tree.Nodes(), tree.root, b);
    assert PopFollowsAt(tree.Nodes(), b, tree.finalized, b in tree.rejected);
  }

  /** A block without payloads on a valid connected block is connected and valid. */
  lemma EmptyBlockIsValid(tree: AltBlockTree, b: BlockIndex)
    requires tree.Valid() && b in tree.Nodes() && b != tree.root && b.bodyAdded && b.Ids() == {} && !b.failedBlock
    requires b.pprev != null && b.pprev.Connected() && !b.pprev.Failed() && b !in tree.rejected
    ensures b.Connected() && !b.Failed()
  {
    hide TipsOf, Able, Linked, BodiesFollow, AltBlockTree.IndexExact, AppliedChain, AppliedSound;
    ShapeOf(tree.Nodes(), tree.root, b);
    assert LevelFollows(tree.root, b, false) && Inherits(b);
    assert PopFollowsAt(tree.Nodes(), b, tree.finalized, false);
  }

  /** Which blocks are connected is fixed by the bodies. */
  lemma ConnectedByBodies(tree: AltBlockTree, s: set<BlockIndex>, bodies: set<BlockIndex>)
    requires tree.Valid() && Shape(s, tree.root) && s <= tree.Nodes()
    requires forall x <- s :: x.bodyAdded <==> x in bodies
    ensures forall x <- s :: x.Sound() && (x.Connected() <==> x.Ancestors() - {tree.root} <= bodies)
  {
    hide AltBlockTree.Valid, BlockIndex.Connected;
    forall x <- s
      ensures x.Sound() && (x.Connected() <==> x.Ancestors() - {tree.root} <= bodies)
    {
      ConnectedIffBodies(tree, x);
      AncestorsInside(s, tree.root, x);
    }
  }

  lemma ChainIsApplied(tree: AltBlockTree)
    requires tree.Valid()
    ensures tree.activeTip.Sound() && Shape(tree.Nodes(), tree.root)
    ensures forall x <- tree.activeTip.Ancestors() :: x in tree.Nodes() && x.level == CAN_BE_APPLIED
  {
    hide AltBlockTree.IndexExact, PopFollows, LevelsFollow, AllInherit, Linked, BodiesFollow, TipsOf, Able;
    ShapeOf(tree.Nodes(), tree.root, tree.activeTip);
    AncestorsInside(tree.Nodes(), tree.root, tree.activeTip);
  }

  /** Hangs a header on the active tip. */
  method HangHeader(tree: AltBlockTree, tmpHash: Hash) returns (tmp: BlockIndex)
    requires tree.Valid() && tmpHash !in tree.blocks
    modifies tree`blocks, tree`tips, tree.Nodes()`pnext
    ensures tree.Valid() && fresh(tmp) && tree.blocks == old(tree.blocks)[tmpHash := tmp] && tmp.hash == tmpHash
    ensures tree.Nodes() == old(tree.Nodes()) + {tmp}
    ensures tmp.pprev == tree.activeTip && tmp.pnext == {} && !tmp.bodyAdded && !tmp.failedBlock
    ensures tmp != tree.root && tmp !in tree.rejected && tmp.pprev.Connected() && !tmp.pprev.Failed()
  {
    hide AltBlockTree.Core, BlockIndex.Ids, AltBlockTree.IndexExact, PopFollows, BodiesFollow, LevelsFollow;
    hide BlockIndex.Failed, Shape, BlockIndex.Ancestors, BlockIndex.Sound;
    ActiveTipKnown(tree);
    var tip := tree.activeTip;
    var ret := tree.AcceptBlockHeader(tmpHash, tip.hash);
    assert ret;
    tmp := tree.blocks[tmpHash];
    WithBlock(old(tree.blocks), tmpHash, tmp);
    NotRejected(tree, tmp);
  }

  /** Gives a header on a valid connected block an empty body. */
  method StoreNothing(tree: AltBlockTree, tmp: BlockIndex)
    requires tree.Valid() && tmp in tree.Nodes() && tmp != tree.root && !tmp.bodyAdded && !tmp.failedBlock
    requires tmp !in tree.rejected && tmp.pprev == tree.activeTip
    modifies tmp`atvIds, tmp`vtbIds, tmp`vbkIds, tmp`bodyAdded, tree.payloadsIndex
    modifies tree.Nodes()`level, tree.Nodes()`failedPop, tree.Nodes()`failedChild, tree.Nodes()`active
    modifies tree`tips, tree`activeTip, tree`appliedBlockCount
    ensures tree.Valid() && tree.activeTip == old(tree.activeTip)
    ensures tmp.bodyAdded && tmp.Connected() && !tmp.Failed() && forall k: Kind :: tmp.PayloadIds(k) == []
    ensures forall x <- tree.Nodes() :: x.level == old(x.level) || (old(x.level) < CONNECTED && x.level == CONNECTED)
  {
    hide AltBlockTree.Valid, BlockIndex.Ids, BlockIndex.Failed, BlockIndex.Ancestors, BlockIndex.Sound;
    tree.AcceptBlock(tmp, PopIds([], [], []));
    tmp.NoIdsAtAll();
    ActiveTipKnown(tree);
    EmptyBlockIsValid(tree, tmp);
  }

  /** Hangs an empty block on the active tip and connects it. */
  method HangEmptyBlock(tree: AltBlockTree, tmpHash: Hash) returns (tmp: BlockIndex)
    requires tree.Valid() && tmpHash !in tree.blocks
    modifies tree, tree.Nodes()`pnext, tree.Nodes()`level, tree.Nodes()`failedPop, tree.Nodes()`failedChild
    modifies tree.Nodes()`active, tree.payloadsIndex
    ensures tree.Valid() && fresh(tmp) && tree.blocks == old(tree.blocks)[tmpHash := tmp] && tmp.hash == tmpHash
    ensures tree.activeTip == old(tree.activeTip) == tmp.pprev && tmp.pnext == {} && tmp.bodyAdded
    ensures forall k: Kind :: tmp.PayloadIds(k) == []
    ensures tmp in tree.Nodes() && tmp.Connected() && !tmp.Failed()
    ensures tree.rejected == old(tree.rejected) && forall x <- old(tree.Nodes()) :: x.level == old(x.level)
  {
    hide AltBlockTree.Valid, BlockIndex.PayloadIds, BlockIndex.Failed, BlockIndex.Ancestors, BlockIndex.Sound, Shape;
    ghost var s := tree.Nodes();
    ghost var bodies := set x <- s | x.bodyAdded;
    ChainIsApplied(tree);
    ConnectedByBodies(tree, s, bodies);
    tmp := HangHeader(tree, tmpHash);
    assert tmp !in s;
    StoreNothing(tree, tmp);
    ConnectedByBodies(tree, s, bodies);
  }

  lemma WithBlock(blocks: map<Hash, BlockIndex>, h: Hash, b: BlockIndex)
    requires h !in blocks
    ensures blocks[h := b].Values == blocks.Values + {b}
  {
    var more := blocks[h := b];
    assert forall g <- blocks :: more[g] == blocks[g];
    assert more[h] == b;
  }

  /** Makes an empty block on top of the active chain the active tip. No other block changes
      its level for that. */
  method OpenTemporaryBlock(tree: AltBlockTree, tmpHash: Hash) returns (tmp: BlockIndex)
    requires tree.Valid() && tmpHash !in tree.blocks
    modifies tree, tree.Nodes()`pnext, tree.Nodes()`level, tree.Nodes()`failedPop, tree.Nodes()`failedChild
    modifies tree.Nodes()`active, tree.payloadsIndex
    ensures tree.Valid() && fresh(tmp) && tree.blocks == old(tree.blocks)[tmpHash := tmp] && tmp.hash == tmpHash
    ensures tree.activeTip == tmp && tmp.pprev == old(tree.activeTip) && tmp.pnext == {} && tmp.bodyAdded
    ensures forall k: Kind :: tmp.PayloadIds(k) == []
    ensures tree.rejected == old(tree.rejected) && forall x <- old(tree.Nodes()) :: x.level == old(x.level)
  {
    hide AltBlockTree.Valid, BlockIndex.Failed, BlockIndex.Connected, BlockIndex.Sound;
    ghost var s := tree.Nodes();
    tmp := HangEmptyBlock(tree, tmpHash);
    WithBlock(old(tree.blocks), tmpHash, tmp);
    ChainIsApplied(tree);
    var success := tree.SetState(tmp, _ => true);
    assert success;
    ChainIsApplied(tree);
  }

  /** The ids are stored nowhere on a chain, nor in a final block. */
  ghost predicate Unused(ids: seq<Id>, chain: set<BlockIndex>, finalized: set<Id>)
    reads chain`atvIds, chain`vtbIds, chain`vbkIds
  {
    forall i <- ids :: i !in finalized && forall b <- chain :: i !in b.Ids()
  }

  /** A body that can go into the next block. */
  ghost predicate Fresh(c: Candidates, chain: set<BlockIndex>, finalized: set<Id>, limits: Limits)
    reads chain`atvIds, chain`vtbIds, chain`vbkIds
  {
    && Distinct(IdsOf(c.context) + IdsOf(c.vtbs) + IdsOf(c.atvs))
    && Unused(IdsOf(c.context) + IdsOf(c.vtbs) + IdsOf(c.atvs), chain, finalized)
    && |c.context| <= limits.maxVbks && |c.vtbs| <= limits.maxVtbs && |c.atvs| <= limits.maxAtvs
  }

  /** The mutator of the temporary block. */
  method OpenMutator(tree: AltBlockTree, tmp: BlockIndex) returns (m: BlockPayloadMutator)
    requires tree.Valid() && tmp in tree.Nodes() && tree.activeTip == tmp && tmp.pnext == {} && tmp.bodyAdded
    requires tmp.pprev != null && forall k: Kind :: tmp.PayloadIds(k) == []
    ensures fresh(m) && fresh(m.chain) && m.tree == tree && m.block == tmp && m.ids == {} && m.Adding()
  {
    hide BlockIndex.Ancestors, AllInherit, TipsOf, Able, PopFollows, BodiesFollow;
    ActiveTipKnown(tree);
    tmp.NoIdsAtAll();
    NextAreChildren(tree.Nodes(), tmp);
    ShapeOf(tree.Nodes(), tree.root, tmp);
    m := new BlockPayloadMutator(tree, tmp);
  }

  function Tried(ps: seq<Payload>): set<Id> {
    set p <- ps :: p.id
  }

  /** Each candidate that is not kept was refused, `seen` being the ids tried before. */
  ghost predicate RefusedAll(m: BlockPayloadMutator, k: Kind, executes: Oracle, seen: set<Id>,
                             all: seq<Payload>, at: seq<nat>, kept: seq<Payload>, limits: Limits, tally: Tally)
    requires m.block.Sound()
    reads m.tree`blocks, (m.tree.Nodes() - {m.block})`atvIds, (m.tree.Nodes() - {m.block})`vtbIds
    reads (m.tree.Nodes() - {m.block})`vbkIds
  {
    forall i: nat :: i < |all| && i !in at ==> Refused(m, k, executes, seen, all, i, limits, tally, at, kept)
  }

  /** What the loop over one kind says of the payloads that it kept and of the others. */
  lemma KeptFacts(m: BlockPayloadMutator, k: Kind, executes: Oracle, seen: set<Id>, ids: set<Id>,
                  all: seq<Payload>, limits: Limits, before: Tally, tally: Tally, at: seq<nat>, kept: seq<Payload>,
                  steps: seq<Step>, tried: set<Id>)
    requires m.block.Sound() && seen <= tried
    requires Progress(m, k, executes, seen, ids, all, |all|, limits, before, tally, at, kept, steps)
    ensures Picked(all, at, kept) && seen <= ids <= tried + Tried(all) && Distinct(IdsOf(kept))
    ensures forall i <- IdsOf(kept) :: i in ids && i !in seen && !m.SeenBefore(i)
    ensures RefusedAll(m, k, executes, tried, all, at, kept, limits, tally)
    ensures AllExecute(executes, kept)
    ensures tally == Run(EMPTY, steps) && Accepted(limits, steps) && UpTo(steps, k) && Counted(before, tally, k, kept)
  {
    hide BlockPayloadMutator.SeenBefore, FailsAt, AllExecute, Tally.CanFit, Run, Accepted, UpTo, Counted;
    forall i <- IdsOf(kept)
      ensures i in ids && i !in seen && !m.SeenBefore(i)
    {
      var j :| 0 <= j < |IdsOf(kept)| && IdsOf(kept)[j] == i;
      assert kept[j].id == i;
    }
    forall i: nat | i < |all| && i !in at
      ensures Refused(m, k, executes, tried, all, i, limits, tally, at, kept)
    {
      assert Refused(m, k, executes, seen, all, i, limits, tally, at, kept);
    }
  }

  lemma LaterKind(steps: seq<Step>, k: Kind, k': Kind)
    requires UpTo(steps, k) && Rank(k) <= Rank(k')
    ensures UpTo(steps, k')
  {
  }

  lemma DistinctConcat(a: seq<Id>, b: seq<Id>, ids: set<Id>)
    requires Distinct(a) && Distinct(b) && (forall i <- a :: i in ids) && forall i <- b :: i !in ids
    ensures Distinct(a + b)
  {
    var c := a + b;
    forall i, j | 0 <= i < j < |c|
      ensures c[i] != c[j]
    {
      if j >= |a| {
        assert c[j] == b[j - |a|] && c[j] in b;
        if i < |a| {
          assert c[i] == a[i] && c[i] in a;
        }
      }
    }
  }

  /** What was kept of a kind and of the kinds before it. */
  function Room(r: Candidates, k: Kind): Tally {
    match k
    case VbkKind => Tally(|r.context|, 0, 0, SizeOf(r.context), 0, 0)
    case VtbKind => Tally(|r.context|, |r.vtbs|, 0, SizeOf(r.context), SizeOf(r.vtbs), 0)
    case AtvKind => Tally(|r.context|, |r.vtbs|, |r.atvs|, SizeOf(r.context), SizeOf(r.vtbs), SizeOf(r.atvs))
  }

  lemma CountedAll(t0: Tally, t1: Tally, t2: Tally, r: Candidates)
    requires Counted(EMPTY, t0, VbkKind, r.context) && Counted(t0, t1, VtbKind, r.vtbs) && Counted(t1, t2, AtvKind, r.atvs)
    ensures t0 == Room(r, VbkKind) && t1 == Room(r, VtbKind) && t2 == Room(r, AtvKind)
    ensures t2.Estimate() == EstimateOf(r)
  {
    assert t0.Count(AtvKind) == 0 && t0.Size(AtvKind) == 0 && t0.Count(VtbKind) == 0 && t0.Size(VtbKind) == 0;
    assert t1.Count(VbkKind) == t0.Count(VbkKind) && t1.Size(VbkKind) == t0.Size(VbkKind);
    assert t1.Count(AtvKind) == t0.Count(AtvKind) && t1.Size(AtvKind) == t0.Size(AtvKind);
    assert t2.Count(VbkKind) == t1.Count(VbkKind) && t2.Size(VbkKind) == t1.Size(VbkKind);
    assert t2.Count(VtbKind) == t1.Count(VtbKind) && t2.Size(VtbKind) == t1.Size(VtbKind);
  }

  /** The candidates have sizes that payloads of their kinds have. */
  predicate Sized(pop: Candidates) {
    && (forall p <- pop.context :: SizeOk(VbkKind, p.size)) && (forall p <- pop.vtbs :: SizeOk(VtbKind, p.size))
    && (forall p <- pop.atvs :: SizeOk(AtvKind, p.size))
  }

  /** Whether the commands of a payload succeed after a part of the body, in the order in
      which the body is built. */
  type Execution = (Candidates, Kind, Payload) -> bool

  /** The candidates of one kind are executed after what was kept of the kinds before. */
  function Onto(executes: Execution, r: Candidates, k: Kind): Oracle {
    match k
    case VbkKind => (done, p) => executes(Candidates(done, [], []), VbkKind, p)
    case VtbKind => (done, p) => executes(Candidates(r.context, done, []), VtbKind, p)
    case AtvKind => (done, p) => executes(Candidates(r.context, r.vtbs, done), AtvKind, p)
  }

  /** The commands of the whole body succeed, each payload after those before it. */
  ghost predicate BodyExecutes(executes: Execution, r: Candidates) {
    && AllExecute(Onto(executes, r, VbkKind), r.context) && AllExecute(Onto(executes, r, VtbKind), r.vtbs)
    && AllExecute(Onto(executes, r, AtvKind), r.atvs)
  }

  /** All dropped candidates were refused. */
  ghost predicate AllRefused(m: BlockPayloadMutator, executes: Execution, pop: Candidates, r: Candidates,
                             at: (seq<nat>, seq<nat>, seq<nat>), limits: Limits)
    requires m.block.Sound()
    reads m.tree`blocks, (m.tree.Nodes() - {m.block})`atvIds, (m.tree.Nodes() - {m.block})`vtbIds
    reads (m.tree.Nodes() - {m.block})`vbkIds
  {
    && RefusedAll(m, VbkKind, Onto(executes, r, VbkKind), {}, pop.context, at.0, r.context, limits, Room(r, VbkKind))
    && RefusedAll(m, VtbKind, Onto(executes, r, VtbKind), Tried(pop.context), pop.vtbs, at.1, r.vtbs, limits,
                  Room(r, VtbKind))
    && RefusedAll(m, AtvKind, Onto(executes, r, AtvKind), Tried(pop.context) + Tried(pop.vtbs), pop.atvs, at.2, r.atvs,
                  limits, Room(r, AtvKind))
  }

  /** Filters all three lists through a mutator. */
  method FilterAll(m: BlockPayloadMutator, context: CountingContext, pop: Candidates, executes: Execution)
    returns (r: Candidates, ghost at: (seq<nat>, seq<nat>, seq<nat>), ghost steps: seq<Step>)
    requires m.Adding() && m.ids == {} && context.Value() == EMPTY
    requires forall k: Kind :: m.block.PayloadIds(k) == []
    requires Sized(pop)
    modifies m`ids, m.block`atvIds, m.block`vtbIds, m.block`vbkIds, m.tree.payloadsIndex, context
    ensures m.Adding() && m.block.Sound()
    ensures m.block.PayloadIds(VbkKind) == IdsOf(r.context) && m.block.PayloadIds(VtbKind) == IdsOf(r.vtbs)
    ensures m.block.PayloadIds(AtvKind) == IdsOf(r.atvs)
    ensures Picked(pop.context, at.0, r.context) && Picked(pop.vtbs, at.1, r.vtbs) && Picked(pop.atvs, at.2, r.atvs)
    ensures Distinct(IdsOf(r.context) + IdsOf(r.vtbs) + IdsOf(r.atvs))
    ensures forall i <- IdsOf(r.context) :: !m.SeenBefore(i)
    ensures forall i <- IdsOf(r.vtbs) :: !m.SeenBefore(i)
    ensures forall i <- IdsOf(r.atvs) :: !m.SeenBefore(i)
    ensures AllRefused(m, executes, pop, r, at, context.limits) && BodyExecutes(executes, r)
    ensures Accepted(context.limits, steps) && InOrder(steps) && Run(EMPTY, steps).Estimate() == EstimateOf(r)
    ensures |r.context| <= context.limits.maxVbks && |r.vtbs| <= context.limits.maxVtbs
    ensures |r.atvs| <= context.limits.maxAtvs
  {
    hide BlockPayloadMutator.Adding, Run, Accepted, Progress, Distinct, BlockPayloadMutator.SeenBefore, Picked, Counted;
    hide Tally.Estimate, IdsOf, BlockIndex.PayloadIds, EstimateOf, RefusedAll, UpTo, SizeOk, SizeOf, Onto, AllExecute;
    hide InOrder, Tried, Tally.CanFit;
    assert forall b <- m.tree.Nodes() :: b as object != context && b as object != m.tree.payloadsIndex;
    ghost var s := m.tree.Nodes();
    ghost var l, tried0 := context.limits, Tried(pop.context);
    ghost var tried1 := tried0 + Tried(pop.vtbs);
    Nothing(l);
    NothingUpTo();
    NoIds();
    var onVbk := Onto(executes, Candidates([], [], []), VbkKind);
    var context', at0, steps0 := ApplyPayloads(m, context, VbkKind, pop.context, onVbk, []);
    ghost var ids0, t0 := m.ids, context.Value();
    KeptFacts(m, VbkKind, onVbk, {}, ids0, pop.context, l, EMPTY, t0, at0, context', steps0, {});
    LaterKind(steps0, VbkKind, VtbKind);
    var onVtb := Onto(executes, Candidates(context', [], []), VtbKind);
    var vtbs', at1, steps1 := ApplyPayloads(m, context, VtbKind, pop.vtbs, onVtb, steps0);
    ghost var ids1, t1 := m.ids, context.Value();
    KeptFacts(m, VtbKind, onVtb, ids0, ids1, pop.vtbs, l, t0, t1, at1, vtbs', steps1, tried0);
    LaterKind(steps1, VtbKind, AtvKind);
    var onAtv := Onto(executes, Candidates(context', vtbs', []), AtvKind);
    var atvs', at2, steps2 := ApplyPayloads(m, context, AtvKind, pop.atvs, onAtv, steps1);
    KeptFacts(m, AtvKind, onAtv, ids1, m.ids, pop.atvs, l, t1, context.Value(), at2, atvs', steps2, tried1);
    r, at, steps := Candidates(context', vtbs', atvs'), (at0, at1, at2), steps2;
    SameOnto(executes, r);
    CountsWithin(l, steps);
    CountedAll(t0, t1, context.Value(), r);
    UpToInOrder(steps, AtvKind);
    DistinctConcat(IdsOf(context'), IdsOf(vtbs'), ids0);
    DistinctConcat(IdsOf(context') + IdsOf(vtbs'), IdsOf(atvs'), ids1);
    assert [] + IdsOf(context') == IdsOf(context') && [] + IdsOf(vtbs') == IdsOf(vtbs') && [] + IdsOf(atvs') == IdsOf(atvs');
  }

  /** The candidates of a kind do not depend on what is kept of that kind and later ones. */
  lemma SameOnto(executes: Execution, r: Candidates)
    ensures Onto(executes, Candidates([], [], []), VbkKind) == Onto(executes, r, VbkKind)
    ensures Onto(executes, Candidates(r.context, [], []), VtbKind) == Onto(executes, r, VtbKind)
    ensures Onto(executes, Candidates(r.context, r.vtbs, []), AtvKind) == Onto(executes, r, AtvKind)
  {
  }

  lemma NothingUpTo()
    ensures UpTo([], VbkKind)
  {
  }

  lemma UpToInOrder(steps: seq<Step>, k: Kind)
    requires UpTo(steps, k)
    ensures InOrder(steps)
  {
  }

  /** The blocks before a temporary block are the active chain it was put on. */
  lemma SeenOnChain(m: BlockPayloadMutator, i: Id)
    requires m.Adding()
    ensures m.block.Sound() && m.block.ProperAncestors() <= m.tree.Nodes() - {m.block}
    ensures m.SeenBefore(i) <==> i in m.tree.finalized || exists b <- m.block.ProperAncestors() :: i in b.Ids()
  {
    hide BlockIndex.Ids, AllInherit, TipsOf, Able, PopFollows, BodiesFollow, LevelsFollow;
    NotBehindItself(m.tree.Nodes(), m.tree.root, m.block);
    AncestorsInside(m.tree.Nodes(), m.tree.root, m.block.pprev);
  }

  lemma FreshBody(m: BlockPayloadMutator, r: Candidates, limits: Limits)
    requires m.Adding()
    requires Distinct(IdsOf(r.context) + IdsOf(r.vtbs) + IdsOf(r.atvs)) && m.block.Sound()
    requires forall i <- IdsOf(r.context) :: !m.SeenBefore(i)
    requires forall i <- IdsOf(r.vtbs) :: !m.SeenBefore(i)
    requires forall i <- IdsOf(r.atvs) :: !m.SeenBefore(i)
    requires |r.context| <= limits.maxVbks && |r.vtbs| <= limits.maxVtbs && |r.atvs| <= limits.maxAtvs
    ensures Fresh(r, m.block.ProperAncestors(), m.tree.finalized, limits)
  {
    hide BlockIndex.Ids, BlockPayloadMutator.Adding, BlockPayloadMutator.SeenBefore, IdsOf, Distinct, BlockIndex.Ancestors;
    var all := IdsOf(r.context) + IdsOf(r.vtbs) + IdsOf(r.atvs);
    forall i <- all
      ensures i !in m.tree.finalized && forall b <- m.block.ProperAncestors() :: i !in b.Ids()
    {
      SeenOnChain(m, i);
    }
  }

  ghost predicate Used(i: Id, chain: set<BlockIndex>, finalized: set<Id>)
    reads chain`atvIds, chain`vtbIds, chain`vbkIds
  {
    i in finalized || exists b <- chain :: i in b.Ids()
  }

  /** Every candidate that is not at a kept position is in a block before, or its commands fail,
      or an earlier candidate had its id, or there is no room for it beside what was kept. */
  ghost predicate DropsJustified(k: Kind, executes: Oracle, earlier: seq<Payload>, all: seq<Payload>,
                                 at: seq<nat>, kept: seq<Payload>, limits: Limits, tally: Tally,
                                 chain: set<BlockIndex>, finalized: set<Id>)
    reads chain`atvIds, chain`vtbIds, chain`vbkIds
  {
    forall i: nat :: i < |all| && i !in at ==>
      || Used(all[i].id, chain, finalized) || FailsAt(executes, all, i, at, kept)
      || (exists p <- earlier :: p.id == all[i].id) || (exists j :: 0 <= j < i && all[j].id == all[i].id)
      || !tally.CanFit(limits, k, all[i].size)
  }

  /** No candidate was dropped without need. */
  ghost predicate NothingLost(executes: Execution, pop: Candidates, r: Candidates,
                              at: (seq<nat>, seq<nat>, seq<nat>), limits: Limits, chain: set<BlockIndex>, finalized: set<Id>)
    reads chain`atvIds, chain`vtbIds, chain`vbkIds
  {
    && DropsJustified(VbkKind, Onto(executes, r, VbkKind), [], pop.context, at.0, r.context, limits, Room(r, VbkKind),
                      chain, finalized)
    && DropsJustified(VtbKind, Onto(executes, r, VtbKind), pop.context, pop.vtbs, at.1, r.vtbs, limits, Room(r, VtbKind),
                      chain, finalized)
    && DropsJustified(AtvKind, Onto(executes, r, AtvKind), pop.context + pop.vtbs, pop.atvs, at.2, r.atvs, limits,
                      Room(r, AtvKind), chain, finalized)
  }

  lemma Justify(m: BlockPayloadMutator, k: Kind, executes: Oracle, seen: set<Id>, earlier: seq<Payload>,
                all: seq<Payload>, at: seq<nat>, kept: seq<Payload>, limits: Limits, tally: Tally)
    requires m.Adding() && m.block.Sound() && RefusedAll(m, k, executes, seen, all, at, kept, limits, tally)
    requires seen == Tried(earlier)
    ensures DropsJustified(k, executes, earlier, all, at, kept, limits, tally, m.block.ProperAncestors(), m.tree.finalized)
  {
    hide BlockIndex.Ids, BlockPayloadMutator.Adding, BlockPayloadMutator.SeenBefore, BlockIndex.Ancestors, Tally.CanFit;
    hide FailsAt;
    forall i: nat | i < |all| && i !in at
      ensures || Used(all[i].id, m.block.ProperAncestors(), m.tree.finalized) || FailsAt(executes, all, i, at, kept)
              || (exists p <- earlier :: p.id == all[i].id) || (exists j :: 0 <= j < i && all[j].id == all[i].id)
              || !tally.CanFit(limits, k, all[i].size)
    {
      SeenOnChain(m, all[i].id);
      assert Refused(m, k, executes, seen, all, i, limits, tally, at, kept);
    }
  }

  lemma JustifyAll(m: BlockPayloadMutator, executes: Execution, pop: Candidates, r: Candidates,
                   at: (seq<nat>, seq<nat>, seq<nat>), limits: Limits)
    requires m.Adding() && m.block.Sound() && AllRefused(m, executes, pop, r, at, limits)
    ensures NothingLost(executes, pop, r, at, limits, m.block.ProperAncestors(), m.tree.finalized)
  {
    hide BlockPayloadMutator.Adding, BlockIndex.Ancestors, RefusedAll, DropsJustified, Room, Onto;
    Justify(m, VbkKind, Onto(executes, r, VbkKind), {}, [], pop.context, at.0, r.context, limits, Room(r, VbkKind));
    Justify(m, VtbKind, Onto(executes, r, VtbKind), Tried(pop.context), pop.context, pop.vtbs, at.1, r.vtbs, limits,
            Room(r, VtbKind));
    assert Tried(pop.context + pop.vtbs) == Tried(pop.context) + Tried(pop.vtbs);
    Justify(m, AtvKind, Onto(executes, r, AtvKind), Tried(pop.context) + Tried(pop.vtbs), pop.context + pop.vtbs,
            pop.atvs, at.2, r.atvs, limits, Room(r, AtvKind));
  }

  lemma AddingFacts(m: BlockPayloadMutator)
    requires m.Adding()
    ensures m.tree.Valid() && m.block in m.tree.Nodes() && m.block != m.tree.root && m.block.Sound()
    ensures m.block.ProperAncestors() <= m.tree.Nodes() - {m.block}
    ensures m.block.pprev != null && m.block.pprev.Sound() && m.block.pprev.Ancestors() == m.block.ProperAncestors()
  {
    SeenOnChain(m, []);
  }

  lemma WithinLimits(limits: Limits, steps: seq<Step>, estimate: nat)
    requires Accepted(limits, steps) && InOrder(steps) && Run(EMPTY, steps).Estimate() == estimate
    ensures limits.Configurable() && limits.maxSize >= 10 ==> estimate <= limits.maxSize + 1
    ensures limits.Configurable() && limits.maxSize >= 10 && !CanOverrun(limits) ==> estimate <= limits.maxSize
  {
    hide Run, Accepted, Tally.Estimate, InOrder, CanOverrun;
    if limits.Configurable() && limits.maxSize >= 10 {
      SizeAlmostWithin(limits, steps);
      SizeLimitIff(limits);
    }
  }

  /** Filters through a block that is applied and empty. */
  method FilterOnBlock(tree: AltBlockTree, tmp: BlockIndex, pop: Candidates, limits: Limits,
                       executes: Execution)
    returns (r: Candidates, fits: bool, ghost at: (seq<nat>, seq<nat>, seq<nat>))
    requires tree.Valid() && tmp in tree.Nodes() && tree.activeTip == tmp && tmp.pnext == {} && tmp.bodyAdded
    requires tmp.pprev != null && forall k: Kind :: tmp.PayloadIds(k) == []
    requires Sized(pop)
    modifies tmp`atvIds, tmp`vtbIds, tmp`vbkIds, tree.payloadsIndex
    ensures tree.Valid() && tmp != tree.root && tmp.pprev.Sound() && tmp.pprev.Ancestors() <= tree.Nodes() - {tmp}
    ensures Picked(pop.context, at.0, r.context) && Picked(pop.vtbs, at.1, r.vtbs) && Picked(pop.atvs, at.2, r.atvs)
    ensures Fresh(r, tmp.pprev.Ancestors(), tree.finalized, limits)
    ensures NothingLost(executes, pop, r, at, limits, tmp.pprev.Ancestors(), tree.finalized)
    ensures BodyExecutes(executes, r)
    ensures fits <==> EstimateOf(r) <= limits.maxSize
    ensures limits.Configurable() && limits.maxSize >= 10 ==> EstimateOf(r) <= limits.maxSize + 1
    ensures limits.Configurable() && limits.maxSize >= 10 && !CanOverrun(limits) ==> fits
  {
    hide AltBlockTree.Valid, BlockPayloadMutator.Adding, BlockPayloadMutator.SeenBefore, Fresh, Picked, Run, Accepted;
    hide NothingLost, AllRefused, BodyExecutes, InOrder, Sized;
    hide Tally.Estimate, EstimateOf, BlockIndex.Ids, BlockIndex.PayloadIds, BlockIndex.Ancestors, BlockIndex.Sound, IdsOf;
    hide Distinct, Limits.Configurable, CanOverrun;
    var m := OpenMutator(tree, tmp);
    var context := new CountingContext(limits);
    ghost var steps;
    r, at, steps := FilterAll(m, context, pop, executes);
    fits := EstimateOf(r) <= limits.maxSize;
    WithinLimits(limits, steps, EstimateOf(r));
    FreshBody(m, r, limits);
    JustifyAll(m, executes, pop, r, at, limits);
    AddingFacts(m);
  }

  /** Filters through a temporary block on top of the active chain. */
  method FilterThroughBlock(tree: AltBlockTree, tmpHash: Hash, pop: Candidates, limits: Limits,
                            executes: Execution)
    returns (r: Candidates, fits: bool, ghost at: (seq<nat>, seq<nat>, seq<nat>))
    requires tree.Valid() && tree.activeTip.Sound() && tmpHash !in tree.blocks
    requires Sized(pop)
    modifies tree, tree.Nodes()`pnext, tree.Nodes()`level, tree.Nodes()`failedPop, tree.Nodes()`failedChild
    modifies tree.Nodes()`active, tree.payloadsIndex
    ensures tree.Valid() && tree.blocks == old(tree.blocks) && tree.activeTip == old(tree.activeTip)
    ensures tree.rejected == old(tree.rejected) && forall b <- tree.Nodes() :: b.level == old(b.level)
    ensures Picked(pop.context, at.0, r.context) && Picked(pop.vtbs, at.1, r.vtbs) && Picked(pop.atvs, at.2, r.atvs)
    ensures Fresh(r, old(tree.activeTip).Ancestors(), tree.finalized, limits)
    ensures NothingLost(executes, pop, r, at, limits, old(tree.activeTip).Ancestors(), tree.finalized)
    ensures BodyExecutes(executes, r)
    ensures fits <==> EstimateOf(r) <= limits.maxSize
    ensures limits.Configurable() && limits.maxSize >= 10 ==> EstimateOf(r) <= limits.maxSize + 1
    ensures limits.Configurable() && limits.maxSize >= 10 && !CanOverrun(limits) ==> fits
  {
    hide AltBlockTree.Valid, Fresh, NothingLost, BodyExecutes, Picked, EstimateOf, BlockIndex.Ids, BlockIndex.PayloadIds;
    hide BlockIndex.Ancestors, BlockIndex.Sound, Limits.Configurable, CanOverrun;
    var tmp := OpenTemporaryBlock(tree, tmpHash);
    assert tree.blocks[tmpHash] == tmp;
    r, fits, at := FilterOnBlock(tree, tmp, pop, limits, executes);
    tree.RemoveLeaf(tmp);
    assert tree.blocks == old(tree.blocks);
  }

  lemma NothingIsFresh(tree: AltBlockTree, limits: Limits)
    requires tree.activeTip.Sound()
    ensures Fresh(Candidates([], [], []), tree.activeTip.Ancestors(), tree.finalized, limits)
    ensures forall executes: Execution :: BodyExecutes(executes, Candidates([], [], []))
    ensures forall executes: Execution ::
              NothingLost(executes, Candidates([], [], []), Candidates([], [], []), ([], [], []), limits,
                          tree.activeTip.Ancestors(), tree.finalized)
    ensures Picked([], [], []) && EstimateOf(Candidates([], [], [])) == 10
  {
    CountSize(0);
  }

  /** Keeps of the candidates what can go into the next block: nothing twice, nothing that a
      block of the active chain or a final block holds and nothing whose commands fail, in the
      order given and within the count limits. The tree is left as it was. Whether the result
      is within the size limit is what the library asserts at the end. */
  method FilterInvalidPayloads(tree: AltBlockTree, tmpHash: Hash, pop: Candidates, limits: Limits,
                               executes: Execution)
    returns (r: Candidates, fits: bool, ghost at: (seq<nat>, seq<nat>, seq<nat>))
    requires tree.Valid() && tree.activeTip.Sound() && tmpHash !in tree.blocks
    requires Sized(pop)
    modifies tree, tree.Nodes()`pnext, tree.Nodes()`level, tree.Nodes()`failedPop, tree.Nodes()`failedChild
    modifies tree.Nodes()`active, tree.payloadsIndex
    ensures tree.Valid() && tree.blocks == old(tree.blocks) && tree.activeTip == old(tree.activeTip)
    ensures forall b <- tree.Nodes() :: b.level == old(b.level) && b.failedPop == old(b.failedPop)
                                        && b.failedChild == old(b.failedChild) && b.active == old(b.active)
                                        && b.pnext == old(b.pnext)
    ensures tree.tips == old(tree.tips) && tree.appliedBlockCount == old(tree.appliedBlockCount)
    ensures tree.rejected == old(tree.rejected)
    ensures forall i: Id, h: Hash :: tree.payloadsIndex.Holds(i, h) <==> old(tree.payloadsIndex.Holds(i, h))
    ensures Picked(pop.context, at.0, r.context) && Picked(pop.vtbs, at.1, r.vtbs) && Picked(pop.atvs, at.2, r.atvs)
    ensures Fresh(r, old(tree.activeTip).Ancestors(), tree.finalized, limits)
    ensures NothingLost(executes, pop, r, at, limits, old(tree.activeTip).Ancestors(), tree.finalized)
    ensures BodyExecutes(executes, r)
    ensures pop != Candidates([], [], []) ==> (fits <==> EstimateOf(r) <= limits.maxSize)
    ensures limits.Configurable() && limits.maxSize >= 10 ==> EstimateOf(r) <= limits.maxSize + 1
    ensures limits.Configurable() && limits.maxSize >= 10 && !CanOverrun(limits) ==> fits
  {
    hide AltBlockTree.Valid, Fresh, NothingLost, BodyExecutes, Picked, EstimateOf, BlockIndex.Ancestors, BlockIndex.Sound;
    hide Limits.Configurable, CanOverrun, Record.PopFails, Record.Fails, TipsOf, BlockIndex.Ids, PayloadsIndex.Holds, PayloadsIndex.Valid, Sized;
    if pop == Candidates([], [], []) {
      NothingIsFresh(tree, limits);
      r, fits, at := pop, true, ([], [], []);
      return;
    }
    ghost var able, before := Able(tree.Nodes()), RecordOf(tree);
    RecordFixesTree(tree);
    r, fits, at := FilterThroughBlock(tree, tmpHash, pop, limits, executes);
    assert RecordOf(tree) == before;
    RecordFixesTree(tree);
    assert Able(tree.Nodes()) == able;
  }
}
