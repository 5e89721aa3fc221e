/** The mempool's books: which payloads wait under which VBK block, the maps that find them by
    id, and the payloads that cannot be connected yet. The outcomes of all validity checks are
    parameters. */
module MemPools {
  import opened Codec
  import opened BlockIndexes
  import opened ValueSortedMaps
  import opened Wrappers

  datatype VbkBlock = VbkBlock(id: Id, height: int)

  /** An ATV or a VTB: its id and the VBK block that it belongs to. */
  datatype Payload = Payload(id: Id, block: VbkBlock)

  datatype Relation = Relation(header: VbkBlock, vtbs: seq<Payload>, atvs: seq<Payload>) {
    predicate Empty() {
      vtbs == [] && atvs == []
    }
  }

  // ---------------------------------------------------------------- lists and their index

  /** The payloads that pass a check of their id, in order. */
  function Passing(ps: seq<Payload>, good: Id -> bool): (r: seq<Payload>)
    ensures forall p :: p in r <==> p in ps && good(p.id)
  {
    if ps == [] then [] else (if good(ps[0].id) then [ps[0]] else []) + Passing(ps[1..], good)
  }

  function FailingIds(ps: seq<Payload>, good: Id -> bool): set<Id> {
    set p <- ps | !good(p.id) :: p.id
  }

  /** Every listed payload lies under its own block and is stored, and every stored id is
      listed under the block it belongs to. */
  ghost predicate Indexed(lists: map<Id, seq<Payload>>, stored: map<Id, Payload>, blockOf: Id -> Id) {
    && (forall k <- lists, p <- lists[k] :: p.block.id == k && blockOf(p.id) == k && p.id in stored)
    && (forall id <- stored :: stored[id].id == id && stored[id].block.id == blockOf(id) && IsListed(lists, blockOf(id), id))
  }

  ghost predicate IsListed(lists: map<Id, seq<Payload>>, k: Id, id: Id) {
    k in lists && exists p <- lists[k] :: p.id == id
  }

  lemma NothingIndexed(lists: map<Id, seq<Payload>>, stored: map<Id, Payload>, blockOf: Id -> Id)
    requires lists == map[] && stored == map[]
    ensures Indexed(lists, stored, blockOf)
  {
  }

  lemma NewListIndexed(lists: map<Id, seq<Payload>>, stored: map<Id, Payload>, blockOf: Id -> Id, k: Id)
    requires Indexed(lists, stored, blockOf) && k !in lists
    ensures Indexed(lists[k := []], stored, blockOf)
  {
    forall id <- stored
      ensures IsListed(lists[k := []], blockOf(id), id)
    {
      assert IsListed(lists, blockOf(id), id);
    }
  }

  lemma PushedIndexed(lists: map<Id, seq<Payload>>, stored: map<Id, Payload>, blockOf: Id -> Id, p: Payload)
    requires Indexed(lists, stored, blockOf) && p.block.id in lists && blockOf(p.id) == p.block.id
    ensures Indexed(lists[p.block.id := lists[p.block.id] + [p]], stored[p.id := p], blockOf)
  {
    var k := p.block.id;
    var lists' := lists[k := lists[k] + [p]];
    assert p in lists'[k];
    forall id <- stored[p.id := p]
      ensures IsListed(lists', blockOf(id), id)
    {
      if id != p.id {
        assert IsListed(lists, blockOf(id), id);
        var q :| q in lists[blockOf(id)] && q.id == id;
        assert q in lists'[blockOf(id)];
      }
    }
  }

  lemma FilteredIndexed(lists: map<Id, seq<Payload>>, stored: map<Id, Payload>, blockOf: Id -> Id, k: Id, good: Id -> bool)
    requires Indexed(lists, stored, blockOf) && k in lists
    ensures Indexed(lists[k := Passing(lists[k], good)], stored - FailingIds(lists[k], good), blockOf)
  {
    var lists', gone := lists[k := Passing(lists[k], good)], FailingIds(lists[k], good);
    forall id <- stored - gone
      ensures IsListed(lists', blockOf(id), id)
    {
      assert IsListed(lists, blockOf(id), id);
      var q :| q in lists[blockOf(id)] && q.id == id;
      assert q in lists'[blockOf(id)];
    }
    forall j: Id, p: Payload | j in lists' && p in lists'[j]
      ensures p.block.id == j && blockOf(p.id) == j && p.id in stored - gone
    {
      assert p in lists[j];
    }
  }

  lemma DroppedIndexed(lists: map<Id, seq<Payload>>, stored: map<Id, Payload>, blockOf: Id -> Id, k: Id)
    requires Indexed(lists, stored, blockOf) && k in lists && lists[k] == []
    ensures Indexed(lists - {k}, stored, blockOf)
  {
    forall id <- stored
      ensures IsListed(lists - {k}, blockOf(id), id)
    {
      assert IsListed(lists, blockOf(id), id);
    }
  }

  // ---------------------------------------------------------------- the mempool

  /** What the checks say; the contextual ones depend on the id alone during one pass. */
  datatype Checks = Checks(
    tooOld: Payload -> bool, atvStateless: Payload -> bool, vtbStateless: Payload -> bool,
    atvAccepted: Payload -> bool, vtbAccepted: Payload -> bool,
    blockTooOld: VbkBlock -> bool, blockStateless: VbkBlock -> bool, blockAccepted: VbkBlock -> bool,
    blockStable: VbkBlock -> bool)

  datatype Stale = Stale(atvValid: Id -> bool, vtbValid: Id -> bool, blockValid: Id -> bool,
                         horizon: int, known: Id -> bool)

  /** What is in flight is ordered by height alone, so the sorted list can keep a payload that is
      no longer in flight, in place of one of the same height that is. */
  lemma InFlightListCanGoStale()
    ensures exists ops: seq<Op<Id, Payload>>, s: seq<Payload>, m: map<Id, Payload> ::
              Reached(LowerBlock, ops, s, m) && !HoldsValues(s, m)
  {
    hide Reached, HoldsValues;
    var a, b := Payload([0], VbkBlock([0], 0)), Payload([1], VbkBlock([0], 0));
    assert Equivalent(LowerBlock, a, b) && a != b;
    SortedHoldsValuesIff(LowerBlock, a.id, b.id);
  }

  // ---------------------------------------------------------------- what the operations do to relations

  /** The relations with one for the block. */
  function Ensured(rels: map<Id, Relation>, block: VbkBlock): (r: map<Id, Relation>)
    ensures block.id in r
  {
    if block.id in rels then rels else rels[block.id := Relation(block, [], [])]
  }

  function WithAtv(rels: map<Id, Relation>, atv: Payload): map<Id, Relation> {
    var all := Ensured(rels, atv.block);
    var rel := all[atv.block.id];
    all[atv.block.id := rel.(atvs := rel.atvs + [atv])]
  }

  function WithVtb(rels: map<Id, Relation>, vtb: Payload): map<Id, Relation> {
    var all := Ensured(rels, vtb.block);
    var rel := all[vtb.block.id];
    all[vtb.block.id := rel.(vtbs := rel.vtbs + [vtb])]
  }

  /** What cleaning leaves of a relation. One that has fallen behind the horizon loses its ATVs
      and goes if it has no VTBs; stale payloads go; an empty relation of a known block goes. */
  function Cleaned(rel: Relation, s: Stale): Option<Relation> {
    var fallenBehind := s.horizon > rel.header.height;
    if fallenBehind && rel.vtbs == [] then None
    else WithoutStale(if fallenBehind then rel.(atvs := []) else rel, s)
  }

  function WithoutStale(rel: Relation, s: Stale): Option<Relation> {
    var vtbs, atvs := Passing(rel.vtbs, s.vtbValid), Passing(rel.atvs, s.atvValid);
    if s.known(rel.header.id) && vtbs == [] && atvs == [] then None else Some(rel.(vtbs := vtbs, atvs := atvs))
  }

  function Cleaning(s: Stale): Relation -> Option<Relation> {
    rel => Cleaned(rel, s)
  }

  lemma CleaningIs(s: Stale, rel: Relation)
    ensures Cleaning(s)(rel) == Cleaned(rel, s)
  {
  }

  /** What is left of a relation when the payloads of an accepted block are taken out. */
  function Stripped(rel: Relation, vbkIds: set<Id>, vtbIds: set<Id>, atvIds: set<Id>): Option<Relation> {
    var vtbs := Passing(rel.vtbs, NotIn(vtbIds));
    var atvs := Passing(rel.atvs, NotIn(atvIds));
    if rel.header.id in vbkIds && vtbs == [] && atvs == [] then None else Some(rel.(vtbs := vtbs, atvs := atvs))
  }

  function Stripping(vbkIds: set<Id>, vtbIds: set<Id>, atvIds: set<Id>): Relation -> Option<Relation> {
    rel => Stripped(rel, vbkIds, vtbIds, atvIds)
  }

  lemma StrippingIs(vbkIds: set<Id>, vtbIds: set<Id>, atvIds: set<Id>, rel: Relation)
    ensures Stripping(vbkIds, vtbIds, atvIds)(rel) == Stripped(rel, vbkIds, vtbIds, atvIds)
  {
  }

  function NotIn(ids: set<Id>): Id -> bool {
    id => id !in ids
  }

  /** The relations after some of them have been replaced or dropped. */
  function Mapped(rels: map<Id, Relation>, done: set<Id>, f: Relation -> Option<Relation>): map<Id, Relation> {
    map k | k in rels && (k in done ==> f(rels[k]).Some?) :: if k in done then f(rels[k]).value else rels[k]
  }

  function Updated(rels: map<Id, Relation>, k: Id, r: Option<Relation>): map<Id, Relation> {
    match r
    case None => rels - {k}
    case Some(rel) => rels[k := rel]
  }

  lemma UpdatedIs(rels: map<Id, Relation>, k: Id, rel: Relation)
    requires k in rels
    ensures rels[k := rel] - {k} == Updated(rels, k, None)
  {
  }

  lemma UpdatedTwice(rels: map<Id, Relation>, k: Id, rel: Relation, r: Option<Relation>)
    requires k in rels
    ensures Updated(rels[k := rel], k, r) == Updated(rels, k, r)
    ensures rels[k] == rel ==> rels[k := rel] == rels
  {
  }

  lemma MappedNext(rels: map<Id, Relation>, done: set<Id>, f: Relation -> Option<Relation>, k: Id)
    requires k in rels && k !in done
    ensures k in Mapped(rels, done, f) && Mapped(rels, done, f)[k] == rels[k]
    ensures Updated(Mapped(rels, done, f), k, f(rels[k])) == Mapped(rels, done + {k}, f)
  {
    var before, after := Mapped(rels, done, f), Mapped(rels, done + {k}, f);
    assert Updated(before, k, f(rels[k])).Keys == after.Keys;
  }

  /** The ids of the payloads that pass both checks. */
  function PassedIds(ps: seq<Payload>, stateless: Payload -> bool, accepted: Payload -> bool): (r: set<Id>)
    ensures forall id <- r :: exists p <- ps :: p.id == id
  {
    set p <- ps | stateless(p) && accepted(p) :: p.id
  }

  lemma PassedNext(ps: seq<Payload>, i: nat, stateless: Payload -> bool, accepted: Payload -> bool)
    requires i < |ps|
    ensures PassedIds(ps[..i + 1], stateless, accepted)
            == PassedIds(ps[..i], stateless, accepted) + if stateless(ps[i]) && accepted(ps[i]) then {ps[i].id} else {}
  {
    assert ps[..i + 1] == ps[..i] + [ps[i]];
  }

  lemma NonePassed(ps: seq<Payload>, stateless: Payload -> bool, accepted: Payload -> bool)
    requires ps == []
    ensures PassedIds(ps, stateless, accepted) == {}
  {
  }

  lemma PassingNext(ps: seq<Payload>, i: nat, good: Id -> bool)
    requires i < |ps|
    ensures Passing(ps[i..], good) == (if good(ps[i].id) then [ps[i]] else []) + Passing(ps[i + 1..], good)
    ensures FailingIds(ps[i..], good) == (if good(ps[i].id) then {} else {ps[i].id}) + FailingIds(ps[i + 1..], good)
  {
    assert ps[i..] == [ps[i]] + ps[i + 1..];
  }

  lemma NonePassing(ps: seq<Payload>, good: Id -> bool)
    requires ps == []
    ensures Passing(ps, good) == [] && FailingIds(ps, good) == {}
  {
  }

  lemma MappedAt(rels: map<Id, Relation>, f: Relation -> Option<Relation>, k: Id)
    ensures var m := Mapped(rels, rels.Keys, f);
            (k in m <==> k in rels && f(rels[k]).Some?) && (k in m ==> m[k] == f(rels[k]).value)
  {
  }

  lemma NothingMapped(rels: map<Id, Relation>, f: Relation -> Option<Relation>)
    ensures Mapped(rels, {}, f) == rels
  {
  }

  lemma {:induction false} NothingPasses(ps: seq<Payload>, good: Id -> bool)
    requires forall id :: !good(id)
    ensures Passing(ps, good) == []
  {
    if ps != [] {
      NothingPasses(ps[1..], good);
    }
  }

  datatype Status = Valid | FailedStateful | FailedStateless

  function LowerBlock(a: Payload, b: Payload): bool {
    a.block.height < b.block.height
  }

  function LowerHeight(a: VbkBlock, b: VbkBlock): bool {
    a.height < b.height
  }

  /** Takes the payloads whose ids do not pass out of a list and out of a store. */
  method Discard(all: seq<Payload>, stored: map<Id, Payload>, good: Id -> bool)
    returns (kept: seq<Payload>, left: map<Id, Payload>)
    ensures kept == Passing(all, good) && left == stored - FailingIds(all, good)
  {
    hide Passing, FailingIds;
    kept, left := [], stored;
    for i := 0 to |all|
      invariant kept + Passing(all[i..], good) == Passing(all, good)
      invariant left - FailingIds(all[i..], good) == stored - FailingIds(all, good)
    {
      PassingNext(all, i, good);
      if good(all[i].id) {
        kept := kept + [all[i]];
      } else {
        assert left - {all[i].id} - FailingIds(all[i + 1..], good) == left - ({all[i].id} + FailingIds(all[i + 1..], good));
        left := left - {all[i].id};
      }
    }
    NonePassing(all[|all|..], good);
  }

  /** The entries of an in-flight map whose values pass. */
  function Kept<V>(entries: map<Id, V>, good: V -> bool): map<Id, V> {
    map k | k in entries && good(entries[k]) :: entries[k]
  }

  /** The entries that are left when some keys have been looked at. */
  function LeftOf<V>(entries: map<Id, V>, done: set<Id>, good: V -> bool): map<Id, V> {
    map k | k in entries && (k in done ==> good(entries[k])) :: entries[k]
  }

  lemma LeftNext<V>(entries: map<Id, V>, done: set<Id>, k: Id, good: V -> bool)
    requires k in entries && k !in done
    ensures var m := LeftOf(entries, done, good);
            k in m && (if good(m[k]) then m else m - {k}) == LeftOf(entries, done + {k}, good)
  {
    assert entries[k] == LeftOf(entries, done, good)[k];
  }

  lemma LeftAll<V>(entries: map<Id, V>, done: set<Id>, good: V -> bool)
    ensures done == {} ==> LeftOf(entries, done, good) == entries
    ensures done == entries.Keys ==> LeftOf(entries, done, good) == Kept(entries, good)
  {
  }

  /** Erases the values in flight that no longer pass. */
  method CleanStale<V(!new)>(m: ValueSortedMap<Id, V>, good: V -> bool)
    requires m.Valid()
    modifies m
    ensures m.Valid() && m.entries == Kept(old(m.entries), good)
    ensures forall v <- m.sorted :: v in old(m.sorted)
  {
    hide ValueSortedMap.Valid, Kept;
    var todo := m.entries.Keys;
    ghost var done: set<Id> := {};
    LeftAll(m.entries, done, good);
    while todo != {}
      invariant m.Valid() && todo !! done && todo + done == old(m.entries).Keys
      invariant m.entries == LeftOf(old(m.entries), done, good)
      invariant forall v <- m.sorted :: v in old(m.sorted)
    {
      var k :| k in todo;
      LeftNext(old(m.entries), done, k, good);
      if !good(m.entries[k]) {
        m.Erase(k);
      }
      todo, done := todo - {k}, done + {k};
    }
    LeftAll(old(m.entries), done, good);
  }

  class MemPool {
    var relations: map<Id, Relation>
    var vbkblocks: map<Id, VbkBlock>
    var storedAtvs: map<Id, Payload>
    var storedVtbs: map<Id, Payload>
    const atvsInFlight: ValueSortedMap<Id, Payload>
    const vtbsInFlight: ValueSortedMap<Id, Payload>
    const vbkblocksInFlight: ValueSortedMap<Id, VbkBlock>
    /** The block that an id commits to: ids are hashes of the contents. */
    ghost const atvBlock: Id -> Id
    ghost const vtbBlock: Id -> Id

    function AtvLists(): map<Id, seq<Payload>>
      reads this`relations
    {
      map k | k in relations :: relations[k].atvs
    }

    function VtbLists(): map<Id, seq<Payload>>
      reads this`relations
    {
      map k | k in relations :: relations[k].vtbs
    }

    /** The relations and the known blocks have the same keys, and each is the id of its block. */
    ghost predicate SameBlocks()
      reads this`relations, this`vbkblocks
    {
      && relations.Keys == vbkblocks.Keys
      && (forall k <- relations :: relations[k].header.id == k && vbkblocks[k].id == k)
    }

    /** The books agree. */
    ghost predicate Agree()
      reads this
    {
      && SameBlocks()
      && Indexed(AtvLists(), storedAtvs, atvBlock) && Indexed(VtbLists(), storedVtbs, vtbBlock)
    }

    /** What is in flight names the block that its id commits to. */
    ghost predicate InFlightOk()
      reads atvsInFlight, vtbsInFlight, vbkblocksInFlight
    {
      && atvsInFlight != vtbsInFlight
      && atvsInFlight.Valid() && vtbsInFlight.Valid() && vbkblocksInFlight.Valid()
      && (forall p <- atvsInFlight.sorted :: p.block.id == atvBlock(p.id))
      && (forall p <- vtbsInFlight.sorted :: p.block.id == vtbBlock(p.id))
    }

    constructor (ghost atvBlock: Id -> Id, ghost vtbBlock: Id -> Id)
      ensures Agree() && InFlightOk() && fresh(atvsInFlight) && fresh(vtbsInFlight) && fresh(vbkblocksInFlight)
      ensures relations == map[] && this.atvBlock == atvBlock && this.vtbBlock == vtbBlock
    {
      relations, vbkblocks, storedAtvs, storedVtbs := map[], map[], map[], map[];
      this.atvBlock, this.vtbBlock := atvBlock, vtbBlock;
      atvsInFlight := new ValueSortedMap<Id, Payload>(LowerBlock);
      vtbsInFlight := new ValueSortedMap<Id, Payload>(LowerBlock);
      vbkblocksInFlight := new ValueSortedMap<Id, VbkBlock>(LowerHeight);
    }

    /** Starts an empty relation for a known block. */
    method AddRelation(block: VbkBlock)
      requires block.id !in relations
      modifies this`relations
      ensures relations == old(relations)[block.id := Relation(block, [], [])]
      ensures AtvLists() == old(AtvLists())[block.id := []] && VtbLists() == old(VtbLists())[block.id := []]
    {
      relations := relations[block.id := Relation(block, [], [])];
    }

    /** The relation of a block, created with its book entry if there is none. */
    method GetOrPutVbkRelation(block: VbkBlock)
      requires Agree()
      modifies this`relations, this`vbkblocks
      ensures Agree() && relations == Ensured(old(relations), block)
    {
      hide Indexed;
      if block.id !in vbkblocks {
        vbkblocks := vbkblocks[block.id := block];
      }
      if block.id !in relations {
        NewListIndexed(AtvLists(), storedAtvs, atvBlock, block.id);
        NewListIndexed(VtbLists(), storedVtbs, vtbBlock, block.id);
        AddRelation(block);
      }
    }

    // ---------------------------------------------------------------- cleaning up

    /** Takes the Atvs whose ids do not pass out of one relation and out of the store. */
    method FilterAtvs(k: Id, good: Id -> bool)
      requires Agree() && k in relations
      modifies this`relations, this`storedAtvs
      ensures Agree()
      ensures relations == old(relations)[k := old(relations)[k].(atvs := Passing(old(relations)[k].atvs, good))]
      ensures storedAtvs.Keys <= old(storedAtvs).Keys
    {
      hide Indexed, MemPool.SameBlocks, Passing;
      FilteredIndexed(AtvLists(), storedAtvs, atvBlock, k, good);
      var kept;
      kept, storedAtvs := Discard(relations[k].atvs, storedAtvs, good);
      SetAtvs(k, kept);
    }

    /** Takes the Vtbs whose ids do not pass out of one relation and out of the store. */
    method FilterVtbs(k: Id, good: Id -> bool)
      requires Agree() && k in relations
      modifies this`relations, this`storedVtbs
      ensures Agree()
      ensures relations == old(relations)[k := old(relations)[k].(vtbs := Passing(old(relations)[k].vtbs, good))]
      ensures storedVtbs.Keys <= old(storedVtbs).Keys
    {
      hide Indexed, MemPool.SameBlocks, Passing;
      FilteredIndexed(VtbLists(), storedVtbs, vtbBlock, k, good);
      var kept;
      kept, storedVtbs := Discard(relations[k].vtbs, storedVtbs, good);
      SetVtbs(k, kept);
    }

    /** Forgets a block that has nothing left. */
    method Drop(k: Id)
      requires Agree() && k in relations && relations[k].Empty()
      modifies this`relations, this`vbkblocks
      ensures Agree() && relations == old(relations) - {k}
    {
      hide Indexed;
      DroppedIndexed(AtvLists(), storedAtvs, atvBlock, k);
      DroppedIndexed(VtbLists(), storedVtbs, vtbBlock, k);
      ghost var atvs, vtbs := AtvLists(), VtbLists();
      vbkblocks := vbkblocks - {k};
      relations := relations - {k};
      assert AtvLists() == atvs - {k} && VtbLists() == vtbs - {k};
    }

    /** Drops the ATVs of a relation. */
    method DropAtvs(k: Id)
      requires Agree() && k in relations
      modifies this`relations, this`storedAtvs
      ensures Agree() && relations == old(relations)[k := old(relations)[k].(atvs := [])]
      ensures storedAtvs.Keys <= old(storedAtvs).Keys
    {
      hide MemPool.Agree, Passing;
      NothingPasses(relations[k].atvs, _ => false);
      FilterAtvs(k, _ => false);
    }

    /** Drops the payloads of a relation that are stale, and then the relation if it is empty. */
    method DropStale(k: Id, s: Stale)
      requires Agree() && k in relations
      modifies this`relations, this`vbkblocks, this`storedAtvs, this`storedVtbs
      ensures Agree() && relations == Updated(old(relations), k, WithoutStale(old(relations)[k], s))
      ensures storedAtvs.Keys <= old(storedAtvs).Keys && storedVtbs.Keys <= old(storedVtbs).Keys
    {
      hide MemPool.Agree, Passing;
      ghost var before := relations;
      FilterVtbs(k, s.vtbValid);
      FilterAtvs(k, s.atvValid);
      assert relations == before[k := relations[k]];
      if s.known(relations[k].header.id) && relations[k].Empty() {
        Drop(k);
      }
    }

    method CleanRelation(k: Id, s: Stale)
      requires Agree() && k in relations
      modifies this`relations, this`vbkblocks, this`storedAtvs, this`storedVtbs
      ensures Agree() && relations == Updated(old(relations), k, Cleaned(old(relations)[k], s))
      ensures storedAtvs.Keys <= old(storedAtvs).Keys && storedVtbs.Keys <= old(storedVtbs).Keys
    {
      hide MemPool.Agree, WithoutStale, Updated;
      ghost var before := relations;
      if s.horizon > relations[k].header.height {
        DropAtvs(k);
        if relations[k].vtbs == [] {
          UpdatedIs(before, k, relations[k]);
          Drop(k);
          return;
        }
      }
      ghost var rel := relations[k];
      DropStale(k, s);
      UpdatedTwice(before, k, rel, WithoutStale(rel, s));
    }

    /** Drops what is stale from every relation, in any order. */
    method CleanRelations(s: Stale)
      requires Agree()
      modifies this`relations, this`vbkblocks, this`storedAtvs, this`storedVtbs
      ensures Agree()
      ensures relations == Mapped(old(relations), old(relations).Keys, Cleaning(s))
      ensures storedAtvs.Keys <= old(storedAtvs).Keys && storedVtbs.Keys <= old(storedVtbs).Keys
    {
      hide MemPool.Agree, Cleaned, Cleaning, Updated, Mapped;
      ghost var f := Cleaning(s);
      NothingMapped(relations, f);
      var todo := relations.Keys;
      ghost var done: set<Id> := {};
      while todo != {}
        invariant Agree() && done !! todo && done + todo == old(relations).Keys
        invariant relations == Mapped(old(relations), done, f)
        invariant storedAtvs.Keys <= old(storedAtvs).Keys && storedVtbs.Keys <= old(storedVtbs).Keys
      {
        var k :| k in todo;
        MappedNext(old(relations), done, f, k);
        CleanRelation(k, s);
        CleaningIs(s, old(relations)[k]);
        todo, done := todo - {k}, done + {k};
      }
      assert done == old(relations).Keys;
    }

    method StripRelation(k: Id, vbkIds: set<Id>, vtbIds: set<Id>, atvIds: set<Id>)
      requires Agree() && k in relations
      modifies this`relations, this`vbkblocks, this`storedAtvs, this`storedVtbs
      ensures Agree() && relations == Updated(old(relations), k, Stripped(old(relations)[k], vbkIds, vtbIds, atvIds))
    {
      hide MemPool.Agree, Passing, NotIn;
      ghost var before := relations;
      FilterAtvs(k, NotIn(atvIds));
      FilterVtbs(k, NotIn(vtbIds));
      assert relations == before[k := relations[k]];
      if relations[k].header.id in vbkIds && relations[k].Empty() {
        Drop(k);
      }
    }

    /** Takes the payloads of an accepted block out of every relation, in any order. */
    method StripRelations(vbkIds: set<Id>, vtbIds: set<Id>, atvIds: set<Id>)
      requires Agree()
      modifies this`relations, this`vbkblocks, this`storedAtvs, this`storedVtbs
      ensures Agree()
      ensures relations == Mapped(old(relations), old(relations).Keys, Stripping(vbkIds, vtbIds, atvIds))
    {
      hide MemPool.Agree, Stripped, Stripping, Updated, Mapped;
      ghost var f := Stripping(vbkIds, vtbIds, atvIds);
      NothingMapped(relations, f);
      var todo := relations.Keys;
      ghost var done: set<Id> := {};
      while todo != {}
        invariant Agree() && done !! todo && done + todo == old(relations).Keys
        invariant relations == Mapped(old(relations), done, f)
      {
        var k :| k in todo;
        MappedNext(old(relations), done, f, k);
        StripRelation(k, vbkIds, vtbIds, atvIds);
        StrippingIs(vbkIds, vtbIds, atvIds, old(relations)[k]);
        todo, done := todo - {k}, done + {k};
      }
      assert done == old(relations).Keys;
    }

    /** Every stored payload is listed in the relation of its block, and the other way round. */
    lemma StoredExactlyWhenListed(id: Id)
      requires Agree()
      ensures id in storedAtvs <==> exists k <- relations, p <- relations[k].atvs :: p.id == id
      ensures id in storedVtbs <==> exists k <- relations, p <- relations[k].vtbs :: p.id == id
      ensures id in storedAtvs ==> storedAtvs[id].id == id && storedAtvs[id].block.id in relations
                                   && exists p <- relations[storedAtvs[id].block.id].atvs :: p.id == id
      ensures id in storedVtbs ==> storedVtbs[id].id == id && storedVtbs[id].block.id in relations
                                   && exists p <- relations[storedVtbs[id].block.id].vtbs :: p.id == id
    {
      if id in storedAtvs {
        assert IsListed(AtvLists(), atvBlock(id), id);
      }
      if id in storedVtbs {
        assert IsListed(VtbLists(), vtbBlock(id), id);
      }
      if k, p :| k in relations && p in relations[k].atvs && p.id == id {
        assert p in AtvLists()[k];
      }
      if k, p :| k in relations && p in relations[k].vtbs && p.id == id {
        assert p in VtbLists()[k];
      }
    }

    lemma StrippedIdsAreGone(rels: map<Id, Relation>, vbkIds: set<Id>, vtbIds: set<Id>, atvIds: set<Id>)
      requires Agree() && relations == Mapped(rels, rels.Keys, Stripping(vbkIds, vtbIds, atvIds))
      ensures storedAtvs.Keys !! atvIds && storedVtbs.Keys !! vtbIds
    {
      forall id: Id
        ensures id in storedAtvs ==> id !in atvIds
        ensures id in storedVtbs ==> id !in vtbIds
      {
        StoredExactlyWhenListed(id);
      }
    }

    /** Drops everything stale, in the books and in flight. Afterwards there are as many
        relations as known blocks. */
    method CleanUp(s: Stale)
      requires Agree() && InFlightOk()
      modifies this`relations, this`vbkblocks, this`storedAtvs, this`storedVtbs
      modifies atvsInFlight, vtbsInFlight, vbkblocksInFlight
      ensures Agree() && InFlightOk() && |relations| == |vbkblocks|
      ensures relations == Mapped(old(relations), old(relations).Keys, Cleaning(s))
      ensures storedAtvs.Keys <= old(storedAtvs).Keys && storedVtbs.Keys <= old(storedVtbs).Keys
      ensures atvsInFlight.entries == Kept(old(atvsInFlight.entries), (p: Payload) => s.atvValid(p.id))
      ensures vtbsInFlight.entries == Kept(old(vtbsInFlight.entries), (p: Payload) => s.vtbValid(p.id))
      ensures vbkblocksInFlight.entries == Kept(old(vbkblocksInFlight.entries), (b: VbkBlock) => s.blockValid(b.id))
      ensures forall p <- atvsInFlight.sorted :: p in old(atvsInFlight.sorted)
      ensures forall p <- vtbsInFlight.sorted :: p in old(vtbsInFlight.sorted)
    {
      hide Indexed, Mapped, Kept, ValueSortedMap.Valid;
      CleanRelations(s);
      CleanStale(vtbsInFlight, (p: Payload) => s.vtbValid(p.id));
      CleanStale(atvsInFlight, (p: Payload) => s.atvValid(p.id));
      CleanStale(vbkblocksInFlight, (b: VbkBlock) => s.blockValid(b.id));
      assert |relations| == |relations.Keys| == |vbkblocks.Keys| == |vbkblocks|;
    }

    /** Takes the payloads of an accepted block out of the mempool, cleans up, and tries what is
        in flight again. Only a payload that was in flight can bring a removed id back, and what
        was neither removed nor stale is still there. */
    method RemoveAll(vbkIds: set<Id>, vtbIds: set<Id>, atvIds: set<Id>, s: Stale, c: Checks)
      requires Agree() && InFlightOk()
      modifies this`relations, this`vbkblocks, this`storedAtvs, this`storedVtbs
      modifies atvsInFlight, vtbsInFlight, vbkblocksInFlight
      ensures Agree() && InFlightOk()
      ensures forall id <- storedAtvs :: id !in atvIds || exists p <- old(atvsInFlight.sorted) :: p.id == id
      ensures forall id <- storedVtbs :: id !in vtbIds || exists p <- old(vtbsInFlight.sorted) :: p.id == id
      ensures forall k <- old(relations), p <- old(relations)[k].atvs ::
                p.id !in atvIds && s.atvValid(p.id) && s.horizon <= old(relations)[k].header.height ==> p.id in storedAtvs
      ensures forall k <- old(relations), p <- old(relations)[k].vtbs ::
                p.id !in vtbIds && s.vtbValid(p.id) ==> p.id in storedVtbs
    {
      hide Indexed, Mapped, Stripping, Cleaning, ValueSortedMap.Valid, MemPool.Agree;
      StripRelations(vbkIds, vtbIds, atvIds);
      StrippedIdsAreGone(old(relations), vbkIds, vtbIds, atvIds);
      ghost var stripped := relations;
      CleanUp(s);
      OthersSurvive(old(relations), stripped, vbkIds, vtbIds, atvIds, s);
      TryConnectPayloads(c);
    }

    lemma OthersSurvive(rels: map<Id, Relation>, stripped: map<Id, Relation>, vbkIds: set<Id>, vtbIds: set<Id>,
                        atvIds: set<Id>, s: Stale)
      requires Agree() && stripped == Mapped(rels, rels.Keys, Stripping(vbkIds, vtbIds, atvIds))
      requires relations == Mapped(stripped, stripped.Keys, Cleaning(s))
      ensures forall k <- rels, p <- rels[k].atvs ::
                p.id !in atvIds && s.atvValid(p.id) && s.horizon <= rels[k].header.height ==> p.id in storedAtvs
      ensures forall k <- rels, p <- rels[k].vtbs :: p.id !in vtbIds && s.vtbValid(p.id) ==> p.id in storedVtbs
    {
      hide Mapped, Agree, Passing;
      forall k, p | k in rels && p in rels[k].atvs && p.id !in atvIds && s.atvValid(p.id)
                    && s.horizon <= rels[k].header.height
        ensures p.id in storedAtvs
      {
        MappedAt(rels, Stripping(vbkIds, vtbIds, atvIds), k);
        MappedAt(stripped, Cleaning(s), k);
        StoredExactlyWhenListed(p.id);
      }
      forall k, p | k in rels && p in rels[k].vtbs && p.id !in vtbIds && s.vtbValid(p.id)
        ensures p.id in storedVtbs
      {
        MappedAt(rels, Stripping(vbkIds, vtbIds, atvIds), k);
        MappedAt(stripped, Cleaning(s), k);
        StoredExactlyWhenListed(p.id);
      }
    }

    method Clear()
      requires Agree() && InFlightOk()
      modifies this`relations, this`vbkblocks, this`storedAtvs, this`storedVtbs
      modifies atvsInFlight, vtbsInFlight, vbkblocksInFlight
      ensures Agree() && InFlightOk()
      ensures relations == map[] && vbkblocks == map[] && storedAtvs == map[] && storedVtbs == map[]
      ensures atvsInFlight.entries == map[] && vtbsInFlight.entries == map[] && vbkblocksInFlight.entries == map[]
    {
      hide Indexed, ValueSortedMap.Valid;
      relations, vbkblocks, storedAtvs, storedVtbs := map[], map[], map[], map[];
      NothingIndexed(AtvLists(), storedAtvs, atvBlock);
      NothingIndexed(VtbLists(), storedVtbs, vtbBlock);
      atvsInFlight.Clear();
      vtbsInFlight.Clear();
      vbkblocksInFlight.Clear();
    }

    // ---------------------------------------------------------------- submitting

    /** Replaces the ATVs of one relation. */
    method SetAtvs(k: Id, list: seq<Payload>)
      requires k in relations && SameBlocks()
      modifies this`relations
      ensures SameBlocks()
      ensures relations == old(relations)[k := old(relations)[k].(atvs := list)]
      ensures AtvLists() == old(AtvLists())[k := list] && VtbLists() == old(VtbLists())
    {
      relations := relations[k := relations[k].(atvs := list)];
    }

    method SetVtbs(k: Id, list: seq<Payload>)
      requires k in relations && SameBlocks()
      modifies this`relations
      ensures SameBlocks()
      ensures relations == old(relations)[k := old(relations)[k].(vtbs := list)]
      ensures VtbLists() == old(VtbLists())[k := list] && AtvLists() == old(AtvLists())
    {
      relations := relations[k := relations[k].(vtbs := list)];
    }

    /** Books a connected ATV under its block. */
    method ConnectAtv(atv: Payload)
      requires Agree() && atv.block.id == atvBlock(atv.id)
      modifies this`relations, this`vbkblocks, this`storedAtvs
      ensures Agree() && storedAtvs == old(storedAtvs)[atv.id := atv]
      ensures relations == WithAtv(old(relations), atv)
    {
      hide Indexed, MemPool.SameBlocks, Ensured;
      GetOrPutVbkRelation(atv.block);
      PushedIndexed(AtvLists(), storedAtvs, atvBlock, atv);
      SetAtvs(atv.block.id, relations[atv.block.id].atvs + [atv]);
      storedAtvs := storedAtvs[atv.id := atv];
    }

    method ConnectVtb(vtb: Payload)
      requires Agree() && vtb.block.id == vtbBlock(vtb.id)
      modifies this`relations, this`vbkblocks, this`storedVtbs
      ensures Agree() && storedVtbs == old(storedVtbs)[vtb.id := vtb]
      ensures relations == WithVtb(old(relations), vtb)
    {
      hide Indexed, MemPool.SameBlocks, Ensured;
      GetOrPutVbkRelation(vtb.block);
      PushedIndexed(VtbLists(), storedVtbs, vtbBlock, vtb);
      SetVtbs(vtb.block.id, relations[vtb.block.id].vtbs + [vtb]);
      storedVtbs := storedVtbs[vtb.id := vtb];
    }

    /** Submits an ATV: refused, kept for later, or booked under its block. */
    method SubmitAtv(atv: Payload, doIsBlockOldCheck: bool, c: Checks) returns (status: Status)
      requires Agree() && InFlightOk() && atv.block.id == atvBlock(atv.id)
      modifies this`relations, this`vbkblocks, this`storedAtvs, atvsInFlight
      ensures Agree() && InFlightOk()
      ensures status == if (doIsBlockOldCheck && c.tooOld(atv)) || !c.atvStateless(atv) then FailedStateless
                        else if !c.atvAccepted(atv) then FailedStateful else Valid
      ensures status.FailedStateless? ==> atvsInFlight.entries == old(atvsInFlight.entries)
      ensures status.FailedStateful? ==> atvsInFlight.entries == old(atvsInFlight.entries)[atv.id := atv]
      ensures status.Valid? ==> atvsInFlight.entries == old(atvsInFlight.entries) - {atv.id}
      ensures status.Valid? ==> relations == WithAtv(old(relations), atv) && storedAtvs == old(storedAtvs)[atv.id := atv]
      ensures !status.Valid? ==> relations == old(relations) && storedAtvs == old(storedAtvs)
    {
      hide Indexed, ValueSortedMap.Valid;
      if doIsBlockOldCheck && c.tooOld(atv) {
        return FailedStateless;
      }
      if !c.atvStateless(atv) {
        return FailedStateless;
      }
      if !c.atvAccepted(atv) {
        atvsInFlight.Insert(atv.id, atv);
        return FailedStateful;
      }
      ConnectAtv(atv);
      atvsInFlight.Erase(atv.id);
      return Valid;
    }

    method SubmitVtb(vtb: Payload, c: Checks) returns (status: Status)
      requires Agree() && InFlightOk() && vtb.block.id == vtbBlock(vtb.id)
      modifies this`relations, this`vbkblocks, this`storedVtbs, vtbsInFlight
      ensures Agree() && InFlightOk()
      ensures status == if !c.vtbStateless(vtb) then FailedStateless
                        else if !c.vtbAccepted(vtb) then FailedStateful else Valid
      ensures status.FailedStateless? ==> vtbsInFlight.entries == old(vtbsInFlight.entries)
      ensures status.FailedStateful? ==> vtbsInFlight.entries == old(vtbsInFlight.entries)[vtb.id := vtb]
      ensures status.Valid? ==> vtbsInFlight.entries == old(vtbsInFlight.entries) - {vtb.id}
      ensures status.Valid? ==> relations == WithVtb(old(relations), vtb) && storedVtbs == old(storedVtbs)[vtb.id := vtb]
      ensures !status.Valid? ==> relations == old(relations) && storedVtbs == old(storedVtbs)
    {
      hide Indexed, ValueSortedMap.Valid;
      if !c.vtbStateless(vtb) {
        return FailedStateless;
      }
      if !c.vtbAccepted(vtb) {
        vtbsInFlight.Insert(vtb.id, vtb);
        return FailedStateful;
      }
      ConnectVtb(vtb);
      vtbsInFlight.Erase(vtb.id);
      return Valid;
    }

    method SubmitVbkBlock(blk: VbkBlock, doIsBlockOldCheck: bool, c: Checks) returns (status: Status)
      requires Agree() && InFlightOk()
      modifies this`relations, this`vbkblocks, vbkblocksInFlight
      ensures Agree() && InFlightOk()
      ensures status == if (doIsBlockOldCheck && c.blockTooOld(blk)) || !c.blockStateless(blk) then FailedStateless
                        else if !c.blockAccepted(blk) then FailedStateful else Valid
      ensures status.FailedStateful? ==> vbkblocksInFlight.entries == old(vbkblocksInFlight.entries)[blk.id := blk]
      ensures status.Valid? ==> vbkblocksInFlight.entries == old(vbkblocksInFlight.entries) - {blk.id}
      ensures !status.Valid? || c.blockStable(blk) ==> relations == old(relations)
      ensures status.Valid? && !c.blockStable(blk) ==> relations == Ensured(old(relations), blk)
      ensures status.FailedStateless? ==> vbkblocksInFlight.entries == old(vbkblocksInFlight.entries)
    {
      hide Indexed, ValueSortedMap.Valid;
      if doIsBlockOldCheck && c.blockTooOld(blk) {
        return FailedStateless;
      }
      if !c.blockStateless(blk) {
        return FailedStateless;
      }
      if !c.blockAccepted(blk) {
        vbkblocksInFlight.Insert(blk.id, blk);
        return FailedStateful;
      }
      if !c.blockStable(blk) {
        GetOrPutVbkRelation(blk);
      }
      vbkblocksInFlight.Erase(blk.id);
      return Valid;
    }

    method ResubmitAtvs(c: Checks)
      requires Agree() && InFlightOk()
      modifies this`relations, this`vbkblocks, this`storedAtvs, atvsInFlight
      ensures Agree() && InFlightOk()
      ensures storedAtvs.Keys == old(storedAtvs).Keys + PassedIds(old(atvsInFlight.sorted), c.atvStateless, c.atvAccepted)
    {
      hide Indexed, ValueSortedMap.Valid, Agree, PassedIds;
      var atvs := atvsInFlight.sorted;
      NonePassed(atvs[..0], c.atvStateless, c.atvAccepted);
      for i := 0 to |atvs|
        invariant Agree() && InFlightOk()
        invariant storedAtvs.Keys == old(storedAtvs).Keys + PassedIds(atvs[..i], c.atvStateless, c.atvAccepted)
      {
        PassedNext(atvs, i, c.atvStateless, c.atvAccepted);
        var _ := SubmitAtv(atvs[i], false, c);
      }
      assert atvs[..|atvs|] == atvs;
    }

    method ResubmitVtbs(c: Checks)
      requires Agree() && InFlightOk()
      modifies this`relations, this`vbkblocks, this`storedVtbs, vtbsInFlight
      ensures Agree() && InFlightOk()
      ensures storedVtbs.Keys == old(storedVtbs).Keys + PassedIds(old(vtbsInFlight.sorted), c.vtbStateless, c.vtbAccepted)
    {
      hide Indexed, ValueSortedMap.Valid, Agree, PassedIds;
      var vtbs := vtbsInFlight.sorted;
      NonePassed(vtbs[..0], c.vtbStateless, c.vtbAccepted);
      for i := 0 to |vtbs|
        invariant Agree() && InFlightOk()
        invariant storedVtbs.Keys == old(storedVtbs).Keys + PassedIds(vtbs[..i], c.vtbStateless, c.vtbAccepted)
      {
        PassedNext(vtbs, i, c.vtbStateless, c.vtbAccepted);
        var _ := SubmitVtb(vtbs[i], c);
      }
      assert vtbs[..|vtbs|] == vtbs;
    }

    method ResubmitBlocks(c: Checks)
      requires Agree() && InFlightOk()
      modifies this`relations, this`vbkblocks, vbkblocksInFlight
      ensures Agree() && InFlightOk()
    {
      hide Indexed, ValueSortedMap.Valid, Agree;
      var vbks := vbkblocksInFlight.sorted;
      for i := 0 to |vbks|
        invariant Agree() && InFlightOk()
      {
        var _ := SubmitVbkBlock(vbks[i], false, c);
      }
    }

    /** Submits everything in flight again, in the order of the sorted values: what passes now is
        booked, and nothing else is. */
    method TryConnectPayloads(c: Checks)
      requires Agree() && InFlightOk()
      modifies this`relations, this`vbkblocks, this`storedAtvs, this`storedVtbs
      modifies atvsInFlight, vtbsInFlight, vbkblocksInFlight
      ensures Agree() && InFlightOk()
      ensures storedAtvs.Keys == old(storedAtvs).Keys + PassedIds(old(atvsInFlight.sorted), c.atvStateless, c.atvAccepted)
      ensures storedVtbs.Keys == old(storedVtbs).Keys + PassedIds(old(vtbsInFlight.sorted), c.vtbStateless, c.vtbAccepted)
    {
      hide Indexed, ValueSortedMap.Valid, Agree, PassedIds;
      ResubmitBlocks(c);
      ResubmitVtbs(c);
      ResubmitAtvs(c);
    }
  }
}
