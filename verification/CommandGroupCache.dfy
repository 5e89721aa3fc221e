/** The cache of command groups: a map from block ids to values and a list of the ids that
    were used, most recent first, with the place of each in the list. */
module CommandGroupCaches {
  import opened BlockIndexes
  import opened Wrappers

  /** A node of the list; the token stands for the iterator that points to it. */
  datatype Node = Node(token: nat, id: Id)

  function IdsIn(list: seq<Node>): (ids: seq<Id>)
    ensures |ids| == |list| && forall i :: 0 <= i < |list| ==> ids[i] == list[i].id
  {
    seq(|list|, i requires 0 <= i < |list| => list[i].id)
  }

  /** The list has no repeats, its ids are the keys, each key finds its own node, and every
      listed id is cached. */
  ghost predicate Consistent(list: seq<Node>, keys: map<Id, nat>, next: nat, cached: set<Id>) {
    && NoRepeats(list)
    && (forall n <- list :: n.id in keys && keys[n.id] == n.token && n.token < next && n.id in cached)
    && (forall id <- keys :: Node(keys[id], id) in list)
  }

  ghost predicate NoRepeats(list: seq<Node>) {
    forall i, j :: 0 <= i < j < |list| ==> list[i].id != list[j].id && list[i].token != list[j].token
  }

  /** The other nodes stay, and none of them has the id of the one that goes. */
  lemma OthersStay(list: seq<Node>, i: nat)
    requires NoRepeats(list) && i < |list|
    ensures NoRepeats(list[..i] + list[i + 1..])
    ensures forall n :: n in list[..i] + list[i + 1..] <==> n in list && n.id != list[i].id
  {
    var rest := list[..i] + list[i + 1..];
    assert forall k :: 0 <= k < |rest| ==> rest[k] == list[if k < i then k else k + 1];
    forall n | n in list && n.id != list[i].id
      ensures n in rest
    {
      var k :| 0 <= k < |list| && list[k] == n;
      assert rest[if k < i then k else k - 1] == n;
    }
  }

  /** The node that a key's iterator points to is the node of the key. */
  lemma KeyFindsNode(list: seq<Node>, keys: map<Id, nat>, next: nat, cached: set<Id>, cid: Id, i: nat)
    requires Consistent(list, keys, next, cached) && cid in keys && i < |list| && list[i].token == keys[cid]
    ensures list[i].id == cid
  {
    var k :| 0 <= k < |list| && list[k] == Node(keys[cid], cid);
  }

  lemma NodeErased(list: seq<Node>, keys: map<Id, nat>, next: nat, cached: set<Id>, i: nat)
    requires Consistent(list, keys, next, cached) && i < |list|
    ensures Consistent(list[..i] + list[i + 1..], keys - {list[i].id}, next, cached)
    ensures Consistent(list[..i] + list[i + 1..], keys - {list[i].id}, next, cached - {list[i].id})
    ensures IdsIn(list[..i] + list[i + 1..]) == Without(IdsIn(list), list[i].id)
  {
    hide Without, IdsIn, NoRepeats;
    OthersStay(list, i);
    WithoutOne(list, i);
  }

  lemma NodePushed(list: seq<Node>, keys: map<Id, nat>, next: nat, cached: set<Id>, cid: Id)
    requires Consistent(list, keys, next, cached) && cid !in keys && cid in cached
    ensures Consistent([Node(next, cid)] + list, keys[cid := next], next + 1, cached)
    ensures IdsIn([Node(next, cid)] + list) == [cid] + IdsIn(list)
  {
    hide Without;
    var all, keys' := [Node(next, cid)] + list, keys[cid := next];
    assert forall n :: n in all <==> n == Node(next, cid) || n in list;
    PushedDistinct(list, Node(next, cid));
    assert IdsIn(all) == [cid] + IdsIn(list);
  }

  lemma PushedDistinct(list: seq<Node>, n: Node)
    requires NoRepeats(list) && forall m <- list :: m.id != n.id && m.token != n.token
    ensures NoRepeats([n] + list)
  {
    var all := [n] + list;
    assert forall k :: 0 <= k < |all| ==> all[k] == if k == 0 then n else list[k - 1];
    assert forall k :: 0 <= k < |list| ==> list[k] in list;
  }

  lemma KeyAbsent(list: seq<Node>, keys: map<Id, nat>, next: nat, cached: set<Id>, cid: Id)
    requires Consistent(list, keys, next, cached) && cid !in keys
    ensures Without(IdsIn(list), cid) == IdsIn(list)
    ensures Consistent(list, keys, next, cached - {cid}) && Consistent(list, keys, next, cached + {cid})
    ensures keys - {cid} == keys
  {
    WithoutNone(list, cid);
  }

  /** The listed ids are no more than the cached ones. */
  lemma ListFitsCache(list: seq<Node>, keys: map<Id, nat>, next: nat, cached: set<Id>)
    requires Consistent(list, keys, next, cached)
    ensures |list| <= |cached|
  {
    var ids := set n <- list :: n.id;
    DistinctIds(list);
    assert ids <= cached;
    Subset(ids, cached);
  }

  // ---- What the operations do, apart from the iterators ----

  /** The cached values and the ids that were used, most recent first. */
  datatype State<V> = State(cache: map<Id, V>, used: seq<Id>)

  datatype Op<V> = PutOp(cid: Id, cg: V) | GetOp(cid: Id) | RemoveOp(cid: Id) | ClearOp

  /** The states that an operation may lead to. When nothing was used a full cache drops any
      of its entries, the new one included. */
  ghost predicate StepTo<V(!new)>(maxsize: nat, s: State<V>, op: Op<V>, t: State<V>) {
    match op
    case PutOp(cid, cg) =>
      if cid in s.cache then t == s else
      var full := s.cache[cid := cg];
      if |s.cache| + 1 < maxsize then t == State(full, s.used)
      else if s.used != [] then t == State(full - {s.used[|s.used| - 1]}, s.used[..|s.used| - 1])
      else t.used == [] && exists id <- full :: t.cache == full - {id}
    case GetOp(cid) =>
      t == if cid in s.cache then State(s.cache, [cid] + Without(s.used, cid)) else s
    case RemoveOp(cid) => t == State(s.cache - {cid}, Without(s.used, cid))
    case ClearOp => t == State(map[], [])
  }

  /** A new entry is sure to stay exactly where there is room for it or some entry has been
      used. */
  lemma NewEntryStaysIff<V(!new)>(maxsize: nat, s: State<V>, cid: Id, cg: V)
    requires cid !in s.cache && forall id <- s.used :: id in s.cache
    ensures (forall t :: StepTo(maxsize, s, PutOp(cid, cg), t) ==> cid in t.cache)
       <==> |s.cache| + 1 < maxsize || s.used != []
  {
    var full := s.cache[cid := cg];
    if |s.cache| + 1 >= maxsize && s.used == [] {
      var t := State(full - {cid}, []);
      assert cid in full && StepTo(maxsize, s, PutOp(cid, cg), t);
    }
  }

  /** No operation changes a value, and only `Put` brings one. */
  lemma OnlyPutInserts<V(!new)>(maxsize: nat, s: State<V>, op: Op<V>, t: State<V>, id: Id)
    requires StepTo(maxsize, s, op, t) && id in t.cache
    ensures if id in s.cache then t.cache[id] == s.cache[id] else op == PutOp(id, t.cache[id])
  {
  }

  /** A put as it shows in the fields of the cache. */
  lemma PutIsStep<V(!new)>(maxsize: nat, cache: map<Id, V>, list: seq<Node>, cid: Id, cg: V, cache': map<Id, V>,
                           list': seq<Node>)
    requires cid in cache ==> cache' == cache && list' == list
    requires cid !in cache && |cache| + 1 < maxsize ==> cache' == cache[cid := cg] && list' == list
    requires cid !in cache && |cache| + 1 >= maxsize && list != [] ==>
               cache' == cache[cid := cg] - {list[|list| - 1].id} && list' == list[..|list| - 1]
    requires cid !in cache && |cache| + 1 >= maxsize && list == [] ==>
               list' == [] && exists id <- cache[cid := cg] :: cache' == cache[cid := cg] - {id}
    ensures StepTo(maxsize, State(cache, IdsIn(list)), PutOp(cid, cg), State(cache', IdsIn(list')))
  {
    if list != [] {
      assert IdsIn(list[..|list| - 1]) == IdsIn(list)[..|list| - 1];
    }
  }

  /** The states of a cache that starts empty, and the operations between them. */
  ghost predicate IsRun<V(!new)>(maxsize: nat, states: seq<State<V>>, ops: seq<Op<V>>) {
    && |states| == |ops| + 1 && states[0] == State(map[], [])
    && forall i :: 0 <= i < |ops| ==> StepTo(maxsize, states[i], ops[i], states[i + 1])
  }

  /** Step `k` inserted a value under an id, and it has been there ever since. */
  ghost predicate InsertedAt<V(!new)>(states: seq<State<V>>, ops: seq<Op<V>>, id: Id, cg: V, k: nat)
    requires |states| == |ops| + 1
  {
    && k < |ops| && ops[k] == PutOp(id, cg) && id !in states[k].cache
    && forall j :: k < j < |states| ==> id in states[j].cache && states[j].cache[id] == cg
  }

  /** Over a whole run, what `Get` finds is the value of the `Put` that inserted the entry: no
      later operation has changed it or put it back after it was dropped. */
  lemma {:induction false} FoundWasInserted<V(!new)>(maxsize: nat, states: seq<State<V>>, ops: seq<Op<V>>, id: Id)
    requires IsRun(maxsize, states, ops) && id in states[|ops|].cache
    ensures exists k: nat :: InsertedAt(states, ops, id, states[|ops|].cache[id], k)
    decreases |ops|
  {
    hide StepTo;
    var n := |ops| - 1;
    var s, t := states[n], states[n + 1];
    OnlyPutInserts(maxsize, s, ops[n], t, id);
    if id in s.cache {
      FoundWasInserted(maxsize, states[..n + 1], ops[..n], id);
      var k: nat :| InsertedAt(states[..n + 1], ops[..n], id, s.cache[id], k);
      assert InsertedAt(states, ops, id, t.cache[id], k);
    } else {
      assert InsertedAt(states, ops, id, t.cache[id], n);
    }
  }

  class CommandGroupCache<V(!new)> {
    const maxsize: nat
    var priority: seq<Node>
    var keys: map<Id, nat>
    var cache: map<Id, V>
    var next: nat

    /** List, keys and cache agree, and there is room for one more entry. */
    ghost predicate Valid()
      reads this
    {
      && Consistent(priority, keys, next, cache.Keys)
      && |cache| < (if maxsize == 0 then 1 else maxsize)
    }

    ghost function Now(): State<V>
      reads this
    {
      State(cache, IdsIn(priority))
    }

    lemma UsedAreCached()
      requires Valid()
      ensures forall id <- Now().used :: id in cache
    {
      forall id <- Now().used
        ensures id in cache
      {
        var i :| 0 <= i < |priority| && IdsIn(priority)[i] == id;
        assert priority[i] in priority;
      }
    }

    constructor (maxsize: nat)
      ensures Now() == State(map[], [])
      ensures Valid() && this.maxsize == maxsize && cache == map[] && priority == []
    {
      this.maxsize := maxsize;
      priority, keys, cache, next := [], map[], map[], 0;
    }

    /** Drops the least recently used entry, or any entry when none was used, if the cache is
        full. */
    method Truncate()
      requires Consistent(priority, keys, next, cache.Keys) && (|cache| >= maxsize ==> |cache| > 0)
      modifies this`priority, this`keys, this`cache
      ensures Consistent(priority, keys, next, cache.Keys)
      ensures |old(cache)| < maxsize ==> priority == old(priority) && keys == old(keys) && cache == old(cache)
      ensures |old(cache)| >= maxsize && old(priority) != [] ==>
                (var last := old(priority)[|old(priority)| - 1];
                 priority == old(priority)[..|old(priority)| - 1] && keys == old(keys) - {last.id}
                 && last.id in old(cache) && cache == old(cache) - {last.id})
      ensures |old(cache)| >= maxsize && old(priority) == [] ==>
                priority == [] && exists id <- old(cache) :: cache == old(cache) - {id}
    {
      hide Consistent;
      ListFitsCache(priority, keys, next, cache.Keys);
      if |priority| < maxsize && |cache| < maxsize {
        return;
      }
      if priority == [] {
        assert cache.Keys != {} by {
          assert |cache.Keys| == |cache|;
        }
        var first :| first in cache;
        NothingListed(keys, next, cache.Keys, first);
        cache := cache - {first};
        assert cache.Keys == old(cache).Keys - {first};
      } else {
        var lastid := priority[|priority| - 1].id;
        LastListed(priority, keys, next, cache.Keys);
        NodeErased(priority, keys, next, cache.Keys, |priority| - 1);
        priority := priority[..|priority| - 1];
        keys := keys - {lastid};
        cache := cache - {lastid};
        assert cache.Keys == old(cache).Keys - {lastid};
        assert priority == old(priority)[..|priority|] + old(priority)[|priority| + 1..];
      }
    }

    /** Inserts a value under an id that has none and truncates. */
    method InsertAndTruncate(cid: Id, cg: V) returns (inserted: bool)
      requires Valid()
      modifies this
      ensures Valid() && inserted == (cid !in old(cache))
      ensures !inserted ==> cache == old(cache) && priority == old(priority)
      ensures inserted && |old(cache)| + 1 < maxsize ==> cache == old(cache)[cid := cg] && priority == old(priority)
      ensures inserted && |old(cache)| + 1 >= maxsize && old(priority) != [] ==>
                (var last := old(priority)[|old(priority)| - 1];
                 last.id in old(cache) && cache == old(cache)[cid := cg] - {last.id}
                 && priority == old(priority)[..|old(priority)| - 1])
      ensures inserted && |old(cache)| + 1 >= maxsize && old(priority) == [] ==>
                priority == [] && exists id <- old(cache)[cid := cg] :: cache == old(cache)[cid := cg] - {id}
    {
      hide Consistent;
      if priority != [] {
        LastListed(priority, keys, next, cache.Keys);
      }
      inserted := cid !in cache;
      if inserted {
        ghost var before := cache;
        OneMoreCached(priority, keys, next, cache.Keys, cid);
        cache := cache[cid := cg];
        assert cache.Keys == before.Keys + {cid};
        assert |cache| == |before| + 1;
      } else {
        assert |cache.Keys| == |cache| && cache.Keys != {};
      }
      ghost var full := cache;
      Truncate();
      if |full| >= maxsize {
        ghost var id :| id in full && cache == full - {id};
        assert cache.Keys == full.Keys - {id};
        assert |cache| == |full| - 1;
      }
    }

    /** Inserts a value under an id that has none; a value that is there stays. The new entry
        is sure to be there afterwards if there was room or some entry had been used. */
    method Put(cid: Id, cg: V) returns (inserted: bool)
      requires Valid()
      modifies this
      ensures Valid() && inserted == (cid !in old(cache))
      ensures forall id <- cache :: if id == cid && inserted then cache[id] == cg
                                    else id in old(cache) && cache[id] == old(cache)[id]
      ensures StepTo(maxsize, old(Now()), PutOp(cid, cg), Now())
      ensures |old(cache)| + 1 < maxsize || old(priority) != [] ==> cid in cache
      ensures !inserted ==> priority == old(priority)
    {
      hide Consistent, StepTo, IdsIn;
      inserted := InsertAndTruncate(cid, cg);
      PutIsStep(maxsize, old(cache), old(priority), cid, cg, cache, priority);
    }

    /** Erases the node that an iterator points to. */
    method EraseNode(token: nat) returns (ghost i: nat)
      requires exists n <- priority :: n.token == token
      modifies this`priority
      ensures i < |old(priority)| && old(priority)[i].token == token
      ensures priority == old(priority)[..i] + old(priority)[i + 1..]
    {
      var k :| 0 <= k < |priority| && priority[k].token == token;
      priority := priority[..k] + priority[k + 1..];
      i := k;
    }

    /** Marks an id as the one used last. Nothing is dropped on the way. */
    method Refer(cid: Id) returns (known: bool)
      requires Valid() && cid in cache
      modifies this
      ensures Valid() && cache == old(cache) && known == (cid in old(keys))
      ensures IdsIn(priority) == [cid] + Without(IdsIn(old(priority)), cid)
    {
      hide Consistent, Without, IdsIn;
      known := cid in keys;
      assert |cache| < maxsize by {
        assert cache.Keys != {} && |cache.Keys| == |cache|;
      }
      if known {
        KeyIsListed(priority, keys, next, cache.Keys, cid);
        ghost var i := EraseNode(keys[cid]);
        KeyFindsNode(old(priority), keys, next, cache.Keys, cid, i);
        NodeErased(old(priority), keys, next, cache.Keys, i);
      } else {
        Truncate();
        KeyAbsent(priority, keys, next, cache.Keys, cid);
      }
      NodePushed(priority, keys - {cid}, next, cache.Keys, cid);
      assert (keys - {cid})[cid := next] == keys[cid := next];
      priority := [Node(next, cid)] + priority;
      keys := keys[cid := next];
      next := next + 1;
    }

    /** The value put under an id, if it is still there; the id becomes the one used last. */
    method Get(cid: Id) returns (out: Option<V>)
      requires Valid()
      modifies this
      ensures Valid() && cache == old(cache)
      ensures StepTo(maxsize, old(Now()), GetOp(cid), Now())
      ensures out == if cid in cache then Some(cache[cid]) else None
      ensures IdsIn(priority) == if cid in cache then [cid] + Without(IdsIn(old(priority)), cid) else IdsIn(old(priority))
    {
      if cid !in cache {
        return None;
      }
      var _ := Refer(cid);
      return Some(cache[cid]);
    }

    /** Removes an entry; tells whether it had been used. */
    method Remove(cid: Id) returns (used: bool)
      requires Valid()
      modifies this
      ensures StepTo(maxsize, old(Now()), RemoveOp(cid), Now())
      ensures Valid() && cache == old(cache) - {cid} && used == (cid in old(keys))
      ensures IdsIn(priority) == Without(IdsIn(old(priority)), cid)
    {
      hide Consistent, Without, IdsIn;
      used := cid in keys;
      Subset((cache - {cid}).Keys, cache.Keys);
      assert (cache - {cid}).Keys == cache.Keys - {cid};
      cache := cache - {cid};
      if used {
        KeyIsListed(priority, keys, next, old(cache).Keys, cid);
        ghost var i := EraseNode(keys[cid]);
        KeyFindsNode(old(priority), keys, next, old(cache).Keys, cid, i);
        NodeErased(old(priority), keys, next, old(cache).Keys, i);
        keys := keys - {cid};
      } else {
        KeyAbsent(priority, keys, next, old(cache).Keys, cid);
      }
    }

    method Clear()
      requires Valid()
      modifies this
      ensures StepTo(maxsize, old(Now()), ClearOp, Now())
      ensures Valid() && cache == map[] && priority == [] && keys == map[]
    {
      cache, keys, priority := map[], map[], [];
    }
  }

  lemma NothingListed(keys: map<Id, nat>, next: nat, cached: set<Id>, id: Id)
    requires Consistent([], keys, next, cached)
    ensures Consistent([], keys, next, cached - {id})
  {
  }

  lemma LastListed(list: seq<Node>, keys: map<Id, nat>, next: nat, cached: set<Id>)
    requires Consistent(list, keys, next, cached) && list != []
    ensures list[|list| - 1].id in cached
  {
  }

  lemma OneMoreCached(list: seq<Node>, keys: map<Id, nat>, next: nat, cached: set<Id>, id: Id)
    requires Consistent(list, keys, next, cached)
    ensures Consistent(list, keys, next, cached + {id})
  {
  }

  lemma KeyIsListed(list: seq<Node>, keys: map<Id, nat>, next: nat, cached: set<Id>, id: Id)
    requires Consistent(list, keys, next, cached) && id in keys
    ensures exists n <- list :: n.token == keys[id]
  {
    assert Node(keys[id], id) in list;
  }

  /** A list of ids without an id. */
  function Without(ids: seq<Id>, id: Id): seq<Id> {
    if ids == [] then [] else (if ids[0] == id then [] else [ids[0]]) + Without(ids[1..], id)
  }

  lemma {:induction false} WithoutAbsent(ids: seq<Id>, id: Id)
    requires id !in ids
    ensures Without(ids, id) == ids
  {
    if ids != [] {
      assert ids[0] in ids;
      WithoutAbsent(ids[1..], id);
    }
  }

  lemma {:induction false} WithoutConcat(a: seq<Id>, b: seq<Id>, id: Id)
    ensures Without(a + b, id) == Without(a, id) + Without(b, id)
  {
    if a == [] {
      assert a + b == b;
    } else {
      assert (a + b)[1..] == a[1..] + b;
      WithoutConcat(a[1..], b, id);
    }
  }

  lemma WithoutItself(id: Id)
    ensures Without([id], id) == []
  {
  }

  /** Taking the node of an id out of a list without repeats. */
  lemma WithoutOne(list: seq<Node>, i: nat)
    requires i < |list| && NoRepeats(list)
    ensures IdsIn(list[..i] + list[i + 1..]) == Without(IdsIn(list), list[i].id)
  {
    hide Without;
    var ids, id := IdsIn(list), list[i].id;
    assert ids == ids[..i] + ([id] + ids[i + 1..]);
    WithoutConcat(ids[..i], [id] + ids[i + 1..], id);
    WithoutConcat([id], ids[i + 1..], id);
    WithoutAbsent(ids[..i], id);
    WithoutAbsent(ids[i + 1..], id);
    WithoutItself(id);
    assert IdsIn(list[..i] + list[i + 1..]) == ids[..i] + ids[i + 1..];
  }

  lemma WithoutNone(list: seq<Node>, id: Id)
    requires forall n <- list :: n.id != id
    ensures Without(IdsIn(list), id) == IdsIn(list)
  {
    forall x <- IdsIn(list)
      ensures x != id
    {
      var i :| 0 <= i < |list| && IdsIn(list)[i] == x;
      assert list[i] in list;
    }
    WithoutAbsent(IdsIn(list), id);
  }

  lemma {:induction false} DistinctIds(list: seq<Node>)
    requires forall i, j :: 0 <= i < j < |list| ==> list[i].id != list[j].id
    ensures |set n <- list :: n.id| == |list|
  {
    var ids := set n <- list :: n.id;
    if list == [] {
      assert ids == {};
    } else {
      var rest := list[1..];
      DistinctIds(rest);
      assert list == [list[0]] + rest;
      assert ids == {list[0].id} + set n <- rest :: n.id;
    }
  }

  lemma {:induction false} Subset<T>(a: set<T>, b: set<T>)
    requires a <= b
    ensures |a| <= |b|
  {
    if a != {} {
      var x :| x in a;
      Subset(a - {x}, b - {x});
    }
  }
}
