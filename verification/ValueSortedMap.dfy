/** A map whose values are also kept in order: an index by key and a sorted list of values
    that must agree. */
module ValueSortedMaps {
  import opened Wrappers

  /** The comparator orders values strictly; values that are not ordered either way are
      equivalent, and equivalence is transitive. */
  ghost predicate StrictWeakOrder<V(!new)>(less: (V, V) -> bool) {
    && (forall a :: !less(a, a))
    && (forall a, b, c :: less(a, b) && less(b, c) ==> less(a, c))
    && (forall a, b, c :: less(a, b) ==> less(a, c) || less(c, b))
  }

  predicate Equivalent<V>(less: (V, V) -> bool, a: V, b: V) {
    !less(a, b) && !less(b, a)
  }

  lemma EquivalentTransitive<V(!new)>(less: (V, V) -> bool, a: V, b: V, c: V)
    requires StrictWeakOrder(less) && Equivalent(less, a, b)
    ensures Equivalent(less, a, c) <==> Equivalent(less, b, c)
  {
  }

  /** How many values of a list are equivalent to a value. */
  ghost function CountIn<V>(less: (V, V) -> bool, s: seq<V>, v: V): nat {
    if s == [] then 0 else (if Equivalent(less, s[0], v) then 1 else 0) + CountIn(less, s[1..], v)
  }

  /** The keys whose values are equivalent to a value. */
  ghost function KeysOf<K, V>(less: (V, V) -> bool, m: map<K, V>, v: V): set<K> {
    set k <- m | Equivalent(less, m[k], v)
  }

  lemma {:induction false} CountConcat<V>(less: (V, V) -> bool, s: seq<V>, t: seq<V>, v: V)
    ensures CountIn(less, s + t, v) == CountIn(less, s, v) + CountIn(less, t, v)
  {
    if s == [] {
      assert s + t == t;
    } else {
      assert (s + t)[1..] == s[1..] + t;
      CountConcat(less, s[1..], t, v);
    }
  }

  /** Putting a value in changes its own class by one. */
  lemma CountInserted<V>(less: (V, V) -> bool, s: seq<V>, i: nat, x: V, v: V)
    requires i <= |s|
    ensures CountIn(less, s[..i] + [x] + s[i..], v) == CountIn(less, s, v) + if Equivalent(less, x, v) then 1 else 0
  {
    hide CountIn;
    assert s == s[..i] + s[i..];
    CountConcat(less, s[..i], s[i..], v);
    CountConcat(less, s[..i] + [x], s[i..], v);
    CountConcat(less, s[..i], [x], v);
    CountOne(less, x, v);
  }

  lemma CountOne<V>(less: (V, V) -> bool, x: V, v: V)
    ensures CountIn(less, [x], v) == if Equivalent(less, x, v) then 1 else 0
  {
    assert [x][1..] == [];
  }

  lemma CountRemoved<V>(less: (V, V) -> bool, s: seq<V>, i: nat, v: V)
    requires i < |s|
    ensures CountIn(less, s[..i] + s[i + 1..], v) == CountIn(less, s, v) - if Equivalent(less, s[i], v) then 1 else 0
  {
    hide CountIn;
    var t := s[..i] + s[i + 1..];
    CountInserted(less, t, i, s[i], v);
    assert t[..i] == s[..i] && t[i..] == s[i + 1..];
    assert s[..i] + [s[i]] + s[i + 1..] == s;
  }

  lemma {:induction false} CountPositive<V>(less: (V, V) -> bool, s: seq<V>, v: V)
    ensures CountIn(less, s, v) > 0 <==> exists i :: 0 <= i < |s| && Equivalent(less, s[i], v)
  {
    if s != [] {
      CountPositive(less, s[1..], v);
      if i :| 0 <= i < |s| && Equivalent(less, s[i], v) {
        if i > 0 {
          assert s[1..][i - 1] == s[i];
        }
      }
      if i :| 0 <= i < |s| - 1 && Equivalent(less, s[1..][i], v) {
        assert s[i + 1] == s[1..][i];
      }
    }
  }

  /** Every class has as many members in the list as keys in the map. */
  ghost predicate ClassesAgree<K, V(!new)>(less: (V, V) -> bool, s: seq<V>, m: map<K, V>) {
    forall v :: CountIn(less, s, v) == |KeysOf(less, m, v)|
  }

  lemma ClassesAfterErase<K, V(!new)>(less: (V, V) -> bool, s: seq<V>, m: map<K, V>, key: K, at: nat)
    requires StrictWeakOrder(less) && ClassesAgree(less, s, m) && key in m
    requires at < |s| && Equivalent(less, s[at], m[key])
    ensures ClassesAgree(less, s[..at] + s[at + 1..], m - {key})
  {
    hide CountIn;
    forall v
      ensures CountIn(less, s[..at] + s[at + 1..], v) == |KeysOf(less, m - {key}, v)|
    {
      CountRemoved(less, s, at, v);
      EquivalentTransitive(less, s[at], m[key], v);
      assert KeysOf(less, m, v) == KeysOf(less, m - {key}, v) + if Equivalent(less, m[key], v) then {key} else {};
    }
  }

  lemma ClassesAfterInsert<K, V(!new)>(less: (V, V) -> bool, s: seq<V>, m: map<K, V>, key: K, value: V, at: nat)
    requires ClassesAgree(less, s, m) && key !in m && at <= |s|
    ensures ClassesAgree(less, s[..at] + [value] + s[at..], m[key := value])
  {
    hide CountIn;
    forall v
      ensures CountIn(less, s[..at] + [value] + s[at..], v) == |KeysOf(less, m[key := value], v)|
    {
      CountInserted(less, s, at, value, v);
      assert KeysOf(less, m[key := value], v) == KeysOf(less, m, v) + if Equivalent(less, value, v) then {key} else {};
    }
  }

  lemma EmptyAgrees<K, V(!new)>(less: (V, V) -> bool, m: map<K, V>)
    requires m == map[]
    ensures ClassesAgree(less, [], m)
  {
    forall v: V
      ensures CountIn(less, [], v) == |KeysOf(less, m, v)|
    {
      assert KeysOf(less, m, v) == {};
    }
  }

  ghost predicate Sorted<V(!new)>(less: (V, V) -> bool, s: seq<V>) {
    forall i, j :: 0 <= i < j < |s| ==> !less(s[j], s[i])
  }

  // ---------------------------------------------------------------- steps and runs

  /** Erasing takes out a value equivalent to the one of the key; which one, if there are
      several, is not said. */
  ghost predicate Erased<K, V(!new)>(less: (V, V) -> bool, s: seq<V>, m: map<K, V>, key: K, s': seq<V>, m': map<K, V>) {
    if key !in m then s' == s && m' == m
    else m' == m - {key} && exists at: nat :: TakenOut(less, s, m[key], at, s')
  }

  ghost predicate TakenOut<V(!new)>(less: (V, V) -> bool, s: seq<V>, v: V, at: nat, s': seq<V>) {
    at < |s| && Equivalent(less, s[at], v) && s' == s[..at] + s[at + 1..]
  }

  /** Inserting erases what the key had and puts the new value where the order allows it. */
  ghost predicate Inserted<K, V(!new)>(less: (V, V) -> bool, s: seq<V>, m: map<K, V>, key: K, value: V,
                                       s': seq<V>, m': map<K, V>) {
    m' == m[key := value] && Sorted(less, s') && exists s0: seq<V>, at: nat :: PutIn(less, s, m, key, value, s0, at, s')
  }

  ghost predicate PutIn<K, V(!new)>(less: (V, V) -> bool, s: seq<V>, m: map<K, V>, key: K, value: V, s0: seq<V>,
                                    at: nat, s': seq<V>) {
    at <= |s0| && Erased(less, s, m, key, s0, m - {key}) && s' == s0[..at] + [value] + s0[at..]
  }

  datatype Op<K, V> = Insert(key: K, value: V) | Erase(key: K) | Clear

  ghost predicate Steps<K, V(!new)>(less: (V, V) -> bool, s: seq<V>, m: map<K, V>, op: Op<K, V>, s': seq<V>, m': map<K, V>) {
    match op
    case Insert(key, value) => Inserted(less, s, m, key, value, s', m')
    case Erase(key) => Erased(less, s, m, key, s', m')
    case Clear => s' == [] && m' == map[]
  }

  /** What a run from nothing can end in. */
  ghost predicate Reached<K(!new), V(!new)>(less: (V, V) -> bool, ops: seq<Op<K, V>>, s: seq<V>, m: map<K, V>)
    decreases |ops|, 1
  {
    if ops == [] then s == [] && m == map[]
    else exists s0: seq<V>, m0: map<K, V> :: Continued(less, ops, s0, m0, s, m)
  }

  ghost predicate Continued<K(!new), V(!new)>(less: (V, V) -> bool, ops: seq<Op<K, V>>, s0: seq<V>, m0: map<K, V>,
                                              s: seq<V>, m: map<K, V>)
    requires ops != []
    decreases |ops|, 0
  {
    Reached(less, ops[..|ops| - 1], s0, m0) && Steps(less, s0, m0, ops[|ops| - 1], s, m)
  }

  /** One step keeps the classes in agreement. */
  lemma ClassesAfterStep<K, V(!new)>(less: (V, V) -> bool, s: seq<V>, m: map<K, V>, op: Op<K, V>, s': seq<V>, m': map<K, V>)
    requires StrictWeakOrder(less) && ClassesAgree(less, s, m) && Steps(less, s, m, op, s', m')
    ensures ClassesAgree(less, s', m')
  {
    hide CountIn, ClassesAgree;
    match op
    case Insert(key, value) =>
      var s0: seq<V>, at: nat :| PutIn(less, s, m, key, value, s0, at, s');
      ClassesAfterErased(less, s, m, key, s0);
      ClassesAfterInsert(less, s0, m - {key}, key, value, at);
      assert (m - {key})[key := value] == m';
    case Erase(key) =>
      if key in m {
        ClassesAfterErased(less, s, m, key, s');
      }
    case Clear =>
      EmptyAgrees(less, m');
  }

  lemma ClassesAfterErased<K, V(!new)>(less: (V, V) -> bool, s: seq<V>, m: map<K, V>, key: K, s': seq<V>)
    requires StrictWeakOrder(less) && ClassesAgree(less, s, m) && Erased(less, s, m, key, s', m - {key})
    ensures ClassesAgree(less, s', m - {key})
  {
    hide CountIn, ClassesAgree;
    if key in m {
      var at: nat :| TakenOut(less, s, m[key], at, s');
      ClassesAfterErase(less, s, m, key, at);
    } else {
      assert m - {key} == m;
    }
  }

  lemma {:induction false} ClassesAgreeOverRuns<K(!new), V(!new)>(less: (V, V) -> bool, ops: seq<Op<K, V>>, s: seq<V>, m: map<K, V>)
    requires StrictWeakOrder(less) && Reached(less, ops, s, m)
    ensures ClassesAgree(less, s, m)
    decreases |ops|
  {
    hide CountIn, ClassesAgree, Steps;
    if ops == [] {
      EmptyAgrees(less, m);
    } else {
      var s0: seq<V>, m0: map<K, V> :| Continued(less, ops, s0, m0, s, m);
      ClassesAgreeOverRuns(less, ops[..|ops| - 1], s0, m0);
      ClassesAfterStep(less, s0, m0, ops[|ops| - 1], s, m);
    }
  }

  class ValueSortedMap<K(==), V(==,!new)> {
    const less: (V, V) -> bool
    var entries: map<K, V>
    var sorted: seq<V>

    /** The list is sorted and of the size of the map, and each class of equivalent values has
        as many members in the one as in the other. */
    ghost predicate Valid()
      reads this
    {
      && StrictWeakOrder(less)
      && Sorted(less, sorted)
      && |sorted| == |entries|
      && ClassesAgree(less, sorted, entries)
    }

    constructor (less: (V, V) -> bool)
      requires StrictWeakOrder(less)
      ensures Valid() && this.less == less && entries == map[] && sorted == []
    {
      this.less, entries, sorted := less, map[], [];
      new;
      EmptyAgrees(less, entries);
    }

    function Find(key: K): Option<V>
      reads this
    {
      if key in entries then Some(entries[key]) else None
    }

    /** Puts a value behind its equivalents. */
    method SetInsert(value: V) returns (ghost at: nat)
      requires StrictWeakOrder(less) && Sorted(less, sorted)
      modifies this`sorted
      ensures at <= |old(sorted)| && sorted == old(sorted)[..at] + [value] + old(sorted)[at..]
      ensures Sorted(less, sorted)
    {
      var i := 0;
      while i < |sorted| && !less(value, sorted[i])
        invariant i <= |sorted| && forall j :: 0 <= j < i ==> !less(value, sorted[j])
      {
        i := i + 1;
      }
      at := i;
      sorted := sorted[..i] + [value] + sorted[i..];
    }

    /** Takes out a value equivalent to the given one, of which there must be one; which one, if
        there are several, is not said. */
    method SetErase(value: V) returns (ghost at: nat)
      requires StrictWeakOrder(less) && CountIn(less, sorted, value) > 0
      modifies this`sorted
      ensures at < |old(sorted)| && Equivalent(less, old(sorted)[at], value)
      ensures sorted == old(sorted)[..at] + old(sorted)[at + 1..]
    {
      CountPositive(less, sorted, value);
      var i :| 0 <= i < |sorted| && Equivalent(less, sorted[i], value);
      at := i;
      sorted := sorted[..i] + sorted[i + 1..];
    }

    /** The lookup for the value of a key finds something. */
    lemma IsFound(key: K)
      requires Valid() && key in entries
      ensures CountIn(less, sorted, entries[key]) > 0
    {
      assert key in KeysOf(less, entries, entries[key]);
    }

    /** Removes a key, if it is there, and one value equivalent to its value. */
    method Erase(key: K)
      requires Valid()
      modifies this
      ensures Valid() && entries == old(entries) - {key}
      ensures Erased(less, old(sorted), old(entries), key, sorted, entries)
      ensures forall v <- sorted :: v in old(sorted)
    {
      hide CountIn, ClassesAgree;
      if key !in entries {
        assert entries - {key} == entries;
        return;
      }
      IsFound(key);
      ghost var at := SetErase(entries[key]);
      assert TakenOut(less, old(sorted), entries[key], at, sorted);
      ClassesAfterErase(less, old(sorted), entries, key, at);
      entries := entries - {key};
      assert |sorted| == |entries|;
    }

    /** Sets the value of a key, in place of the one it had. */
    method Insert(key: K, value: V)
      requires Valid()
      modifies this
      ensures Valid() && entries == old(entries)[key := value]
      ensures Inserted(less, old(sorted), old(entries), key, value, sorted, entries)
      ensures forall v <- sorted :: v == value || v in old(sorted)
    {
      hide CountIn, ClassesAgree;
      Erase(key);
      ghost var before := sorted;
      ghost var at := SetInsert(value);
      assert PutIn(less, old(sorted), old(entries), key, value, before, at, sorted);
      ClassesAfterInsert(less, before, entries, key, value, at);
      entries := entries[key := value];
      assert |sorted| == |entries|;
    }

    method Clear()
      requires Valid()
      modifies this
      ensures Valid() && entries == map[] && sorted == []
    {
      assert |sorted| == |entries|;
      entries, sorted := map[], [];
      EmptyAgrees(less, entries);
    }
  }

  lemma {:induction false} CountIsMultiplicity<V>(less: (V, V) -> bool, s: seq<V>, v: V)
    requires forall a <- s :: Equivalent(less, a, v) <==> a == v
    ensures CountIn(less, s, v) == multiset(s)[v]
  {
    if s != [] {
      assert s == [s[0]] + s[1..];
      CountIsMultiplicity(less, s[1..], v);
    }
  }

  /** The list holds exactly the values of the map, each as often as there are keys for it. */
  ghost predicate HoldsValues<K, V(!new)>(s: seq<V>, m: map<K, V>) {
    forall v :: multiset(s)[v] == |set k <- m | m[k] == v|
  }

  /** It does when equivalent values are equal. */
  lemma TotalOrderHoldsValues<K, V(!new)>(less: (V, V) -> bool, s: seq<V>, m: map<K, V>)
    requires ClassesAgree(less, s, m) && forall a, b :: Equivalent(less, a, b) <==> a == b
    ensures HoldsValues(s, m)
  {
    forall v
      ensures multiset(s)[v] == |set k <- m | m[k] == v|
    {
      CountIsMultiplicity(less, s, v);
      assert KeysOf(less, m, v) == set k <- m | m[k] == v;
    }
  }

  /** Otherwise two inserts and an erase can leave the value that is gone: of two equivalent
      values, the first is taken out when the key of the second is erased. */
  lemma WrongValueStays<K(!new), V(!new)>(less: (V, V) -> bool, k: K, k': K, a: V, b: V)
    requires StrictWeakOrder(less) && k != k' && a != b && Equivalent(less, a, b)
    ensures Reached(less, [Insert(k, a), Insert(k', b), Erase(k')], [b], map[k := a])
    ensures !HoldsValues([b], map[k := a])
  {
    hide Reached, Inserted, Erased;
    var none: map<K, V> := map[];
    var one: map<K, V>, two: map<K, V> := map[k := a], map[k := a, k' := b];
    NothingReached<K, V>(less);
    FirstInsert(less, k, a);
    ReachedNext(less, [], Insert(k, a), [], none, [a], one);
    assert [] + [Insert(k, a)] == [Insert(k, a)];
    SecondInsert(less, k, k', a, b);
    ReachedNext(less, [Insert(k, a)], Insert(k', b), [a], one, [a, b], two);
    assert [Insert(k, a)] + [Insert(k', b)] == [Insert(k, a), Insert(k', b)];
    WrongErase(less, k, k', a, b);
    ReachedNext(less, [Insert(k, a), Insert(k', b)], Erase(k'), [a, b], two, [b], one);
    assert [Insert(k, a), Insert(k', b)] + [Erase(k')] == [Insert(k, a), Insert(k', b), Erase(k')];
    assert multiset([b])[b] == 1 && (set j <- one | one[j] == b) == {};
  }

  lemma NothingReached<K(!new), V(!new)>(less: (V, V) -> bool)
    ensures Reached<K, V>(less, [], [], map[])
  {
  }

  lemma ReachedNext<K(!new), V(!new)>(less: (V, V) -> bool, ops: seq<Op<K, V>>, op: Op<K, V>, s0: seq<V>, m0: map<K, V>,
                                      s: seq<V>, m: map<K, V>)
    requires Reached(less, ops, s0, m0) && Steps(less, s0, m0, op, s, m)
    ensures Reached(less, ops + [op], s, m)
  {
    hide Steps;
    assert (ops + [op])[..|ops|] == ops;
    assert Continued(less, ops + [op], s0, m0, s, m);
  }

  lemma FirstInsert<K(!new), V(!new)>(less: (V, V) -> bool, k: K, a: V)
    ensures Inserted(less, [], map[], k, a, [a], map[k := a])
  {
    var none: map<K, V> := map[];
    assert none - {k} == none;
    assert PutIn(less, [], none, k, a, [], 0, [a]);
  }

  lemma SecondInsert<K(!new), V(!new)>(less: (V, V) -> bool, k: K, k': K, a: V, b: V)
    requires k != k' && Equivalent(less, a, b)
    ensures Inserted(less, [a], map[k := a], k', b, [a, b], map[k := a, k' := b])
  {
    var one: map<K, V> := map[k := a];
    assert one - {k'} == one;
    assert PutIn(less, [a], one, k', b, [a], 1, [a, b]);
  }

  lemma WrongErase<K(!new), V(!new)>(less: (V, V) -> bool, k: K, k': K, a: V, b: V)
    requires k != k' && Equivalent(less, a, b)
    ensures Erased(less, [a, b], map[k := a, k' := b], k', [b], map[k := a])
  {
    var one: map<K, V>, two: map<K, V> := map[k := a], map[k := a, k' := b];
    assert two - {k'} == one;
    assert TakenOut(less, [a, b], b, 0, [b]);
  }

  /** Over every run the list holds exactly the values of the map, if and only if the comparator
      tells all different values apart. */
  lemma SortedHoldsValuesIff<K(!new), V(!new)>(less: (V, V) -> bool, k: K, k': K)
    requires StrictWeakOrder(less) && k != k'
    ensures (forall ops: seq<Op<K, V>>, s: seq<V>, m: map<K, V> :: Reached(less, ops, s, m) ==> HoldsValues(s, m))
            <==> (forall a, b :: Equivalent(less, a, b) ==> a == b)
  {
    hide Reached, HoldsValues, ClassesAgree;
    if forall a, b :: Equivalent(less, a, b) ==> a == b {
      assert forall a, b :: Equivalent(less, a, b) <==> a == b;
      forall ops: seq<Op<K, V>>, s: seq<V>, m: map<K, V> | Reached(less, ops, s, m)
        ensures HoldsValues(s, m)
      {
        ClassesAgreeOverRuns(less, ops, s, m);
        TotalOrderHoldsValues(less, s, m);
      }
    } else {
      var a, b :| Equivalent(less, a, b) && a != b;
      WrongValueStays(less, k, k', a, b);
    }
  }
}
