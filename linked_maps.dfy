/**
 * The value of a java.util.LinkedHashMap with insertion order: the keys in
 * the order they were first inserted, and the mapping itself. `put` on a
 * present key replaces its value and keeps its position; on a new key it
 * appends the key at the end.
 */
module LinkedMaps {
  import opened Values

  /** No element occurs twice. */
  predicate Distinct<K(==)>(s: seq<K>) {
    forall i, j :: 0 <= i < j < |s| ==> s[i] != s[j]
  }

  /** The keys of a sequence of (key, value) pairs, in order. */
  function Keys<K, V>(ps: seq<(K, V)>): seq<K>
    decreases |ps|
  {
    if ps == [] then [] else [ps[0].0] + Keys(ps[1..])
  }

  /** The values of a sequence of (key, value) pairs, in order. */
  function Vals<K, V>(ps: seq<(K, V)>): seq<V>
    decreases |ps|
  {
    if ps == [] then [] else [ps[0].1] + Vals(ps[1..])
  }

  /**
   * The value of the last pair in `ps` whose key is `k`, or None if there is
   * none: a later pair takes precedence over an earlier one.
   */
  function LastWrite<K(==), V>(ps: seq<(K, V)>, k: K): Option<V>
    decreases |ps|
  {
    if ps == [] then None
    else match LastWrite(ps[1..], k)
      case Some(v) => Some(v)
      case None => if ps[0].0 == k then Some(ps[0].1) else None
  }

  /** A map whose keys are exactly the elements of a sequence with no repetition has one entry per element. */
  lemma {:induction false} DistinctKeysCount<K(!new), V>(order: seq<K>, entries: map<K, V>)
    requires Distinct(order)
    requires forall k :: k in entries <==> k in order
    ensures |entries| == |order|
    decreases |order|
  {
    if order == [] {
      assert entries.Keys == {};
    } else {
      var last := order[|order| - 1];
      var rest := order[..|order| - 1];
      var smaller := map k | k in entries && k != last :: entries[k];
      forall k ensures k in smaller <==> k in rest {
        if k in rest {
          var i :| 0 <= i < |rest| && rest[i] == k;
          assert order[i] == k && i < |order| - 1;
        }
        if k in order && k != last {
          var i :| 0 <= i < |order| && order[i] == k;
          assert i != |order| - 1;
          assert rest[i] == k;
        }
      }
      DistinctKeysCount(rest, smaller);
      assert entries.Keys == smaller.Keys + {last};
    }
  }

  /** A linked hash map: `order` lists the keys of `entries` in insertion order. */
  datatype LinkedMap<K(==,!new), V> = LinkedMap(order: seq<K>, entries: map<K, V>) {

    /** Every key is listed once, and the listed keys are exactly the mapped ones. */
    ghost predicate Valid() {
      Distinct(order) && forall k :: k in entries <==> k in order
    }

    /** `size()`: the number of entries, which is the number of listed keys. */
    function Size(): (n: nat)
      requires Valid()
      ensures n == |order|
    {
      DistinctKeysCount(order, entries);
      |entries|
    }

    /** `isEmpty()`: there is no entry, so no key is listed. */
    function IsEmpty(): (b: bool)
      requires Valid()
      ensures b <==> order == []
    {
      DistinctKeysCount(order, entries);
      |entries| == 0
    }

    /** `containsKey(k)`: `k` has an entry, so it is listed. */
    function ContainsKey(k: K): (b: bool)
      requires Valid()
      ensures b <==> k in order
    {
      k in entries
    }

    /** `get(k)`: the stored value, or None when `k` has no entry. */
    function Get(k: K): Option<V> {
      if k in entries then Some(entries[k]) else None
    }

    /** `values()`: the stored values in the insertion order of their keys. */
    function Values(): (vs: seq<V>)
      requires Valid()
      ensures |vs| == |order|
      ensures forall i :: 0 <= i < |order| ==> Get(order[i]) == Some(vs[i])
    {
      seq(|order|, i requires 0 <= i < |order| => entries[order[i]])
    }

    /**
     * `put(k, v)`: afterwards `k` maps to `v` and every other key keeps its
     * value; a present key keeps its position, a new key is appended.
     */
    function Put(k: K, v: V): (r: LinkedMap<K, V>)
      requires Valid()
      ensures r.Valid()
      ensures r.Get(k) == Some(v)
      ensures forall k' :: k' != k ==> r.Get(k') == Get(k')
      ensures k in order ==> r.order == order
      ensures k !in order ==> r.order == order + [k]
    {
      var r := LinkedMap(if k in entries then order else order + [k], entries[k := v]);
      assert Distinct(r.order) by {
        if k !in entries {
          forall i | 0 <= i < |order| ensures r.order[i] != k {
            assert order[i] in order;
          }
        }
      }
      r
    }

    /** The map after putting every pair of `ps`, first to last. */
    function PutEach(ps: seq<(K, V)>): (r: LinkedMap<K, V>)
      requires Valid()
      ensures r.Valid()
      decreases |ps|
    {
      if ps == [] then this else Put(ps[0].0, ps[0].1).PutEach(ps[1..])
    }
  }

  /** The map with no entries. */
  function Empty<K(==,!new), V>(): (m: LinkedMap<K, V>)
    ensures m.Valid() && m.Size() == 0
  {
    LinkedMap([], map[])
  }

  /** Putting a sequence of pairs and then one more is putting the longer sequence. */
  lemma {:induction false} PutEachSnoc<K(!new), V>(m: LinkedMap<K, V>, ps: seq<(K, V)>, k: K, v: V)
    requires m.Valid()
    ensures m.PutEach(ps + [(k, v)]) == m.PutEach(ps).Put(k, v)
    decreases |ps|
  {
    if ps == [] {
      assert ps + [(k, v)] == [(k, v)];
    } else {
      assert (ps + [(k, v)])[1..] == ps[1..] + [(k, v)];
      PutEachSnoc(m.Put(ps[0].0, ps[0].1), ps[1..], k, v);
    }
  }

  /** Putting more pairs never moves a key already listed: the old order is a prefix of the new. */
  lemma {:induction false} PutEachKeepsOrder<K(!new), V>(m: LinkedMap<K, V>, ps: seq<(K, V)>)
    requires m.Valid()
    ensures m.order <= m.PutEach(ps).order
    decreases |ps|
  {
    if ps != [] {
      var m' := m.Put(ps[0].0, ps[0].1);
      PutEachKeepsOrder(m', ps[1..]);
    }
  }

  /** Putting a new key appends its value after the values already stored. */
  lemma PutFreshAppendsValue<K(!new), V>(m: LinkedMap<K, V>, k: K, v: V)
    requires m.Valid() && k !in m.order
    ensures m.Put(k, v).Values() == m.Values() + [v]
  {
  }

  /** The keys of `ps` are pairwise different and none of them is already in `order`. */
  ghost predicate FreshKeys<K, V>(order: seq<K>, ps: seq<(K, V)>) {
    Distinct(Keys(ps)) && forall k :: k in Keys(ps) ==> k !in order
  }

  /** Dropping the first pair, once it has been put, keeps the remaining keys fresh. */
  lemma FreshKeysTail<K(!new), V>(m: LinkedMap<K, V>, ps: seq<(K, V)>)
    requires m.Valid() && ps != []
    requires FreshKeys(m.order, ps)
    ensures ps[0].0 !in m.order
    ensures FreshKeys(m.Put(ps[0].0, ps[0].1).order, ps[1..])
  {
    var ks, rest := Keys(ps), Keys(ps[1..]);
    assert ks == [ps[0].0] + rest;
    assert ks[0] in ks;
    forall i, j | 0 <= i < j < |rest| ensures rest[i] != rest[j] {
      assert ks[i + 1] == rest[i] && ks[j + 1] == rest[j];
    }
    forall k | k in rest ensures k != ps[0].0 && k in ks {
      var i :| 0 <= i < |rest| && rest[i] == k;
      assert ks[i + 1] == k && ks[0] == ps[0].0;
    }
  }

  /** One step of putting fresh keys: the first key is appended, and the rest stay fresh. */
  lemma FreshStep<K(!new), V>(m: LinkedMap<K, V>, ps: seq<(K, V)>) returns (next: LinkedMap<K, V>)
    requires m.Valid() && ps != []
    requires FreshKeys(m.order, ps)
    ensures next == m.Put(ps[0].0, ps[0].1) && next.Valid()
    ensures FreshKeys(next.order, ps[1..])
    ensures next.order + Keys(ps[1..]) == m.order + Keys(ps)
  {
    next := m.Put(ps[0].0, ps[0].1);
    assert next.order == m.order + [ps[0].0] && FreshKeys(next.order, ps[1..]) by {
      FreshKeysTail(m, ps);
    }
    assert Keys(ps) == [ps[0].0] + Keys(ps[1..]);
  }

  /** Putting pairs with fresh, pairwise different keys appends those keys in the order of the puts. */
  lemma {:induction false} PutEachFreshOrder<K(!new), V>(m: LinkedMap<K, V>, ps: seq<(K, V)>)
    requires m.Valid()
    requires FreshKeys(m.order, ps)
    ensures m.PutEach(ps).order == m.order + Keys(ps)
    decreases |ps|
  {
    if ps != [] {
      var next := FreshStep(m, ps);
      PutEachFreshOrder(next, ps[1..]);
    }
  }

  /** Putting pairs with fresh, pairwise different keys appends their values in the order of the puts. */
  lemma {:induction false} PutEachFreshValues<K(!new), V>(m: LinkedMap<K, V>, ps: seq<(K, V)>)
    requires m.Valid()
    requires FreshKeys(m.order, ps)
    ensures m.PutEach(ps).Values() == m.Values() + Vals(ps)
    decreases |ps|
  {
    if ps != [] {
      FreshKeysTail(m, ps);
      PutEachFreshValues(m.Put(ps[0].0, ps[0].1), ps[1..]);
      PutFreshAppendsValue(m, ps[0].0, ps[0].1);
    }
  }

  /** Putting pairs with pairwise different keys into an empty map lists exactly those keys and values, in order. */
  lemma InsertionOrder<K(!new), V>(ps: seq<(K, V)>)
    ensures Distinct(Keys(ps)) ==> Empty<K, V>().PutEach(ps).order == Keys(ps)
    ensures Distinct(Keys(ps)) ==> Empty<K, V>().PutEach(ps).Values() == Vals(ps)
  {
    if Distinct(Keys(ps)) {
      var e := Empty<K, V>();
      assert e.Values() == [];
      PutEachFreshOrder(e, ps);
      PutEachFreshValues(e, ps);
    }
  }

  /** The first key ever put stays the first key, whatever is put after it. */
  lemma FirstPutStaysFirst<K(!new), V>(ps: seq<(K, V)>)
    ensures ps != [] ==> Empty<K, V>().PutEach(ps).order != [] && Empty<K, V>().PutEach(ps).order[0] == ps[0].0
  {
    if ps != [] {
      var m := Empty<K, V>().Put(ps[0].0, ps[0].1);
      PutEachKeepsOrder(m, ps[1..]);
    }
  }

  /** Last write wins: after the puts, a key maps to the value of its last put, or keeps its old value if it was not put. */
  lemma {:induction false} LastWriteWins<K(!new), V>(m: LinkedMap<K, V>, ps: seq<(K, V)>, k: K)
    requires m.Valid()
    ensures m.PutEach(ps).Get(k) == match LastWrite(ps, k) case Some(v) => Some(v) case None => m.Get(k)
    decreases |ps|
  {
    if ps != [] {
      LastWriteWins(m.Put(ps[0].0, ps[0].1), ps[1..], k);
    }
  }
}
