/** The entries of a `java.util.LinkedHashMap` in insertion order, as a value: the keys in the
    order they were first inserted, and the map from each key to its current value. */
module LinkedMaps {
  import opened Sequences

  datatype LinkedMap<K, V> = LinkedMap(keys: seq<K>, values: map<K, V>)

  /** Every key is listed once, and exactly the keys of the map are listed. */
  ghost predicate Valid<K, V>(m: LinkedMap<K, V>) {
    Distinct(m.keys) && m.values.Keys == Elements(m.keys)
  }

  function Empty<K, V>(): (m: LinkedMap<K, V>)
    ensures Valid(m) && |m.values| == 0
  {
    LinkedMap([], map[])
  }

  /** `put(k, v)`: `k` now maps to `v` and every other key keeps its value; a new key goes to the
      end of the order, a key already present keeps its place. */
  function Put<K, V>(m: LinkedMap<K, V>, k: K, v: V): (r: LinkedMap<K, V>)
    ensures Valid(m) ==> Valid(r)
    ensures k in r.values && r.values[k] == v
    ensures r.values.Keys == m.values.Keys + {k}
    ensures forall k' :: k' != k && k' in m.values ==> r.values[k'] == m.values[k']
    ensures k in m.values ==> r.keys == m.keys
    ensures k !in m.values ==> r.keys == m.keys + [k]
  {
    LinkedMap(if k in m.values then m.keys else m.keys + [k], m.values[k := v])
  }

  /** The keys of a list of pairs, in order. */
  function KeysOf<K, V>(ps: seq<(K, V)>): (ks: seq<K>)
    ensures |ks| == |ps| && forall i :: 0 <= i < |ps| ==> ks[i] == ps[i].0
  {
    seq(|ps|, i requires 0 <= i < |ps| => ps[i].0)
  }

  lemma KeysOfSnoc<K, V>(ps: seq<(K, V)>)
    requires ps != []
    ensures KeysOf(ps) == KeysOf(ps[..|ps| - 1]) + [ps[|ps| - 1].0]
  {
  }

  /** The map left by putting every pair of `ps`, in order, into an empty map: its keys are
      exactly the keys of `ps`. */
  function FromPairs<K, V>(ps: seq<(K, V)>): (m: LinkedMap<K, V>)
    ensures Valid(m)
    ensures m.values.Keys == Elements(KeysOf(ps))
  {
    if ps == [] then Empty()
    else
      var last := ps[|ps| - 1];
      KeysOfSnoc(ps);
      Put(FromPairs(ps[..|ps| - 1]), last.0, last.1)
  }

  lemma FromPairsSnoc<K, V>(ps: seq<(K, V)>, kv: (K, V))
    ensures FromPairs(ps + [kv]) == Put(FromPairs(ps), kv.0, kv.1)
  {
  }

  /** `keys` lists its elements in the order in which they first occur in `ks`. */
  ghost predicate InFirstOccurrenceOrder<K>(keys: seq<K>, ks: seq<K>) {
    forall i, j :: 0 <= i < j < |keys| ==> IndexOf(ks, keys[i]) < IndexOf(ks, keys[j])
  }

  /** Extending `ks` keeps the order of keys already seen; a key seen for the first time may go
      last. */
  lemma OrderAppend<K>(keys: seq<K>, ks: seq<K>, k: K)
    requires InFirstOccurrenceOrder(keys, ks)
    requires forall x :: x in keys ==> x in ks
    ensures InFirstOccurrenceOrder(keys, ks + [k])
    ensures k !in ks ==> InFirstOccurrenceOrder(keys + [k], ks + [k])
  {
    forall x | x in keys
      ensures IndexOf(ks + [k], x) == IndexOf(ks, x) < |ks|
    {
      IndexOfAppend(ks, [k], x);
    }
    if k !in ks {
      var keys', ks' := keys + [k], ks + [k];
      IndexOfAt(ks', k, |ks|);
      forall i, j | 0 <= i < j < |keys'|
        ensures IndexOf(ks', keys'[i]) < IndexOf(ks', keys'[j])
      {
        assert keys'[i] == keys[i];
        if j < |keys| {
          assert keys'[j] == keys[j];
        }
      }
    }
  }

  /** Keys are ordered by their first occurrence in `ps`. */
  lemma {:induction false} FromPairsOrder<K, V>(ps: seq<(K, V)>)
    ensures InFirstOccurrenceOrder(FromPairs(ps).keys, KeysOf(ps))
  {
    if ps != [] {
      var init, last := ps[..|ps| - 1], ps[|ps| - 1];
      var m0 := FromPairs(init);
      assert FromPairs(ps) == Put(m0, last.0, last.1);
      KeysOfSnoc(ps);
      FromPairsOrder(init);
      forall x | x in m0.keys
        ensures x in KeysOf(init)
      {
        assert x in Elements(m0.keys);
      }
      OrderAppend(m0.keys, KeysOf(init), last.0);
    }
  }

  /** A key ends with the value of its last occurrence in `ps`. */
  lemma {:induction false} FromPairsLastWins<K, V>(ps: seq<(K, V)>, i: nat)
    requires i < |ps|
    requires forall j :: i < j < |ps| ==> ps[j].0 != ps[i].0
    ensures ps[i].0 in FromPairs(ps).values && FromPairs(ps).values[ps[i].0] == ps[i].1
  {
    if i < |ps| - 1 {
      FromPairsLastWins(ps[..|ps| - 1], i);
    }
  }

  /** One entry per distinct key, so never more entries than pairs. */
  lemma FromPairsSize<K, V>(ps: seq<(K, V)>)
    ensures var m := FromPairs(ps);
      |m.keys| == |m.values| == |Elements(KeysOf(ps))| <= |ps|
  {
    var m := FromPairs(ps);
    DistinctCardinality(m.keys);
    CardinalityBound(KeysOf(ps));
  }
}
