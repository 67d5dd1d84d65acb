/**
 Python dictionaries. `Assign` is a run of `d[k] = v` assignments on a plain
 map (what `dict(zip(ks, vs))` and `d.update(zip(ks, vs))` do); `ODict` adds
 the insertion-ordered key list that a Python dict iterates in.
 */
module OrderedMaps {
  import Seqs

  /** The keys of a list of key/value pairs. */
  function KeysOf<K, V>(kvs: seq<(K, V)>): (r: seq<K>)
    ensures |r| == |kvs|
    ensures forall i :: 0 <= i < |kvs| ==> r[i] == kvs[i].0
  {
    if kvs == [] then [] else KeysOf(kvs[..|kvs| - 1]) + [kvs[|kvs| - 1].0]
  }

  /** The position of the last pair whose key is `k`. */
  function LastIndexOfKey<K(==), V>(kvs: seq<(K, V)>, k: K): (i: nat)
    requires k in KeysOf(kvs)
    ensures i < |kvs| && kvs[i].0 == k
    ensures forall j :: i < j < |kvs| ==> kvs[j].0 != k
  {
    if kvs[|kvs| - 1].0 == k then |kvs| - 1
    else
      assert KeysOf(kvs) == KeysOf(kvs[..|kvs| - 1]) + [kvs[|kvs| - 1].0];
      LastIndexOfKey(kvs[..|kvs| - 1], k)
  }

  /** `for k, v in kvs: m[k] = v`. */
  function Assign<K(==), V>(m: map<K, V>, kvs: seq<(K, V)>): map<K, V> {
    if kvs == [] then m
    else Assign(m, kvs[..|kvs| - 1])[kvs[|kvs| - 1].0 := kvs[|kvs| - 1].1]
  }

  /**
   Last writer wins: after the assignments a key is present iff it was
   present before or is assigned, and holds the value of its last assignment,
   or its old value when it is never assigned.
   */
  lemma {:induction false} AssignLastWins<K, V>(m: map<K, V>, kvs: seq<(K, V)>, k: K)
    ensures k in Assign(m, kvs) <==> k in m || k in KeysOf(kvs)
    ensures k in KeysOf(kvs) ==> Assign(m, kvs)[k] == kvs[LastIndexOfKey(kvs, k)].1
    ensures k !in KeysOf(kvs) && k in m ==> Assign(m, kvs)[k] == m[k]
    decreases |kvs|
  {
    if kvs != [] {
      var init := kvs[..|kvs| - 1];
      assert KeysOf(kvs) == KeysOf(init) + [kvs[|kvs| - 1].0];
      AssignLastWins(m, init, k);
    }
  }

  /** The last two assignments, to different keys, both stand. */
  lemma {:induction false} AssignLastTwo<K, V>(m: map<K, V>, kvs: seq<(K, V)>, k1: K, v1: V, k2: K, v2: V)
    requires |kvs| >= 2 && k1 != k2
    requires kvs[|kvs| - 2] == (k1, v1) && kvs[|kvs| - 1] == (k2, v2)
    ensures k1 in Assign(m, kvs) && Assign(m, kvs)[k1] == v1
    ensures k2 in Assign(m, kvs) && Assign(m, kvs)[k2] == v2
  {
    var init := kvs[..|kvs| - 1];
    assert init[|init| - 1] == (k1, v1);
  }

  /** A Python dict: keys in insertion order and the key/value map. */
  datatype ODict<K, V> = ODict(keys: seq<K>, entries: map<K, V>)

  /** The key list holds exactly the keys of the map, once each. */
  ghost predicate Valid<K(!new), V>(d: ODict<K, V>) {
    Seqs.Distinct(d.keys) && forall k :: k in d.entries <==> k in d.keys
  }

  /** `d[k] = v`: a new key goes to the end, an existing key keeps its place. */
  function Put<K(==), V>(d: ODict<K, V>, k: K, v: V): (r: ODict<K, V>)
    ensures r.entries == d.entries[k := v]
    ensures r.keys == Seqs.AppendNew(d.keys, [k])
  {
    ODict(if k in d.keys then d.keys else d.keys + [k], d.entries[k := v])
  }

  /** The key of a listed pair is among the listed keys. */
  lemma {:induction false} PairKeyIn<K, V>(kvs: seq<(K, V)>, kv: (K, V))
    requires kv in kvs
    ensures kv.0 in KeysOf(kvs)
  {
    var j :| 0 <= j < |kvs| && kvs[j] == kv;
    assert KeysOf(kvs)[j] == kv.0;
  }

  /** Storing a value keeps the key list and the map in step. */
  lemma {:induction false} PutValid<K(!new), V>(d: ODict<K, V>, k: K, v: V)
    requires Valid(d)
    ensures Valid(Put(d, k, v))
  {
    Seqs.AppendNewDistinct(d.keys, [k]);
    forall x ensures x in Put(d, k, v).entries <==> x in Put(d, k, v).keys {
      Seqs.AppendNewContents(d.keys, [k], x);
    }
  }

  /** `for k, v in kvs: d[k] = v` on an ordered dict. */
  function PutAll<K(==), V>(d: ODict<K, V>, kvs: seq<(K, V)>): (r: ODict<K, V>)
    ensures r.entries == Assign(d.entries, kvs)
    ensures r.keys == Seqs.AppendNew(d.keys, KeysOf(kvs))
  {
    if kvs == [] then d
    else
      var init := kvs[..|kvs| - 1];
      var last := kvs[|kvs| - 1];
      assert KeysOf(kvs) == KeysOf(init) + [last.0];
      Seqs.AppendNewSnoc(d.keys, KeysOf(init), last.0);
      Put(PutAll(d, init), last.0, last.1)
  }

  /** Storing a run of pairs keeps the key list and the map in step. */
  lemma {:induction false} PutAllValid<K(!new), V>(d: ODict<K, V>, kvs: seq<(K, V)>)
    requires Valid(d)
    ensures Valid(PutAll(d, kvs))
    decreases |kvs|
  {
    if kvs != [] {
      PutAllValid(d, kvs[..|kvs| - 1]);
      PutValid(PutAll(d, kvs[..|kvs| - 1]), kvs[|kvs| - 1].0, kvs[|kvs| - 1].1);
    }
  }
}
