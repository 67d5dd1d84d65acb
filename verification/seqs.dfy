/**
 Sequence utilities behind every "first appearance" order in the adapters:
 Python dict insertion order, pandas `groupby(sort=False)` group order and
 pandas `duplicated()` (keep the first row of each key).
 */
module Seqs {

  /** No element occurs twice. */
  predicate Distinct<T(==)>(s: seq<T>) {
    forall i, j :: 0 <= i < j < |s| ==> s[i] != s[j]
  }

  /** The position of the first occurrence of `x` in `s`. */
  function FirstIndex<T(==)>(s: seq<T>, x: T): (i: nat)
    requires x in s
    ensures i < |s| && s[i] == x
    ensures x !in s[..i]
  {
    if s[0] == x then 0
    else
      var j := FirstIndex(s[1..], x);
      assert s[..j + 1] == [s[0]] + s[1..][..j];
      1 + j
  }

  /** Applies `f` to every element. */
  function MapSeq<T, U>(xs: seq<T>, f: T -> U): (r: seq<U>)
    ensures |r| == |xs|
    ensures forall i :: 0 <= i < |xs| ==> r[i] == f(xs[i])
  {
    if xs == [] then [] else [f(xs[0])] + MapSeq(xs[1..], f)
  }

  /**
   Appends to `acc` every element of `xs` not seen yet, in the order of
   its first occurrence in `xs` -- what a Python dict does to its key list
   when `xs` is inserted key by key, or what a seen-set scan emits.
   */
  function AppendNew<T(==)>(acc: seq<T>, xs: seq<T>): (r: seq<T>)
    ensures |acc| <= |r| && r[..|acc|] == acc
    ensures forall i :: |acc| <= i < |r| ==> r[i] in xs && r[i] !in acc
    decreases |xs|
  {
    if xs == [] then acc
    else AppendNew(if xs[0] in acc then acc else acc + [xs[0]], xs[1..])
  }

  /** Every element of `acc` or `xs` ends up in the result, and nothing else. */
  lemma {:induction false} AppendNewContents<T>(acc: seq<T>, xs: seq<T>, x: T)
    ensures x in AppendNew(acc, xs) <==> x in acc || x in xs
    decreases |xs|
  {
    if xs != [] {
      var acc' := if xs[0] in acc then acc else acc + [xs[0]];
      AppendNewContents(acc', xs[1..], x);
      assert x in xs <==> x == xs[0] || x in xs[1..];
    }
  }

  /** Appending only unseen elements keeps a duplicate-free list duplicate-free. */
  lemma {:induction false} AppendNewDistinct<T>(acc: seq<T>, xs: seq<T>)
    requires Distinct(acc)
    ensures Distinct(AppendNew(acc, xs))
    decreases |xs|
  {
    if xs != [] {
      var acc' := if xs[0] in acc then acc else acc + [xs[0]];
      assert Distinct(acc');
      AppendNewDistinct(acc', xs[1..]);
    }
  }

  /** The appended elements come in the order of their first occurrence in `xs`. */
  lemma {:induction false} AppendNewOrder<T>(acc: seq<T>, xs: seq<T>, i: nat, j: nat)
    requires |acc| <= i < j < |AppendNew(acc, xs)|
    ensures FirstIndex(xs, AppendNew(acc, xs)[i]) < FirstIndex(xs, AppendNew(acc, xs)[j])
    decreases |xs|
  {
    var acc' := if xs[0] in acc then acc else acc + [xs[0]];
    var r := AppendNew(acc', xs[1..]);
    assert r == AppendNew(acc, xs);
    assert r[j] !in acc';
    assert r[j] != xs[0] && r[j] in xs[1..];
    if i < |acc'| {
      assert i == |acc| && r[i] == xs[0];
    } else {
      assert r[i] != xs[0] && r[i] in xs[1..];
      AppendNewOrder(acc', xs[1..], i, j);
    }
  }

  /** The distinct elements of `xs` in first-occurrence order. */
  function FirstOccurrences<T(==,!new)>(xs: seq<T>): (r: seq<T>)
    ensures Distinct(r)
    ensures forall x :: x in r <==> x in xs
    ensures forall i, j :: 0 <= i < j < |r| ==> FirstIndex(xs, r[i]) < FirstIndex(xs, r[j])
  {
    var r := AppendNew([], xs);
    AppendNewDistinct([], xs);
    forall x ensures x in r <==> x in xs {
      AppendNewContents([], xs, x);
    }
    forall i, j | 0 <= i < j < |r| ensures FirstIndex(xs, r[i]) < FirstIndex(xs, r[j]) {
      AppendNewOrder([], xs, i, j);
    }
    r
  }

  /**
   Keeps each element of `xs` whose key was not seen before (neither in
   `seen` nor on an earlier element): pandas `~frame.duplicated()` over
   `key`, started from the keys in `seen`.
   */
  function KeepFirstFrom<T, K(==)>(seen: seq<K>, xs: seq<T>, key: T -> K): (r: seq<T>)
    ensures |r| <= |xs|
    ensures forall t :: 0 <= t < |r| ==> r[t] in xs && key(r[t]) !in seen
    decreases |xs|
  {
    if xs == [] then []
    else if key(xs[0]) in seen then KeepFirstFrom(seen, xs[1..], key)
    else [xs[0]] + KeepFirstFrom(seen + [key(xs[0])], xs[1..], key)
  }

  /** The keys of the kept elements are the keys of `xs` appended to `seen` in first-occurrence order. */
  lemma {:induction false} KeepFirstFromKeys<T, K>(seen: seq<K>, xs: seq<T>, key: T -> K)
    ensures seen + MapSeq(KeepFirstFrom(seen, xs, key), key) == AppendNew(seen, MapSeq(xs, key))
    decreases |xs|
  {
    if xs == [] {
      assert KeepFirstFrom(seen, xs, key) == [];
      assert MapSeq(xs, key) == [];
    } else {
      var k := key(xs[0]);
      var seen' := if k in seen then seen else seen + [k];
      KeepFirstFromKeys(seen', xs[1..], key);
      KeepFirstFromKeysStep(seen, xs, key);
    }
  }

  /** One step of `KeepFirstFromKeys`: the head is kept exactly when `AppendNew` appends its key. */
  lemma {:induction false} KeepFirstFromKeysStep<T, K>(seen: seq<K>, xs: seq<T>, key: T -> K)
    requires xs != []
    requires var k := key(xs[0]);
             var seen' := if k in seen then seen else seen + [k];
             seen' + MapSeq(KeepFirstFrom(seen', xs[1..], key), key) == AppendNew(seen', MapSeq(xs[1..], key))
    ensures seen + MapSeq(KeepFirstFrom(seen, xs, key), key) == AppendNew(seen, MapSeq(xs, key))
  {
    var k := key(xs[0]);
    var seen' := if k in seen then seen else seen + [k];
    AppendNewHead(seen, MapSeq(xs, key), MapSeq(xs[1..], key));
    if k !in seen {
      KeptHeadKeys(seen, xs, key, KeepFirstFrom(seen', xs[1..], key));
    }
  }

  /** `AppendNew` consumes the head of `xs` first. */
  lemma {:induction false} AppendNewHead<T>(acc: seq<T>, xs: seq<T>, tail: seq<T>)
    requires xs != [] && xs[1..] == tail
    ensures AppendNew(acc, xs) == AppendNew(if xs[0] in acc then acc else acc + [xs[0]], tail)
  {
  }

  /** The keys after a kept head: the head's key, then those of the rest. */
  lemma {:induction false} KeptHeadKeys<T, K>(seen: seq<K>, xs: seq<T>, key: T -> K, rest: seq<T>)
    requires xs != [] && key(xs[0]) !in seen && rest == KeepFirstFrom(seen + [key(xs[0])], xs[1..], key)
    ensures seen + MapSeq(KeepFirstFrom(seen, xs, key), key) == (seen + [key(xs[0])]) + MapSeq(rest, key)
  {
    KeepFirstFromUnfold(seen, xs, key);
    var out := [xs[0]] + rest;
    var l := seen + MapSeq(out, key);
    var r := (seen + [key(xs[0])]) + MapSeq(rest, key);
    assert |l| == |r|;
    var mo := MapSeq(out, key);
    var mr := MapSeq(rest, key);
    forall i | 0 <= i < |l| ensures l[i] == r[i] {
      if i < |seen| {
        assert l[i] == seen[i] && r[i] == seen[i];
      } else if i == |seen| {
        assert l[i] == mo[0] == key(out[0]);
      } else {
        var n := i - |seen|;
        assert l[i] == mo[n] == key(out[n]);
        assert out[n] == rest[n - 1];
        assert r[i] == mr[n - 1];
      }
    }
  }

  /** One unfolding of `KeepFirstFrom`. */
  lemma {:induction false} KeepFirstFromUnfold<T, K>(seen: seq<K>, xs: seq<T>, key: T -> K)
    requires xs != []
    ensures KeepFirstFrom(seen, xs, key)
            == if key(xs[0]) in seen then KeepFirstFrom(seen, xs[1..], key)
               else [xs[0]] + KeepFirstFrom(seen + [key(xs[0])], xs[1..], key)
  {
  }

  /** Every kept element is the first element of `xs` that carries its key. */
  lemma {:induction false} KeepFirstFromFirst<T, K>(seen: seq<K>, xs: seq<T>, key: T -> K, t: nat)
    requires t < |KeepFirstFrom(seen, xs, key)|
    ensures key(KeepFirstFrom(seen, xs, key)[t]) in MapSeq(xs, key)
    ensures KeepFirstFrom(seen, xs, key)[t]
            == xs[FirstIndex(MapSeq(xs, key), key(KeepFirstFrom(seen, xs, key)[t]))]
    decreases |xs|
  {
    var k := key(xs[0]);
    var seen' := if k in seen then seen else seen + [k];
    var rest := KeepFirstFrom(seen', xs[1..], key);
    var r := KeepFirstFrom(seen, xs, key);
    KeepFirstFromUnfold(seen, xs, key);
    if k !in seen && t == 0 {
      assert r[0] == xs[0] && MapSeq(xs, key)[0] == k;
      FirstIndexAt(MapSeq(xs, key), k, 0);
    } else {
      var u := if k in seen then t else t - 1;
      assert r[t] == rest[u];
      KeepFirstFromFirst(seen', xs[1..], key, u);
      KeepFirstFromTail(seen', xs, key, rest[u]);
    }
  }

  /**
   An element kept from the tail with a key outside `seen'` (which holds
   the head's key) is the first of its key in the whole list as well.
   */
  lemma {:induction false} KeepFirstFromTail<T, K>(seen': seq<K>, xs: seq<T>, key: T -> K, x: T)
    requires xs != [] && key(xs[0]) in seen' && key(x) !in seen'
    requires key(x) in MapSeq(xs[1..], key)
    requires x == xs[1..][FirstIndex(MapSeq(xs[1..], key), key(x))]
    ensures key(x) in MapSeq(xs, key)
    ensures x == xs[FirstIndex(MapSeq(xs, key), key(x))]
  {
    var keys := MapSeq(xs, key);
    var tailKeys := MapSeq(xs[1..], key);
    var j := FirstIndex(tailKeys, key(x));
    assert xs[1..][j] == xs[j + 1];
    assert keys[j + 1] == key(x);
    forall m | 0 <= m < j + 1 ensures keys[m] != key(x) {
      if m > 0 {
        assert keys[m] == tailKeys[m - 1];
        assert tailKeys[..j][m - 1] == tailKeys[m - 1];
      }
    }
    FirstIndexAt(keys, key(x), j + 1);
  }

  /** The first element of every key, in order: pandas `frame[~duplicated(key)]`. */
  function KeepFirst<T, K(==,!new)>(xs: seq<T>, key: T -> K): (r: seq<T>)
    ensures MapSeq(r, key) == FirstOccurrences(MapSeq(xs, key))
    ensures forall t :: 0 <= t < |r| ==> r[t] == xs[FirstIndex(MapSeq(xs, key), key(r[t]))]
  {
    var r := KeepFirstFrom([], xs, key);
    KeepFirstFromKeys([], xs, key);
    assert [] + MapSeq(r, key) == MapSeq(r, key);
    forall t | 0 <= t < |r| ensures r[t] == xs[FirstIndex(MapSeq(xs, key), key(r[t]))] {
      KeepFirstFromFirst([], xs, key, t);
    }
    r
  }

  /** Appending new elements one list after another is the same as appending their concatenation. */
  lemma {:induction false} AppendNewSnoc<T>(acc: seq<T>, xs: seq<T>, x: T)
    ensures AppendNew(acc, xs + [x]) == AppendNew(AppendNew(acc, xs), [x])
    decreases |xs|
  {
    if xs == [] {
      assert [] + [x] == [x];
    } else {
      var acc' := if xs[0] in acc then acc else acc + [xs[0]];
      assert (xs + [x])[0] == xs[0] && (xs + [x])[1..] == xs[1..] + [x];
      AppendNewSnoc(acc', xs[1..], x);
    }
  }

  /** When no two elements share a key, nothing is a duplicate: `duplicated()` drops no row. */
  lemma {:induction false} KeepFirstFromDistinct<T, K>(seen: seq<K>, xs: seq<T>, key: T -> K)
    requires Distinct(MapSeq(xs, key))
    requires forall i :: 0 <= i < |xs| ==> key(xs[i]) !in seen
    ensures KeepFirstFrom(seen, xs, key) == xs
    decreases |xs|
  {
    if xs != [] {
      var keys := MapSeq(xs, key);
      assert MapSeq(xs[1..], key) == keys[1..];
      forall i | 0 <= i < |xs[1..]| ensures key(xs[1..][i]) !in seen + [key(xs[0])] {
        assert keys[0] != keys[i + 1];
      }
      KeepFirstFromDistinct(seen + [key(xs[0])], xs[1..], key);
      assert [xs[0]] + xs[1..] == xs;
    }
  }

  lemma {:induction false} KeepFirstOfDistinct<T, K(!new)>(xs: seq<T>, key: T -> K)
    requires Distinct(MapSeq(xs, key))
    ensures KeepFirst(xs, key) == xs
  {
    KeepFirstFromDistinct([], xs, key);
  }

  lemma {:induction false} FirstIndexOfPrefix<T>(s: seq<T>, t: seq<T>, x: T)
    requires x in s
    ensures FirstIndex(s + t, x) == FirstIndex(s, x)
  {
    var j := FirstIndex(s, x);
    assert (s + t)[j] == x;
    assert (s + t)[..j] == s[..j];
    FirstIndexIs(s + t, x, j);
  }

  /** The first index is the position of an occurrence with none before it. */
  lemma {:induction false} FirstIndexIs<T>(s: seq<T>, x: T, p: nat)
    requires p < |s| && s[p] == x && x !in s[..p]
    ensures FirstIndex(s, x) == p
  {
    forall m | 0 <= m < p ensures s[m] != x {
      assert s[..p][m] == s[m];
    }
    FirstIndexAt(s, x, p);
  }

  /** The first index is the position before which `x` does not occur. */
  lemma {:induction false} FirstIndexAt<T>(s: seq<T>, x: T, p: nat)
    requires p < |s| && s[p] == x
    requires forall m :: 0 <= m < p ==> s[m] != x
    ensures FirstIndex(s, x) == p
  {
    var i := FirstIndex(s, x);
    assert i <= p by {
      assert forall m :: 0 <= m < i ==> s[..i][m] == s[m];
    }
  }

  /** An occurrence at `p` puts the first occurrence at `p` or before. */
  lemma {:induction false} FirstIndexAtMost<T>(s: seq<T>, x: T, p: nat)
    requires p < |s| && s[p] == x
    ensures FirstIndex(s, x) <= p
  {
    var i := FirstIndex(s, x);
    forall m | 0 <= m < i ensures s[m] != x {
      assert s[..i][m] == s[m];
    }
  }

  /** In a sequence without repetitions different positions hold different elements. */
  lemma {:induction false} DistinctAt<T>(s: seq<T>, a: nat, b: nat)
    requires Distinct(s) && a < |s| && b < |s| && a != b
    ensures s[a] != s[b]
  {
    assert a < b || b < a;
  }

  /** In a sequence without repetitions equal elements sit at the same position. */
  lemma {:induction false} DistinctIndex<T>(s: seq<T>, a: nat, b: nat)
    requires Distinct(s) && a < |s| && b < |s| && s[a] == s[b]
    ensures a == b
  {
    assert !(a < b) && !(b < a);
  }

  /**
   Among distinct elements, a kept element is the first of its key: no
   earlier element has the same key.
   */
  lemma {:induction false} KeepFirstKept<T, K(!new)>(xs: seq<T>, key: T -> K, j: nat)
    requires j < |xs| && Distinct(xs) && xs[j] in KeepFirst(xs, key)
    ensures forall i :: 0 <= i < j ==> key(xs[i]) != key(xs[j])
  {
    var keys := MapSeq(xs, key);
    var kept := KeepFirst(xs, key);
    var k := key(xs[j]);
    assert keys[j] == k;
    var f := FirstIndex(keys, k);
    var t := FirstIndex(kept, xs[j]);
    assert kept[t] == xs[f];
    DistinctIndex(xs, f, j);
    forall i | 0 <= i < j ensures key(xs[i]) != k {
      assert keys[..j][i] == keys[i];
    }
  }

  /** A dropped element has an earlier element with the same key. */
  lemma {:induction false} KeepFirstDropped<T, K(!new)>(xs: seq<T>, key: T -> K, j: nat)
    requires j < |xs| && xs[j] !in KeepFirst(xs, key)
    ensures exists i :: 0 <= i < j && key(xs[i]) == key(xs[j])
  {
    var keys := MapSeq(xs, key);
    var kept := KeepFirst(xs, key);
    var k := key(xs[j]);
    assert keys[j] == k;
    var f := FirstIndex(keys, k);
    FirstIndexAtMost(keys, k, j);
    assert keys[f] == key(xs[f]);
    assert k in FirstOccurrences(keys);
    var t := FirstIndex(MapSeq(kept, key), k);
    assert key(kept[t]) == k;
    assert kept[t] == xs[f];
    assert f != j;
  }
}
