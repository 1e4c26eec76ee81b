/** Python dictionaries as the modelled code uses them: key/value pairs in
    insertion order. Assigning to a key that is present replaces its value
    where it stands; assigning to a new key appends it. Iteration order is the
    order of the pairs. */
module Assoc {
  import opened Wrappers

  type Assoc<K, V> = seq<(K, V)>

  predicate DistinctKeys<K(==), V>(a: Assoc<K, V>)
  {
    forall i, j :: 0 <= i < j < |a| ==> a[i].0 != a[j].0
  }

  function FindFrom<K(==), V>(a: Assoc<K, V>, k: K, from: nat): (r: Option<nat>)
    ensures r.Some? ==> from <= r.value < |a| && a[r.value].0 == k
    ensures r.Some? ==> forall j :: from <= j < r.value ==> a[j].0 != k
    ensures r.None? ==> forall j :: from <= j < |a| ==> a[j].0 != k
    decreases |a| - from
  {
    if from >= |a| then None
    else if a[from].0 == k then Some(from)
    else FindFrom(a, k, from + 1)
  }

  /** Position of key `k`, if present. */
  function Find<K(==), V>(a: Assoc<K, V>, k: K): (r: Option<nat>)
  {
    FindFrom(a, k, 0)
  }

  /** `k in d`. */
  predicate HasKey<K(==), V>(a: Assoc<K, V>, k: K)
  {
    Find(a, k).Some?
  }

  /** `d.get(k)`. */
  function Get<K(==), V>(a: Assoc<K, V>, k: K): (r: Option<V>)
    ensures r.Some? <==> HasKey(a, k)
  {
    match Find(a, k)
    case None => None
    case Some(i) => Some(a[i].1)
  }

  /** `d.get(k, default)`. */
  function GetOr<K(==), V>(a: Assoc<K, V>, k: K, default: V): V
  {
    match Get(a, k)
    case None => default
    case Some(v) => v
  }

  /** `d[k] = v`. */
  function Put<K(==), V>(a: Assoc<K, V>, k: K, v: V): (r: Assoc<K, V>)
    ensures HasKey(a, k) ==> |r| == |a|
    ensures !HasKey(a, k) ==> |r| == |a| + 1 && r[|a|] == (k, v)
    ensures forall i :: 0 <= i < |a| ==> r[i].0 == a[i].0
    ensures forall i :: 0 <= i < |a| && a[i].0 != k ==> r[i] == a[i]
  {
    match Find(a, k)
    case None => a + [(k, v)]
    case Some(i) => a[i := (k, v)]
  }

  lemma {:induction false} PutKeepsDistinct<K, V>(a: Assoc<K, V>, k: K, v: V)
    requires DistinctKeys(a)
    ensures DistinctKeys(Put(a, k, v))
  {
  }

  /** After `d[k] = v`, `d[k]` is `v` and every other key reads as before. */
  lemma {:induction false} GetPut<K, V>(a: Assoc<K, V>, k: K, v: V, k': K)
    ensures Get(Put(a, k, v), k') == if k' == k then Some(v) else Get(a, k')
  {
    var r := Put(a, k, v);
    if k' == k {
      assert Find(r, k) == Find(a, k) || Find(r, k) == Some(|a|);
    } else {
      match Find(a, k')
      case None =>
        assert forall j :: 0 <= j < |r| ==> r[j].0 != k';
      case Some(i) =>
        assert r[i] == a[i];
        assert Find(r, k') == Some(i);
    }
  }

  /** Assigning the same key twice leaves what the second assignment alone
      would: `d[k] = []` followed by `d[k] = v` is `d[k] = v`. */
  lemma {:induction false} PutPut<K, V>(a: Assoc<K, V>, k: K, v1: V, v2: V)
    ensures Put(Put(a, k, v1), k, v2) == Put(a, k, v2)
  {
    var b := Put(a, k, v1);
    GetPut(a, k, v1, k);
    match Find(a, k)
    case None =>
      assert Find(b, k) == Some(|a|) by {
        assert forall j :: 0 <= j < |a| ==> b[j].0 != k;
      }
    case Some(i) =>
      assert Find(b, k) == Some(i) by {
        assert forall j :: 0 <= j < i ==> b[j].0 != k;
      }
  }

  /** `d[k][k2] = v` on a dictionary of dictionaries, an absent `d[k]`
      read as empty. */
  function PutIn<K(==), K2(==), V>(a: Assoc<K, Assoc<K2, V>>, k: K, k2: K2, v: V): Assoc<K, Assoc<K2, V>>
  {
    Put(a, k, Put(GetOr(a, k, []), k2, v))
  }

  /** `if k not in d: d[k] = {}` followed by `d[k][k2] = v` is `PutIn`. */
  lemma {:induction false} CreateThenPutIn<K, K2, V>(a: Assoc<K, Assoc<K2, V>>, k: K, k2: K2, v: V)
    ensures var g := if HasKey(a, k) then a else Put(a, k, []);
      Put(g, k, Put(GetOr(g, k, []), k2, v)) == PutIn(a, k, k2, v)
  {
    if !HasKey(a, k) {
      GetPut(a, k, [], k);
      PutPut(a, k, [], Put([], k2, v));
    }
  }

  /** `PutIn` adds the outer key `k` and no other. */
  lemma {:induction false} PutInHas<K, K2, V>(a: Assoc<K, Assoc<K2, V>>, k: K, k2: K2, v: V, k': K)
    ensures HasKey(PutIn(a, k, k2, v), k') <==> HasKey(a, k') || k' == k
  {
    GetPut(a, k, Put(GetOr(a, k, []), k2, v), k');
  }

  /** After `PutIn`, `d[k][k2]` is `v` and every other pair of keys reads
      as before. */
  lemma {:induction false} GetPutIn<K, K2, V>(a: Assoc<K, Assoc<K2, V>>, k: K, k2: K2, v: V, k': K, k2': K2)
    ensures Get(GetOr(PutIn(a, k, k2, v), k', []), k2') ==
      if k' == k && k2' == k2 then Some(v) else Get(GetOr(a, k', []), k2')
  {
    GetPut(a, k, Put(GetOr(a, k, []), k2, v), k');
    GetPut(GetOr(a, k, []), k2, v, k2');
  }

  /** The keys, in order. */
  function Keys<K, V>(a: Assoc<K, V>): (ks: seq<K>)
    ensures |ks| == |a| && forall i :: 0 <= i < |a| ==> ks[i] == a[i].0
  {
    if a == [] then [] else Keys(a[..|a| - 1]) + [a[|a| - 1].0]
  }

  /** With distinct keys, `d[k] = v` appends `k` to the keys exactly when it
      is new. */
  lemma {:induction false} KeysPut<K, V>(a: Assoc<K, V>, k: K, v: V)
    requires DistinctKeys(a)
    ensures HasKey(a, k) <==> k in Keys(a)
    ensures Keys(Put(a, k, v)) == if HasKey(a, k) then Keys(a) else Keys(a) + [k]
  {
    if k in Keys(a) {
      var i :| 0 <= i < |a| && Keys(a)[i] == k;
      assert a[i].0 == k;
    }
  }

  /** `f` applied to each element of `s`, in order. */
  function MapSeq<A, B>(f: A -> B, s: seq<A>): (r: seq<B>)
    ensures |r| == |s| && forall i :: 0 <= i < |s| ==> r[i] == f(s[i])
  {
    if s == [] then [] else MapSeq(f, s[..|s| - 1]) + [f(s[|s| - 1])]
  }
}
