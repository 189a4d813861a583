/**
 * PHP ordered arrays as association sequences: a sequence of (key, value)
 * pairs in iteration order. A well-formed PHP array never repeats a key
 * (`Distinct`). Reads find the first pair with the key; `Put` is
 * `$a[$k] = $v`, which overwrites in place (the key keeps its position) or
 * appends a new key at the end; `Remove` is `unset($a[$k])`.
 */
module Assoc {
  import opened Wrappers

  /** No key occurs twice. */
  predicate Distinct<K(==), V>(a: seq<(K, V)>) {
    forall i, j :: 0 <= i < j < |a| ==> a[i].0 != a[j].0
  }

  /** The position of the first pair whose key is `k`, or |a| when there is none. */
  function Find<K(==), V>(a: seq<(K, V)>, k: K): (i: nat)
    ensures i <= |a|
    ensures i < |a| ==> a[i].0 == k
    ensures forall j :: 0 <= j < i ==> a[j].0 != k
  {
    if a == [] then 0
    else if a[0].0 == k then 0
    else 1 + Find(a[1..], k)
  }

  /** isset-style membership: the key occurs in the array. */
  predicate Has<K(==), V>(a: seq<(K, V)>, k: K) {
    Find(a, k) < |a|
  }

  /** `$a[$k] ?? null`: the value stored under `k`, if any. */
  function Get<K(==), V>(a: seq<(K, V)>, k: K): (r: Option<V>)
    ensures r.Some? <==> Has(a, k)
    ensures r.Some? ==> exists i :: 0 <= i < |a| && a[i] == (k, r.value)
  {
    var i := Find(a, k);
    if i < |a| then Some(a[i].1) else None
  }

  /** `$a[$k] = $v`. */
  function Put<K(==,!new), V>(a: seq<(K, V)>, k: K, v: V): (r: seq<(K, V)>)
    ensures Get(r, k) == Some(v)
    ensures forall k' :: k' != k ==> Get(r, k') == Get(a, k')
    ensures Has(a, k) ==> |r| == |a| && Find(r, k) == Find(a, k)
    ensures !Has(a, k) ==> r == a + [(k, v)]
    ensures forall j :: 0 <= j < |a| && a[j].0 != k ==> r[j] == a[j]
    ensures Distinct(a) ==> Distinct(r)
  {
    var i := Find(a, k);
    var r := if i < |a| then a[i := (k, v)] else a + [(k, v)];
    assert forall k' :: k' != k ==> Get(r, k') == Get(a, k') by {
      forall k' | k' != k ensures Get(r, k') == Get(a, k') {
        FindUnaffected(a, i, k, v, k');
      }
    }
    FindPut(a, i, k, v);
    r
  }

  /** Reading after `$a[$key] = $v`. */
  lemma PutGet<K(!new), V>(a: seq<(K, V)>, key: K, v: V, k: K)
    ensures Get(Put(a, key, v), k) == if k == key then Some(v) else Get(a, k)
  {
  }

  /** `$a[$key] = $v` for a key `a` does not have appends the pair. */
  lemma PutAbsent<K(!new), V>(a: seq<(K, V)>, key: K, v: V)
    requires forall j :: 0 <= j < |a| ==> a[j].0 != key
    ensures Put(a, key, v) == a + [(key, v)]
  {
    assert !Has(a, key);
  }

  /** Two `$a[$k] = $v` with distinct keys on an empty array store the pairs in that order. */
  lemma PutTwo<K(!new), V>(a: (K, V), b: (K, V))
    requires a.0 != b.0
    ensures Put(Put([], a.0, a.1), b.0, b.1) == [a, b]
  {
    PutAbsent([], a.0, a.1);
    assert [] + [a] == [a];
    PutAbsent([a], b.0, b.1);
    assert [a] + [b] == [a, b];
  }

  /** Four `$a[$k] = $v` with distinct keys on an empty array store the pairs in that order. */
  lemma PutFour<K(!new), V>(a: (K, V), b: (K, V), c: (K, V), d: (K, V))
    requires a.0 != b.0 && a.0 != c.0 && a.0 != d.0 && b.0 != c.0 && b.0 != d.0 && c.0 != d.0
    ensures Put(Put(Put(Put([], a.0, a.1), b.0, b.1), c.0, c.1), d.0, d.1) == [a, b, c, d]
  {
    PutTwo(a, b);
    PutAbsent([a, b], c.0, c.1);
    assert [a, b] + [c] == [a, b, c];
    PutAbsent([a, b, c], d.0, d.1);
    assert [a, b, c] + [d] == [a, b, c, d];
  }

  /** Reading back the four pairs of an array with distinct keys. */
  lemma GetFour<K, V>(a: (K, V), b: (K, V), c: (K, V), d: (K, V))
    requires a.0 != b.0 && a.0 != c.0 && a.0 != d.0 && b.0 != c.0 && b.0 != d.0 && c.0 != d.0
    ensures Distinct([a, b, c, d])
    ensures Get([a, b, c, d], a.0) == Some(a.1) && Get([a, b, c, d], b.0) == Some(b.1)
    ensures Get([a, b, c, d], c.0) == Some(c.1) && Get([a, b, c, d], d.0) == Some(d.1)
  {
    var t := [a, b, c, d];
    GetAt(t, 0);
    GetAt(t, 1);
    GetAt(t, 2);
    GetAt(t, 3);
  }

  /** Overwriting or appending a pair with a key other than `k'` does not move `k'`. */
  lemma {:induction false} FindUnaffected<K, V>(a: seq<(K, V)>, i: nat, k: K, v: V, k': K)
    requires i <= |a| && k' != k
    requires i < |a| ==> a[i].0 == k
    ensures var r := if i < |a| then a[i := (k, v)] else a + [(k, v)];
      Get(r, k') == Get(a, k') && (Has(a, k') ==> Find(r, k') == Find(a, k'))
    decreases |a|
  {
    var r := if i < |a| then a[i := (k, v)] else a + [(k, v)];
    if a != [] && a[0].0 != k' {
      if i == 0 {
        assert r[1..] == a[1..];
      } else {
        FindUnaffected(a[1..], i - 1, k, v, k');
        assert r[1..] == (if i - 1 < |a[1..]| then a[1..][i - 1 := (k, v)] else a[1..] + [(k, v)]);
      }
    }
  }

  /** After `$a[$k] = $v` the first pair with key `k` is where Find put it. */
  lemma FindPut<K, V>(a: seq<(K, V)>, i: nat, k: K, v: V)
    requires i == Find(a, k)
    ensures Find(if i < |a| then a[i := (k, v)] else a + [(k, v)], k) == i
  {
    var r := if i < |a| then a[i := (k, v)] else a + [(k, v)];
    FindIsFirst(r, k, i);
  }

  /** Find returns the first index whose key matches. */
  lemma {:induction false} FindIsFirst<K, V>(a: seq<(K, V)>, k: K, i: nat)
    requires i < |a| && a[i].0 == k
    requires forall j :: 0 <= j < i ==> a[j].0 != k
    ensures Find(a, k) == i
    decreases |a|
  {
    if i > 0 {
      FindIsFirst(a[1..], k, i - 1);
    }
  }

  /** Reading from an array with one more pair at the end. */
  lemma {:induction false} GetSnoc<K, V>(a: seq<(K, V)>, x: (K, V), k: K)
    ensures Get(a + [x], k) == if Has(a, k) then Get(a, k) else if x.0 == k then Some(x.1) else None
    ensures Has(a, k) ==> Find(a + [x], k) == Find(a, k)
    decreases |a|
  {
    if a != [] && a[0].0 != k {
      GetSnoc(a[1..], x, k);
      assert (a + [x])[1..] == a[1..] + [x];
    }
  }

  /** Reading from an array with one more pair at the front. */
  lemma GetCons<K, V>(x: (K, V), a: seq<(K, V)>, k: K)
    ensures Get([x] + a, k) == if x.0 == k then Some(x.1) else Get(a, k)
  {
    assert ([x] + a)[1..] == a;
  }

  /** In a well-formed array, the value read under a key is the one paired with it. */
  lemma GetAt<K, V>(a: seq<(K, V)>, i: nat)
    requires Distinct(a) && i < |a|
    ensures Get(a, a[i].0) == Some(a[i].1)
  {
    FindIsFirst(a, a[i].0, i);
  }

  /** `unset($a[$k])`: the pair with key `k` disappears and the rest keeps its order. */
  function Remove<K(==,!new), V>(a: seq<(K, V)>, k: K): (r: seq<(K, V)>)
    ensures Distinct(a) ==> Distinct(r)
    ensures Distinct(a) ==> Get(r, k) == None
    ensures Distinct(a) ==> forall k' :: k' != k ==> Get(r, k') == Get(a, k')
  {
    var i := Find(a, k);
    if i < |a| then
      var r := a[..i] + a[i + 1..];
      assert Distinct(a) ==> Get(r, k) == None && forall k' :: k' != k ==> Get(r, k') == Get(a, k') by {
        if Distinct(a) {
          RemoveAtLookup(a, i);
        }
      }
      r
    else a
  }

  lemma RemoveAtLookup<K(!new), V>(a: seq<(K, V)>, i: nat)
    requires Distinct(a) && i < |a|
    ensures Get(a[..i] + a[i + 1..], a[i].0) == None
    ensures forall k' :: k' != a[i].0 ==> Get(a[..i] + a[i + 1..], k') == Get(a, k')
  {
    var r := a[..i] + a[i + 1..];
    assert forall j :: 0 <= j < |r| ==> r[j] == (if j < i then a[j] else a[j + 1]);
    forall k' | k' != a[i].0 ensures Get(r, k') == Get(a, k') {
      var f := Find(a, k');
      if f < |a| {
        if f < i {
          FindIsFirst(r, k', f);
        } else {
          FindIsFirst(r, k', f - 1);
        }
      }
    }
  }
}
