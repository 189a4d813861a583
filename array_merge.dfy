/**
 * The three ways the core combines PHP arrays:
 *  - array_merge: string keys overwrite in place (later wins) or append,
 *    integer keys are renumbered and appended;
 *  - array_merge_recursive: as array_merge, except that a string key present
 *    on both sides is turned into an array and merged into recursively, so
 *    colliding scalars become a list of both values and colliding lists are
 *    concatenated, instead of being replaced;
 *  - the union operator `+`: keys already on the left win.
 */
module ArrayMerge {
  import opened Wrappers
  import opened Assoc
  import opened PhpValues

  /** One pair of array_merge folded into the result. */
  function MergeStep(dest: PArray, p: (Key, Value)): PArray {
    if p.0.StrKey? then Put(dest, p.0, p.1) else Push(dest, p.1)
  }

  /** Folds every pair of `src`, in order, into `dest`. */
  function MergeInto(dest: PArray, src: PArray): PArray
    decreases |src|
  {
    if src == [] then dest
    else MergeStep(MergeInto(dest, src[..|src| - 1]), src[|src| - 1])
  }

  /** array_merge(a, b): the first array is copied into an empty one, then the second is folded in. */
  function Merge(a: PArray, b: PArray): PArray {
    MergeInto(MergeInto([], a), b)
  }

  /** The fold keeps keys distinct. */
  lemma {:induction false} MergeIntoDistinct(dest: PArray, src: PArray)
    requires Distinct(dest)
    ensures Distinct(MergeInto(dest, src))
    decreases |src|
  {
    if src != [] {
      MergeIntoDistinct(dest, src[..|src| - 1]);
    }
  }

  /** Under the fold, a string key read afterwards has the value `src` gives it, else the one `dest` had. */
  lemma {:induction false} MergeIntoGet(dest: PArray, src: PArray, s: string)
    requires Distinct(src)
    ensures Get(MergeInto(dest, src), StrKey(s)) ==
      if Has(src, StrKey(s)) then Get(src, StrKey(s)) else Get(dest, StrKey(s))
    decreases |src|
  {
    if src != [] {
      var init, last := src[..|src| - 1], src[|src| - 1];
      assert src == init + [last];
      MergeIntoGet(dest, init, s);
      GetSnoc(init, last, StrKey(s));
      if last.0.IntKey? {
        PushKeepsStrings(MergeInto(dest, init), last.1, s);
      } else if last.0 == StrKey(s) {
        assert !Has(init, StrKey(s));
      }
    }
  }

  /**
   * array_merge on well-formed arrays: a string key of the result holds the
   * second array's value when it has the key, else the first array's; the
   * result is well-formed.
   */
  lemma MergeGet(a: PArray, b: PArray, s: string)
    requires Distinct(a) && Distinct(b)
    ensures Distinct(Merge(a, b))
    ensures Get(Merge(a, b), StrKey(s)) ==
      if Has(b, StrKey(s)) then Get(b, StrKey(s)) else Get(a, StrKey(s))
  {
    MergeIntoGet([], a, s);
    MergeIntoGet(MergeInto([], a), b, s);
    MergeIntoDistinct([], a);
    MergeIntoDistinct(MergeInto([], a), b);
  }

  /** array_merge(a, b, c). */
  function Merge3(a: PArray, b: PArray, c: PArray): PArray {
    MergeInto(MergeInto(MergeInto([], a), b), c)
  }

  /**
   * array_merge of three arrays: a string key takes its value from the last
   * argument that has it; the result is well-formed.
   */
  lemma Merge3Get(a: PArray, b: PArray, c: PArray, s: string)
    requires Distinct(a) && Distinct(b) && Distinct(c)
    ensures Distinct(Merge3(a, b, c))
    ensures Get(Merge3(a, b, c), StrKey(s)) ==
      if Has(c, StrKey(s)) then Get(c, StrKey(s))
      else if Has(b, StrKey(s)) then Get(b, StrKey(s))
      else Get(a, StrKey(s))
  {
    MergeIntoGet([], a, s);
    MergeIntoGet(MergeInto([], a), b, s);
    MergeIntoGet(MergeInto(MergeInto([], a), b), c, s);
    MergeIntoDistinct([], a);
    MergeIntoDistinct(MergeInto([], a), b);
    MergeIntoDistinct(MergeInto(MergeInto([], a), b), c);
  }

  /** `$a + $b`: pairs of `b` whose key `a` lacks are appended, in `b`'s order. */
  function Union(a: PArray, b: PArray): PArray
    decreases |b|
  {
    if b == [] then a
    else
      var u := Union(a, b[..|b| - 1]);
      var p := b[|b| - 1];
      if Has(u, p.0) then u else u + [p]
  }

  /** The left operand of `+` wins every key it has; the right one fills in the rest. */
  lemma {:induction false} UnionGet(a: PArray, b: PArray, k: Key)
    ensures Get(Union(a, b), k) == if Has(a, k) then Get(a, k) else Get(b, k)
    decreases |b|
  {
    if b != [] {
      var init, p := b[..|b| - 1], b[|b| - 1];
      assert b == init + [p];
      UnionGet(a, init, k);
      GetSnoc(init, p, k);
      var u := Union(a, init);
      if !Has(u, p.0) {
        GetSnoc(u, p, k);
      }
    }
  }

  /** `+` keeps keys distinct. */
  lemma {:induction false} UnionDistinct(a: PArray, b: PArray)
    requires Distinct(a)
    ensures Distinct(Union(a, b))
    decreases |b|
  {
    if b != [] {
      UnionDistinct(a, b[..|b| - 1]);
      var u := Union(a, b[..|b| - 1]);
      var p := b[|b| - 1];
      if !Has(u, p.0) {
        assert forall j :: 0 <= j < |u| ==> u[j].0 != p.0;
      }
    }
  }

  /**
   * What array_merge_recursive turns the value already stored under a
   * colliding key into before merging into it: null becomes [null], any other
   * value is cast to an array.
   */
  function MergeTarget(d: Value): PArray {
    if d.Null? then [(IntKey(0), Null)] else CastToArray(d)
  }

  /** php_array_merge_recursive(dest, src) for the pairs of `src` from index `i` on. */
  function MergeRecFrom(dest: PArray, src: PArray, i: nat): PArray
    requires i <= |src|
    decreases Arr(src), 1, |src| - i
  {
    if i == |src| then dest
    else
      assert src[i] in src;
      MergeRecFrom(MergeRecStep(dest, src[i].0, src[i].1), src, i + 1)
  }

  /**
   * One pair of array_merge_recursive: an integer key is renumbered and
   * appended; a new string key is appended; a string key `dest` already has
   * ends up holding the two values combined.
   */
  function MergeRecStep(dest: PArray, k: Key, v: Value): PArray
    decreases v, 3
  {
    if k.IntKey? then Push(dest, v)
    else match Get(dest, k)
      case None => Put(dest, k, v)
      case Some(d) => Put(dest, k, Arr(Combine(d, v)))
  }

  /** The array a colliding string key ends up holding: the newer value merged into the older one. */
  function Combine(d: Value, v: Value): PArray
    decreases v, 2
  {
    if v.Arr? then MergeRecFrom(MergeTarget(d), v.a, 0) else Push(MergeTarget(d), v)
  }

  /** One step touches only the key it merges, and keeps keys distinct. */
  lemma MergeRecStepGet(dest: PArray, k: Key, v: Value, s: string)
    ensures Distinct(dest) ==> Distinct(MergeRecStep(dest, k, v))
    ensures Get(MergeRecStep(dest, k, v), StrKey(s)) ==
      if k != StrKey(s) then Get(dest, StrKey(s))
      else match Get(dest, k)
        case None => Some(v)
        case Some(d) => Some(Arr(Combine(d, v)))
  {
    if k.IntKey? {
      PushKeepsStrings(dest, v, s);
    }
  }

  /** array_merge_recursive(a, b). */
  function MergeRecursive(a: PArray, b: PArray): PArray {
    MergeRecFrom(MergeRecFrom([], a, 0), b, 0)
  }

  /** The recursive fold keeps keys distinct. */
  lemma {:induction false} MergeRecFromDistinct(dest: PArray, src: PArray, i: nat)
    requires i <= |src| && Distinct(dest)
    ensures Distinct(MergeRecFrom(dest, src, i))
    decreases |src| - i
  {
    if i < |src| {
      MergeRecStepGet(dest, src[i].0, src[i].1, "");
      MergeRecFromDistinct(MergeRecStep(dest, src[i].0, src[i].1), src, i + 1);
    }
  }

  /**
   * Under the recursive fold a string key read afterwards is untouched when
   * `src[i..]` lacks it, takes `src`'s value when only `src` has it, and holds
   * the two values combined when both sides have it.
   */
  lemma {:induction false} MergeRecFromGet(dest: PArray, src: PArray, i: nat, s: string)
    requires i <= |src| && Distinct(src)
    ensures Get(MergeRecFrom(dest, src, i), StrKey(s)) ==
      match Get(src[i..], StrKey(s))
      case None => Get(dest, StrKey(s))
      case Some(v) =>
        match Get(dest, StrKey(s))
        case None => Some(v)
        case Some(d) => Some(Arr(Combine(d, v)))
    decreases |src| - i
  {
    if i < |src| {
      var dest' := MergeRecStep(dest, src[i].0, src[i].1);
      MergeRecStepGet(dest, src[i].0, src[i].1, s);
      MergeRecFromGet(dest', src, i + 1, s);
      assert src[i..] == [src[i]] + src[i + 1..];
      GetCons(src[i], src[i + 1..], StrKey(s));
      if src[i].0 == StrKey(s) {
        assert Get(src[i + 1..], StrKey(s)) == None;
      }
    }
  }

  /**
   * array_merge_recursive on well-formed arrays, key by key: a string key only
   * one side has keeps that side's value; a key both sides have holds the two
   * values combined, the first array's value first.
   */
  lemma MergeRecursiveGet(a: PArray, b: PArray, s: string)
    requires Distinct(a) && Distinct(b)
    ensures Distinct(MergeRecursive(a, b))
    ensures Get(MergeRecursive(a, b), StrKey(s)) ==
      match (Get(a, StrKey(s)), Get(b, StrKey(s)))
      case (None, None) => None
      case (Some(x), None) => Some(x)
      case (None, Some(y)) => Some(y)
      case (Some(x), Some(y)) => Some(Arr(Combine(x, y)))
  {
    assert a[0..] == a && b[0..] == b;
    MergeRecFromGet([], a, 0, s);
    MergeRecFromGet(MergeRecFrom([], a, 0), b, 0, s);
    MergeRecFromDistinct([], a, 0);
    MergeRecFromDistinct(MergeRecFrom([], a, 0), b, 0);
  }

  /**
   * Two colliding non-array values are not overwritten: they become the list
   * [older, newer] (a null older value included).
   */
  lemma CombineScalars(x: Value, y: Value)
    requires !x.Arr? && !x.EnvObject? && !y.Arr?
    ensures Combine(x, y) == [(IntKey(0), x), (IntKey(1), y)]
  {
    var t := MergeTarget(x);
    assert t == [(IntKey(0), x)];
    assert MaxIntKey(t) == Some(0);
  }

  /**
   * Two colliding arrays merge key by key: a string key of the result holds
   * the newer array's value when only it has the key, the older one's when only
   * that has it, and the two combined (recursively) when both have it.
   */
  lemma CombineArrays(x: PArray, y: PArray, s: string)
    requires Distinct(y)
    ensures Get(Combine(Arr(x), Arr(y)), StrKey(s)) ==
      match (Get(x, StrKey(s)), Get(y, StrKey(s)))
      case (None, None) => None
      case (Some(p), None) => Some(p)
      case (None, Some(q)) => Some(q)
      case (Some(p), Some(q)) => Some(Arr(Combine(p, q)))
  {
    assert y[0..] == y;
    MergeRecFromGet(x, y, 0, s);
  }

  /**
   * Folding integer-keyed pairs appends their values, in order, after what
   * `dest` already holds (each under a fresh integer key).
   */
  lemma {:induction false} MergeRecFromInts(dest: PArray, src: PArray, i: nat)
    requires i <= |src| && forall j :: i <= j < |src| ==> src[j].0.IntKey?
    ensures var r := MergeRecFrom(dest, src, i);
      |r| == |dest| + |src| - i && r[..|dest|] == dest &&
      forall k :: |dest| <= k < |r| ==> r[k].1 == src[k - |dest| + i].1
    decreases |src| - i
  {
    if i < |src| {
      var next := Push(dest, src[i].1);
      assert MergeRecStep(dest, src[i].0, src[i].1) == next;
      MergeRecFromInts(next, src, i + 1);
      var r := MergeRecFrom(next, src, i + 1);
      assert r[..|dest|] == next[..|dest|] == dest;
      forall k | |dest| <= k < |r|
        ensures r[k].1 == src[k - |dest| + i].1
      {
        if k == |dest| {
          assert r[k] == next[|dest|];
        } else {
          var m := k - |next| + (i + 1);
          assert |next| <= k < |r| && m == k - |dest| + i;
          assert r[k].1 == src[m].1;
        }
      }
    }
  }

  /**
   * Two colliding lists are not merged key by key: the newer list's values
   * are appended after the older array's pairs, in order, so `[1, 2]` and
   * `[3]` give `[1, 2, 3]`.
   */
  lemma CombineLists(x: PArray, y: PArray)
    requires forall j :: 0 <= j < |y| ==> y[j].0.IntKey?
    ensures |Combine(Arr(x), Arr(y))| == |x| + |y|
    ensures Combine(Arr(x), Arr(y))[..|x|] == x
    ensures forall k :: |x| <= k < |x| + |y| ==> Combine(Arr(x), Arr(y))[k].1 == y[k - |x|].1
  {
    assert MergeTarget(Arr(x)) == x;
    MergeRecFromInts(x, y, 0);
  }
}
