/**
 * The registry of entries (src/Entries.php): an ordered collection keyed by
 * fullname. Inserting a descriptor and its parameters builds an entry and
 * stores it under its fullname; when that fullname is already present, the
 * new entry's params become the recursive merge of the old params and its
 * own. Writing visits the entries in order and writes those the tag filter
 * admits. Reading merges already-parsed source documents and inserts every key.
 */
module EntriesModel {
  import opened Wrappers
  import opened Assoc
  import opened PhpValues
  import opened ArrayMerge
  import opened Descriptors
  import opened ParamLayers
  import opened EntryModel

  /* --------------------------------------------------------------- filter */

  /**
   * `checkFilter`: every string-keyed filter pair names a tag that is set and
   * strictly equal to it, and every integer-keyed filter value is strictly
   * equal to some tag value.
   */
  predicate Admits(filter: PArray, tags: PArray) {
    (forall j :: 0 <= j < |filter| && filter[j].0.StrKey? ==>
      IsSet(tags, filter[j].0) && GetOrNull(tags, filter[j].0) == filter[j].1)
    && (forall j :: 0 <= j < |filter| && filter[j].0.IntKey? ==>
      exists t :: 0 <= t < |tags| && tags[t].1 == filter[j].1)
  }

  /** A filter on a tag that is null, such as the feature of a one-segment name, never matches. */
  lemma NullTagNeverMatches(filter: PArray, tags: PArray, j: nat)
    requires j < |filter| && filter[j].0.StrKey? && GetOrNull(tags, filter[j].0) == Null
    ensures !Admits(filter, tags)
  {
  }

  /** An empty filter admits every entry. */
  lemma EmptyFilterAdmits(tags: PArray)
    ensures Admits([], tags)
  {
  }

  /** `in_array($v, $a, true)`. */
  method InArray(v: Value, a: PArray) returns (found: bool)
    ensures found <==> exists t :: 0 <= t < |a| && a[t].1 == v
  {
    var i := 0;
    while i < |a|
      invariant 0 <= i <= |a|
      invariant forall t :: 0 <= t < i ==> a[t].1 != v
    {
      if a[i].1 == v {
        return true;
      }
      i := i + 1;
    }
    return false;
  }

  /* --------------------------------------------------------------- insert */

  /** Every entry is stored under its own fullname, once, and is well-formed. */
  ghost predicate RegistryWellFormed(view: Registry) {
    Distinct(view) &&
    forall j :: 0 <= j < |view| ==> view[j].0 == Fullname(view[j].1.tags) && WellFormed(view[j].1)
  }

  /** The entry stored by an insert: the new one, its params merged under the old entry's when there is one. */
  function Stored(view: Registry, d: EntryData): EntryData {
    match Get(view, Fullname(d.tags))
    case None => d
    case Some(prev) => d.(params := MergeLayers(prev.params, d.params))
  }

  /**
   * `offsetSet($key, $value)` for a value that is not an Entry: the entry
   * built from the key and `(array) $value` is stored under its fullname.
   * A new fullname is appended; an existing one keeps its position and gets
   * the new entry, whose tags win and whose params are merged into the old ones.
   */
  function Insert(view: Registry, key: string, raw: Value): Result<Registry, Error> {
    match Construct(key, CastToArray(raw))
    case Failure(e) => Failure(e)
    case Success(d) => Success(Put(view, Fullname(d.tags), Stored(view, d)))
  }

  /**
   * An insert fails exactly when building the entry does. Otherwise the entry
   * is readable under its fullname, with its own tags; every other fullname
   * reads as before; an existing fullname keeps its position and a new one is
   * appended.
   */
  lemma InsertPlaces(view: Registry, key: string, raw: Value)
    ensures var r := Insert(view, key, raw);
      (Construct(key, CastToArray(raw)).Failure? <==> r.Failure?) &&
      (r.Success? ==>
        var d := Construct(key, CastToArray(raw)).value;
        var name := Fullname(d.tags);
        Get(r.value, name) == Some(Stored(view, d)) && Stored(view, d).tags == d.tags &&
        (forall k :: k != name ==> Get(r.value, k) == Get(view, k)) &&
        (Has(view, name) ==> |r.value| == |view| && Find(r.value, name) == Find(view, name)) &&
        (!Has(view, name) ==> r.value == view + [(name, d)]))
  {
    match Construct(key, CastToArray(raw))
    case Failure(_) =>
    case Success(d) =>
      InsertIs(view, key, raw, d);
      StoredPlaces(view, d);
  }

  /** Where the entry built from `d` lands in the registry, and what happens to the other slots. */
  lemma StoredPlaces(view: Registry, d: EntryData)
    ensures var name := Fullname(d.tags);
      var r := Put(view, name, Stored(view, d));
      Get(r, name) == Some(Stored(view, d)) && Stored(view, d).tags == d.tags &&
      (forall k :: k != name ==> Get(r, k) == Get(view, k)) &&
      (Has(view, name) ==> |r| == |view| && Find(r, name) == Find(view, name)) &&
      (!Has(view, name) ==> r == view + [(name, d)])
  {
    var name := Fullname(d.tags);
    var s := Stored(view, d);
    assert s.tags == d.tags;
    if !Has(view, name) {
      assert s == d;
    }
  }

  /** The registry after a successful insert, from the entry it built. */
  lemma InsertIs(view: Registry, key: string, raw: Value, d: EntryData)
    requires Construct(key, CastToArray(raw)) == Success(d)
    ensures Insert(view, key, raw) == Success(Put(view, Fullname(d.tags), Stored(view, d)))
  {
  }

  /** Inserting keeps every entry under its own fullname, once, and well-formed. */
  lemma InsertWellFormed(view: Registry, key: string, raw: Value)
    requires RegistryWellFormed(view)
    ensures Insert(view, key, raw).Success? ==> RegistryWellFormed(Insert(view, key, raw).value)
  {
    match Construct(key, CastToArray(raw))
    case Failure(_) =>
    case Success(d) =>
      ConstructFacts(key, CastToArray(raw));
      InsertIs(view, key, raw, d);
      StoredWellFormed(view, d);
  }

  /** Storing well-formed fields under their fullname, merged with the entry they replace, keeps the registry well-formed. */
  lemma StoredWellFormed(view: Registry, d: EntryData)
    requires RegistryWellFormed(view) && WellFormed(d)
    ensures RegistryWellFormed(Put(view, Fullname(d.tags), Stored(view, d)))
  {
    var name := Fullname(d.tags);
    var stored := Stored(view, d);
    if Has(view, name) {
      var i := Find(view, name);
      GetAt(view, i);
      MergeLayersWellFormed(view[i].1.params, d.params);
    }
    var r := Put(view, name, stored);
    forall j | 0 <= j < |r|
      ensures r[j].0 == Fullname(r[j].1.tags) && WellFormed(r[j].1)
    {
      if j < |view| && view[j].0 != name {
        assert r[j] == view[j];
      } else {
        assert r[j] == (name, stored) by {
          if j < |view| {
            FindIsFirst(view, name, j);
            assert Get(r, name) == Some(r[Find(r, name)].1);
          }
        }
      }
    }
  }

  /**
   * On a collision, parameter by parameter: a parameter of a layer only one
   * of the two entries declares keeps its value, and one both declare holds
   * the two values combined, the old value first.
   */
  lemma InsertMergesParams(view: Registry, key: string, raw: Value, env: string, s: string)
    requires RegistryWellFormed(view) && Insert(view, key, raw).Success?
    requires Has(view, Fullname(Construct(key, CastToArray(raw)).value.tags))
    ensures var d := Construct(key, CastToArray(raw)).value;
      var prev := Get(view, Fullname(d.tags)).value;
      var stored := Get(Insert(view, key, raw).value, Fullname(d.tags)).value;
      Get(LayerOr(stored.params, env), StrKey(s)) ==
        match (Get(LayerOr(prev.params, env), StrKey(s)), Get(LayerOr(d.params, env), StrKey(s)))
        case (None, None) => None
        case (Some(x), None) => Some(x)
        case (None, Some(y)) => Some(y)
        case (Some(x), Some(y)) => Some(Arr(Combine(x, y)))
  {
    InsertPlaces(view, key, raw);
    ConstructFacts(key, CastToArray(raw));
    var d := Construct(key, CastToArray(raw)).value;
    var i := Find(view, Fullname(d.tags));
    GetAt(view, i);
    var prev := view[i].1;
    MergeLayersGet(prev.params, d.params, env);
    match (Get(prev.params, env), Get(d.params, env))
    case (Some(x), Some(y)) =>
      assert LayerOr(d.params, env) == y;
      CombineArrays(x, y, s);
    case _ =>
  }

  /**
   * Two values a parameter gets from two declarations of the same entry are
   * not overwritten: the merged parameter is the list [old, new].
   */
  lemma CollidingScalarsBecomeList(x: Value, y: Value)
    requires !x.Arr? && !x.EnvObject? && !y.Arr?
    ensures Arr(Combine(x, y)) == Arr([(IntKey(0), x), (IntKey(1), y)])
  {
    CombineScalars(x, y);
  }

  /**
   * `a:T` and then `a:T@prod` land in the same slot, whatever plain
   * parameters each declares: the second insert adds no key and leaves the
   * slot where the first one put it.
   */
  lemma SameSlotAcrossEnvs(view: Registry, name: string, typ: string, env: string, raw1: Value, raw2: Value)
    requires WellFormedEntry(EntryFields(name, typ, "")) && WellFormedEntry(EntryFields(name, typ, env))
    requires PlainParams(CastToArray(raw1)) && PlainParams(CastToArray(raw2))
    requires Insert(view, FormatEntry(EntryFields(name, typ, "")), raw1).Success?
    requires Insert(Insert(view, FormatEntry(EntryFields(name, typ, "")), raw1).value, FormatEntry(EntryFields(name, typ, env)), raw2).Success?
    ensures var first := Insert(view, FormatEntry(EntryFields(name, typ, "")), raw1).value;
      var second := Insert(first, FormatEntry(EntryFields(name, typ, env)), raw2).value;
      var k := Fullname(Construct(FormatEntry(EntryFields(name, typ, "")), CastToArray(raw1)).value.tags);
      |second| == |first| && Find(second, k) == Find(first, k) && Has(first, k)
  {
    var f1, f2 := EntryFields(name, typ, ""), EntryFields(name, typ, env);
    var first := Insert(view, FormatEntry(f1), raw1).value;
    InsertPlaces(view, FormatEntry(f1), raw1);
    InsertPlaces(first, FormatEntry(f2), raw2);
    ConstructTags(f1, CastToArray(raw1));
    ConstructTags(f2, CastToArray(raw2));
    assert InitialData(Matched(f1)).tags == InitialData(Matched(f2)).tags;
  }

  /* ---------------------------------------------------------------- write */

  /** What writing the `j`-th entry does: nothing when the filter rejects it. */
  function Outcome(view: Registry, filter: PArray, env: string, j: nat): WriteOutcome
    requires j < |view|
  {
    if Admits(filter, view[j].1.tags) then WriteEntry(view[j].1, env, view) else Skipped
  }

  /** The outcomes of the first `n` entries, in order. */
  function Outcomes(view: Registry, filter: PArray, env: string, n: nat): (outs: seq<WriteOutcome>)
    requires n <= |view|
    ensures |outs| == n
  {
    if n == 0 then [] else Outcomes(view, filter, env, n - 1) + [Outcome(view, filter, env, n - 1)]
  }

  /** The `j`-th outcome is the `j`-th entry's. */
  lemma {:induction false} OutcomesAt(view: Registry, filter: PArray, env: string, n: nat, j: nat)
    requires j < n <= |view|
    ensures Outcomes(view, filter, env, n)[j] == Outcome(view, filter, env, j)
  {
    var prev, last := Outcomes(view, filter, env, n - 1), Outcome(view, filter, env, n - 1);
    assert Outcomes(view, filter, env, n) == prev + [last];
    if j < n - 1 {
      OutcomesAt(view, filter, env, n - 1, j);
      assert (prev + [last])[j] == prev[j];
    } else {
      assert (prev + [last])[j] == last;
    }
  }

  /**
   * Walking the outcomes from the `i`-th on: the calls made, in order, and
   * the error that stopped the walk, if any.
   */
  function Walk(outs: seq<WriteOutcome>, i: nat): (seq<SinkCall>, Option<Error>)
    requires i <= |outs|
    decreases |outs| - i
  {
    if i == |outs| then ([], None)
    else match outs[i]
      case Skipped => Walk(outs, i + 1)
      case Failed(e) => ([], Some(e))
      case Called(c) =>
        var rest := Walk(outs, i + 1);
        ([c] + rest.0, rest.1)
  }

  /** `write($env, ...)`: the sink calls and the error, if any, of a walk over every entry. */
  function WriteAll(view: Registry, filter: PArray, env: string): (seq<SinkCall>, Option<Error>) {
    Walk(Outcomes(view, filter, env, |view|), 0)
  }

  /** One step of the walk, seen from the calls already made. */
  lemma WalkStep(outs: seq<WriteOutcome>, i: nat, done: seq<SinkCall>)
    requires i <= |outs|
    ensures i == |outs| ==> done + Walk(outs, i).0 == done && Walk(outs, i).1.None?
    ensures i < |outs| && outs[i].Failed? ==> done + Walk(outs, i).0 == done && Walk(outs, i).1 == Some(outs[i].error)
    ensures i < |outs| && outs[i].Called? ==>
      done + Walk(outs, i).0 == (done + [outs[i].call]) + Walk(outs, i + 1).0 && Walk(outs, i).1 == Walk(outs, i + 1).1
    ensures i < |outs| && outs[i].Skipped? ==> Walk(outs, i) == Walk(outs, i + 1)
  {
    if i < |outs| && outs[i].Called? {
      assert done + ([outs[i].call] + Walk(outs, i + 1).0) == (done + [outs[i].call]) + Walk(outs, i + 1).0;
    }
  }

  /** Every call the walk makes is the call of some outcome, and there are no more calls than outcomes. */
  lemma {:induction false} WalkSound(outs: seq<WriteOutcome>, i: nat)
    requires i <= |outs|
    ensures |Walk(outs, i).0| <= |outs| - i
    ensures forall c :: c in Walk(outs, i).0 ==> exists j :: i <= j < |outs| && outs[j] == Called(c)
    decreases |outs| - i
  {
    if i < |outs| {
      WalkSound(outs, i + 1);
    }
  }

  /** A walk that ends without error makes every call of its outcomes. */
  lemma {:induction false} WalkComplete(outs: seq<WriteOutcome>, i: nat, j: nat)
    requires i <= j < |outs| && Walk(outs, i).1.None? && outs[j].Called?
    ensures outs[j].call in Walk(outs, i).0
    decreases j - i
  {
    if i < j {
      WalkComplete(outs, i + 1, j);
    }
  }

  /** A walk that ends with an error stopped at the first failing outcome, and that outcome's error is the one reported. */
  lemma {:induction false} WalkStops(outs: seq<WriteOutcome>, i: nat)
    requires i <= |outs|
    ensures Walk(outs, i).1.Some? <==> exists j :: i <= j < |outs| && outs[j].Failed?
    ensures Walk(outs, i).1.Some? ==>
      exists j :: i <= j < |outs| && outs[j] == Failed(Walk(outs, i).1.value) &&
        forall t :: i <= t < j ==> !outs[t].Failed?
    decreases |outs| - i
  {
    if i < |outs| {
      WalkStops(outs, i + 1);
      if !outs[i].Failed? && Walk(outs, i).1.Some? {
        var j :| i + 1 <= j < |outs| && outs[j] == Failed(Walk(outs, i + 1).1.value) &&
          forall t :: i + 1 <= t < j ==> !outs[t].Failed?;
        assert forall t :: i <= t < j ==> !outs[t].Failed?;
      }
    }
  }

  /** The calls of the outcomes from the `i`-th up to the `n`-th (excluded): one per called outcome, in order. */
  function CallsBetween(outs: seq<WriteOutcome>, i: nat, n: nat): seq<SinkCall>
    requires i <= n <= |outs|
    decreases n - i
  {
    if i == n then []
    else (if outs[i].Called? then [outs[i].call] else []) + CallsBetween(outs, i + 1, n)
  }

  /** The position of the first failing outcome from the `i`-th on, or the end when none fails. */
  function FirstFailure(outs: seq<WriteOutcome>, i: nat): (n: nat)
    requires i <= |outs|
    ensures i <= n <= |outs|
    ensures n < |outs| ==> outs[n].Failed?
    ensures forall t :: i <= t < n ==> !outs[t].Failed?
    decreases |outs| - i
  {
    if i == |outs| || outs[i].Failed? then i else FirstFailure(outs, i + 1)
  }

  /**
   * The walk makes, in order, the calls of the outcomes before the first
   * failing one, and reports that outcome's error.
   */
  lemma {:induction false} WalkInOrder(outs: seq<WriteOutcome>, i: nat)
    requires i <= |outs|
    ensures var n := FirstFailure(outs, i);
      Walk(outs, i).0 == CallsBetween(outs, i, n) &&
      Walk(outs, i).1 == (if n < |outs| then Some(outs[n].error) else None)
    decreases |outs| - i
  {
    if i < |outs| && !outs[i].Failed? {
      WalkInOrder(outs, i + 1);
    }
  }

  /**
   * `write` makes, in collection order and one per entry, the calls of the
   * entries the filter admits and that write, up to the first admitted entry
   * that fails.
   */
  lemma WriteAllInOrder(view: Registry, filter: PArray, env: string)
    ensures var outs := Outcomes(view, filter, env, |view|);
      WriteAll(view, filter, env).0 == CallsBetween(outs, 0, FirstFailure(outs, 0))
  {
    WalkInOrder(Outcomes(view, filter, env, |view|), 0);
  }

  /**
   * The calls `write` makes are exactly those of the admitted entries that
   * write, when no entry fails: each call belongs to an admitted entry, and
   * every admitted entry that writes is called.
   */
  lemma WriteAllCalls(view: Registry, filter: PArray, env: string, c: SinkCall)
    requires WriteAll(view, filter, env).1.None?
    ensures c in WriteAll(view, filter, env).0 <==>
      exists j :: 0 <= j < |view| && Admits(filter, view[j].1.tags) && WriteEntry(view[j].1, env, view) == Called(c)
  {
    var outs := Outcomes(view, filter, env, |view|);
    if c in Walk(outs, 0).0 {
      WalkSound(outs, 0);
      var j :| 0 <= j < |outs| && outs[j] == Called(c);
      OutcomesAt(view, filter, env, |view|, j);
    }
    if j :| 0 <= j < |view| && Admits(filter, view[j].1.tags) && WriteEntry(view[j].1, env, view) == Called(c) {
      OutcomesAt(view, filter, env, |view|, j);
      WalkComplete(outs, 0, j);
    }
  }

  /** `write` fails exactly when some admitted entry fails, and then with the error of the first such entry. */
  lemma WriteAllFails(view: Registry, filter: PArray, env: string)
    ensures WriteAll(view, filter, env).1.Some? <==>
      exists j :: 0 <= j < |view| && Admits(filter, view[j].1.tags) && WriteEntry(view[j].1, env, view).Failed?
    ensures WriteAll(view, filter, env).1.Some? ==>
      exists j :: 0 <= j < |view| && Admits(filter, view[j].1.tags) &&
        WriteEntry(view[j].1, env, view) == Failed(WriteAll(view, filter, env).1.value) &&
        forall t :: 0 <= t < j && Admits(filter, view[t].1.tags) ==> !WriteEntry(view[t].1, env, view).Failed?
  {
    var outs := Outcomes(view, filter, env, |view|);
    WalkStops(outs, 0);
    if Walk(outs, 0).1.Some? {
      var j :| 0 <= j < |outs| && outs[j] == Failed(Walk(outs, 0).1.value) && forall t :: 0 <= t < j ==> !outs[t].Failed?;
      OutcomesAt(view, filter, env, |view|, j);
      forall t | 0 <= t < j && Admits(filter, view[t].1.tags)
        ensures !WriteEntry(view[t].1, env, view).Failed?
      {
        OutcomesAt(view, filter, env, |view|, t);
      }
    } else {
      forall j | 0 <= j < |view| && Admits(filter, view[j].1.tags)
        ensures !WriteEntry(view[j].1, env, view).Failed?
      {
        OutcomesAt(view, filter, env, |view|, j);
      }
    }
  }

  /* ------------------------------------------------------------------ read */

  /**
   * src/Entries.php:32-48 after parsing: each file's document cast to an
   * array, without its `_public_key`, stored under the file name (a file
   * listed twice keeps its first position and its last document).
   */
  function Collect(sources: seq<(string, Value)>): seq<(string, PArray)>
    decreases |sources|
  {
    if sources == [] then []
    else
      var last := sources[|sources| - 1];
      Put(Collect(sources[..|sources| - 1]), last.0, Remove(CastToArray(last.1), StrKey("_public_key")))
  }

  /** No collected document keeps a `_public_key`. */
  lemma {:induction false} CollectDropsPublicKey(sources: seq<(string, Value)>, file: string)
    requires forall j :: 0 <= j < |sources| ==> Distinct(CastToArray(sources[j].1))
    ensures Get(Collect(sources), file).Some? ==> Get(Get(Collect(sources), file).value, StrKey("_public_key")) == None
    decreases |sources|
  {
    if sources != [] {
      CollectDropsPublicKey(sources[..|sources| - 1], file);
    }
  }

  /** `array_merge_recursive(...$documents)`: the documents folded into an empty array, in order. */
  function MergeAll(docs: seq<PArray>): PArray
    decreases |docs|
  {
    if docs == [] then [] else MergeRecFrom(MergeAll(docs[..|docs| - 1]), docs[|docs| - 1], 0)
  }

  /** A key only one document has keeps that document's value in the merged documents. */
  lemma {:induction false} MergeAllSingleSource(docs: seq<PArray>, k: int, s: string)
    requires 0 <= k < |docs| && forall j :: 0 <= j < |docs| ==> Distinct(docs[j])
    requires forall j :: 0 <= j < |docs| && j != k ==> !Has(docs[j], StrKey(s))
    ensures Get(MergeAll(docs), StrKey(s)) == Get(docs[k], StrKey(s))
    decreases |docs|
  {
    var n := |docs| - 1;
    assert docs[n][0..] == docs[n];
    MergeRecFromGet(MergeAll(docs[..n]), docs[n], 0, s);
    if k < n {
      MergeAllSingleSource(docs[..n], k, s);
    } else {
      MergeAllLacks(docs[..n], s);
    }
  }

  /** A key no document has is not in the merged documents. */
  lemma {:induction false} MergeAllLacks(docs: seq<PArray>, s: string)
    requires forall j :: 0 <= j < |docs| ==> Distinct(docs[j]) && !Has(docs[j], StrKey(s))
    ensures Get(MergeAll(docs), StrKey(s)) == None
    decreases |docs|
  {
    if docs != [] {
      var n := |docs| - 1;
      assert docs[n][0..] == docs[n];
      MergeRecFromGet(MergeAll(docs[..n]), docs[n], 0, s);
      MergeAllLacks(docs[..n], s);
    }
  }

  /**
   * One more document merged in: the merged documents stay well-formed, and a
   * key read afterwards is as `array_merge_recursive` leaves it after the
   * documents before the last one: untouched, taken from the last document,
   * or the two values combined, the earlier ones first.
   */
  lemma {:induction false} MergeAllStep(docs: seq<PArray>, s: string)
    requires docs != [] && forall j :: 0 <= j < |docs| ==> Distinct(docs[j])
    ensures Distinct(MergeAll(docs))
    ensures var n := |docs| - 1;
      Get(MergeAll(docs), StrKey(s)) ==
      match (Get(MergeAll(docs[..n]), StrKey(s)), Get(docs[n], StrKey(s)))
      case (None, None) => None
      case (Some(x), None) => Some(x)
      case (None, Some(y)) => Some(y)
      case (Some(x), Some(y)) => Some(Arr(Combine(x, y)))
    decreases |docs|
  {
    var n := |docs| - 1;
    if n > 0 {
      MergeAllStep(docs[..n], s);
    }
    assert docs[n][0..] == docs[n];
    MergeRecFromGet(MergeAll(docs[..n]), docs[n], 0, s);
    MergeRecFromDistinct(MergeAll(docs[..n]), docs[n], 0);
  }

  /** Two documents merge as `array_merge_recursive(a, b)`. */
  lemma MergeAllPair(a: PArray, b: PArray)
    ensures MergeAll([a, b]) == MergeRecursive(a, b)
  {
    assert [a, b][..1] == [a];
    assert [a][..0] == [];
    assert MergeAll([a]) == MergeRecFrom([], a, 0);
    assert MergeAll([a, b]) == MergeRecFrom(MergeAll([a]), b, 0);
  }

  /**
   * A key two files both set to a scalar is not overwritten by the later
   * file: it becomes the list of both values, the earlier file's first.
   */
  lemma SharedScalarBecomesList(a: PArray, b: PArray, s: string, x: Value, y: Value)
    requires Distinct(a) && Distinct(b)
    requires Get(a, StrKey(s)) == Some(x) && Get(b, StrKey(s)) == Some(y)
    requires !x.Arr? && !x.EnvObject? && !y.Arr?
    ensures Get(MergeAll([a, b]), StrKey(s)) == Some(Arr([(IntKey(0), x), (IntKey(1), y)]))
  {
    MergeAllPair(a, b);
    MergeRecursiveGet(a, b, s);
    CombineScalars(x, y);
  }

  /** The documents of the collected files, in order (`array_values`). */
  function Documents(data: seq<(string, PArray)>): (docs: seq<PArray>)
    ensures |docs| == |data|
    ensures forall j :: 0 <= j < |data| ==> docs[j] == data[j].1
  {
    seq(|data|, j requires 0 <= j < |data| => data[j].1)
  }

  /** The insert loop of src/Entries.php:52-55 from the `i`-th merged key on; the first failure stops it. */
  function InsertAll(view: Registry, merged: PArray, i: nat): Result<Registry, Error>
    requires i <= |merged|
    decreases |merged| - i
  {
    if i == |merged| then Success(view)
    else match Insert(view, KeyToString(merged[i].0), Arr(CastToArray(merged[i].1)))
      case Failure(e) => Failure(e)
      case Success(v) => InsertAll(v, merged, i + 1)
  }

  /** The registry `read` builds from parsed sources. */
  function ReadRegistry(sources: seq<(string, Value)>): Result<Registry, Error> {
    InsertAll([], MergeAll(Documents(Collect(sources))), 0)
  }

  /** The insert loop keeps the registry well-formed. */
  lemma {:induction false} InsertAllWellFormed(view: Registry, merged: PArray, i: nat)
    requires i <= |merged| && RegistryWellFormed(view)
    ensures InsertAll(view, merged, i).Success? ==> RegistryWellFormed(InsertAll(view, merged, i).value)
    decreases |merged| - i
  {
    if i < |merged| {
      var key, raw := KeyToString(merged[i].0), Arr(CastToArray(merged[i].1));
      InsertWellFormed(view, key, raw);
      if Insert(view, key, raw).Success? {
        InsertAllWellFormed(Insert(view, key, raw).value, merged, i + 1);
      }
    }
  }

  /* ------------------------------------------------------------ the object */

  /** The entry objects a sequence of slots refers to. */
  function EntriesOf(s: seq<(string, Entry)>): set<Entry> {
    set p | p in s :: p.1
  }

  /** The fullnames and fields of the stored entries, in order. */
  function ViewOf(s: seq<(string, Entry)>): (v: Registry)
    reads EntriesOf(s)
    ensures |v| == |s|
    ensures forall j :: 0 <= j < |s| ==> v[j] == (s[j].0, s[j].1.Data())
    decreases |s|
  {
    if s == [] then []
    else
      assert forall p :: p in s[..|s| - 1] ==> p in s;
      ViewOf(s[..|s| - 1]) + [(s[|s| - 1].0, s[|s| - 1].1.Data())]
  }

  /** The fields of the stored entries are read from the heap: a step that leaves every stored entry alone keeps them. */
  twostate lemma {:induction false} ViewOfKept(s: seq<(string, Entry)>)
    requires forall j :: 0 <= j < |s| ==> unchanged(s[j].1)
    ensures ViewOf(s) == old(ViewOf(s))
  {
    var v, w := ViewOf(s), old(ViewOf(s));
    assert |v| == |w|;
    forall j | 0 <= j < |s| ensures v[j] == w[j] {
      assert unchanged(s[j].1);
    }
  }

  /** An object outside the stored entries is at no position of the storage. */
  lemma NotStored(s: seq<(string, Entry)>, e: Entry)
    requires e !in EntriesOf(s)
    ensures forall j :: 0 <= j < |s| ==> s[j].1 != e
  {
    forall j | 0 <= j < |s| ensures s[j].1 != e {
      assert s[j] in s;
    }
  }

  /** Storing an entry object and then reading the fields is storing its fields. */
  lemma ViewOfPut(s: seq<(string, Entry)>, k: string, e: Entry)
    ensures ViewOf(Put(s, k, e)) == Put(ViewOf(s), k, e.Data())
  {
    var v := ViewOf(s);
    assert forall j :: 0 <= j < |s| ==> v[j].0 == s[j].0;
    SameKeysSameFind(s, v, k);
    var i := Find(s, k);
    if i < |s| {
      assert Put(s, k, e) == s[i := (k, e)];
      assert Put(v, k, e.Data()) == v[i := (k, e.Data())];
    } else {
      assert Put(s, k, e) == s + [(k, e)];
      assert Put(v, k, e.Data()) == v + [(k, e.Data())];
    }
  }

  /** Reading a slot and then its fields is reading the fields of the slot. */
  lemma ViewOfGet(s: seq<(string, Entry)>, k: string)
    ensures Get(ViewOf(s), k) == match Get(s, k) case None => None case Some(e) => Some(e.Data())
  {
    SameKeysSameFind(s, ViewOf(s), k);
  }

  /** Two sequences with the same keys at the same positions find every key at the same place. */
  lemma {:induction false} SameKeysSameFind<V, W>(a: seq<(string, V)>, b: seq<(string, W)>, k: string)
    requires |a| == |b| && forall j :: 0 <= j < |a| ==> a[j].0 == b[j].0
    ensures Find(a, k) == Find(b, k)
    decreases |a|
  {
    if a != [] && a[0].0 != k {
      SameKeysSameFind(a[1..], b[1..], k);
    }
  }

  /** The registry object: fullname -> Entry, and the tag filter. */
  class Entries {
    var storage: seq<(string, Entry)>
    var filter: PArray

    function View(): Registry
      reads this, EntriesOf(storage)
    {
      ViewOf(storage)
    }

    ghost predicate Valid()
      reads this, EntriesOf(storage)
    {
      RegistryWellFormed(View())
    }

    /**
     * `new self()`: an empty collection. The PHP filter property starts out
     * uninitialised; `read` sets it before anything reads it, so the empty
     * filter here is never observed through `read`.
     */
    constructor ()
      ensures storage == [] && filter == []
      ensures Valid()
    {
      storage := [];
      filter := [];
    }

    /** `offsetSet($key, $value)`: build the entry, merge the params of the one it replaces, store it. */
    method OffsetSet(key: string, raw: Value) returns (err: Option<Error>)
      modifies this
      ensures filter == old(filter)
      ensures match Insert(old(View()), key, raw)
        case Failure(e) => err == Some(e) && storage == old(storage) && View() == old(View())
        case Success(v) => err == None && View() == v
      ensures old(Valid()) ==> Valid()
    {
      ghost var before := View();
      var r := Entry.Create(key, CastToArray(raw));
      if r.Failure? {
        ViewOfKept(storage);
        return Some(r.error);
      }
      var e := r.value;
      ghost var d := e.Data();
      assert e !in EntriesOf(storage);
      NotStored(storage, e);
      Adopt(before, e);
      InsertIs(before, key, raw, d);
      if RegistryWellFormed(before) {
        InsertWellFormed(before, key, raw);
      }
      err := None;
    }

    /** Stores a new entry under its fullname, merging the params of the entry it replaces. */
    method Adopt(ghost before: Registry, e: Entry)
      requires before == View() && forall j :: 0 <= j < |storage| ==> storage[j].1 != e
      modifies this, e
      ensures filter == old(filter)
      ensures View() == Put(before, Fullname(old(e.tags)), Stored(before, old(e.Data())))
    {
      MergeParams(e);
      ViewOfKept(storage);
      Store(Fullname(e.tags), e);
    }

    /** A new entry whose fullname is already stored gets the stored params merged with its own. */
    method MergeParams(e: Entry)
      requires forall j :: 0 <= j < |storage| ==> storage[j].1 != e
      modifies e
      ensures e.Data() == Stored(old(View()), old(e.Data()))
    {
      var prev := Get(storage, Fullname(e.tags));
      ViewOfGet(storage, Fullname(e.tags));
      if prev.Some? {
        e.params := MergeLayers(prev.value.params, e.params);
      }
    }

    /** `$this[$name] = $entry`: the entry's data stored under `name`. */
    method Store(name: string, e: Entry)
      modifies this
      ensures filter == old(filter)
      ensures View() == Put(old(View()), name, e.Data())
    {
      ghost var before := storage;
      storage := Put(storage, name, e);
      ViewOfPut(before, name, e);
      ViewOfKept(before);
    }

    /** `checkFilter($entry)`: the string-keyed pairs first, then the integer-keyed values. */
    method CheckFilter(entry: Entry) returns (ok: bool)
      ensures ok == Admits(filter, entry.tags)
    {
      var i := 0;
      while i < |filter|
        invariant 0 <= i <= |filter|
        invariant forall j :: 0 <= j < i && filter[j].0.StrKey? ==>
          IsSet(entry.tags, filter[j].0) && GetOrNull(entry.tags, filter[j].0) == filter[j].1
      {
        if filter[i].0.StrKey? {
          if !IsSet(entry.tags, filter[i].0) || GetOrNull(entry.tags, filter[i].0) != filter[i].1 {
            return false;
          }
        }
        i := i + 1;
      }
      i := 0;
      while i < |filter|
        invariant 0 <= i <= |filter|
        invariant forall j :: 0 <= j < i && filter[j].0.IntKey? ==>
          exists t :: 0 <= t < |entry.tags| && entry.tags[t].1 == filter[j].1
      {
        if filter[i].0.IntKey? {
          var found := InArray(filter[i].1, entry.tags);
          if !found {
            return false;
          }
        }
        i := i + 1;
      }
      return true;
    }

    /**
     * `write($env, $postprocessor)`: the sink calls of the admitted entries,
     * in collection order, up to the first failure.
     */
    method Write(env: string) returns (calls: seq<SinkCall>, err: Option<Error>)
      ensures calls == WriteAll(View(), filter, env).0 && err == WriteAll(View(), filter, env).1
    {
      var registry := View();
      ghost var outs := Outcomes(registry, filter, env, |registry|);
      assert WriteAll(registry, filter, env) == Walk(outs, 0);
      calls, err := [], None;
      var i := 0;
      while i < |storage|
        invariant 0 <= i <= |storage|
        invariant View() == registry
        invariant calls + Walk(outs, i).0 == Walk(outs, 0).0 && Walk(outs, i).1 == Walk(outs, 0).1
      {
        var outcome := WriteAt(registry, outs, env, i);
        assert View() == registry;
        WalkStep(outs, i, calls);
        if outcome.Failed? {
          return calls, Some(outcome.error);
        } else if outcome.Called? {
          calls := calls + [outcome.call];
        }
        i := i + 1;
      }
      WalkStep(outs, i, calls);
    }

    /** The `i`-th entry of the loop in `write`: checked against the filter, then written. */
    method WriteAt(registry: Registry, ghost outs: seq<WriteOutcome>, env: string, i: nat) returns (outcome: WriteOutcome)
      requires registry == View() && i < |registry| && outs == Outcomes(registry, filter, env, |registry|)
      ensures outcome == outs[i]
    {
      OutcomesAt(registry, filter, env, |registry|, i);
      var entry := storage[i].1;
      var ok := CheckFilter(entry);
      if ok {
        outcome := WriteEntry(entry.Data(), env, registry);
      } else {
        outcome := Skipped;
      }
    }

    /**
     * `read(...)` after the files are parsed: collect the documents, merge
     * them recursively, insert every key, then set the filter.
     */
    static method Read(sources: seq<(string, Value)>, filter: PArray) returns (r: Result<Entries, Error>)
      ensures match ReadRegistry(sources)
        case Failure(e) => r == Failure(e)
        case Success(v) => r.Success? && fresh(r.value) && r.value.View() == v && r.value.filter == filter && r.value.Valid()
    {
      var data := CollectSources(sources);
      var merged := MergeAll(Documents(data));
      r := InsertEach(merged);
      if r.Success? {
        r.value.SetFilter(filter);
      }
    }

    /** `$entries->filter = $filter`: only the filter changes. */
    method SetFilter(f: PArray)
      modifies this
      ensures filter == f && storage == old(storage)
      ensures View() == old(View()) && (old(Valid()) ==> Valid())
    {
      filter := f;
    }

    /** The file loop of `read`, after parsing: each document without its `_public_key`, under its file name. */
    static method CollectSources(sources: seq<(string, Value)>) returns (data: seq<(string, PArray)>)
      ensures data == Collect(sources)
    {
      data := [];
      var i := 0;
      while i < |sources|
        invariant 0 <= i <= |sources|
        invariant data == Collect(sources[..i])
      {
        assert sources[..i + 1][..i] == sources[..i];
        var doc := CastToArray(sources[i].1);
        data := Put(data, sources[i].0, Remove(doc, StrKey("_public_key")));
        i := i + 1;
      }
      assert sources[..|sources|] == sources;
    }

    /** The insert loop of `read`: a new collection, then `$self[$key] = $value` for every merged key. */
    static method InsertEach(merged: PArray) returns (r: Result<Entries, Error>)
      ensures match InsertAll([], merged, 0)
        case Failure(e) => r == Failure(e)
        case Success(v) => r.Success? && fresh(r.value) && r.value.View() == v && r.value.filter == [] && r.value.Valid()
    {
      var self := new Entries();
      var i := 0;
      while i < |merged|
        invariant 0 <= i <= |merged|
        invariant fresh(self) && self.filter == [] && self.Valid()
        invariant InsertAll(self.View(), merged, i) == InsertAll([], merged, 0)
        modifies self
      {
        var err := self.OffsetSet(KeyToString(merged[i].0), Arr(CastToArray(merged[i].1)));
        if err.Some? {
          return Failure(err.value);
        }
        i := i + 1;
      }
      r := Success(self);
    }
  }
}
