/**
 * An entry's parameters (src/Entry.php:13-14): a two-level array from an env
 * specifier to the layer of parameters declared for it. Env specifiers and
 * parameter names are strings, so the two levels are kept apart as a sequence
 * of (env, layer) pairs; `Embed` gives back the PHP array they stand for.
 */
module ParamLayers {
  import opened Wrappers
  import opened Assoc
  import opened PhpValues
  import opened ArrayMerge

  type Layers = seq<(string, PArray)>

  /** `$params[$env] ?? []`. */
  function LayerOr(ls: Layers, env: string): PArray {
    match Get(ls, env)
    case None => []
    case Some(l) => l
  }

  /** No env occurs twice, and no layer repeats a parameter name. */
  ghost predicate WellFormedLayers(ls: Layers) {
    Distinct(ls) && forall e :: Distinct(LayerOr(ls, e))
  }

  /**
   * `$params[$env][$name] = $value`: the layer is created when missing, the
   * parameter is set in it, and nothing else changes.
   */
  function SetParam(ls: Layers, env: string, name: string, value: Value): (r: Layers)
    ensures forall e :: Has(ls, e) ==> Has(r, e)
    ensures Has(r, env)
    ensures forall e :: e != env ==> Get(r, e) == Get(ls, e)
    ensures Get(LayerOr(r, env), StrKey(name)) == Some(value)
    ensures forall k :: k != StrKey(name) ==> Get(LayerOr(r, env), k) == Get(LayerOr(ls, env), k)
    ensures WellFormedLayers(ls) ==> WellFormedLayers(r)
  {
    var r := Put(ls, env, Put(LayerOr(ls, env), StrKey(name), value));
    assert forall e :: e != env ==> LayerOr(r, e) == LayerOr(ls, e);
    r
  }

  /** The two-level PHP array a sequence of layers stands for. */
  function Embed(ls: Layers): (a: PArray)
    ensures |a| == |ls|
    ensures forall j :: 0 <= j < |ls| ==> a[j] == (StrKey(ls[j].0), Arr(ls[j].1))
  {
    if ls == [] then [] else [(StrKey(ls[0].0), Arr(ls[0].1))] + Embed(ls[1..])
  }

  lemma {:induction false} EmbedFind(ls: Layers, e: string)
    ensures Find(Embed(ls), StrKey(e)) == Find(ls, e)
    decreases |ls|
  {
    if ls != [] && ls[0].0 != e {
      EmbedFind(ls[1..], e);
    }
  }

  /** Reading an env from the embedded array reads its layer. */
  lemma EmbedGet(ls: Layers, e: string)
    ensures Get(Embed(ls), StrKey(e)) == match Get(ls, e)
      case None => None
      case Some(l) => Some(Arr(l))
  {
    EmbedFind(ls, e);
  }

  /** Storing a layer commutes with embedding. */
  lemma EmbedPut(ls: Layers, e: string, l: PArray)
    ensures Embed(Put(ls, e, l)) == Put(Embed(ls), StrKey(e), Arr(l))
  {
    EmbedFind(ls, e);
    var i := Find(ls, e);
    if i < |ls| {
      EmbedPutAt(ls, i, e, l);
    } else {
      assert Embed(ls + [(e, l)]) == Embed(ls) + [(StrKey(e), Arr(l))];
    }
  }

  /** Overwriting one layer in place commutes with embedding. */
  lemma EmbedPutAt(ls: Layers, i: nat, e: string, l: PArray)
    requires i < |ls|
    ensures Embed(ls[i := (e, l)]) == Embed(ls)[i := (StrKey(e), Arr(l))]
  {
    var left, right := Embed(ls[i := (e, l)]), Embed(ls)[i := (StrKey(e), Arr(l))];
    forall j | 0 <= j < |left|
      ensures left[j] == right[j]
    {
    }
  }

  /** The merge of two entries' params, src/Entries.php:73, one env of `b` at a time from index `i`. */
  function MergeLayersFrom(acc: Layers, b: Layers, i: nat): Layers
    requires i <= |b|
    decreases |b| - i
  {
    if i == |b| then acc
    else MergeLayersFrom(MergeLayer(acc, b[i].0, b[i].1), b, i + 1)
  }

  /**
   * One env of the merge: a new env gets the layer; an env already present
   * gets the layer merged recursively into the one it has.
   */
  function MergeLayer(acc: Layers, e: string, l: PArray): Layers {
    var merged := match Get(acc, e)
      case None => l
      case Some(prev) => MergeRecFrom(prev, l, 0);
    Put(acc, e, merged)
  }

  /** array_merge_recursive(a, b) on two entries' params. */
  function MergeLayers(a: Layers, b: Layers): Layers {
    MergeLayersFrom(MergeLayersFrom([], a, 0), b, 0)
  }

  /** The layer-wise fold is array_merge_recursive's fold on the embedded arrays. */
  lemma {:induction false} EmbedMergeLayersFrom(acc: Layers, b: Layers, i: nat)
    requires i <= |b|
    ensures Embed(MergeLayersFrom(acc, b, i)) == MergeRecFrom(Embed(acc), Embed(b), i)
    decreases |b| - i
  {
    if i == |b| {
      assert |Embed(b)| == i;
    } else {
      var (e, l) := b[i];
      var next := MergeLayer(acc, e, l);
      assert Embed(b)[i] == (StrKey(e), Arr(l));
      EmbedMergeLayersFrom(next, b, i + 1);
      calc {
        Embed(MergeLayersFrom(acc, b, i));
        Embed(MergeLayersFrom(next, b, i + 1));
        MergeRecFrom(Embed(next), Embed(b), i + 1);
        { StepOnEmbedded(acc, e, l); }
        MergeRecFrom(MergeRecStep(Embed(acc), StrKey(e), Arr(l)), Embed(b), i + 1);
        MergeRecFrom(Embed(acc), Embed(b), i);
      }
    }
  }

  /** One env of the layer-wise merge is one step of array_merge_recursive on the embedded arrays. */
  lemma StepOnEmbedded(acc: Layers, e: string, l: PArray)
    ensures MergeRecStep(Embed(acc), StrKey(e), Arr(l)) == Embed(MergeLayer(acc, e, l))
  {
    EmbedGet(acc, e);
    match Get(acc, e)
    case None =>
      EmbedPut(acc, e, l);
    case Some(prev) =>
      assert Combine(Arr(prev), Arr(l)) == MergeRecFrom(prev, l, 0);
      EmbedPut(acc, e, MergeRecFrom(prev, l, 0));
  }

  /**
   * Merging params layer by layer is exactly array_merge_recursive on the
   * two-level arrays they stand for.
   */
  lemma EmbedMergeLayers(a: Layers, b: Layers)
    ensures Embed(MergeLayers(a, b)) == MergeRecursive(Embed(a), Embed(b))
  {
    EmbedMergeLayersFrom([], a, 0);
    EmbedMergeLayersFrom(MergeLayersFrom([], a, 0), b, 0);
  }

  /** Embedding keeps keys distinct. */
  lemma EmbedDistinct(ls: Layers)
    requires Distinct(ls)
    ensures Distinct(Embed(ls))
  {
  }

  /**
   * Env by env: an env only one side declares keeps its layer; an env both
   * sides declare gets the newer layer merged recursively into the older one.
   */
  lemma MergeLayersGet(a: Layers, b: Layers, e: string)
    requires Distinct(a) && Distinct(b)
    ensures Get(MergeLayers(a, b), e) ==
      match (Get(a, e), Get(b, e))
      case (None, None) => None
      case (Some(x), None) => Some(x)
      case (None, Some(y)) => Some(y)
      case (Some(x), Some(y)) => Some(Combine(Arr(x), Arr(y)))
  {
    EmbedMergeLayers(a, b);
    EmbedDistinct(a);
    EmbedDistinct(b);
    MergeRecursiveGet(Embed(a), Embed(b), e);
    EmbedGet(a, e);
    EmbedGet(b, e);
    EmbedGet(MergeLayers(a, b), e);
  }

  /** The merge keeps params well-formed. */
  lemma {:induction false} MergeLayersFromWellFormed(acc: Layers, b: Layers, i: nat)
    requires i <= |b| && WellFormedLayers(acc) && WellFormedLayers(b)
    ensures WellFormedLayers(MergeLayersFrom(acc, b, i))
    decreases |b| - i
  {
    if i < |b| {
      LayerAtDistinct(b, i);
      MergeLayerWellFormed(acc, b[i].0, b[i].1);
      MergeLayersFromWellFormed(MergeLayer(acc, b[i].0, b[i].1), b, i + 1);
    }
  }

  /** Every layer of well-formed params is free of repeated names. */
  lemma LayerAtDistinct(b: Layers, i: nat)
    requires i < |b| && WellFormedLayers(b)
    ensures Distinct(b[i].1)
  {
    GetAt(b, i);
    assert LayerOr(b, b[i].0) == b[i].1;
  }

  /** One env of the merge keeps params well-formed. */
  lemma MergeLayerWellFormed(acc: Layers, e: string, l: PArray)
    requires WellFormedLayers(acc) && Distinct(l)
    ensures WellFormedLayers(MergeLayer(acc, e, l))
  {
    if Get(acc, e).Some? {
      assert LayerOr(acc, e) == Get(acc, e).value;
      MergeRecFromDistinct(Get(acc, e).value, l, 0);
    }
    PutLayerWellFormed(acc, e, match Get(acc, e)
      case None => l
      case Some(prev) => MergeRecFrom(prev, l, 0));
  }

  /** Storing a layer without repeated names keeps params well-formed. */
  lemma PutLayerWellFormed(ls: Layers, e: string, l: PArray)
    requires WellFormedLayers(ls) && Distinct(l)
    ensures WellFormedLayers(Put(ls, e, l))
  {
    var r := Put(ls, e, l);
    forall e' ensures Distinct(LayerOr(r, e')) {
      if e' != e {
        assert LayerOr(r, e') == LayerOr(ls, e');
      }
    }
  }

  /** Merging two well-formed params gives well-formed params. */
  lemma MergeLayersWellFormed(a: Layers, b: Layers)
    requires WellFormedLayers(a) && WellFormedLayers(b)
    ensures WellFormedLayers(MergeLayers(a, b))
  {
    assert forall e :: LayerOr([], e) == [];
    MergeLayersFromWellFormed([], a, 0);
    MergeLayersFromWellFormed(MergeLayersFrom([], a, 0), b, 0);
  }
}
