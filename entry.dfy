/**
 * A configuration entry (src/Entry.php). An entry is built from a descriptor
 * `module.feature.name:Type@env` and a map of parameters. It keeps two fields:
 * its tags (type, module, feature, name, any `:`-prefixed parameters, and its
 * fullname) and its params, a set of layers keyed by env specifier. `write`
 * resolves the params for a target env, lays them over the `:Default` and
 * `:Type` pseudo-entries of the registry, and hands the result to a sink.
 */
module EntryModel {
  import opened Wrappers
  import opened Assoc
  import opened PhpStrings
  import opened PhpValues
  import opened ArrayMerge
  import opened Descriptors
  import opened ParamLayers
  import EnvModel

  /** The two fields of an entry, as a value. */
  datatype EntryData = EntryData(tags: PArray, params: Layers)

  /** The registry an entry reads pseudo-entries from: fullname -> entry, in insertion order. */
  type Registry = seq<(string, EntryData)>

  /** The ways building or writing an entry fails. */
  datatype Error =
      /** The InvalidArgumentException of withParam: the parameter's env does not contain the entry's. */
    | EnvConflict(paramName: string, paramEnv: string, entryEnv: string)
      /** The TypeError of withParam: a descriptor the entry grammar rejects leaves the env null. */
    | UnparsedEntryWithParams
      /** The TypeError of array_merge: the pseudo-entry under `key` exists but is undefined for the env. */
    | UndefinedPseudoEntry(key: string)

  /** Tags never repeat a key and params are well-formed. */
  ghost predicate WellFormed(d: EntryData) {
    Distinct(d.tags) && WellFormedLayers(d.params)
  }

  /* ---------------------------------------------------------------- names */

  /**
   * explode('.', name, 3) read as (module, feature, name): with one piece only
   * the name is present, with two the feature is missing, and a third piece
   * keeps every further dot.
   */
  function SplitName(n: string): (r: (Option<string>, Option<string>, string))
    ensures r.0.None? ==> r.1.None?
    ensures Implode('.', Segments(r)) == n
  {
    var parts := Explode('.', n, 3);
    if |parts| == 1 then
      assert Segments((None, None, parts[0])) == parts;
      (None, None, parts[0])
    else if |parts| == 2 then
      assert Segments((Some(parts[0]), None, parts[1])) == parts;
      (Some(parts[0]), None, parts[1])
    else
      assert Segments((Some(parts[0]), Some(parts[1]), parts[2])) == parts;
      (Some(parts[0]), Some(parts[1]), parts[2])
  }

  /** The pieces of a split name that are present, in order. */
  function Segments(r: (Option<string>, Option<string>, string)): seq<string> {
    (if r.0.Some? then [r.0.value] else []) + (if r.1.Some? then [r.1.value] else []) + [r.2]
  }

  /** `a` has a name only. */
  lemma SplitNameOne(n: string)
    requires '.' !in n
    ensures SplitName(n) == (None, None, n)
  {
    ExplodeWithoutSeparator('.', n, 3);
  }

  /** `a.b` has module `a`, no feature and name `b`. */
  lemma SplitNameTwo(a: string, b: string)
    requires '.' !in a && '.' !in b
    ensures SplitName(a + "." + b) == (Some(a), None, b)
  {
    ImplodeTwo('.', a, b);
    ExplodeImplode('.', [a, b], 3);
  }

  /** `a.b.c` has module `a`, feature `b` and name `c`, and any further dots stay in the name. */
  lemma SplitNameThree(a: string, b: string, c: string)
    requires '.' !in a && '.' !in b
    ensures SplitName(a + "." + b + "." + c) == (Some(a), Some(b), c)
  {
    ImplodeTwo('.', b, c);
    assert [a, b, c][1..] == [b, c];
    assert Implode('.', [a, b, c]) == a + "." + b + "." + c;
    ExplodeImplode('.', [a, b, c], 3);
  }

  function NullableStr(o: Option<string>): Value {
    if o.Some? then Str(o.value) else Null
  }

  /* --------------------------------------------------------- construction */

  /**
   * The fields after src/Entry.php:25-39: the type and the split name as tags,
   * and an empty layer for the descriptor's env. A descriptor the grammar
   * rejects reads as a null type, an empty name and the env "".
   */
  function InitialData(parsed: Parsed<EntryFields>): EntryData {
    var typ := if parsed.Matched? then Str(parsed.fields.typ) else Null;
    var r := SplitName(if parsed.Matched? then parsed.fields.name else "");
    EntryData(
      [(StrKey("type"), typ), (StrKey("module"), NullableStr(r.0)),
       (StrKey("feature"), NullableStr(r.1)), (StrKey("name"), Str(r.2))],
      [(EntryEnv(parsed), [])])
  }

  /** The env an entry is declared for; "" when absent, and the layer key "" when the descriptor is rejected. */
  function EntryEnv(parsed: Parsed<EntryFields>): string {
    if parsed.Matched? then parsed.fields.env else ""
  }

  /** The groups `withParam` works with; a rejected descriptor reads as an empty name and env. */
  function ParamGroups(descriptor: string): ParamFields {
    match ParseParam(descriptor)
    case Matched(p) => p
    case NoMatch => ParamFields("", "")
  }

  /** The check of src/Entry.php:99: either env is empty, or the parameter's env contains the entry's. */
  predicate EnvCompatible(paramEnv: string, entryEnv: string) {
    Falsy(Str(paramEnv)) || Falsy(Str(entryEnv)) || Contains(paramEnv, entryEnv)
  }

  /** `$paramEnv ?: $entryEnv`: the layer an ordinary parameter is stored in. */
  function LayerKey(paramEnv: string, entryEnv: string): string {
    if Falsy(Str(paramEnv)) then entryEnv else paramEnv
  }

  /**
   * `withParam`: a parameter whose env conflicts with the entry's is refused;
   * a `:`-prefixed parameter sets the tag named by the rest of its name; any
   * other parameter is stored in its layer. Nothing else changes.
   */
  function WithParamStep(data: EntryData, entryEnv: string, descriptor: string, value: Value): (r: Result<EntryData, Error>)
    ensures var p := ParamGroups(descriptor);
      r.Failure? <==> !EnvCompatible(p.env, entryEnv)
    ensures var p := ParamGroups(descriptor);
      r.Failure? ==> r.error == EnvConflict(p.name, p.env, entryEnv)
    ensures var p := ParamGroups(descriptor); var k := StrKey(TrimLeft(p.name, ':'));
      r.Success? && StartsWith(p.name, ":") ==>
        r.value.params == data.params && Get(r.value.tags, k) == Some(value) &&
        forall k' :: k' != k ==> Get(r.value.tags, k') == Get(data.tags, k')
    ensures var p := ParamGroups(descriptor); var layer := LayerKey(p.env, entryEnv);
      r.Success? && !StartsWith(p.name, ":") ==>
        r.value.tags == data.tags && Get(LayerOr(r.value.params, layer), StrKey(p.name)) == Some(value) &&
        (forall k :: k != StrKey(p.name) ==> Get(LayerOr(r.value.params, layer), k) == Get(LayerOr(data.params, layer), k)) &&
        forall e :: e != layer ==> Get(r.value.params, e) == Get(data.params, e)
    ensures r.Success? ==> forall e :: Has(data.params, e) ==> Has(r.value.params, e)
    ensures r.Success? && WellFormed(data) ==> WellFormed(r.value)
  {
    var p := ParamGroups(descriptor);
    if !EnvCompatible(p.env, entryEnv) then Failure(EnvConflict(p.name, p.env, entryEnv))
    else if StartsWith(p.name, ":") then Success(WithTag(data, TrimLeft(p.name, ':'), value))
    else Success(WithLayerParam(data, LayerKey(p.env, entryEnv), p.name, value))
  }

  /** `$this->tags[$name] = $value`. */
  function WithTag(data: EntryData, name: string, value: Value): (r: EntryData)
    ensures r.params == data.params && Get(r.tags, StrKey(name)) == Some(value)
    ensures forall k :: k != StrKey(name) ==> Get(r.tags, k) == Get(data.tags, k)
    ensures WellFormed(data) ==> WellFormed(r)
  {
    data.(tags := Put(data.tags, StrKey(name), value))
  }

  /** `$this->params[$layer][$name] = $value`. */
  function WithLayerParam(data: EntryData, layer: string, name: string, value: Value): (r: EntryData)
    ensures r.tags == data.tags && Get(LayerOr(r.params, layer), StrKey(name)) == Some(value)
    ensures forall k :: k != StrKey(name) ==> Get(LayerOr(r.params, layer), k) == Get(LayerOr(data.params, layer), k)
    ensures forall e :: e != layer ==> Get(r.params, e) == Get(data.params, e)
    ensures forall e :: Has(data.params, e) ==> Has(r.params, e)
    ensures WellFormed(data) ==> WellFormed(r)
  {
    data.(params := SetParam(data.params, layer, name, value))
  }

  /** The loop of src/Entry.php:40-42 from the `i`-th parameter on; the first refused parameter stops it. */
  function ApplyParams(data: EntryData, env: string, raw: PArray, i: nat): (r: Result<EntryData, Error>)
    requires i <= |raw|
    ensures r.Success? ==> forall e :: Has(data.params, e) ==> Has(r.value.params, e)
    ensures r.Success? && WellFormed(data) ==> WellFormed(r.value)
    decreases |raw| - i
  {
    if i == |raw| then Success(data)
    else match WithParamStep(data, env, KeyToString(raw[i].0), raw[i].1)
      case Failure(e) => Failure(e)
      case Success(d) => ApplyParams(d, env, raw, i + 1)
  }

  /** The `j`-th parameter's env conflicts with the entry env `env`. */
  predicate Conflicts(raw: PArray, j: nat, env: string)
    requires j < |raw|
  {
    !EnvCompatible(ParamGroups(KeyToString(raw[j].0)).env, env)
  }

  /** Which parameters' envs conflict with the entry env `env`, by position. */
  function ConflictFlags(raw: PArray, env: string): (c: seq<bool>)
    ensures |c| == |raw| && forall j :: 0 <= j < |raw| ==> c[j] == Conflicts(raw, j, env)
  {
    seq(|raw|, j requires 0 <= j < |raw| => Conflicts(raw, j, env))
  }

  /** The first position from `i` on whose flag is set, or |flags| when none is. */
  function FirstSet(flags: seq<bool>, i: nat): (n: nat)
    requires i <= |flags|
    ensures i <= n <= |flags|
    ensures n < |flags| ==> flags[n]
    ensures forall t :: i <= t < n ==> !flags[t]
    decreases |flags| - i
  {
    if i == |flags| || flags[i] then i else FirstSet(flags, i + 1)
  }

  /** The first parameter from `i` on whose env conflicts with `env`, or |raw| when none does. */
  function FirstConflict(raw: PArray, env: string, i: nat): (n: nat)
    requires i <= |raw|
    ensures i <= n <= |raw|
  {
    FirstSet(ConflictFlags(raw, env), i)
  }

  /** Some parameter from `i` on conflicts exactly when the first conflict is inside `raw`; none before it does. */
  lemma FirstConflictExists(raw: PArray, env: string, i: nat)
    requires i <= |raw|
    ensures var n := FirstConflict(raw, env, i);
      (n < |raw| <==> exists j :: i <= j < |raw| && Conflicts(raw, j, env)) &&
      (n < |raw| ==> Conflicts(raw, n, env)) &&
      forall t :: i <= t < n ==> !Conflicts(raw, t, env)
  {
    var c := ConflictFlags(raw, env);
    var n := FirstConflict(raw, env, i);
    if n < |raw| {
      assert c[n];
      assert i <= n < |raw| && Conflicts(raw, n, env);
    }
    forall t | i <= t < n
      ensures !Conflicts(raw, t, env)
    {
      assert !c[t];
    }
  }

  /**
   * The parameter loop from `i` on fails exactly when its first conflicting
   * parameter is inside `raw`, and then with that parameter's conflict.
   */
  lemma {:induction false} ApplyParamsFailsAt(data: EntryData, env: string, raw: PArray, i: nat)
    requires i <= |raw|
    ensures var r := ApplyParams(data, env, raw, i); var n := FirstConflict(raw, env, i);
      (r.Failure? <==> n < |raw|) &&
      (r.Failure? ==> var p := ParamGroups(KeyToString(raw[n].0)); r.error == EnvConflict(p.name, p.env, env))
    decreases |raw| - i
  {
    if i < |raw| {
      var step := WithParamStep(data, env, KeyToString(raw[i].0), raw[i].1);
      var c := ConflictFlags(raw, env);
      if step.Failure? {
        assert Conflicts(raw, i, env) && c[i];
        assert FirstConflict(raw, env, i) == i;
        assert ApplyParams(data, env, raw, i) == Failure(step.error);
      } else {
        assert !Conflicts(raw, i, env) && !c[i];
        assert FirstConflict(raw, env, i) == FirstConflict(raw, env, i + 1);
        assert ApplyParams(data, env, raw, i) == ApplyParams(step.value, env, raw, i + 1);
        ApplyParamsFailsAt(step.value, env, raw, i + 1);
      }
    }
  }

  /**
   * The parameter loop fails exactly when some parameter's env conflicts with
   * the entry's, and then with the conflict of the first such parameter.
   */
  lemma ApplyParamsFails(data: EntryData, env: string, raw: PArray, i: nat)
    requires i <= |raw|
    ensures ApplyParams(data, env, raw, i).Failure? <==> exists j :: i <= j < |raw| && Conflicts(raw, j, env)
    ensures var n := FirstConflict(raw, env, i);
      ApplyParams(data, env, raw, i).Failure? ==>
        n < |raw| && Conflicts(raw, n, env) && (forall t :: i <= t < n ==> !Conflicts(raw, t, env)) &&
        var p := ParamGroups(KeyToString(raw[n].0));
        ApplyParams(data, env, raw, i).error == EnvConflict(p.name, p.env, env)
  {
    ApplyParamsFailsAt(data, env, raw, i);
    FirstConflictExists(raw, env, i);
  }

  /** The tag a `:`-prefixed parameter descriptor sets; none for any other. */
  function TagTarget(descriptor: string): Option<Key> {
    var p := ParamGroups(descriptor);
    if StartsWith(p.name, ":") then Some(StrKey(TrimLeft(p.name, ':'))) else None
  }

  /** The layer and key a parameter that is not `:`-prefixed is stored under; none for a tag parameter. */
  function ParamTarget(descriptor: string, entryEnv: string): Option<(string, Key)> {
    var p := ParamGroups(descriptor);
    if StartsWith(p.name, ":") then None else Some((LayerKey(p.env, entryEnv), StrKey(p.name)))
  }

  /** One step of the loop: a refused parameter stops it, an accepted one hands on its fields. */
  lemma ApplyParamsStep(data: EntryData, env: string, raw: PArray, i: nat)
    requires i < |raw|
    ensures var step := WithParamStep(data, env, KeyToString(raw[i].0), raw[i].1);
      (step.Failure? ==> ApplyParams(data, env, raw, i).Failure?) &&
      (step.Success? ==> ApplyParams(data, env, raw, i) == ApplyParams(step.value, env, raw, i + 1))
  {
  }

  /** One accepted parameter sets the tag it targets and leaves every other tag alone. */
  lemma StepTag(data: EntryData, env: string, descriptor: string, v: Value, k: Key)
    ensures var r := WithParamStep(data, env, descriptor, v);
      r.Success? ==> Get(r.value.tags, k) == (if TagTarget(descriptor) == Some(k) then Some(v) else Get(data.tags, k))
  {
  }

  /** One accepted parameter sets the layer key it targets and leaves every other layer key alone. */
  lemma StepParam(data: EntryData, env: string, descriptor: string, v: Value, layer: string, k: Key)
    ensures var r := WithParamStep(data, env, descriptor, v);
      r.Success? ==>
        Get(LayerOr(r.value.params, layer), k) ==
        (if ParamTarget(descriptor, env) == Some((layer, k)) then Some(v) else Get(LayerOr(data.params, layer), k))
  {
    var p := ParamGroups(descriptor);
    var r := WithParamStep(data, env, descriptor, v);
    if r.Success? && !StartsWith(p.name, ":") && LayerKey(p.env, env) != layer {
      assert Get(r.value.params, layer) == Get(data.params, layer);
    }
  }

  /** A tag no parameter from `i` on sets is left as it was. */
  lemma {:induction false} ApplyParamsTagUntouched(data: EntryData, env: string, raw: PArray, i: nat, k: Key)
    requires i <= |raw|
    requires forall t :: i <= t < |raw| ==> TagTarget(KeyToString(raw[t].0)) != Some(k)
    ensures ApplyParams(data, env, raw, i).Success? ==> Get(ApplyParams(data, env, raw, i).value.tags, k) == Get(data.tags, k)
    decreases |raw| - i
  {
    if i < |raw| {
      var step := WithParamStep(data, env, KeyToString(raw[i].0), raw[i].1);
      ApplyParamsStep(data, env, raw, i);
      if step.Success? {
        StepTag(data, env, KeyToString(raw[i].0), raw[i].1, k);
        ApplyParamsTagUntouched(step.value, env, raw, i + 1, k);
      }
    }
  }

  /** After a successful loop, a tag holds the value of the last parameter that sets it. */
  lemma {:induction false} ApplyParamsLastTag(data: EntryData, env: string, raw: PArray, i: nat, j: nat, k: Key)
    requires i <= j < |raw| && TagTarget(KeyToString(raw[j].0)) == Some(k)
    requires forall t :: j < t < |raw| ==> TagTarget(KeyToString(raw[t].0)) != Some(k)
    ensures ApplyParams(data, env, raw, i).Success? ==> Get(ApplyParams(data, env, raw, i).value.tags, k) == Some(raw[j].1)
    decreases |raw| - i
  {
    var step := WithParamStep(data, env, KeyToString(raw[i].0), raw[i].1);
    ApplyParamsStep(data, env, raw, i);
    if step.Success? {
      if i < j {
        ApplyParamsLastTag(step.value, env, raw, i + 1, j, k);
      } else {
        StepTag(data, env, KeyToString(raw[i].0), raw[i].1, k);
        ApplyParamsTagUntouched(step.value, env, raw, i + 1, k);
      }
    }
  }

  /** A layer key no parameter from `i` on is stored under is left as it was. */
  lemma {:induction false} ApplyParamsParamUntouched(data: EntryData, env: string, raw: PArray, i: nat, layer: string, k: Key)
    requires i <= |raw|
    requires forall t :: i <= t < |raw| ==> ParamTarget(KeyToString(raw[t].0), env) != Some((layer, k))
    ensures ApplyParams(data, env, raw, i).Success? ==>
      Get(LayerOr(ApplyParams(data, env, raw, i).value.params, layer), k) == Get(LayerOr(data.params, layer), k)
    decreases |raw| - i
  {
    if i < |raw| {
      var step := WithParamStep(data, env, KeyToString(raw[i].0), raw[i].1);
      ApplyParamsStep(data, env, raw, i);
      if step.Success? {
        StepParam(data, env, KeyToString(raw[i].0), raw[i].1, layer, k);
        ApplyParamsParamUntouched(step.value, env, raw, i + 1, layer, k);
      }
    }
  }

  /** After a successful loop, a parameter holds, in its layer, the value of the last parameter stored there. */
  lemma {:induction false} ApplyParamsLastParam(data: EntryData, env: string, raw: PArray, i: nat, j: nat, layer: string, k: Key)
    requires i <= j < |raw| && ParamTarget(KeyToString(raw[j].0), env) == Some((layer, k))
    requires forall t :: j < t < |raw| ==> ParamTarget(KeyToString(raw[t].0), env) != Some((layer, k))
    ensures ApplyParams(data, env, raw, i).Success? ==>
      Get(LayerOr(ApplyParams(data, env, raw, i).value.params, layer), k) == Some(raw[j].1)
    decreases |raw| - i
  {
    var step := WithParamStep(data, env, KeyToString(raw[i].0), raw[i].1);
    ApplyParamsStep(data, env, raw, i);
    if step.Success? {
      if i < j {
        ApplyParamsLastParam(step.value, env, raw, i + 1, j, layer, k);
      } else {
        StepParam(data, env, KeyToString(raw[i].0), raw[i].1, layer, k);
        ApplyParamsParamUntouched(step.value, env, raw, i + 1, layer, k);
      }
    }
  }

  /** src/Entry.php:44: the fullname tag, computed from the final tags. */
  function WithFullname(d: EntryData): EntryData {
    d.(tags := Put(d.tags, StrKey("fullname"), Str(Fullname(d.tags))))
  }

  /**
   * `new Entry($entries, $descriptor, $params)`: the initial fields, every
   * parameter in order, then the fullname tag. A descriptor the grammar
   * rejects is accepted only without parameters.
   */
  function Construct(descriptor: string, raw: PArray): Result<EntryData, Error> {
    var parsed := ParseEntry(descriptor);
    var init := InitialData(parsed);
    var applied :=
      if parsed.NoMatch? then (if raw == [] then Success(init) else Failure(UnparsedEntryWithParams))
      else ApplyParams(init, parsed.fields.env, raw, 0);
    match applied
    case Failure(e) => Failure(e)
    case Success(d) => Success(WithFullname(d))
  }

  /**
   * A constructed entry is well-formed, declares the layer of its own env,
   * and carries a fullname tag that agrees with its other tags. A descriptor
   * the grammar rejects fails exactly when it comes with parameters.
   */
  lemma ConstructFacts(descriptor: string, raw: PArray)
    ensures var r := Construct(descriptor, raw);
      (r.Success? ==>
        WellFormed(r.value) && Has(r.value.params, EntryEnv(ParseEntry(descriptor))) &&
        Get(r.value.tags, StrKey("fullname")) == Some(Str(Fullname(r.value.tags)))) &&
      (ParseEntry(descriptor).NoMatch? ==> (r.Failure? <==> raw != []))
  {
    var parsed := ParseEntry(descriptor);
    var init := InitialData(parsed);
    InitialWellFormed(parsed);
    if parsed.NoMatch? {
      if raw == [] {
        WithFullnameFacts(init);
      }
    } else {
      var applied := ApplyParams(init, parsed.fields.env, raw, 0);
      if applied.Success? {
        WithFullnameFacts(applied.value);
      }
    }
  }

  /**
   * A descriptor the grammar accepts builds an entry unless some parameter's
   * env conflicts with the entry's; then construction fails with the
   * conflict of the first such parameter.
   */
  lemma ConstructConflicts(descriptor: string, raw: PArray)
    ensures ParseEntry(descriptor).Matched? ==>
      var env := ParseEntry(descriptor).fields.env;
      var r := Construct(descriptor, raw);
      var n := FirstConflict(raw, env, 0);
      (r.Failure? <==> exists j :: 0 <= j < |raw| && Conflicts(raw, j, env)) &&
      (r.Failure? ==>
        n < |raw| && Conflicts(raw, n, env) && (forall t :: 0 <= t < n ==> !Conflicts(raw, t, env)) &&
        var p := ParamGroups(KeyToString(raw[n].0));
        r.error == EnvConflict(p.name, p.env, env))
  {
    var parsed := ParseEntry(descriptor);
    if parsed.Matched? {
      ApplyParamsFails(InitialData(parsed), parsed.fields.env, raw, 0);
      FirstConflictExists(raw, parsed.fields.env, 0);
    }
  }

  /**
   * A tag other than `fullname` that some `:`-prefixed parameter sets holds,
   * in the constructed entry, the value of the last parameter that sets it;
   * `:type`, `:module`, `:feature` and `:name` thereby reach the fullname.
   */
  lemma ConstructLastTag(descriptor: string, raw: PArray, j: nat, k: Key)
    requires j < |raw| && TagTarget(KeyToString(raw[j].0)) == Some(k) && k != StrKey("fullname")
    requires forall t :: j < t < |raw| ==> TagTarget(KeyToString(raw[t].0)) != Some(k)
    ensures var r := Construct(descriptor, raw);
      ParseEntry(descriptor).Matched? && r.Success? ==> Get(r.value.tags, k) == Some(raw[j].1)
  {
    var parsed := ParseEntry(descriptor);
    if parsed.Matched? {
      ApplyParamsLastTag(InitialData(parsed), parsed.fields.env, raw, 0, j, k);
    }
  }

  /**
   * An ordinary parameter holds, in the constructed entry's layer it targets,
   * the value of the last parameter stored under that layer and name.
   */
  lemma ConstructLastParam(descriptor: string, raw: PArray, j: nat, layer: string, k: Key)
    requires ParseEntry(descriptor).Matched? ==>
      j < |raw| && ParamTarget(KeyToString(raw[j].0), ParseEntry(descriptor).fields.env) == Some((layer, k)) &&
      forall t :: j < t < |raw| ==> ParamTarget(KeyToString(raw[t].0), ParseEntry(descriptor).fields.env) != Some((layer, k))
    ensures var r := Construct(descriptor, raw);
      ParseEntry(descriptor).Matched? && r.Success? ==> Get(LayerOr(r.value.params, layer), k) == Some(raw[j].1)
  {
    var parsed := ParseEntry(descriptor);
    if parsed.Matched? {
      ApplyParamsLastParam(InitialData(parsed), parsed.fields.env, raw, 0, j, layer, k);
    }
  }

  /** A new entry object is well-formed and has the layer of its own env. */
  lemma InitialWellFormed(parsed: Parsed<EntryFields>)
    ensures WellFormed(InitialData(parsed)) && Has(InitialData(parsed).params, EntryEnv(parsed))
  {
    var init := InitialData(parsed);
    InitialTags(parsed);
    assert forall e :: LayerOr(init.params, e) == [];
  }

  /** The fullname tag names the entry it is stored in, and keeps it well-formed. */
  lemma WithFullnameFacts(d: EntryData)
    ensures var r := WithFullname(d);
      r.params == d.params && (WellFormed(d) ==> WellFormed(r)) &&
      Get(r.tags, StrKey("fullname")) == Some(Str(Fullname(r.tags)))
  {
    FullnameIgnoresFullnameTag(d.tags, Str(Fullname(d.tags)));
  }

  /* ------------------------------------------------------------- fullname */

  /** `array_filter` then implode's string conversion, for one value. */
  function Truthy(v: Value): seq<string> {
    if Falsy(v) then [] else [ToPhpString(v)]
  }

  /** `fullname()`: the truthy module, feature and name joined by '.', then ':' and the type. */
  function Fullname(tags: PArray): string {
    var name := Implode('.', Truthy(GetOrNull(tags, StrKey("module"))) + Truthy(GetOrNull(tags, StrKey("feature")))
      + Truthy(GetOrNull(tags, StrKey("name"))));
    name + ":" + ToPhpString(GetOrNull(tags, StrKey("type")))
  }

  /** Setting the fullname tag does not change the fullname. */
  lemma FullnameIgnoresFullnameTag(tags: PArray, v: Value)
    ensures Fullname(Put(tags, StrKey("fullname"), v)) == Fullname(tags)
  {
    var t := Put(tags, StrKey("fullname"), v);
    assert GetOrNull(t, StrKey("module")) == GetOrNull(tags, StrKey("module"));
    assert GetOrNull(t, StrKey("feature")) == GetOrNull(tags, StrKey("feature"));
    assert GetOrNull(t, StrKey("name")) == GetOrNull(tags, StrKey("name"));
    assert GetOrNull(t, StrKey("type")) == GetOrNull(tags, StrKey("type"));
  }

  /** The four tags the initial fields hold, read back. */
  lemma InitialTags(parsed: Parsed<EntryFields>)
    ensures var d := InitialData(parsed);
      var r := SplitName(if parsed.Matched? then parsed.fields.name else "");
      Distinct(d.tags) &&
      GetOrNull(d.tags, StrKey("type")) == (if parsed.Matched? then Str(parsed.fields.typ) else Null) &&
      GetOrNull(d.tags, StrKey("module")) == NullableStr(r.0) &&
      GetOrNull(d.tags, StrKey("feature")) == NullableStr(r.1) &&
      GetOrNull(d.tags, StrKey("name")) == Str(r.2)
  {
    var tags := InitialData(parsed).tags;
    GetFour(tags[0], tags[1], tags[2], tags[3]);
    assert tags == [tags[0], tags[1], tags[2], tags[3]];
  }

  /**
   * Without falsy name segments, the fullname of an entry's initial tags is
   * its descriptor without the env: the name as written, ':' and the type.
   */
  lemma FullnameOfName(f: EntryFields)
    requires forall p :: p in Segments(SplitName(f.name)) ==> !Falsy(Str(p))
    ensures Fullname(InitialData(Matched(f)).tags) == f.name + ":" + f.typ
  {
    InitialTags(Matched(f));
    var r := SplitName(f.name);
    assert Truthy(NullableStr(r.0)) + Truthy(NullableStr(r.1)) + Truthy(Str(r.2)) == Segments(r);
  }

  /** The name segments `array_filter` keeps: those that are not falsy, in order. */
  function NonFalsy(parts: seq<string>): (r: seq<string>)
    ensures |r| <= |parts|
    ensures forall p :: p in r ==> p in parts && !Falsy(Str(p))
    decreases |parts|
  {
    if parts == [] then [] else Truthy(Str(parts[0])) + NonFalsy(parts[1..])
  }

  /** Filtering a concatenation filters each side. */
  lemma {:induction false} NonFalsyAppend(a: seq<string>, b: seq<string>)
    ensures NonFalsy(a + b) == NonFalsy(a) + NonFalsy(b)
    decreases |a|
  {
    if a == [] {
      assert a + b == b;
    } else {
      assert (a + b)[0] == a[0];
      assert (a + b)[1..] == a[1..] + b;
      NonFalsyAppend(a[1..], b);
    }
  }

  /** One segment is kept exactly when it is not falsy. */
  lemma NonFalsySingle(p: string)
    ensures NonFalsy([p]) == Truthy(Str(p))
  {
    assert [p][1..] == [];
  }

  /** The truthy module, feature and name tags are the non-falsy segments of the split name. */
  lemma SegmentsNonFalsy(r: (Option<string>, Option<string>, string))
    ensures Truthy(NullableStr(r.0)) + Truthy(NullableStr(r.1)) + Truthy(Str(r.2)) == NonFalsy(Segments(r))
  {
    var m := if r.0.Some? then [r.0.value] else [];
    var e := if r.1.Some? then [r.1.value] else [];
    assert Segments(r) == m + e + [r.2];
    NonFalsyAppend(m + e, [r.2]);
    NonFalsyAppend(m, e);
    NonFalsySingle(r.2);
    if r.0.Some? {
      NonFalsySingle(r.0.value);
    }
    if r.1.Some? {
      NonFalsySingle(r.1.value);
    }
  }

  /**
   * The fullname of an entry's initial tags is its name with the falsy
   * segments (empty or "0") dropped, the rest joined by '.', then ':' and the
   * type; the env is not part of it.
   */
  lemma FullnameDropsFalsy(f: EntryFields)
    ensures Fullname(InitialData(Matched(f)).tags) == Implode('.', NonFalsy(Segments(SplitName(f.name)))) + ":" + f.typ
  {
    InitialTags(Matched(f));
    SegmentsNonFalsy(SplitName(f.name));
  }

  /** `a..b` splits into module `a`, an empty feature and name `b`. */
  lemma SplitNameEmptyMiddle(a: string, b: string)
    requires '.' !in a
    ensures SplitName(a + ".." + b) == (Some(a), Some(""), b)
    ensures Segments(SplitName(a + ".." + b)) == [a, "", b]
  {
    assert a + ".." + b == a + ['.'] + ("." + b);
    assert "." + b == "" + ['.'] + b;
    ExplodeFirstPiece('.', a, "." + b, 3);
    ExplodeFirstPiece('.', "", b, 2);
    ExplodeWithoutSeparator('.', b, 1);
  }

  /**
   * An empty segment is dropped: `a..b:T` has the fullname `a.b:T` when `a`
   * and `b` are not falsy (`b` may hold further dots).
   */
  lemma FullnameDropsEmptySegment(a: string, b: string, typ: string)
    requires '.' !in a && !Falsy(Str(a)) && !Falsy(Str(b))
    ensures Fullname(InitialData(Matched(EntryFields(a + ".." + b, typ, ""))).tags) == a + "." + b + ":" + typ
  {
    FullnameDropsFalsy(EntryFields(a + ".." + b, typ, ""));
    SplitNameEmptyMiddle(a, b);
    NonFalsyDropsEmpty(a, b);
    assert Implode('.', [a, b]) == a + "." + b by {
      assert [a, b][1..] == [b];
    }
  }

  /** Filtering `[a, "", b]` drops the empty middle. */
  lemma NonFalsyDropsEmpty(a: string, b: string)
    requires !Falsy(Str(a)) && !Falsy(Str(b))
    ensures NonFalsy([a, "", b]) == [a, b]
  {
    assert [a, "", b][1..] == ["", b];
    assert ["", b][1..] == [b];
    assert [b][1..] == [];
    assert NonFalsy([b]) == [b];
    assert NonFalsy(["", b]) == [b];
  }

  /** Parameters whose names do not start with ':' never touch the tags. */
  lemma {:induction false} ApplyParamsKeepsTags(data: EntryData, env: string, raw: PArray, i: nat)
    requires i <= |raw|
    requires forall j :: i <= j < |raw| ==> !StartsWith(KeyToString(raw[j].0), ":")
    ensures ApplyParams(data, env, raw, i).Success? ==> ApplyParams(data, env, raw, i).value.tags == data.tags
    decreases |raw| - i
  {
    if i < |raw| {
      var s := KeyToString(raw[i].0);
      ParseParamSound(s);
      var p := ParamGroups(s);
      assert p.name <= s;
      PrefixKeepsStart(p.name, s, ":");
      match WithParamStep(data, env, s, raw[i].1)
      case Failure(_) =>
      case Success(d) => ApplyParamsKeepsTags(d, env, raw, i + 1);
    }
  }

  /** A string starts with whatever its prefixes start with. */
  lemma PrefixKeepsStart(a: string, b: string, start: string)
    ensures a <= b && StartsWith(a, start) ==> StartsWith(b, start)
  {
    if a <= b && StartsWith(a, start) {
      assert b[..|start|] == a[..|start|];
    }
  }

  /**
   * An entry built from a well-formed descriptor without falsy name segments
   * and without `:`-prefixed parameters gets the fullname `name:Type`,
   * whatever its env.
   */
  lemma ConstructFullname(f: EntryFields, raw: PArray)
    requires WellFormedEntry(f)
    requires forall p :: p in Segments(SplitName(f.name)) ==> !Falsy(Str(p))
    requires PlainParams(raw)
    ensures Construct(FormatEntry(f), raw).Success? ==>
      Get(Construct(FormatEntry(f), raw).value.tags, StrKey("fullname")) == Some(Str(f.name + ":" + f.typ))
  {
    ParseEntryComplete(f);
    ApplyParamsKeepsTags(InitialData(Matched(f)), f.env, raw, 0);
    FullnameOfName(f);
  }

  /** Parameters none of whose names starts with ':', so none of them sets a tag. */
  predicate PlainParams(raw: PArray) {
    forall j :: 0 <= j < |raw| ==> !StartsWith(KeyToString(raw[j].0), ":")
  }

  /** With no entry env there is nothing to conflict with: the parameter loop always succeeds. */
  lemma ApplyParamsWithoutEnv(data: EntryData, raw: PArray, i: nat)
    requires i <= |raw|
    ensures ApplyParams(data, "", raw, i).Success?
  {
    ApplyParamsFails(data, "", raw, i);
    forall j | i <= j < |raw|
      ensures !Conflicts(raw, j, "")
    {
      assert Falsy(Str(""));
    }
  }

  /** An entry built with plain parameters has the fullname of its initial tags. */
  lemma ConstructTags(f: EntryFields, raw: PArray)
    requires WellFormedEntry(f) && PlainParams(raw) && Construct(FormatEntry(f), raw).Success?
    ensures Fullname(Construct(FormatEntry(f), raw).value.tags) == Fullname(InitialData(Matched(f)).tags)
  {
    ParseEntryComplete(f);
    var init := InitialData(Matched(f));
    ApplyParamsKeepsTags(init, f.env, raw, 0);
    var applied := ApplyParams(init, f.env, raw, 0).value;
    assert Construct(FormatEntry(f), raw) == Success(WithFullname(applied));
    FullnameIgnoresFullnameTag(applied.tags, Str(Fullname(applied.tags)));
  }

  /**
   * The pseudo-entry declared as `:T`, with any parameters that do not set
   * tags, is built and has the fullname `:T`.
   */
  lemma PseudoEntryFullname(typ: string, raw: PArray)
    requires typ != "" && '@' !in typ && PlainParams(raw)
    ensures Construct(":" + typ, raw).Success?
    ensures Get(Construct(":" + typ, raw).value.tags, StrKey("fullname")) == Some(Str(":" + typ))
  {
    var f := EntryFields("", typ, "");
    assert FormatEntry(f) == ":" + typ;
    ParseEntryComplete(f);
    ApplyParamsWithoutEnv(InitialData(Matched(f)), raw, 0);
    ConstructFacts(":" + typ, raw);
    ConstructTags(f, raw);
    PseudoInitialFullname(typ);
  }

  /** The initial tags of `:T` have the fullname `:T`. */
  lemma PseudoInitialFullname(typ: string)
    ensures Fullname(InitialData(Matched(EntryFields("", typ, ""))).tags) == ":" + typ
  {
    var f := EntryFields("", typ, "");
    SplitNameOne("");
    var init := InitialData(Matched(f));
    InitialTags(Matched(f));
    assert Truthy(GetOrNull(init.tags, StrKey("module"))) == [];
    assert Truthy(GetOrNull(init.tags, StrKey("feature"))) == [];
    assert Truthy(GetOrNull(init.tags, StrKey("name"))) == [];
    assert Implode('.', [] + [] + []) == "";
    assert Fullname(init.tags) == ":" + typ;
  }

  /** Two runs of the parameter loop from equal tags end with equal tags, whatever the envs. */
  lemma {:induction false} ApplyParamsSameTags(d1: EntryData, d2: EntryData, env1: string, env2: string, raw: PArray, i: nat)
    requires i <= |raw| && d1.tags == d2.tags
    ensures var r1, r2 := ApplyParams(d1, env1, raw, i), ApplyParams(d2, env2, raw, i);
      r1.Success? && r2.Success? ==> r1.value.tags == r2.value.tags
    decreases |raw| - i
  {
    if i < |raw| {
      var s := KeyToString(raw[i].0);
      match (WithParamStep(d1, env1, s, raw[i].1), WithParamStep(d2, env2, s, raw[i].1))
      case (Success(n1), Success(n2)) =>
        ApplyParamsSameTags(n1, n2, env1, env2, raw, i + 1);
      case _ =>
    }
  }

  /**
   * The env of a descriptor does not reach the tags: `a:T` and `a:T@prod`,
   * built from the same parameters, get the same tags and so the same fullname.
   */
  lemma TagsIgnoreEnv(name: string, typ: string, env1: string, env2: string, raw: PArray)
    requires WellFormedEntry(EntryFields(name, typ, env1)) && WellFormedEntry(EntryFields(name, typ, env2))
    ensures var r1 := Construct(FormatEntry(EntryFields(name, typ, env1)), raw);
      var r2 := Construct(FormatEntry(EntryFields(name, typ, env2)), raw);
      r1.Success? && r2.Success? ==> r1.value.tags == r2.value.tags
  {
    ParseEntryComplete(EntryFields(name, typ, env1));
    ParseEntryComplete(EntryFields(name, typ, env2));
    ApplyParamsSameTags(InitialData(Matched(EntryFields(name, typ, env1))), InitialData(Matched(EntryFields(name, typ, env2))), env1, env2, raw, 0);
  }

  /* ------------------------------------------------------ env compatibility */

  /** A parameter may always be declared for the entry's own env, or for a longer env that contains it. */
  lemma EnvCompatibleWhenContained(entryEnv: string, before: string, after: string)
    ensures EnvCompatible(before + entryEnv + after, entryEnv)
  {
    var p := before + entryEnv + after;
    assert OccursAt(p, entryEnv, |before|) by {
      assert p[|before|..|before| + |entryEnv|] == entryEnv;
    }
    ContainsIffOccurs(p, entryEnv);
  }

  /**
   * A parameter env shorter than a non-empty entry env always conflicts: an
   * entry `x@prod-eu` refuses `p@prod`.
   */
  lemma ShorterParamEnvConflicts(paramEnv: string, entryEnv: string)
    requires !Falsy(Str(paramEnv)) && !Falsy(Str(entryEnv)) && |paramEnv| < |entryEnv|
    ensures !EnvCompatible(paramEnv, entryEnv)
  {
    ContainsIffOccurs(paramEnv, entryEnv);
  }

  /* ------------------------------------------------------------ resolution */

  /** `explode('-', $env, 2)[0]`: the key of the base layer, the same text as the Env object's base. */
  function BaseLayerKey(env: string): (b: string)
    ensures b == EnvModel.FromSpec(env).base
    ensures '-' !in b
  {
    Explode('-', env, 2)[0]
  }

  /**
   * `params($env)`: null when the entry declares none of the layers "", the
   * base env and the exact env; otherwise the three layers merged in that
   * order (absent ones as empty arrays).
   */
  function ResolveParams(params: Layers, env: string): (r: Option<PArray>)
    ensures r.None? <==> !Has(params, "") && !Has(params, BaseLayerKey(env)) && !Has(params, env)
    ensures r.Some? ==> Distinct(r.value)
  {
    var base := BaseLayerKey(env);
    if !Has(params, "") && !Has(params, base) && !Has(params, env) then None
    else
      var all, b, exact := LayerOr(params, ""), LayerOr(params, base), LayerOr(params, env);
      MergeIntoDistinct([], all);
      MergeIntoDistinct(MergeInto([], all), b);
      MergeIntoDistinct(MergeInto(MergeInto([], all), b), exact);
      Some(Merge3(all, b, exact))
  }

  /**
   * The fallback chain: a parameter takes its value from the exact env's
   * layer, else from the base env's, else from the layer for every env.
   */
  lemma ResolveLookup(params: Layers, env: string, s: string)
    requires WellFormedLayers(params) && ResolveParams(params, env).Some?
    ensures var exact, base, all := LayerOr(params, env), LayerOr(params, BaseLayerKey(env)), LayerOr(params, "");
      Get(ResolveParams(params, env).value, StrKey(s)) ==
        if Has(exact, StrKey(s)) then Get(exact, StrKey(s))
        else if Has(base, StrKey(s)) then Get(base, StrKey(s))
        else Get(all, StrKey(s))
  {
    Merge3Get(LayerOr(params, ""), LayerOr(params, BaseLayerKey(env)), LayerOr(params, env), s);
  }

  /**
   * An entry built without an env is defined for every target env, and one
   * built for env `e` is defined for `e` and for every target whose base is `e`.
   */
  lemma ConstructDefinedFor(descriptor: string, raw: PArray, target: string)
    requires Construct(descriptor, raw).Success?
    requires var e := EntryEnv(ParseEntry(descriptor)); e == "" || e == target || e == BaseLayerKey(target)
    ensures ResolveParams(Construct(descriptor, raw).value.params, target).Some?
  {
    ConstructFacts(descriptor, raw);
  }

  /* ---------------------------------------------------------------- write */

  /** The one call `write` makes: the entry's type and the parameters for the template. */
  datatype SinkCall = SinkCall(typ: Value, context: PArray)

  datatype WriteOutcome = Skipped | Called(call: SinkCall) | Failed(error: Error)

  /** The key of an entry's type pseudo-entry, `':' . $type`. */
  function TypeKey(tags: PArray): string {
    ":" + ToPhpString(GetOrNull(tags, StrKey("type")))
  }

  /**
   * What a pseudo-entry contributes for `env`: an empty array when the
   * registry has no entry under `key`, its resolved params otherwise, and
   * None when it exists but is undefined for `env`.
   */
  function PseudoParams(registry: Registry, key: string, env: string): (r: Option<PArray>)
    ensures r.Some? ==> Distinct(r.value)
  {
    match Get(registry, key)
    case None => Some([])
    case Some(p) => ResolveParams(p.params, env)
  }

  /**
   * The array literal of src/Entry.php:80-87: the diagnostic keys, each set
   * in turn, so a type named `Default` shares its key with `:Default`.
   */
  function Diagnostics(tags: PArray, env: string, merged: PArray, own: PArray, typeKey: string,
                       typeDefaults: PArray, defaults: PArray): PArray {
    var a := Put([], StrKey("tags"), Arr(tags));
    var a := Put(a, StrKey("env"), EnvObject(EnvModel.FromSpec(env)));
    var a := Put(a, StrKey("params"), Arr(merged));
    var a := Put(a, StrKey("own"), Arr(own));
    var a := Put(a, StrKey(typeKey), Arr(typeDefaults));
    Put(a, StrKey(":Default"), Arr(defaults))
  }

  /**
   * `write($env, $postprocessor)` with the registry the entry belongs to:
   * nothing for an entry without a name or undefined for `env`; a failure
   * when a pseudo-entry is undefined for `env`; otherwise one call with the
   * entry's own params over the type defaults over the defaults, plus the
   * diagnostic keys the merged params lack.
   */
  function WriteEntry(d: EntryData, env: string, registry: Registry): WriteOutcome {
    if Falsy(GetOrNull(d.tags, StrKey("name"))) then Skipped
    else match ResolveParams(d.params, env)
      case None => Skipped
      case Some(own) =>
        var typeKey := TypeKey(d.tags);
        match (PseudoParams(registry, ":Default", env), PseudoParams(registry, typeKey, env))
        case (None, _) => Failed(UndefinedPseudoEntry(":Default"))
        case (_, None) => Failed(UndefinedPseudoEntry(typeKey))
        case (Some(defaults), Some(typeDefaults)) =>
          var merged := Merge3(defaults, typeDefaults, own);
          Called(SinkCall(GetOrNull(d.tags, StrKey("type")),
            Union(merged, Diagnostics(d.tags, env, merged, own, typeKey, typeDefaults, defaults))))
  }

  /**
   * An entry is skipped exactly when it has no name or is undefined for the
   * env; it fails exactly when it is not skipped and a pseudo-entry it needs
   * is undefined for the env; a call carries the entry's type.
   */
  lemma WriteEntryOutcome(d: EntryData, env: string, registry: Registry)
    ensures var o := WriteEntry(d, env, registry);
      (o.Skipped? <==> Falsy(GetOrNull(d.tags, StrKey("name"))) || ResolveParams(d.params, env).None?) &&
      (o.Failed? <==> (!o.Skipped? &&
        (PseudoParams(registry, ":Default", env).None? || PseudoParams(registry, TypeKey(d.tags), env).None?))) &&
      (o.Called? ==> o.call.typ == GetOrNull(d.tags, StrKey("type")))
  {
  }

  /**
   * The parameters the sink receives: each key takes its value from the
   * entry's own params, else from its type's defaults, else from the global
   * defaults, and only a key none of them has can hold a diagnostic value.
   */
  lemma WriteContext(d: EntryData, env: string, registry: Registry, own: PArray, typeDefaults: PArray, defaults: PArray, s: string)
    requires WriteEntry(d, env, registry).Called?
    requires ResolveParams(d.params, env) == Some(own)
    requires PseudoParams(registry, TypeKey(d.tags), env) == Some(typeDefaults)
    requires PseudoParams(registry, ":Default", env) == Some(defaults)
    ensures var merged := Merge3(defaults, typeDefaults, own);
      Get(WriteEntry(d, env, registry).call.context, StrKey(s)) ==
        if Has(own, StrKey(s)) then Get(own, StrKey(s))
        else if Has(typeDefaults, StrKey(s)) then Get(typeDefaults, StrKey(s))
        else if Has(defaults, StrKey(s)) then Get(defaults, StrKey(s))
        else Get(Diagnostics(d.tags, env, merged, own, TypeKey(d.tags), typeDefaults, defaults), StrKey(s))
  {
    var merged := Merge3(defaults, typeDefaults, own);
    var diag := Diagnostics(d.tags, env, merged, own, TypeKey(d.tags), typeDefaults, defaults);
    assert WriteEntry(d, env, registry).call.context == Union(merged, diag);
    LayeredGet(defaults, typeDefaults, own, diag, s);
  }

  /** A key of the three merged arrays over a fallback array comes from the last array that has it. */
  lemma LayeredGet(defaults: PArray, typeDefaults: PArray, own: PArray, fallback: PArray, s: string)
    requires Distinct(defaults) && Distinct(typeDefaults) && Distinct(own)
    ensures Get(Union(Merge3(defaults, typeDefaults, own), fallback), StrKey(s)) ==
      if Has(own, StrKey(s)) then Get(own, StrKey(s))
      else if Has(typeDefaults, StrKey(s)) then Get(typeDefaults, StrKey(s))
      else if Has(defaults, StrKey(s)) then Get(defaults, StrKey(s))
      else Get(fallback, StrKey(s))
  {
    Merge3Get(defaults, typeDefaults, own, s);
    UnionGet(Merge3(defaults, typeDefaults, own), fallback, StrKey(s));
  }

  /**
   * The diagnostic keys: the tags, an Env object for the target, the merged
   * and own params, the type defaults under `:Type` and the defaults under
   * `:Default` (the defaults win when the type is `Default`); no other key.
   */
  lemma DiagnosticsKeys(tags: PArray, env: string, merged: PArray, own: PArray, typ: Value,
                        typeDefaults: PArray, defaults: PArray, k: string)
    ensures var typeKey := ":" + ToPhpString(typ);
      var diag := Diagnostics(tags, env, merged, own, typeKey, typeDefaults, defaults);
      Get(diag, StrKey(k)) ==
        if k == "tags" then Some(Arr(tags))
        else if k == "env" then Some(EnvObject(EnvModel.FromSpec(env)))
        else if k == "params" then Some(Arr(merged))
        else if k == "own" then Some(Arr(own))
        else if k == ":Default" then Some(Arr(defaults))
        else if k == typeKey then Some(Arr(typeDefaults))
        else None
  {
    var typeKey := ":" + ToPhpString(typ);
    assert typeKey[0] == ':';
    assert "tags"[0] != ':' && "env"[0] != ':' && "params"[0] != ':' && "own"[0] != ':';
    var a1 := Put([], StrKey("tags"), Arr(tags));
    var a2 := Put(a1, StrKey("env"), EnvObject(EnvModel.FromSpec(env)));
    var a3 := Put(a2, StrKey("params"), Arr(merged));
    var a4 := Put(a3, StrKey("own"), Arr(own));
    var a5 := Put(a4, StrKey(typeKey), Arr(typeDefaults));
    PutGet([], StrKey("tags"), Arr(tags), StrKey(k));
    PutGet(a1, StrKey("env"), EnvObject(EnvModel.FromSpec(env)), StrKey(k));
    PutGet(a2, StrKey("params"), Arr(merged), StrKey(k));
    PutGet(a3, StrKey("own"), Arr(own), StrKey(k));
    PutGet(a4, StrKey(typeKey), Arr(typeDefaults), StrKey(k));
    PutGet(a5, StrKey(":Default"), Arr(defaults), StrKey(k));
  }

  /* ----------------------------------------------------------- the object */

  /** Setting the four tags one after the other, as the constructor does, lists them in that order. */
  lemma InitialTagsInOrder(typ: Value, mdl: Option<string>, feat: Option<string>, name: string)
    ensures var t := Put([], StrKey("type"), typ);
      var t := Put(t, StrKey("module"), NullableStr(mdl));
      var t := Put(t, StrKey("feature"), NullableStr(feat));
      Put(t, StrKey("name"), Str(name)) ==
        [(StrKey("type"), typ), (StrKey("module"), NullableStr(mdl)),
         (StrKey("feature"), NullableStr(feat)), (StrKey("name"), Str(name))]
  {
    PutFour((StrKey("type"), typ), (StrKey("module"), NullableStr(mdl)),
      (StrKey("feature"), NullableStr(feat)), (StrKey("name"), Str(name)));
  }

  /** An entry object: its tags and params are updated in place while it is built. */
  class Entry {
    var tags: PArray
    var params: Layers

    function Data(): EntryData
      reads this
    {
      EntryData(tags, params)
    }

    /** src/Entry.php:25-39: the descriptor's tags, in order, and its env's empty layer. */
    constructor (parsed: Parsed<EntryFields>)
      ensures Data() == InitialData(parsed)
    {
      var typ, name := Null, "";
      if parsed.Matched? {
        typ, name := Str(parsed.fields.typ), parsed.fields.name;
      }
      var env := EntryEnv(parsed);
      var t := NamedTags(typ, name);
      tags := t;
      var p: Layers := [];
      if !Has(p, env) {
        PutAbsent(p, env, []);
        p := Put(p, env, []);
      }
      assert p == [] + [(env, [])];
      params := p;
    }

    /** src/Entry.php:26-35: the type, then the name split into module, feature and name, as tags in that order. */
    static method NamedTags(typ: Value, name: string) returns (t: PArray)
      ensures var r := SplitName(name);
        t == [(StrKey("type"), typ), (StrKey("module"), NullableStr(r.0)),
              (StrKey("feature"), NullableStr(r.1)), (StrKey("name"), Str(r.2))]
    {
      var r := SplitName(name);
      t := Put([], StrKey("type"), typ);
      t := Put(t, StrKey("module"), NullableStr(r.0));
      t := Put(t, StrKey("feature"), NullableStr(r.1));
      t := Put(t, StrKey("name"), Str(r.2));
      InitialTagsInOrder(typ, r.0, r.1, r.2);
    }

    /** `withParam`: refuses a conflicting parameter, else sets one tag or one parameter. */
    method WithParam(descriptor: string, env: string, value: Value) returns (err: Option<Error>)
      modifies this
      ensures match WithParamStep(old(Data()), env, descriptor, value)
        case Failure(e) => err == Some(e) && Data() == old(Data())
        case Success(d) => err == None && Data() == d
    {
      var p := ParamGroups(descriptor);
      if !Falsy(Str(p.env)) && !Falsy(Str(env)) && !Contains(p.env, env) {
        return Some(EnvConflict(p.name, p.env, env));
      }
      if StartsWith(p.name, ":") {
        tags := Put(tags, StrKey(TrimLeft(p.name, ':')), value);
      } else {
        var layer := if Falsy(Str(p.env)) then env else p.env;
        params := Put(params, layer, Put(LayerOr(params, layer), StrKey(p.name), value));
      }
      err := None;
    }

    /**
     * `new Entry(...)`, whose constructor can throw: the initial fields, each
     * parameter in order through WithParam, then the fullname tag.
     */
    static method Create(descriptor: string, raw: PArray) returns (r: Result<Entry, Error>)
      ensures match Construct(descriptor, raw)
        case Failure(e) => r == Failure(e)
        case Success(d) => r.Success? && fresh(r.value) && r.value.Data() == d
    {
      var parsed := ParseEntry(descriptor);
      var e := new Entry(parsed);
      if parsed.NoMatch? {
        if raw != [] {
          return Failure(UnparsedEntryWithParams);
        }
      } else {
        var env := parsed.fields.env;
        var i := 0;
        while i < |raw|
          invariant 0 <= i <= |raw|
          invariant ApplyParams(e.Data(), env, raw, i) == ApplyParams(InitialData(parsed), env, raw, 0)
        {
          var err := e.WithParam(KeyToString(raw[i].0), env, raw[i].1);
          if err.Some? {
            return Failure(err.value);
          }
          i := i + 1;
        }
      }
      ghost var built := e.Data();
      assert Construct(descriptor, raw) == Success(WithFullname(built));
      e.SetFullname();
      r := Success(e);
    }

    /** src/Entry.php:44: the fullname tag, computed from the tags as they are now. */
    method SetFullname()
      modifies this
      ensures Data() == WithFullname(old(Data()))
    {
      var name := Fullname(tags);
      tags := Put(tags, StrKey("fullname"), Str(name));
    }
  }
}
