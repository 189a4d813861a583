/**
 * PHP values as the core sees them: null, booleans, integers, strings,
 * ordered arrays with integer or string keys, and the one object the core
 * creates itself (an Env, handed to the renderer). Floats, and the stdClass
 * objects that YAML `!map` mappings become, are not represented: documents
 * carry every mapping as an array.
 */
module PhpValues {
  import opened Wrappers
  import opened Assoc
  import opened PhpStrings
  import EnvModel

  datatype Key = IntKey(i: int) | StrKey(s: string)

  datatype Value =
    | Null
    | Bool(b: bool)
    | Int(i: int)
    | Str(s: string)
    | Arr(a: seq<(Key, Value)>)
    | EnvObject(env: EnvModel.Env)

  /** A PHP array: pairs in iteration order. */
  type PArray = seq<(Key, Value)>

  /** The largest integer key of `a`, if it has one. */
  function MaxIntKey(a: PArray): (m: Option<int>)
    ensures m.None? <==> forall j :: 0 <= j < |a| ==> a[j].0.StrKey?
    ensures m.Some? ==> forall j :: 0 <= j < |a| && a[j].0.IntKey? ==> a[j].0.i <= m.value
    ensures m.Some? ==> exists j :: 0 <= j < |a| && a[j].0 == IntKey(m.value)
    decreases |a|
  {
    if a == [] then None
    else
      var m := MaxIntKey(a[..|a| - 1]);
      var k := a[|a| - 1].0;
      if k.StrKey? then m
      else if m.Some? && k.i <= m.value then m
      else Some(k.i)
  }

  /**
   * The key `$a[] = $v` uses: one more than the largest integer key, or 0 when
   * there is none (PHP 8.3 and later, where a negative largest key n gives n + 1).
   */
  function NextIndex(a: PArray): (n: int)
    ensures forall j :: 0 <= j < |a| && a[j].0.IntKey? ==> a[j].0.i < n
    ensures !Has(a, IntKey(n))
  {
    match MaxIntKey(a)
    case None => 0
    case Some(m) => m + 1
  }

  /** `$a[] = $v`. */
  function Push(a: PArray, v: Value): (r: PArray)
    ensures r == a + [(IntKey(NextIndex(a)), v)]
    ensures Distinct(a) ==> Distinct(r)
  {
    a + [(IntKey(NextIndex(a)), v)]
  }

  /** Appending under a fresh integer key leaves every string key where it was. */
  lemma PushKeepsStrings(a: PArray, v: Value, s: string)
    ensures Get(Push(a, v), StrKey(s)) == Get(a, StrKey(s))
  {
    GetSnoc(a, (IntKey(NextIndex(a)), v), StrKey(s));
  }

  /** `(array) $v`. */
  function CastToArray(v: Value): PArray {
    match v
    case Null => []
    case Arr(a) => a
    case EnvObject(e) => [(StrKey("base"), Str(e.base)), (StrKey("suffix"), Str(e.suffix))]
    case _ => [(IntKey(0), v)]
  }

  /** `empty($v)`, equivalently `!$v`. */
  predicate Falsy(v: Value) {
    match v
    case Null => true
    case Bool(b) => !b
    case Int(i) => i == 0
    case Str(s) => s == "" || s == "0"
    case Arr(a) => a == []
    case EnvObject(_) => false
  }

  /** `isset($a[$k])`: the key is present and its value is not null. */
  predicate IsSet(a: PArray, k: Key) {
    match Get(a, k)
    case None => false
    case Some(v) => v != Null
  }

  /** The value under a key, null when the key is missing (`$a[$k]` after its warning). */
  function GetOrNull(a: PArray, k: Key): Value {
    match Get(a, k)
    case None => Null
    case Some(v) => v
  }

  /** `(string) $v`, as used by implode and by string concatenation. */
  function ToPhpString(v: Value): string {
    match v
    case Null => ""
    case Bool(b) => if b then "1" else ""
    case Int(i) => IntToString(i)
    case Str(s) => s
    case Arr(_) => "Array"
    case EnvObject(e) => EnvModel.ToString(e)
  }

  /** A foreach key passed to a `string` parameter: integers become their decimal text. */
  function KeyToString(k: Key): string {
    match k
    case IntKey(i) => IntToString(i)
    case StrKey(s) => s
  }
}
