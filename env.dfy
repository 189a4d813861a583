/**
 * The environment specifier (src/Env.php): "prod-eu-2" is split once, at its
 * first '-', into a base ("prod") and a suffix ("eu-2"). The base names the
 * fallback parameter layer of an entry; both parts go to the renderer.
 */
module EnvModel {
  import opened PhpStrings

  /** An Env object: its two fields are set once by the constructor and never change. */
  datatype Env = Env(base: string, suffix: string)

  /** `new Env($env)`: explode('-', $env, 2), the suffix defaulting to "". */
  function FromSpec(spec: string): (e: Env)
    ensures '-' !in e.base
    ensures e.base <= spec
    ensures '-' in spec ==> e.base + "-" + e.suffix == spec
    ensures '-' !in spec ==> e.base == spec && e.suffix == ""
  {
    var parts := Explode('-', spec, 2);
    if |parts| == 2 then
      assert Implode('-', parts) == parts[0] + "-" + parts[1];
      Env(parts[0], parts[1])
    else
      Env(parts[0], "")
  }

  /** `(string) $env`: implode('-', [base, suffix]) — the separator is always written. */
  function ToString(e: Env): string {
    Implode('-', [e.base, e.suffix])
  }

  /**
   * Printing an Env built from a specifier gives the specifier back when it
   * contains a '-', and the specifier with a trailing '-' otherwise.
   */
  lemma ToStringFromSpec(spec: string)
    ensures ToString(FromSpec(spec)) == if '-' in spec then spec else spec + "-"
  {
    var e := FromSpec(spec);
    ImplodeTwo('-', e.base, e.suffix);
  }

  /** Conversely, an Env whose base has no '-' is rebuilt exactly from its printed form. */
  lemma FromSpecToString(e: Env)
    requires '-' !in e.base
    ensures FromSpec(ToString(e)) == e
  {
    ExplodeImplode('-', [e.base, e.suffix], 2);
  }

  /** "prod-eu-2" has base "prod" and suffix "eu-2"; "prod" has base "prod" and no suffix. */
  lemma Examples()
    ensures FromSpec("prod-eu-2") == Env("prod", "eu-2")
    ensures FromSpec("prod") == Env("prod", "")
    ensures ToString(FromSpec("prod")) == "prod-"
  {
    ImplodeTwo('-', "prod", "eu-2");
    assert ToString(Env("prod", "eu-2")) == "prod-eu-2";
    FromSpecToString(Env("prod", "eu-2"));
    assert '-' !in "prod";
    ToStringFromSpec("prod");
  }
}
