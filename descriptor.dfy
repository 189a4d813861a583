/**
 * The two descriptor grammars of src/Entry.php, written out as character-level
 * parsers with the behaviour of the anchored patterns:
 *
 *   entry: an optional name free of ':', then ':', then a non-empty type free
 *          of '@', then optionally '@' and a non-empty env;
 *   param: a non-empty name free of '@', then optionally '@' and a non-empty env.
 *
 * Every repetition is possessive, so each part is the longest run it can be.
 * The name and type runs may hold any character but their stop character
 * (a line feed included); the env run stops at a line feed, and the pattern's
 * end anchor accepts either the end of the subject or one final line feed.
 * An absent env is reported as "", and an absent entry name as "".
 */
module Descriptors {
  import opened Wrappers
  import opened PhpStrings

  /** The named groups of an entry descriptor `name:type@env`. */
  datatype EntryFields = EntryFields(name: string, typ: string, env: string)

  /** The named groups of a parameter descriptor `name@env`. */
  datatype ParamFields = ParamFields(name: string, env: string)

  /** The outcome of `parse`: the groups, or the empty object a mismatch yields. */
  datatype Parsed<T> = Matched(fields: T) | NoMatch

  /**
   * The `@env` tail after its '@': the longest run without a line feed, which
   * must be non-empty and be followed by the end or by one final line feed.
   */
  function EnvTail(rest: string): (r: Option<string>)
    ensures r.Some? <==> 0 < |rest| && rest[0] != '\n' && (IndexOf(rest, '\n') == |rest| || IndexOf(rest, '\n') == |rest| - 1)
    ensures r.Some? ==> r.value != "" && '\n' !in r.value
    ensures r.Some? ==> rest == r.value || rest == r.value + "\n"
  {
    var e := IndexOf(rest, '\n');
    if e == 0 then None
    else if e == |rest| then
      assert rest[..e] == rest;
      Some(rest)
    else if e + 1 == |rest| then
      assert rest == rest[..e] + "\n";
      Some(rest[..e])
    else None
  }

  /** Matching a subject against the entry grammar (src/Entry.php:7 with `parse`). */
  function ParseEntry(s: string): Parsed<EntryFields> {
    var i := IndexOf(s, ':');
    if i == |s| then NoMatch
    else
      var after := s[i + 1..];
      var j := IndexOf(after, '@');
      if j == 0 then NoMatch
      else if j == |after| then Matched(EntryFields(s[..i], after, ""))
      else match EnvTail(after[j + 1..])
        case None => NoMatch
        case Some(env) => Matched(EntryFields(s[..i], after[..j], env))
  }

  /** Matching a subject against the parameter grammar (src/Entry.php:8 with `parse`). */
  function ParseParam(s: string): Parsed<ParamFields> {
    var j := IndexOf(s, '@');
    if j == 0 then NoMatch
    else if j == |s| then Matched(ParamFields(s, ""))
    else match EnvTail(s[j + 1..])
      case None => NoMatch
      case Some(env) => Matched(ParamFields(s[..j], env))
  }

  /** Groups the entry grammar can produce. */
  predicate WellFormedEntry(f: EntryFields) {
    ':' !in f.name && f.typ != "" && '@' !in f.typ && '\n' !in f.env
  }

  /** Groups the parameter grammar can produce. */
  predicate WellFormedParam(p: ParamFields) {
    p.name != "" && '@' !in p.name && '\n' !in p.env
  }

  /** The canonical text of an entry descriptor. */
  function FormatEntry(f: EntryFields): string {
    f.name + ":" + f.typ + (if f.env == "" then "" else "@" + f.env)
  }

  /** The canonical text of a parameter descriptor. */
  function FormatParam(p: ParamFields): string {
    p.name + (if p.env == "" then "" else "@" + p.env)
  }

  /**
   * Whatever the entry grammar accepts is the canonical text of well-formed
   * groups, possibly followed by the one line feed the end anchor allows after
   * an env.
   */
  lemma ParseEntrySound(s: string)
    ensures ParseEntry(s).Matched? ==>
      var f := ParseEntry(s).fields;
      WellFormedEntry(f) && (s == FormatEntry(f) || (f.env != "" && s == FormatEntry(f) + "\n"))
  {
    var i := IndexOf(s, ':');
    if i < |s| {
      var name, after := s[..i], s[i + 1..];
      assert s == name + ":" + after;
      var j := IndexOf(after, '@');
      if j == |after| {
        assert FormatEntry(EntryFields(name, after, "")) == s;
      } else if 0 < j && EnvTail(after[j + 1..]).Some? {
        var env := EnvTail(after[j + 1..]).value;
        var f := EntryFields(name, after[..j], env);
        assert ParseEntry(s) == Matched(f);
        assert WellFormedEntry(f);
        EnvPieceSound(after, j);
        JoinEntry(name, after[..j], env, after, s);
      }
    }
  }

  /** Reassembles `name:` followed by the type, '@', the env and at most one line feed. */
  lemma JoinEntry(name: string, typ: string, env: string, after: string, s: string)
    requires env != "" && s == name + ":" + after
    requires after == typ + "@" + env || after == typ + "@" + env + "\n"
    ensures var t := FormatEntry(EntryFields(name, typ, env)); s == t || s == t + "\n"
  {
    var t := FormatEntry(EntryFields(name, typ, env));
    assert t == name + ":" + (typ + "@" + env);
    if after != typ + "@" + env {
      assert s == name + ":" + (typ + "@" + env) + "\n";
    }
  }

  /** The type-and-env part of an accepted entry descriptor is canonical text. */
  lemma EnvPieceSound(after: string, j: nat)
    requires 0 < j < |after| && j == IndexOf(after, '@')
    ensures EnvTail(after[j + 1..]).Some? ==>
      var env := EnvTail(after[j + 1..]).value;
      after == after[..j] + "@" + env || after == after[..j] + "@" + env + "\n"
  {
    var rest := after[j + 1..];
    var head := after[..j] + "@";
    SplitAround(after, j);
    if EnvTail(rest).Some? {
      var env := EnvTail(rest).value;
      if rest != env {
        Regroup(head, env, "\n");
      }
    }
  }

  /** An env followed by the one final line feed the end anchor allows is read as the env. */
  lemma EnvTailWithLineFeed(env: string)
    requires env != "" && '\n' !in env
    ensures EnvTail(env + "\n") == Some(env)
  {
    assert env + "\n" == env + ['\n'] + "";
    IndexOfAfterPiece(env, '\n', "");
    assert (env + "\n")[..|env|] == env;
  }

  /**
   * Conversely, the canonical text of well-formed groups parses back to them,
   * and so does that text followed by one final line feed when it ends in an env.
   */
  lemma ParseEntryComplete(f: EntryFields)
    requires WellFormedEntry(f)
    ensures ParseEntry(FormatEntry(f)) == Matched(f)
    ensures f.env != "" ==> ParseEntry(FormatEntry(f) + "\n") == Matched(f)
  {
    if f.env != "" {
      var s := FormatEntry(f) + "\n";
      var after := f.typ + ['@'] + (f.env + "\n");
      assert s == f.name + [':'] + after;
      IndexOfAfterPiece(f.name, ':', after);
      IndexOfAfterPiece(f.typ, '@', f.env + "\n");
      EnvTailWithLineFeed(f.env);
      assert s[|f.name| + 1..] == after;
    }
    ParseEntryExact(f);
  }

  /** The canonical text of well-formed entry groups parses back to them. */
  lemma ParseEntryExact(f: EntryFields)
    requires WellFormedEntry(f)
    ensures ParseEntry(FormatEntry(f)) == Matched(f)
  {
    var tail := if f.env == "" then "" else "@" + f.env;
    var after := f.typ + tail;
    assert FormatEntry(f) == f.name + [':'] + after;
    IndexOfAfterPiece(f.name, ':', after);
    if f.env == "" {
      assert after == f.typ;
      assert IndexOf(after, '@') == |after|;
    } else {
      assert after == f.typ + ['@'] + f.env;
      IndexOfAfterPiece(f.typ, '@', f.env);
      assert EnvTail(f.env) == Some(f.env);
    }
  }

  /** Whatever the parameter grammar accepts is canonical text, possibly followed by one final line feed. */
  lemma ParseParamSound(s: string)
    ensures ParseParam(s).Matched? ==>
      var p := ParseParam(s).fields;
      WellFormedParam(p) && (s == FormatParam(p) || (p.env != "" && s == FormatParam(p) + "\n"))
  {
    var j := IndexOf(s, '@');
    if j == |s| {
      assert FormatParam(ParamFields(s, "")) == s;
    } else if 0 < j && EnvTail(s[j + 1..]).Some? {
      var env := EnvTail(s[j + 1..]).value;
      var p := ParamFields(s[..j], env);
      assert ParseParam(s) == Matched(p);
      EnvPieceSound(s, j);
      Regroup(s[..j], "@", env);
      assert FormatParam(p) == s[..j] + ("@" + env);
    }
  }

  /**
   * The canonical text of well-formed parameter groups parses back to them,
   * and so does that text followed by one final line feed when it ends in an env.
   */
  lemma ParseParamComplete(p: ParamFields)
    requires WellFormedParam(p)
    ensures ParseParam(FormatParam(p)) == Matched(p)
    ensures p.env != "" ==> ParseParam(FormatParam(p) + "\n") == Matched(p)
  {
    if p.env != "" {
      var t := FormatParam(p) + "\n";
      assert t == p.name + ['@'] + (p.env + "\n");
      IndexOfAfterPiece(p.name, '@', p.env + "\n");
      EnvTailWithLineFeed(p.env);
    }
    ParseParamExact(p);
  }

  /** The canonical text of well-formed parameter groups parses back to them. */
  lemma ParseParamExact(p: ParamFields)
    requires WellFormedParam(p)
    ensures ParseParam(FormatParam(p)) == Matched(p)
  {
    var s := FormatParam(p);
    if p.env == "" {
      assert s == p.name;
    } else {
      assert s == p.name + ['@'] + p.env;
      IndexOfAfterPiece(p.name, '@', p.env);
      assert s[|p.name| + 1..] == p.env;
      assert s[..|p.name|] == p.name;
    }
  }

  /**
   * Subjects the entry grammar rejects: no ':' at all, an empty type (with
   * or without an env), and an '@' with nothing after it.
   */
  lemma ParseEntryMismatches(name: string, typ: string, env: string)
    requires ':' !in name && '@' !in typ
    ensures ParseEntry(name) == NoMatch
    ensures ParseEntry(name + ":") == NoMatch
    ensures ParseEntry(name + ":@" + env) == NoMatch
    ensures ParseEntry(name + ":" + typ + "@") == NoMatch
  {
    var v := name + ":@" + env;
    assert v == name + [':'] + ("@" + env);
    IndexOfAfterPiece(name, ':', "@" + env);
    assert v[|name| + 1..][0] == '@';
    assert IndexOf(name, ':') == |name|;
    var t := name + ":";
    assert t == name + [':'] + "";
    IndexOfAfterPiece(name, ':', "");
    var u := name + ":" + typ + "@";
    assert u == name + [':'] + (typ + "@");
    IndexOfAfterPiece(name, ':', typ + "@");
    assert u[|name| + 1..] == typ + ['@'] + "";
    IndexOfAfterPiece(typ, '@', "");
  }

  /** Subjects the parameter grammar rejects: an empty name, and an '@' with nothing after it. */
  lemma ParseParamMismatches(name: string, env: string)
    requires '@' !in name
    ensures ParseParam("@" + env) == NoMatch
    ensures ParseParam(name + "@") == NoMatch
  {
    assert ("@" + env)[0] == '@';
    assert name + "@" == name + ['@'] + "";
    IndexOfAfterPiece(name, '@', "");
  }
}
