/**
 * The few PHP string built-ins the core relies on: explode with a limit,
 * implode, str_contains, str_starts_with, ltrim and the integer-to-string
 * conversion. Strings are sequences of characters; every separator the core
 * uses ('.', '-', ':') is a single character.
 */
module PhpStrings {

  /** strpos for one character: the index of the first `c` in `s`, or |s| when there is none. */
  function IndexOf(s: string, c: char): (i: nat)
    ensures i <= |s|
    ensures i < |s| ==> s[i] == c
    ensures c !in s[..i]
    ensures i == |s| <==> c !in s
  {
    if s == [] then 0
    else if s[0] == c then 0
    else
      var j := IndexOf(s[1..], c);
      assert s[..1 + j] == [s[0]] + s[1..][..j];
      1 + j
  }

  /** A string is the part before position `i`, the character there and the part after it. */
  lemma SplitAround(s: string, i: nat)
    requires i < |s|
    ensures s == s[..i] + [s[i]] + s[i + 1..]
  {
    assert s == s[..i] + s[i..];
    assert s[i..] == [s[i]] + s[i + 1..];
  }

  /** Concatenation regroups freely. */
  lemma Regroup(a: string, b: string, c: string)
    ensures a + (b + c) == a + b + c
  {
  }

  /** implode(glue, parts) for a one-character glue. */
  function Implode(glue: char, parts: seq<string>): string
    decreases |parts|
  {
    if parts == [] then ""
    else if |parts| == 1 then parts[0]
    else parts[0] + [glue] + Implode(glue, parts[1..])
  }

  lemma ImplodeTwo(glue: char, a: string, b: string)
    ensures Implode(glue, [a, b]) == a + [glue] + b
  {
    assert [a, b][1..] == [b];
  }

  /**
   * explode(sep, s, limit) for a positive limit: at most `limit` pieces, split
   * at the first occurrences of `sep`, the last piece keeping the rest.
   */
  function Explode(sep: char, s: string, limit: nat): (parts: seq<string>)
    requires limit >= 1
    ensures 1 <= |parts| <= limit
    ensures forall j :: 0 <= j < |parts| - 1 ==> sep !in parts[j]
    ensures |parts| < limit ==> sep !in parts[|parts| - 1]
    ensures Implode(sep, parts) == s
    decreases limit
  {
    var i := IndexOf(s, sep);
    if limit == 1 || i == |s| then [s]
    else
      var rest := Explode(sep, s[i + 1..], limit - 1);
      SplitAround(s, i);
      var parts := [s[..i]] + rest;
      assert parts[1..] == rest;
      parts
  }

  /** The first separator of `a + [sep] + b` is the one right after `a` when `a` has none. */
  lemma IndexOfAfterPiece(a: string, sep: char, b: string)
    requires sep !in a
    ensures IndexOf(a + [sep] + b, sep) == |a|
    ensures (a + [sep] + b)[..|a|] == a && (a + [sep] + b)[|a| + 1..] == b
  {
    var s := a + [sep] + b;
    assert s[|a|] == sep;
    assert s[..|a|] == a;
    assert s[|a| + 1..] == b;
  }

  /**
   * Explode undoes Implode: pieces free of the separator (the last one only
   * needs to be when there are fewer pieces than the limit) come back unchanged.
   */
  lemma {:induction false} ExplodeImplode(sep: char, parts: seq<string>, limit: nat)
    requires 1 <= |parts| <= limit
    requires forall j :: 0 <= j < |parts| - 1 ==> sep !in parts[j]
    requires |parts| < limit ==> sep !in parts[|parts| - 1]
    ensures Explode(sep, Implode(sep, parts), limit) == parts
    decreases |parts|
  {
    if |parts| == 1 {
      ExplodeWithoutSeparator(sep, parts[0], limit);
      assert parts == [parts[0]];
    } else {
      var tail := Implode(sep, parts[1..]);
      assert Implode(sep, parts) == parts[0] + [sep] + tail;
      ExplodeImplode(sep, parts[1..], limit - 1);
      ExplodeFirstPiece(sep, parts[0], tail, limit);
      assert Explode(sep, tail, limit - 1) == parts[1..];
      assert [parts[0]] + parts[1..] == parts;
    }
  }

  lemma ExplodeWithoutSeparator(sep: char, s: string, limit: nat)
    requires 1 <= limit
    requires limit > 1 ==> sep !in s
    ensures Implode(sep, [s]) == s
    ensures Explode(sep, s, limit) == [s]
  {
    assert limit > 1 ==> IndexOf(s, sep) == |s|;
  }

  lemma ExplodeFirstPiece(sep: char, first: string, tail: string, limit: nat)
    requires 2 <= limit
    requires sep !in first
    ensures Explode(sep, first + [sep] + tail, limit) == [first] + Explode(sep, tail, limit - 1)
  {
    var s := first + [sep] + tail;
    IndexOfAfterPiece(first, sep, tail);
    assert s[|first| + 1..] == tail;
    assert s[..|first|] == first;
  }

  /** str_contains(haystack, needle); the empty needle is contained in everything. */
  predicate Contains(haystack: string, needle: string)
    decreases |haystack|
  {
    StartsWith(haystack, needle) || (haystack != [] && Contains(haystack[1..], needle))
  }

  /** `needle` occurs in `haystack` starting at index `i`. */
  predicate OccursAt(haystack: string, needle: string, i: int) {
    0 <= i && i + |needle| <= |haystack| && haystack[i..i + |needle|] == needle
  }

  /** Contains agrees with the textbook definition: some window of the haystack equals the needle. */
  lemma {:induction false} ContainsIffOccurs(haystack: string, needle: string)
    ensures Contains(haystack, needle) <==> exists i :: OccursAt(haystack, needle, i)
    decreases |haystack|
  {
    if haystack != [] {
      var tail := haystack[1..];
      ContainsIffOccurs(tail, needle);
      if StartsWith(haystack, needle) {
        assert OccursAt(haystack, needle, 0);
      }
      if Contains(tail, needle) {
        var i :| OccursAt(tail, needle, i);
        assert haystack[i + 1..i + 1 + |needle|] == tail[i..i + |needle|];
        assert OccursAt(haystack, needle, i + 1);
      }
      if exists i :: OccursAt(haystack, needle, i) {
        var i :| OccursAt(haystack, needle, i);
        if i > 0 {
          assert tail[i - 1..i - 1 + |needle|] == haystack[i..i + |needle|];
          assert OccursAt(tail, needle, i - 1);
        } else {
          assert haystack[..|needle|] == haystack[0..|needle|];
        }
      }
    } else if needle == [] {
      assert OccursAt(haystack, needle, 0);
    }
  }

  /** str_starts_with(s, prefix). */
  predicate StartsWith(s: string, prefix: string) {
    |prefix| <= |s| && s[..|prefix|] == prefix
  }

  /** ltrim(s, c): `s` without its leading run of `c`. */
  function TrimLeft(s: string, c: char): (r: string)
    ensures r <= s || (|r| <= |s| && r == s[|s| - |r|..])
    ensures r == [] || r[0] != c
    ensures forall k :: 0 <= k < |s| - |r| ==> s[k] == c
    ensures s == s[..|s| - |r|] + r
    decreases |s|
  {
    if s != [] && s[0] == c then TrimLeft(s[1..], c) else s
  }

  function DigitChar(d: nat): char
    requires d < 10
  {
    "0123456789"[d]
  }

  /** The decimal digits of `n`, most significant first, without leading zeros. */
  function NatToString(n: nat): (s: string)
    ensures 1 <= |s|
    ensures forall k :: 0 <= k < |s| ==> '0' <= s[k] <= '9'
    ensures |s| > 1 ==> s[0] != '0'
  {
    if n < 10 then [DigitChar(n)]
    else NatToString(n / 10) + [DigitChar(n % 10)]
  }

  /** (string) of a PHP integer: an optional minus sign followed by the decimal digits. */
  function IntToString(i: int): (s: string)
    ensures 1 <= |s|
    ensures '.' !in s && ':' !in s && '@' !in s
  {
    if i < 0 then "-" + NatToString(-i) else NatToString(i)
  }
}
