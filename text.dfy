/**
 * Character classes and string operations shared by the JavaScript report
 * builder and the Python matcher: whitespace sets, trimming, removing
 * characters, substring and suffix tests, and the search for the first run
 * of consecutive digits in a filename.
 */
module Text {
  import opened Wrappers

  /** The characters JavaScript's `\s` matches; `String.prototype.trim` strips the same set. */
  const JS_SPACE: set<char> := {
    '\t', '\n', '\U{B}', '\U{C}', '\r', ' ', '\U{A0}', '\U{1680}',
    '\U{2000}', '\U{2001}', '\U{2002}', '\U{2003}', '\U{2004}', '\U{2005}',
    '\U{2006}', '\U{2007}', '\U{2008}', '\U{2009}', '\U{200A}',
    '\U{2028}', '\U{2029}', '\U{202F}', '\U{205F}', '\U{3000}', '\U{FEFF}'
  }

  /** Python's `str.isspace`: the characters `str.strip()` and `str.split()` treat as whitespace. */
  predicate IsPySpace(c: char) {
    || '\t' <= c <= '\r' || '\U{1C}' <= c <= ' ' || c == '\U{85}' || c == '\U{A0}' || c == '\U{1680}'
    || '\U{2000}' <= c <= '\U{200A}' || c == '\U{2028}' || c == '\U{2029}' || c == '\U{202F}'
    || c == '\U{205F}' || c == '\U{3000}'
  }

  /** The set of characters Python's `str.isspace` accepts. */
  const PY_SPACE: set<char> := set c: char | '\t' <= c <= '\U{3000}' && IsPySpace(c)

  /** ASCII digits: what `\d` and `[0-9]` match in a JavaScript regular expression. */
  predicate IsDigit(c: char) {
    '0' <= c <= '9'
  }

  predicate AllDigits(s: string) {
    forall i :: 0 <= i < |s| ==> IsDigit(s[i])
  }

  /** `s` with every character of `cs` removed, the rest kept in order. */
  function Without(s: string, cs: set<char>): (r: string)
    ensures |r| <= |s|
    ensures forall i :: 0 <= i < |r| ==> r[i] !in cs
  {
    if s == [] then []
    else if s[0] in cs then Without(s[1..], cs)
    else [s[0]] + Without(s[1..], cs)
  }

  /** Removing characters that do not occur leaves the string as it was. */
  lemma {:induction false} WithoutAbsent(s: string, cs: set<char>)
    requires forall i :: 0 <= i < |s| ==> s[i] !in cs
    ensures Without(s, cs) == s
  {
    if s != [] {
      WithoutAbsent(s[1..], cs);
    }
  }

  /** Removing characters from a concatenation removes them from each part. */
  lemma {:induction false} WithoutConcat(a: string, b: string, cs: set<char>)
    ensures Without(a + b, cs) == Without(a, cs) + Without(b, cs)
  {
    if a == [] {
      assert a + b == b;
    } else {
      assert (a + b)[0] == a[0] && (a + b)[1..] == a[1..] + b;
      WithoutConcat(a[1..], b, cs);
    }
  }

  /** The digits of `s`, in order: `String(x).replace(/[^0-9]/g, '')`. */
  function DigitsOf(s: string): (r: string)
    ensures AllDigits(r)
    ensures |r| <= |s|
  {
    if s == [] then []
    else if IsDigit(s[0]) then [s[0]] + DigitsOf(s[1..])
    else DigitsOf(s[1..])
  }

  /** Keeping the digits of a concatenation keeps the digits of each part. */
  lemma {:induction false} DigitsOfConcat(a: string, b: string)
    ensures DigitsOf(a + b) == DigitsOf(a) + DigitsOf(b)
  {
    if a == [] {
      assert a + b == b;
    } else {
      assert (a + b)[0] == a[0] && (a + b)[1..] == a[1..] + b;
      DigitsOfConcat(a[1..], b);
      if IsDigit(a[0]) {
        calc {
          DigitsOf(a + b);
          [a[0]] + DigitsOf(a[1..] + b);
          [a[0]] + (DigitsOf(a[1..]) + DigitsOf(b));
          ([a[0]] + DigitsOf(a[1..])) + DigitsOf(b);
        }
      }
    }
  }

  /** A string of digits keeps all of them. */
  lemma {:induction false} DigitsOfDigits(s: string)
    requires AllDigits(s)
    ensures DigitsOf(s) == s
  {
    if s != [] {
      DigitsOfDigits(s[1..]);
    }
  }

  /**
   * Both ends trimmed: JavaScript's `trim()` with `JS_SPACE`, Python's
   * `strip()` with `PY_SPACE`. Neither end of the result belongs to `cs`;
   * TrimSlice places it inside `s`.
   */
  function Trim(s: string, cs: set<char>): (r: string)
    ensures |r| <= |s|
    ensures IsTrimmed(r, cs)
    decreases |s|
  {
    if s == [] then s
    else if s[0] in cs then Trim(s[1..], cs)
    else if s[|s| - 1] in cs then Trim(s[..|s| - 1], cs)
    else s
  }

  /** How many leading characters of `s` belong to `cs`. */
  function LeadingCount(s: string, cs: set<char>): (k: nat)
    ensures k <= |s|
    ensures forall i :: 0 <= i < k ==> s[i] in cs
    ensures k < |s| ==> s[k] !in cs
  {
    if s != [] && s[0] in cs then 1 + LeadingCount(s[1..], cs) else 0
  }

  /** The trimmed string is the slice of `s` between its leading and its trailing run of `cs`. */
  lemma {:induction false} TrimSlice(s: string, cs: set<char>)
    ensures LeadingCount(s, cs) + |Trim(s, cs)| <= |s|
    ensures Trim(s, cs) == s[LeadingCount(s, cs)..LeadingCount(s, cs) + |Trim(s, cs)|]
    ensures forall i :: LeadingCount(s, cs) + |Trim(s, cs)| <= i < |s| ==> s[i] in cs
    decreases |s|
  {
    if s == [] {
    } else if s[0] in cs {
      TrimSlice(s[1..], cs);
    } else if s[|s| - 1] in cs {
      var n := |s| - 1;
      TrimSlice(s[..n], cs);
      assert LeadingCount(s, cs) == 0;
      assert LeadingCount(s[..n], cs) == 0;
      assert Trim(s, cs) == s[..n][..|Trim(s, cs)|];
    } else {
      assert LeadingCount(s, cs) == 0;
    }
  }

  predicate IsTrimmed(s: string, cs: set<char>) {
    s != [] ==> s[0] !in cs && s[|s| - 1] !in cs
  }

  lemma TrimTrimmed(s: string, cs: set<char>)
    requires IsTrimmed(s, cs)
    ensures Trim(s, cs) == s
  {
  }

  /** `p` occurs in `s` as a contiguous substring (`s.includes(p)`, Python's `p in s`). */
  predicate Contains(s: string, p: string) {
    exists i | 0 <= i <= |s| - |p| :: OccursAt(s, p, i)
  }

  predicate OccursAt(s: string, p: string, i: int) {
    0 <= i <= |s| - |p| && s[i..i + |p|] == p
  }

  /** `s.endswith(suffix)`. */
  predicate EndsWith(s: string, suffix: string) {
    |suffix| <= |s| && s[|s| - |suffix|..] == suffix
  }

  lemma ContainsSelf(s: string)
    ensures Contains(s, s)
  {
    assert OccursAt(s, s, 0);
  }

  lemma ContainsEmpty(s: string)
    ensures Contains(s, [])
  {
    assert OccursAt(s, [], 0);
  }

  lemma EndsWithContains(s: string, suffix: string)
    requires EndsWith(s, suffix)
    ensures Contains(s, suffix)
  {
    assert OccursAt(s, suffix, |s| - |suffix|);
  }

  /** `s` has `n` digits starting at index `i`. */
  predicate DigitsAt(s: string, i: nat, n: nat) {
    i + n <= |s| && AllDigits(s[i..i + n])
  }

  /** The start of the leftmost run of `n` consecutive digits at or after `from`. */
  function DigitsFrom(s: string, n: nat, from: nat): (r: Option<nat>)
    requires from <= |s|
    ensures r.Some? ==> from <= r.value && DigitsAt(s, r.value, n)
    ensures forall j: nat :: from <= j && (r.Some? ==> j < r.value) ==> !DigitsAt(s, j, n)
    decreases |s| - from
  {
    if from + n > |s| then None
    else if AllDigits(s[from..from + n]) then Some(from)
    else DigitsFrom(s, n, from + 1)
  }

  /** The start of the leftmost run of `n` consecutive digits in `s`: the match of `/(\d{n})/`. */
  function FirstDigits(s: string, n: nat): (r: Option<nat>)
    ensures r.Some? ==> DigitsAt(s, r.value, n)
    ensures forall j: nat :: (r.Some? ==> j < r.value) ==> !DigitsAt(s, j, n)
  {
    DigitsFrom(s, n, 0)
  }

  function DigitValue(c: char): (d: nat)
    requires IsDigit(c)
    ensures d < 10
  {
    (c as int) - ('0' as int)
  }

  /** The number a string of decimal digits denotes, most significant digit first. */
  function DecimalValue(ds: string): (v: nat)
    requires AllDigits(ds)
  {
    if ds == [] then 0
    else DecimalValue(ds[..|ds| - 1]) * 10 + DigitValue(ds[|ds| - 1])
  }
}
