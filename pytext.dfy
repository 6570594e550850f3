/**
 * The Python text built-ins the scraper relies on: `str.replace`, the
 * substring test `sub in s`, and `int(s)` on a string (base 10).
 */
module PyText {
  import opened Outcomes

  // ---------------------------------------------------------------------
  // Substring test `sub in s`

  /** `sub` occurs in `s` starting at index `i`. */
  predicate OccursAt(s: string, sub: string, i: nat) {
    i + |sub| <= |s| && s[i..i + |sub|] == sub
  }

  /** Python's `sub in s`: an exact, case-sensitive substring search. */
  predicate Contains(s: string, sub: string) {
    exists i | 0 <= i <= |s| :: OccursAt(s, sub, i)
  }

  // ---------------------------------------------------------------------
  // `s.replace(pat, rep)`

  /**
   * Python's `s.replace(pat, rep)` for a non-empty `pat`: the occurrences of
   * `pat` are found left to right without overlapping, and each is replaced
   * by `rep`.
   */
  function ReplaceAll(s: string, pat: string, rep: string): (r: string)
    requires |pat| > 0
    ensures |rep| == |pat| ==> |r| == |s|
    decreases |s|
  {
    if |s| < |pat| then s
    else if OccursAt(s, pat, 0) then rep + ReplaceAll(s[|pat|..], pat, rep)
    else [s[0]] + ReplaceAll(s[1..], pat, rep)
  }

  /** Text in which `pat` does not occur is returned unchanged. */
  lemma {:induction false} ReplaceAllWithoutOccurrence(s: string, pat: string, rep: string)
    requires |pat| > 0
    requires forall i :: 0 <= i < |s| ==> !OccursAt(s, pat, i)
    ensures ReplaceAll(s, pat, rep) == s
    decreases |s|
  {
    if |s| >= |pat| {
      assert !OccursAt(s, pat, 0);
      forall i | 0 <= i < |s| - 1 ensures !OccursAt(s[1..], pat, i) {
        if OccursAt(s[1..], pat, i) {
          assert s[1..][i..i + |pat|] == s[i + 1..i + 1 + |pat|];
          assert OccursAt(s, pat, i + 1);
        }
      }
      ReplaceAllWithoutOccurrence(s[1..], pat, rep);
    }
  }

  /**
   * `s` with every copy of `a` dropped and the other characters kept in
   * order. Defined from the right end, independently of `ReplaceAll`.
   */
  function Without(s: string, a: char): (r: string)
    ensures |r| <= |s|
    ensures forall c :: c in r <==> c in s && c != a
  {
    if s == [] then []
    else
      assert s == s[..|s| - 1] + [s[|s| - 1]];
      Without(s[..|s| - 1], a) + (if s[|s| - 1] == a then [] else [s[|s| - 1]])
  }

  lemma {:induction false} WithoutConcat(x: string, y: string, a: char)
    ensures Without(x + y, a) == Without(x, a) + Without(y, a)
    decreases |y|
  {
    if y == [] {
      assert x + y == x;
    } else {
      var y' := y[..|y| - 1];
      assert (x + y)[..|x + y| - 1] == x + y';
      WithoutConcat(x, y', a);
    }
  }

  lemma {:induction false} WithoutAbsent(s: string, a: char)
    requires a !in s
    ensures Without(s, a) == s
    decreases |s|
  {
    if s != [] {
      WithoutAbsent(s[..|s| - 1], a);
      assert s == s[..|s| - 1] + [s[|s| - 1]];
    }
  }

  /** Replacing one character by one character keeps every position and changes exactly the copies. */
  lemma {:induction false} ReplaceCharPointwise(s: string, a: char, b: char)
    ensures |ReplaceAll(s, [a], [b])| == |s|
    ensures forall i :: 0 <= i < |s| ==> ReplaceAll(s, [a], [b])[i] == if s[i] == a then b else s[i]
    decreases |s|
  {
    if |s| > 0 {
      ReplaceCharPointwise(s[1..], a, b);
      assert OccursAt(s, [a], 0) <==> s[0] == a by {
        assert s[0..1] == [s[0]];
      }
      var head := if s[0] == a then b else s[0];
      var r := ReplaceAll(s, [a], [b]);
      assert r == [head] + ReplaceAll(s[1..], [a], [b]);
      forall i | 0 <= i < |s| ensures r[i] == if s[i] == a then b else s[i] {
        if i > 0 { assert s[i] == s[1..][i - 1]; }
      }
    }
  }

  /** Replacing a character by nothing is `Without`. */
  lemma {:induction false} RemoveCharIsWithout(s: string, a: char)
    ensures ReplaceAll(s, [a], []) == Without(s, a)
    decreases |s|
  {
    if |s| > 0 {
      RemoveCharIsWithout(s[1..], a);
      assert OccursAt(s, [a], 0) <==> s[0] == a by {
        assert s[0..1] == [s[0]];
      }
      assert s == [s[0]] + s[1..];
      WithoutConcat([s[0]], s[1..], a);
      assert Without([s[0]], a) == (if s[0] == a then [] else [s[0]]) by {
        assert [s[0]][..0] == [];
      }
    }
  }

  /** A prefix in which `pat` cannot start passes through `ReplaceAll` untouched. */
  lemma {:induction false} ReplaceAllSkipsPrefix(d: string, t: string, pat: string, rep: string)
    requires |pat| > 0
    requires forall i :: 0 <= i < |d| ==> d[i] != pat[0]
    ensures ReplaceAll(d + t, pat, rep) == d + ReplaceAll(t, pat, rep)
    decreases |d|
  {
    if d == [] {
      assert d + t == t;
    } else {
      var s := d + t;
      ReplaceAllKeepsHead(s, pat, rep);
      assert s[1..] == d[1..] + t;
      ReplaceAllSkipsPrefix(d[1..], t, pat, rep);
      assert d == [d[0]] + d[1..];
    }
  }

  /** A first character that cannot start `pat` is copied and the rest is scanned. */
  lemma ReplaceAllKeepsHead(s: string, pat: string, rep: string)
    requires |pat| > 0 && |s| > 0 && s[0] != pat[0]
    ensures ReplaceAll(s, pat, rep) == [s[0]] + ReplaceAll(s[1..], pat, rep)
  {
    if |s| >= |pat| {
      assert s[..|pat|][0] == s[0];
    } else {
      assert ReplaceAll(s[1..], pat, rep) == s[1..];
      assert s == [s[0]] + s[1..];
    }
  }

  /** An occurrence of `pat` at the front is replaced by `rep`, and the scan goes on after it. */
  lemma {:induction false} ReplaceAllOfPattern(pat: string, t: string, rep: string)
    requires |pat| > 0
    ensures ReplaceAll(pat + t, pat, rep) == rep + ReplaceAll(t, pat, rep)
  {
    var s := pat + t;
    assert OccursAt(s, pat, 0) by { assert s[0..|pat|] == pat; }
    assert s[|pat|..] == t;
  }

  // ---------------------------------------------------------------------
  // `int(s)` for a `str` argument, base 10

  /**
   * The characters CPython skips around the digits of `int(s)`: the ASCII
   * white space `\t \n \v \f \r` and space, and the non-ASCII characters
   * that `Py_UNICODE_ISSPACE` accepts (which are turned into a space before
   * parsing). The ASCII separators U+001C-U+001F are not skipped.
   */
  predicate IsSpace(c: char) {
    ('\t' <= c <= '\r') || c == ' '
    || c == '\U{85}' || c == '\U{a0}' || c == '\U{1680}'
    || ('\U{2000}' <= c <= '\U{200a}') || c == '\U{2028}' || c == '\U{2029}'
    || c == '\U{202f}' || c == '\U{205f}' || c == '\U{3000}'
  }

  predicate IsDigit(c: char) {
    '0' <= c <= '9'
  }

  predicate AllDigits(s: string) {
    forall i | 0 <= i < |s| :: IsDigit(s[i])
  }

  /** Number of white-space characters at the start of `s`. */
  function LeadingSpaces(s: string): (n: nat)
    ensures n <= |s|
    ensures forall k :: 0 <= k < n ==> IsSpace(s[k])
    ensures n < |s| ==> !IsSpace(s[n])
    decreases |s|
  {
    if |s| > 0 && IsSpace(s[0]) then
      var n := 1 + LeadingSpaces(s[1..]);
      assert forall k :: 1 <= k < n ==> s[k] == s[1..][k - 1];
      n
    else 0
  }

  /** The index just after the last character of `s` that is not white space (0 if there is none). */
  function ContentEnd(s: string): (n: nat)
    ensures n <= |s|
    ensures forall k :: n <= k < |s| ==> IsSpace(s[k])
    ensures n > 0 ==> !IsSpace(s[n - 1])
    decreases |s|
  {
    if |s| > 0 && IsSpace(s[|s| - 1]) then ContentEnd(s[..|s| - 1]) else |s|
  }

  /** `s` without its leading and trailing white space. */
  function Strip(s: string): string {
    var lo, hi := LeadingSpaces(s), ContentEnd(s);
    if lo <= hi then s[lo..hi] else []
  }

  /** Every character of `s` that is not white space lies inside `Strip(s)`. */
  lemma StripKeeps(s: string, i: nat)
    requires i < |s| && !IsSpace(s[i])
    ensures LeadingSpaces(s) <= i < ContentEnd(s)
    ensures Strip(s) == s[LeadingSpaces(s)..ContentEnd(s)]
  {
  }

  /** The stripped text neither starts nor ends with white space. */
  lemma StripTrims(s: string)
    ensures |Strip(s)| > 0 ==> !IsSpace(Strip(s)[0]) && !IsSpace(Strip(s)[|Strip(s)| - 1])
  {
  }

  /**
   * The digit part CPython accepts in base 10: ASCII digits, where a single
   * `_` may separate two digits.
   */
  predicate IsDigitRun(t: string) {
    && |t| > 0
    && (forall i | 0 <= i < |t| :: IsDigit(t[i]) || t[i] == '_')
    && (forall i | 0 <= i < |t| && t[i] == '_' :: 0 < i < |t| - 1 && IsDigit(t[i - 1]) && IsDigit(t[i + 1]))
  }

  /** The value of a string of decimal digits (0 for the empty string). */
  function DigitsValue(ds: string): nat
    requires AllDigits(ds)
    decreases |ds|
  {
    if ds == [] then 0
    else 10 * DigitsValue(ds[..|ds| - 1]) + (ds[|ds| - 1] as int - '0' as int)
  }

  function ParseMagnitude(t: string): Option<nat> {
    if IsDigitRun(t) then
      var ds := Without(t, '_');
      assert AllDigits(ds) by {
        forall i | 0 <= i < |ds| ensures IsDigit(ds[i]) {
          assert ds[i] in ds;
          var j :| 0 <= j < |t| && t[j] == ds[i];
        }
      }
      Some(DigitsValue(ds))
    else None
  }

  /**
   * Python's `int(s)` for a string `s`: `None` where Python raises
   * `ValueError`. Surrounding white space is ignored, one `+` or `-` may
   * directly precede the digits, and leading zeros are allowed.
   */
  function ParseInt(s: string): Option<int> {
    var t := Strip(s);
    if |t| > 0 && (t[0] == '+' || t[0] == '-') then
      match ParseMagnitude(t[1..])
      case None => None
      case Some(m) =>
        var v: int := if t[0] == '-' then -(m as int) else m;
        Some(v)
    else
      match ParseMagnitude(t)
      case None => None
      case Some(m) => Some(m)
  }

  // ---------------------------------------------------------------------
  // Decimal rendering, the inverse of `int(s)`

  /** Python's `str(n)` for a non-negative integer. */
  function NatToDecimal(n: nat): (r: string)
    ensures |r| > 0 && AllDigits(r)
    decreases n
  {
    (if n < 10 then [] else NatToDecimal(n / 10)) + [('0' as int + n % 10) as char]
  }

  /** Python's `str(n)` for an integer. */
  function IntToDecimal(n: int): string {
    if n < 0 then "-" + NatToDecimal(-n) else NatToDecimal(n)
  }

  lemma {:induction false} NatToDecimalValue(n: nat)
    ensures DigitsValue(NatToDecimal(n)) == n
    decreases n
  {
    var r := NatToDecimal(n);
    assert r[..|r| - 1] == if n < 10 then [] else NatToDecimal(n / 10);
    if n >= 10 {
      NatToDecimalValue(n / 10);
    }
  }

  /** Stripping a string that neither starts nor ends with white space changes nothing. */
  lemma StripUnpadded(s: string)
    requires |s| > 0 && !IsSpace(s[0]) && !IsSpace(s[|s| - 1])
    ensures Strip(s) == s
  {
    assert LeadingSpaces(s) == 0;
    assert ContentEnd(s) == |s|;
  }

  /** A string of digits without separators is a digit run worth its digits. */
  lemma ParseMagnitudeOfDigits(ds: string)
    requires |ds| > 0 && AllDigits(ds)
    ensures ParseMagnitude(ds) == Some(DigitsValue(ds))
  {
    assert '_' !in ds;
    WithoutAbsent(ds, '_');
    assert IsDigitRun(ds);
  }

  /** A plain string of digits parses to its value. */
  lemma ParseIntOfDigits(ds: string)
    requires |ds| > 0 && AllDigits(ds)
    ensures ParseInt(ds) == Some(DigitsValue(ds))
  {
    StripUnpadded(ds);
    ParseMagnitudeOfDigits(ds);
  }

  /** A minus sign directly before a plain string of digits negates its value. */
  lemma ParseIntOfNegatedDigits(ds: string, s: string)
    requires |ds| > 0 && AllDigits(ds) && s == "-" + ds
    ensures ParseInt(s) == Some(-(DigitsValue(ds) as int))
  {
    assert s[0] == '-' && s[|s| - 1] == ds[|ds| - 1];
    StripUnpadded(s);
    assert s[1..] == ds;
    ParseMagnitudeOfDigits(ds);
    ParseIntOfMinus(s, DigitsValue(ds));
  }

  lemma ParseIntOfMinus(s: string, m: nat)
    requires Strip(s) == s && |s| > 0 && s[0] == '-' && ParseMagnitude(s[1..]) == Some(m)
    ensures ParseInt(s) == Some(-(m as int))
  {
  }

  /** `int(str(n)) == n`. */
  lemma ParseIntOfDecimal(n: int)
    ensures ParseInt(IntToDecimal(n)) == Some(n)
  {
    if n < 0 {
      var ds := NatToDecimal(-n);
      NegativeDecimal(n);
      ParseIntOfNegatedDigits(ds, IntToDecimal(n));
    } else {
      NatToDecimalValue(n);
      ParseIntOfDigits(NatToDecimal(n));
    }
  }

  /** `str(n)` of a negative `n` is a minus sign before the digits of `-n`. */
  lemma NegativeDecimal(n: int)
    requires n < 0
    ensures IntToDecimal(n) == "-" + NatToDecimal(-n)
    ensures DigitsValue(NatToDecimal(-n)) == -n
  {
    NatToDecimalValue(-n);
  }

  /** `int(s)` raises when `s` holds a character that can be neither white space, a sign, a digit nor `_`. */
  lemma ParseIntRejectsForeign(s: string, i: nat)
    requires i < |s|
    requires !IsSpace(s[i]) && !IsDigit(s[i]) && s[i] !in "+-_"
    ensures ParseInt(s) == None
  {
    var t := Strip(s);
    var lo := LeadingSpaces(s);
    StripKeeps(s, i);
    assert t[i - lo] == s[i];
    if |t| > 0 && (t[0] == '+' || t[0] == '-') {
      assert t[1..][i - lo - 1] == s[i];
    }
  }

  /** An ASCII separator such as U+001C before the digits is not skipped: `int("\x1c41")` raises. */
  lemma SeparatorIsNotSpace()
    ensures ParseInt(['\U{1c}'] + "41") == None
  {
    ParseIntRejectsForeign(['\U{1c}'] + "41", 0);
  }

  /** `int(s)` succeeds only on strings holding at least one digit. */
  lemma ParseIntNeedsDigit(s: string)
    requires forall i :: 0 <= i < |s| ==> !IsDigit(s[i])
    ensures ParseInt(s) == None
  {
    var t := Strip(s);
    var lo := LeadingSpaces(s);
    if |t| > 0 {
      StripTrims(s);
      StripKeeps(s, lo);
      assert t[0] == s[lo];
      if t[0] == '+' || t[0] == '-' {
        if |t| > 1 { assert t[1..][0] == t[1] == s[lo + 1]; }
      }
    }
  }
}
