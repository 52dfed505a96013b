/** Character classes and digit strings shared by the number and date parsers.
    Only ASCII digits and ASCII whitespace are modelled. */
module Chars {
  import opened Wrappers

  predicate IsDigit(c: char) {
    '0' <= c <= '9'
  }

  function DigitValue(c: char): (d: nat)
    requires IsDigit(c)
    ensures d <= 9
  {
    c as int - '0' as int
  }

  function DigitChar(d: nat): (c: char)
    requires d <= 9
    ensures IsDigit(c) && DigitValue(c) == d
  {
    ('0' as int + d) as char
  }

  predicate AllDigits(s: string) {
    forall i :: 0 <= i < |s| ==> IsDigit(s[i])
  }

  /** The two ASCII whitespace classes of Python that the parsers meet.
      `RegexSpaces` is what `\s` in a regular expression (and `str.isspace`)
      matches: space, tab, line feed, vertical tab, form feed, carriage return
      and the four separator controls 0x1C-0x1F. `FloatSpaces` is what
      `float()` strips around a number: the same without the separators. */
  datatype Spaces = RegexSpaces | FloatSpaces

  predicate IsSpace(w: Spaces, c: char) {
    c == ' ' || 9 <= c as int <= 13 || (w == RegexSpaces && 28 <= c as int <= 31)
  }

  /** The value of a string of decimal digits, most significant digit first. */
  function DigitsValue(s: string): nat
    requires AllDigits(s)
  {
    if |s| == 0 then 0 else 10 * DigitsValue(s[..|s| - 1]) + DigitValue(s[|s| - 1])
  }

  function Pow10(n: nat): (p: nat)
    ensures p >= 1
  {
    if n == 0 then 1 else 10 * Pow10(n - 1)
  }

  /** The shortest decimal rendering of `n`, as Python's `str(n)` writes it. */
  function NatToDigits(n: nat): (s: string)
    ensures |s| >= 1 && AllDigits(s)
  {
    if n < 10 then [DigitChar(n)] else NatToDigits(n / 10) + [DigitChar(n % 10)]
  }

  lemma {:induction false} DigitsValueOfNatToDigits(n: nat)
    ensures DigitsValue(NatToDigits(n)) == n
  {
    if n >= 10 {
      var s := NatToDigits(n);
      assert s[..|s| - 1] == NatToDigits(n / 10);
      DigitsValueOfNatToDigits(n / 10);
    }
  }

  /** Index of the first character of `s` that belongs to `cs`. */
  function FirstIndex(s: string, cs: set<char>): (r: Option<nat>)
    ensures r.Some? ==> r.value < |s| && s[r.value] in cs
    ensures r.Some? ==> forall i :: 0 <= i < r.value ==> s[i] !in cs
    ensures r.None? ==> forall i :: 0 <= i < |s| ==> s[i] !in cs
  {
    if |s| == 0 then None
    else if s[0] in cs then Some(0)
    else match FirstIndex(s[1..], cs)
      case None => None
      case Some(i) => Some(i + 1)
  }

  /** FirstIndex finds a separator placed right after a run free of separators. */
  lemma {:induction false} FirstIndexAfterPrefix(a: string, c: char, b: string, cs: set<char>)
    requires forall i :: 0 <= i < |a| ==> a[i] !in cs
    requires c in cs
    ensures FirstIndex(a + [c] + b, cs) == Some(|a|)
    ensures (a + [c] + b)[..|a|] == a && (a + [c] + b)[|a| + 1..] == b
  {
    var s := a + [c] + b;
    assert s[|a|] == c;
    assert forall i :: 0 <= i < |a| ==> s[i] == a[i];
  }

  /** The number of `w` whitespace characters at the start of `s`. */
  function LeadingSpaces(w: Spaces, s: string): (n: nat)
    ensures n <= |s|
    ensures forall i :: 0 <= i < n ==> IsSpace(w, s[i])
    ensures n < |s| ==> !IsSpace(w, s[n])
  {
    if |s| > 0 && IsSpace(w, s[0]) then 1 + LeadingSpaces(w, s[1..]) else 0
  }

  /** `s` without its leading and trailing `w` whitespace (Python's `strip`). */
  function Strip(w: Spaces, s: string): (t: string)
    ensures |t| <= |s|
    ensures LeadingSpaces(w, s) + |t| <= |s| && t == s[LeadingSpaces(w, s)..LeadingSpaces(w, s) + |t|]
  {
    var a := LeadingSpaces(w, s);
    var rest := s[a..];
    rest[..|rest| - TrailingSpaces(w, rest)]
  }

  /** The number of `w` whitespace characters at the end of `s`. */
  function TrailingSpaces(w: Spaces, s: string): (n: nat)
    ensures n <= |s|
    ensures forall i :: |s| - n <= i < |s| ==> IsSpace(w, s[i])
    ensures n < |s| ==> !IsSpace(w, s[|s| - n - 1])
  {
    if |s| > 0 && IsSpace(w, s[|s| - 1]) then 1 + TrailingSpaces(w, s[..|s| - 1]) else 0
  }

  // The strip facts below are the ones `float()` relies on, stated for its
  // whitespace class; `\s` in the date format needs only `LeadingSpaces`.

  /** Everything the strip removes is whitespace, and what it keeps neither
      starts nor ends with whitespace. */
  lemma {:induction false} StripDropsOnlySpaces(s: string)
    ensures var a, t := LeadingSpaces(FloatSpaces, s), Strip(FloatSpaces, s);
      forall i :: 0 <= i < |s| && !(a <= i < a + |t|) ==> IsSpace(FloatSpaces, s[i])
    ensures var t := Strip(FloatSpaces, s); |t| > 0 ==> !IsSpace(FloatSpaces, t[0]) && !IsSpace(FloatSpaces, t[|t| - 1])
  {
    var a := LeadingSpaces(FloatSpaces, s);
    var rest := s[a..];
    var n := TrailingSpaces(FloatSpaces, rest);
    assert forall i :: a + |rest| - n <= i < |s| ==> s[i] == rest[i - a];
  }

  /** A string that neither starts nor ends with whitespace is its own strip. */
  lemma {:induction false} StripUnpadded(s: string)
    requires |s| > 0 && !IsSpace(FloatSpaces, s[0]) && !IsSpace(FloatSpaces, s[|s| - 1])
    ensures Strip(FloatSpaces, s) == s
  {
    assert LeadingSpaces(FloatSpaces, s) == 0;
    assert TrailingSpaces(FloatSpaces, s) == 0;
  }

  lemma {:induction false} LeadingSpacesAfterSpace(s: string, c: char)
    requires IsSpace(FloatSpaces, c)
    ensures LeadingSpaces(FloatSpaces, s + [c]) == if LeadingSpaces(FloatSpaces, s) == |s| then |s| + 1 else LeadingSpaces(FloatSpaces, s)
  {
    if |s| > 0 && IsSpace(FloatSpaces, s[0]) {
      assert (s + [c])[1..] == s[1..] + [c];
      LeadingSpacesAfterSpace(s[1..], c);
    } else if |s| == 0 {
      assert LeadingSpaces(FloatSpaces, [c]) == 1 + LeadingSpaces(FloatSpaces, []);
    }
  }

  /** A whitespace character added in front does not change the strip. */
  lemma {:induction false} StripSpaceBefore(s: string, c: char)
    requires IsSpace(FloatSpaces, c)
    ensures Strip(FloatSpaces, [c] + s) == Strip(FloatSpaces, s)
  {
    assert ([c] + s)[1..] == s;
    assert LeadingSpaces(FloatSpaces, [c] + s) == 1 + LeadingSpaces(FloatSpaces, s);
    assert ([c] + s)[LeadingSpaces(FloatSpaces, [c] + s)..] == s[LeadingSpaces(FloatSpaces, s)..];
  }

  /** A whitespace character added at the end does not change the strip. */
  lemma {:induction false} StripSpaceAfter(s: string, c: char)
    requires IsSpace(FloatSpaces, c)
    ensures Strip(FloatSpaces, s + [c]) == Strip(FloatSpaces, s)
  {
    var a := LeadingSpaces(FloatSpaces, s);
    LeadingSpacesAfterSpace(s, c);
    if a < |s| {
      var rest := s[a..];
      assert (s + [c])[a..] == rest + [c];
      TrailingSpacesAfterSpace(rest, c);
    }
  }

  /** A whitespace character added at the end is one more trailing space and
      leaves the part before the trailing run unchanged. */
  lemma {:induction false} TrailingSpacesAfterSpace(s: string, c: char)
    requires IsSpace(FloatSpaces, c)
    ensures TrailingSpaces(FloatSpaces, s + [c]) == 1 + TrailingSpaces(FloatSpaces, s)
    ensures (s + [c])[..|s + [c]| - TrailingSpaces(FloatSpaces, s + [c])] == s[..|s| - TrailingSpaces(FloatSpaces, s)]
  {
    assert (s + [c])[..|s|] == s;
  }

  /** A run of whitespace in front does not change the strip. */
  lemma {:induction false} StripPaddedBefore(p: string, s: string)
    requires forall i :: 0 <= i < |p| ==> IsSpace(FloatSpaces, p[i])
    ensures Strip(FloatSpaces, p + s) == Strip(FloatSpaces, s)
  {
    if |p| > 0 {
      assert p + s == [p[0]] + (p[1..] + s);
      StripSpaceBefore(p[1..] + s, p[0]);
      StripPaddedBefore(p[1..], s);
    } else {
      assert p + s == s;
    }
  }

  /** A run of whitespace at the end does not change the strip. */
  lemma {:induction false} StripPaddedAfter(s: string, q: string)
    requires forall i :: 0 <= i < |q| ==> IsSpace(FloatSpaces, q[i])
    ensures Strip(FloatSpaces, s + q) == Strip(FloatSpaces, s)
  {
    if |q| > 0 {
      var n := |q| - 1;
      assert s + q == (s + q[..n]) + [q[n]];
      StripSpaceAfter(s + q[..n], q[n]);
      StripPaddedAfter(s, q[..n]);
    } else {
      assert s + q == s;
    }
  }
}
