/** Python's `float()` applied to a string, over exact reals.

    Accepted: optional surrounding whitespace (tab, line feed, vertical tab,
    form feed, carriage return, space), an optional sign, a decimal
    mantissa (`12`, `12.`, `.5`, `12.5`) and an optional exponent
    (`e`/`E`, optional sign, at least one digit). Everything else raises
    `ValueError` in Python and is `None` here. */
module PyFloat {
  import opened Wrappers
  import opened Chars

  /** A character that can occur in text `float()` accepts. */
  predicate NumericChar(c: char) {
    IsDigit(c) || IsSpace(FloatSpaces, c) || c == '+' || c == '-' || c == '.' || c == 'e' || c == 'E'
  }

  /** At least one character of `s` is a decimal digit. */
  predicate HasDigit(s: string) {
    exists i :: 0 <= i < |s| && IsDigit(s[i])
  }

  /** Every character of `s` can occur in a number. */
  predicate AllNumeric(s: string) {
    forall i :: 0 <= i < |s| ==> NumericChar(s[i])
  }

  /** The value of digits read as the fraction after a decimal point. */
  function FracValue(f: string): real
    requires AllDigits(f)
  {
    DigitsValue(f) as real / Pow10(|f|) as real
  }

  function Scale(m: real, e: int): real {
    if e >= 0 then m * Pow10(e) as real else m / Pow10(-e) as real
  }

  /** The mantissa: digits with at most one decimal point and at least one digit. */
  function ParseMantissa(m: string): (r: Option<real>)
    ensures r.Some? ==> |m| > 0
    ensures r.Some? ==> forall i :: 0 <= i < |m| ==> IsDigit(m[i]) || m[i] == '.'
    ensures r.Some? ==> HasDigit(m)
    ensures r.Some? ==> r.value >= 0.0
  {
    match FirstIndex(m, {'.'})
    case None =>
      if |m| > 0 && AllDigits(m) then Some(DigitsValue(m) as real) else None
    case Some(p) =>
      var whole := m[..p];
      var frac := m[p + 1..];
      if |whole| + |frac| > 0 && AllDigits(whole) && AllDigits(frac) then
        assert IsDigit(m[if |whole| > 0 then 0 else p + 1]) by {
          if |whole| == 0 { assert m[p + 1] == frac[0]; }
        }
        assert forall i :: 0 <= i < |m| ==> IsDigit(m[i]) || m[i] == '.' by {
          forall i | 0 <= i < |m|
            ensures IsDigit(m[i]) || m[i] == '.'
          {
            if i < p { assert m[i] == whole[i]; } else if i > p { assert m[i] == frac[i - p - 1]; }
          }
        }
        Some(DigitsValue(whole) as real + FracValue(frac))
      else None
  }

  /** The exponent: an optional sign followed by at least one digit. */
  function ParseExponent(x: string): (r: Option<int>)
    ensures r.Some? ==> forall i :: 0 <= i < |x| ==> IsDigit(x[i]) || x[i] == '+' || x[i] == '-'
  {
    if |x| > 0 && (x[0] == '+' || x[0] == '-') then
      var digits := x[1..];
      if |digits| > 0 && AllDigits(digits) then
        assert forall i :: 1 <= i < |x| ==> x[i] == digits[i - 1];
        Some(if x[0] == '-' then -(DigitsValue(digits) as int) else DigitsValue(digits) as int)
      else None
    else if |x| > 0 && AllDigits(x) then Some(DigitsValue(x))
    else None
  }

  /** A number without its leading sign: mantissa, then an optional exponent. */
  function ParseUnsigned(t: string): (r: Option<real>)
    ensures r.Some? ==> AllNumeric(t) && HasDigit(t)
  {
    match FirstIndex(t, {'e', 'E'})
    case None => ParseMantissa(t)
    case Some(p) =>
      var mantissa := t[..p];
      var exponent := t[p + 1..];
      match (ParseMantissa(mantissa), ParseExponent(exponent))
      case (Some(m), Some(e)) =>
        assert AllNumeric(t) by {
          assert forall i :: 0 <= i < p ==> t[i] == mantissa[i];
          assert forall i :: p < i < |t| ==> t[i] == exponent[i - p - 1];
        }
        HasDigitInside(t, 0, mantissa);
        Some(Scale(m, e))
      case _ => None
  }

  /** A number after surrounding whitespace is stripped: an optional sign,
      then the unsigned number. */
  function ParseSigned(t: string): (r: Option<real>)
    ensures r.Some? ==> AllNumeric(t) && HasDigit(t)
  {
    if |t| > 0 && (t[0] == '+' || t[0] == '-') then
      match ParseUnsigned(t[1..])
      case None => None
      case Some(v) =>
        assert AllNumeric(t) by {
          assert forall i :: 1 <= i < |t| ==> t[i] == t[1..][i - 1];
        }
        HasDigitInside(t, 1, t[1..]);
        Some(if t[0] == '-' then -v else v)
    else ParseUnsigned(t)
  }

  /** A digit inside a slice of `s` is a digit of `s`. */
  lemma {:induction false} HasDigitInside(s: string, lo: nat, t: string)
    requires lo + |t| <= |s| && t == s[lo..lo + |t|] && HasDigit(t)
    ensures HasDigit(s)
  {
    var k :| 0 <= k < |t| && IsDigit(t[k]);
    assert s[lo + k] == t[k];
  }

  /** Whitespace around numeric text keeps it numeric. */
  lemma {:induction false} AllNumericPadded(s: string)
    requires AllNumeric(Strip(FloatSpaces, s))
    ensures AllNumeric(s)
  {
    var t := Strip(FloatSpaces, s);
    var a := LeadingSpaces(FloatSpaces, s);
    StripDropsOnlySpaces(s);
    forall i | 0 <= i < |s|
      ensures NumericChar(s[i])
    {
      if a <= i < a + |t| {
        assert s[i] == t[i - a];
      }
    }
  }

  /** Python's `float(s)` for a string `s`. */
  function ParseFloat(s: string): (r: Option<real>)
    ensures r.Some? ==> AllNumeric(s) && HasDigit(s)
  {
    var r := ParseSigned(Strip(FloatSpaces, s));
    if r.Some? then
      AllNumericPadded(s);
      HasDigitInside(s, LeadingSpaces(FloatSpaces, s), Strip(FloatSpaces, s));
      r
    else r
  }

  /** Digits with an optional fractional part parse to their decimal value. */
  lemma {:induction false} ParseMantissaOfDecimal(w: string, f: string)
    requires |w| > 0 && AllDigits(w) && AllDigits(f)
    ensures ParseMantissa(w + "." + f) == Some(DigitsValue(w) as real + FracValue(f))
  {
    var m := w + "." + f;
    FirstIndexAfterPrefix(w, '.', f, {'.'});
    ParseMantissaAtPoint(m, |w|);
  }

  /** The mantissa once its decimal point has been found at `p`. */
  lemma {:induction false} ParseMantissaAtPoint(m: string, p: nat)
    requires FirstIndex(m, {'.'}) == Some(p)
    requires p > 0 && AllDigits(m[..p]) && AllDigits(m[p + 1..])
    ensures ParseMantissa(m) == Some(DigitsValue(m[..p]) as real + FracValue(m[p + 1..]))
  {
  }

  /** A plain decimal string `w.f` with no sign, exponent or padding. */
  lemma {:induction false} ParseUnsignedOfDecimal(w: string, f: string)
    requires |w| > 0 && AllDigits(w) && AllDigits(f)
    ensures ParseUnsigned(w + "." + f) == Some(DigitsValue(w) as real + FracValue(f))
  {
    var t := w + "." + f;
    assert forall i :: 0 <= i < |t| ==> IsDigit(t[i]) || t[i] == '.' by {
      forall i | 0 <= i < |t| ensures IsDigit(t[i]) || t[i] == '.' {
        if i < |w| { assert t[i] == w[i]; } else if i > |w| { assert t[i] == f[i - |w| - 1]; }
      }
    }
    NoExponentMark(t);
    ParseMantissaOfDecimal(w, f);
  }

  /** Text made of digits and points has no exponent, so it is all mantissa. */
  lemma {:induction false} NoExponentMark(t: string)
    requires forall i :: 0 <= i < |t| ==> IsDigit(t[i]) || t[i] == '.'
    ensures ParseUnsigned(t) == ParseMantissa(t)
  {
    var x := FirstIndex(t, {'e', 'E'});
    if x.Some? {
      assert false;
    }
  }

  /** The round trip through Python's rendering of a whole number:
      `float(str(n))` is `n`. */
  lemma {:induction false} ParseFloatOfNatToDigits(n: nat)
    ensures ParseFloat(NatToDigits(n)) == Some(n as real)
  {
    var t := NatToDigits(n);
    StripUnpadded(t);
    assert FirstIndex(t, {'e', 'E'}) == None;
    assert FirstIndex(t, {'.'}) == None;
    DigitsValueOfNatToDigits(n);
  }

  /** `float(str(n) + "." + f)` is `n` plus the fraction the digits `f`
      denote. */
  lemma {:induction false} ParseFloatOfFixedPoint(n: nat, f: string)
    requires AllDigits(f)
    ensures ParseFloat(NatToDigits(n) + "." + f) == Some(n as real + FracValue(f))
  {
    var w := NatToDigits(n);
    var t := w + "." + f;
    DigitsValueOfNatToDigits(n);
    ParseUnsignedOfDecimal(w, f);
    assert t[0] == w[0];
    assert !IsSpace(FloatSpaces, t[|t| - 1]) by {
      if |f| > 0 { assert t[|t| - 1] == f[|f| - 1]; }
    }
    StripUnpadded(t);
  }

  /** The same after a leading minus sign: the value is negated. */
  lemma {:induction false} ParseFloatOfNegativeFixedPoint(n: nat, f: string)
    requires AllDigits(f)
    ensures ParseFloat("-" + (NatToDigits(n) + "." + f)) == Some(-(n as real + FracValue(f)))
  {
    var w := NatToDigits(n);
    var body := w + "." + f;
    var t := "-" + body;
    DigitsValueOfNatToDigits(n);
    ParseUnsignedOfDecimal(w, f);
    assert t[1..] == body;
    assert !IsSpace(FloatSpaces, t[|t| - 1]) by {
      if |f| > 0 { assert t[|t| - 1] == f[|f| - 1]; }
    }
    StripUnpadded(t);
  }

  /** Whitespace that `float()` strips, in any amount on either side, does
      not change what it reads. */
  lemma {:induction false} ParseFloatIgnoresPadding(p: string, s: string, q: string)
    requires forall i :: 0 <= i < |p| ==> IsSpace(FloatSpaces, p[i])
    requires forall i :: 0 <= i < |q| ==> IsSpace(FloatSpaces, q[i])
    ensures ParseFloat(p + s + q) == ParseFloat(s)
  {
    StripPaddedBefore(p, s + q);
    StripPaddedAfter(s, q);
    assert p + s + q == p + (s + q);
  }

  /** The separator controls 0x1C-0x1F are whitespace to `\s` but not to
      `float()`: a value led by one is not a number. */
  lemma {:induction false} SeparatorIsNotFloatSpace(s: string, c: char)
    requires 28 <= c as int <= 31
    ensures ParseFloat([c] + s) == None
  {
    var t := [c] + s;
    assert !NumericChar(t[0]);
  }
}
