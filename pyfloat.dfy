/** Python's `float(text)` on decimal literals, with exact results.

    The accepted grammar is that of the float constructor: optional
    surrounding whitespace, an optional sign, a digit part, an optional
    fraction and an optional exponent, where a digit part is one or more
    digits with single underscores allowed between two digits. Anything
    else is a `ValueError`, which the model returns as `Malformed`. */
module PyFloat {
  import opened Outcomes
  import opened Text
  import opened Decimal

  /** What `float(text)` yields: a finite number, or a `ValueError`. */
  datatype Number = Finite(value: real) | Malformed

  predicate IsSpace(c: char) {
    c == ' ' || '\t' <= c <= '\r'
  }

  function TrimStart(s: string): (r: string)
    ensures |r| <= |s|
    ensures r == [] || !IsSpace(r[0])
    ensures (s == [] || !IsSpace(s[0])) ==> r == s
  {
    if s != [] && IsSpace(s[0]) then TrimStart(s[1..]) else s
  }

  function TrimEnd(s: string): (r: string)
    ensures |r| <= |s|
    ensures r == [] || !IsSpace(r[|r| - 1])
    ensures (s == [] || !IsSpace(s[|s| - 1])) ==> r == s
  {
    if s != [] && IsSpace(s[|s| - 1]) then TrimEnd(s[..|s| - 1]) else s
  }

  function Strip(s: string): string {
    TrimEnd(TrimStart(s))
  }

  /** `digit (["_"] digit)*` */
  predicate IsDigitPart(s: string)
    decreases |s|
  {
    && |s| >= 1
    && IsDigit(s[0])
    && (|| |s| == 1
        || (IsDigit(s[1]) && IsDigitPart(s[1..]))
        || (|s| >= 3 && s[1] == '_' && IsDigitPart(s[2..])))
  }

  /** A digit part holds digits and underscores only, and ends in a digit. */
  lemma {:induction false} DigitPartChars(s: string)
    requires IsDigitPart(s)
    ensures forall i :: 0 <= i < |s| ==> IsDigit(s[i]) || s[i] == '_'
    ensures IsDigit(s[|s| - 1])
  {
    if |s| > 1 {
      var k := if IsDigit(s[1]) && IsDigitPart(s[1..]) then 1 else 2;
      DigitPartChars(s[k..]);
      forall i | 0 <= i < |s| ensures IsDigit(s[i]) || s[i] == '_' {
        if i >= k { assert s[i] == s[k..][i - k]; }
      }
      assert s[|s| - 1] == s[k..][|s| - 1 - k];
    }
  }

  /** A plain run of digits is a digit part. */
  lemma {:induction false} DigitsAreDigitPart(d: string)
    requires |d| >= 1 && AllDigits(d)
    ensures IsDigitPart(d)
  {
    if |d| > 1 {
      assert AllDigits(d[1..]) by {
        forall i | 0 <= i < |d| - 1 ensures IsDigit(d[1..][i]) {
          assert d[1..][i] == d[i + 1];
        }
      }
      DigitsAreDigitPart(d[1..]);
    }
  }

  /** The number a digit part denotes: its digits, underscores ignored. */
  function DigitPartValue(s: string): (n: nat)
    requires s == [] || IsDigitPart(s)
    ensures n < Pow10(|RemoveAll(s, '_')|)
  {
    var d := RemoveAll(s, '_');
    assert AllDigits(d) by {
      if s != [] { DigitPartChars(s); }
      DigitsAfterRemoval(s, '_');
    }
    NatValue(d)
  }

  /** `0.` followed by the digits of `s`, most significant first. */
  function FractionValue(s: string): (f: real)
    requires AllDigits(s)
    ensures 0.0 <= f < 1.0
  {
    if s == [] then 0.0 else (DigitValue(s[0]) as real + FractionValue(s[1..])) / 10.0
  }

  /** The value of a fraction digit part, underscores ignored. */
  function Fraction(s: string): (f: real)
    requires s == [] || IsDigitPart(s)
    ensures 0.0 <= f < 1.0
  {
    var d := RemoveAll(s, '_');
    assert AllDigits(d) by {
      if s != [] { DigitPartChars(s); }
      DigitsAfterRemoval(s, '_');
    }
    FractionValue(d)
  }

  function Scale(k: int): (r: real)
    ensures r > 0.0
  {
    if k >= 0 then Pow10(k) as real else 1.0 / Pow10(-k) as real
  }

  /** The text after `e` or `E`: an optional sign and a digit part. */
  function ReadExponent(s: string): (r: Option<int>)
    ensures r.Some? ==> |s| > 0
  {
    if |s| > 0 && (s[0] == '+' || s[0] == '-') then
      if IsDigitPart(s[1..]) then
        var k: int := DigitPartValue(s[1..]);
        Some(if s[0] == '-' then -k else k)
      else None
    else if IsDigitPart(s) then Some(DigitPartValue(s))
    else None
  }

  /** `whole[.frac]`, where at least one of `whole` and `frac` is present. */
  function ReadMantissa(s: string): Number {
    var p := FirstIn(s, {'.'});
    ReadParts(s[..p], if p < |s| then s[p + 1..] else [])
  }

  /** The digits before and after the point; either may be empty, not both. */
  function ReadParts(whole: string, frac: string): Number {
    if (whole != [] || frac != []) && (whole == [] || IsDigitPart(whole)) && (frac == [] || IsDigitPart(frac))
    then Finite(DigitPartValue(whole) as real + Fraction(frac))
    else Malformed
  }

  /** An unsigned decimal literal: a mantissa and an optional exponent. */
  function ReadUnsigned(s: string): Number {
    var e := FirstIn(s, {'e', 'E'});
    match ReadMantissa(s[..e])
    case Malformed => Malformed
    case Finite(m) =>
      if e == |s| then Finite(m)
      else match ReadExponent(s[e + 1..])
        case Some(k) => Finite(m * Scale(k))
        case None => Malformed
  }

  /** `float(t)` restricted to finite decimal literals. */
  function ReadFloat(t: string): Number {
    var s := Strip(t);
    if |s| > 0 && (s[0] == '+' || s[0] == '-') then
      match ReadUnsigned(s[1..])
      case Finite(v) => Finite(if s[0] == '-' then -v else v)
      case Malformed => Malformed
    else ReadUnsigned(s)
  }
}

module PyFloatFacts {
  import opened Outcomes
  import opened Text
  import opened Decimal
  import opened PyFloat

  lemma DigitRunValue(d: string)
    requires |d| >= 1 && AllDigits(d)
    ensures IsDigitPart(d)
    ensures DigitPartValue(d) == NatValue(d)
    ensures Fraction(d) == FractionValue(d)
  {
    DigitsAreDigitPart(d);
    assert forall i :: 0 <= i < |d| ==> d[i] != '_';
    assert RemoveAll(d, '_') == d;
  }

  /** A string of digits and points contains no exponent marker. */
  lemma NoExponent(b: string)
    requires forall i :: 0 <= i < |b| ==> IsDigit(b[i]) || b[i] == '.'
    ensures FirstIn(b, {'e', 'E'}) == |b|
  {
    FirstInFinds(b, {'e', 'E'});
  }

  lemma PartsValue(whole: string, frac: string)
    requires IsDigitPart(whole) && IsDigitPart(frac)
    ensures ReadParts(whole, frac) == Finite(DigitPartValue(whole) as real + Fraction(frac))
  {
  }

  /** `b` spells `d.f`: a run of digits, a point, a run of digits. */
  predicate FixedPointText(b: string, d: string, f: string) {
    && |d| >= 1 && AllDigits(d)
    && |f| >= 1 && AllDigits(f)
    && |b| == |d| + 1 + |f|
    && b[..|d|] == d && b[|d|] == '.' && b[|d| + 1..] == f
  }

  lemma FixedPointSplit(d: string, f: string)
    requires |d| >= 1 && AllDigits(d)
    requires |f| >= 1 && AllDigits(f)
    ensures FixedPointText(d + "." + f, d, f)
  {
    var b := d + "." + f;
    assert b[..|d|] == d && b[|d| + 1..] == f;
  }

  /** In `d.f` the point is the first one and there is no exponent. */
  lemma FixedPointScan(b: string, d: string, f: string)
    requires FixedPointText(b, d, f)
    ensures FirstIn(b, {'e', 'E'}) == |b|
    ensures FirstIn(b, {'.'}) == |d|
  {
    forall i | 0 <= i < |b| ensures IsDigit(b[i]) || b[i] == '.' {
      if i < |d| { assert b[i] == b[..|d|][i]; }
      else if i > |d| { assert b[i] == b[|d| + 1..][i - |d| - 1]; }
    }
    NoExponent(b);
    FirstInFinds(b, {'.'});
    forall i | 0 <= i < |d| ensures b[i] !in {'.'} {
      assert b[i] == b[..|d|][i];
    }
  }

  /** Without an exponent marker only the mantissa is read. */
  lemma UnsignedWithoutExponent(s: string)
    requires FirstIn(s, {'e', 'E'}) == |s|
    ensures ReadUnsigned(s) == ReadMantissa(s)
  {
    assert s[..|s|] == s;
  }

  lemma StripUnpadded(t: string)
    requires t != [] && !IsSpace(t[0]) && !IsSpace(t[|t| - 1])
    ensures Strip(t) == t
  {
  }

  /** A leading `-` negates what follows it. */
  lemma ReadFloatNegated(t: string, v: real)
    requires t != [] && t[0] == '-' && Strip(t) == t
    requires ReadUnsigned(t[1..]) == Finite(v)
    ensures ReadFloat(t) == Finite(-v)
  {
  }

  /** Without a sign the text is read as an unsigned literal. */
  lemma ReadFloatUnsigned(t: string)
    requires t != [] && t[0] != '-' && t[0] != '+' && Strip(t) == t
    ensures ReadFloat(t) == ReadUnsigned(t)
  {
  }

  lemma FixedPointMantissa(b: string, d: string, f: string)
    requires FixedPointText(b, d, f)
    ensures ReadMantissa(b) == Finite(NatValue(d) as real + FractionValue(f))
  {
    FixedPointScan(b, d, f);
    MantissaAt(b, d, f);
    DigitRunParts(d, f);
  }

  lemma DigitRunParts(d: string, f: string)
    requires |d| >= 1 && AllDigits(d)
    requires |f| >= 1 && AllDigits(f)
    ensures ReadParts(d, f) == Finite(NatValue(d) as real + FractionValue(f))
  {
    DigitRunValue(d);
    DigitRunValue(f);
    PartsValue(d, f);
  }

  /** The mantissa splits at its first point. */
  lemma MantissaAt(b: string, d: string, f: string)
    requires FirstIn(b, {'.'}) == |d| < |b|
    requires b[..|d|] == d && b[|d| + 1..] == f
    ensures ReadMantissa(b) == ReadParts(d, f)
  {
  }

  lemma UnsignedFixedPoint(b: string, d: string, f: string)
    requires FixedPointText(b, d, f)
    ensures ReadUnsigned(b) == Finite(NatValue(d) as real + FractionValue(f))
  {
    FixedPointScan(b, d, f);
    FixedPointMantissa(b, d, f);
    UnsignedWithoutExponent(b);
  }

  /** `float` reads `d.f` as the decimal number it spells. */
  lemma ReadFixedPoint(b: string, d: string, f: string)
    requires FixedPointText(b, d, f)
    ensures ReadFloat(b) == Finite(NatValue(d) as real + FractionValue(f))
  {
    assert b[0] == b[..|d|][0] && b[|b| - 1] == b[|d| + 1..][|f| - 1];
    StripUnpadded(b);
    UnsignedFixedPoint(b, d, f);
    ReadFloatUnsigned(b);
  }

  /** ... and `-d.f` as its negation. */
  lemma ReadNegativeFixedPoint(t: string, b: string, d: string, f: string)
    requires FixedPointText(b, d, f)
    requires |t| == |b| + 1 && t[0] == '-' && t[1..] == b
    ensures ReadFloat(t) == Finite(-(NatValue(d) as real + FractionValue(f)))
  {
    assert b[|b| - 1] == b[|d| + 1..][|f| - 1];
    UnsignedFixedPoint(b, d, f);
    ReadMinus(t, b, NatValue(d) as real + FractionValue(f));
  }

  lemma ReadMinus(t: string, b: string, v: real)
    requires b != [] && !IsSpace(b[|b| - 1])
    requires |t| == |b| + 1 && t[0] == '-' && t[1..] == b
    requires ReadUnsigned(b) == Finite(v)
    ensures ReadFloat(t) == Finite(-v)
  {
    assert t[|t| - 1] == b[|b| - 1];
    StripUnpadded(t);
    ReadFloatNegated(t, v);
  }

  /** Stripping removes only leading and trailing whitespace. */
  lemma {:induction false} TrimStartDropsSpaces(s: string)
    ensures |TrimStart(s)| <= |s|
    ensures TrimStart(s) == s[|s| - |TrimStart(s)|..]
    ensures forall i :: 0 <= i < |s| - |TrimStart(s)| ==> IsSpace(s[i])
  {
    if s != [] && IsSpace(s[0]) {
      TrimStartDropsSpaces(s[1..]);
      assert forall i :: 1 <= i < |s| ==> s[1..][i - 1] == s[i];
    }
  }

  lemma {:induction false} TrimEndDropsSpaces(s: string)
    ensures |TrimEnd(s)| <= |s|
    ensures TrimEnd(s) == s[..|TrimEnd(s)|]
    ensures forall i :: |TrimEnd(s)| <= i < |s| ==> IsSpace(s[i])
  {
    if s != [] && IsSpace(s[|s| - 1]) {
      TrimEndDropsSpaces(s[..|s| - 1]);
    }
  }

  /** A digit part holds no decimal point. */
  lemma PointNotInDigitPart(x: string, i: nat)
    requires i < |x| && x[i] == '.'
    ensures !IsDigitPart(x)
  {
    if IsDigitPart(x) {
      DigitPartChars(x);
      assert false;
    }
  }

  lemma PointNotInExponent(x: string, i: nat)
    requires i < |x| && x[i] == '.'
    ensures ReadExponent(x).None?
  {
    PointNotInDigitPart(x, i);
    if i > 0 {
      PointNotInDigitPart(x[1..], i - 1);
    }
  }

  lemma PointsInMantissa(m: string, i: nat, j: nat)
    requires i < j < |m| && m[i] == '.' && m[j] == '.'
    ensures ReadMantissa(m) == Malformed
  {
    var p := FirstIn(m, {'.'});
    FirstInFinds(m, {'.'});
    assert p <= i;
    PointNotInDigitPart(m[p + 1..], j - p - 1);
  }

  /** A decimal literal has at most one point. */
  lemma TwoPointsUnsigned(s: string, i: nat, j: nat)
    requires i < j < |s| && s[i] == '.' && s[j] == '.'
    ensures ReadUnsigned(s) == Malformed
  {
    var e := FirstIn(s, {'e', 'E'});
    FirstInFinds(s, {'e', 'E'});
    if e < j {
      PointNotInExponent(s[e + 1..], j - e - 1);
      ExponentRejects(s);
    } else {
      assert e != j;
      PointsInMantissa(s[..e], i, j);
      MantissaRejects(s);
    }
  }

  /** An unsigned literal is rejected when its mantissa is ... */
  lemma MantissaRejects(s: string)
    requires ReadMantissa(s[..FirstIn(s, {'e', 'E'})]) == Malformed
    ensures ReadUnsigned(s) == Malformed
  {
  }

  /** ... and when its exponent is. */
  lemma ExponentRejects(s: string)
    requires FirstIn(s, {'e', 'E'}) < |s|
    requires ReadExponent(s[FirstIn(s, {'e', 'E'}) + 1..]).None?
    ensures ReadUnsigned(s) == Malformed
  {
  }

  /** `float` rejects text whose stripped, unsigned part is rejected. */
  lemma FloatRejects(t: string)
    ensures var s := Strip(t);
      if |s| > 0 && (s[0] == '+' || s[0] == '-')
      then ReadUnsigned(s[1..]) == Malformed ==> ReadFloat(t) == Malformed
      else ReadUnsigned(s) == Malformed ==> ReadFloat(t) == Malformed
  {
  }

  lemma TwoPoints(t: string, i: nat, j: nat)
    requires i < j < |t| && t[i] == '.' && t[j] == '.'
    ensures ReadFloat(t) == Malformed
  {
    var s := Strip(t);
    var i', j' := StripKeepsPoints(t, i, j);
    if |s| > 0 && (s[0] == '+' || s[0] == '-') {
      TwoPointsUnsigned(s[1..], i' - 1, j' - 1);
    } else {
      TwoPointsUnsigned(s, i', j');
    }
    FloatRejects(t);
  }

  /** Stripping keeps two points, shifted by the leading spaces. */
  lemma StripKeepsPoints(t: string, i: nat, j: nat) returns (i': nat, j': nat)
    requires i < j < |t| && t[i] == '.' && t[j] == '.'
    ensures i' < j' < |Strip(t)| && Strip(t)[i'] == '.' && Strip(t)[j'] == '.'
  {
    i', j' := TrimStartKeepsPoints(t, i, j);
    TrimEndKeepsPoints(TrimStart(t), i', j');
  }

  lemma TrimStartKeepsPoints(t: string, i: nat, j: nat) returns (i': nat, j': nat)
    requires i < j < |t| && t[i] == '.' && t[j] == '.'
    ensures i' < j' < |TrimStart(t)| && TrimStart(t)[i'] == '.' && TrimStart(t)[j'] == '.'
  {
    var k := LeadingSpaces(t);
    assert !IsSpace(t[i]);
    i', j' := i - k, j - k;
    assert t[k..][i'] == t[i] && t[k..][j'] == t[j];
  }

  /** `TrimStart` drops a run of leading spaces and keeps the rest. */
  lemma LeadingSpaces(t: string) returns (k: nat)
    ensures k <= |t| && TrimStart(t) == t[k..]
    ensures forall i :: 0 <= i < k ==> IsSpace(t[i])
  {
    TrimStartDropsSpaces(t);
    k := |t| - |TrimStart(t)|;
  }

  lemma TrimEndKeepsPoints(a: string, i: nat, j: nat)
    requires i < j < |a| && a[i] == '.' && a[j] == '.'
    ensures j < |TrimEnd(a)| && TrimEnd(a)[i] == '.' && TrimEnd(a)[j] == '.'
  {
    TrimEndDropsSpaces(a);
    assert !IsSpace(a[j]);
    assert TrimEnd(a)[i] == a[i] && TrimEnd(a)[j] == a[j];
  }

  predicate NoDigit(s: string) {
    forall i :: 0 <= i < |s| ==> !IsDigit(s[i])
  }

  lemma NoDigitMantissa(m: string)
    requires NoDigit(m)
    ensures ReadMantissa(m) == Malformed
  {
    var p := FirstIn(m, {'.'});
    var whole := m[..p];
    var frac := if p < |m| then m[p + 1..] else [];
    assert whole != [] ==> whole[0] == m[0];
    assert frac != [] ==> frac[0] == m[p + 1];
  }

  /** Without a digit there is no decimal literal. */
  lemma NoDigitUnsigned(u: string)
    requires NoDigit(u)
    ensures ReadUnsigned(u) == Malformed
  {
    var e := FirstIn(u, {'e', 'E'});
    assert forall i :: 0 <= i < e ==> u[..e][i] == u[i];
    NoDigitMantissa(u[..e]);
  }

  lemma NoDigitStripped(t: string)
    requires NoDigit(t)
    ensures NoDigit(Strip(t))
  {
    var a := TrimStart(t);
    TrimStartDropsSpaces(t);
    TrimEndDropsSpaces(a);
    var s, k := TrimEnd(a), |t| - |a|;
    forall i | 0 <= i < |s| ensures !IsDigit(s[i]) {
      assert s[i] == a[i] == t[k + i];
    }
  }

  /** Text without a digit raises `ValueError`. The letters of `inf`
      and `nan` are kept out, as Python's `float` reads those words. */
  lemma NoDigitRejected(t: string)
    requires NoDigit(t)
    requires forall i :: 0 <= i < |t| ==> t[i] !in {'i', 'I', 'n', 'N'}
    ensures ReadFloat(t) == Malformed
  {
    var s := Strip(t);
    NoDigitStripped(t);
    if |s| > 0 && (s[0] == '+' || s[0] == '-') {
      assert forall i :: 0 <= i < |s| - 1 ==> s[1..][i] == s[i + 1];
      NoDigitUnsigned(s[1..]);
    } else {
      NoDigitUnsigned(s);
    }
  }
}
