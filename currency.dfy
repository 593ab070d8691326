/** The application's Brazilian-style money text: `.` between groups of
    thousands, `,` before the two cents digits (`1.234,50`).

    `format_currency` renders with Python's `,.2f` and then swaps the two
    separators through a placeholder `v`; `parse_currency` deletes every `.`,
    turns `,` into `.` and hands the text to `float`. */
module Currency {
  import opened Outcomes
  import opened Text
  import opened Decimal
  import opened PyFormat
  import opened PyFloat
  import opened PyFloatFacts

  /** The three chained `replace` calls of `format_currency`. */
  function SwapChain(s: string): string {
    ReplaceAll(ReplaceAll(ReplaceAll(s, ',', 'v'), '.', ','), 'v', '.')
  }

  /** `format_currency(value)` */
  function FormatCurrency(x: real): string {
    SwapChain(FormatFixed2(x))
  }

  /** The text `parse_currency` hands to `float`. */
  function Normalize(s: string): string {
    ReplaceAll(RemoveAll(s, '.'), ',', '.')
  }

  /** `parse_currency(value)`: the amount, or `Malformed` where `float`
      raises `ValueError`. */
  function ParseCurrency(s: string): Number {
    ReadFloat(Normalize(s))
  }

  /** What one character becomes under the swap. */
  function Swap(c: char): char {
    if c == ',' then '.' else if c == '.' then ',' else c
  }

  function SignOf(x: real): string {
    if x < 0.0 then "-" else ""
  }

  /** The amount `format_currency` displays: `x` rounded to whole cents. */
  function RoundedToCents(x: real): real {
    var c := Cents(x) as real / 100.0;
    if x < 0.0 then -c else c
  }

  /** Amounts with at most two decimal places. */
  predicate WholeCents(x: real) {
    (x * 100.0).Floor as real == x * 100.0
  }

  /** On text without the placeholder, the chain swaps `,` and `.` and
      leaves every other character where it was. */
  lemma SwapChainSwaps(s: string)
    requires 'v' !in s
    ensures |SwapChain(s)| == |s|
    ensures forall i :: 0 <= i < |s| ==> SwapChain(s)[i] == Swap(s[i])
  {
    var s1 := ReplaceAll(s, ',', 'v');
    var s2 := ReplaceAll(s1, '.', ',');
    ReplaceAllPointwise(s, ',', 'v');
    ReplaceAllPointwise(s1, '.', ',');
    ReplaceAllPointwise(s2, 'v', '.');
    forall i | 0 <= i < |s| ensures SwapChain(s)[i] == Swap(s[i]) {
      assert s[i] != 'v';
    }
  }

  /** The placeholder never occurs in `,.2f` output, so `format_currency`
      swaps the separators and touches nothing else. */
  lemma FormatSwapsSeparators(x: real)
    ensures |FormatCurrency(x)| == |FormatFixed2(x)|
    ensures forall i :: 0 <= i < |FormatCurrency(x)| ==> FormatCurrency(x)[i] == Swap(FormatFixed2(x)[i])
  {
    var s := FormatFixed2(x);
    assert 'v' !in s by {
      forall i | 0 <= i < |s| ensures s[i] != 'v' {
        assert FixedChar(s[i]);
      }
    }
    SwapChainSwaps(s);
  }

  lemma {:induction false} SwapChainConcat(a: string, b: string)
    ensures SwapChain(a + b) == SwapChain(a) + SwapChain(b)
  {
    ReplaceAllConcat(a, b, ',', 'v');
    ReplaceAllConcat(ReplaceAll(a, ',', 'v'), ReplaceAll(b, ',', 'v'), '.', ',');
    ReplaceAllConcat(ReplaceAll(ReplaceAll(a, ',', 'v'), '.', ','), ReplaceAll(ReplaceAll(b, ',', 'v'), '.', ','), 'v', '.');
  }

  /** Text with none of `,`, `.` and `v` passes through the chain unchanged. */
  lemma SwapChainFixes(s: string)
    requires ',' !in s && '.' !in s && 'v' !in s
    ensures SwapChain(s) == s
  {
    ReplaceAllAbsent(s, ',', 'v');
    ReplaceAllAbsent(s, '.', ',');
    ReplaceAllAbsent(s, 'v', '.');
  }

  lemma DigitsFree(s: string, c: char)
    requires AllDigits(s) && !IsDigit(c)
    ensures c !in s
  {
    assert forall i :: 0 <= i < |s| ==> s[i] != c;
  }

  /** The thousands groups come out separated by `.`. */
  lemma SwapChainGrouped(n: nat)
    ensures SwapChain(Grouped(n, ',')) == Grouped(n, '.')
  {
    GroupedRelabel(n, ',', 'v');
    var g := Grouped(n, 'v');
    assert '.' !in g by {
      forall i | 0 <= i < |g| ensures g[i] != '.' {
        assert IsDigit(g[i]) || g[i] == 'v';
      }
    }
    ReplaceAllAbsent(g, '.', ',');
    GroupedRelabel(n, 'v', '.');
  }

  /** The chain applied to `sign whole . cents`. */
  lemma SwapChainLayout(sign: string, g: string, h: string, f: string)
    requires sign == "" || sign == "-"
    requires SwapChain(g) == h
    requires AllDigits(f)
    ensures SwapChain(sign + g + "." + f) == sign + h + "," + f
  {
    SwapChainConcat(sign + g + ".", f);
    SwapChainConcat(sign + g, ".");
    SwapChainConcat(sign, g);
    SwapChainFixes(sign);
    DigitsFree(f, ',');
    DigitsFree(f, '.');
    DigitsFree(f, 'v');
    SwapChainFixes(f);
    assert SwapChain(".") == ",";
  }

  /** The layout of `format_currency(x)`: the sign, the whole part grouped by
      `.`, a `,` and exactly two cents digits. */
  lemma FormatLayout(x: real)
    ensures FormatCurrency(x) == SignOf(x) + Grouped(Cents(x) / 100, '.') + "," + Padded(Cents(x) % 100, 2)
  {
    var n := Cents(x);
    var g, f := Grouped(n / 100, ','), Padded(n % 100, 2);
    assert FormatFixed2(x) == SignOf(x) + g + "." + f;
    SwapChainGrouped(n / 100);
    SwapChainLayout(SignOf(x), g, Grouped(n / 100, '.'), f);
  }

  lemma ShapeOfLayout(sign: string, g: string, f: string)
    requires sign == "" || sign == "-"
    requires ThousandsGrouped(g, '.')
    requires |f| == 2 && AllDigits(f)
    ensures var s, k := sign + g + "," + f, |sign|;
      && |s| >= k + 4
      && (sign == "-" <==> s[0] == '-')
      && ThousandsGrouped(s[k..|s| - 3], '.')
      && s[|s| - 3] == ','
      && AllDigits(s[|s| - 2..])
  {
    ThousandsGroupedHead(g, '.');
    var s := sign + g + "," + f;
    assert s[|sign|..|s| - 3] == g;
    assert s[|s| - 2..] == f;
    assert s[0] == (if sign == "-" then '-' else g[0]);
  }

  /** What a reader sees: `-` exactly for negative amounts, then groups of
      three digits split by `.`, then `,` and two digits. */
  lemma FormatShape(x: real)
    ensures var s, k := FormatCurrency(x), |SignOf(x)|;
      && |s| >= k + 4
      && (x < 0.0 <==> s[0] == '-')
      && ThousandsGrouped(s[k..|s| - 3], '.')
      && s[|s| - 3] == ','
      && AllDigits(s[|s| - 2..])
  {
    FormatLayout(x);
    var n := Cents(x);
    ShapeOfLayout(SignOf(x), Grouped(n / 100, '.'), Padded(n % 100, 2));
  }

  /** Deleting the grouping points first means they never matter. */
  lemma ParseIgnoresDots(s: string)
    ensures ParseCurrency(RemoveAll(s, '.')) == ParseCurrency(s)
  {
    RemoveAllIdempotent(s, '.');
  }

  /** A grouping point anywhere is as good as none. */
  lemma ParseIgnoresGrouping(a: string, b: string)
    ensures ParseCurrency(a + "." + b) == ParseCurrency(a + b)
  {
    RemoveAllConcat(a + ".", b, '.');
    RemoveAllConcat(a, ".", '.');
    RemoveAllConcat(a, b, '.');
    assert RemoveAll(".", '.') == [];
    assert RemoveAll(a, '.') + [] == RemoveAll(a, '.');
  }

  /** Two cents digits read as a fraction give hundredths. */
  lemma PaddedCents(r: nat)
    requires r < 100
    ensures FractionValue(Padded(r, 2)) == r as real / 100.0
  {
    var p := Padded(r, 2);
    assert p == Padded(r / 10, 1) + [DigitChar(r % 10)];
    assert p[0] == DigitChar(r / 10);
    assert p[1..] == [DigitChar(r % 10)];
    assert FractionValue(p[1..]) == (r % 10) as real / 10.0;
    assert r as real == (r / 10) as real * 10.0 + (r % 10) as real;
  }

  lemma RemoveDotsLayout(sign: string, g: string, f: string)
    requires sign == "" || sign == "-"
    requires AllDigits(f)
    ensures RemoveAll(sign + g + "," + f, '.') == sign + RemoveAll(g, '.') + "," + f
  {
    RemoveAllConcat(sign + g + ",", f, '.');
    RemoveAllConcat(sign + g, ",", '.');
    RemoveAllConcat(sign, g, '.');
    DigitsFree(f, '.');
    assert RemoveAll(sign, '.') == sign;
    assert RemoveAll(",", '.') == ",";
  }

  lemma CommaToPointLayout(sign: string, d: string, f: string)
    requires sign == "" || sign == "-"
    requires AllDigits(d) && AllDigits(f)
    ensures ReplaceAll(sign + d + "," + f, ',', '.') == sign + (d + "." + f)
  {
    Regroup(sign, d, ".", f);
    ReplaceAllConcat(sign + d + ",", f, ',', '.');
    ReplaceAllConcat(sign + d, ",", ',', '.');
    ReplaceAllConcat(sign, d, ',', '.');
    DigitsFree(d, ',');
    DigitsFree(f, ',');
    ReplaceAllAbsent(sign, ',', '.');
    ReplaceAllAbsent(d, ',', '.');
    ReplaceAllAbsent(f, ',', '.');
  }

  /** What `parse_currency` hands to `float` for `sign whole , cents`. */
  lemma NormalizeLayout(sign: string, g: string, f: string)
    requires sign == "" || sign == "-"
    requires forall i :: 0 <= i < |g| ==> IsDigit(g[i]) || g[i] == '.'
    requires AllDigits(f)
    ensures AllDigits(RemoveAll(g, '.'))
    ensures Normalize(sign + g + "," + f) == sign + (RemoveAll(g, '.') + "." + f)
  {
    DigitsAfterRemoval(g, '.');
    RemoveDotsLayout(sign, g, f);
    CommaToPointLayout(sign, RemoveAll(g, '.'), f);
  }

  /** `sign d . f` is read as the signed decimal it spells. */
  lemma ParseSignedFixedPoint(sign: string, d: string, f: string)
    requires sign == "" || sign == "-"
    requires |d| >= 1 && AllDigits(d)
    requires |f| >= 1 && AllDigits(f)
    ensures var m := NatValue(d) as real + FractionValue(f);
      ReadFloat(sign + (d + "." + f)) == Finite(if sign == "-" then -m else m)
  {
    var b := d + "." + f;
    FixedPointSplit(d, f);
    if sign == "-" {
      var t := sign + b;
      assert t[1..] == b;
      ReadNegativeFixedPoint(t, b, d, f);
    } else {
      assert sign + b == b;
      ReadFixedPoint(b, d, f);
    }
  }

  /** Whole part and cents put back together. */
  lemma CentsValue(d: string, n: nat)
    requires AllDigits(d) && NatValue(d) == n / 100
    ensures NatValue(d) as real + FractionValue(Padded(n % 100, 2)) == n as real / 100.0
  {
    PaddedCents(n % 100);
    CentsSplit(n);
  }

  lemma CentsSplit(n: nat)
    ensures (n / 100) as real + (n % 100) as real / 100.0 == n as real / 100.0
  {
    var q, r := n / 100, n % 100;
    assert n == q * 100 + r;
    assert n as real == q as real * 100.0 + r as real;
  }

  /** Text that normalises to `sign d . f` is read as that decimal. */
  lemma ParseNormalizedFixedPoint(s: string, sign: string, d: string, f: string)
    requires sign == "" || sign == "-"
    requires |d| >= 1 && AllDigits(d)
    requires |f| >= 1 && AllDigits(f)
    requires Normalize(s) == sign + (d + "." + f)
    ensures var m := NatValue(d) as real + FractionValue(f);
      ParseCurrency(s) == Finite(if sign == "-" then -m else m)
  {
    ParseSignedFixedPoint(sign, d, f);
  }

  /** `parse_currency` undoes `format_currency` up to the rounding to cents. */
  lemma FormatThenParse(x: real)
    ensures ParseCurrency(FormatCurrency(x)) == Finite(RoundedToCents(x))
  {
    var n := Cents(x);
    var sign, g, f := SignOf(x), Grouped(n / 100, '.'), Padded(n % 100, 2);
    var d := RemoveAll(g, '.');
    FormatNormalized(x);
    CentsValue(d, n);
    ParseRounded(FormatCurrency(x), x, d, f);
  }

  lemma ParseRounded(s: string, x: real, d: string, f: string)
    requires |d| >= 1 && AllDigits(d)
    requires |f| >= 1 && AllDigits(f)
    requires NatValue(d) as real + FractionValue(f) == Cents(x) as real / 100.0
    requires Normalize(s) == SignOf(x) + (d + "." + f)
    ensures ParseCurrency(s) == Finite(RoundedToCents(x))
  {
    ParseNormalizedFixedPoint(s, SignOf(x), d, f);
  }

  /** What `parse_currency` hands to `float` for formatted text. */
  lemma FormatNormalized(x: real)
    ensures var n := Cents(x);
      var d := RemoveAll(Grouped(n / 100, '.'), '.');
      && d != [] && AllDigits(d) && NatValue(d) == n / 100
      && Normalize(FormatCurrency(x)) == SignOf(x) + (d + "." + Padded(n % 100, 2))
  {
    FormatLayout(x);
    var n := Cents(x);
    NormalizeLayout(SignOf(x), Grouped(n / 100, '.'), Padded(n % 100, 2));
  }

  /** Rounding to cents keeps an amount that has at most two decimals. */
  lemma RoundedWholeCents(x: real)
    requires WholeCents(x)
    ensures RoundedToCents(x) == x
  {
    var k := (x * 100.0).Floor;
    var y := (if x < 0.0 then -x else x) * 100.0;
    assert y == (if x < 0.0 then -k else k) as real;
    assert Cents(x) == (if x < 0.0 then -k else k);
  }

  /** The round trip the update form relies on: an amount with at most two
      decimal places survives prefill and re-parse exactly. */
  lemma RoundTrip(x: real)
    requires WholeCents(x)
    ensures ParseCurrency(FormatCurrency(x)) == Finite(x)
  {
    FormatThenParse(x);
    RoundedWholeCents(x);
  }

  /** Every whole number of cents is such an amount. */
  lemma CentsAreWholeCents(c: int)
    ensures WholeCents(c as real / 100.0)
  {
    assert (c as real / 100.0) * 100.0 == c as real;
  }

  lemma {:induction false} NormalizeConcat(a: string, b: string)
    ensures Normalize(a + b) == Normalize(a) + Normalize(b)
  {
    RemoveAllConcat(a, b, '.');
    ReplaceAllConcat(RemoveAll(a, '.'), RemoveAll(b, '.'), ',', '.');
  }

  /** A second decimal comma makes the text malformed, wherever the two
      commas stand. */
  lemma TwoCommasRejected(a: string, b: string, c: string)
    ensures ParseCurrency(a + "," + b + "," + c) == Malformed
  {
    NormalizeConcat(a + "," + b + ",", c);
    NormalizeConcat(a + "," + b, ",");
    NormalizeConcat(a + ",", b);
    NormalizeConcat(a, ",");
    assert Normalize(",") == ".";
    var na, nb, nc := Normalize(a), Normalize(b), Normalize(c);
    var t := na + "." + nb + "." + nc;
    assert Normalize(a + "," + b + "," + c) == t;
    assert t[|na|] == '.' && t[|na| + |nb| + 1] == '.';
    TwoPoints(t, |na|, |na| + |nb| + 1);
  }

  lemma Regroup(a: string, b: string, c: string, d: string)
    ensures a + b + c + d == a + (b + c + d)
  {
  }

  /** Text without a single digit is refused. The letters `i` and `n` are
      kept out because Python's `float` also reads `inf` and `nan`. */
  lemma NoDigitsRejected(s: string)
    requires NoDigit(s)
    requires forall i :: 0 <= i < |s| ==> s[i] !in {'i', 'I', 'n', 'N'}
    ensures ParseCurrency(s) == Malformed
  {
    var r := RemoveAll(s, '.');
    RemoveAllKeeps(s, '.');
    ReplaceAllPointwise(r, ',', '.');
    var n := Normalize(s);
    forall i | 0 <= i < |n| ensures !IsDigit(n[i]) && n[i] !in {'i', 'I', 'n', 'N'} {
      assert r[i] in r;
    }
    NoDigitRejected(n);
  }

  lemma LettersRejected()
    ensures ParseCurrency("abc") == Malformed
  {
    NoDigitsRejected("abc");
  }

  lemma EmptyRejected()
    ensures ParseCurrency("") == Malformed
  {
    NoDigitsRejected("");
  }
}
