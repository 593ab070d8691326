/** Python's `f"{value:,.2f}"`: an amount rounded to two fraction digits,
    `,` between groups of three integer digits, `.` before the fraction. */
module PyFormat {
  import opened Text
  import opened Decimal

  /** Nearest integer to `y`, ties to the even neighbour (the rounding
      Python's fixed-point formatting applies to the exact value). */
  function RoundHalfEven(y: real): (n: int)
    ensures y - 0.5 <= n as real <= y + 0.5
    ensures (n as real == y - 0.5 || n as real == y + 0.5) ==> n % 2 == 0
    ensures y == y.Floor as real ==> n == y.Floor
    ensures y >= 0.0 ==> n >= 0
  {
    var f := y.Floor;
    var d := y - f as real;
    if d < 0.5 then f
    else if d > 0.5 then f + 1
    else if f % 2 == 0 then f
    else f + 1
  }

  /** |x| in hundredths, rounded as `.2f` rounds it. */
  function Cents(x: real): (n: nat)
    ensures (if x < 0.0 then -x else x) * 100.0 - 0.5 <= n as real
    ensures n as real <= (if x < 0.0 then -x else x) * 100.0 + 0.5
  {
    RoundHalfEven((if x < 0.0 then -x else x) * 100.0)
  }

  /** The digits of `g`, split into groups of three from the right by `sep`;
      the leftmost group has one to three digits. */
  predicate ThousandsGrouped(g: string, sep: char)
    decreases |g|
  {
    if |g| <= 3 then 1 <= |g| && AllDigits(g)
    else
      && |g| >= 5
      && g[|g| - 4] == sep
      && AllDigits(g[|g| - 3..])
      && ThousandsGrouped(g[..|g| - 4], sep)
  }

  /** A grouped numeral starts with a digit. */
  lemma {:induction false} ThousandsGroupedHead(g: string, sep: char)
    requires ThousandsGrouped(g, sep)
    ensures |g| >= 1 && IsDigit(g[0])
  {
    if |g| > 3 {
      ThousandsGroupedHead(g[..|g| - 4], sep);
    }
  }

  /** The integer part of `,`-style formatting with separator `sep`. */
  function Grouped(n: nat, sep: char): (s: string)
    requires !IsDigit(sep)
    ensures forall i :: 0 <= i < |s| ==> IsDigit(s[i]) || s[i] == sep
    ensures ThousandsGrouped(s, sep)
    ensures RemoveAll(s, sep) != [] && AllDigits(RemoveAll(s, sep)) && NatValue(RemoveAll(s, sep)) == n
  {
    if n < 1000 then
      var s := Digits(n);
      assert |s| <= 3 by {
        if |s| > 3 {
          Pow10Monotone(3, |s| - 1);
        }
      }
      RemoveAllAbsentDigits(s, sep);
      s
    else
      var g, p := Grouped(n / 1000, sep), Padded(n % 1000, 3);
      GroupStep(n, g, p, sep);
      g + [sep] + p
  }

  /** One more group of three: the step case of `Grouped`. */
  lemma GroupStep(n: nat, g: string, p: string, sep: char)
    requires !IsDigit(sep) && n >= 1000
    requires forall i :: 0 <= i < |g| ==> IsDigit(g[i]) || g[i] == sep
    requires ThousandsGrouped(g, sep)
    requires RemoveAll(g, sep) != [] && AllDigits(RemoveAll(g, sep)) && NatValue(RemoveAll(g, sep)) == n / 1000
    requires |p| == 3 && AllDigits(p) && NatValue(p) == n % 1000
    ensures var s := g + [sep] + p;
      && (forall i :: 0 <= i < |s| ==> IsDigit(s[i]) || s[i] == sep)
      && ThousandsGrouped(s, sep)
      && RemoveAll(s, sep) != [] && AllDigits(RemoveAll(s, sep)) && NatValue(RemoveAll(s, sep)) == n
  {
    GroupChars(g, p, sep);
    GroupShape(g, p, sep);
    var d := RemoveAll(g, sep);
    GroupDigits(g, p, sep);
    NatValueConcat(d, p);
    GroupValue(n, NatValue(d), NatValue(p), Pow10(|p|));
  }

  lemma GroupChars(g: string, p: string, sep: char)
    requires forall i :: 0 <= i < |g| ==> IsDigit(g[i]) || g[i] == sep
    requires AllDigits(p)
    ensures var s := g + [sep] + p;
      forall i :: 0 <= i < |s| ==> IsDigit(s[i]) || s[i] == sep
  {
    var s := g + [sep] + p;
    forall i | 0 <= i < |s| ensures IsDigit(s[i]) || s[i] == sep {
      if i < |g| { assert s[i] == g[i]; }
      else if i > |g| { assert s[i] == p[i - |g| - 1]; }
    }
  }

  lemma GroupShape(g: string, p: string, sep: char)
    requires ThousandsGrouped(g, sep)
    requires |p| == 3 && AllDigits(p)
    ensures ThousandsGrouped(g + [sep] + p, sep)
  {
    ThousandsGroupedHead(g, sep);
    var s := g + [sep] + p;
    assert s[..|s| - 4] == g && s[|s| - 3..] == p && s[|s| - 4] == sep;
  }

  lemma GroupDigits(g: string, p: string, sep: char)
    requires AllDigits(p) && !IsDigit(sep)
    ensures RemoveAll(g + [sep] + p, sep) == RemoveAll(g, sep) + p
  {
    var d := RemoveAll(g, sep);
    RemoveAllConcat(g + [sep], p, sep);
    RemoveAllConcat(g, [sep], sep);
    RemoveAllAbsentDigits(p, sep);
    assert RemoveAll([sep], sep) == [];
    assert d + [] == d;
  }

  lemma GroupValue(n: nat, q: nat, r: nat, w: nat)
    requires w == 1000 && q == n / 1000 && r == n % 1000
    ensures q * w + r == n
  {
  }

  /** The separator is a parameter of the layout only: relabelling it in
      the output gives the output for the other separator. */
  lemma {:induction false} GroupedRelabel(n: nat, a: char, b: char)
    requires !IsDigit(a) && !IsDigit(b)
    ensures ReplaceAll(Grouped(n, a), a, b) == Grouped(n, b)
  {
    if n < 1000 {
      RemoveAllAbsentDigits(Digits(n), a);
      ReplaceAllAbsent(Digits(n), a, b);
    } else {
      GroupedRelabel(n / 1000, a, b);
      RelabelStep(Grouped(n / 1000, a), Grouped(n / 1000, b), Padded(n % 1000, 3), a, b);
    }
  }

  lemma RelabelStep(ga: string, gb: string, p: string, a: char, b: char)
    requires ReplaceAll(ga, a, b) == gb
    requires AllDigits(p) && !IsDigit(a)
    ensures ReplaceAll(ga + [a] + p, a, b) == gb + [b] + p
  {
    ReplaceAllConcat(ga + [a], p, a, b);
    ReplaceAllConcat(ga, [a], a, b);
    RemoveAllAbsentDigits(p, a);
    ReplaceAllAbsent(p, a, b);
  }

  lemma RemoveAllAbsentDigits(s: string, sep: char)
    requires AllDigits(s) && !IsDigit(sep)
    ensures RemoveAll(s, sep) == s
  {
    assert forall i :: 0 <= i < |s| ==> s[i] != sep;
  }

  /** What `.2f` output is made of. */
  predicate FixedChar(c: char) {
    IsDigit(c) || c == ',' || c == '.' || c == '-'
  }

  /** `f"{x:,.2f}"` */
  function FormatFixed2(x: real): (s: string)
    ensures forall i :: 0 <= i < |s| ==> FixedChar(s[i])
  {
    var n := Cents(x);
    var sign, g, f := if x < 0.0 then "-" else "", Grouped(n / 100, ','), Padded(n % 100, 2);
    assert forall i :: 0 <= i < |f| ==> FixedChar(f[i]);
    AllFixedConcat(sign, g);
    AllFixedConcat(sign + g, ".");
    AllFixedConcat(sign + g + ".", f);
    sign + g + "." + f
  }

  lemma AllFixedConcat(a: string, b: string)
    requires forall i :: 0 <= i < |a| ==> FixedChar(a[i])
    requires forall i :: 0 <= i < |b| ==> FixedChar(b[i])
    ensures forall i :: 0 <= i < |a + b| ==> FixedChar((a + b)[i])
  {
    forall i | 0 <= i < |a + b| ensures FixedChar((a + b)[i]) {
      if i >= |a| { assert (a + b)[i] == b[i - |a|]; }
    }
  }
}
