/** Character-level string operations: Python's `str.replace` with
    one-character arguments, and a first-occurrence search. */
module Text {

  predicate IsDigit(c: char) {
    '0' <= c <= '9'
  }

  /** `s.replace(pat, rep)` for one-character `pat` and `rep`: every
      occurrence of `pat` becomes `rep`, everything else is kept in place. */
  function ReplaceAll(s: string, pat: char, rep: char): (r: string)
    ensures |r| == |s|
  {
    if s == [] then [] else [if s[0] == pat then rep else s[0]] + ReplaceAll(s[1..], pat, rep)
  }

  /** `s.replace(c, "")`: every occurrence of `c` is deleted and every other
      character is kept (in order, see `RemoveAllConcat`). */
  function RemoveAll(s: string, c: char): (r: string)
    ensures c !in s ==> r == s
    ensures |r| <= |s|
  {
    if s == [] then [] else (if s[0] == c then [] else [s[0]]) + RemoveAll(s[1..], c)
  }

  /** Index of the first character of `s` that lies in `cs`, or `|s|` when
      there is none. */
  function FirstIn(s: string, cs: set<char>): (k: nat)
    ensures k <= |s|
  {
    if s == [] then 0
    else if s[0] in cs then 0
    else 1 + FirstIn(s[1..], cs)
  }

  /** `FirstIn` finds the first position holding a character of `cs`. */
  lemma {:induction false} FirstInFinds(s: string, cs: set<char>)
    ensures forall i :: 0 <= i < FirstIn(s, cs) ==> s[i] !in cs
    ensures FirstIn(s, cs) < |s| ==> s[FirstIn(s, cs)] in cs
  {
    if s != [] && s[0] !in cs {
      FirstInFinds(s[1..], cs);
      forall i | 1 <= i < FirstIn(s, cs) ensures s[i] !in cs {
        assert s[i] == s[1..][i - 1];
      }
    }
  }

  /** After `RemoveAll` the character is gone. */
  lemma {:induction false} RemoveAllRemoves(s: string, c: char)
    ensures c !in RemoveAll(s, c)
  {
    if s != [] {
      RemoveAllRemoves(s[1..], c);
    }
  }

  /** Deleting keeps only characters of `s`, and never `c`. */
  lemma {:induction false} RemoveAllKeeps(s: string, c: char)
    ensures forall x :: x in RemoveAll(s, c) ==> x in s && x != c
  {
    if s != [] {
      RemoveAllKeeps(s[1..], c);
      var h := if s[0] == c then [] else [s[0]];
      forall x | x in h + RemoveAll(s[1..], c) ensures x in s && x != c {
        if x in h {
          assert x == s[0];
        } else {
          assert x in s[1..];
        }
      }
    }
  }

  /** Position by position, `pat` is replaced and nothing else changes. */
  lemma {:induction false} ReplaceAllPointwise(s: string, pat: char, rep: char)
    ensures forall i :: 0 <= i < |s| ==> ReplaceAll(s, pat, rep)[i] == (if s[i] == pat then rep else s[i])
  {
    if s != [] {
      ReplaceAllPointwise(s[1..], pat, rep);
      var r := ReplaceAll(s, pat, rep);
      forall i | 1 <= i < |s| ensures r[i] == (if s[i] == pat then rep else s[i]) {
        assert r[i] == ReplaceAll(s[1..], pat, rep)[i - 1];
        assert s[i] == s[1..][i - 1];
      }
    }
  }

  lemma {:induction false} ReplaceAllConcat(a: string, b: string, pat: char, rep: char)
    ensures ReplaceAll(a + b, pat, rep) == ReplaceAll(a, pat, rep) + ReplaceAll(b, pat, rep)
  {
    if a == [] {
      assert a + b == b;
    } else {
      var h := [if a[0] == pat then rep else a[0]];
      var ra, rb := ReplaceAll(a[1..], pat, rep), ReplaceAll(b, pat, rep);
      calc {
        ReplaceAll(a + b, pat, rep);
        { assert (a + b)[0] == a[0]; }
        h + ReplaceAll((a + b)[1..], pat, rep);
        { assert (a + b)[1..] == a[1..] + b; ReplaceAllConcat(a[1..], b, pat, rep); }
        h + (ra + rb);
        (h + ra) + rb;
      }
    }
  }

  /** A character that does not occur is left alone. */
  lemma {:induction false} ReplaceAllAbsent(s: string, pat: char, rep: char)
    requires pat !in s
    ensures ReplaceAll(s, pat, rep) == s
  {
    if s != [] {
      assert s[1..] + [] == s[1..];
      assert pat !in s[1..];
      ReplaceAllAbsent(s[1..], pat, rep);
    }
  }

  lemma {:induction false} RemoveAllConcat(a: string, b: string, c: char)
    ensures RemoveAll(a + b, c) == RemoveAll(a, c) + RemoveAll(b, c)
  {
    if a == [] {
      assert a + b == b;
    } else {
      var h := if a[0] == c then [] else [a[0]];
      var ra, rb := RemoveAll(a[1..], c), RemoveAll(b, c);
      calc {
        RemoveAll(a + b, c);
        { assert (a + b)[0] == a[0]; }
        h + RemoveAll((a + b)[1..], c);
        { assert (a + b)[1..] == a[1..] + b; RemoveAllConcat(a[1..], b, c); }
        h + (ra + rb);
        (h + ra) + rb;
      }
    }
  }

  /** Deleting twice deletes nothing more. */
  lemma RemoveAllIdempotent(s: string, c: char)
    ensures RemoveAll(RemoveAll(s, c), c) == RemoveAll(s, c)
  {
    RemoveAllRemoves(s, c);
  }
}
