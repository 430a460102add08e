/**
 * String operations the program relies on, with Python's semantics:
 * `str.lower()`, `str.strip()`, `in`, `startswith`, `replace` and the
 * decimal rendering of an `int`. Case folding covers ASCII letters.
 */
module Text {

  function LowerChar(c: char): (r: char)
    ensures 'A' <= c <= 'Z' ==> r as int == c as int + 32
    ensures !('A' <= c <= 'Z') ==> r == c
  {
    if 'A' <= c <= 'Z' then (c as int + 32) as char else c
  }

  /** `s.lower()` */
  function Lower(s: string): (r: string)
    ensures |r| == |s|
    ensures forall i :: 0 <= i < |s| ==> r[i] == LowerChar(s[i])
  {
    seq(|s|, i requires 0 <= i < |s| => LowerChar(s[i]))
  }

  lemma LowerAppend(a: string, b: string)
    ensures Lower(a + b) == Lower(a) + Lower(b)
  {
    assert forall i :: 0 <= i < |a + b| ==> Lower(a + b)[i] == (Lower(a) + Lower(b))[i];
  }

  /** `s.startswith(p)` */
  predicate StartsWith(s: string, p: string) {
    p <= s
  }

  /** `t in s` for strings: some window of `s` equals `t`. */
  predicate Contains(s: string, t: string)
    decreases |s|
  {
    t <= s || (|s| > 0 && Contains(s[1..], t))
  }

  /** An occurrence of `t` at position `i` of `s`. */
  ghost predicate OccursAt(s: string, t: string, i: int) {
    0 <= i && i + |t| <= |s| && s[i..i + |t|] == t
  }

  lemma {:induction false} ContainsIff(s: string, t: string)
    ensures Contains(s, t) <==> exists i :: OccursAt(s, t, i)
    decreases |s|
  {
    if t <= s {
      assert OccursAt(s, t, 0);
    } else if |s| > 0 {
      ContainsIff(s[1..], t);
      if Contains(s[1..], t) {
        var i :| OccursAt(s[1..], t, i);
        assert s[i + 1..i + 1 + |t|] == s[1..][i..i + |t|];
        assert OccursAt(s, t, i + 1);
      }
      if i :| OccursAt(s, t, i) {
        assert i != 0;
        assert s[1..][i - 1..i - 1 + |t|] == s[i..i + |t|];
        assert OccursAt(s[1..], t, i - 1);
      }
    } else {
      assert |t| > 0;
    }
  }

  /** Appending text never removes an occurrence. */
  lemma ContainsExtend(a: string, b: string, t: string)
    requires Contains(a, t)
    ensures Contains(a + b, t)
  {
    ContainsIff(a, t);
    ContainsIff(a + b, t);
    var i :| OccursAt(a, t, i);
    assert (a + b)[i..i + |t|] == a[i..i + |t|];
    assert OccursAt(a + b, t, i);
  }

  lemma ContainsSuffix(a: string, t: string)
    ensures Contains(a + t, t)
  {
    ContainsIff(a + t, t);
    assert (a + t)[|a|..|a| + |t|] == t;
    assert OccursAt(a + t, t, |a|);
  }

  /**
   * A pattern that opens with `(` can only occur in `a + b` inside `b` when
   * `a` has no `(`.
   */
  lemma ContainsPastPrefix(a: string, b: string, t: string)
    requires |t| > 0 && t[0] == '(' && '(' !in a
    ensures Contains(a + b, t) <==> Contains(b, t)
  {
    ContainsIff(a + b, t);
    ContainsIff(b, t);
    if i :| OccursAt(a + b, t, i) {
      assert (a + b)[i] == '(';
      assert i >= |a|;
      assert b[i - |a|..i - |a| + |t|] == (a + b)[i..i + |t|];
      assert OccursAt(b, t, i - |a|);
    }
    if j :| OccursAt(b, t, j) {
      assert (a + b)[|a| + j..|a| + j + |t|] == b[j..j + |t|];
      assert OccursAt(a + b, t, |a| + j);
    }
  }

  /** A text lacking one of the pattern's characters does not contain it. */
  lemma MissingCharNotContained(s: string, t: string, c: char)
    requires c in t && c !in s
    ensures !Contains(s, t)
  {
    ContainsIff(s, t);
  }

  /**
   * A text whose second character is the pattern's first, which occurs
   * nowhere else in it, and in which that occurrence is followed by a
   * character differing from the pattern's `j + 1`-th, does not contain it.
   */
  lemma OpenedOnceNotContained(s: string, t: string, j: nat)
    requires |s| >= 2 && j + 1 < |t| && s[1] == t[0] && s[0] != t[0] && t[0] !in s[2..]
    requires 2 + j >= |s| || s[2 + j] != t[j + 1]
    ensures !Contains(s, t)
  {
    ContainsIff(s, t);
    forall i | 0 <= i && i + |t| <= |s| ensures !OccursAt(s, t, i) {
      if i == 1 {
        assert s[i..i + |t|][j + 1] == s[2 + j];
      } else if i == 0 {
        assert s[i..i + |t|][0] == s[0];
      } else {
        assert s[i..i + |t|][0] == s[2..][i - 2];
      }
    }
  }

  /**
   * `s.replace(pat, rep)`: every non-overlapping occurrence of `pat`, scanned
   * left to right, is replaced. The program only replaces non-empty patterns.
   */
  function Replace(s: string, pat: string, rep: string): (r: string)
    requires |pat| > 0
    ensures !Contains(s, pat) ==> r == s
    decreases |s|
  {
    if |s| < |pat| then s
    else if pat <= s then rep + Replace(s[|pat|..], pat, rep)
    else [s[0]] + Replace(s[1..], pat, rep)
  }

  /** Replacing a `(`-opened pattern leaves a prefix without `(` untouched. */
  lemma {:induction false} ReplacePastPrefix(a: string, b: string, pat: string, rep: string)
    requires |pat| > 0 && pat[0] == '(' && '(' !in a
    ensures Replace(a + b, pat, rep) == a + Replace(b, pat, rep)
  {
    if |a| > 0 {
      if |a + b| < |pat| {
        ReplaceShort(b, pat, rep);
      } else {
        assert (a + b)[0] != '(';
        assert !(pat <= a + b);
        assert (a + b)[1..] == a[1..] + b;
        ReplacePastPrefix(a[1..], b, pat, rep);
        assert [a[0]] + (a[1..] + Replace(b, pat, rep)) == a + Replace(b, pat, rep);
      }
    } else {
      assert a + b == b;
    }
  }

  lemma ReplaceShort(s: string, pat: string, rep: string)
    requires |pat| > 0 && |s| < |pat|
    ensures Replace(s, pat, rep) == s
  {
  }

  /** A text made of exactly the pattern is replaced whole. */
  lemma ReplaceWhole(pat: string, rep: string)
    requires |pat| > 0
    ensures Replace(pat, pat, rep) == rep
  {
    assert pat[|pat|..] == [];
  }

  /** The white space `str.strip` removes: the characters for which `str.isspace` holds. */
  predicate IsSpace(c: char) {
    c == ' ' || c == '\t' || c == '\n' || c == '\r' || c == '\U{B}' || c == '\U{C}' ||
    '\U{1C}' <= c <= '\U{1F}' || c == '\U{85}' || c == '\U{A0}' || c == '\U{1680}' ||
    '\U{2000}' <= c <= '\U{200A}' || c == '\U{2028}' || c == '\U{2029}' || c == '\U{202F}' ||
    c == '\U{205F}' || c == '\U{3000}'
  }

  /** `s.lstrip()`: a suffix of `s`. */
  function StripLeft(s: string): (r: string)
    ensures |r| <= |s| && r == s[|s| - |r|..]
    ensures |r| > 0 ==> !IsSpace(r[0])
    ensures forall i :: 0 <= i < |s| - |r| ==> IsSpace(s[i])
  {
    if |s| > 0 && IsSpace(s[0]) then StripLeft(s[1..]) else s
  }

  /** `s.rstrip()`: a prefix of `s`. */
  function StripRight(s: string): (r: string)
    ensures r <= s
    ensures |r| > 0 ==> !IsSpace(r[|r| - 1])
    ensures forall i :: |r| <= i < |s| ==> IsSpace(s[i])
  {
    if |s| > 0 && IsSpace(s[|s| - 1]) then StripRight(s[..|s| - 1]) else s
  }

  /** `r` is the slice of `s` from `k` with only white space before and after it. */
  predicate Trimmed(s: string, r: string, k: int) {
    0 <= k && k + |r| <= |s| && r == s[k..k + |r|] &&
    (forall j :: 0 <= j < k ==> IsSpace(s[j])) &&
    (forall j :: k + |r| <= j < |s| ==> IsSpace(s[j]))
  }

  /** `s.strip()`. */
  function Strip(s: string): (r: string)
    ensures |r| <= |s|
    ensures |r| > 0 ==> !IsSpace(r[0]) && !IsSpace(r[|r| - 1])
    ensures exists k :: Trimmed(s, r, k)
  {
    var l := StripLeft(s);
    var r := StripRight(l);
    TrimmedBoth(s, l, r);
    r
  }

  /**
   * A suffix of `s` after white space, cut down to a prefix followed by
   * white space, is a slice of `s` between white space.
   */
  lemma TrimmedBoth(s: string, l: string, r: string)
    requires |l| <= |s| && l == s[|s| - |l|..] && forall i :: 0 <= i < |s| - |l| ==> IsSpace(s[i])
    requires r <= l && forall i :: |r| <= i < |l| ==> IsSpace(l[i])
    requires |l| > 0 ==> !IsSpace(l[0])
    ensures Trimmed(s, r, |s| - |l|)
    ensures |r| > 0 ==> !IsSpace(r[0])
  {
    var k := |s| - |l|;
    assert r == l[..|r|];
    assert r == s[k..k + |r|];
    forall j | k + |r| <= j < |s|
      ensures IsSpace(s[j])
    {
      assert s[j] == l[j - k];
    }
    if |r| > 0 {
      assert r[0] == l[0];
    }
  }

  /** One space on either side of a word that neither starts nor ends with white space is stripped away. */
  lemma StripPadded(s: string)
    requires |s| > 0 && !IsSpace(s[0]) && !IsSpace(s[|s| - 1])
    ensures Strip([' '] + s + [' ']) == s
  {
    var padded := [' '] + s + [' '];
    assert padded[1..] == s + [' '];
    assert StripLeft(padded) == s + [' '];
    assert (s + [' '])[..|s|] == s;
    assert StripRight(s + [' ']) == StripRight(s);
  }

  function DigitChar(d: nat): (c: char)
    requires d < 10
    ensures '0' <= c <= '9'
  {
    ('0' as int + d) as char
  }

  function NatToString(n: nat): (s: string)
    ensures |s| > 0
    ensures forall i :: 0 <= i < |s| ==> '0' <= s[i] <= '9'
  {
    if n < 10 then [DigitChar(n)] else NatToString(n / 10) + [DigitChar(n % 10)]
  }

  /** `str(i)` / `f"{i}"` for a Python `int` */
  function IntToString(i: int): (s: string)
    ensures |s| > 0
    ensures (s[0] == '-') <==> i < 0
  {
    if i < 0 then "-" + NatToString(-i) else NatToString(i)
  }

  /** Different numbers print differently. */
  lemma {:induction false} NatToStringInjective(a: nat, b: nat)
    requires NatToString(a) == NatToString(b)
    ensures a == b
    decreases a
  {
    if a >= 10 && b >= 10 {
      var s := NatToString(a);
      var n := |s|;
      assert s[n - 1] == DigitChar(a % 10) && s[n - 1] == DigitChar(b % 10);
      assert s[..n - 1] == NatToString(a / 10) && s[..n - 1] == NatToString(b / 10);
      NatToStringInjective(a / 10, b / 10);
    }
  }

  /** Different integers print differently. */
  lemma IntToStringInjective(a: int, b: int)
    requires IntToString(a) == IntToString(b)
    ensures a == b
  {
    if a < 0 {
      assert IntToString(a)[1..] == NatToString(-a) && IntToString(b)[1..] == NatToString(-b);
      NatToStringInjective(-a, -b);
    } else {
      NatToStringInjective(a, b);
    }
  }
}
