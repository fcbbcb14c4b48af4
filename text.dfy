/**
 * Character classes and small string operations that the report and read
 * parsers rely on: whitespace as Python's `str.split`/`str.strip` and the
 * regular-expression class `\s` see it (ASCII part), decimal digits, word
 * characters, trimming, prefixes, substrings and splitting text into lines.
 */
module Text {
  import opened Wrappers

  /** ASCII whitespace as Python's `\s` and `str.isspace` see it. */
  predicate IsSpace(c: char)
  {
    c == ' ' || c == '\t' || c == '\n' || c == '\r' || c == '\U{B}' || c == '\U{C}'
    || ('\U{1C}' <= c <= '\U{1F}')
  }

  predicate IsDigit(c: char)
  {
    '0' <= c <= '9'
  }

  /** ASCII part of the regular-expression class `\w`. */
  predicate IsWordChar(c: char)
  {
    ('a' <= c <= 'z') || ('A' <= c <= 'Z') || IsDigit(c) || c == '_'
  }

  predicate AllDigits(s: string)
  {
    forall i :: 0 <= i < |s| ==> IsDigit(s[i])
  }

  predicate AllSpace(s: string)
  {
    forall i :: 0 <= i < |s| ==> IsSpace(s[i])
  }

  /** The value of a string of decimal digits, as Python's `int` reads it. */
  function DigitsValue(s: string): nat
    requires AllDigits(s)
  {
    if s == [] then 0
    else 10 * DigitsValue(s[..|s| - 1]) + (s[|s| - 1] as int - '0' as int)
  }

  predicate StartsWith(s: string, prefix: string)
  {
    |prefix| <= |s| && s[..|prefix|] == prefix
  }

  /** `p in s` for strings: `p` occurs somewhere in `s` as a contiguous piece. */
  predicate Contains(s: string, p: string)
    decreases |s|
  {
    StartsWith(s, p) || (|s| > 0 && Contains(s[1..], p))
  }

  lemma {:induction false} ContainsAt(s: string, p: string, k: nat)
    requires k + |p| <= |s| && s[k..k + |p|] == p
    ensures Contains(s, p)
    decreases k
  {
    if k > 0 {
      assert s[1..][k - 1..k - 1 + |p|] == s[k..k + |p|];
      ContainsAt(s[1..], p, k - 1);
    }
  }

  /** A space, then spaces up to `k`, are spaces. */
  lemma SpaceThenSpaces(s: string, k: nat)
    requires 1 <= k <= |s| && IsSpace(s[0]) && AllSpace(s[1..][..k - 1])
    ensures AllSpace(s[..k]) && s[1..][k - 1..] == s[k..]
  {
    forall i | 0 <= i < k ensures IsSpace(s[..k][i]) {
      if i > 0 {
        assert s[..k][i] == s[1..][..k - 1][i - 1];
      }
    }
  }

  /** Spaces from `k` up to the last character, then a space, are spaces. */
  lemma SpacesThenSpace(s: string, k: nat)
    requires k <= |s| - 1 && IsSpace(s[|s| - 1]) && AllSpace(s[..|s| - 1][k..])
    ensures AllSpace(s[k..]) && s[..|s| - 1][..k] == s[..k]
  {
    forall i | 0 <= i < |s| - k ensures IsSpace(s[k..][i]) {
      if i < |s| - 1 - k {
        assert s[k..][i] == s[..|s| - 1][k..][i];
      }
    }
  }

  /** The number of whitespace characters `s` starts with. */
  function LeadingSpaces(s: string): (n: nat)
    ensures n <= |s| && AllSpace(s[..n]) && (n == |s| || !IsSpace(s[n]))
  {
    if |s| > 0 && IsSpace(s[0]) then
      var m := LeadingSpaces(s[1..]);
      SpaceThenSpaces(s, m + 1);
      m + 1
    else 0
  }

  /** The number of whitespace characters `s` ends with. */
  function TrailingSpaces(s: string): (n: nat)
    ensures n <= |s| && AllSpace(s[|s| - n..]) && (n == |s| || !IsSpace(s[|s| - n - 1]))
  {
    if |s| > 0 && IsSpace(s[|s| - 1]) then
      var m := TrailingSpaces(s[..|s| - 1]);
      SpacesThenSpace(s, |s| - 1 - m);
      m + 1
    else 0
  }

  /** Python's `str.lstrip()`: drop the leading whitespace. */
  function TrimStart(s: string): (r: string)
    ensures |r| <= |s| && r == s[|s| - |r|..]
    ensures AllSpace(s[..|s| - |r|])
    ensures r == [] || !IsSpace(r[0])
  {
    s[LeadingSpaces(s)..]
  }

  /** Python's `str.rstrip()`: drop the trailing whitespace. */
  function TrimEnd(s: string): (r: string)
    ensures |r| <= |s| && r == s[..|r|]
    ensures AllSpace(s[|r|..])
    ensures r == [] || !IsSpace(r[|r| - 1])
  {
    s[..|s| - TrailingSpaces(s)]
  }

  /** `r` is `s` from `k` on, with only whitespace before and after it. */
  predicate TrimmedAt(s: string, r: string, k: int)
  {
    0 <= k && k + |r| <= |s| && r == s[k..k + |r|] && AllSpace(s[..k]) && AllSpace(s[k + |r|..])
  }

  /** Python's `str.strip()`. */
  function Trim(s: string): (r: string)
    ensures exists k :: TrimmedAt(s, r, k)
    ensures r == [] || (!IsSpace(r[0]) && !IsSpace(r[|r| - 1]))
  {
    var a := TrimStart(s);
    var r := TrimEnd(a);
    TrimBothEnds(s, a, r);
    r
  }

  lemma TrimBothEnds(s: string, a: string, r: string)
    requires |a| <= |s| && a == s[|s| - |a|..] && AllSpace(s[..|s| - |a|])
    requires |r| <= |a| && r == a[..|r|] && AllSpace(a[|r|..])
    ensures TrimmedAt(s, r, |s| - |a|)
  {
    var k := |s| - |a|;
    assert r == s[k..k + |r|];
    assert s[k + |r|..] == a[|r|..];
  }

  /**
   * The lines of a text, split at every '\n' as `str.split('\n')` does:
   * a text ending in '\n' has an empty last line.
   */
  function SplitLines(t: string): (ls: seq<string>)
    ensures |ls| >= 1
    ensures forall i :: 0 <= i < |ls| ==> '\n' !in ls[i]
    ensures JoinLines(ls) == t
  {
    if t == [] then [""]
    else
      var rest := SplitLines(t[1..]);
      if t[0] == '\n' then [""] + rest
      else
        var ls := [[t[0]] + rest[0]] + rest[1..];
        assert ls[1..] == rest[1..];
        ls
  }

  /** `'\n'.join(ls)`. */
  function JoinLines(ls: seq<string>): string
  {
    if ls == [] then ""
    else if |ls| == 1 then ls[0]
    else ls[0] + "\n" + JoinLines(ls[1..])
  }

  /** Splitting a joined list of lines gives those lines back. */
  lemma {:induction false} SplitJoinLines(ls: seq<string>)
    requires |ls| >= 1
    requires forall i :: 0 <= i < |ls| ==> '\n' !in ls[i]
    ensures SplitLines(JoinLines(ls)) == ls
    decreases |ls|, |ls[0]|
  {
    if |ls| == 1 {
      SplitLineWithoutBreak(ls[0]);
    } else if ls[0] == [] {
      var t := JoinLines(ls);
      assert t == "\n" + JoinLines(ls[1..]);
      assert t[1..] == JoinLines(ls[1..]);
      SplitJoinLines(ls[1..]);
    } else {
      var t := JoinLines(ls);
      var ls' := [ls[0][1..]] + ls[1..];
      assert ls'[1..] == ls[1..];
      assert '\n' !in ls'[0] by {
        assert forall c :: c in ls[0][1..] ==> c in ls[0];
      }
      assert JoinLines(ls') == ls[0][1..] + "\n" + JoinLines(ls[1..]);
      assert t == [ls[0][0]] + JoinLines(ls');
      assert t[1..] == JoinLines(ls');
      SplitJoinLines(ls');
      assert ls[0][0] != '\n' by { assert ls[0][0] in ls[0]; }
      assert [ls[0][0]] + ls[0][1..] == ls[0];
    }
  }

  lemma {:induction false} SplitLineWithoutBreak(l: string)
    requires '\n' !in l
    ensures SplitLines(l) == [l]
    decreases |l|
  {
    if l != [] {
      assert '\n' !in l[1..] by {
        assert forall c :: c in l[1..] ==> c in l;
      }
      SplitLineWithoutBreak(l[1..]);
      assert l[0] != '\n' by { assert l[0] in l; }
      assert [l[0]] + l[1..] == l;
    }
  }

  /** Index of the first `c` in `s`, or `|s|` when there is none. */
  function IndexOf(s: string, c: char): (k: nat)
    ensures k <= |s|
    ensures forall j :: 0 <= j < k ==> s[j] != c
    ensures k < |s| ==> s[k] == c
  {
    if s == [] then 0 else if s[0] == c then 0 else 1 + IndexOf(s[1..], c)
  }

  /** `m / 10^e`, as repeated division by ten. */
  function Scaled(m: nat, e: nat): (r: real)
    ensures r >= 0.0
  {
    if e == 0 then m as real else Scaled(m, e - 1) / 10.0
  }

  /**
   * A decimal number as Python's `float` reads the plain forms `ddd`,
   * `ddd.ddd`, `ddd.` and `.ddd`: digits, at most one point, at least one
   * digit. Other text is not a decimal here.
   */
  function DecimalValue(s: string): (r: Option<real>)
  {
    var k := IndexOf(s, '.');
    DecimalOfParts(s[..k], if k < |s| then s[k + 1..] else "")
  }

  /** The number `whole.frac`, if both parts are digits and not both empty. */
  function DecimalOfParts(whole: string, frac: string): Option<real>
  {
    if AllDigits(whole) && AllDigits(frac) && |whole| + |frac| > 0 then
      Some(DigitsValue(whole) as real + Scaled(DigitsValue(frac), |frac|))
    else None
  }

  /** A run of digits is the integer it spells. */
  lemma DecimalOfDigits(d: string)
    requires |d| > 0 && AllDigits(d)
    ensures DecimalValue(d) == Some(DigitsValue(d) as real)
  {
    var k := IndexOf(d, '.');
    assert k == |d| by {
      assert k < |d| ==> IsDigit(d[k]);
    }
    assert d[..k] == d;
    assert DigitsValue("") == 0 && Scaled(0, 0) == 0.0;
  }

  /** Digit parts, not both empty, are the whole part plus the fraction scaled by its digit count. */
  lemma PartsValue(whole: string, frac: string)
    requires AllDigits(whole) && AllDigits(frac) && |whole| + |frac| > 0
    ensures DecimalOfParts(whole, frac) == Some(DigitsValue(whole) as real + Scaled(DigitsValue(frac), |frac|))
  {
  }

  /** Parts whose number is `x` read as `x` once written with a point between them. */
  lemma PointRead(whole: string, frac: string, x: real)
    requires DecimalOfParts(whole, frac) == Some(x)
    ensures DecimalValue(whole + "." + frac) == Some(x)
  {
    assert AllDigits(whole) && AllDigits(frac) && |whole| + |frac| > 0;
    DecimalOfPoint(whole, frac);
  }

  /** `whole.frac` is the whole part plus the fraction scaled by its digit count. */
  lemma DecimalOfPoint(whole: string, frac: string)
    requires AllDigits(whole) && AllDigits(frac) && |whole| + |frac| > 0
    ensures DecimalValue(whole + "." + frac) == DecimalOfParts(whole, frac)
  {
    var s := whole + "." + frac;
    var k := IndexOf(s, '.');
    assert k == |whole| by {
      assert s[|whole|] == '.';
      assert forall j :: 0 <= j < |whole| ==> s[j] == whole[j];
    }
    assert s[..k] == whole;
    assert s[k + 1..] == frac;
  }
}
