/**
 * Line shapes. Each report line the parsers accept is described by a list
 * of tokens: literal text, or a non-empty maximal run of one character
 * class (the regular-expression pieces `\s+`, `\d+`, `[\w \-]+`, `\S+`,
 * `[^,]+` and a run of digits and dots). `Match` recognises a line left to
 * right, taking each run greedily; `Shaped` is the declarative shape (the
 * line is a concatenation of pieces, one per token). For a well-separated
 * token list the two agree, and the pieces are unique.
 */
module LineShape {
  import opened Wrappers
  import opened Text

  datatype CharClass = Spaces | Digits | LabelChars | NonSpaces | NoCommas | DecimalChars

  datatype Token = Lit(text: string) | Run(cls: CharClass)

  predicate InClass(k: CharClass, c: char)
  {
    match k
    case Spaces => IsSpace(c)
    case Digits => IsDigit(c)
    case LabelChars => IsWordChar(c) || c == ' ' || c == '-'
    case NonSpaces => !IsSpace(c)
    case NoCommas => c != ','
    case DecimalChars => IsDigit(c) || c == '.'
  }

  /** Two classes no character belongs to both of. */
  predicate Disjoint(a: CharClass, b: CharClass)
  {
    (a == Spaces && (b == Digits || b == NonSpaces || b == DecimalChars))
    || (b == Spaces && (a == Digits || a == NonSpaces || a == DecimalChars))
  }

  lemma DisjointExcludes(a: CharClass, b: CharClass, c: char)
    requires Disjoint(a, b) && InClass(b, c)
    ensures !InClass(a, c)
  {
  }

  /** Length of the longest prefix of `s` inside class `k`. */
  function RunLength(k: CharClass, s: string): (n: nat)
    ensures n <= |s|
    ensures forall i :: 0 <= i < n ==> InClass(k, s[i])
    ensures n == |s| || !InClass(k, s[n])
  {
    if s != [] && InClass(k, s[0]) then 1 + RunLength(k, s[1..]) else 0
  }

  predicate Fits(t: Token, piece: string)
  {
    match t
    case Lit(p) => piece == p
    case Run(k) => |piece| > 0 && forall i :: 0 <= i < |piece| ==> InClass(k, piece[i])
  }

  function Concat(ps: seq<string>): string
  {
    if ps == [] then "" else ps[0] + Concat(ps[1..])
  }

  /** How much of `s` token `t` consumes: the literal, or the greedy run. */
  function Step(t: Token, s: string): (n: nat)
    ensures n <= |s|
    ensures (n > 0 || t == Lit("")) ==> Fits(t, s[..n])
  {
    match t
    case Lit(p) => if StartsWith(s, p) then |p| else 0
    case Run(k) => RunLength(k, s)
  }

  lemma ConsPieces(toks: seq<Token>, p: string, ps: seq<string>)
    requires |toks| == |ps| + 1 && Fits(toks[0], p)
    requires forall i :: 0 <= i < |ps| ==> Fits(toks[1..][i], ps[i])
    ensures Concat([p] + ps) == p + Concat(ps)
    ensures forall i :: 0 <= i < |toks| ==> Fits(toks[i], ([p] + ps)[i])
  {
    assert ([p] + ps)[1..] == ps;
    forall i | 1 <= i < |toks| ensures Fits(toks[i], ([p] + ps)[i]) {
      assert toks[i] == toks[1..][i - 1];
    }
  }

  lemma Concat5(ps: seq<string>)
    requires |ps| == 5
    ensures Concat(ps) == ps[0] + ps[1] + ps[2] + ps[3] + ps[4]
  {
    assert Concat(ps[4..]) == ps[4] + Concat(ps[5..]);
    assert Concat(ps[3..]) == ps[3] + Concat(ps[4..]);
    assert Concat(ps[2..]) == ps[2] + Concat(ps[3..]);
    assert Concat(ps[1..]) == ps[1] + Concat(ps[2..]);
  }

  lemma Concat6(ps: seq<string>)
    requires |ps| == 6
    ensures Concat(ps) == ps[0] + ps[1] + ps[2] + ps[3] + ps[4] + ps[5]
  {
    assert Concat(ps[1..]) == ps[1] + Concat(ps[2..]);
    Concat5(ps[1..]);
  }

  /** Recognise `s` as the token list; on success the pieces, one per token. */
  function Match(toks: seq<Token>, s: string): (r: Option<seq<string>>)
    ensures r.Some? ==> |r.value| == |toks| && Concat(r.value) == s
    ensures r.Some? ==> forall i :: 0 <= i < |toks| ==> Fits(toks[i], r.value[i])
    decreases |toks|
  {
    if toks == [] then
      if s == [] then Some([]) else None
    else
      var n := Step(toks[0], s);
      if n == 0 && toks[0] != Lit("") then None
      else
        match Match(toks[1..], s[n..])
        case None => None
        case Some(ps) =>
          ConsPieces(toks, s[..n], ps);
          assert s[..n] + s[n..] == s;
          Some([s[..n]] + ps)
  }

  /** Token `a` followed by `b` leaves no choice where `a`'s run ends. */
  predicate Separated(a: Token, b: Token)
  {
    match a
    case Lit(_) => true
    case Run(k) =>
      match b
      case Lit(p) => |p| > 0 && !InClass(k, p[0])
      case Run(k2) => Disjoint(k, k2)
  }

  predicate WellSeparated(toks: seq<Token>)
  {
    |toks| < 2 || (Separated(toks[0], toks[1]) && WellSeparated(toks[1..]))
  }

  /** The declarative shape: `s` is a concatenation of fitting pieces. */
  ghost predicate Shaped(toks: seq<Token>, s: string)
  {
    exists ps: seq<string> :: |ps| == |toks| && Concat(ps) == s
                              && forall i :: 0 <= i < |toks| ==> Fits(toks[i], ps[i])
  }

  /** Every concatenation of fitting pieces is recognised, with exactly those pieces. */
  lemma {:induction false} MatchComplete(toks: seq<Token>, ps: seq<string>)
    requires WellSeparated(toks)
    requires |ps| == |toks| && forall i :: 0 <= i < |toks| ==> Fits(toks[i], ps[i])
    ensures Match(toks, Concat(ps)) == Some(ps)
    decreases |toks|
  {
    if toks != [] {
      var s := Concat(ps);
      var rest := Concat(ps[1..]);
      assert s == ps[0] + rest;
      assert forall i :: 0 <= i < |toks[1..]| ==> Fits(toks[1..][i], ps[1..][i]) by {
        forall i | 0 <= i < |toks[1..]| ensures Fits(toks[1..][i], ps[1..][i]) {
          assert toks[1..][i] == toks[i + 1] && ps[1..][i] == ps[i + 1];
        }
      }
      MatchComplete(toks[1..], ps[1..]);
      match toks[0]
      case Lit(p) =>
        assert ps[0] == p;
        assert s[..|p|] == p;
        assert s[|p|..] == rest;
        assert StartsWith(s, p);
        assert [s[..|p|]] + ps[1..] == ps;
      case Run(k) =>
        var n := RunLength(k, s);
        assert Fits(Run(k), ps[0]);
        var m := |ps[0]|;
        assert forall i :: 0 <= i < m ==> s[i] == ps[0][i];
        if |toks| > 1 {
          assert Separated(toks[0], toks[1]);
          assert Fits(toks[1], ps[1]);
          assert rest == ps[1] + Concat(ps[2..]);
          match toks[1]
          case Lit(p) =>
            assert ps[1] == p;
            assert s[m] == p[0];
          case Run(k2) =>
            assert s[m] == ps[1][0];
            DisjointExcludes(k, k2, ps[1][0]);
        } else {
          assert rest == "";
        }
        assert n == m;
        assert s[..n] == ps[0];
        assert s[n..] == rest;
        assert [s[..n]] + ps[1..] == ps;
    }
  }

  /** The recogniser accepts exactly the lines of the declared shape. */
  lemma MatchIffShaped(toks: seq<Token>, s: string)
    requires WellSeparated(toks)
    ensures Match(toks, s).Some? <==> Shaped(toks, s)
  {
    if Shaped(toks, s) {
      var ps: seq<string> :| |ps| == |toks| && Concat(ps) == s
                             && forall i :: 0 <= i < |toks| ==> Fits(toks[i], ps[i]);
      MatchComplete(toks, ps);
    }
  }
}
