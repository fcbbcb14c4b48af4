/**
 * Parsing of a `ccs` yield report into (status, number, fraction) rows.
 * Two layouts are recognised, tried in this order: the `ccs` 4.x layout
 * (a header block, then "Exclusive ZMW counts for (C):" with one
 * `label: count (percent)` line per category; fractions recomputed from
 * the counts) and the `ccs` 3.x layout (a "ZMW Yield" block of
 * `status,number,percent%` lines; fractions are the printed percentages
 * over 100). The text is split into lines and each layout is a recogniser
 * over those lines.
 */
module CcsReport {
  import opened Wrappers
  import opened Text
  import opened LineShape

  datatype Row = Row(status: string, number: nat, fraction: real)

  /** A category and its count, before fractions are assigned. */
  datatype Count = Count(status: string, number: nat)

  /**
   * `UnmatchedReport`: neither layout matches the text. `MalformedYieldRow`:
   * the 3.x layout matches but one of its rows is not `status,digits,decimal%`.
   */
  datatype ReportError = UnmatchedReport | MalformedYieldRow

  const GeneratingStatus := "ZMWs generating CCS"
  const ExclusiveHeader := "Exclusive ZMW counts for (C):"
  const ZmwYieldHeader := "ZMW Yield"
  const SubreadYieldHeader := "Subread Yield"

  // ---------------------------------------------------------------------
  // Line shapes.

  /** `ZMWs input\s+\(A\)\s+:\s+\d+` */
  const InputLine: seq<Token> :=
    [Lit("ZMWs input"), Run(Spaces), Lit("(A)"), Run(Spaces), Lit(":"), Run(Spaces), Run(Digits)]

  /** `ZMWs generating CCS\s+\(B\)\s+:\s+(\d+) \S+` */
  const GeneratingLine: seq<Token> :=
    [Lit("ZMWs generating CCS"), Run(Spaces), Lit("(B)"), Run(Spaces), Lit(":"), Run(Spaces),
     Run(Digits), Lit(" "), Run(NonSpaces)]

  /** `ZMWs filtered\s+\(C\)\s+:\s+\d+ \S+` */
  const FilteredLine: seq<Token> :=
    [Lit("ZMWs filtered"), Run(Spaces), Lit("(C)"), Run(Spaces), Lit(":"), Run(Spaces),
     Run(Digits), Lit(" "), Run(NonSpaces)]

  /** `[\w \-]+: \d+ \S+`, one exclusive-count line. */
  const CountLine: seq<Token> :=
    [Run(LabelChars), Lit(": "), Run(Digits), Lit(" "), Run(NonSpaces)]

  /** `status,number,percent%`, one row of the 3.x "ZMW Yield" block. */
  const YieldLine: seq<Token> :=
    [Run(NoCommas), Lit(","), Run(Digits), Lit(","), Run(DecimalChars), Lit("%")]

  lemma InputLineSeparated()
    ensures WellSeparated(InputLine)
  {
    assert WellSeparated(InputLine[5..]);
    assert WellSeparated(InputLine[4..]);
    assert WellSeparated(InputLine[3..]);
    assert WellSeparated(InputLine[2..]);
    assert WellSeparated(InputLine[1..]);
  }

  lemma GeneratingLineSeparated()
    ensures WellSeparated(GeneratingLine)
  {
    assert WellSeparated(GeneratingLine[7..]);
    assert WellSeparated(GeneratingLine[6..]);
    assert WellSeparated(GeneratingLine[5..]);
    assert WellSeparated(GeneratingLine[4..]);
    assert WellSeparated(GeneratingLine[3..]);
    assert WellSeparated(GeneratingLine[2..]);
    assert WellSeparated(GeneratingLine[1..]);
  }

  lemma FilteredLineSeparated()
    ensures WellSeparated(FilteredLine)
  {
    assert WellSeparated(FilteredLine[7..]);
    assert WellSeparated(FilteredLine[6..]);
    assert WellSeparated(FilteredLine[5..]);
    assert WellSeparated(FilteredLine[4..]);
    assert WellSeparated(FilteredLine[3..]);
    assert WellSeparated(FilteredLine[2..]);
    assert WellSeparated(FilteredLine[1..]);
  }

  lemma CountLineSeparated()
    ensures WellSeparated(CountLine)
  {
    assert WellSeparated(CountLine[3..]);
    assert WellSeparated(CountLine[2..]);
    assert WellSeparated(CountLine[1..]);
  }

  lemma YieldLineSeparated()
    ensures WellSeparated(YieldLine)
  {
    assert WellSeparated(YieldLine[4..]);
    assert WellSeparated(YieldLine[3..]);
    assert WellSeparated(YieldLine[2..]);
    assert WellSeparated(YieldLine[1..]);
  }

  /** The count `(B)` of a "ZMWs generating CCS" line. */
  function GeneratedCount(line: string): Option<nat>
  {
    match Match(GeneratingLine, line)
    case None => None
    case Some(ps) => Some(DigitsValue(ps[6]))
  }

  // ---------------------------------------------------------------------
  // The ccs 4.x layout.

  lemma CountLinePieces(line: string, ps: seq<string>)
    requires |ps| == |CountLine| && Concat(ps) == line
    requires forall i :: 0 <= i < |CountLine| ==> Fits(CountLine[i], ps[i])
    ensures line == ps[0] + ": " + ps[2] + " " + ps[4]
    ensures Fits(Run(LabelChars), ps[0]) && Fits(Run(Digits), ps[2]) && Fits(Run(NonSpaces), ps[4])
  {
    assert Fits(CountLine[1], ps[1]) && Fits(CountLine[3], ps[3]);
    assert Fits(CountLine[0], ps[0]) && Fits(CountLine[2], ps[2]) && Fits(CountLine[4], ps[4]);
    Concat5(ps);
  }

  /**
   * One exclusive-count line `label: digits tail`: the status is the label
   * with surrounding whitespace removed, the number the value of the digits.
   */
  function CountOfLine(line: string): (r: Option<Count>)
    ensures r.Some? <==> Match(CountLine, line).Some?
  {
    match Match(CountLine, line)
    case None => None
    case Some(ps) =>
      CountLinePieces(line, ps);
      Some(Count(Trim(ps[0]), DigitsValue(ps[2])))
  }

  /** A line read as a count is `label: digits tail`, read as the trimmed label and the digits' value. */
  lemma CountOfLineShape(line: string)
    requires CountOfLine(line).Some?
    ensures exists tag, d, tail :: line == tag + ": " + d + " " + tail
                                   && Fits(Run(LabelChars), tag) && Fits(Run(Digits), d)
                                   && Fits(Run(NonSpaces), tail)
                                   && CountOfLine(line).value == Count(Trim(tag), DigitsValue(d))
  {
    var ps := Match(CountLine, line).value;
    CountLinePieces(line, ps);
  }

  /** A count line's label ends at its first ':', and the digits follow after one space. */
  lemma CountLineSplit(tag: string, d: string, tail: string)
    requires Fits(Run(LabelChars), tag) && Fits(Run(Digits), d)
    ensures var line := tag + ": " + d + " " + tail;
            && (forall j :: 0 <= j < |tag| ==> line[j] != ':') && line[|tag|] == ':'
            && line[..|tag|] == tag && line[|tag| + 1] == ' '
            && line[|tag| + 2..|tag| + 2 + |d|] == d && line[|tag| + 2 + |d|] == ' '
  {
    var line := tag + ": " + d + " " + tail;
    assert forall j :: 0 <= j < |tag| ==> line[j] == tag[j];
    assert line[..|tag|] == tag;
    assert line[|tag| + 2..|tag| + 2 + |d|] == d;
  }

  /**
   * The status is the text before the first ':' with whitespace trimmed,
   * and the number is the first whitespace-separated token after that ':'.
   */
  lemma CountLineFields(line: string)
    requires CountOfLine(line).Some?
    ensures exists k, d :: CountFieldsAt(line, k, d, CountOfLine(line).value)
  {
    var c := CountOfLine(line).value;
    CountOfLineShape(line);
    var tag, d, tail :| line == tag + ": " + d + " " + tail
                        && Fits(Run(LabelChars), tag) && Fits(Run(Digits), d)
                        && Fits(Run(NonSpaces), tail)
                        && c == Count(Trim(tag), DigitsValue(d));
    CountFieldsOf(tag, d, tail, c);
  }

  /**
   * `line` holds a label ending at its first ':' (position `k`), one space,
   * the digits `d` and a space, and `c` is the trimmed label with the digits' value.
   */
  predicate CountFieldsAt(line: string, k: nat, d: string, c: Count)
  {
    && 0 < k && k + 2 + |d| < |line|
    && line[k] == ':' && (forall j :: 0 <= j < k ==> line[j] != ':')
    && c.status == Trim(line[..k])
    && line[k + 1] == ' ' && line[k + 2..k + 2 + |d|] == d
    && line[k + 2 + |d|] == ' ' && AllDigits(d) && |d| > 0
    && c.number == DigitsValue(d)
  }

  lemma CountFieldsOf(tag: string, d: string, tail: string, c: Count)
    requires Fits(Run(LabelChars), tag) && Fits(Run(Digits), d)
    requires c == Count(Trim(tag), DigitsValue(d))
    ensures CountFieldsAt(tag + ": " + d + " " + tail, |tag|, d, c)
  {
    CountLineSplit(tag, d, tail);
  }

  function SumCounts(cs: seq<Count>): nat
  {
    if cs == [] then 0 else cs[0].number + SumCounts(cs[1..])
  }

  function SumNumbers(rows: seq<Row>): nat
  {
    if rows == [] then 0 else rows[0].number + SumNumbers(rows[1..])
  }

  function SumFractions(rows: seq<Row>): real
  {
    if rows == [] then 0.0 else rows[0].fraction + SumFractions(rows[1..])
  }

  /** `number / total`; a zero total gives 0.0 (pandas gives NaN there). */
  function Share(number: nat, total: nat): real
  {
    if total == 0 then 0.0 else number as real / total as real
  }

  /** Rows carrying each count's share of `total`. */
  function Fractioned(cs: seq<Count>, total: nat): seq<Row>
  {
    seq(|cs|, i requires 0 <= i < |cs| => Row(cs[i].status, cs[i].number, Share(cs[i].number, total)))
  }

  lemma {:induction false} FractionedNumbers(cs: seq<Count>, total: nat)
    ensures SumNumbers(Fractioned(cs, total)) == SumCounts(cs)
  {
    if cs != [] {
      assert Fractioned(cs, total)[1..] == Fractioned(cs[1..], total);
      FractionedNumbers(cs[1..], total);
    }
  }

  /** Where the count lines end: before the final empty line, and one more if empty too. */
  function V4End(ls: seq<string>): nat
    requires |ls| >= 7
  {
    if ls[|ls| - 2] == "" then |ls| - 2 else |ls| - 1
  }

  /** The exclusive-count lines of a 4.x report. */
  function V4Body(ls: seq<string>): seq<string>
    requires |ls| >= 7
  {
    ls[5..V4End(ls)]
  }

  /**
   * Lines: input, generating, filtered, blank, "Exclusive ZMW counts for
   * (C):", at least one count line, then the end of the text (the empty
   * line after the final '\n', possibly preceded by one more empty line).
   * The counts are the generated count, then one per count line.
   */
  function V4Counts(ls: seq<string>): (r: Option<seq<Count>>)
    ensures r.Some? ==>
              && |ls| >= 7 && ls[|ls| - 1] == ""
              && Match(InputLine, ls[0]).Some? && Match(FilteredLine, ls[2]).Some?
              && ls[3] == "" && ls[4] == ExclusiveHeader
              && |r.value| >= 2 && r.value[0].status == GeneratingStatus
              && GeneratedCount(ls[1]) == Some(r.value[0].number)
              && MapAll(CountOfLine, V4Body(ls)) == Some(r.value[1..])
  {
    if |ls| < 7 || ls[|ls| - 1] != "" then None
    else
      var gen := GeneratedCount(ls[1]);
      var counts := MapAll(CountOfLine, V4Body(ls));
      if Match(InputLine, ls[0]).None? || gen.None? || Match(FilteredLine, ls[2]).None?
         || ls[3] != "" || ls[4] != ExclusiveHeader || |V4Body(ls)| == 0 || counts.None?
      then None
      else
        var cs := [Count(GeneratingStatus, gen.value)] + counts.value;
        assert cs[1..] == counts.value;
        Some(cs)
  }

  /** `_report_to_stats_v4` over the report's lines. */
  function ParseV4(ls: seq<string>): (r: Option<seq<Row>>)
    ensures r.Some? <==> V4Counts(ls).Some?
    ensures r.Some? ==>
              && |r.value| == |V4Counts(ls).value|
              && forall i :: 0 <= i < |r.value| ==>
                   && Count(r.value[i].status, r.value[i].number) == V4Counts(ls).value[i]
                   && r.value[i].fraction == Share(r.value[i].number, SumNumbers(r.value))
  {
    match V4Counts(ls)
    case None => None
    case Some(cs) => Some(SharedRows(cs))
  }

  /** Each count with its share of the total count. */
  function SharedRows(cs: seq<Count>): (rows: seq<Row>)
    ensures |rows| == |cs|
    ensures forall i :: 0 <= i < |cs| ==>
              && Count(rows[i].status, rows[i].number) == cs[i]
              && rows[i].fraction == Share(rows[i].number, SumNumbers(rows))
  {
    var rows := Fractioned(cs, SumCounts(cs));
    FractionedNumbers(cs, SumCounts(cs));
    rows
  }

  /**
   * The first row is "ZMWs generating CCS" with the `(B)` count; then one row
   * per exclusive-count line, in file order.
   */
  lemma V4Rows(ls: seq<string>)
    requires ParseV4(ls).Some?
    ensures var rows := ParseV4(ls).value;
            && rows[0].status == GeneratingStatus && GeneratedCount(ls[1]) == Some(rows[0].number)
            && |rows| == |V4Body(ls)| + 1
            && forall i :: 1 <= i < |rows| ==>
                 CountOfLine(V4Body(ls)[i - 1]) == Some(Count(rows[i].status, rows[i].number))
  {
    var rows := ParseV4(ls).value;
    var cs := V4Counts(ls).value;
    var body := V4Body(ls);
    assert Count(rows[0].status, rows[0].number) == cs[0];
    forall i | 1 <= i < |rows|
      ensures CountOfLine(body[i - 1]) == Some(Count(rows[i].status, rows[i].number))
    {
      assert cs[1..][i - 1] == cs[i];
    }
  }

  lemma {:induction false} SharesSum(rows: seq<Row>, total: nat)
    requires total > 0
    requires forall i :: 0 <= i < |rows| ==> rows[i].fraction == rows[i].number as real / total as real
    ensures SumFractions(rows) == SumNumbers(rows) as real / total as real
  {
    if rows != [] {
      SharesSum(rows[1..], total);
      var a := rows[0].number as real;
      var b := SumNumbers(rows[1..]) as real;
      var t := total as real;
      DivAdd(a, b, t);
    }
  }

  lemma DivAdd(a: real, b: real, t: real)
    requires t > 0.0
    ensures a / t + b / t == (a + b) / t
  {
    var x := a / t;
    var y := b / t;
    assert x * t == a && y * t == b;
    assert (x + y) * t == a + b;
  }

  lemma DivSelf(t: real)
    requires t > 0.0
    ensures t / t == 1.0
  {
  }

  /** Rows whose fractions are their shares of the row total have fractions summing to one. */
  lemma SharesSumToOne(rows: seq<Row>)
    requires SumNumbers(rows) > 0
    requires forall i :: 0 <= i < |rows| ==> rows[i].fraction == Share(rows[i].number, SumNumbers(rows))
    ensures SumFractions(rows) == 1.0
  {
    var total := SumNumbers(rows);
    assert forall i :: 0 <= i < |rows| ==> rows[i].fraction == rows[i].number as real / total as real;
    SharesSum(rows, total);
    DivSelf(total as real);
  }

  /** The 4.x fractions are shares of the row total, so they add up to one. */
  lemma V4FractionsSumToOne(ls: seq<string>)
    requires ParseV4(ls).Some? && SumNumbers(ParseV4(ls).value) > 0
    ensures SumFractions(ParseV4(ls).value) == 1.0
  {
    SharesSumToOne(ParseV4(ls).value);
  }

  /**
   * The 4.x layout declared line by line: the three header lines, a blank
   * line, "Exclusive ZMW counts for (C):", the count lines `body`, then the
   * end of the text.
   */
  predicate V4Layout(ls: seq<string>, body: seq<string>)
  {
    && |ls| >= 5 + |body| && |body| >= 1
    && Match(InputLine, ls[0]).Some? && GeneratedCount(ls[1]).Some? && Match(FilteredLine, ls[2]).Some?
    && ls[3] == "" && ls[4] == ExclusiveHeader
    && ls[5..5 + |body|] == body && MapAll(CountOfLine, body).Some?
    && IsEnd(ls[5 + |body|..])
  }

  /** Every line list of the 4.x layout is read as its generated count and its count lines. */
  lemma V4Complete(ls: seq<string>, body: seq<string>)
    requires V4Layout(ls, body)
    ensures V4Counts(ls)
            == Some([Count(GeneratingStatus, GeneratedCount(ls[1]).value)] + MapAll(CountOfLine, body).value)
  {
    LastCountLine(body);
    V4BodyAt(ls, body);
    V4CountsOf(ls, body);
  }

  lemma TextEnd(rest: seq<string>)
    requires IsEnd(rest)
    ensures |rest| >= 1 && rest[|rest| - 1] == ""
  {
  }

  lemma LastCountLine(body: seq<string>)
    requires |body| >= 1 && MapAll(CountOfLine, body).Some?
    ensures body[|body| - 1] != ""
  {
    assert CountOfLine(body[|body| - 1]).Some?;
    assert Match(CountLine, body[|body| - 1]).Some?;
  }

  lemma V4BodyAt(ls: seq<string>, body: seq<string>)
    requires |body| >= 1 && body[|body| - 1] != ""
    requires |ls| >= 5 + |body| && ls[5..5 + |body|] == body && IsEnd(ls[5 + |body|..])
    ensures |ls| >= 7 && ls[|ls| - 1] == "" && V4Body(ls) == body
  {
    assert ls[5 + |body| - 1] == body[|body| - 1];
    TextEnd(ls[5 + |body|..]);
    assert ls[|ls| - 1] == ls[5 + |body|..][|ls| - 5 - |body| - 1];
  }

  lemma V4CountsOf(ls: seq<string>, body: seq<string>)
    requires |ls| >= 7 && ls[|ls| - 1] == "" && V4Body(ls) == body
    requires Match(InputLine, ls[0]).Some? && GeneratedCount(ls[1]).Some? && Match(FilteredLine, ls[2]).Some?
    requires ls[3] == "" && ls[4] == ExclusiveHeader
    requires |body| >= 1 && MapAll(CountOfLine, body).Some?
    ensures V4Counts(ls)
            == Some([Count(GeneratingStatus, GeneratedCount(ls[1]).value)] + MapAll(CountOfLine, body).value)
  {
  }

  /** The count lines sit between the header block and the end of the text. */
  lemma V4BodySlices(ls: seq<string>)
    requires |ls| >= 7 && ls[|ls| - 1] == ""
    ensures |ls| >= 5 + |V4Body(ls)| && ls[5..5 + |V4Body(ls)|] == V4Body(ls)
    ensures IsEnd(ls[5 + |V4Body(ls)|..])
  {
    if ls[|ls| - 2] == "" {
      assert ls[|ls| - 2..] == ["", ""];
    } else {
      assert ls[|ls| - 1..] == [""];
    }
  }

  /** A line list the 4.x recogniser accepts has the 4.x layout, with its count lines as body. */
  lemma V4Sound(ls: seq<string>)
    requires V4Counts(ls).Some?
    ensures V4Layout(ls, V4Body(ls))
  {
    V4BodySlices(ls);
  }

  /** The 4.x recogniser accepts exactly the line lists of the 4.x layout. */
  lemma V4Accepts(ls: seq<string>)
    ensures V4Counts(ls).Some? <==> exists body :: V4Layout(ls, body)
  {
    if V4Counts(ls).Some? {
      V4Sound(ls);
    }
    if exists body :: V4Layout(ls, body) {
      var body :| V4Layout(ls, body);
      V4Complete(ls, body);
    }
  }

  // ---------------------------------------------------------------------
  // The ccs 3.x layout.

  /** Length of the leading run of non-empty lines. */
  function NonEmptyRun(ls: seq<string>): (n: nat)
    ensures n <= |ls|
    ensures forall i :: 0 <= i < n ==> ls[i] != ""
    ensures n == |ls| || ls[n] == ""
  {
    if ls != [] && ls[0] != "" then 1 + NonEmptyRun(ls[1..]) else 0
  }

  /** The end of the text: the empty line after the final '\n', possibly one more. */
  predicate IsEnd(rest: seq<string>)
  {
    rest == [""] || rest == ["", ""]
  }

  /** "Subread Yield", at least one non-empty line, then the end of the text. */
  predicate SubreadBlock(rest: seq<string>)
  {
    |rest| >= 1 && rest[0] == SubreadYieldHeader
    && var m := NonEmptyRun(rest[1..]); m >= 1 && IsEnd(rest[1 + m..])
  }

  /**
   * Lines: "ZMW Yield", at least one non-empty line (the ZMW block), two
   * empty lines, then the end of the text or a "Subread Yield" block. The
   * result is the ZMW block; the Subread block is not read.
   */
  function V3ZmwLines(ls: seq<string>): (r: Option<seq<string>>)
    ensures r.Some? ==>
              && |r.value| >= 1 && |ls| >= |r.value| + 3
              && ls == [ZmwYieldHeader] + r.value + ["", ""] + ls[|r.value| + 3..]
              && (forall i :: 0 <= i < |r.value| ==> r.value[i] != "")
              && (IsEnd(ls[|r.value| + 3..]) || SubreadBlock(ls[|r.value| + 3..]))
  {
    if |ls| == 0 || ls[0] != ZmwYieldHeader then None
    else
      var n := NonEmptyRun(ls[1..]);
      if n == 0 || |ls| < n + 3 || ls[n + 2] != "" then None
      else
        var rest := ls[n + 3..];
        if IsEnd(rest) || SubreadBlock(rest) then
          V3BlockSplit(ls, n);
          Some(ls[1..n + 1])
        else None
  }

  /** The header, the run of `n` non-empty lines after it, two empty lines and the rest. */
  lemma V3BlockSplit(ls: seq<string>, n: nat)
    requires |ls| >= n + 3 && ls[0] == ZmwYieldHeader && ls[n + 1] == "" && ls[n + 2] == ""
    requires forall i :: 0 <= i < n ==> ls[1..][i] != ""
    ensures ls == [ZmwYieldHeader] + ls[1..n + 1] + ["", ""] + ls[n + 3..]
    ensures forall i :: 1 <= i < n + 1 ==> ls[i] != ""
  {
    assert forall i :: 1 <= i < n + 1 ==> ls[i] == ls[1..][i - 1];
  }

  /** Every line list of the 3.x layout is recognised, with its ZMW block. */
  lemma V3Complete(zmw: seq<string>, rest: seq<string>)
    requires |zmw| >= 1 && forall i :: 0 <= i < |zmw| ==> zmw[i] != ""
    requires IsEnd(rest) || SubreadBlock(rest)
    ensures V3ZmwLines([ZmwYieldHeader] + zmw + ["", ""] + rest) == Some(zmw)
  {
    V3Slices(zmw, rest);
  }

  /** The pieces of a 3.x line list, as the recogniser takes them apart. */
  lemma V3Slices(zmw: seq<string>, rest: seq<string>)
    requires |zmw| >= 1 && forall i :: 0 <= i < |zmw| ==> zmw[i] != ""
    ensures var ls := [ZmwYieldHeader] + zmw + ["", ""] + rest;
            && |ls| >= |zmw| + 3 && ls[0] == ZmwYieldHeader
            && NonEmptyRun(ls[1..]) == |zmw| && ls[|zmw| + 2] == ""
            && ls[|zmw| + 3..] == rest && ls[1..|zmw| + 1] == zmw
  {
    var ls := [ZmwYieldHeader] + zmw + ["", ""] + rest;
    assert ls[1..] == zmw + (["", ""] + rest);
    NonEmptyRunPrefix(zmw, ["", ""] + rest);
    assert ls[|zmw| + 3..] == rest;
    assert ls[1..|zmw| + 1] == zmw;
  }

  lemma {:induction false} NonEmptyRunPrefix(a: seq<string>, b: seq<string>)
    requires forall i :: 0 <= i < |a| ==> a[i] != ""
    requires |b| >= 1 && b[0] == ""
    ensures NonEmptyRun(a + b) == |a|
  {
    if a != [] {
      assert (a + b)[1..] == a[1..] + b;
      NonEmptyRunPrefix(a[1..], b);
    } else {
      assert a + b == b;
    }
  }

  lemma YieldLinePieces(line: string, ps: seq<string>)
    requires |ps| == |YieldLine| && Concat(ps) == line
    requires forall i :: 0 <= i < |YieldLine| ==> Fits(YieldLine[i], ps[i])
    ensures line == ps[0] + "," + ps[2] + "," + ps[4] + "%"
    ensures Fits(Run(NoCommas), ps[0]) && Fits(Run(Digits), ps[2]) && Fits(Run(DecimalChars), ps[4])
  {
    assert Fits(YieldLine[1], ps[1]) && Fits(YieldLine[3], ps[3]) && Fits(YieldLine[5], ps[5]);
    assert Fits(YieldLine[0], ps[0]) && Fits(YieldLine[2], ps[2]) && Fits(YieldLine[4], ps[4]);
    Concat6(ps);
  }

  /**
   * One row of the ZMW block, `status,number,percent%`: the status as
   * written, the number the value of its digits, the fraction the
   * percentage (the text before the final '%') divided by 100.
   */
  function YieldRowOf(line: string): Option<Row>
  {
    match Match(YieldLine, line)
    case None => None
    case Some(ps) =>
      match PercentFraction(ps[4])
      case None => None
      case Some(f) => Some(Row(ps[0], DigitsValue(ps[2]), f))
  }

  /** A line read as a row is `status,digits,decimal%`, read as the status, the digits' value and the percentage over 100. */
  lemma YieldRowShape(line: string)
    requires YieldRowOf(line).Some?
    ensures exists status, d, p :: YieldRowAt(line, status, d, p, YieldRowOf(line).value)
  {
    var ps := Match(YieldLine, line).value;
    YieldLinePieces(line, ps);
    assert YieldRowAt(line, ps[0], ps[2], ps[4], YieldRowOf(line).value);
  }

  /** `line` is `status,d,p%` and `r` is the status, the digits' value and the percentage over 100. */
  predicate YieldRowAt(line: string, status: string, d: string, p: string, r: Row)
  {
    && line == status + "," + d + "," + p + "%"
    && Fits(Run(NoCommas), status) && Fits(Run(Digits), d)
    && Fits(Run(DecimalChars), p) && DecimalValue(p).Some?
    && r == Row(status, DigitsValue(d), DecimalValue(p).value / 100.0)
  }

  /** A percentage as a fraction: the decimal's value over 100. */
  function PercentFraction(p: string): (r: Option<real>)
    ensures r.Some? <==> DecimalValue(p).Some?
    ensures r.Some? ==> r.value == DecimalValue(p).value / 100.0
  {
    match DecimalValue(p)
    case None => None
    case Some(v) => Some(v / 100.0)
  }

  /** A percentage written `w.f`, with digit parts not both empty, is the number `w.f` over 100. */
  lemma PercentOfPoint(w: string, f: string)
    requires AllDigits(w) && AllDigits(f) && |w| + |f| > 0
    ensures DecimalOfParts(w, f).Some?
    ensures PercentFraction(w + "." + f) == Some(DecimalOfParts(w, f).value / 100.0)
  {
    PartsValue(w, f);
    PointRead(w, f, DecimalOfParts(w, f).value);
  }

  /** Every `status,digits,decimal%` line is read as that row. */
  lemma YieldRowComplete(status: string, d: string, p: string)
    requires Fits(Run(NoCommas), status) && Fits(Run(Digits), d) && Fits(Run(DecimalChars), p)
    requires DecimalValue(p).Some?
    ensures YieldRowOf(status + "," + d + "," + p + "%")
            == Some(Row(status, DigitsValue(d), PercentFraction(p).value))
  {
    var ps := [status, ",", d, ",", p, "%"];
    var line := status + "," + d + "," + p + "%";
    YieldLineSeparated();
    Concat6(ps);
    assert Concat(ps) == line;
    assert forall i :: 0 <= i < |YieldLine| ==> Fits(YieldLine[i], ps[i]) by {
      assert Fits(YieldLine[0], ps[0]) && Fits(YieldLine[2], ps[2]) && Fits(YieldLine[4], ps[4]);
      assert Fits(YieldLine[1], ps[1]) && Fits(YieldLine[3], ps[3]) && Fits(YieldLine[5], ps[5]);
    }
    MatchComplete(YieldLine, ps);
    assert Match(YieldLine, line) == Some(ps);
  }

  /** Every `tag: digits tail` line is read as the trimmed tag and the digits' value. */
  lemma CountLineComplete(tag: string, d: string, tail: string)
    requires Fits(Run(LabelChars), tag) && Fits(Run(Digits), d) && Fits(Run(NonSpaces), tail)
    ensures CountOfLine(tag + ": " + d + " " + tail) == Some(Count(Trim(tag), DigitsValue(d)))
  {
    var ps := [tag, ": ", d, " ", tail];
    CountLineSeparated();
    Concat5(ps);
    MatchComplete(CountLine, ps);
  }

  // ---------------------------------------------------------------------
  // The report.

  /**
   * `report_to_stats`: the 4.x layout is tried first; the 3.x layout decides
   * otherwise, its rows being the ZMW block's lines read one by one; when
   * neither layout matches the report is an `UnmatchedReport` error.
   */
  function ReportToStats(text: string): (r: Result<seq<Row>, ReportError>)
    ensures r.Success? ==> |r.value| >= 1
    ensures ParseV4(SplitLines(text)).Some? ==> r == Success(ParseV4(SplitLines(text)).value)
    ensures V3ZmwLines(SplitLines(text)).Some? ==> r == V3Rows(V3ZmwLines(SplitLines(text)).value)
    ensures r == Failure(UnmatchedReport)
            <==> ParseV4(SplitLines(text)).None? && V3ZmwLines(SplitLines(text)).None?
  {
    LayoutsExclusive(SplitLines(text));
    ParseReport(SplitLines(text))
  }

  /** The report's lines read by the first layout that matches them. */
  function ParseReport(ls: seq<string>): (r: Result<seq<Row>, ReportError>)
    ensures r.Success? ==> |r.value| >= 1
  {
    match ParseV4(ls)
    case Some(rows) => Success(rows)
    case None =>
      match V3ZmwLines(ls)
      case None => Failure(UnmatchedReport)
      case Some(zmw) => V3Rows(zmw)
  }

  /** The rows of a ZMW block, or `MalformedYieldRow` if a line is not a row. */
  function V3Rows(zmw: seq<string>): (r: Result<seq<Row>, ReportError>)
    ensures r.Success? <==> forall i :: 0 <= i < |zmw| ==> YieldRowOf(zmw[i]).Some?
    ensures r.Success? ==> |r.value| == |zmw| && forall i :: 0 <= i < |zmw| ==> YieldRowOf(zmw[i]) == Some(r.value[i])
    ensures r.Failure? ==> r.error == MalformedYieldRow
  {
    match MapAll(YieldRowOf, zmw)
    case None => Failure(MalformedYieldRow)
    case Some(rows) => Success(rows)
  }

  /** No line list has both layouts: their first lines differ. */
  lemma LayoutsExclusive(ls: seq<string>)
    ensures !(ParseV4(ls).Some? && V3ZmwLines(ls).Some?)
  {
    if ParseV4(ls).Some? {
      var ps := Match(InputLine, ls[0]).value;
      assert Fits(InputLine[0], ps[0]);
      assert Concat(ps) == ps[0] + Concat(ps[1..]);
      assert |ls[0]| >= 10;
    }
  }

  lemma NoBreaks3(a: seq<string>, b: seq<string>, c: seq<string>)
    requires forall i :: 0 <= i < |a| ==> '\n' !in a[i]
    requires forall i :: 0 <= i < |b| ==> '\n' !in b[i]
    requires forall i :: 0 <= i < |c| ==> '\n' !in c[i]
    ensures forall i :: 0 <= i < |a + b + c| ==> '\n' !in (a + b + c)[i]
  {
    forall i | 0 <= i < |a + b + c| ensures '\n' !in (a + b + c)[i] {
      if i < |a| {
        assert (a + b + c)[i] == a[i];
      } else if i < |a| + |b| {
        assert (a + b + c)[i] == b[i - |a|];
      } else {
        assert (a + b + c)[i] == c[i - |a| - |b|];
      }
    }
  }

  /** Lines of the 3.x layout are read as the rows of their ZMW block. */
  lemma V3Lines(zmw: seq<string>, rest: seq<string>)
    requires |zmw| >= 1 && forall i :: 0 <= i < |zmw| ==> zmw[i] != ""
    requires IsEnd(rest) || SubreadBlock(rest)
    ensures ParseReport([ZmwYieldHeader] + zmw + ["", ""] + rest) == V3Rows(zmw)
  {
    V3Complete(zmw, rest);
    LayoutsExclusive([ZmwYieldHeader] + zmw + ["", ""] + rest);
  }

  /** A report text of the 3.x layout yields the rows of its ZMW block. */
  lemma V3Text(zmw: seq<string>, rest: seq<string>)
    requires |zmw| >= 1 && forall i :: 0 <= i < |zmw| ==> zmw[i] != "" && '\n' !in zmw[i]
    requires IsEnd(rest) || SubreadBlock(rest)
    requires forall i :: 0 <= i < |rest| ==> '\n' !in rest[i]
    ensures ReportToStats(JoinLines([ZmwYieldHeader] + zmw + ["", ""] + rest)) == V3Rows(zmw)
  {
    var ls := [ZmwYieldHeader] + zmw + ["", ""] + rest;
    NoBreaks3([ZmwYieldHeader] + zmw, ["", ""], rest);
    assert ls == ([ZmwYieldHeader] + zmw) + ["", ""] + rest;
    SplitJoinLines(ls);
    V3Lines(zmw, rest);
  }

  lemma V3IgnoresSubread(zmw: seq<string>, subread: seq<string>)
    requires |zmw| >= 1 && forall i :: 0 <= i < |zmw| ==> zmw[i] != "" && '\n' !in zmw[i]
    requires |subread| >= 1 && forall i :: 0 <= i < |subread| ==> subread[i] != "" && '\n' !in subread[i]
    ensures ReportToStats(JoinLines([ZmwYieldHeader] + zmw + ["", ""] + ([SubreadYieldHeader] + subread + [""])))
            == ReportToStats(JoinLines([ZmwYieldHeader] + zmw + ["", ""] + [""]))
  {
    var rest := [SubreadYieldHeader] + subread + [""];
    SubreadBlockOf(subread);
    NoBreaks3([SubreadYieldHeader], subread, [""]);
    V3Text(zmw, rest);
    V3Text(zmw, [""]);
  }

  lemma SubreadBlockOf(subread: seq<string>)
    requires |subread| >= 1 && forall i :: 0 <= i < |subread| ==> subread[i] != ""
    ensures SubreadBlock([SubreadYieldHeader] + subread + [""])
  {
    var rest := [SubreadYieldHeader] + subread + [""];
    assert rest[1..] == subread + [""];
    NonEmptyRunPrefix(subread, [""]);
    assert rest[1 + |subread|..] == [""];
  }
}
