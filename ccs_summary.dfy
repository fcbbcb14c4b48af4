/**
 * Summaries of `ccs` runs: a `Summary` per run joins the per-read
 * statistics of its FASTQ file with the ZMW statistics of its report and
 * checks that the two agree on the number of CCSs; `Summaries` validates a
 * table of runs and builds one `Summary` per row, in row order.
 */
module CcsSummary {
  import opened Wrappers
  import opened Text
  import opened CcsReport
  import opened CcsReads

  /**
   * The files the runs name: each FASTQ file as the records it holds, each
   * report file as its text. A name that is not a key is a file that does
   * not exist.
   */
  datatype Files = Files(fastq: map<string, seq<Read>>, reports: map<string, string>)

  /** One `ccs` run; `zmwStats` is `None` exactly when the run has no report. */
  datatype Summary = Summary(name: string, fastqfile: string, reportfile: Option<string>,
                             zmwStats: Option<seq<Row>>, passes: Option<seq<nat>>,
                             accuracy: seq<real>, length: seq<nat>)

  datatype SummaryError =
    | MissingFastq(fastqfile: string)
    | MissingReport(reportfile: string)
    | BadReport(reportfile: string, error: ReportError)
    | CcsCountMismatch(ccsCount: nat, successes: nat)
    | RepeatedColumns
    | MissingColumn(column: string)
    | DuplicateNames
    | BadCpuCount(ncpus: int)
    | InvalidVariable(variable: string)
    | NoStat(variable: string)
    | NoZmwStats
    | NothingToConcatenate

  const SuccessPrefix := "Success"

  /** A report or column argument that Python treats as true: given and not empty. */
  predicate Given(o: Option<string>)
  {
    o.Some? && o.value != ""
  }

  /** The summed number of the rows whose status starts with "Success". */
  function SuccessCount(rows: seq<Row>): nat
  {
    if rows == [] then 0
    else (if StartsWith(rows[0].status, SuccessPrefix) then rows[0].number else 0)
         + SuccessCount(rows[1..])
  }

  /** What every constructed `Summary` satisfies. */
  predicate ValidSummary(s: Summary)
  {
    && |s.accuracy| == |s.length|
    && (s.passes.Some? ==> |s.passes.value| == |s.length|)
    && (s.zmwStats.Some? <==> s.reportfile.Some?)
    && (s.zmwStats.Some? ==> SuccessCount(s.zmwStats.value) == |s.length|)
  }

  /**
   * `Summary(name, fastqfile, reportfile)`: the FASTQ file must exist; when
   * a report is given it must exist, parse, and count as many successful
   * ZMWs as the FASTQ file has records.
   */
  function NewSummary(files: Files, name: string, fastqfile: string, reportfile: Option<string>)
    : (r: Result<Summary, SummaryError>)
    ensures fastqfile !in files.fastq ==> r == Failure(MissingFastq(fastqfile))
    ensures fastqfile in files.fastq && Given(reportfile) && reportfile.value !in files.reports ==>
              r == Failure(MissingReport(reportfile.value))
    ensures r.Success? <==>
              && fastqfile in files.fastq
              && (Given(reportfile) ==>
                    && reportfile.value in files.reports
                    && ReportToStats(files.reports[reportfile.value]).Success?
                    && |files.fastq[fastqfile]|
                       == SuccessCount(ReportToStats(files.reports[reportfile.value]).value))
    ensures r.Success? ==>
              && ValidSummary(r.value)
              && r.value.name == name && r.value.fastqfile == fastqfile
              && var stats := CcsStatsOf(files.fastq[fastqfile], DefaultPassTag);
                 && r.value.passes == stats.passes
                 && r.value.accuracy == stats.accuracy
                 && r.value.length == stats.length
                 && (Given(reportfile) ==>
                       && r.value.reportfile == reportfile
                       && r.value.zmwStats == Some(ReportToStats(files.reports[reportfile.value]).value))
                 && (!Given(reportfile) ==> r.value.reportfile.None? && r.value.zmwStats.None?)
    ensures (r.Failure? && fastqfile in files.fastq && Given(reportfile)
             && reportfile.value in files.reports) ==>
              match ReportToStats(files.reports[reportfile.value])
              case Failure(e) => r.error == BadReport(reportfile.value, e)
              case Success(rows) =>
                r.error == CcsCountMismatch(|files.fastq[fastqfile]|, SuccessCount(rows))
  {
    if fastqfile !in files.fastq then Failure(MissingFastq(fastqfile))
    else
      var records := files.fastq[fastqfile];
      var stats := CcsStatsOf(records, DefaultPassTag);
      StatsPerRead(records, DefaultPassTag);
      if Given(reportfile) then
        var rf := reportfile.value;
        if rf !in files.reports then Failure(MissingReport(rf))
        else
          match ReportToStats(files.reports[rf])
          case Failure(e) => Failure(BadReport(rf, e))
          case Success(rows) =>
            if |stats.length| != SuccessCount(rows) then
              Failure(CcsCountMismatch(|stats.length|, SuccessCount(rows)))
            else
              Success(Summary(name, fastqfile, reportfile, Some(rows), stats.passes,
                              stats.accuracy, stats.length))
      else
        Success(Summary(name, fastqfile, None, None, stats.passes, stats.accuracy, stats.length))
  }

  /**
   * In the 4.x layout no status starts with "Success" unless an
   * exclusive-count label does ("ZMWs generating CCS" does not), so such a
   * report counts no CCSs and is rejected beside any FASTQ file with reads.
   */
  lemma V4ReportRejected(files: Files, name: string, fastqfile: string, reportfile: string)
    requires fastqfile in files.fastq && |files.fastq[fastqfile]| > 0
    requires reportfile != "" && reportfile in files.reports
    requires ParseV4(SplitLines(files.reports[reportfile])).Some?
    requires forall i :: 0 <= i < |ParseV4(SplitLines(files.reports[reportfile])).value| ==>
               !StartsWith(ParseV4(SplitLines(files.reports[reportfile])).value[i].status, SuccessPrefix)
    ensures NewSummary(files, name, fastqfile, Some(reportfile))
            == Failure(CcsCountMismatch(|files.fastq[fastqfile]|, 0))
  {
    NoSuccessCountsZero(ParseV4(SplitLines(files.reports[reportfile])).value);
  }

  lemma {:induction false} NoSuccessCountsZero(rows: seq<Row>)
    requires forall i :: 0 <= i < |rows| ==> !StartsWith(rows[i].status, SuccessPrefix)
    ensures SuccessCount(rows) == 0
  {
    if rows != [] {
      assert !StartsWith(rows[0].status, SuccessPrefix);
      NoSuccessCountsZero(rows[1..]);
    }
  }

  /** The "ZMWs generating CCS" row of a 4.x report is not a success row. */
  lemma GeneratingIsNotSuccess()
    ensures !StartsWith(GeneratingStatus, SuccessPrefix)
  {
    assert GeneratingStatus[0] != SuccessPrefix[0];
  }

  // ---------------------------------------------------------------------
  // Summaries.

  /**
   * A data frame of runs: its columns by name, each `nrows` long. A data
   * frame is rectangular by construction.
   */
  datatype Table = Table(nrows: nat, columns: map<string, seq<string>>)

  predicate Rectangular(df: Table)
  {
    forall c :: c in df.columns ==> |df.columns[c]| == df.nrows
  }

  datatype Summaries = Summaries(summaries: seq<Summary>)

  /** Run names are unique and every summary is valid. */
  predicate Valid(ss: Summaries)
  {
    && (forall i, j :: 0 <= i < j < |ss.summaries| ==> ss.summaries[i].name != ss.summaries[j].name)
    && (forall i :: 0 <= i < |ss.summaries| ==> ValidSummary(ss.summaries[i]))
  }

  /** The columns `Summaries` reads: name, FASTQ, and the report column when given. */
  function ColumnsUsed(nameCol: string, fastqCol: string, reportCol: Option<string>): seq<string>
  {
    [nameCol, fastqCol] + (if Given(reportCol) then [reportCol.value] else [])
  }

  /** The first of `cols` that the table lacks. */
  function FirstMissing(cols: seq<string>, df: Table): (r: Option<string>)
    ensures r.None? <==> forall i :: 0 <= i < |cols| ==> cols[i] in df.columns
    ensures r.Some? ==> r.value in cols && r.value !in df.columns
  {
    if cols == [] then None
    else if cols[0] !in df.columns then Some(cols[0])
    else FirstMissing(cols[1..], df)
  }

  /** The CPU count in use: all when `ncpus` is -1, else at most the machine's count. */
  function CpusUsed(ncpus: int, cpuCount: int): int
  {
    if ncpus == -1 then cpuCount else if cpuCount <= ncpus then cpuCount else ncpus
  }

  /** The `Summary` of every row, in row order, or the first row's error. */
  function RunSummaries(files: Files, names: seq<string>, fastqs: seq<string>,
                        reports: seq<Option<string>>): (r: Result<seq<Summary>, SummaryError>)
    requires |fastqs| == |names| && |reports| == |names|
    ensures r.Success? <==>
              forall i :: 0 <= i < |names| ==> NewSummary(files, names[i], fastqs[i], reports[i]).Success?
    ensures r.Success? ==>
              && |r.value| == |names|
              && forall i :: 0 <= i < |names| ==>
                   r.value[i] == NewSummary(files, names[i], fastqs[i], reports[i]).value
    ensures r.Failure? ==> exists i: nat :: FailsFirstAt(files, names, fastqs, reports, i, r.error)
  {
    if names == [] then Success([])
    else
      match NewSummary(files, names[0], fastqs[0], reports[0])
      case Failure(e) =>
        assert FailsFirstAt(files, names, fastqs, reports, 0, e);
        Failure(e)
      case Success(s) =>
        match RunSummaries(files, names[1..], fastqs[1..], reports[1..])
        case Failure(e) =>
          var i: nat :| FailsFirstAt(files, names[1..], fastqs[1..], reports[1..], i, e);
          FailsFirstShift(files, names, fastqs, reports, i, e);
          Failure(e)
        case Success(rest) => Success([s] + rest)
  }

  /** Row `i` is the first whose `Summary` fails, and it fails with `e`. */
  predicate FailsFirstAt(files: Files, names: seq<string>, fastqs: seq<string>,
                         reports: seq<Option<string>>, i: nat, e: SummaryError)
  {
    && i < |names| && i < |fastqs| && i < |reports|
    && NewSummary(files, names[i], fastqs[i], reports[i]) == Failure(e)
    && forall j :: 0 <= j < i ==> NewSummary(files, names[j], fastqs[j], reports[j]).Success?
  }

  lemma FailsFirstShift(files: Files, names: seq<string>, fastqs: seq<string>,
                        reports: seq<Option<string>>, i: nat, e: SummaryError)
    requires names != [] && |fastqs| == |names| && |reports| == |names|
    requires NewSummary(files, names[0], fastqs[0], reports[0]).Success?
    requires FailsFirstAt(files, names[1..], fastqs[1..], reports[1..], i, e)
    ensures FailsFirstAt(files, names, fastqs, reports, i + 1, e)
  {
    forall j | 0 <= j < i + 1 ensures NewSummary(files, names[j], fastqs[j], reports[j]).Success? {
      if j > 0 {
        assert names[j] == names[1..][j - 1] && fastqs[j] == fastqs[1..][j - 1] && reports[j] == reports[1..][j - 1];
      }
    }
  }

  /**
   * `Summaries(df, name_col=…, fastq_col=…, report_col=…, ncpus=…)`, with
   * `cpuCount` the number of CPUs of the machine. The checks come in the
   * source's order: repeated columns, a missing column, repeated run names,
   * the CPU count; then every run is summarised.
   */
  function NewSummaries(files: Files, df: Table, nameCol: string, fastqCol: string,
                        reportCol: Option<string>, ncpus: int, cpuCount: int)
    : (r: Result<Summaries, SummaryError>)
    requires Rectangular(df)
    ensures !Distinct(ColumnsUsed(nameCol, fastqCol, reportCol)) ==> r == Failure(RepeatedColumns)
    ensures (Distinct(ColumnsUsed(nameCol, fastqCol, reportCol))
             && FirstMissing(ColumnsUsed(nameCol, fastqCol, reportCol), df).Some?) ==>
              r == Failure(MissingColumn(FirstMissing(ColumnsUsed(nameCol, fastqCol, reportCol), df).value))
    ensures r.Success? ==>
              && Distinct(ColumnsUsed(nameCol, fastqCol, reportCol))
              && (forall c :: c in ColumnsUsed(nameCol, fastqCol, reportCol) ==> c in df.columns)
              && Distinct(df.columns[nameCol])
              && CpusUsed(ncpus, cpuCount) >= 1
              && Valid(r.value)
              && |r.value.summaries| == df.nrows
              && forall i :: 0 <= i < df.nrows ==>
                   Success(r.value.summaries[i])
                   == NewSummary(files, df.columns[nameCol][i], df.columns[fastqCol][i],
                                 if Given(reportCol) then Some(df.columns[reportCol.value][i]) else None)
    ensures (Distinct(ColumnsUsed(nameCol, fastqCol, reportCol))
             && FirstMissing(ColumnsUsed(nameCol, fastqCol, reportCol), df).None?
             && !Distinct(df.columns[nameCol])) ==> r == Failure(DuplicateNames)
    ensures (Distinct(ColumnsUsed(nameCol, fastqCol, reportCol))
             && FirstMissing(ColumnsUsed(nameCol, fastqCol, reportCol), df).None?
             && Distinct(df.columns[nameCol]) && CpusUsed(ncpus, cpuCount) < 1) ==>
              r == Failure(BadCpuCount(CpusUsed(ncpus, cpuCount)))
    ensures PassesChecks(df, nameCol, fastqCol, reportCol, ncpus, cpuCount) ==>
              && (r.Success? <==> EveryRowSummarises(files, df, nameCol, fastqCol, reportCol))
              && (r.Failure? ==> FirstRowError(files, df, nameCol, fastqCol, reportCol, r.error))
  {
    var cols := ColumnsUsed(nameCol, fastqCol, reportCol);
    if !Distinct(cols) then Failure(RepeatedColumns)
    else
      match FirstMissing(cols, df)
      case Some(c) => Failure(MissingColumn(c))
      case None =>
        assert cols[0] == nameCol && cols[1] == fastqCol;
        assert Given(reportCol) ==> cols[2] == reportCol.value;
        var names := df.columns[nameCol];
        if !Distinct(names) then Failure(DuplicateNames)
        else
          var n := CpusUsed(ncpus, cpuCount);
          if n < 1 then Failure(BadCpuCount(n))
          else SummariesOfRows(files, df, nameCol, fastqCol, reportCol)
  }

  /**
   * The table passes every check `Summaries` makes before summarising:
   * distinct column names, all of them present, unique run names and at
   * least one CPU.
   */
  predicate PassesChecks(df: Table, nameCol: string, fastqCol: string, reportCol: Option<string>,
                         ncpus: int, cpuCount: int)
  {
    && Distinct(ColumnsUsed(nameCol, fastqCol, reportCol))
    && FirstMissing(ColumnsUsed(nameCol, fastqCol, reportCol), df).None?
    && nameCol in df.columns && fastqCol in df.columns
    && (Given(reportCol) ==> reportCol.value in df.columns)
    && Distinct(df.columns[nameCol])
    && CpusUsed(ncpus, cpuCount) >= 1
  }

  /** The report argument of every row: the report column's entry, or none without a report column. */
  function RowReports(df: Table, reportCol: Option<string>): (rs: seq<Option<string>>)
    requires Rectangular(df) && (Given(reportCol) ==> reportCol.value in df.columns)
    ensures |rs| == df.nrows
    ensures forall i :: 0 <= i < df.nrows ==>
              rs[i] == if Given(reportCol) then Some(df.columns[reportCol.value][i]) else None
  {
    seq(df.nrows, i requires 0 <= i < df.nrows =>
          if Given(reportCol) then Some(df.columns[reportCol.value][i]) else None)
  }

  /** Every row's `Summary` succeeds. */
  predicate EveryRowSummarises(files: Files, df: Table, nameCol: string, fastqCol: string, reportCol: Option<string>)
    requires Rectangular(df) && nameCol in df.columns && fastqCol in df.columns
    requires Given(reportCol) ==> reportCol.value in df.columns
  {
    forall i :: 0 <= i < df.nrows ==>
      NewSummary(files, df.columns[nameCol][i], df.columns[fastqCol][i], RowReports(df, reportCol)[i]).Success?
  }

  /** `e` is the error of the first row whose `Summary` fails. */
  ghost predicate FirstRowError(files: Files, df: Table, nameCol: string, fastqCol: string,
                                reportCol: Option<string>, e: SummaryError)
    requires Rectangular(df) && nameCol in df.columns && fastqCol in df.columns
    requires Given(reportCol) ==> reportCol.value in df.columns
  {
    exists i: nat :: FailsFirstAt(files, df.columns[nameCol], df.columns[fastqCol], RowReports(df, reportCol), i, e)
  }

  /** The `Summary` of every row of a table whose columns are present and whose run names are unique. */
  function SummariesOfRows(files: Files, df: Table, nameCol: string, fastqCol: string, reportCol: Option<string>)
    : (r: Result<Summaries, SummaryError>)
    requires Rectangular(df) && nameCol in df.columns && fastqCol in df.columns
    requires Given(reportCol) ==> reportCol.value in df.columns
    requires Distinct(df.columns[nameCol])
    ensures r.Success? <==> EveryRowSummarises(files, df, nameCol, fastqCol, reportCol)
    ensures r.Failure? ==> FirstRowError(files, df, nameCol, fastqCol, reportCol, r.error)
    ensures r.Success? ==>
              && Valid(r.value)
              && |r.value.summaries| == df.nrows
              && forall i :: 0 <= i < df.nrows ==>
                   Success(r.value.summaries[i])
                   == NewSummary(files, df.columns[nameCol][i], df.columns[fastqCol][i],
                                 if Given(reportCol) then Some(df.columns[reportCol.value][i]) else None)
  {
    var names := df.columns[nameCol];
    var reports := RowReports(df, reportCol);
    match RunSummaries(files, names, df.columns[fastqCol], reports)
    case Failure(e) => Failure(e)
    case Success(ss) =>
      assert forall i :: 0 <= i < |ss| ==> ss[i].name == names[i];
      Success(Summaries(ss))
  }

  // ---------------------------------------------------------------------
  // Per-read statistics of all runs.

  datatype Stat = Length | Passes | Accuracy

  /** The variables `has_stat` and `ccs_stats` accept. */
  function StatNamed(variable: string): (r: Option<Stat>)
    ensures r.Some? <==> variable in {"length", "passes", "accuracy"}
  {
    if variable == "length" then Some(Length)
    else if variable == "passes" then Some(Passes)
    else if variable == "accuracy" then Some(Accuracy)
    else None
  }

  /** A run's values of a statistic, as numbers, or `None` when the run lacks it. */
  function StatValues(s: Summary, stat: Stat): Option<seq<real>>
  {
    match stat
    case Length => Some(seq(|s.length|, k requires 0 <= k < |s.length| => s.length[k] as real))
    case Accuracy => Some(s.accuracy)
    case Passes =>
      match s.passes
      case None => None
      case Some(p) => Some(seq(|p|, k requires 0 <= k < |p| => p[k] as real))
  }

  /** `has_stat(variable)`: an unknown variable is an error; else whether every run has it. */
  function HasStat(ss: Summaries, variable: string): (r: Result<bool, SummaryError>)
    ensures StatNamed(variable).None? <==> r == Failure(InvalidVariable(variable))
    ensures r.Success? ==>
              (r.value <==> forall i :: 0 <= i < |ss.summaries| ==>
                              StatValues(ss.summaries[i], StatNamed(variable).value).Some?)
  {
    match StatNamed(variable)
    case None => Failure(InvalidVariable(variable))
    case Some(stat) =>
      Success(forall i :: 0 <= i < |ss.summaries| ==> StatValues(ss.summaries[i], stat).Some?)
  }

  /** Lengths and accuracies are always available; passes exactly when every run has them. */
  lemma HasStatCases(ss: Summaries)
    ensures HasStat(ss, "length") == Success(true)
    ensures HasStat(ss, "accuracy") == Success(true)
    ensures HasStat(ss, "passes")
            == Success(forall i :: 0 <= i < |ss.summaries| ==> ss.summaries[i].passes.Some?)
    ensures forall v :: v !in {"length", "passes", "accuracy"} ==> HasStat(ss, v).Failure?
  {
    forall v | v !in {"length", "passes", "accuracy"} ensures HasStat(ss, v).Failure? {
      assert StatNamed(v).None?;
    }
  }

  /** One row of the `ccs_stats` data frame. */
  datatype StatRow = StatRow(name: string, value: real)

  /** The rows of one run: its name beside each of its values, in order. */
  function StatBlock(s: Summary, stat: Stat): seq<StatRow>
    requires StatValues(s, stat).Some?
  {
    var vs := StatValues(s, stat).value;
    seq(|vs|, k requires 0 <= k < |vs| => StatRow(s.name, vs[k]))
  }

  /** All runs' rows, run after run. */
  function StatTable(ss: seq<Summary>, stat: Stat): seq<StatRow>
    requires forall i :: 0 <= i < |ss| ==> StatValues(ss[i], stat).Some?
  {
    if ss == [] then [] else StatBlock(ss[0], stat) + StatTable(ss[1..], stat)
  }

  /**
   * What `ccs_stats(variable)` returns: concatenating the tables of no runs
   * at all is an error of its own.
   */
  function CcsStatsOfAll(ss: Summaries, variable: string): Result<seq<StatRow>, SummaryError>
  {
    match HasStat(ss, variable)
    case Failure(e) => Failure(e)
    case Success(false) => Failure(NoStat(variable))
    case Success(true) =>
      if ss.summaries == [] then Failure(NothingToConcatenate)
      else Success(StatTable(ss.summaries, StatNamed(variable).value))
  }

  /**
   * The table of a run list is the table of its first runs followed by the
   * table of the others: rows keep the runs' input order.
   */
  lemma {:induction false} StatTableConcat(a: seq<Summary>, b: seq<Summary>, stat: Stat)
    requires forall i :: 0 <= i < |a| ==> StatValues(a[i], stat).Some?
    requires forall i :: 0 <= i < |b| ==> StatValues(b[i], stat).Some?
    ensures forall i :: 0 <= i < |a + b| ==> StatValues((a + b)[i], stat).Some?
    ensures StatTable(a + b, stat) == StatTable(a, stat) + StatTable(b, stat)
    decreases |a|
  {
    if a != [] {
      assert (a + b)[1..] == a[1..] + b;
      StatTableConcat(a[1..], b, stat);
    } else {
      assert a + b == b;
    }
  }

  /** Each row of a run's block names the run and holds that run's value at the same position. */
  lemma StatBlockRows(s: Summary, stat: Stat)
    requires StatValues(s, stat).Some?
    ensures |StatBlock(s, stat)| == |StatValues(s, stat).value|
    ensures forall k :: 0 <= k < |StatBlock(s, stat)| ==>
              StatBlock(s, stat)[k] == StatRow(s.name, StatValues(s, stat).value[k])
  {
  }

  /**
   * `ccs_stats(variable)`: fails unless every run has the statistic and
   * there is at least one run, then gathers run by run.
   */
  method CcsStats(ss: Summaries, variable: string) returns (r: Result<seq<StatRow>, SummaryError>)
    ensures r == CcsStatsOfAll(ss, variable)
    ensures r.Failure? <==> HasStat(ss, variable) != Success(true) || ss.summaries == []
    ensures r.Failure? && HasStat(ss, variable) == Success(true) ==> r.error == NothingToConcatenate
  {
    var has := HasStat(ss, variable);
    if has.Failure? {
      return Failure(has.error);
    }
    if !has.value {
      return Failure(NoStat(variable));
    }
    if ss.summaries == [] {
      return Failure(NothingToConcatenate);
    }
    var stat := StatNamed(variable).value;
    var rows: seq<StatRow> := [];
    var i := 0;
    while i < |ss.summaries|
      invariant 0 <= i <= |ss.summaries|
      invariant rows == StatTable(ss.summaries[..i], stat)
    {
      var s := ss.summaries[i];
      StatTableConcat(ss.summaries[..i], [s], stat);
      assert ss.summaries[..i + 1] == ss.summaries[..i] + [s];
      assert StatTable([s], stat) == StatBlock(s, stat) by {
        assert [s][1..] == [];
      }
      rows := rows + StatBlock(s, stat);
      i := i + 1;
    }
    assert ss.summaries[..i] == ss.summaries;
    r := Success(rows);
  }

  /** `has_zmw_stats()`: every run has a report. */
  function HasZmwStats(ss: Summaries): (r: bool)
    ensures Valid(ss) ==>
              (r <==> forall i :: 0 <= i < |ss.summaries| ==> ss.summaries[i].reportfile.Some?)
  {
    forall i :: 0 <= i < |ss.summaries| ==> ss.summaries[i].zmwStats.Some?
  }
}
