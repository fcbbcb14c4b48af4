/**
 * `Summaries.zmw_stats`: the ZMW statistics of all runs in one table. Rare
 * failure categories collapse, per run, into "Failed -- Other reason";
 * success categories optionally collapse into "Success -- CCS generated";
 * rows are ordered by run, then by a status order shared by all runs that
 * puts statuses that did not fail first and, within each group, the larger
 * maximum fraction first.
 */
module CcsZmw {
  import opened Wrappers
  import opened Text
  import opened Sorting
  import opened CcsReport
  import opened CcsSummary

  /** One row of the `zmw_stats` data frame. */
  datatype ZmwRow = ZmwRow(name: string, status: string, number: nat, fraction: real)

  /** A row with the two helper columns the aggregation works with. */
  datatype Entry = Entry(row: ZmwRow, maxFraction: real, failed: bool)

  const FailedMarker := "Failed"
  const OtherStatus := "Failed -- Other reason"
  const GroupedSuccessStatus := "Success -- CCS generated"

  // ---------------------------------------------------------------------
  // The rows of all runs.

  /** A run's report rows, labelled with the run's name. */
  function RunRows(name: string, rows: seq<Row>): seq<ZmwRow>
  {
    if rows == [] then []
    else [ZmwRow(name, rows[0].status, rows[0].number, rows[0].fraction)] + RunRows(name, rows[1..])
  }

  predicate AllReported(ss: seq<Summary>)
  {
    forall i :: 0 <= i < |ss| ==> ss[i].zmwStats.Some?
  }

  /** Every run's rows, run after run. */
  function AllRows(ss: seq<Summary>): seq<ZmwRow>
    requires AllReported(ss)
  {
    if ss == [] then [] else RunRows(ss[0].name, ss[0].zmwStats.value) + AllRows(ss[1..])
  }

  /** The run names in input order. */
  function Names(ss: seq<Summary>): (ns: seq<string>)
    ensures |ns| == |ss| && forall i :: 0 <= i < |ss| ==> ns[i] == ss[i].name
  {
    seq(|ss|, i requires 0 <= i < |ss| => ss[i].name)
  }

  /** The largest fraction among the rows with `status`, over all runs. */
  function MaxFraction(rows: seq<ZmwRow>, status: string): (m: Option<real>)
    ensures m.None? <==> forall i :: 0 <= i < |rows| ==> rows[i].status != status
    ensures m.Some? ==>
              && (exists i :: 0 <= i < |rows| && rows[i].status == status && rows[i].fraction == m.value)
              && forall i :: 0 <= i < |rows| && rows[i].status == status ==> rows[i].fraction <= m.value
  {
    if rows == [] then None
    else
      var m := MaxFraction(rows[1..], status);
      assert forall i :: 1 <= i < |rows| ==> rows[i] == rows[1..][i - 1];
      if rows[0].status != status then m
      else if m.Some? && m.value > rows[0].fraction then m
      else Some(rows[0].fraction)
  }

  /** Each row with its status's maximum fraction and whether the status names a failure. */
  function Annotate(rows: seq<ZmwRow>): (es: seq<Entry>)
    ensures |es| == |rows|
    ensures forall i :: 0 <= i < |rows| ==>
              && es[i].row == rows[i]
              && es[i].failed == Contains(rows[i].status, FailedMarker)
              && MaxFraction(rows, rows[i].status) == Some(es[i].maxFraction)
  {
    seq(|rows|, i requires 0 <= i < |rows| =>
          Entry(rows[i], MaxFraction(rows, rows[i].status).value, Contains(rows[i].status, FailedMarker)))
  }

  /** The rows of `es`, without the helper columns. */
  function RowsOf(es: seq<Entry>): (rows: seq<ZmwRow>)
    ensures |rows| == |es| && forall i :: 0 <= i < |es| ==> rows[i] == es[i].row
  {
    seq(|es|, i requires 0 <= i < |es| => es[i].row)
  }

  // ---------------------------------------------------------------------
  // Selections and totals.

  /** A rare failure: a failed status whose maximum fraction is below `minfailfrac`. */
  predicate IsOther(e: Entry, minfailfrac: real)
  {
    e.failed && e.maxFraction < minfailfrac
  }

  function Kept(es: seq<Entry>, minfailfrac: real): (r: seq<Entry>)
    ensures forall e :: e in r <==> e in es && !IsOther(e, minfailfrac)
  {
    if es == [] then []
    else (if IsOther(es[0], minfailfrac) then [] else [es[0]]) + Kept(es[1..], minfailfrac)
  }

  function Absorbed(es: seq<Entry>, minfailfrac: real): (r: seq<Entry>)
    ensures forall e :: e in r <==> e in es && IsOther(e, minfailfrac)
  {
    if es == [] then []
    else (if IsOther(es[0], minfailfrac) then [es[0]] else []) + Absorbed(es[1..], minfailfrac)
  }

  function WithName(es: seq<Entry>, n: string): (r: seq<Entry>)
    ensures forall e :: e in r <==> e in es && e.row.name == n
  {
    if es == [] then []
    else (if es[0].row.name == n then [es[0]] else []) + WithName(es[1..], n)
  }

  predicate IsSuccess(e: Entry)
  {
    StartsWith(e.row.status, SuccessPrefix)
  }

  function SuccessOf(es: seq<Entry>): (r: seq<Entry>)
    ensures forall e :: e in r <==> e in es && IsSuccess(e)
  {
    if es == [] then []
    else (if IsSuccess(es[0]) then [es[0]] else []) + SuccessOf(es[1..])
  }

  function NotSuccessOf(es: seq<Entry>): (r: seq<Entry>)
    ensures forall e :: e in r <==> e in es && !IsSuccess(e)
  {
    if es == [] then []
    else (if IsSuccess(es[0]) then [] else [es[0]]) + NotSuccessOf(es[1..])
  }

  function TotalNumber(es: seq<Entry>): nat
  {
    if es == [] then 0 else es[0].row.number + TotalNumber(es[1..])
  }

  function TotalFraction(es: seq<Entry>): real
  {
    if es == [] then 0.0 else es[0].row.fraction + TotalFraction(es[1..])
  }

  /** The largest `maxFraction` among `es`. */
  function MaxOfMax(es: seq<Entry>): (m: real)
    requires es != []
    ensures forall i :: 0 <= i < |es| ==> es[i].maxFraction <= m
    ensures exists i :: 0 <= i < |es| && es[i].maxFraction == m
  {
    if |es| == 1 then es[0].maxFraction
    else
      var m := MaxOfMax(es[1..]);
      assert forall i :: 1 <= i < |es| ==> es[i] == es[1..][i - 1];
      if m > es[0].maxFraction then m else es[0].maxFraction
  }

  /** The largest fraction among `es`. */
  function MaxRowFraction(es: seq<Entry>): (m: real)
    requires es != []
    ensures forall i :: 0 <= i < |es| ==> es[i].row.fraction <= m
    ensures exists i :: 0 <= i < |es| && es[i].row.fraction == m
  {
    if |es| == 1 then es[0].row.fraction
    else
      var m := MaxRowFraction(es[1..]);
      assert forall i :: 1 <= i < |es| ==> es[i] == es[1..][i - 1];
      if m > es[0].row.fraction then m else es[0].row.fraction
  }

  function AnyFailed(es: seq<Entry>): (b: bool)
    ensures b <==> exists i :: 0 <= i < |es| && es[i].failed
  {
    if es == [] then false
    else
      assert forall i :: 1 <= i < |es| ==> es[i] == es[1..][i - 1];
      es[0].failed || AnyFailed(es[1..])
  }

  // ---------------------------------------------------------------------
  // Collapsing categories.

  /** Run `m`'s rows of `es` as one row with the given status, or none when it has no rows. */
  function GroupRow(es: seq<Entry>, m: string, status: string): seq<Entry>
  {
    var g := WithName(es, m);
    if g == [] then []
    else [Entry(ZmwRow(m, status, TotalNumber(g), TotalFraction(g)), MaxOfMax(g), AnyFailed(g))]
  }

  /** One row with the given status per run that has rows in `es`: their sums, largest maximum, any failure. */
  function Grouped(es: seq<Entry>, names: seq<string>, status: string): (r: seq<Entry>)
    ensures forall e :: e in r ==>
              && e.row.status == status && e.row.name in names
              && WithName(es, e.row.name) != []
              && e.row.number == TotalNumber(WithName(es, e.row.name))
              && e.row.fraction == TotalFraction(WithName(es, e.row.name))
              && e.maxFraction == MaxOfMax(WithName(es, e.row.name))
              && e.failed == AnyFailed(WithName(es, e.row.name))
  {
    if names == [] then []
    else GroupRow(es, names[0], status) + Grouped(es, names[1..], status)
  }

  /**
   * The "Failed -- Other reason" rows: the absorbed rows of each run summed;
   * their maximum fraction is the largest of these sums over all runs.
   */
  function OtherRows(es: seq<Entry>, names: seq<string>, minfailfrac: real): (r: seq<Entry>)
  {
    var g := Grouped(Absorbed(es, minfailfrac), names, OtherStatus);
    if g == [] then [] else WithMaxFraction(g, MaxRowFraction(g))
  }

  /** `es` with every maximum fraction set to `m`. */
  function WithMaxFraction(es: seq<Entry>, m: real): (r: seq<Entry>)
    ensures |r| == |es| && forall i :: 0 <= i < |es| ==> r[i] == es[i].(maxFraction := m)
  {
    seq(|es|, i requires 0 <= i < |es| => es[i].(maxFraction := m))
  }

  /** The rows that are not rare failures, then the rare failures' per-run rows (the outer merge). */
  function Merged(es: seq<Entry>, names: seq<string>, minfailfrac: real): seq<Entry>
  {
    Kept(es, minfailfrac) + OtherRows(es, names, minfailfrac)
  }

  /** With `groupsuccess`, the success rows of each run replaced by one "Success -- CCS generated" row. */
  function GroupSuccess(es: seq<Entry>, names: seq<string>, groupsuccess: bool): seq<Entry>
  {
    if groupsuccess then NotSuccessOf(es) + Grouped(SuccessOf(es), names, GroupedSuccessStatus)
    else es
  }

  /** Every row of every run, rare failures and (optionally) successes collapsed, before ordering. */
  function Collapsed(ss: seq<Summary>, minfailfrac: real, groupsuccess: bool): seq<Entry>
    requires AllReported(ss)
  {
    GroupSuccess(Merged(Annotate(AllRows(ss)), Names(ss), minfailfrac), Names(ss), groupsuccess)
  }

  // ---------------------------------------------------------------------
  // Ordering.

  function StatusKey(e: Entry): (bool, real)
  {
    (e.failed, e.maxFraction)
  }

  /** `sort_values(['failed', 'max_fraction'], ascending=[True, False])`. */
  function StatusLe(a: (bool, real), b: (bool, real)): bool
  {
    (!a.0 && b.0) || (a.0 == b.0 && a.1 >= b.1)
  }

  lemma StatusLeTotal()
    ensures TotalPreorder(StatusLe)
  {
  }

  function StatusesOf(es: seq<Entry>): (sts: seq<string>)
    ensures |sts| == |es| && forall i :: 0 <= i < |es| ==> sts[i] == es[i].row.status
  {
    seq(|es|, i requires 0 <= i < |es| => es[i].row.status)
  }

  /** The rows sorted by status key. */
  function StatusSorted(es: seq<Entry>): (r: seq<Entry>)
    ensures multiset(r) == multiset(es) && SortedBy(r, StatusKey, StatusLe)
  {
    StatusLeTotal();
    SortBy(es, StatusKey, StatusLe)
  }

  /** The order of the statuses: rows sorted by status key, then each status at its first row. */
  function StatusOrder(es: seq<Entry>): seq<string>
  {
    Unique(StatusesOf(StatusSorted(es)))
  }

  /** A row's place: its run's position, then its status's position. */
  function Rank(names: seq<string>, statuses: seq<string>): Entry -> (nat, nat)
  {
    (e: Entry) => (IndexIn(names, e.row.name), IndexIn(statuses, e.row.status))
  }

  function RankLe(a: (nat, nat), b: (nat, nat)): bool
  {
    a.0 < b.0 || (a.0 == b.0 && a.1 <= b.1)
  }

  lemma RankLeTotal()
    ensures TotalPreorder(RankLe)
  {
  }

  /** `sort_values(['name', 'status'])` over the categorical run and status orders. */
  function Ordered(es: seq<Entry>, names: seq<string>): (r: seq<Entry>)
    ensures multiset(r) == multiset(es) && SortedBy(r, Rank(names, StatusOrder(es)), RankLe)
  {
    RankLeTotal();
    SortBy(es, Rank(names, StatusOrder(es)), RankLe)
  }

  /**
   * `zmw_stats(minfailfrac=…, groupsuccess=…)`: an error unless every run has
   * ZMW statistics, and an error too when there are no runs, whose tables
   * cannot be concatenated.
   */
  function ZmwStats(ss: Summaries, minfailfrac: real, groupsuccess: bool)
    : (r: Result<seq<ZmwRow>, SummaryError>)
    requires Valid(ss)
    ensures r.Failure? <==> !HasZmwStats(ss) || ss.summaries == []
    ensures r.Failure? ==> r.error == if HasZmwStats(ss) then NothingToConcatenate else NoZmwStats
  {
    if !HasZmwStats(ss) then Failure(NoZmwStats)
    else if ss.summaries == [] then Failure(NothingToConcatenate)
    else
      var c := Collapsed(ss.summaries, minfailfrac, groupsuccess);
      Success(RowsOf(Ordered(c, Names(ss.summaries))))
  }

  /** With ZMW statistics for at least one run, the output is the ordered collapsed rows. */
  lemma ZmwStatsValue(ss: Summaries, minfailfrac: real, groupsuccess: bool)
    requires Valid(ss) && HasZmwStats(ss) && ss.summaries != []
    ensures ZmwStats(ss, minfailfrac, groupsuccess)
            == Success(RowsOf(Ordered(Collapsed(ss.summaries, minfailfrac, groupsuccess), Names(ss.summaries))))
  {
  }

  // ---------------------------------------------------------------------
  // Which rows are absorbed.

  /**
   * A row is a rare failure exactly when its status contains "Failed" and
   * every row with that status, in every run, has a fraction below
   * `minfailfrac`.
   */
  lemma AbsorptionRule(ss: seq<Summary>, minfailfrac: real, i: nat)
    requires AllReported(ss) && i < |AllRows(ss)|
    ensures var rows := AllRows(ss);
            IsOther(Annotate(rows)[i], minfailfrac)
            <==> && Contains(rows[i].status, FailedMarker)
                 && forall j :: 0 <= j < |rows| && rows[j].status == rows[i].status ==> rows[j].fraction < minfailfrac
  {
    var rows := AllRows(ss);
    var e := Annotate(rows)[i];
    assert MaxFraction(rows, rows[i].status) == Some(e.maxFraction);
    var j :| 0 <= j < |rows| && rows[j].status == rows[i].status && rows[j].fraction == e.maxFraction;
  }

  /** The "Failed -- Other reason" rows: each belongs to a run with rare failures and sums them. */
  lemma OtherRowsSum(es: seq<Entry>, names: seq<string>, minfailfrac: real)
    ensures forall e :: e in OtherRows(es, names, minfailfrac) ==>
              && e.row.status == OtherStatus && e.failed && e.row.name in names
              && WithName(Absorbed(es, minfailfrac), e.row.name) != []
              && e.row.number == TotalNumber(WithName(Absorbed(es, minfailfrac), e.row.name))
              && e.row.fraction == TotalFraction(WithName(Absorbed(es, minfailfrac), e.row.name))
  {
    var g := Grouped(Absorbed(es, minfailfrac), names, OtherStatus);
    var o := OtherRows(es, names, minfailfrac);
    forall e | e in o
      ensures && e.row.status == OtherStatus && e.failed && e.row.name in names
              && WithName(Absorbed(es, minfailfrac), e.row.name) != []
              && e.row.number == TotalNumber(WithName(Absorbed(es, minfailfrac), e.row.name))
              && e.row.fraction == TotalFraction(WithName(Absorbed(es, minfailfrac), e.row.name))
    {
      var i :| 0 <= i < |o| && o[i] == e;
      assert g[i] in g;
      var w := WithName(Absorbed(es, minfailfrac), e.row.name);
      assert w[0] in w;
    }
  }

  /** Every "Failed -- Other reason" row has as maximum fraction the largest fraction of all these rows. */
  lemma OtherRowsMaxFraction(es: seq<Entry>, names: seq<string>, minfailfrac: real)
    ensures forall e :: e in OtherRows(es, names, minfailfrac) ==>
              LargestFraction(OtherRows(es, names, minfailfrac), e.maxFraction)
  {
    var g := Grouped(Absorbed(es, minfailfrac), names, OtherStatus);
    if g != [] {
      MaxFractionSet(g);
    }
  }

  lemma MaxFractionSet(g: seq<Entry>)
    requires g != []
    ensures forall e :: e in WithMaxFraction(g, MaxRowFraction(g)) ==>
              LargestFraction(WithMaxFraction(g, MaxRowFraction(g)), e.maxFraction)
  {
    var m := MaxRowFraction(g);
    var o := WithMaxFraction(g, m);
    var j :| 0 <= j < |g| && g[j].row.fraction == m;
    assert o[j].row.fraction == m;
    assert LargestFraction(o, m);
  }

  /** `m` is the largest fraction among the rows of `es`. */
  predicate LargestFraction(es: seq<Entry>, m: real)
  {
    && (forall i :: 0 <= i < |es| ==> es[i].row.fraction <= m)
    && (exists i :: 0 <= i < |es| && es[i].row.fraction == m)
  }

  lemma {:induction false} WithNameConcat(a: seq<Entry>, b: seq<Entry>, n: string)
    ensures WithName(a + b, n) == WithName(a, n) + WithName(b, n)
    decreases |a|
  {
    if a == [] {
      assert a + b == b;
    } else {
      assert (a + b)[1..] == a[1..] + b;
      WithNameConcat(a[1..], b, n);
    }
  }

  /** Entries with the same rows have as many rows of each run. */
  lemma {:induction false} WithNameSameRows(a: seq<Entry>, b: seq<Entry>, n: string)
    requires RowsOf(a) == RowsOf(b)
    ensures |WithName(a, n)| == |WithName(b, n)|
  {
    if a != [] {
      assert a[0].row == RowsOf(a)[0] && b[0].row == RowsOf(b)[0];
      assert RowsOf(a[1..]) == RowsOf(a)[1..] && RowsOf(b[1..]) == RowsOf(b)[1..];
      WithNameSameRows(a[1..], b[1..], n);
    }
  }

  /** With distinct names, `Grouped` gives each run with rows exactly one row and every other name none. */
  lemma {:induction false} GroupedOnePerRun(es: seq<Entry>, names: seq<string>, status: string, n: string)
    requires Distinct(names)
    ensures |WithName(Grouped(es, names, status), n)| == if n in names && WithName(es, n) != [] then 1 else 0
  {
    if names != [] {
      var h := GroupRow(es, names[0], status);
      var rest := Grouped(es, names[1..], status);
      WithNameConcat(h, rest, n);
      assert Distinct(names[1..]);
      GroupedOnePerRun(es, names[1..], status, n);
      assert |WithName(h, n)| == if names[0] == n && WithName(es, n) != [] then 1 else 0 by {
        if h != [] {
          assert h[1..] == [];
        }
      }
      if names[0] == n {
        assert n !in names[1..] by {
          assert forall j :: 1 <= j < |names| ==> names[j] != names[0];
        }
      } else {
        assert n in names <==> n in names[1..];
      }
    }
  }

  /** With distinct names, each run with rare failures has exactly one "Failed -- Other reason" row and every other run none. */
  lemma OtherRowsOnePerRun(es: seq<Entry>, names: seq<string>, minfailfrac: real, n: string)
    requires Distinct(names)
    ensures |WithName(OtherRows(es, names, minfailfrac), n)|
            == if n in names && WithName(Absorbed(es, minfailfrac), n) != [] then 1 else 0
  {
    var g := Grouped(Absorbed(es, minfailfrac), names, OtherStatus);
    assert RowsOf(OtherRows(es, names, minfailfrac)) == RowsOf(g);
    WithNameSameRows(OtherRows(es, names, minfailfrac), g, n);
    GroupedOnePerRun(Absorbed(es, minfailfrac), names, OtherStatus, n);
  }

  /**
   * Every collapsed row is an input row that is not a rare failure (and,
   * with `groupsuccess`, not a success), a "Failed -- Other reason" row, or,
   * with `groupsuccess`, a "Success -- CCS generated" row.
   */
  lemma CollapsedRows(ss: seq<Summary>, minfailfrac: real, groupsuccess: bool)
    requires AllReported(ss)
    ensures var an := Annotate(AllRows(ss));
            forall e :: e in Collapsed(ss, minfailfrac, groupsuccess) ==>
              || (e in an && !IsOther(e, minfailfrac) && (groupsuccess ==> !IsSuccess(e)))
              || e in OtherRows(an, Names(ss), minfailfrac)
              || (groupsuccess && e in Grouped(SuccessOf(Merged(an, Names(ss), minfailfrac)),
                                             Names(ss), GroupedSuccessStatus))
  {
  }

  /**
   * Conversely, every input row that is not a rare failure (and, with
   * `groupsuccess`, not a success), every "Failed -- Other reason" row and,
   * with `groupsuccess`, every "Success -- CCS generated" row is a collapsed
   * row.
   */
  lemma CollapsedKeeps(ss: seq<Summary>, minfailfrac: real, groupsuccess: bool)
    requires AllReported(ss)
    ensures var an := Annotate(AllRows(ss));
            forall e ::
              || (e in an && !IsOther(e, minfailfrac) && (groupsuccess ==> !IsSuccess(e)))
              || e in OtherRows(an, Names(ss), minfailfrac)
              || (groupsuccess && e in Grouped(SuccessOf(Merged(an, Names(ss), minfailfrac)),
                                             Names(ss), GroupedSuccessStatus))
              ==> e in Collapsed(ss, minfailfrac, groupsuccess)
  {
    var an := Annotate(AllRows(ss));
    var others := OtherRows(an, Names(ss), minfailfrac);
    OtherRowsSum(an, Names(ss), minfailfrac);
    NoOtherSuccess(others);
    forall e | e in others ensures !IsSuccess(e) {
      assert e in SuccessOf(others) <==> e in others && IsSuccess(e);
    }
  }

  /** With `groupsuccess`, the only success row of a run is its "Success -- CCS generated" row, which sums them. */
  lemma SuccessGrouping(ss: seq<Summary>, minfailfrac: real)
    requires AllReported(ss)
    ensures var kept := Kept(Annotate(AllRows(ss)), minfailfrac);
            forall e :: e in Collapsed(ss, minfailfrac, true) && IsSuccess(e) ==>
              && e.row.status == GroupedSuccessStatus
              && e.row.number == TotalNumber(WithName(SuccessOf(kept), e.row.name))
              && e.row.fraction == TotalFraction(WithName(SuccessOf(kept), e.row.name))
  {
    var an := Annotate(AllRows(ss));
    var names := Names(ss);
    var kept := Kept(an, minfailfrac);
    var others := OtherRows(an, names, minfailfrac);
    var merged := Merged(an, names, minfailfrac);
    assert merged == kept + others;
    SuccessOfConcat(kept, others);
    OtherRowsSum(an, names, minfailfrac);
    NoOtherSuccess(others);
    assert SuccessOf(merged) == SuccessOf(kept);
    var c := Collapsed(ss, minfailfrac, true);
    assert c == NotSuccessOf(merged) + Grouped(SuccessOf(merged), names, GroupedSuccessStatus);
    forall e | e in c && IsSuccess(e)
      ensures && e.row.status == GroupedSuccessStatus
              && e.row.number == TotalNumber(WithName(SuccessOf(kept), e.row.name))
              && e.row.fraction == TotalFraction(WithName(SuccessOf(kept), e.row.name))
    {
      assert e !in NotSuccessOf(merged);
      assert e in Grouped(SuccessOf(merged), names, GroupedSuccessStatus);
    }
  }

  /**
   * With `groupsuccess` and distinct run names, each run with success rows
   * has exactly one success row after collapsing, the "Success -- CCS
   * generated" row, and every other run none.
   */
  lemma SuccessOnePerRun(ss: Summaries, minfailfrac: real, n: string)
    requires Valid(ss) && HasZmwStats(ss)
    ensures var kept := Kept(Annotate(AllRows(ss.summaries)), minfailfrac);
            |WithName(SuccessOf(Collapsed(ss.summaries, minfailfrac, true)), n)|
            == if n in Names(ss.summaries) && WithName(SuccessOf(kept), n) != [] then 1 else 0
  {
    var s := ss.summaries;
    var names := Names(s);
    CollapsedSuccess(s, minfailfrac);
    NamesDistinct(ss);
    GroupedOnePerRun(SuccessOf(Kept(Annotate(AllRows(s)), minfailfrac)), names, GroupedSuccessStatus, n);
  }

  /** The run names of valid summaries are distinct. */
  lemma NamesDistinct(ss: Summaries)
    requires Valid(ss)
    ensures Distinct(Names(ss.summaries))
  {
    var names := Names(ss.summaries);
    assert forall i :: 0 <= i < |names| ==> names[i] == ss.summaries[i].name;
  }

  /** With `groupsuccess`, the collapsed success rows are exactly the grouped rows of the kept successes. */
  lemma CollapsedSuccess(ss: seq<Summary>, minfailfrac: real)
    requires AllReported(ss)
    ensures SuccessOf(Collapsed(ss, minfailfrac, true))
            == Grouped(SuccessOf(Kept(Annotate(AllRows(ss)), minfailfrac)), Names(ss), GroupedSuccessStatus)
  {
    var an := Annotate(AllRows(ss));
    var names := Names(ss);
    var merged := Merged(an, names, minfailfrac);
    MergedSuccess(an, names, minfailfrac);
    var g := Grouped(SuccessOf(merged), names, GroupedSuccessStatus);
    assert Collapsed(ss, minfailfrac, true) == NotSuccessOf(merged) + g;
    SuccessOfConcat(NotSuccessOf(merged), g);
    NoSuccessLeft(merged);
    AllGroupedSuccess(SuccessOf(merged), names);
  }

  /** The success rows after folding rare failures are the kept success rows. */
  lemma MergedSuccess(es: seq<Entry>, names: seq<string>, minfailfrac: real)
    ensures SuccessOf(Merged(es, names, minfailfrac)) == SuccessOf(Kept(es, minfailfrac))
  {
    var others := OtherRows(es, names, minfailfrac);
    SuccessOfConcat(Kept(es, minfailfrac), others);
    OtherRowsSum(es, names, minfailfrac);
    NoOtherSuccess(others);
  }

  lemma {:induction false} NoSuccessLeft(es: seq<Entry>)
    ensures SuccessOf(NotSuccessOf(es)) == []
  {
    if es != [] {
      NoSuccessLeft(es[1..]);
      var h := if IsSuccess(es[0]) then [] else [es[0]];
      assert NotSuccessOf(es) == h + NotSuccessOf(es[1..]);
      SuccessOfConcat(h, NotSuccessOf(es[1..]));
      if h != [] {
        assert SuccessOf(h) == [] by {
          assert h[1..] == [];
        }
      }
    }
  }

  /** The grouped success rows are all success rows. */
  lemma {:induction false} AllGroupedSuccess(es: seq<Entry>, names: seq<string>)
    ensures SuccessOf(Grouped(es, names, GroupedSuccessStatus)) == Grouped(es, names, GroupedSuccessStatus)
  {
    if names != [] {
      var h := GroupRow(es, names[0], GroupedSuccessStatus);
      AllGroupedSuccess(es, names[1..]);
      SuccessOfConcat(h, Grouped(es, names[1..], GroupedSuccessStatus));
      if h != [] {
        assert IsSuccess(h[0]) by {
          assert GroupedSuccessStatus[..|SuccessPrefix|] == SuccessPrefix;
        }
        assert h[1..] == [];
      }
    }
  }

  lemma {:induction false} SuccessOfConcat(a: seq<Entry>, b: seq<Entry>)
    ensures SuccessOf(a + b) == SuccessOf(a) + SuccessOf(b)
    decreases |a|
  {
    if a == [] {
      assert a + b == b;
    } else {
      assert (a + b)[1..] == a[1..] + b;
      SuccessOfConcat(a[1..], b);
    }
  }

  lemma {:induction false} NoOtherSuccess(es: seq<Entry>)
    requires forall e :: e in es ==> e.row.status == OtherStatus
    ensures SuccessOf(es) == []
  {
    if es != [] {
      assert es[0] in es;
      assert !IsSuccess(es[0]) by {
        assert OtherStatus[0] != SuccessPrefix[0];
      }
      assert forall e :: e in es[1..] ==> e in es;
      NoOtherSuccess(es[1..]);
    }
  }

  // ---------------------------------------------------------------------
  // Order of the output.

  /**
   * A status placed before another has a row whose key is not after any row
   * of the other: it did not fail where the other failed, and it has the
   * larger maximum fraction when both or neither failed.
   */
  lemma StatusOrderRule(es: seq<Entry>)
    ensures forall a, b :: 0 <= a < b < |StatusOrder(es)| ==>
              RanksBefore(es, StatusOrder(es)[a], StatusOrder(es)[b])
  {
    forall a, b | 0 <= a < b < |StatusOrder(es)|
      ensures RanksBefore(es, StatusOrder(es)[a], StatusOrder(es)[b])
    {
      var e := StatusPair(es, a, b);
    }
  }

  /**
   * A status every row of which sorts strictly before every row of another
   * status comes first in the status order: a status that did not fail
   * before one that failed, and within each group the larger maximum
   * fraction first.
   */
  lemma StatusOrderStrict(es: seq<Entry>, s: string, t: string)
    requires s in StatusOrder(es) && t in StatusOrder(es)
    requires forall e, f :: e in es && e.row.status == s && f in es && f.row.status == t ==> StrictlyBefore(e, f)
    ensures IndexIn(StatusOrder(es), s) < IndexIn(StatusOrder(es), t)
  {
    var r := StatusCarrier(es, s);
    StatusOrderRule(es);
    assert !StrictlyBefore(r, r);
    assert forall e :: NotAfter(e, r) ==> !StrictlyBefore(r, e);
  }

  /** `e` sorts strictly before `f` by status key. */
  predicate StrictlyBefore(e: Entry, f: Entry)
  {
    (!e.failed && f.failed) || (e.failed == f.failed && e.maxFraction > f.maxFraction)
  }

  /** A status of the status order is the status of some row. */
  lemma StatusCarrier(es: seq<Entry>, s: string) returns (e: Entry)
    requires s in StatusOrder(es)
    ensures e in es && e.row.status == s
  {
    var sorted := StatusSorted(es);
    assert s in StatusesOf(sorted);
    var k :| 0 <= k < |sorted| && StatusesOf(sorted)[k] == s;
    WitnessIn(es, sorted, k);
    e := sorted[k];
  }

  /** Some row of status `s` is not after any row of status `t`. */
  ghost predicate RanksBefore(es: seq<Entry>, s: string, t: string)
  {
    exists e :: e in es && e.row.status == s && forall f :: f in es && f.row.status == t ==> NotAfter(e, f)
  }

  /** The witness for one pair of positions in the status order: the first sorted row of the earlier status. */
  lemma StatusPair(es: seq<Entry>, a: nat, b: nat) returns (e: Entry)
    requires a < b < |StatusOrder(es)|
    ensures e in es && e.row.status == StatusOrder(es)[a]
    ensures forall f :: f in es && f.row.status == StatusOrder(es)[b] ==> NotAfter(e, f)
  {
    var sorted := StatusSorted(es);
    var column := StatusesOf(sorted);
    var sts := StatusOrder(es);
    assert sts == Unique(column);
    var p := IndexIn(column, sts[a]);
    assert sts[a] in column;
    assert p < IndexIn(column, sts[b]);
    WitnessIn(es, sorted, p);
    EarlierKey(es, sorted, p, sts[b]);
    e := sorted[p];
  }

  /** `e` is not after `f` in the status order: it did not fail where `f` failed, and has the larger maximum fraction when both or neither failed. */
  predicate NotAfter(e: Entry, f: Entry)
  {
    && (!e.failed || f.failed)
    && (e.failed == f.failed ==> e.maxFraction >= f.maxFraction)
  }

  lemma WitnessIn(es: seq<Entry>, sorted: seq<Entry>, p: nat)
    requires multiset(sorted) == multiset(es) && p < |sorted|
    ensures sorted[p] in es
  {
    assert sorted[p] in multiset(sorted);
  }

  /** In rows sorted by key, a row before the first row of a status is not after any row of it. */
  lemma EarlierKey(es: seq<Entry>, sorted: seq<Entry>, p: nat, status: string)
    requires multiset(sorted) == multiset(es) && SortedBy(sorted, StatusKey, StatusLe)
    requires p < IndexIn(StatusesOf(sorted), status)
    ensures forall f :: f in es && f.row.status == status ==> NotAfter(sorted[p], f)
  {
    forall f | f in es && f.row.status == status
      ensures NotAfter(sorted[p], f)
    {
      assert f in multiset(es);
      var k :| 0 <= k < |sorted| && sorted[k] == f;
      assert StatusesOf(sorted)[k] == status;
      assert StatusLe(StatusKey(sorted[p]), StatusKey(sorted[k]));
    }
  }

  /** With distinct run names, a run's name is found at the run's own position. */
  lemma RunPositions(ss: seq<Summary>)
    requires forall i, j :: 0 <= i < j < |ss| ==> ss[i].name != ss[j].name
    ensures forall k :: 0 <= k < |ss| ==> IndexIn(Names(ss), ss[k].name) == k
  {
    var names := Names(ss);
    forall k | 0 <= k < |ss| ensures IndexIn(names, ss[k].name) == k {
      var p := IndexIn(names, ss[k].name);
      assert names[k] == ss[k].name;
      assert p <= k;
      assert names[p] == ss[p].name;
    }
  }

  lemma {:induction false} AllRowsNames(ss: seq<Summary>)
    requires AllReported(ss)
    ensures forall i :: 0 <= i < |AllRows(ss)| ==> AllRows(ss)[i].name in Names(ss)
  {
    if ss != [] {
      AllRowsNames(ss[1..]);
      RunRowsNames(ss[0].name, ss[0].zmwStats.value);
      var a: seq<ZmwRow> := RunRows(ss[0].name, ss[0].zmwStats.value);
      var b: seq<ZmwRow> := AllRows(ss[1..]);
      assert AllRows(ss) == a + b;
      assert forall x :: x in Names(ss[1..]) ==> x in Names(ss) by {
        forall x | x in Names(ss[1..]) ensures x in Names(ss) {
          var j :| 0 <= j < |ss| - 1 && Names(ss[1..])[j] == x;
          assert Names(ss)[j + 1] == x;
        }
      }
      assert ss[0].name == Names(ss)[0];
      forall i | 0 <= i < |a + b| ensures (a + b)[i].name in Names(ss) {
        if i >= |a| {
          assert (a + b)[i] == b[i - |a|];
        }
      }
    }
  }

  lemma {:induction false} RunRowsNames(name: string, rows: seq<Row>)
    ensures forall i :: 0 <= i < |RunRows(name, rows)| ==> RunRows(name, rows)[i].name == name
  {
    if rows != [] {
      RunRowsNames(name, rows[1..]);
    }
  }

  /** Every collapsed row belongs to one of the runs. */
  lemma CollapsedNames(ss: seq<Summary>, minfailfrac: real, groupsuccess: bool)
    requires AllReported(ss)
    ensures forall e :: e in Collapsed(ss, minfailfrac, groupsuccess) ==> e.row.name in Names(ss)
  {
    var rows := AllRows(ss);
    var an := Annotate(rows);
    AllRowsNames(ss);
    assert forall e :: e in an ==> e.row.name in Names(ss) by {
      forall e | e in an ensures e.row.name in Names(ss) {
        var i :| 0 <= i < |an| && an[i] == e;
        assert e.row == rows[i];
      }
    }
    OtherRowsSum(an, Names(ss), minfailfrac);
    CollapsedRows(ss, minfailfrac, groupsuccess);
  }

  /** Every ordered row has a run name and a status of the status order. */
  lemma OrderedBelong(c: seq<Entry>, names: seq<string>)
    requires forall e :: e in c ==> e.row.name in names
    ensures forall e :: e in Ordered(c, names) ==> e.row.name in names && e.row.status in StatusOrder(c)
  {
    var o := Ordered(c, names);
    var sorted := StatusSorted(c);
    forall e | e in o ensures e.row.name in names && e.row.status in StatusOrder(c) {
      assert e in multiset(o);
      assert e in multiset(sorted);
      var k :| 0 <= k < |sorted| && sorted[k] == e;
      assert StatusesOf(sorted)[k] == e.row.status;
    }
  }

  /** Rows never go back to an earlier run nor, within a run, to an earlier status. */
  predicate RunThenStatusOrder(rows: seq<ZmwRow>, names: seq<string>, sts: seq<string>)
  {
    forall i, j :: 0 <= i < j < |rows| ==>
      || IndexIn(names, rows[i].name) < IndexIn(names, rows[j].name)
      || (&& IndexIn(names, rows[i].name) == IndexIn(names, rows[j].name)
          && IndexIn(sts, rows[i].status) <= IndexIn(sts, rows[j].status))
  }

  lemma OrderedRanks(c: seq<Entry>, names: seq<string>)
    ensures RunThenStatusOrder(RowsOf(Ordered(c, names)), names, StatusOrder(c))
  {
    var o := Ordered(c, names);
    var rows := RowsOf(o);
    var sts := StatusOrder(c);
    forall i, j | 0 <= i < j < |rows|
      ensures || IndexIn(names, rows[i].name) < IndexIn(names, rows[j].name)
              || (&& IndexIn(names, rows[i].name) == IndexIn(names, rows[j].name)
                  && IndexIn(sts, rows[i].status) <= IndexIn(sts, rows[j].status))
    {
      assert RankLe(Rank(names, sts)(o[i]), Rank(names, sts)(o[j]));
    }
  }

  /**
   * The output's rows come run by run in input order and, within a run, in
   * the shared status order; every row belongs to a run and has a status of
   * that order.
   */
  lemma ZmwStatsOrder(ss: Summaries, minfailfrac: real, groupsuccess: bool)
    requires Valid(ss) && HasZmwStats(ss) && ss.summaries != []
    ensures var out := ZmwStats(ss, minfailfrac, groupsuccess).value;
            var names := Names(ss.summaries);
            var sts := StatusOrder(Collapsed(ss.summaries, minfailfrac, groupsuccess));
            && (forall k :: 0 <= k < |names| ==> IndexIn(names, ss.summaries[k].name) == k)
            && (forall i :: 0 <= i < |out| ==> out[i].name in names && out[i].status in sts)
            && RunThenStatusOrder(out, names, sts)
  {
    var names := Names(ss.summaries);
    var c := Collapsed(ss.summaries, minfailfrac, groupsuccess);
    ZmwStatsValue(ss, minfailfrac, groupsuccess);
    RunPositions(ss.summaries);
    CollapsedNames(ss.summaries, minfailfrac, groupsuccess);
    OrderedOutput(c, names);
  }

  /** The rows of the ordered table belong to the runs, have statuses of the status order, and go run then status. */
  lemma OrderedOutput(c: seq<Entry>, names: seq<string>)
    requires forall e :: e in c ==> e.row.name in names
    ensures var out := RowsOf(Ordered(c, names));
            && (forall i :: 0 <= i < |out| ==> out[i].name in names && out[i].status in StatusOrder(c))
            && RunThenStatusOrder(out, names, StatusOrder(c))
  {
    var o := Ordered(c, names);
    OrderedBelong(c, names);
    OrderedRanks(c, names);
    forall i | 0 <= i < |o| ensures o[i].row.name in names && o[i].row.status in StatusOrder(c) {
      assert o[i] in o;
    }
  }

  /**
   * Nothing but the collapse drops a row: every input row that is not a
   * rare failure (and, with `groupsuccess`, not a success), every "Failed --
   * Other reason" row and, with `groupsuccess`, every "Success -- CCS
   * generated" row is a row of the output.
   */
  lemma ZmwStatsKeepsRows(ss: Summaries, minfailfrac: real, groupsuccess: bool)
    requires Valid(ss) && HasZmwStats(ss) && ss.summaries != []
    ensures var out := ZmwStats(ss, minfailfrac, groupsuccess).value;
            var an := Annotate(AllRows(ss.summaries));
            var names := Names(ss.summaries);
            forall e ::
              || (e in an && !IsOther(e, minfailfrac) && (groupsuccess ==> !IsSuccess(e)))
              || e in OtherRows(an, names, minfailfrac)
              || (groupsuccess && e in Grouped(SuccessOf(Merged(an, names, minfailfrac)),
                                             names, GroupedSuccessStatus))
              ==> e.row in out
  {
    var c := Collapsed(ss.summaries, minfailfrac, groupsuccess);
    var o := Ordered(c, Names(ss.summaries));
    ZmwStatsValue(ss, minfailfrac, groupsuccess);
    CollapsedKeeps(ss.summaries, minfailfrac, groupsuccess);
    forall e | e in c ensures e.row in RowsOf(o) {
      assert e in multiset(o);
      var k :| 0 <= k < |o| && o[k] == e;
      assert RowsOf(o)[k] == e.row;
    }
  }

  // ---------------------------------------------------------------------
  // Each run keeps its totals.

  function NumberOf(r: ZmwRow): real
  {
    r.number as real
  }

  function FractionOf(r: ZmwRow): real
  {
    r.fraction
  }

  /** The sum of `v` over the rows of run `n`. */
  function RunTotal(rows: seq<ZmwRow>, n: string, v: ZmwRow -> real): real
  {
    if rows == [] then 0.0
    else (if rows[0].name == n then v(rows[0]) else 0.0) + RunTotal(rows[1..], n, v)
  }

  /** The same sum over the rows of entries. */
  function EntrySum(es: seq<Entry>, n: string, v: ZmwRow -> real): real
  {
    RunTotal(RowsOf(es), n, v)
  }

  lemma {:induction false} RunTotalConcat(a: seq<ZmwRow>, b: seq<ZmwRow>, n: string, v: ZmwRow -> real)
    ensures RunTotal(a + b, n, v) == RunTotal(a, n, v) + RunTotal(b, n, v)
    decreases |a|
  {
    if a == [] {
      assert a + b == b;
    } else {
      assert (a + b)[1..] == a[1..] + b;
      RunTotalConcat(a[1..], b, n, v);
    }
  }

  lemma EntrySumStep(es: seq<Entry>, n: string, v: ZmwRow -> real)
    requires es != []
    ensures EntrySum(es, n, v) == (if es[0].row.name == n then v(es[0].row) else 0.0) + EntrySum(es[1..], n, v)
  {
    assert RowsOf(es)[1..] == RowsOf(es[1..]);
  }

  lemma EntrySumConcat(a: seq<Entry>, b: seq<Entry>, n: string, v: ZmwRow -> real)
    ensures EntrySum(a + b, n, v) == EntrySum(a, n, v) + EntrySum(b, n, v)
  {
    assert RowsOf(a + b) == RowsOf(a) + RowsOf(b);
    RunTotalConcat(RowsOf(a), RowsOf(b), n, v);
  }

  /** Rows of other runs add nothing to run `n`'s total. */
  lemma {:induction false} EntrySumAbsent(es: seq<Entry>, n: string, v: ZmwRow -> real)
    requires forall e :: e in es ==> e.row.name != n
    ensures EntrySum(es, n, v) == 0.0
  {
    if es != [] {
      EntrySumStep(es, n, v);
      assert es[0] in es;
      assert forall e :: e in es[1..] ==> e in es;
      EntrySumAbsent(es[1..], n, v);
    }
  }

  /** Reordering rows does not change a run's total. */
  lemma {:induction false} EntrySumPermutation(a: seq<Entry>, b: seq<Entry>, n: string, v: ZmwRow -> real)
    requires multiset(a) == multiset(b)
    ensures EntrySum(a, n, v) == EntrySum(b, n, v)
    decreases |a|
  {
    if a == [] {
      assert b == [] by {
        assert |multiset(b)| == 0;
      }
    } else {
      assert a[0] in multiset(b);
      var k :| 0 <= k < |b| && b[k] == a[0];
      var rest := b[..k] + b[k + 1..];
      RemoveMatching(a, b, k);
      EntrySumPermutation(a[1..], rest, n, v);
      EntrySumStep(a, n, v);
      EntrySumRemove(b, k, n, v);
    }
  }

  /** Taking the head of `a` out of `a`, and a matching element out of `b`, keeps the two permutations of each other. */
  lemma RemoveMatching(a: seq<Entry>, b: seq<Entry>, k: nat)
    requires multiset(a) == multiset(b) && a != [] && k < |b| && b[k] == a[0]
    ensures multiset(a[1..]) == multiset(b[..k] + b[k + 1..])
  {
    assert b == b[..k] + [b[k]] + b[k + 1..];
    assert a == [a[0]] + a[1..];
    assert multiset(b) == multiset(b[..k]) + multiset{b[k]} + multiset(b[k + 1..]);
    assert multiset(b[..k] + b[k + 1..]) == multiset(b[..k]) + multiset(b[k + 1..]);
    assert multiset(a[1..]) == multiset(a) - multiset{a[0]};
    assert multiset(b[..k] + b[k + 1..]) == multiset(b) - multiset{b[k]};
  }

  /** A run's total is the contribution of the element at `k` plus the total without it. */
  lemma EntrySumRemove(b: seq<Entry>, k: nat, n: string, v: ZmwRow -> real)
    requires k < |b|
    ensures EntrySum(b, n, v)
            == (if b[k].row.name == n then v(b[k].row) else 0.0) + EntrySum(b[..k] + b[k + 1..], n, v)
  {
    assert b == b[..k] + [b[k]] + b[k + 1..];
    EntrySumConcat(b[..k] + [b[k]], b[k + 1..], n, v);
    EntrySumConcat(b[..k], [b[k]], n, v);
    EntrySumConcat(b[..k], b[k + 1..], n, v);
    EntrySumStep([b[k]], n, v);
  }

  /** The kept and the absorbed rows split each run's total. */
  lemma {:induction false} KeptAbsorbedSum(es: seq<Entry>, minfailfrac: real, n: string, v: ZmwRow -> real)
    ensures EntrySum(es, n, v) == EntrySum(Kept(es, minfailfrac), n, v) + EntrySum(Absorbed(es, minfailfrac), n, v)
  {
    if es != [] {
      var h := if IsOther(es[0], minfailfrac) then [] else [es[0]];
      var g := if IsOther(es[0], minfailfrac) then [es[0]] else [];
      KeptAbsorbedSum(es[1..], minfailfrac, n, v);
      EntrySumConcat(h, Kept(es[1..], minfailfrac), n, v);
      EntrySumConcat(g, Absorbed(es[1..], minfailfrac), n, v);
      EntrySumStep(es, n, v);
      EntrySumStep([es[0]], n, v);
    }
  }

  /** The success and the other rows split each run's total. */
  lemma {:induction false} SuccessSplitSum(es: seq<Entry>, n: string, v: ZmwRow -> real)
    ensures EntrySum(es, n, v) == EntrySum(SuccessOf(es), n, v) + EntrySum(NotSuccessOf(es), n, v)
  {
    if es != [] {
      var h := if IsSuccess(es[0]) then [es[0]] else [];
      var g := if IsSuccess(es[0]) then [] else [es[0]];
      SuccessSplitSum(es[1..], n, v);
      EntrySumConcat(h, SuccessOf(es[1..]), n, v);
      EntrySumConcat(g, NotSuccessOf(es[1..]), n, v);
      EntrySumStep(es, n, v);
      EntrySumStep([es[0]], n, v);
    }
  }

  /** `TotalNumber` and `TotalFraction` of a run's rows are its totals. */
  lemma {:induction false} WithNameSums(es: seq<Entry>, n: string)
    ensures TotalNumber(WithName(es, n)) as real == EntrySum(es, n, NumberOf)
    ensures TotalFraction(WithName(es, n)) == EntrySum(es, n, FractionOf)
  {
    if es != [] {
      WithNameSums(es[1..], n);
      EntrySumStep(es, n, NumberOf);
      EntrySumStep(es, n, FractionOf);
      var w := WithName(es[1..], n);
      if es[0].row.name == n {
        assert WithName(es, n) == [es[0]] + w;
        assert ([es[0]] + w)[1..] == w;
        assert TotalNumber(WithName(es, n)) == es[0].row.number + TotalNumber(w);
        assert TotalFraction(WithName(es, n)) == es[0].row.fraction + TotalFraction(w);
      } else {
        assert WithName(es, n) == w;
      }
    }
  }

  /** Grouping the rows of every run into one row per run keeps each run's totals. */
  lemma {:induction false} GroupedSums(es: seq<Entry>, names: seq<string>, status: string, n: string)
    requires Distinct(names) && n in names
    ensures EntrySum(Grouped(es, names, status), n, NumberOf) == EntrySum(es, n, NumberOf)
    ensures EntrySum(Grouped(es, names, status), n, FractionOf) == EntrySum(es, n, FractionOf)
  {
    var rest := Grouped(es, names[1..], status);
    EntrySumConcat(GroupRow(es, names[0], status), rest, n, NumberOf);
    EntrySumConcat(GroupRow(es, names[0], status), rest, n, FractionOf);
    GroupRowSums(es, names[0], status, n);
    assert Distinct(names[1..]);
    if names[0] == n {
      assert n !in names[1..] by {
        assert forall j :: 1 <= j < |names| ==> names[j] != names[0];
      }
      EntrySumAbsent(rest, n, NumberOf);
      EntrySumAbsent(rest, n, FractionOf);
    } else {
      assert n in names[1..];
      GroupedSums(es, names[1..], status, n);
    }
  }

  /** The grouped row of run `m` carries run `n`'s totals when `m` is `n`, and nothing otherwise. */
  lemma GroupRowSums(es: seq<Entry>, m: string, status: string, n: string)
    ensures EntrySum(GroupRow(es, m, status), n, NumberOf) == if m == n then EntrySum(es, n, NumberOf) else 0.0
    ensures EntrySum(GroupRow(es, m, status), n, FractionOf) == if m == n then EntrySum(es, n, FractionOf) else 0.0
  {
    var h := GroupRow(es, m, status);
    if h != [] {
      EntrySumStep(h, n, NumberOf);
      EntrySumStep(h, n, FractionOf);
    }
    if m == n {
      WithNameSums(es, n);
    }
  }

  /** Collapsing rare failures keeps each run's totals. */
  lemma MergedSums(es: seq<Entry>, names: seq<string>, minfailfrac: real, n: string)
    requires Distinct(names) && n in names
    ensures EntrySum(Merged(es, names, minfailfrac), n, NumberOf) == EntrySum(es, n, NumberOf)
    ensures EntrySum(Merged(es, names, minfailfrac), n, FractionOf) == EntrySum(es, n, FractionOf)
  {
    var ab := Absorbed(es, minfailfrac);
    var g := Grouped(ab, names, OtherStatus);
    var others := OtherRows(es, names, minfailfrac);
    assert RowsOf(others) == RowsOf(g);
    GroupedSums(ab, names, OtherStatus, n);
    EntrySumConcat(Kept(es, minfailfrac), others, n, NumberOf);
    EntrySumConcat(Kept(es, minfailfrac), others, n, FractionOf);
    KeptAbsorbedSum(es, minfailfrac, n, NumberOf);
    KeptAbsorbedSum(es, minfailfrac, n, FractionOf);
  }

  /** Collapsing successes keeps each run's totals. */
  lemma GroupSuccessSums(es: seq<Entry>, names: seq<string>, groupsuccess: bool, n: string)
    requires Distinct(names) && n in names
    ensures EntrySum(GroupSuccess(es, names, groupsuccess), n, NumberOf) == EntrySum(es, n, NumberOf)
    ensures EntrySum(GroupSuccess(es, names, groupsuccess), n, FractionOf) == EntrySum(es, n, FractionOf)
  {
    if groupsuccess {
      var g := Grouped(SuccessOf(es), names, GroupedSuccessStatus);
      GroupedSums(SuccessOf(es), names, GroupedSuccessStatus, n);
      EntrySumConcat(NotSuccessOf(es), g, n, NumberOf);
      EntrySumConcat(NotSuccessOf(es), g, n, FractionOf);
      SuccessSplitSum(es, n, NumberOf);
      SuccessSplitSum(es, n, FractionOf);
    }
  }

  /** A run's rows sum to its report's totals; other runs' labels add nothing. */
  lemma {:induction false} RunRowsSums(name: string, rows: seq<Row>, n: string)
    ensures RunTotal(RunRows(name, rows), n, NumberOf) == if name == n then SumNumbers(rows) as real else 0.0
    ensures RunTotal(RunRows(name, rows), n, FractionOf) == if name == n then SumFractions(rows) else 0.0
  {
    if rows != [] {
      RunRowsSums(name, rows[1..], n);
    }
  }

  /** In the rows of all runs, with distinct names, run `k`'s totals are its report's. */
  lemma {:induction false} AllRowsSums(ss: seq<Summary>, k: nat)
    requires AllReported(ss) && k < |ss|
    requires forall i, j :: 0 <= i < j < |ss| ==> ss[i].name != ss[j].name
    ensures RunTotal(AllRows(ss), ss[k].name, NumberOf) == SumNumbers(ss[k].zmwStats.value) as real
    ensures RunTotal(AllRows(ss), ss[k].name, FractionOf) == SumFractions(ss[k].zmwStats.value)
  {
    var n := ss[k].name;
    var a := RunRows(ss[0].name, ss[0].zmwStats.value);
    var b := AllRows(ss[1..]);
    RunTotalConcat(a, b, n, NumberOf);
    RunTotalConcat(a, b, n, FractionOf);
    RunRowsSums(ss[0].name, ss[0].zmwStats.value, n);
    if k == 0 {
      AllRowsAbsent(ss[1..], n);
    } else {
      AllRowsSums(ss[1..], k - 1);
    }
  }

  /** A name no run carries has no rows. */
  lemma {:induction false} AllRowsAbsent(ss: seq<Summary>, n: string)
    requires AllReported(ss) && forall i :: 0 <= i < |ss| ==> ss[i].name != n
    ensures RunTotal(AllRows(ss), n, NumberOf) == 0.0 && RunTotal(AllRows(ss), n, FractionOf) == 0.0
  {
    if ss != [] {
      var a := RunRows(ss[0].name, ss[0].zmwStats.value);
      var b := AllRows(ss[1..]);
      RunTotalConcat(a, b, n, NumberOf);
      RunTotalConcat(a, b, n, FractionOf);
      RunRowsSums(ss[0].name, ss[0].zmwStats.value, n);
      AllRowsAbsent(ss[1..], n);
    }
  }

  /**
   * Collapsing and ordering lose no ZMWs: in the output, each run's numbers
   * and fractions sum to those of its report.
   */
  lemma ZmwStatsKeepRunTotals(ss: Summaries, minfailfrac: real, groupsuccess: bool, k: nat)
    requires Valid(ss) && HasZmwStats(ss) && k < |ss.summaries|
    ensures var out := ZmwStats(ss, minfailfrac, groupsuccess).value;
            var report := ss.summaries[k].zmwStats.value;
            && RunTotal(out, ss.summaries[k].name, NumberOf) == SumNumbers(report) as real
            && RunTotal(out, ss.summaries[k].name, FractionOf) == SumFractions(report)
  {
    var s := ss.summaries;
    var n := s[k].name;
    var names := Names(s);
    var rows := AllRows(s);
    var an := Annotate(rows);
    var merged := Merged(an, names, minfailfrac);
    var c := Collapsed(s, minfailfrac, groupsuccess);
    var o := Ordered(c, names);
    ZmwStatsValue(ss, minfailfrac, groupsuccess);
    assert RowsOf(an) == rows;
    assert Distinct(names) && n in names by {
      assert names[k] == n;
    }
    AllRowsSums(s, k);
    MergedSums(an, names, minfailfrac, n);
    GroupSuccessSums(merged, names, groupsuccess, n);
    EntrySumPermutation(o, c, n, NumberOf);
    EntrySumPermutation(o, c, n, FractionOf);
  }
}
