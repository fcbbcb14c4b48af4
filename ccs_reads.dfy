/**
 * Per-read statistics of a set of circular consensus sequences: the length
 * of each sequence, its accuracy, and its number of passes read from the
 * `np:i:<count>` tag of the FASTQ comment. Pass counts are all or nothing:
 * one read without the tag discards them for the whole file.
 */
module CcsReads {
  import opened Wrappers
  import opened Text
  import opened LineShape

  /**
   * One FASTQ record: its sequence, its header comment (`None` when the
   * header has none) and its accuracy. The accuracy is computed from the
   * quality scores by a routine that is not part of this model, so it is an
   * input here.
   */
  datatype Read = Read(sequence: string, comment: Option<string>, accuracy: real)

  /** `CCS_Stats`: passes (or `None`), accuracies and lengths, one entry per read. */
  datatype CcsStats = CcsStats(passes: Option<seq<nat>>, accuracy: seq<real>, length: seq<nat>)

  const DefaultPassTag := "np"

  /**
   * An occurrence of `tag:i:<digits>` at position `p` of comment `c`, as the
   * pattern `(?:^|\s)tag:i:(\d+)(?:\s|$)` finds it: at the start or after
   * whitespace, with a maximal run of digits followed by the end or by
   * whitespace.
   */
  predicate IsPassToken(c: string, tag: string, p: nat)
  {
    && p <= |c|
    && (p == 0 || IsSpace(c[p - 1]))
    && StartsWith(c[p..], tag + ":i:")
    && var q := p + |tag| + 3;
       var n := RunLength(Digits, c[q..]);
       n > 0 && (q + n == |c| || IsSpace(c[q + n]))
  }

  /** The number an occurrence spells. */
  function PassValue(c: string, tag: string, p: nat): nat
    requires IsPassToken(c, tag, p)
  {
    var q := p + |tag| + 3;
    var n := RunLength(Digits, c[q..]);
    assert forall i :: 0 <= i < n ==> c[q..q + n][i] == c[q..][i];
    DigitsValue(c[q..q + n])
  }

  /** The first occurrence at or after `from`, scanning left to right. */
  function PassSearch(c: string, tag: string, from: nat): (r: Option<nat>)
    ensures r.Some? ==>
              exists p: nat :: from <= p && IsPassToken(c, tag, p) && r.value == PassValue(c, tag, p)
                          && forall q :: from <= q < p ==> !IsPassToken(c, tag, q)
    ensures r.None? ==> forall p :: from <= p ==> !IsPassToken(c, tag, p)
    decreases |c| + 1 - from
  {
    if from > |c| then None
    else if IsPassToken(c, tag, from) then Some(PassValue(c, tag, from))
    else PassSearch(c, tag, from + 1)
  }

  /** The pass count in a comment: the value of its leftmost occurrence of the tag. */
  function PassCount(c: string, tag: string): (r: Option<nat>)
    ensures r.Some? <==> exists p :: IsPassToken(c, tag, p)
    ensures r.Some? ==>
              exists p: nat :: IsPassToken(c, tag, p) && r.value == PassValue(c, tag, p)
                          && forall q :: 0 <= q < p ==> !IsPassToken(c, tag, q)
  {
    PassSearch(c, tag, 0)
  }

  /** A read's pass count: none without a comment, else the regular-expression search. */
  function ReadPasses(r: Read, tag: string): Option<nat>
  {
    match r.comment
    case None => None
    case Some(c) => if c == "" then None else PassCount(c, tag)
  }

  /** All records' pass counts, or `None` if one read has none. */
  function PassesOf(records: seq<Read>, tag: string): Option<seq<nat>>
  {
    MapAll((r: Read) => ReadPasses(r, tag), records)
  }

  /** What `get_ccs_stats` returns for the records of a FASTQ file. */
  function CcsStatsOf(records: seq<Read>, tag: string): CcsStats
  {
    CcsStats(if tag == "" then None else PassesOf(records, tag),
             seq(|records|, i requires 0 <= i < |records| => records[i].accuracy),
             seq(|records|, i requires 0 <= i < |records| => |records[i].sequence|))
  }

  /**
   * `get_ccs_stats`: one pass over the records, appending each length and
   * accuracy, and appending each pass count until a read without one
   * discards them.
   */
  method GetCcsStats(records: seq<Read>, passTag: string) returns (stats: CcsStats)
    ensures stats == CcsStatsOf(records, passTag)
  {
    var passes: Option<seq<nat>> := if passTag != "" then Some([]) else None;
    var length: seq<nat> := [];
    var accuracy: seq<real> := [];
    var i := 0;
    while i < |records|
      invariant 0 <= i <= |records|
      invariant length == seq(i, k requires 0 <= k < i => |records[k].sequence|)
      invariant accuracy == seq(i, k requires 0 <= k < i => records[k].accuracy)
      invariant passes == if passTag == "" then None else PassesOf(records[..i], passTag)
    {
      var rec := records[i];
      length := length + [|rec.sequence|];
      accuracy := accuracy + [rec.accuracy];
      assert records[..i + 1] == records[..i] + [rec];
      MapAllSnoc((r: Read) => ReadPasses(r, passTag), records[..i], rec);
      if passes.Some? {
        match rec.comment
        case None =>
          passes := None;
        case Some(c) =>
          if c == "" {
            passes := None;
          } else {
            var m := PassCount(c, passTag);
            if m.None? {
              passes := None;
            } else {
              passes := Some(passes.value + [m.value]);
            }
          }
      }
      i := i + 1;
    }
    assert records[..i] == records;
    stats := CcsStats(passes, accuracy, length);
  }

  /**
   * Lengths and accuracies come one per read. With a tag, pass counts come
   * one per read when every read has one, and are `None` as soon as one
   * read has none; without a tag they are `None`.
   */
  lemma StatsPerRead(records: seq<Read>, tag: string)
    ensures var s := CcsStatsOf(records, tag);
            && |s.length| == |records| && |s.accuracy| == |records|
            && (forall i :: 0 <= i < |records| ==> s.length[i] == |records[i].sequence| && s.accuracy[i] == records[i].accuracy)
            && (tag == "" ==> s.passes.None?)
            && (tag != "" ==>
                  && (s.passes.Some? <==> forall i :: 0 <= i < |records| ==> ReadPasses(records[i], tag).Some?)
                  && (s.passes.Some? ==>
                        |s.passes.value| == |records|
                        && forall i :: 0 <= i < |records| ==> ReadPasses(records[i], tag) == Some(s.passes.value[i])))
  {
    if tag != "" {
      var f := (r: Read) => ReadPasses(r, tag);
      assert forall i :: 0 <= i < |records| ==> f(records[i]) == ReadPasses(records[i], tag);
    }
  }

  /** The docstring's first record: `np:i:18` gives 18 passes. */
  lemma PassCountExample()
    ensures PassCount("np:i:18", DefaultPassTag) == Some(18)
  {
    var c := "np:i:18";
    assert c[0..][..5] == "np:i:";
    assert RunLength(Digits, c[5..]) == 2 by {
      assert c[5..] == "18";
      assert RunLength(Digits, "8") == 1 by {
        assert RunLength(Digits, "") == 0;
        assert "8"[1..] == "";
      }
      assert "18"[1..] == "8";
    }
    assert IsPassToken(c, DefaultPassTag, 0);
    assert c[5..7] == "18";
    assert DigitsValue("18") == 18 by {
      assert "18"[..1] == "1";
      assert DigitsValue("1") == 1 by { assert "1"[..0] == ""; }
    }
  }

  /** The tag must be followed by whitespace or the end: `np:i:18x` holds no pass count. */
  lemma PassCountNeedsDelimiter()
    ensures PassCount("np:i:18x", DefaultPassTag) == None
  {
    var c := "np:i:18x";
    assert !IsPassToken(c, DefaultPassTag, 0) by {
      assert c[5..] == "18x";
      assert RunLength(Digits, c[5..]) == 2 by {
        assert "18x"[1..] == "8x";
        assert "8x"[1..] == "x";
        assert RunLength(Digits, "x") == 0;
      }
    }
    assert forall k :: 0 <= k < |c| ==> !IsSpace(c[k]);
  }
}
