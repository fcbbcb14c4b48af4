/**
 * Alignment targets: a `Target` is a named sequence with named `Feature`
 * regions, built from a sequence record whose features it validates one by
 * one (no duplicate names, only allowed names, only + strand features, each
 * region's length matching its extracted sequence) before checking that
 * every required feature is present.
 */
module Targets {
  import opened Wrappers

  /** A region of a target: `sequence` is the target sequence from `start` to `end`. */
  datatype Feature = Feature(name: string, sequence: string, start: int, end: int, length: int)

  /** A feature of a sequence record: its type, strand (absent for none) and location. */
  datatype RecordFeature = RecordFeature(kind: string, strand: Option<int>, start: nat, end: nat)

  /** A sequence record: name, sequence and features. */
  datatype SeqRecord = SeqRecord(name: string, sequence: string, features: seq<RecordFeature>)

  datatype TargetError =
    | FeatureLengthMismatch(feature: string)
    | DuplicateFeature(feature: string)
    | FeatureNotAllowed(feature: string)
    | MinusStrand(feature: string)
    | MissingFeatures(missing: set<string>)
    | NoSuchFeature(feature: string)

  /** `Feature(name=…, seq=…, start=…, end=…)`: `sequence` must be `end - start` long. */
  function NewFeature(name: string, sequence: string, start: int, end: int): (r: Result<Feature, TargetError>)
    ensures r.Success? <==> end - start == |sequence|
    ensures r.Failure? ==> r.error == FeatureLengthMismatch(name)
    ensures r.Success? ==>
              && r.value.name == name && r.value.sequence == sequence
              && r.value.start == start && r.value.end == end
              && r.value.length == |sequence|
  {
    if end - start != |sequence| then Failure(FeatureLengthMismatch(name))
    else Success(Feature(name, sequence, start, end, end - start))
  }

  /** The part of `s` a + strand location covers: `s[start:end]` with slicing's clamping. */
  function Extract(s: string, f: RecordFeature): (r: string)
    ensures |r| <= |s|
  {
    var lo := if f.start <= |s| then f.start else |s|;
    var hi := if f.end <= |s| then f.end else |s|;
    if lo <= hi then s[lo..hi] else ""
  }

  /**
   * The extracted region is `end - start` long exactly when the location is
   * not reversed and lies within the sequence, or is empty; inside the
   * sequence it is the sequence's own slice.
   */
  lemma ExtractFits(s: string, f: RecordFeature)
    ensures |Extract(s, f)| == f.end - f.start <==> f.start <= f.end && (f.end <= |s| || f.start == f.end)
    ensures f.start <= f.end <= |s| ==> Extract(s, f) == s[f.start..f.end]
  {
    if f.start <= f.end && f.end > |s| && f.start < |s| {
      assert |Extract(s, f)| == |s| - f.start;
    }
  }

  /** The names of `fs`. */
  function FeatureNames(fs: seq<Feature>): set<string>
  {
    set f | f in fs :: f.name
  }

  /**
   * One turn of the constructor's loop: `f` is checked against the features
   * accepted so far for a repeated name, then for an allowed name, then for
   * the strand, then for its length, and on success appended.
   */
  function AddFeature(fs: seq<Feature>, f: RecordFeature, s: string, allow: set<string>, allowExtra: bool)
    : Result<seq<Feature>, TargetError>
  {
    if f.kind in FeatureNames(fs) then Failure(DuplicateFeature(f.kind))
    else if !(allowExtra || f.kind in allow) then Failure(FeatureNotAllowed(f.kind))
    else if f.strand != Some(1) then Failure(MinusStrand(f.kind))
    else
      match NewFeature(f.kind, Extract(s, f), f.start, f.end)
      case Failure(e) => Failure(e)
      case Success(feature) => Success(fs + [feature])
  }

  /** The features accepted from `rfs`, or the first feature's error. */
  function ParseFeatures(rfs: seq<RecordFeature>, s: string, allow: set<string>, allowExtra: bool)
    : (r: Result<seq<Feature>, TargetError>)
    ensures r.Success? ==> |r.value| == |rfs| && forall i :: 0 <= i < |rfs| ==> r.value[i].name == rfs[i].kind
  {
    if rfs == [] then Success([])
    else
      match ParseFeatures(rfs[..|rfs| - 1], s, allow, allowExtra)
      case Failure(e) => Failure(e)
      case Success(fs) => AddFeature(fs, rfs[|rfs| - 1], s, allow, allowExtra)
  }

  /** `Target(seqrecord=…, req_features=…, opt_features=…, allow_extra_features=…)`'s features, or its error. */
  function TargetFeatures(record: SeqRecord, req: set<string>, opt: set<string>, allowExtra: bool)
    : Result<seq<Feature>, TargetError>
  {
    match ParseFeatures(record.features, record.sequence, req + opt, allowExtra)
    case Failure(e) => Failure(e)
    case Success(fs) =>
      if req - FeatureNames(fs) != {} then Failure(MissingFeatures(req - FeatureNames(fs)))
      else Success(fs)
  }

  /** No two features share a name. */
  predicate DistinctNames(fs: seq<Feature>)
  {
    forall i, j :: 0 <= i < j < |fs| ==> fs[i].name != fs[j].name
  }

  /** The name-to-feature map holds exactly the features of the list, by name. */
  predicate Indexed(fs: seq<Feature>, dict: map<string, Feature>)
  {
    && DistinctNames(fs)
    && dict.Keys == FeatureNames(fs)
    && forall i :: 0 <= i < |fs| ==> fs[i].name in dict && dict[fs[i].name] == fs[i]
  }

  class Target {
    const name: string
    const sequence: string
    const length: nat
    /** The features in record order. */
    var features: seq<Feature>
    /** The features by name. */
    var featuresDict: map<string, Feature>

    ghost predicate Valid()
      reads this
    {
      length == |sequence| && Indexed(features, featuresDict)
    }

    /** A target without features yet. */
    constructor(name: string, sequence: string)
      ensures this.name == name && this.sequence == sequence && length == |sequence|
      ensures features == [] && featuresDict == map[]
      ensures Valid()
    {
      this.name := name;
      this.sequence := sequence;
      this.length := |sequence|;
      features := [];
      featuresDict := map[];
    }

    /** `has_feature(name)`: some feature has that name. */
    function HasFeature(n: string): (b: bool)
      reads this
      requires Valid()
      ensures b <==> exists i :: 0 <= i < |features| && features[i].name == n
    {
      assert forall f :: f in features ==> exists i :: 0 <= i < |features| && features[i] == f;
      n in featuresDict
    }

    /** `get_feature(name)`: the feature of that name, or an error when there is none. */
    function GetFeature(n: string): (r: Result<Feature, TargetError>)
      reads this
      requires Valid()
      ensures r.Success? <==> HasFeature(n)
      ensures r.Failure? ==> r.error == NoSuchFeature(n)
      ensures r.Success? ==> r.value.name == n && exists i :: 0 <= i < |features| && features[i] == r.value
    {
      if HasFeature(n) then
        var i :| 0 <= i < |features| && features[i].name == n;
        assert featuresDict[n] == features[i];
        Success(featuresDict[n])
      else Failure(NoSuchFeature(n))
    }
  }

  /**
   * `Target.__init__`: the features of `record` validated in order, then the
   * required features checked; the new target lists them in order and by
   * name.
   */
  method NewTarget(record: SeqRecord, req: set<string>, opt: set<string>, allowExtra: bool)
    returns (r: Result<Target, TargetError>)
    ensures r.Success? <==> TargetFeatures(record, req, opt, allowExtra).Success?
    ensures r.Failure? ==> r.error == TargetFeatures(record, req, opt, allowExtra).error
    ensures r.Success? ==>
              && fresh(r.value) && r.value.Valid()
              && r.value.name == record.name && r.value.sequence == record.sequence
              && r.value.features == TargetFeatures(record, req, opt, allowExtra).value
  {
    var t := new Target(record.name, record.sequence);
    var allow := req + opt;
    var rfs := record.features;
    var i := 0;
    while i < |rfs|
      invariant 0 <= i <= |rfs|
      invariant t.name == record.name && t.sequence == record.sequence && t.Valid()
      invariant ParseFeatures(rfs[..i], record.sequence, allow, allowExtra) == Success(t.features)
    {
      var f := rfs[i];
      ParseStep(rfs, i, record.sequence, allow, allowExtra);
      assert f.kind in t.featuresDict <==> f.kind in FeatureNames(t.features);
      if f.kind in t.featuresDict {
        EarlyFailure(record, req, opt, allowExtra, i, t.features);
        return Failure(DuplicateFeature(f.kind));
      }
      if !(allowExtra || f.kind in allow) {
        EarlyFailure(record, req, opt, allowExtra, i, t.features);
        return Failure(FeatureNotAllowed(f.kind));
      }
      if f.strand != Some(1) {
        EarlyFailure(record, req, opt, allowExtra, i, t.features);
        return Failure(MinusStrand(f.kind));
      }
      var feature := NewFeature(f.kind, Extract(record.sequence, f), f.start, f.end);
      if feature.Failure? {
        EarlyFailure(record, req, opt, allowExtra, i, t.features);
        return Failure(feature.error);
      }
      IndexedAppend(t.features, t.featuresDict, feature.value);
      t.features := t.features + [feature.value];
      t.featuresDict := t.featuresDict[f.kind := feature.value];
      i := i + 1;
    }
    assert rfs[..i] == rfs;
    var missing := req - t.featuresDict.Keys;
    if missing != {} {
      return Failure(MissingFeatures(missing));
    }
    r := Success(t);
  }

  /** A feature rejected in the loop makes the target fail with its error. */
  lemma EarlyFailure(record: SeqRecord, req: set<string>, opt: set<string>, allowExtra: bool, i: nat, fs: seq<Feature>)
    requires i < |record.features|
    requires ParseFeatures(record.features[..i], record.sequence, req + opt, allowExtra) == Success(fs)
    requires AddFeature(fs, record.features[i], record.sequence, req + opt, allowExtra).Failure?
    ensures TargetFeatures(record, req, opt, allowExtra)
            == Failure(AddFeature(fs, record.features[i], record.sequence, req + opt, allowExtra).error)
  {
    ParseStep(record.features, i, record.sequence, req + opt, allowExtra);
    ParseFailureSticks(record.features, i + 1, record.sequence, req + opt, allowExtra);
  }

  /** The features of one more record feature: one more turn of the loop. */
  lemma ParseStep(rfs: seq<RecordFeature>, i: nat, s: string, allow: set<string>, allowExtra: bool)
    requires i < |rfs| && ParseFeatures(rfs[..i], s, allow, allowExtra).Success?
    ensures ParseFeatures(rfs[..i + 1], s, allow, allowExtra)
            == AddFeature(ParseFeatures(rfs[..i], s, allow, allowExtra).value, rfs[i], s, allow, allowExtra)
  {
    assert rfs[..i + 1][..i] == rfs[..i];
  }

  /** Adding a feature of a new name to the list and to the map keeps them in agreement. */
  lemma IndexedAppend(fs: seq<Feature>, dict: map<string, Feature>, f: Feature)
    requires Indexed(fs, dict) && f.name !in dict
    ensures Indexed(fs + [f], dict[f.name := f])
  {
    var gs := fs + [f];
    assert FeatureNames(gs) == FeatureNames(fs) + {f.name} by {
      assert forall g :: g in gs <==> g in fs || g == f;
    }
  }

  /** Once a prefix of the record's features fails, the whole list fails with the same error. */
  lemma {:induction false} ParseFailureSticks(rfs: seq<RecordFeature>, n: nat, s: string, allow: set<string>, allowExtra: bool)
    requires n <= |rfs| && ParseFeatures(rfs[..n], s, allow, allowExtra).Failure?
    ensures ParseFeatures(rfs, s, allow, allowExtra) == ParseFeatures(rfs[..n], s, allow, allowExtra)
    decreases |rfs| - n
  {
    if n < |rfs| {
      var longer := rfs[..n + 1];
      assert longer[..n] == rfs[..n];
      assert ParseFeatures(longer, s, allow, allowExtra) == ParseFeatures(rfs[..n], s, allow, allowExtra);
      ParseFailureSticks(rfs, n + 1, s, allow, allowExtra);
    } else {
      assert rfs[..n] == rfs;
    }
  }

  // ---------------------------------------------------------------------
  // Which records make a target.

  /** A location whose extracted region has the location's length: in order and inside the sequence, or empty. */
  predicate Fits(s: string, f: RecordFeature)
  {
    f.start <= f.end && (f.end <= |s| || f.start == f.end)
  }

  /** An earlier feature has the name of feature `i`. */
  predicate SeenBefore(rfs: seq<RecordFeature>, i: nat)
    requires i < |rfs|
  {
    exists j :: 0 <= j < i && rfs[j].kind == rfs[i].kind
  }

  /** What is wrong with feature `i`, judged against the features before it; `None` when nothing is. */
  function ProblemAt(rfs: seq<RecordFeature>, i: nat, s: string, allow: set<string>, allowExtra: bool)
    : Option<TargetError>
    requires i < |rfs|
  {
    if SeenBefore(rfs, i) then Some(DuplicateFeature(rfs[i].kind))
    else if !(allowExtra || rfs[i].kind in allow) then Some(FeatureNotAllowed(rfs[i].kind))
    else if rfs[i].strand != Some(1) then Some(MinusStrand(rfs[i].kind))
    else if !Fits(s, rfs[i]) then Some(FeatureLengthMismatch(rfs[i].kind))
    else None
  }

  /** The feature a record feature becomes. */
  function FeatureOf(s: string, f: RecordFeature): Feature
  {
    Feature(f.kind, Extract(s, f), f.start, f.end, f.end - f.start)
  }

  /** No feature of `rfs` has a problem. */
  predicate NoProblem(rfs: seq<RecordFeature>, s: string, allow: set<string>, allowExtra: bool)
  {
    forall i: nat :: i < |rfs| ==> ProblemAt(rfs, i, s, allow, allowExtra).None?
  }

  /** Feature `i` is the first with a problem, and that problem is `e`. */
  predicate FirstProblem(rfs: seq<RecordFeature>, i: nat, e: TargetError, s: string, allow: set<string>, allowExtra: bool)
  {
    && i < |rfs| && ProblemAt(rfs, i, s, allow, allowExtra) == Some(e)
    && forall j: nat :: j < i ==> ProblemAt(rfs, j, s, allow, allowExtra).None?
  }

  /**
   * The loop accepts the features exactly when none has a problem, turning
   * each into its feature; otherwise it reports the problem of the first
   * feature that has one.
   */
  lemma {:induction false} ParseOutcome(rfs: seq<RecordFeature>, s: string, allow: set<string>, allowExtra: bool)
    ensures var r := ParseFeatures(rfs, s, allow, allowExtra);
            && (r.Success? <==> NoProblem(rfs, s, allow, allowExtra))
            && (r.Success? ==> forall i :: 0 <= i < |rfs| ==> r.value[i] == FeatureOf(s, rfs[i]))
            && (r.Failure? ==> exists i: nat :: FirstProblem(rfs, i, r.error, s, allow, allowExtra))
  {
    if rfs != [] {
      var n := |rfs| - 1;
      var init := rfs[..n];
      var r := ParseFeatures(rfs, s, allow, allowExtra);
      ParseOutcome(init, s, allow, allowExtra);
      ProblemPrefix(rfs, n, s, allow, allowExtra);
      var r0 := ParseFeatures(init, s, allow, allowExtra);
      if r0.Success? {
        LastStep(rfs, r0.value, s, allow, allowExtra);
        LastOutcome(rfs, s, allow, allowExtra);
      } else {
        assert r == r0;
        var i: nat :| FirstProblem(init, i, r0.error, s, allow, allowExtra);
        FirstProblemCarries(rfs, n, i, r0.error, s, allow, allowExtra);
      }
    }
  }

  /** The first problem of a prefix is the first problem of the whole list. */
  lemma FirstProblemCarries(rfs: seq<RecordFeature>, n: nat, i: nat, e: TargetError, s: string, allow: set<string>, allowExtra: bool)
    requires n <= |rfs| && FirstProblem(rfs[..n], i, e, s, allow, allowExtra)
    ensures FirstProblem(rfs, i, e, s, allow, allowExtra) && !NoProblem(rfs, s, allow, allowExtra)
  {
    ProblemPrefix(rfs, n, s, allow, allowExtra);
  }

  /** With no problem before the last feature, the outcome is the last feature's problem. */
  lemma LastOutcome(rfs: seq<RecordFeature>, s: string, allow: set<string>, allowExtra: bool)
    requires rfs != [] && NoProblem(rfs[..|rfs| - 1], s, allow, allowExtra)
    ensures var n := |rfs| - 1;
            && (NoProblem(rfs, s, allow, allowExtra) <==> ProblemAt(rfs, n, s, allow, allowExtra).None?)
            && (ProblemAt(rfs, n, s, allow, allowExtra).Some? ==>
                  FirstProblem(rfs, n, ProblemAt(rfs, n, s, allow, allowExtra).value, s, allow, allowExtra))
  {
    var n := |rfs| - 1;
    ProblemPrefix(rfs, n, s, allow, allowExtra);
    assert forall j: nat :: j < n ==> ProblemAt(rfs, j, s, allow, allowExtra).None?;
  }

  /** A feature's problem depends only on the features up to it. */
  lemma ProblemPrefix(rfs: seq<RecordFeature>, n: nat, s: string, allow: set<string>, allowExtra: bool)
    requires n <= |rfs|
    ensures forall j: nat :: j < n ==> ProblemAt(rfs[..n], j, s, allow, allowExtra) == ProblemAt(rfs, j, s, allow, allowExtra)
  {
    forall j: nat | j < n
      ensures ProblemAt(rfs[..n], j, s, allow, allowExtra) == ProblemAt(rfs, j, s, allow, allowExtra)
    {
      assert forall k :: 0 <= k <= j ==> rfs[..n][k] == rfs[k];
      assert SeenBefore(rfs[..n], j) == SeenBefore(rfs, j);
    }
  }

  /** The last feature's turn, once the ones before it are accepted. */
  lemma LastStep(rfs: seq<RecordFeature>, fs: seq<Feature>, s: string, allow: set<string>, allowExtra: bool)
    requires rfs != []
    requires ParseFeatures(rfs[..|rfs| - 1], s, allow, allowExtra) == Success(fs)
    requires forall i :: 0 <= i < |fs| ==> fs[i] == FeatureOf(s, rfs[i])
    ensures var n := |rfs| - 1;
            var r := ParseFeatures(rfs, s, allow, allowExtra);
            && (r.Success? <==> ProblemAt(rfs, n, s, allow, allowExtra).None?)
            && (r.Success? ==> forall i :: 0 <= i < |rfs| ==> r.value[i] == FeatureOf(s, rfs[i]))
            && (r.Failure? ==> ProblemAt(rfs, n, s, allow, allowExtra) == Some(r.error))
  {
    LastUnfold(rfs, fs, s, allow, allowExtra);
    AddFeatureOutcome(rfs, fs, s, allow, allowExtra);
    AppendFeature(rfs, fs, s);
  }

  lemma LastUnfold(rfs: seq<RecordFeature>, fs: seq<Feature>, s: string, allow: set<string>, allowExtra: bool)
    requires rfs != []
    requires ParseFeatures(rfs[..|rfs| - 1], s, allow, allowExtra) == Success(fs)
    ensures ParseFeatures(rfs, s, allow, allowExtra) == AddFeature(fs, rfs[|rfs| - 1], s, allow, allowExtra)
  {
  }

  lemma AppendFeature(rfs: seq<RecordFeature>, fs: seq<Feature>, s: string)
    requires rfs != [] && |fs| == |rfs| - 1
    requires forall i :: 0 <= i < |fs| ==> fs[i] == FeatureOf(s, rfs[i])
    ensures forall i :: 0 <= i < |rfs| ==> (fs + [FeatureOf(s, rfs[|rfs| - 1])])[i] == FeatureOf(s, rfs[i])
  {
  }

  /** One turn of the loop fails exactly when the last feature has a problem, with that problem. */
  lemma AddFeatureOutcome(rfs: seq<RecordFeature>, fs: seq<Feature>, s: string, allow: set<string>, allowExtra: bool)
    requires rfs != [] && |fs| == |rfs| - 1
    requires forall i :: 0 <= i < |fs| ==> fs[i] == FeatureOf(s, rfs[i])
    ensures var n := |rfs| - 1;
            var r := AddFeature(fs, rfs[n], s, allow, allowExtra);
            && (r.Success? <==> ProblemAt(rfs, n, s, allow, allowExtra).None?)
            && (r.Success? ==> r.value == fs + [FeatureOf(s, rfs[n])])
            && (r.Failure? ==> ProblemAt(rfs, n, s, allow, allowExtra) == Some(r.error))
  {
    var n := |rfs| - 1;
    var f := rfs[n];
    ExtractFits(s, f);
    SeenIffNamed(rfs, fs, s);
  }

  /** The last feature's name is among the accepted features' names exactly when an earlier feature has it. */
  lemma SeenIffNamed(rfs: seq<RecordFeature>, fs: seq<Feature>, s: string)
    requires rfs != [] && |fs| == |rfs| - 1
    requires forall i :: 0 <= i < |fs| ==> fs[i] == FeatureOf(s, rfs[i])
    ensures rfs[|rfs| - 1].kind in FeatureNames(fs) <==> SeenBefore(rfs, |rfs| - 1)
  {
    var n := |rfs| - 1;
    var k := rfs[n].kind;
    if k in FeatureNames(fs) {
      var g :| g in fs && g.name == k;
      var j :| 0 <= j < |fs| && fs[j] == g;
      assert rfs[j].kind == k;
    }
    if SeenBefore(rfs, n) {
      var j :| 0 <= j < n && rfs[j].kind == k;
      assert fs[j] in fs;
    }
  }

  /**
   * `Target(...)` succeeds exactly when the feature names are distinct and
   * allowed, every feature is on the + strand and fits the sequence, and
   * every required feature is present; its features are then the record's,
   * in order.
   */
  lemma TargetAcceptance(record: SeqRecord, req: set<string>, opt: set<string>, allowExtra: bool)
    ensures var rfs := record.features;
            var r := TargetFeatures(record, req, opt, allowExtra);
            && (r.Success? <==>
                  && (forall i, j :: 0 <= i < j < |rfs| ==> rfs[i].kind != rfs[j].kind)
                  && (forall i :: 0 <= i < |rfs| ==> allowExtra || rfs[i].kind in req || rfs[i].kind in opt)
                  && (forall i :: 0 <= i < |rfs| ==> rfs[i].strand == Some(1) && Fits(record.sequence, rfs[i]))
                  && (forall n :: n in req ==> exists i :: 0 <= i < |rfs| && rfs[i].kind == n))
            && (r.Success? ==> |r.value| == |rfs| && forall i :: 0 <= i < |rfs| ==> r.value[i] == FeatureOf(record.sequence, rfs[i]))
  {
    var rfs := record.features;
    var s := record.sequence;
    var allow := req + opt;
    ParseOutcome(rfs, s, allow, allowExtra);
    NoProblemIff(rfs, s, allow, allowExtra);
    var p := ParseFeatures(rfs, s, allow, allowExtra);
    if p.Success? {
      var names := FeatureNames(p.value);
      FeatureNamesOf(p.value, rfs, s);
      if req - names != {} {
        var n :| n in req - names;
        assert !exists i :: 0 <= i < |rfs| && rfs[i].kind == n;
      } else {
        forall n | n in req ensures n in names {
          assert n !in req - names;
        }
      }
    }
  }

  /** No feature has a problem exactly when the names are distinct and allowed and every feature is + strand and fits. */
  lemma NoProblemIff(rfs: seq<RecordFeature>, s: string, allow: set<string>, allowExtra: bool)
    ensures NoProblem(rfs, s, allow, allowExtra)
            <==> && (forall i, j :: 0 <= i < j < |rfs| ==> rfs[i].kind != rfs[j].kind)
                 && (forall i :: 0 <= i < |rfs| ==> allowExtra || rfs[i].kind in allow)
                 && (forall i :: 0 <= i < |rfs| ==> rfs[i].strand == Some(1) && Fits(s, rfs[i]))
  {
    if NoProblem(rfs, s, allow, allowExtra) {
      forall i, j | 0 <= i < j < |rfs| ensures rfs[i].kind != rfs[j].kind {
        assert ProblemAt(rfs, j, s, allow, allowExtra).None?;
      }
      forall i | 0 <= i < |rfs| ensures allowExtra || rfs[i].kind in allow {
        assert ProblemAt(rfs, i, s, allow, allowExtra).None?;
      }
      forall i | 0 <= i < |rfs| ensures rfs[i].strand == Some(1) && Fits(s, rfs[i]) {
        assert ProblemAt(rfs, i, s, allow, allowExtra).None?;
      }
    }
  }

  /** The names of the accepted features are the record's feature names. */
  lemma FeatureNamesOf(fs: seq<Feature>, rfs: seq<RecordFeature>, s: string)
    requires |fs| == |rfs| && forall i :: 0 <= i < |rfs| ==> fs[i] == FeatureOf(s, rfs[i])
    ensures forall n :: n in FeatureNames(fs) <==> exists i :: 0 <= i < |rfs| && rfs[i].kind == n
  {
    forall n ensures n in FeatureNames(fs) <==> exists i :: 0 <= i < |rfs| && rfs[i].kind == n {
      if n in FeatureNames(fs) {
        var g :| g in fs && g.name == n;
        var i :| 0 <= i < |fs| && fs[i] == g;
        assert rfs[i].kind == n;
      }
      if exists i :: 0 <= i < |rfs| && rfs[i].kind == n {
        var i :| 0 <= i < |rfs| && rfs[i].kind == n;
        assert fs[i] in fs;
      }
    }
  }
}
