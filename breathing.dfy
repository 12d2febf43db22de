/**
 * The breathing-pattern chart: the phase each record is given, the points the
 * chart plots, the bands of consecutive points that share a phase, and the
 * mean baseline the chart draws as a reference line.
 */
module BreathingPattern {
  import opened Wrappers
  import opened JsNumber
  import opened Domain
  import Records

  datatype Phase = Inhale | Hold | Exhale | Rest

  /** `v`: the airflow minus the baseline, each read as 0 when missing. */
  function Deviation(r: SessionData): Num {
    Sub(r.airflowValue.GetOr(Finite(0.0)), r.respBaseline.GetOr(Finite(0.0)))
  }

  /** `diff`: the magnitude of the stored difference, or of `v` when none is stored. */
  function Magnitude(r: SessionData): Num {
    Abs(r.respDiffAbs.GetOr(Deviation(r)))
  }

  /** `derivePhase`: the digital channel decides when present, otherwise the magnitude and sign. */
  function DerivePhase(r: SessionData): Phase {
    if r.resp2Positive == Some(true) then Exhale
    else if r.resp2Positive == Some(false) then Inhale
    else if Less(Magnitude(r), 0.05) then Rest
    else if AtLeast(Magnitude(r), 0.05) && Less(Magnitude(r), 0.15) then Hold
    else if AtLeast(Deviation(r), 0.0) then Inhale
    else Exhale
  }

  /** Which phase a record gets, one condition per phase; NaN fails every comparison. */
  lemma DerivePhaseCases(r: SessionData)
    ensures r.resp2Positive == Some(true) ==> DerivePhase(r) == Exhale
    ensures r.resp2Positive == Some(false) ==> DerivePhase(r) == Inhale
    ensures r.resp2Positive.None? ==>
              && (DerivePhase(r) == Rest <==> Less(Magnitude(r), 0.05))
              && (DerivePhase(r) == Hold <==> AtLeast(Magnitude(r), 0.05) && Less(Magnitude(r), 0.15))
              && (DerivePhase(r) == Inhale <==> !Less(Magnitude(r), 0.15) && AtLeast(Deviation(r), 0.0))
              && (DerivePhase(r) == Exhale <==> !Less(Magnitude(r), 0.15) && !AtLeast(Deviation(r), 0.0))
  {
    if r.resp2Positive.None? {
      match Magnitude(r)
      case Finite(x) => {}
      case NaN => {}
      case Infinity(p) => {}
    }
  }

  /** Without the digital channel, a record whose airflow is NaN and whose difference is missing reads as exhaling. */
  lemma NaNAirflowIsExhale(r: SessionData)
    requires r.resp2Positive.None? && r.respDiffAbs.None? && r.airflowValue == Some(NaN)
    ensures DerivePhase(r) == Exhale
  {
  }

  /** A plotted point. */
  datatype Point = Point(timestamp: int, pressure: Num, baseline: Option<Num>, phase: Phase)

  /** `points`: one point per record, in order. */
  function ToPoints(data: seq<SessionData>): (ps: seq<Point>)
    ensures |ps| == |data|
    ensures forall i :: 0 <= i < |data| ==>
              && ps[i].timestamp == data[i].recordedAt
              && ps[i].pressure == data[i].airflowValue.GetOr(Finite(0.0))
              && ps[i].baseline == data[i].respBaseline
              && ps[i].phase == DerivePhase(data[i])
  {
    seq(|data|, i requires 0 <= i < |data| =>
      Point(data[i].recordedAt, data[i].airflowValue.GetOr(Finite(0.0)), data[i].respBaseline, DerivePhase(data[i])))
  }

  /** A shaded band from one point's timestamp to another's. */
  datatype Band = Band(x1: int, x2: int, phase: Phase)

  /** A run of consecutive point indices `lo..hi` (inclusive). */
  datatype Run = Run(lo: nat, hi: nat, phase: Phase)

  /** Every point of `run` has the run's phase. */
  ghost predicate Uniform(ps: seq<Point>, run: Run) {
    forall j :: run.lo <= j <= run.hi && 0 <= j < |ps| ==> ps[j].phase == run.phase
  }

  /** `runs` are contiguous index ranges that start at 0 and end at `upto - 1`. */
  ghost predicate Contiguous(runs: seq<Run>, upto: nat) {
    && (|runs| == 0 <==> upto == 0)
    && (|runs| > 0 ==> runs[0].lo == 0 && runs[|runs| - 1].hi == upto - 1)
    && (forall k :: 0 <= k < |runs| ==> runs[k].lo <= runs[k].hi < upto)
    && (forall k, l :: 0 <= k && l == k + 1 && l < |runs| ==> runs[l].lo == runs[k].hi + 1)
  }

  /** Every point in a run has the run's phase, and neighbouring runs have different phases. */
  ghost predicate Maximal(ps: seq<Point>, runs: seq<Run>) {
    && (forall k :: 0 <= k < |runs| ==> Uniform(ps, runs[k]))
    && (forall k, l :: 0 <= k && l == k + 1 && l < |runs| ==> runs[k].phase != runs[l].phase)
  }

  /** `runs` split the first `upto` points into maximal runs of one phase. */
  ghost predicate RunsCover(ps: seq<Point>, runs: seq<Run>, upto: nat) {
    upto <= |ps| && Contiguous(runs, upto) && Maximal(ps, runs)
  }

  /** Closing the open run `startIdx..i-1` extends a cover of the first `startIdx` points to the first `i`. */
  lemma CloseRun(ps: seq<Point>, runs: seq<Run>, startIdx: nat, i: nat)
    requires startIdx < i <= |ps|
    requires RunsCover(ps, runs, startIdx)
    requires forall j :: startIdx <= j < i ==> ps[j].phase == ps[startIdx].phase
    requires |runs| > 0 ==> runs[|runs| - 1].phase != ps[startIdx].phase
    ensures RunsCover(ps, runs + [Run(startIdx, i - 1, ps[startIdx].phase)], i)
  {
    var runs' := runs + [Run(startIdx, i - 1, ps[startIdx].phase)];
    assert forall k :: 0 <= k < |runs| ==> runs'[k] == runs[k];
    forall k | 0 <= k < |runs'| ensures Uniform(ps, runs'[k]) {
      if k < |runs| { assert runs'[k] == runs[k]; }
    }
  }

  /** The number of `i` in `1..upto-1` where the phase changes from point `i-1` to point `i`. */
  function Changes(ps: seq<Point>, upto: nat): nat
    requires upto <= |ps|
    decreases upto
  {
    if upto <= 1 then 0
    else Changes(ps, upto - 1) + (if ps[upto - 1].phase != ps[upto - 2].phase then 1 else 0)
  }

  /** Runs of a cover come in index order. */
  lemma {:induction false} RunsOrdered(ps: seq<Point>, runs: seq<Run>, upto: nat, k: nat, l: nat)
    requires RunsCover(ps, runs, upto) && k < l < |runs|
    ensures runs[k].hi < runs[l].lo
    decreases l - k
  {
    if k + 1 < l { RunsOrdered(ps, runs, upto, k + 1, l); }
  }

  /** A cover by maximal runs has exactly one run more than there are phase changes. */
  lemma {:induction false} RunsCount(ps: seq<Point>, runs: seq<Run>, upto: nat)
    requires upto > 0 && RunsCover(ps, runs, upto)
    ensures |runs| == 1 + Changes(ps, upto)
    decreases upto
  {
    var last := runs[|runs| - 1];
    if last.lo < upto - 1 {
      ShrinkLast(ps, runs, upto);
      RunsCount(ps, runs[..|runs| - 1] + [Run(last.lo, upto - 2, last.phase)], upto - 1);
    } else if |runs| > 1 {
      DropLast(ps, runs, upto);
      RunsCount(ps, runs[..|runs| - 1], upto - 1);
    }
  }

  /** When the last run holds two or more points, ending it one point earlier covers one point less, and no phase changes at the end. */
  lemma ShrinkLast(ps: seq<Point>, runs: seq<Run>, upto: nat)
    requires upto > 0 && RunsCover(ps, runs, upto) && runs[|runs| - 1].lo < upto - 1
    ensures var last := runs[|runs| - 1];
            && RunsCover(ps, runs[..|runs| - 1] + [Run(last.lo, upto - 2, last.phase)], upto - 1)
            && ps[upto - 1].phase == ps[upto - 2].phase
  {
    var last := runs[|runs| - 1];
    forall k | 0 <= k < |runs| - 1 ensures runs[k].hi < last.lo {
      RunsOrdered(ps, runs, upto, k, |runs| - 1);
    }
    var shorter := runs[..|runs| - 1] + [Run(last.lo, upto - 2, last.phase)];
    assert forall k :: 0 <= k < |runs| - 1 ==> shorter[k] == runs[k];
    assert Uniform(ps, runs[|runs| - 1]);
    assert Uniform(ps, shorter[|shorter| - 1]);
    assert ps[upto - 1].phase == last.phase && ps[upto - 2].phase == last.phase;
  }

  /** When the last run is the last point alone, dropping it covers one point less, and the phase changes at the end. */
  lemma DropLast(ps: seq<Point>, runs: seq<Run>, upto: nat)
    requires upto > 0 && RunsCover(ps, runs, upto) && runs[|runs| - 1].lo == upto - 1 && |runs| > 1
    ensures RunsCover(ps, runs[..|runs| - 1], upto - 1)
    ensures ps[upto - 1].phase != ps[upto - 2].phase
  {
    var before := runs[..|runs| - 1];
    var prev, last := runs[|runs| - 2], runs[|runs| - 1];
    assert prev.hi == upto - 2 && prev.phase != last.phase;
    forall k | 0 <= k < |before| ensures before[k] == runs[k] && runs[k].hi < upto - 1 {
      RunsOrdered(ps, runs, upto, k, |runs| - 1);
    }
    assert ps[upto - 2].phase == prev.phase && ps[upto - 1].phase == last.phase;
  }

  /** The band a run is drawn as. */
  function BandOf(ps: seq<Point>, run: Run): Band
    requires run.lo < |ps| && run.hi < |ps|
  {
    Band(ps[run.lo].timestamp, ps[run.hi].timestamp, run.phase)
  }

  /** `bands` draws `runs`: one band per run, in the same order. */
  ghost predicate Drawn(ps: seq<Point>, runs: seq<Run>, bands: seq<Band>) {
    && |bands| == |runs|
    && forall k :: 0 <= k < |runs| ==> runs[k].lo < |ps| && runs[k].hi < |ps| && bands[k] == BandOf(ps, runs[k])
  }

  /** Drawing one more run adds its band at the end. */
  lemma AddBand(ps: seq<Point>, runs: seq<Run>, bands: seq<Band>, run: Run, band: Band)
    requires run.lo < |ps| && run.hi < |ps| && band == BandOf(ps, run) && Drawn(ps, runs, bands)
    ensures Drawn(ps, runs + [run], bands + [band])
  {
    var runs', bands' := runs + [run], bands + [band];
    forall k | 0 <= k < |runs'| ensures runs'[k].lo < |ps| && runs'[k].hi < |ps| && bands'[k] == BandOf(ps, runs'[k]) {
      if k < |runs| {
        assert bands'[k] == bands[k] && runs'[k] == runs[k];
      }
    }
  }

  /**
   * The state of the scan before point `i`: the points before `startIdx` are
   * covered and drawn, and the run opened at `startIdx` is still open.
   */
  ghost predicate Scanned(ps: seq<Point>, runs: seq<Run>, bands: seq<Band>, startIdx: nat, i: nat) {
    && startIdx < i <= |ps|
    && RunsCover(ps, runs, startIdx)
    && (forall j :: startIdx <= j < i ==> ps[j].phase == ps[startIdx].phase)
    && (|runs| > 0 ==> runs[|runs| - 1].phase != ps[startIdx].phase)
    && Drawn(ps, runs, bands)
  }

  /** One step of the scan: the open run grows by one point, or it is closed and drawn and a new one opens at `i`. */
  lemma ScanStep(ps: seq<Point>, runs: seq<Run>, bands: seq<Band>, startIdx: nat, i: nat)
    requires i < |ps| && Scanned(ps, runs, bands, startIdx, i)
    ensures ps[i - 1].phase == ps[i].phase ==> Scanned(ps, runs, bands, startIdx, i + 1)
    ensures ps[i - 1].phase != ps[i].phase ==>
              Scanned(ps, runs + [Run(startIdx, i - 1, ps[i - 1].phase)],
                      bands + [Band(ps[startIdx].timestamp, ps[i - 1].timestamp, ps[i - 1].phase)], i, i + 1)
  {
    if ps[i - 1].phase != ps[i].phase {
      var run := Run(startIdx, i - 1, ps[i - 1].phase);
      CloseRun(ps, runs, startIdx, i);
      AddBand(ps, runs, bands, run, Band(ps[startIdx].timestamp, ps[i - 1].timestamp, ps[i - 1].phase));
    }
  }

  /** Closing the run still open after the scan completes the cover, with one run more than there are phase changes. */
  lemma CloseLast(ps: seq<Point>, runs: seq<Run>, startIdx: nat)
    requires startIdx < |ps| && RunsCover(ps, runs, startIdx)
    requires forall j :: startIdx <= j < |ps| ==> ps[j].phase == ps[startIdx].phase
    requires |runs| > 0 ==> runs[|runs| - 1].phase != ps[startIdx].phase
    ensures var runs' := runs + [Run(startIdx, |ps| - 1, ps[startIdx].phase)];
            RunsCover(ps, runs', |ps|) && |runs'| == 1 + Changes(ps, |ps|)
  {
    var run := Run(startIdx, |ps| - 1, ps[startIdx].phase);
    CloseRun(ps, runs, startIdx, |ps|);
    RunsCount(ps, runs + [run], |ps|);
  }

  /**
   * `bands`: nothing unless the bands are shown and there are at least two
   * points; otherwise one band per maximal run of one phase, in order.
   */
  method PhaseBands(ps: seq<Point>, showPhaseBands: bool) returns (bands: seq<Band>, ghost runs: seq<Run>)
    ensures !(showPhaseBands && |ps| > 1) ==> bands == []
    ensures showPhaseBands && |ps| > 1 ==>
              && RunsCover(ps, runs, |ps|)
              && |runs| == 1 + Changes(ps, |ps|)
              && Drawn(ps, runs, bands)
  {
    bands := [];
    runs := [];
    if showPhaseBands && |ps| > 1 {
      var startIdx := 0;
      for i := 1 to |ps|
        invariant Scanned(ps, runs, bands, startIdx, i)
      {
        var prev := ps[i - 1];
        var cur := ps[i];
        ScanStep(ps, runs, bands, startIdx, i);
        if prev.phase != cur.phase {
          bands := bands + [Band(ps[startIdx].timestamp, prev.timestamp, prev.phase)];
          runs := runs + [Run(startIdx, i - 1, prev.phase)];
          startIdx := i;
        }
      }
      var band := Band(ps[startIdx].timestamp, ps[|ps| - 1].timestamp, ps[startIdx].phase);
      ghost var run := Run(startIdx, |ps| - 1, ps[startIdx].phase);
      CloseLast(ps, runs, startIdx);
      AddBand(ps, runs, bands, run, band);
      bands := bands + [band];
      runs := runs + [run];
    }
  }

  /** The baselines of the points that carry one (`typeof v === "number"` keeps NaN and the infinities). */
  function Baselines(ps: seq<Point>): (vals: seq<Num>)
    ensures |vals| <= |ps|
    decreases |ps|
  {
    if |ps| == 0 then []
    else (if ps[0].baseline.Some? then [ps[0].baseline.value] else []) + Baselines(ps[1..])
  }

  function NumSum(vals: seq<Num>): Num
    decreases |vals|
  {
    if |vals| == 0 then Finite(0.0) else Add(vals[0], NumSum(vals[1..]))
  }

  /** `avgBaseline`: the mean of the baselines, or nothing when no point has one. */
  function AvgBaseline(ps: seq<Point>): (avg: Option<Num>)
    ensures avg.None? <==> forall i :: 0 <= i < |ps| ==> ps[i].baseline.None?
  {
    BaselinesEmpty(ps);
    var vals := Baselines(ps);
    if |vals| == 0 then None else Some(DivCount(NumSum(vals), |vals|))
  }

  lemma {:induction false} BaselinesEmpty(ps: seq<Point>)
    ensures |Baselines(ps)| == 0 <==> forall i :: 0 <= i < |ps| ==> ps[i].baseline.None?
    decreases |ps|
  {
    if |ps| > 0 {
      BaselinesEmpty(ps[1..]);
      assert forall i :: 0 < i < |ps| ==> ps[i] == ps[1..][i - 1];
    }
  }

  /** NaN anywhere makes the sum NaN. */
  lemma {:induction false} NumSumNaN(vals: seq<Num>, i: nat)
    requires i < |vals| && vals[i] == NaN
    ensures NumSum(vals) == NaN
    decreases |vals|
  {
    if i > 0 { NumSumNaN(vals[1..], i - 1); }
  }

  /** The values of a list of finite numbers. */
  function FiniteParts(vals: seq<Num>): seq<real>
    requires forall i :: 0 <= i < |vals| ==> vals[i].Finite?
  {
    seq(|vals|, i requires 0 <= i < |vals| => vals[i].value)
  }

  /** Summing finite numbers is summing their values. */
  lemma {:induction false} NumSumFinite(vals: seq<Num>)
    requires forall i :: 0 <= i < |vals| ==> vals[i].Finite?
    ensures NumSum(vals) == Finite(Records.Sum(FiniteParts(vals)))
    decreases |vals|
  {
    if |vals| > 0 {
      NumSumFinite(vals[1..]);
      assert FiniteParts(vals)[1..] == FiniteParts(vals[1..]);
    }
  }

  /** Every baseline in the list comes from some point. */
  lemma {:induction false} BaselinesFrom(ps: seq<Point>)
    ensures forall k :: 0 <= k < |Baselines(ps)| ==> exists i :: 0 <= i < |ps| && ps[i].baseline == Some(Baselines(ps)[k])
    decreases |ps|
  {
    if |ps| > 0 {
      BaselinesFrom(ps[1..]);
      var head := if ps[0].baseline.Some? then [ps[0].baseline.value] else [];
      forall k | 0 <= k < |Baselines(ps)|
        ensures exists i :: 0 <= i < |ps| && ps[i].baseline == Some(Baselines(ps)[k])
      {
        if k < |head| {
          assert ps[0].baseline == Some(Baselines(ps)[k]);
        } else {
          assert Baselines(ps)[k] == Baselines(ps[1..])[k - |head|];
          var i :| 0 <= i < |ps| - 1 && ps[1..][i].baseline == Some(Baselines(ps[1..])[k - |head|]);
          assert ps[i + 1].baseline == Some(Baselines(ps)[k]);
        }
      }
    } else {
      assert Baselines(ps) == [];
    }
  }

  /** A point's baseline is in the list. */
  lemma {:induction false} BaselinesHas(ps: seq<Point>, i: nat)
    requires i < |ps| && ps[i].baseline.Some?
    ensures exists k :: 0 <= k < |Baselines(ps)| && Baselines(ps)[k] == ps[i].baseline.value
    decreases |ps|
  {
    var head := if ps[0].baseline.Some? then [ps[0].baseline.value] else [];
    if i == 0 {
      assert Baselines(ps)[0] == ps[0].baseline.value;
    } else {
      BaselinesHas(ps[1..], i - 1);
      var k :| 0 <= k < |Baselines(ps[1..])| && Baselines(ps[1..])[k] == ps[1..][i - 1].baseline.value;
      assert Baselines(ps)[k + |head|] == Baselines(ps[1..])[k];
    }
  }

  /** A NaN baseline makes the reference line NaN. */
  lemma AvgBaselineNaN(ps: seq<Point>, i: nat)
    requires i < |ps| && ps[i].baseline == Some(NaN)
    ensures AvgBaseline(ps) == Some(NaN)
  {
    BaselinesHas(ps, i);
    var k :| 0 <= k < |Baselines(ps)| && Baselines(ps)[k] == NaN;
    NumSumNaN(Baselines(ps), k);
  }

  /** When every baseline is finite and between `lo` and `hi`, so is their mean. */
  lemma AvgBaselineWithin(ps: seq<Point>, lo: real, hi: real)
    requires exists i :: 0 <= i < |ps| && ps[i].baseline.Some?
    requires forall i :: 0 <= i < |ps| && ps[i].baseline.Some? ==>
               ps[i].baseline.value.Finite? && lo <= ps[i].baseline.value.value <= hi
    ensures AvgBaseline(ps).Some? && AvgBaseline(ps).value.Finite?
    ensures lo <= AvgBaseline(ps).value.value <= hi
  {
    var vals := Baselines(ps);
    BaselinesFrom(ps);
    assert forall k :: 0 <= k < |vals| ==> vals[k].Finite? && lo <= vals[k].value <= hi by {
      forall k | 0 <= k < |vals| ensures vals[k].Finite? && lo <= vals[k].value <= hi {
        var i :| 0 <= i < |ps| && ps[i].baseline == Some(vals[k]);
      }
    }
    var i :| 0 <= i < |ps| && ps[i].baseline.Some?;
    BaselinesHas(ps, i);
    NumSumFinite(vals);
    Records.MeanWithin(FiniteParts(vals), lo, hi);
  }
}
