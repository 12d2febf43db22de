/**
 * The session comparison dialog: which session the base is compared with, the
 * averages of the radar chart, the index-aligned series of the line charts,
 * and the signed differences of the metric boxes.
 */
module SessionCompare {
  import opened Wrappers
  import opened JsNumber
  import opened Domain
  import opened Lists
  import Records

  /** `candidates`: every session except the base one. */
  function Candidates(ss: seq<Session>, base: Session): (cs: seq<Session>)
    ensures forall s :: s in cs <==> s in ss && s.id != base.id
    ensures IsSubsequence(cs, ss)
  {
    RemoveWhereSpec(ss, SessionId, base.id);
    FilterIsSubsequence(ss, KeyIsNot(SessionId, base.id));
    RemoveWhere(ss, SessionId, base.id)
  }

  /** `compareSession`: the first session whose id is the chosen one. */
  function CompareSession(ss: seq<Session>, compareId: Option<string>): (r: Option<Session>)
    ensures compareId.None? ==> r.None?
    ensures compareId.Some? ==> r == FindFirst(ss, SessionId, compareId.value)
  {
    match compareId
    case None => None
    case Some(id) => FindFirst(ss, SessionId, id)
  }

  /** Some candidate has this id (`candidates.some(s => s.id === id)`). */
  predicate HasId(cs: seq<Session>, id: string) {
    exists i :: 0 <= i < |cs| && cs[i].id == id
  }

  /**
   * The compare-id effect: no id without a base session or without another
   * session; a non-empty id that names a candidate is kept; otherwise the
   * first candidate's id.
   */
  function NextCompareId(base: Option<Session>, ss: seq<Session>, compareId: Option<string>): (r: Option<string>)
    ensures base.None? ==> r.None?
    ensures base.Some? && |Candidates(ss, base.value)| == 0 ==> r.None?
    ensures base.Some? && compareId.Some? && compareId.value != "" && HasId(Candidates(ss, base.value), compareId.value) ==> r == compareId
    ensures r.Some? ==> base.Some? && HasId(Candidates(ss, base.value), r.value) && r.value != base.value.id
    ensures base.Some? && |Candidates(ss, base.value)| > 0
            && !(compareId.Some? && compareId.value != "" && HasId(Candidates(ss, base.value), compareId.value)) ==>
              r == Some(Candidates(ss, base.value)[0].id)
  {
    match base
    case None => None
    case Some(b) =>
      var cs := Candidates(ss, b);
      if |cs| == 0 then None
      else
        var stillValid := compareId.Some? && compareId.value != "" && HasId(cs, compareId.value);
        assert cs[0] in cs;
        if stillValid then
          var i :| 0 <= i < |cs| && cs[i].id == compareId.value;
          assert cs[i] in cs;
          compareId
        else Some(cs[0].id)
  }

  /** Running the effect again after it has set the id changes nothing. */
  lemma NextCompareIdSettles(base: Option<Session>, ss: seq<Session>, compareId: Option<string>)
    ensures NextCompareId(base, ss, NextCompareId(base, ss, compareId)) == NextCompareId(base, ss, compareId)
  {
    if base.Some? {
      var cs := Candidates(ss, base.value);
      if |cs| > 0 {
        assert HasId(cs, cs[0].id);
      }
    }
  }

  /** The id held by the dialog. */
  class CompareDialog {
    var compareId: Option<string>

    constructor ()
      ensures compareId.None?
    {
      compareId := None;
    }

    /** The effect on `[baseSession, sessions, compareId]`. */
    method SyncCompareId(base: Option<Session>, ss: seq<Session>)
      modifies this
      ensures compareId == NextCompareId(base, ss, old(compareId))
    {
      if base.None? {
        compareId := None;
        return;
      }
      var cs := Candidates(ss, base.value);
      if |cs| == 0 {
        compareId := None;
        return;
      }
      var stillValid := compareId.Some? && compareId.value != "" && HasId(cs, compareId.value);
      if !stillValid {
        compareId := Some(cs[0].id);
      }
    }
  }

  /** One axis of the radar chart. */
  datatype RadarRow = RadarRow(metric: string, base: real, comp: real)

  const RadarMetrics: seq<(string, Metric)> := [("BPM", Bpm), ("SpO₂", Spo2), ("Resp/min", RespRate), ("Flujo Aire", Airflow)]

  /** `radarData`: nothing without a comparison session, else the base and comparison averages of four metrics. */
  function RadarData(baseRecords: seq<SessionData>, compare: Option<Session>): (rows: seq<RadarRow>)
    ensures compare.None? ==> rows == []
    ensures compare.Some? ==> |rows| == |RadarMetrics|
    ensures compare.Some? ==>
              forall k :: 0 <= k < |rows| ==>
                && rows[k].metric == RadarMetrics[k].0
                && rows[k].base == Records.ComputeStats(baseRecords, RadarMetrics[k].1).avg
                && rows[k].comp == Records.ComputeStats(compare.value.records, RadarMetrics[k].1).avg
  {
    match compare
    case None => []
    case Some(c) =>
      seq(|RadarMetrics|, k requires 0 <= k < |RadarMetrics| =>
        RadarRow(RadarMetrics[k].0,
                 Records.ComputeStats(baseRecords, RadarMetrics[k].1).avg,
                 Records.ComputeStats(c.records, RadarMetrics[k].1).avg))
  }

  /** The value of record `i` for a metric when there is such a record and the value is finite. */
  function FiniteAt(rs: seq<SessionData>, i: nat, m: Metric): (v: Option<real>)
    ensures v.None? <==> i >= |rs| || !(Pick(rs[i], m).Some? && Pick(rs[i], m).value.Finite?)
    ensures v.Some? ==> Pick(rs[i], m) == Some(Finite(v.value))
  {
    if i < |rs| then Records.FiniteValue(rs[i], m) else None
  }

  /** One entry of `timeSeriesData`. */
  datatype TimeRow = TimeRow(
    index: nat,
    baseBpm: Option<real>, compBpm: Option<real>,
    baseSpo2: Option<real>, compSpo2: Option<real>,
    baseResp: Option<real>, compResp: Option<real>)

  function Max(a: nat, b: nat): nat { if a >= b then a else b }

  /** `timeSeriesData`: one entry per index of the longer list, each side null where it has no finite value. */
  method TimeSeries(base: seq<SessionData>, comp: seq<SessionData>) returns (data: seq<TimeRow>)
    ensures |data| == Max(|base|, |comp|)
    ensures forall i :: 0 <= i < |data| ==>
              && data[i].index == i + 1
              && data[i].baseBpm == FiniteAt(base, i, Bpm) && data[i].compBpm == FiniteAt(comp, i, Bpm)
              && data[i].baseSpo2 == FiniteAt(base, i, Spo2) && data[i].compSpo2 == FiniteAt(comp, i, Spo2)
              && data[i].baseResp == FiniteAt(base, i, RespRate) && data[i].compResp == FiniteAt(comp, i, RespRate)
  {
    var maxLen := Max(|base|, |comp|);
    if maxLen == 0 {
      return [];
    }
    data := [];
    for i := 0 to maxLen
      invariant |data| == i
      invariant forall j :: 0 <= j < i ==>
                  && data[j].index == j + 1
                  && data[j].baseBpm == FiniteAt(base, j, Bpm) && data[j].compBpm == FiniteAt(comp, j, Bpm)
                  && data[j].baseSpo2 == FiniteAt(base, j, Spo2) && data[j].compSpo2 == FiniteAt(comp, j, Spo2)
                  && data[j].baseResp == FiniteAt(base, j, RespRate) && data[j].compResp == FiniteAt(comp, j, RespRate)
    {
      data := data + [TimeRow(i + 1,
                              FiniteAt(base, i, Bpm), FiniteAt(comp, i, Bpm),
                              FiniteAt(base, i, Spo2), FiniteAt(comp, i, Spo2),
                              FiniteAt(base, i, RespRate), FiniteAt(comp, i, RespRate))];
    }
  }

  /** The differences a metric box shows: comparison minus base, for each summary. */
  function Diffs(base: Records.MetricStats, comp: Records.MetricStats): (d: Records.MetricStats)
    ensures base.avg + d.avg == comp.avg && base.min + d.min == comp.min && base.max + d.max == comp.max
    ensures d == Records.MetricStats(0.0, 0.0, 0.0) <==> base == comp
  {
    Records.MetricStats(comp.avg - base.avg, comp.min - base.min, comp.max - base.max)
  }

  /** `sign`: "0.00" for zero, a leading "+" on a positive difference, `fixed2` doing the rounding. */
  function Sign(v: real, fixed2: real -> string): (t: string)
    ensures v == 0.0 ==> t == "0.00"
    ensures v > 0.0 ==> t == "+" + fixed2(v)
    ensures v < 0.0 ==> t == fixed2(v)
  {
    if v == 0.0 then "0.00" else (if v > 0.0 then "+" else "") + fixed2(v)
  }
}
