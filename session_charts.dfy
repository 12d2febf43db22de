/**
 * The session summary chart: one row per session with the averages of its
 * metrics and the share of records whose secondary channel read positive.
 */
module SessionCharts {
  import opened Wrappers
  import opened JsNumber
  import opened JsString
  import opened Domain
  import Records

  /** `avgOf`: the mean of the finite values of a metric, 0 when there are none. */
  function AvgOf(rs: seq<SessionData>, m: Metric): (avg: real)
    ensures |Records.FiniteValues(rs, m)| == 0 ==> avg == 0.0
    ensures |Records.FiniteValues(rs, m)| > 0 ==>
              Records.MinOf(Records.FiniteValues(rs, m)) <= avg <= Records.MaxOf(Records.FiniteValues(rs, m))
  {
    var vals := Records.FiniteValues(rs, m);
    if |vals| == 0 then 0.0
    else
      Records.MeanBetween(vals);
      Records.Sum(vals) / (|vals| as real)
  }

  /** A record whose value is missing or not finite does not move the average. */
  lemma AvgOfIgnoresNonFinite(rs: seq<SessionData>, r: SessionData, m: Metric)
    requires !(Pick(r, m).Some? && Pick(r, m).value.Finite?)
    ensures AvgOf(rs + [r], m) == AvgOf(rs, m)
  {
    Records.FiniteValuesIgnoresNonFinite(rs, r, m);
  }

  /** The `resp2Positive` values that are booleans, in record order. */
  function Booleans(rs: seq<SessionData>): (bs: seq<bool>)
    ensures |bs| <= |rs|
    decreases |rs|
  {
    if |rs| == 0 then []
    else (if rs[0].resp2Positive.Some? then [rs[0].resp2Positive.value] else []) + Booleans(rs[1..])
  }

  /** Every value of `bs` is `b`. */
  predicate AllAre(bs: seq<bool>, b: bool) {
    forall i :: 0 <= i < |bs| ==> bs[i] == b
  }

  function CountTrue(bs: seq<bool>): (n: nat)
    ensures n <= |bs|
    ensures n == |bs| <==> AllAre(bs, true)
    ensures n == 0 <==> AllAre(bs, false)
    decreases |bs|
  {
    if |bs| == 0 then 0
    else
      var rest := CountTrue(bs[1..]);
      assert forall i :: 0 < i < |bs| ==> bs[i] == bs[1..][i - 1];
      (if bs[0] then 1 else 0) + rest
  }

  /** `pctTrue`: the percentage of the booleans that are true, 0 when there are none. */
  function PctTrue(rs: seq<SessionData>): (p: real)
    ensures 0.0 <= p <= 100.0
    ensures |Booleans(rs)| == 0 ==> p == 0.0
    ensures |Booleans(rs)| > 0 ==> (p == 100.0 <==> AllAre(Booleans(rs), true))
    ensures |Booleans(rs)| > 0 ==> (p == 0.0 <==> AllAre(Booleans(rs), false))
  {
    var bs := Booleans(rs);
    if |bs| == 0 then 0.0
    else
      var t := CountTrue(bs);
      ShareBounds(t, |bs|);
      var p := (t as real / |bs| as real) * 100.0;
      p
  }

  lemma ShareBounds(t: nat, n: nat)
    requires 0 < n && t <= n
    ensures 0.0 <= (t as real / n as real) * 100.0 <= 100.0
    ensures (t as real / n as real) * 100.0 == 100.0 <==> t == n
    ensures (t as real / n as real) * 100.0 == 0.0 <==> t == 0
  {
    var q := t as real / n as real;
    assert q * (n as real) == t as real;
    if t < n { assert q < 1.0; }
  }

  /** A record without a boolean reading does not change the percentage. */
  lemma {:induction false} BooleansIgnoreMissing(rs: seq<SessionData>, r: SessionData)
    requires r.resp2Positive.None?
    ensures Booleans(rs + [r]) == Booleans(rs)
    decreases |rs|
  {
    if |rs| == 0 {
      assert Booleans([r]) == [] + Booleans([]);
    } else {
      assert (rs + [r])[1..] == rs[1..] + [r];
      BooleansIgnoreMissing(rs[1..], r);
    }
  }

  /** One row of the chart (the formatted date is left out). */
  datatype ChartRow = ChartRow(
    session: string,
    avgAirflow: real, avgBpm: real, avgMic: real, avgRespRate: real,
    avgSpo2: real, avgRespDiffAbs: real, avgResp2Adc: real,
    resp2PositivePct: real)

  function RowOf(s: Session, index: nat): ChartRow {
    ChartRow("S" + NatText(index + 1),
             AvgOf(s.records, Airflow), AvgOf(s.records, Bpm), AvgOf(s.records, MicAir),
             AvgOf(s.records, RespRate), AvgOf(s.records, Spo2), AvgOf(s.records, RespDiffAbs),
             AvgOf(s.records, Resp2Adc), PctTrue(s.records))
  }

  /** `chartData`: one row per session, in session order, labelled S1, S2, ... */
  function ChartData(ss: seq<Session>): (rows: seq<ChartRow>)
    ensures |rows| == |ss|
    ensures forall i :: 0 <= i < |ss| ==> rows[i].session == "S" + NatText(i + 1)
    ensures forall i :: 0 <= i < |ss| ==> 0.0 <= rows[i].resp2PositivePct <= 100.0
    ensures forall i :: 0 <= i < |ss| ==>
              && rows[i].avgAirflow == AvgOf(ss[i].records, Airflow)
              && rows[i].avgBpm == AvgOf(ss[i].records, Bpm)
              && rows[i].avgMic == AvgOf(ss[i].records, MicAir)
              && rows[i].avgRespRate == AvgOf(ss[i].records, RespRate)
              && rows[i].avgSpo2 == AvgOf(ss[i].records, Spo2)
              && rows[i].avgRespDiffAbs == AvgOf(ss[i].records, RespDiffAbs)
              && rows[i].avgResp2Adc == AvgOf(ss[i].records, Resp2Adc)
              && rows[i].resp2PositivePct == PctTrue(ss[i].records)
  {
    seq(|ss|, i requires 0 <= i < |ss| => RowOf(ss[i], i))
  }

  /** Different positions get different labels. */
  lemma {:induction false} NatTextInjective(a: nat, b: nat)
    requires NatText(a) == NatText(b)
    ensures a == b
    decreases a
  {
    if a >= 10 && b >= 10 {
      var ta, tb := NatText(a), NatText(b);
      assert ta[|ta| - 1] == DigitChar(a % 10) && tb[|tb| - 1] == DigitChar(b % 10);
      assert ta[..|ta| - 1] == NatText(a / 10) && tb[..|tb| - 1] == NatText(b / 10);
      NatTextInjective(a / 10, b / 10);
    }
  }

  /** No two rows share a label. */
  lemma ChartLabelsDistinct(ss: seq<Session>, i: nat, j: nat)
    requires i < |ss| && j < |ss| && i != j
    ensures ChartData(ss)[i].session != ChartData(ss)[j].session
  {
    if ChartData(ss)[i].session == ChartData(ss)[j].session {
      var a, b := NatText(i + 1), NatText(j + 1);
      assert ("S" + a)[1..] == a && ("S" + b)[1..] == b;
      NatTextInjective(i + 1, j + 1);
    }
  }
}
