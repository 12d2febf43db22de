/**
 * The printable report of one session: the device label, the four metric
 * summaries, the per-record series behind its charts, and the texts of the
 * value cells.
 */
module SessionReport {
  import opened Wrappers
  import opened JsNumber
  import opened JsString
  import opened Domain
  import Records

  /** `deviceLabel`: the model, then the serial number in parentheses when there is one, trimmed. */
  function DeviceLabel(d: Device): string {
    Trim(d.model + " " + (if d.serialNumber != "" then "(" + d.serialNumber + ")" else ""))
  }

  /** The label read as text: the trimmed model alone, or the model's text followed by the parenthesised serial. */
  lemma DeviceLabelText(d: Device)
    ensures d.serialNumber == "" ==> DeviceLabel(d) == Trim(d.model)
    ensures d.serialNumber != "" ==>
              DeviceLabel(d) == (if TrimStart(d.model) == "" then "" else TrimStart(d.model) + " ") + "(" + d.serialNumber + ")"
  {
    var m := d.model;
    if d.serialNumber == "" {
      assert m + " " + "" == m + " ";
      TrimStartAppend(m, " ");
      if TrimStart(m) == "" {
        assert TrimStart(" ") == "" by { assert " "[1..] == ""; }
      } else {
        TrimEndAppendSpace(TrimStart(m));
      }
    } else {
      var tail := "(" + d.serialNumber + ")";
      assert m + " " + tail == m + (" " + tail);
      TrimStartAppend(m, " " + tail);
      if TrimStart(m) == "" {
        assert TrimStart(" " + tail) == tail by {
          assert (" " + tail)[1..] == tail;
          assert tail[0] == '(';
        }
      }
      var whole := if TrimStart(m) == "" then tail else TrimStart(m) + (" " + tail);
      assert whole[|whole| - 1] == ')';
      assert TrimEnd(whole) == whole;
    }
  }

  /** `patientName`: the patient's full name, or "Paciente" when the user has none. */
  function ReportPatientName(s: Session): (r: string)
    ensures s.patient.user.fullname.Some? ==> r == s.patient.user.fullname.value
    ensures s.patient.user.fullname.None? ==> r == "Paciente"
  {
    s.patient.user.fullname.GetOr("Paciente")
  }

  /** The four summaries the report prints. */
  datatype ReportStats = ReportStats(bpm: Records.MetricStats, spo2: Records.MetricStats, resp: Records.MetricStats, air: Records.MetricStats)

  /** `stats`: each summary is `computeStats` over the session's records for one metric. */
  function SessionStats(s: Session): (st: ReportStats)
    ensures st.bpm == Records.ComputeStats(s.records, Bpm)
    ensures st.spo2 == Records.ComputeStats(s.records, Spo2)
    ensures st.resp == Records.ComputeStats(s.records, RespRate)
    ensures st.air == Records.ComputeStats(s.records, Airflow)
    ensures |s.records| == 0 ==>
              st.bpm == st.spo2 == st.resp == st.air == Records.MetricStats(0.0, 0.0, 0.0)
  {
    ReportStats(
      Records.ComputeStats(s.records, Bpm),
      Records.ComputeStats(s.records, Spo2),
      Records.ComputeStats(s.records, RespRate),
      Records.ComputeStats(s.records, Airflow))
  }

  /** One point of the report's charts (the formatted time is left out). */
  datatype SeriesPoint = SeriesPoint(
    index: nat,
    bpm: Option<Num>,
    spo2: Option<Num>,
    respRate: Option<Num>,
    airflowValue: Option<Num>)

  /** `typeof v === "number" ? v : null`: any number, NaN and the infinities included, passes. */
  function NumberOrNull(v: Option<Num>): Option<Num> {
    match v
    case Some(n) => Some(n)
    case None => None
  }

  /** `series`: one point per record, numbered from 1, in record order. */
  function Series(records: seq<SessionData>): (ps: seq<SeriesPoint>)
    ensures |ps| == |records|
    ensures forall i :: 0 <= i < |records| ==>
              && ps[i].index == i + 1
              && ps[i].bpm == records[i].bpm && ps[i].spo2 == records[i].spo2
              && ps[i].respRate == records[i].respRate && ps[i].airflowValue == records[i].airflowValue
  {
    seq(|records|, i requires 0 <= i < |records| =>
      SeriesPoint(i + 1, NumberOrNull(records[i].bpm), NumberOrNull(records[i].spo2),
                  NumberOrNull(records[i].respRate), NumberOrNull(records[i].airflowValue)))
  }

  /** The dash shown for a missing value. */
  const Dash: string := "—"

  /**
   * `num`: a finite number written with two decimals by `fixed2`, anything else a dash;
   * also the rule of the `ValuePill` cells of the sessions table.
   */
  function NumText(v: Option<Num>, fixed2: real -> string): (t: string)
    ensures (v.Some? && v.value.Finite?) ==> t == fixed2(v.value.value)
    ensures !(v.Some? && v.value.Finite?) ==> t == Dash
  {
    match v
    case Some(Finite(x)) => fixed2(x)
    case _ => Dash
  }

  /** `boolText`, and the `ValueBool` cells of the sessions table. */
  function BoolText(v: Option<bool>): (t: string)
    ensures v == Some(true) ==> t == "Positiva"
    ensures v == Some(false) ==> t == "Negativa"
    ensures v.None? ==> t == Dash
    ensures t in {"Positiva", "Negativa", Dash}
  {
    if v == Some(true) then "Positiva"
    else if v == Some(false) then "Negativa"
    else Dash
  }
}
