/**
 * The sessions table: the CSV export of every record, the progress bars of the
 * metric boxes, the newest-first ordering of the sessions and the three global
 * figures above the table.
 */
module SessionsTable {
  import opened Wrappers
  import opened JsNumber
  import opened JsString
  import opened Domain
  import opened Sorting
  import Records

  // ---------- CSV fields ----------

  /** The values a CSV cell is built from. */
  datatype CsvValue = Absent | Text(s: string) | Number(n: Num) | Boolean(b: bool) | Date(t: int)

  /** `String(value)` (with `toISOString()` for dates); `numText` and `isoText` stand for the engine's formatting. */
  function RawText(v: CsvValue, numText: real -> string, isoText: int -> string): string {
    match v
    case Absent => ""
    case Text(s) => s
    case Number(Finite(x)) => numText(x)
    case Number(NaN) => "NaN"
    case Number(Infinity(p)) => if p then "Infinity" else "-Infinity"
    case Boolean(b) => if b then "true" else "false"
    case Date(t) => isoText(t)
  }

  /** A field that must be quoted: it holds a double quote, a comma, a line feed or a carriage return. */
  predicate NeedsQuoting(raw: string) {
    Includes(raw, "\"") || Includes(raw, ",") || Includes(raw, "\n") || Includes(raw, "\r")
  }

  /** `raw.replace(/"/g, '""')`. */
  function DoubleQuotes(raw: string): string
    decreases |raw|
  {
    if |raw| == 0 then ""
    else (if raw[0] == '"' then "\"\"" else [raw[0]]) + DoubleQuotes(raw[1..])
  }

  /** `toCsvValue`: nothing for null and undefined; a field that needs it quoted, with its quotes doubled. */
  function ToCsvValue(v: CsvValue, numText: real -> string, isoText: int -> string): (field: string)
    ensures v.Absent? ==> field == ""
    ensures !NeedsQuoting(RawText(v, numText, isoText)) ==> field == RawText(v, numText, isoText)
    ensures !v.Absent? && NeedsQuoting(RawText(v, numText, isoText)) ==>
              field == "\"" + DoubleQuotes(RawText(v, numText, isoText)) + "\""
  {
    if v.Absent? then ""
    else
      var raw := RawText(v, numText, isoText);
      if NeedsQuoting(raw) then "\"" + DoubleQuotes(raw) + "\"" else raw
  }

  /** Reading a field back: strip the enclosing quotes and collapse each `""` to `"`. */
  function Unquote(field: string): string {
    if |field| >= 2 && field[0] == '"' && field[|field| - 1] == '"' then CollapseQuotes(field[1..|field| - 1])
    else field
  }

  function CollapseQuotes(s: string): string
    decreases |s|
  {
    if |s| >= 2 && s[0] == '"' && s[1] == '"' then "\"" + CollapseQuotes(s[2..])
    else if |s| == 0 then ""
    else [s[0]] + CollapseQuotes(s[1..])
  }

  lemma {:induction false} CollapseDoubled(raw: string)
    ensures CollapseQuotes(DoubleQuotes(raw)) == raw
    decreases |raw|
  {
    if |raw| > 0 {
      CollapseDoubled(raw[1..]);
      var d := DoubleQuotes(raw);
      if raw[0] == '"' {
        assert d[2..] == DoubleQuotes(raw[1..]);
      } else {
        assert d[1..] == DoubleQuotes(raw[1..]);
      }
    }
  }

  /** Every `"` of the raw text appears doubled inside a quoted field. */
  lemma {:induction false} DoubleQuotesLength(raw: string)
    ensures |DoubleQuotes(raw)| == |raw| + multiset(raw)['"']
    decreases |raw|
  {
    if |raw| > 0 {
      DoubleQuotesLength(raw[1..]);
      assert raw == [raw[0]] + raw[1..];
    }
  }

  /** A field written by `toCsvValue` reads back as the text it was made from. */
  lemma CsvRoundTrip(v: CsvValue, numText: real -> string, isoText: int -> string)
    ensures Unquote(ToCsvValue(v, numText, isoText)) == RawText(v, numText, isoText)
  {
    var raw := RawText(v, numText, isoText);
    if !v.Absent? {
      if NeedsQuoting(raw) {
        var field := "\"" + DoubleQuotes(raw) + "\"";
        assert field[1..|field| - 1] == DoubleQuotes(raw);
        CollapseDoubled(raw);
      } else if |raw| >= 2 && raw[0] == '"' {
        IncludesChar(raw, '"');
        assert false;
      }
    }
  }

  /** An unquoted field holds none of the four special characters. */
  lemma PlainFieldIsSafe(v: CsvValue, numText: real -> string, isoText: int -> string)
    requires !NeedsQuoting(RawText(v, numText, isoText))
    ensures var f := ToCsvValue(v, numText, isoText);
            '"' !in f && ',' !in f && '\n' !in f && '\r' !in f
  {
    var raw := RawText(v, numText, isoText);
    IncludesChar(raw, '"');
    IncludesChar(raw, ',');
    IncludesChar(raw, '\n');
    IncludesChar(raw, '\r');
  }

  // ---------- CSV rows ----------

  /** How many columns the export has. */
  const ColumnCount: nat := 18

  /** The header row: the eighteen column names joined by commas. */
  const HeaderLine: string :=
    "sessionId,patientId,patientName,deviceModel,deviceSerial,startedAt,endedAt,recordId,recordedAt,"
    + "bpm,spo2,respRate,airflowValue,respBaseline,respDiffAbs,micAirValue,resp2Adc,resp2Positive"

  function OptNumber(v: Option<Num>): CsvValue {
    match v
    case Some(n) => Number(n)
    case None => Absent
  }

  /** The eighteen values of one record's row, in header order. */
  function RecordValues(s: Session, rec: SessionData): (vs: seq<CsvValue>)
    ensures |vs| == ColumnCount
  {
    [ Text(s.id), Text(s.patient.id), Text(s.patient.user.fullname.GetOr("")),
      Text(s.device.model), Text(s.device.serialNumber), Date(s.startedAt),
      match s.endedAt case Some(t) => Date(t) case None => Absent,
      Text(rec.id), Date(rec.recordedAt),
      OptNumber(rec.bpm), OptNumber(rec.spo2), OptNumber(rec.respRate), OptNumber(rec.airflowValue),
      OptNumber(rec.respBaseline), OptNumber(rec.respDiffAbs), OptNumber(rec.micAirValue),
      OptNumber(rec.resp2Adc),
      match rec.resp2Positive case Some(b) => Boolean(b) case None => Text("") ]
  }

  /** `rowValues.map(toCsvValue).join(",")`. */
  function RecordRow(s: Session, rec: SessionData, numText: real -> string, isoText: int -> string): string {
    var vs := RecordValues(s, rec);
    Join(seq(|vs|, i requires 0 <= i < |vs| => ToCsvValue(vs[i], numText, isoText)), ",")
  }

  /** The rows of one session: one per record, in order. */
  function SessionRows(s: Session, numText: real -> string, isoText: int -> string): (rows: seq<string>)
    ensures |rows| == |s.records|
  {
    seq(|s.records|, j requires 0 <= j < |s.records| => RecordRow(s, s.records[j], numText, isoText))
  }

  /** The rows below the header: the sessions' rows, session after session. */
  function CsvBody(ss: seq<Session>, numText: real -> string, isoText: int -> string): seq<string>
    decreases |ss|
  {
    if |ss| == 0 then []
    else CsvBody(ss[..|ss| - 1], numText, isoText) + SessionRows(ss[|ss| - 1], numText, isoText)
  }

  /** The body up to session `i + 1` is the body up to `i` followed by session `i`'s rows. */
  lemma CsvBodyPrefix(ss: seq<Session>, i: nat, numText: real -> string, isoText: int -> string)
    requires i < |ss|
    ensures CsvBody(ss[..i + 1], numText, isoText) == CsvBody(ss[..i], numText, isoText) + SessionRows(ss[i], numText, isoText)
  {
    assert ss[..i + 1][..i] == ss[..i];
  }

  /** `buildCsvRows`: the header line and then one row per record of every session. */
  method BuildCsvRows(ss: seq<Session>, numText: real -> string, isoText: int -> string) returns (rows: seq<string>)
    ensures rows == [HeaderLine] + CsvBody(ss, numText, isoText)
  {
    rows := [HeaderLine];
    for i := 0 to |ss|
      invariant rows == [HeaderLine] + CsvBody(ss[..i], numText, isoText)
    {
      var s := ss[i];
      if |s.records| > 0 {
        rows := PushSessionRows(rows, s, numText, isoText);
      }
      CsvBodyPrefix(ss, i, numText, isoText);
    }
    assert ss[..|ss|] == ss;
  }

  /** The inner `records.forEach`: one row pushed per record of the session. */
  method PushSessionRows(rows: seq<string>, s: Session, numText: real -> string, isoText: int -> string) returns (rows': seq<string>)
    ensures rows' == rows + SessionRows(s, numText, isoText)
  {
    rows' := rows;
    for j := 0 to |s.records|
      invariant rows' == rows + SessionRows(s, numText, isoText)[..j]
    {
      var row := RecordRow(s, s.records[j], numText, isoText);
      assert SessionRows(s, numText, isoText)[..j + 1] == SessionRows(s, numText, isoText)[..j] + [row];
      rows' := rows' + [row];
    }
    assert SessionRows(s, numText, isoText)[..|s.records|] == SessionRows(s, numText, isoText);
  }

  /** One row per record: the body has as many rows as the sessions have records. */
  lemma {:induction false} CsvBodyLength(ss: seq<Session>, numText: real -> string, isoText: int -> string)
    ensures |CsvBody(ss, numText, isoText)| == Records.TotalRecords(ss)
    decreases |ss|
  {
    if |ss| > 0 {
      CsvBodyLength(ss[..|ss| - 1], numText, isoText);
      TotalRecordsSnoc(ss[..|ss| - 1], ss[|ss| - 1]);
      assert ss[..|ss| - 1] + [ss[|ss| - 1]] == ss;
    }
  }

  lemma {:induction false} TotalRecordsSnoc(ss: seq<Session>, s: Session)
    ensures Records.TotalRecords(ss + [s]) == Records.TotalRecords(ss) + |s.records|
    decreases |ss|
  {
    if |ss| > 0 {
      assert (ss + [s])[1..] == ss[1..] + [s];
      TotalRecordsSnoc(ss[1..], s);
    } else {
      assert Records.TotalRecords([s][1..]) == 0;
    }
  }

  /** A session without records adds no row. */
  lemma SessionWithoutRecords(ss: seq<Session>, s: Session, numText: real -> string, isoText: int -> string)
    requires |s.records| == 0
    ensures CsvBody(ss + [s], numText, isoText) == CsvBody(ss, numText, isoText)
  {
    assert (ss + [s])[..|ss|] == ss;
  }

  /** Row `k` of the file is the `k`-th record overall, written after the header. */
  lemma CsvRowCount(ss: seq<Session>, numText: real -> string, isoText: int -> string)
    ensures var rows := [HeaderLine] + CsvBody(ss, numText, isoText);
            |rows| == 1 + Records.TotalRecords(ss) && rows[0] == HeaderLine
  {
    CsvBodyLength(ss, numText, isoText);
  }

  // ---------- metric boxes ----------

  /** `safeNum`: a finite number itself, anything else (null and undefined included) 0. */
  function SafeNum(n: Option<Num>): (x: real)
    ensures (n.Some? && n.value.Finite?) ==> x == n.value.value
    ensures !(n.Some? && n.value.Finite?) ==> x == 0.0
  {
    match n
    case Some(Finite(v)) => v
    case _ => 0.0
  }

  /** `pct`: where `x` lies between `min` and `max`, as a percentage clamped to [0, 100]; 0 for an empty range. */
  function Pct(x: real, min: real, max: real): (p: real)
    ensures max <= min ==> p == 0.0
    ensures 0.0 <= p <= 100.0
    ensures min < max && x <= min ==> p == 0.0
    ensures min < max && x >= max ==> p == 100.0
  {
    if max <= min then 0.0
    else
      var raw := ((x - min) / (max - min)) * 100.0;
      RatioBounds(x - min, max - min);
      Clamp(raw)
  }

  function Clamp(v: real): real {
    if v < 0.0 then 0.0 else if v > 100.0 then 100.0 else v
  }

  lemma RatioBounds(a: real, d: real)
    requires d > 0.0
    ensures a <= 0.0 ==> (a / d) * 100.0 <= 0.0
    ensures a >= d ==> (a / d) * 100.0 >= 100.0
  {
    assert (a / d) * d == a;
    if a >= d {
      assert a / d >= 1.0;
    }
  }

  lemma RatioMonotone(a: real, b: real, d: real)
    requires d > 0.0 && a <= b
    ensures (a / d) * 100.0 <= (b / d) * 100.0
  {
    assert (a / d) * d == a;
    assert (b / d) * d == b;
    assert a / d <= b / d;
  }

  /** A larger value never shows a shorter bar. */
  lemma PctMonotone(x1: real, x2: real, min: real, max: real)
    requires x1 <= x2
    ensures Pct(x1, min, max) <= Pct(x2, min, max)
  {
    if min < max {
      RatioMonotone(x1 - min, x2 - min, max - min);
    }
  }

  /** The bar of a metric box: `pct(safeNum(valueNow), min, max)`. */
  function MetricProgress(valueNow: Option<Num>, st: Records.MetricStats): (p: real)
    ensures 0.0 <= p <= 100.0
    ensures st.max <= st.min ==> p == 0.0
  {
    Pct(SafeNum(valueNow), st.min, st.max)
  }

  // ---------- the table ----------

  /** `sorted`: the sessions by start time, newest first, equal start times in their original order. */
  function SortedSessions(ss: seq<Session>): seq<Session> {
    SortDesc(ss, StartedAt)
  }

  /** The sorted table holds the same sessions, newest first. */
  lemma SortedSessionsSpec(ss: seq<Session>)
    ensures SortedDesc(SortedSessions(ss), StartedAt)
    ensures multiset(SortedSessions(ss)) == multiset(ss)
  {
    SortDescProps(ss, StartedAt);
  }

  datatype GlobalFigures = GlobalFigures(patients: nat, todaySessions: nat, readings: nat)

  /** `globalStats` over the sorted sessions: distinct patients, sessions started today, and all records. */
  function GlobalStats(ss: seq<Session>, todayStart: int, todayEnd: int): GlobalFigures {
    var sorted := SortedSessions(ss);
    GlobalFigures(|Records.PatientIds(sorted)|, Records.CountStartedWithin(sorted, todayStart, todayEnd), Records.TotalRecords(sorted))
  }

  lemma {:induction false} InsertFigures(x: Session, t: seq<Session>, todayStart: int, todayEnd: int)
    ensures Records.PatientIds(Insert(x, t, StartedAt)) == Records.PatientIds([x] + t)
    ensures Records.CountStartedWithin(Insert(x, t, StartedAt), todayStart, todayEnd) == Records.CountStartedWithin([x] + t, todayStart, todayEnd)
    ensures Records.TotalRecords(Insert(x, t, StartedAt)) == Records.TotalRecords([x] + t)
    decreases |t|
  {
    if |t| == 0 || StartedAt(x) >= StartedAt(t[0]) {
    } else {
      InsertFigures(x, t[1..], todayStart, todayEnd);
      assert ([x] + t)[1..] == t;
      assert ([x] + t[1..])[1..] == t[1..];
      assert ([t[0]] + Insert(x, t[1..], StartedAt))[1..] == Insert(x, t[1..], StartedAt);
    }
  }

  /** Sorting changes none of the three figures. */
  lemma {:induction false} SortKeepsFigures(ss: seq<Session>, todayStart: int, todayEnd: int)
    ensures Records.PatientIds(SortedSessions(ss)) == Records.PatientIds(ss)
    ensures Records.CountStartedWithin(SortedSessions(ss), todayStart, todayEnd) == Records.CountStartedWithin(ss, todayStart, todayEnd)
    ensures Records.TotalRecords(SortedSessions(ss)) == Records.TotalRecords(ss)
    decreases |ss|
  {
    if |ss| > 0 {
      SortKeepsFigures(ss[1..], todayStart, todayEnd);
      var rest := SortDesc(ss[1..], StartedAt);
      InsertFigures(ss[0], rest, todayStart, todayEnd);
      assert ([ss[0]] + rest)[1..] == rest;
      assert ss == [ss[0]] + ss[1..];
    }
  }

  /** The figures read as facts about the sessions themselves. */
  lemma GlobalStatsSpec(ss: seq<Session>, todayStart: int, todayEnd: int)
    ensures var g := GlobalStats(ss, todayStart, todayEnd);
            && g.patients == |Records.PatientIds(ss)| <= |ss|
            && g.todaySessions == Records.CountStartedWithin(ss, todayStart, todayEnd)
            && g.readings == |Records.FlattenRecords(ss)|
  {
    SortKeepsFigures(ss, todayStart, todayEnd);
    Records.PatientIdsBound(ss);
    Records.FlattenLength(ss);
  }

  /** `last`: the record the session card shows as the newest one. */
  function LastRecord(s: Session): (r: Option<SessionData>)
    ensures r.None? <==> |s.records| == 0
    ensures r.Some? ==> exists k :: IsFirstMax(s.records, RecordedAt, k) && s.records[k] == r.value
  {
    Records.LatestRecord(s.records)
  }

  /** The card's patient name as the template literal writes it: a missing name reads "undefined". */
  function NameTemplate(fullname: Option<string>): string {
    match fullname
    case Some(n) => n
    case None => "undefined"
  }

  /** `patientName` as written: the trimmed template text, or the patient id when that is empty. */
  function PatientNameAsWritten(s: Session): string {
    var t := Trim(NameTemplate(s.patient.user.fullname));
    if t != "" then t else s.patient.id
  }

  /** A patient without a name is shown as "undefined", not by its id. */
  lemma PatientNameAsWrittenShowsUndefined(s: Session)
    requires s.patient.user.fullname.None? && s.patient.id != "undefined"
    ensures PatientNameAsWritten(s) == "undefined" != s.patient.id
  {
    assert TrimStart("undefined") == "undefined";
    assert TrimEnd("undefined") == "undefined";
  }

  /** `patientName` as intended: the trimmed full name, or the patient id when it is missing or blank. */
  function PatientName(s: Session): (name: string)
    ensures s.patient.user.fullname.None? ==> name == s.patient.id
    ensures s.patient.user.fullname.Some? && Trim(s.patient.user.fullname.value) != "" ==> name == Trim(s.patient.user.fullname.value)
    ensures s.patient.user.fullname.Some? && Trim(s.patient.user.fullname.value) == "" ==> name == s.patient.id
  {
    var t := Trim(s.patient.user.fullname.GetOr(""));
    if t != "" then t else s.patient.id
  }
}
