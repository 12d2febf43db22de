/**
 * The patient's own health page: the warning flags of the latest vital signs
 * with the worst level and the advice shown for it, the latest record, the
 * most recent session, and the trend series of the last 150 records.
 */
module MeData {
  import opened Wrappers
  import opened JsNumber
  import opened Domain
  import opened Sorting
  import opened JsString
  import Records

  /** The three vital signs `classifyVitals` looks at, in the order it looks at them. */
  datatype VitalKey = Spo2Key | BpmKey | RespRateKey

  /** "ok" (`Okay`), "warn" and "alert". */
  datatype Level = Okay | Warn | Alert

  datatype Flag = Flag(key: VitalKey, level: Level, text: string)

  /** The latest vital signs; a present value may still be NaN or infinite. */
  datatype Vitals = Vitals(bpm: Option<Num>, spo2: Option<Num>, respRate: Option<Num>)

  function Reading(v: Vitals, key: VitalKey): Option<Num> {
    match key
    case Spo2Key => v.spo2
    case BpmKey => v.bpm
    case RespRateKey => v.respRate
  }

  /** The position of a vital sign in the order the flags are pushed. */
  function Rank(key: VitalKey): nat {
    match key
    case Spo2Key => 0
    case BpmKey => 1
    case RespRateKey => 2
  }

  /** SpO₂: below 90 alerts, below 94 warns. */
  function Spo2Level(x: Num): (l: Level)
    ensures x.Finite? ==> (l == Alert <==> x.value < 90.0) && (l == Okay <==> x.value >= 94.0)
    ensures !x.Finite? ==> l != Warn && (l == Alert <==> x == Infinity(false))
  {
    if Less(x, 90.0) then Alert else if Less(x, 94.0) then Warn else Okay
  }

  /** Heart rate: outside 50..120 alerts, outside 60..100 warns. */
  function BpmLevel(x: Num): (l: Level)
    ensures x.Finite? ==> (l == Alert <==> x.value < 50.0 || x.value > 120.0) && (l == Okay <==> 60.0 <= x.value <= 100.0)
    ensures !x.Finite? ==> l != Warn && (l == Okay <==> x.NaN?)
  {
    if Less(x, 50.0) || Greater(x, 120.0) then Alert
    else if Less(x, 60.0) || Greater(x, 100.0) then Warn
    else Okay
  }

  /** Respiratory rate: outside 8..28 alerts, outside 12..20 warns. */
  function RespRateLevel(x: Num): (l: Level)
    ensures x.Finite? ==> (l == Alert <==> x.value < 8.0 || x.value > 28.0) && (l == Okay <==> 12.0 <= x.value <= 20.0)
    ensures !x.Finite? ==> l != Warn && (l == Okay <==> x.NaN?)
  {
    if Less(x, 8.0) || Greater(x, 28.0) then Alert
    else if Less(x, 12.0) || Greater(x, 20.0) then Warn
    else Okay
  }

  function VitalLevel(key: VitalKey, x: Num): Level {
    match key
    case Spo2Key => Spo2Level(x)
    case BpmKey => BpmLevel(x)
    case RespRateKey => RespRateLevel(x)
  }

  /** The short name of a vital sign that its flags' texts start with. */
  function SignLabel(key: VitalKey): string {
    match key
    case Spo2Key => "SpO₂"
    case BpmKey => "FC"
    case RespRateKey => "FR"
  }

  /** The text of each flag the page can raise. */
  function FlagText(key: VitalKey, level: Level): (t: string)
    ensures StartsWith(t, SignLabel(key))
  {
    match (key, level)
    case (Spo2Key, Alert) => "SpO₂ < 90%"
    case (Spo2Key, _) => "SpO₂ baja (90–93%)"
    case (BpmKey, Alert) => "FC fuera de rango"
    case (BpmKey, _) => "FC borderline"
    case (RespRateKey, Alert) => "FR fuera de rango"
    case (RespRateKey, _) => "FR borderline"
  }

  /** Some flag is about this vital sign. */
  predicate HasFlag(flags: seq<Flag>, key: VitalKey) {
    exists i :: 0 <= i < |flags| && flags[i].key == key
  }

  /** `flags.find(f => f.level === level)` finds one. */
  function HasLevel(flags: seq<Flag>, level: Level): (b: bool)
    ensures b <==> exists i :: 0 <= i < |flags| && flags[i].level == level
    decreases |flags|
  {
    if |flags| == 0 then false
    else if flags[0].level == level then true
    else
      assert forall i :: 0 < i < |flags| ==> flags[i] == flags[1..][i - 1];
      HasLevel(flags[1..], level)
  }

  /** `worst`: "alert" if some flag alerts, else "warn" if some flag warns, else "ok". */
  function Worst(flags: seq<Flag>): Level {
    if HasLevel(flags, Alert) then Alert
    else if HasLevel(flags, Warn) then Warn
    else Okay
  }

  /** What the flags of one call say: one flag per out-of-range vital sign, nothing else. */
  ghost predicate FlagsDescribe(v: Vitals, flags: seq<Flag>) {
    && (forall i :: 0 <= i < |flags| ==>
          && Reading(v, flags[i].key).Some?
          && flags[i].level == VitalLevel(flags[i].key, Reading(v, flags[i].key).value)
          && flags[i].level != Okay
          && flags[i].text == FlagText(flags[i].key, flags[i].level))
    && (forall i, j :: 0 <= i < j < |flags| ==> Rank(flags[i].key) < Rank(flags[j].key))
    && (forall key: VitalKey :: HasFlag(flags, key) <==> OutOfRange(v, key))
  }

  /** The flag is the one the thresholds give for its vital sign's reading. */
  ghost predicate FlagFits(v: Vitals, f: Flag) {
    && Reading(v, f.key).Some?
    && f.level == VitalLevel(f.key, Reading(v, f.key).value)
    && f.level != Okay
    && f.text == FlagText(f.key, f.level)
  }

  /** The flags after the vital signs of rank below `n` are checked. */
  ghost predicate FlagsUpTo(v: Vitals, flags: seq<Flag>, n: nat) {
    && |flags| <= n
    && (forall i :: 0 <= i < |flags| ==> FlagFits(v, flags[i]) && Rank(flags[i].key) < n)
    && (forall i, j :: 0 <= i < j < |flags| ==> Rank(flags[i].key) < Rank(flags[j].key))
    && (forall key: VitalKey :: HasFlag(flags, key) <==> Rank(key) < n && OutOfRange(v, key))
  }

  /** Checking the vital sign of rank `n` extends the flags of the ranks below `n` to those below `n + 1`. */
  lemma PushFlagStep(v: Vitals, key: VitalKey, flags: seq<Flag>, flags': seq<Flag>)
    requires FlagsUpTo(v, flags, Rank(key))
    requires OutOfRange(v, key) ==>
               flags' == flags + [Flag(key, VitalLevel(key, Reading(v, key).value), FlagText(key, VitalLevel(key, Reading(v, key).value)))]
    requires !OutOfRange(v, key) ==> flags' == flags
    requires forall k :: HasFlag(flags', k) <==> HasFlag(flags, k) || (k == key && OutOfRange(v, key))
    ensures FlagsUpTo(v, flags', Rank(key) + 1)
  {
    if OutOfRange(v, key) {
      var level := VitalLevel(key, Reading(v, key).value);
      assert FlagFits(v, Flag(key, level, FlagText(key, level)));
      forall i | 0 <= i < |flags'| ensures FlagFits(v, flags'[i]) && Rank(flags'[i].key) < Rank(key) + 1 {
        if i < |flags| {
          assert flags'[i] == flags[i];
        }
      }
      forall i, j | 0 <= i < j < |flags'| ensures Rank(flags'[i].key) < Rank(flags'[j].key) {
        assert flags'[i] == flags[i];
        if j < |flags| {
          assert flags'[j] == flags[j];
        }
      }
    }
    forall k: VitalKey ensures HasFlag(flags', k) <==> Rank(k) < Rank(key) + 1 && OutOfRange(v, k) {
      assert Rank(k) == Rank(key) <==> k == key;
    }
  }

  /** With the three vital signs checked, the flags describe the vitals. */
  lemma FlagsUpToAll(v: Vitals, flags: seq<Flag>)
    requires FlagsUpTo(v, flags, 3)
    ensures FlagsDescribe(v, flags) && |flags| <= 3
  {
  }

  /** What `Worst` says about flags none of which is ok. */
  lemma WorstMeaning(flags: seq<Flag>)
    requires forall i :: 0 <= i < |flags| ==> flags[i].level != Okay
    ensures Worst(flags) == Alert <==> exists i :: 0 <= i < |flags| && flags[i].level == Alert
    ensures Worst(flags) == Warn <==> (forall i :: 0 <= i < |flags| ==> flags[i].level != Alert)
                                      && exists i :: 0 <= i < |flags| && flags[i].level == Warn
    ensures Worst(flags) == Okay <==> |flags| == 0
  {
    if |flags| > 0 {
      assert flags[0].level == Warn || flags[0].level == Alert;
    }
  }

  /** The vital sign is present and outside its normal range. */
  predicate OutOfRange(v: Vitals, key: VitalKey) {
    Reading(v, key).Some? && VitalLevel(key, Reading(v, key).value) != Okay
  }

  /** The step that checks one vital sign and pushes its flag when it is out of range. */
  method PushFlag(v: Vitals, key: VitalKey, flags: seq<Flag>) returns (flags': seq<Flag>)
    ensures OutOfRange(v, key) ==>
              flags' == flags + [Flag(key, VitalLevel(key, Reading(v, key).value), FlagText(key, VitalLevel(key, Reading(v, key).value)))]
    ensures !OutOfRange(v, key) ==> flags' == flags
    ensures forall k :: HasFlag(flags', k) <==> HasFlag(flags, k) || (k == key && OutOfRange(v, key))
  {
    flags' := flags;
    if Reading(v, key).Some? {
      var level := VitalLevel(key, Reading(v, key).value);
      if level != Okay {
        flags' := flags + [Flag(key, level, FlagText(key, level))];
        assert flags'[|flags|].key == key;
        assert forall i :: 0 <= i < |flags| ==> flags'[i] == flags[i];
      }
    }
  }

  /**
   * `classifyVitals`: SpO₂, then heart rate, then respiratory rate, each pushing
   * a flag when present and out of range; `worst` summarises the flags.
   */
  method ClassifyVitals(v: Vitals) returns (flags: seq<Flag>, worst: Level)
    ensures FlagsDescribe(v, flags)
    ensures |flags| <= 3
    ensures worst == Alert <==> exists i :: 0 <= i < |flags| && flags[i].level == Alert
    ensures worst == Warn <==> (forall i :: 0 <= i < |flags| ==> flags[i].level != Alert)
                               && exists i :: 0 <= i < |flags| && flags[i].level == Warn
    ensures worst == Okay <==> |flags| == 0
  {
    flags := [];
    var flags1 := PushFlag(v, Spo2Key, flags);
    PushFlagStep(v, Spo2Key, flags, flags1);
    var flags2 := PushFlag(v, BpmKey, flags1);
    PushFlagStep(v, BpmKey, flags1, flags2);
    flags := PushFlag(v, RespRateKey, flags2);
    PushFlagStep(v, RespRateKey, flags2, flags);
    FlagsUpToAll(v, flags);
    worst := Worst(flags);
    WorstMeaning(flags);
  }

  /** A vital sign that is absent (or NaN, which every comparison rejects) raises no flag. */
  lemma {:induction false} NoReadingNoFlag(v: Vitals, key: VitalKey, flags: seq<Flag>)
    requires FlagsDescribe(v, flags)
    requires Reading(v, key).None? || Reading(v, key) == Some(NaN)
    ensures !HasFlag(flags, key)
  {
  }

  /**
   * The advice text shown for the worst level: a finding followed by what to
   * do; only the ok level gets the reassuring "Todo en rango…".
   */
  function AdviceText(worst: Level): (r: string)
    ensures |r| >= 4
    ensures r[..4] == "Todo" <==> worst == Okay
  {
    match worst
    case Alert =>
      var t := "Valores fuera de rango." + " Si se mantiene, contacta a tu médico o acude a emergencias.";
      assert t[0] == 'V';
      t
    case Warn =>
      var t := "Valores ligeramente fuera de lo normal." + " Revisa tu respiración y descansa; si persiste, consulta.";
      assert t[0] == 'V';
      t
    case Okay =>
      var t := "Todo en rango esperado." + " Continúa con tus indicaciones habituales.";
      assert t[..4] == "Todo";
      t
  }

  /** Each level has its own advice. */
  lemma AdviceDistinct(a: Level, b: Level)
    ensures AdviceText(a) == AdviceText(b) <==> a == b
  {
    assert |AdviceText(Alert)| == 83 && |AdviceText(Warn)| == 96 && |AdviceText(Okay)| == 65;
  }

  /** Two raised flags have the same text exactly when they are about the same sign at the same level. */
  lemma FlagTextDistinct(k1: VitalKey, a: Level, k2: VitalKey, b: Level)
    requires a != Okay && b != Okay
    ensures FlagText(k1, a) == FlagText(k2, b) <==> k1 == k2 && a == b
  {
    if FlagText(k1, a) == FlagText(k2, b) {
      assert FlagText(k1, a)[1] == FlagText(k2, b)[1];
      assert FlagText(k1, a)[5] == FlagText(k2, b)[5];
      assert FlagText(k1, a)[3] == FlagText(k2, b)[3];
    }
  }

  /** The vitals of the latest record: each field as the record holds it, nothing without a record. */
  function LatestVitals(latest: Option<SessionData>): (v: Vitals)
    ensures latest.None? ==> v == Vitals(None, None, None)
    ensures latest.Some? ==> v == Vitals(latest.value.bpm, latest.value.spo2, latest.value.respRate)
  {
    match latest
    case None => Vitals(None, None, None)
    case Some(r) => Vitals(r.bpm, r.spo2, r.respRate)
  }

  function NegRecordedAt(r: SessionData): int { -r.recordedAt }

  /**
   * `all`: every record of every session sorted oldest first (the comparator
   * `a - b` on timestamps is the newest-first comparator on negated timestamps).
   */
  function AllRecordsByTime(ss: seq<Session>): (all: seq<SessionData>)
    ensures multiset(all) == multiset(Records.FlattenRecords(ss))
    ensures forall i, j :: 0 <= i < j < |all| ==> all[i].recordedAt <= all[j].recordedAt
  {
    var all := SortDesc(Records.FlattenRecords(ss), NegRecordedAt);
    SortDescProps(Records.FlattenRecords(ss), NegRecordedAt);
    assert forall i, j :: 0 <= i < j < |all| ==> NegRecordedAt(all[i]) >= NegRecordedAt(all[j]);
    all
  }

  /** `pickLatestRecord`: the head of a newest-first copy, the first record with the latest time among equals. */
  function PickLatestRecord(rs: seq<SessionData>): (r: Option<SessionData>)
    ensures r.None? <==> |rs| == 0
    ensures r.Some? ==> exists k :: IsFirstMax(rs, RecordedAt, k) && rs[k] == r.value
  {
    if |rs| == 0 then None
    else
      SortDescHead(rs, RecordedAt);
      SortDescProps(rs, RecordedAt);
      Some(SortDesc(rs, RecordedAt)[0])
  }

  /** The latest record the page shows is a record of some session, and no record is later. */
  lemma LatestOfAllSessions(ss: seq<Session>)
    ensures PickLatestRecord(AllRecordsByTime(ss)).None? <==> |Records.FlattenRecords(ss)| == 0
    ensures PickLatestRecord(AllRecordsByTime(ss)).Some? ==>
              var r := PickLatestRecord(AllRecordsByTime(ss)).value;
              && r in Records.FlattenRecords(ss)
              && forall x :: x in Records.FlattenRecords(ss) ==> x.recordedAt <= r.recordedAt
  {
    var flat := Records.FlattenRecords(ss);
    var all := AllRecordsByTime(ss);
    assert |all| == |multiset(all)| == |multiset(flat)| == |flat|;
    if |all| > 0 {
      var r := PickLatestRecord(all).value;
      var k :| IsFirstMax(all, RecordedAt, k) && all[k] == r;
      assert r in multiset(all);
      forall x | x in flat ensures x.recordedAt <= r.recordedAt {
        assert x in multiset(all);
        var j :| 0 <= j < |all| && all[j] == x;
      }
    }
  }

  /** `lastSess`: the session that started last, the first of them among equals. */
  function LastSession(ss: seq<Session>): (s: Option<Session>)
    ensures s.None? <==> |ss| == 0
    ensures s.Some? ==> exists k :: IsFirstMax(ss, StartedAt, k) && ss[k] == s.value
  {
    if |ss| == 0 then None
    else
      SortDescHead(ss, StartedAt);
      Some(SortDesc(ss, StartedAt)[0])
  }

  /** How many points the trend charts plot. */
  const MaxPoints: nat := 150

  /** `all.slice(Math.max(0, all.length - maxPoints))`: the last 150 records, or all of them. */
  function TrendSlice(all: seq<SessionData>): (slice: seq<SessionData>)
    ensures |slice| == if |all| < MaxPoints then |all| else MaxPoints
    ensures forall i :: 0 <= i < |slice| ==> slice[i] == all[|all| - |slice| + i]
  {
    all[if |all| >= MaxPoints then |all| - MaxPoints else 0..]
  }

  /** `typeof v === "number" && !Number.isNaN(v)`: the infinities pass, NaN does not. */
  function TrendValue(v: Option<Num>): Option<Num> {
    match v
    case Some(NaN) => None
    case other => other
  }

  /** `toSeries(key)`: the value of each record of the slice, undefined where it is missing or NaN. */
  function ToSeries(slice: seq<SessionData>, m: Metric): (vs: seq<Option<Num>>)
    ensures |vs| == |slice|
    ensures forall i :: 0 <= i < |slice| ==>
              (vs[i].None? <==> Pick(slice[i], m).None? || Pick(slice[i], m) == Some(NaN))
              && (vs[i].Some? ==> vs[i] == Pick(slice[i], m))
  {
    seq(|slice|, i requires 0 <= i < |slice| => TrendValue(Pick(slice[i], m)))
  }
}
