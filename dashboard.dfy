/**
 * The doctor's dashboard: how long ago the latest reading was taken, the
 * latest record over every session, the figures of the overview cards, the
 * five patients with the most recent readings, and where patients and family
 * members are sent instead.
 */
module Dashboard {
  import opened Wrappers
  import opened JsString
  import opened Domain
  import opened Sorting
  import Records
  import SessionsTable

  const MsPerMinute: int := 60000
  const MsPerHour: int := 3600000
  const MsPerDay: int := 86400000

  /**
   * `formatRelative`: whole minutes, hours or days between `date` and `now`
   * (`Math.floor`, which is Dafny's division for a positive divisor).
   */
  function FormatRelative(date: Option<int>, now: int): (t: string)
    ensures date.None? ==> t == "Sin lecturas"
  {
    match date
    case None => "Sin lecturas"
    case Some(d) =>
      var mins := (now - d) / MsPerMinute;
      if mins < 1 then "Hace segundos"
      else if mins < 60 then "Hace " + NatText(mins) + " min"
      else
        var hrs := mins / 60;
        if hrs < 24 then "Hace " + NatText(hrs) + " h"
        else "Hace " + NatText(hrs / 24) + " d"
  }

  lemma MulMono(x: int, y: int, m: int)
    requires x <= y && m >= 0
    ensures x * m <= y * m
  {
    assert y * m - x * m == (y - x) * m;
  }

  /** A multiple of `m` below the multiple after `y`'s is a multiple of at most `y`. */
  lemma MulCancel(x: int, y: int, m: int)
    requires m > 0 && x * m < (y + 1) * m
    ensures x <= y
  {
    MulMono(if x <= y then x else y + 1, x, m);
  }

  /** `e` written as `q * m + s` with `0 <= s < m` has quotient `q`. */
  lemma DivUnique(e: int, m: int, q: int, s: int)
    requires m > 0 && 0 <= s < m && e == q * m + s
    ensures e / m == q
  {
    var q' := e / m;
    assert q' * m <= e < (q + 1) * m;
    MulCancel(q', q, m);
    assert q * m <= e < (q' + 1) * m;
    MulCancel(q, q', m);
  }

  /** Flooring twice is flooring once by the product. */
  lemma FloorTwice(e: int, a: int, b: int)
    requires a > 0 && b > 0
    ensures (e / a) / b == e / (a * b)
  {
    var q, r := e / a, e % a;
    var qq, rr := q / b, q % b;
    assert q * a == (qq * b + rr) * a;
    assert (qq * b + rr) * a == qq * (a * b) + rr * a;
    MulMono(rr, b - 1, a);
    assert (b - 1) * a == b * a - a;
    assert 0 <= rr * a;
    DivUnique(e, a * b, qq, rr * a + r);
  }

  /**
   * The four wordings by elapsed time: under a minute (future dates included)
   * "Hace segundos", then whole minutes under an hour, whole hours under a day,
   * and whole days.
   */
  lemma FormatRelativeSpec(d: int, now: int)
    ensures now - d < MsPerMinute ==> FormatRelative(Some(d), now) == "Hace segundos"
    ensures MsPerMinute <= now - d < MsPerHour ==>
              FormatRelative(Some(d), now) == "Hace " + NatText((now - d) / MsPerMinute) + " min"
    ensures MsPerHour <= now - d < MsPerDay ==>
              FormatRelative(Some(d), now) == "Hace " + NatText((now - d) / MsPerHour) + " h"
    ensures MsPerDay <= now - d ==>
              FormatRelative(Some(d), now) == "Hace " + NatText((now - d) / MsPerDay) + " d"
  {
    var e := now - d;
    var mins := e / MsPerMinute;
    FloorTwice(e, MsPerMinute, 60);
    FloorTwice(e, MsPerHour, 24);
    assert MsPerMinute * 60 == MsPerHour && MsPerHour * 24 == MsPerDay;
    var hrs := mins / 60;
    FloorTwice(mins, 60, 24);
    if e < MsPerMinute {
      DivUnique(e, MsPerMinute, e / MsPerMinute, e % MsPerMinute);
      assert mins < 1;
    } else if e < MsPerHour {
      assert 1 <= mins < 60;
    } else if e < MsPerDay {
      assert 60 <= mins;
      assert hrs < 24;
    } else {
      assert hrs >= 24;
    }
  }

  /** `getLatestRecordOfSession`: the `reduce` that keeps the first record with the latest time. */
  function LatestRecordOfSession(s: Session): (r: Option<SessionData>)
    ensures r.None? <==> |s.records| == 0
    ensures r.Some? ==> exists k :: IsFirstMax(s.records, RecordedAt, k) && s.records[k] == r.value
  {
    Records.LatestRecord(s.records)
  }

  lemma {:induction false} FlattenSnoc(ss: seq<Session>, s: Session)
    ensures Records.FlattenRecords(ss + [s]) == Records.FlattenRecords(ss) + s.records
    decreases |ss|
  {
    if |ss| == 0 {
      assert Records.FlattenRecords([s]) == s.records + Records.FlattenRecords([]);
    } else {
      assert (ss + [s])[1..] == ss[1..] + [s];
      FlattenSnoc(ss[1..], s);
    }
  }

  /** `a` followed by the first `j` elements of `b`, one element at a time. */
  lemma SliceSnoc<T>(a: seq<T>, b: seq<T>, j: nat)
    requires j <= |b|
    ensures j == 0 ==> a + b[..j] == a
    ensures j > 0 ==> a + b[..j] == (a + b[..j - 1]) + [b[j - 1]]
  {
    if j > 0 {
      assert b[..j] == b[..j - 1] + [b[j - 1]];
    }
  }

  lemma PrefixSnoc<T>(s: seq<T>, i: nat)
    requires i < |s|
    ensures s[..i + 1] == s[..i] + [s[i]]
  {
  }

  /** One more record for the running `reduce`. */
  lemma LatestSnoc(p: seq<SessionData>, r: SessionData)
    ensures Records.LatestRecord(p + [r]) ==
              var acc := Records.LatestRecord(p);
              if acc.None? || r.recordedAt > acc.value.recordedAt then Some(r) else acc
  {
    assert (p + [r])[..|p|] == p;
  }

  /**
   * `getLatestRecordGlobal`: over every record of every session, the first one
   * with the latest time, together with the session it was found in.
   */
  method GetLatestRecordGlobal(ss: seq<Session>) returns (latestRec: Option<SessionData>, latestSession: Option<Session>)
    ensures latestRec == Records.LatestRecord(Records.FlattenRecords(ss))
    ensures latestRec.None? <==> Records.TotalRecords(ss) == 0
    ensures latestRec.Some? ==>
              exists k :: IsFirstMax(Records.FlattenRecords(ss), RecordedAt, k) && Records.FlattenRecords(ss)[k] == latestRec.value
    ensures latestRec.None? <==> latestSession.None?
    ensures latestSession.Some? ==> latestSession.value in ss && latestRec.value in latestSession.value.records
  {
    latestRec := None;
    latestSession := None;
    for i := 0 to |ss|
      invariant latestRec == Records.LatestRecord(Records.FlattenRecords(ss[..i]))
      invariant latestRec.None? <==> latestSession.None?
      invariant latestSession.Some? ==> latestSession.value in ss[..i] && latestRec.value in latestSession.value.records
    {
      var s := ss[i];
      ghost var before := Records.FlattenRecords(ss[..i]);
      SliceSnoc(before, s.records, 0);
      for j := 0 to |s.records|
        invariant latestRec == Records.LatestRecord(before + s.records[..j])
        invariant latestRec.None? <==> latestSession.None?
        invariant latestSession.Some? ==>
                    (latestSession.value in ss[..i] || latestSession.value == s) && latestRec.value in latestSession.value.records
      {
        var r := s.records[j];
        LatestSnoc(before + s.records[..j], r);
        SliceSnoc(before, s.records, j + 1);
        if latestRec.None? || r.recordedAt > latestRec.value.recordedAt {
          latestRec := Some(r);
          latestSession := Some(s);
        }
      }
      assert s.records[..|s.records|] == s.records;
      PrefixSnoc(ss, i);
      FlattenSnoc(ss[..i], s);
    }
    assert ss[..|ss|] == ss;
    Records.FlattenLength(ss);
  }

  lemma {:induction false} PatientIdsSnoc(ss: seq<Session>, s: Session)
    ensures Records.PatientIds(ss + [s]) == Records.PatientIds(ss) + (if s.patient.id != "" then {s.patient.id} else {})
    decreases |ss|
  {
    if |ss| == 0 {
      assert Records.PatientIds([s]) == (if s.patient.id != "" then {s.patient.id} else {}) + Records.PatientIds([]);
    } else {
      assert (ss + [s])[1..] == ss[1..] + [s];
      PatientIdsSnoc(ss[1..], s);
    }
  }

  /** `distinctPatientCount`: the size of the set of non-empty patient ids, which never exceeds the number of sessions. */
  method DistinctPatientCount(ss: seq<Session>) returns (n: nat)
    ensures n == |Records.PatientIds(ss)|
    ensures n <= |ss|
  {
    var ids: set<string> := {};
    for i := 0 to |ss|
      invariant ids == Records.PatientIds(ss[..i])
    {
      if ss[i].patient.id != "" {
        ids := ids + {ss[i].patient.id};
      }
      PrefixSnoc(ss, i);
      PatientIdsSnoc(ss[..i], ss[i]);
    }
    assert ss[..|ss|] == ss;
    n := |ids|;
    Records.PatientIdsBound(ss);
  }

  /** `Math.max(patients - critical, 0)`: the stable patients of the overview card. */
  function StableCount(patients: nat, critical: nat): (r: nat)
    ensures r <= patients
    ensures critical == 0 ==> r == patients
    ensures critical >= patients ==> r == 0
  {
    if patients >= critical then patients - critical else 0
  }

  /** `redirectTo`: patients go to their own page, family members to their patients, everyone else stays. */
  function RedirectTo(userType: Option<string>): (r: Option<string>)
    ensures userType == Some("patient") ==> r == Some("/me")
    ensures userType == Some("family") ==> r == Some("/family/patients")
    ensures r.None? <==> userType != Some("patient") && userType != Some("family")
  {
    if userType == Some("patient") then Some("/me")
    else if userType == Some("family") then Some("/family/patients")
    else None
  }

  // ---------- recent patients ----------

  /** A value of the page's `Map`: the patient id it is stored under, the name shown and the newest reading's time. */
  datatype RecentEntry = RecentEntry(patientId: string, name: string, lastReading: int)

  function LastReading(e: RecentEntry): int { e.lastReading }

  /** The latest time among some records. */
  function NewestTime(rs: seq<SessionData>): int
    requires |rs| > 0
    decreases |rs|
  {
    var last := rs[|rs| - 1].recordedAt;
    if |rs| == 1 then last
    else
      var before := NewestTime(rs[..|rs| - 1]);
      if last > before then last else before
  }

  /** The record the `reduce` keeps carries the latest time. */
  lemma {:induction false} LatestIsNewest(rs: seq<SessionData>)
    requires |rs| > 0
    ensures Records.LatestRecord(rs).Some? && Records.LatestRecord(rs).value.recordedAt == NewestTime(rs)
    decreases |rs|
  {
    if |rs| > 1 {
      LatestIsNewest(rs[..|rs| - 1]);
    }
  }

  /** The time of a session's newest record. */
  function LastReadingOf(s: Session): int
    requires |s.records| > 0
  {
    NewestTime(s.records)
  }

  /** `map.get(id)`: where the entry stored under `id` is, if any. */
  function IndexOfPatient(es: seq<RecentEntry>, id: string): (r: Option<nat>)
    ensures r.None? <==> forall q :: 0 <= q < |es| ==> es[q].patientId != id
    ensures r.Some? ==> r.value < |es| && es[r.value].patientId == id
    decreases |es|
  {
    if |es| == 0 then None
    else if es[|es| - 1].patientId == id then Some(|es| - 1)
    else
      var r := IndexOfPatient(es[..|es| - 1], id);
      assert forall q :: 0 <= q < |es| - 1 ==> es[..|es| - 1][q] == es[q];
      r
  }

  /** A patient id identifies its entry: the map has one entry per key. */
  ghost predicate KeysDistinct(es: seq<RecentEntry>) {
    forall p, q :: 0 <= p < |es| && 0 <= q < |es| && es[p].patientId == es[q].patientId ==> p == q
  }

  /**
   * Session `k` is where entry `e` comes from: it has records, belongs to the
   * entry's patient, its newest reading is the entry's, its name is the
   * entry's, and no earlier session of the patient has a reading as new.
   */
  ghost predicate FromSession(ss: seq<Session>, k: nat, e: RecentEntry) {
    && k < |ss|
    && |ss[k].records| > 0
    && ss[k].patient.id == e.patientId
    && LastReadingOf(ss[k]) == e.lastReading
    && e.name == SessionsTable.PatientName(ss[k])
    && forall k' :: 0 <= k' < k && |ss[k'].records| > 0 && ss[k'].patient.id == e.patientId ==> LastReadingOf(ss[k']) < e.lastReading
  }

  /** Some session is where entry `e` comes from. */
  ghost predicate HasOrigin(ss: seq<Session>, e: RecentEntry) {
    exists k: nat :: FromSession(ss, k, e)
  }

  /** Session `k`'s newest reading is covered by the entry stored under its patient. */
  ghost predicate Covered(ss: seq<Session>, k: nat, es: seq<RecentEntry>)
    requires k < |ss| && |ss[k].records| > 0
  {
    exists q :: 0 <= q < |es| && es[q].patientId == ss[k].patient.id && LastReadingOf(ss[k]) <= es[q].lastReading
  }

  /** Each entry comes from the session `src` names for it, one of the first `i`. */
  ghost predicate Origins(ss: seq<Session>, i: nat, es: seq<RecentEntry>, src: seq<nat>) {
    |src| == |es| && forall q :: 0 <= q < |es| ==> src[q] < i && FromSession(ss, src[q], es[q])
  }

  /** Every one of the first `i` sessions with records is covered. */
  ghost predicate AllCovered(ss: seq<Session>, i: nat, es: seq<RecentEntry>)
    requires i <= |ss|
  {
    forall k :: 0 <= k < i && |ss[k].records| > 0 ==> Covered(ss, k, es)
  }

  /** The entries built from the first `i` sessions, with the session each came from. */
  ghost predicate Built(ss: seq<Session>, i: nat, es: seq<RecentEntry>, src: seq<nat>) {
    i <= |ss| && KeysDistinct(es) && Origins(ss, i, es, src) && AllCovered(ss, i, es)
  }

  /**
   * The `forEach` that fills the map: per patient, the newest reading over that
   * patient's sessions with records, with the name written from the session
   * that supplied it (the first such session among equal times); a patient's
   * entry keeps the position where the patient was first seen.
   */
  method CollectLatestPerPatient(ss: seq<Session>) returns (entries: seq<RecentEntry>)
    ensures KeysDistinct(entries)
    ensures forall q :: 0 <= q < |entries| ==> HasOrigin(ss, entries[q])
    ensures forall k :: 0 <= k < |ss| && |ss[k].records| > 0 ==> Covered(ss, k, entries)
    ensures forall q :: 0 <= q < |entries| ==> NewestOfPatient(ss, entries[q])
    ensures |entries| == |PatientsWithReadings(ss)|
  {
    entries := [];
    ghost var src: seq<nat> := [];
    for i := 0 to |ss|
      invariant Built(ss, i, entries, src)
    {
      entries, src := VisitSession(ss, i, entries, src);
    }
    BuiltAll(ss, entries, src);
    EntriesNewest(ss, entries);
    EntriesCount(ss, entries);
  }

  /**
   * The `forEach` callback for session `i`: skip it when it has no records;
   * otherwise store its newest reading under its patient unless the stored
   * one is as new.
   */
  method VisitSession(ss: seq<Session>, i: nat, entries: seq<RecentEntry>, ghost src: seq<nat>)
    returns (entries': seq<RecentEntry>, ghost src': seq<nat>)
    requires i < |ss| && Built(ss, i, entries, src)
    ensures Built(ss, i + 1, entries', src')
  {
    var s := ss[i];
    var lr := LatestRecordOfSession(s);
    if lr.None? {
      SkipSession(ss, i, entries, src);
      return entries, src;
    }
    var name := SessionsTable.PatientName(s);
    var t := lr.value.recordedAt;
    LatestIsNewest(s.records);
    assert t == LastReadingOf(ss[i]);
    var cur := IndexOfPatient(entries, s.patient.id);
    if cur.None? {
      var e := RecentEntry(s.patient.id, name, t);
      AppendEntry(ss, i, entries, src, e);
      entries', src' := entries + [e], src + [i];
    } else if t > entries[cur.value].lastReading {
      var e := RecentEntry(s.patient.id, name, t);
      assert |src| == |entries|;
      ReplaceEntry(ss, i, entries, src, cur.value, e);
      entries', src' := entries[cur.value := e], src[cur.value := i];
    } else {
      KeepEntry(ss, i, entries, src, cur.value);
      entries', src' := entries, src;
    }
  }

  /** Once every session is seen, each entry has a session it came from. */
  lemma BuiltAll(ss: seq<Session>, es: seq<RecentEntry>, src: seq<nat>)
    requires Built(ss, |ss|, es, src)
    ensures KeysDistinct(es)
    ensures forall q :: 0 <= q < |es| ==> HasOrigin(ss, es[q])
    ensures forall k :: 0 <= k < |ss| && |ss[k].records| > 0 ==> Covered(ss, k, es)
  {
    forall q | 0 <= q < |es| ensures HasOrigin(ss, es[q]) {
      assert FromSession(ss, src[q], es[q]);
    }
  }

  /** A session without records leaves the map as it is. */
  lemma SkipSession(ss: seq<Session>, i: nat, es: seq<RecentEntry>, src: seq<nat>)
    requires Built(ss, i, es, src) && i < |ss| && |ss[i].records| == 0
    ensures Built(ss, i + 1, es, src)
  {
    OriginsGrow(ss, i, es, src);
  }

  /** Seeing one more session keeps the sessions the entries came from. */
  lemma OriginsGrow(ss: seq<Session>, i: nat, es: seq<RecentEntry>, src: seq<nat>)
    requires Origins(ss, i, es, src)
    ensures Origins(ss, i + 1, es, src)
  {
  }

  /** A patient seen for the first time gets a new entry at the end. */
  lemma AppendEntry(ss: seq<Session>, i: nat, es: seq<RecentEntry>, src: seq<nat>, e: RecentEntry)
    requires Built(ss, i, es, src) && i < |ss| && |ss[i].records| > 0
    requires IndexOfPatient(es, ss[i].patient.id).None?
    requires e == RecentEntry(ss[i].patient.id, SessionsTable.PatientName(ss[i]), LastReadingOf(ss[i]))
    ensures Built(ss, i + 1, es + [e], src + [i])
  {
    forall k' | 0 <= k' < i && |ss[k'].records| > 0 ensures ss[k'].patient.id != e.patientId {
      assert Covered(ss, k', es);
    }
    assert FromSession(ss, i, e);
    AppendKeys(es, e);
    AppendOrigins(ss, i, es, src, e);
    AppendCovers(ss, i, es, e);
  }

  /** An entry under a new key keeps the keys distinct. */
  lemma AppendKeys(es: seq<RecentEntry>, e: RecentEntry)
    requires KeysDistinct(es) && forall q :: 0 <= q < |es| ==> es[q].patientId != e.patientId
    ensures KeysDistinct(es + [e])
  {
    var es' := es + [e];
    forall p, q | 0 <= p < |es'| && 0 <= q < |es'| && es'[p].patientId == es'[q].patientId ensures p == q {
      if p < |es| { assert es'[p] == es[p]; }
      if q < |es| { assert es'[q] == es[q]; }
    }
  }

  /** The old entries keep the sessions they came from; the new one comes from session `i`. */
  lemma AppendOrigins(ss: seq<Session>, i: nat, es: seq<RecentEntry>, src: seq<nat>, e: RecentEntry)
    requires Origins(ss, i, es, src) && FromSession(ss, i, e)
    ensures Origins(ss, i + 1, es + [e], src + [i])
  {
    var es', src' := es + [e], src + [i];
    forall q | 0 <= q < |es'| ensures src'[q] < i + 1 && FromSession(ss, src'[q], es'[q]) {
      if q < |es| { assert es'[q] == es[q] && src'[q] == src[q]; }
    }
  }

  /** After the append every session up to `i` is covered. */
  lemma AppendCovers(ss: seq<Session>, i: nat, es: seq<RecentEntry>, e: RecentEntry)
    requires i < |ss| && |ss[i].records| > 0 && AllCovered(ss, i, es)
    requires e.patientId == ss[i].patient.id && e.lastReading == LastReadingOf(ss[i])
    ensures AllCovered(ss, i + 1, es + [e])
  {
    var es' := es + [e];
    forall k | 0 <= k < i + 1 && |ss[k].records| > 0 ensures Covered(ss, k, es') {
      if k < i {
        CoveredAfterAppend(ss, k, es, e);
      } else {
        CoveredBy(ss, k, es', |es|);
      }
    }
  }

  /** The entry at `q` covers session `k`. */
  lemma CoveredBy(ss: seq<Session>, k: nat, es: seq<RecentEntry>, q: nat)
    requires k < |ss| && |ss[k].records| > 0
    requires q < |es| && es[q].patientId == ss[k].patient.id && LastReadingOf(ss[k]) <= es[q].lastReading
    ensures Covered(ss, k, es)
  {
  }

  /** Adding an entry keeps every session covered. */
  lemma CoveredAfterAppend(ss: seq<Session>, k: nat, es: seq<RecentEntry>, e: RecentEntry)
    requires k < |ss| && |ss[k].records| > 0 && Covered(ss, k, es)
    ensures Covered(ss, k, es + [e])
  {
    var q :| 0 <= q < |es| && es[q].patientId == ss[k].patient.id && LastReadingOf(ss[k]) <= es[q].lastReading;
    assert (es + [e])[q] == es[q];
  }

  /** Replacing an entry by a newer one of the same patient keeps every session covered. */
  lemma CoveredAfterReplace(ss: seq<Session>, k: nat, es: seq<RecentEntry>, j: nat, e: RecentEntry)
    requires k < |ss| && |ss[k].records| > 0 && Covered(ss, k, es)
    requires j < |es| && e.patientId == es[j].patientId && e.lastReading >= es[j].lastReading
    ensures Covered(ss, k, es[j := e])
  {
    var q :| 0 <= q < |es| && es[q].patientId == ss[k].patient.id && LastReadingOf(ss[k]) <= es[q].lastReading;
    var es' := es[j := e];
    assert es'[q].patientId == ss[k].patient.id && LastReadingOf(ss[k]) <= es'[q].lastReading;
  }

  /** The entry of patient `es[j]` is the only one with that key. */
  lemma OnlyEntry(es: seq<RecentEntry>, j: nat, q: nat)
    requires KeysDistinct(es) && j < |es| && q < |es| && es[q].patientId == es[j].patientId
    ensures q == j
  {
  }

  /** The entry stored under the patient of session `i` covers every earlier session of that patient. */
  lemma EarlierCovered(ss: seq<Session>, i: nat, es: seq<RecentEntry>, src: seq<nat>, j: nat, k': nat)
    requires Built(ss, i, es, src) && i < |ss|
    requires j < |es| && es[j].patientId == ss[i].patient.id
    requires k' < i && |ss[k'].records| > 0 && ss[k'].patient.id == ss[i].patient.id
    ensures LastReadingOf(ss[k']) <= es[j].lastReading
  {
    assert Covered(ss, k', es);
    var q :| 0 <= q < |es| && es[q].patientId == ss[k'].patient.id && LastReadingOf(ss[k']) <= es[q].lastReading;
    OnlyEntry(es, j, q);
  }

  /** A newer reading for a known patient replaces that patient's entry in place. */
  lemma ReplaceEntry(ss: seq<Session>, i: nat, es: seq<RecentEntry>, src: seq<nat>, j: nat, e: RecentEntry)
    requires Built(ss, i, es, src) && i < |ss| && |ss[i].records| > 0
    requires IndexOfPatient(es, ss[i].patient.id) == Some(j)
    requires LastReadingOf(ss[i]) > es[j].lastReading
    requires e == RecentEntry(ss[i].patient.id, SessionsTable.PatientName(ss[i]), LastReadingOf(ss[i]))
    ensures Built(ss, i + 1, es[j := e], src[j := i])
  {
    forall k' | 0 <= k' < i && |ss[k'].records| > 0 && ss[k'].patient.id == e.patientId
      ensures LastReadingOf(ss[k']) < e.lastReading
    {
      EarlierCovered(ss, i, es, src, j, k');
    }
    assert FromSession(ss, i, e);
    ReplaceKeepsKeys(es, j, e);
    ReplaceKeepsOrigins(ss, i, es, src, j, e, es[j := e], src[j := i]);
    ReplaceCovers(ss, i, es, j, e);
  }

  /** Replacing an entry by one with the same key keeps the keys distinct. */
  lemma ReplaceKeepsKeys(es: seq<RecentEntry>, j: nat, e: RecentEntry)
    requires KeysDistinct(es) && j < |es| && e.patientId == es[j].patientId
    ensures KeysDistinct(es[j := e])
  {
    var es' := es[j := e];
    forall p, q | 0 <= p < |es'| && 0 <= q < |es'| && es'[p].patientId == es'[q].patientId ensures p == q {
      assert es'[p].patientId == es[p].patientId && es'[q].patientId == es[q].patientId;
    }
  }

  /** The other entries keep the sessions they came from; the new one comes from session `i`. */
  lemma ReplaceKeepsOrigins(ss: seq<Session>, i: nat, es: seq<RecentEntry>, src: seq<nat>, j: nat, e: RecentEntry,
                             es': seq<RecentEntry>, src': seq<nat>)
    requires Origins(ss, i, es, src) && j < |es| && es' == es[j := e] && src' == src[j := i]
    requires FromSession(ss, i, e)
    ensures Origins(ss, i + 1, es', src')
  {
  }

  /** After the replacement every session up to `i` is covered. */
  lemma ReplaceCovers(ss: seq<Session>, i: nat, es: seq<RecentEntry>, j: nat, e: RecentEntry)
    requires i < |ss| && |ss[i].records| > 0
    requires AllCovered(ss, i, es)
    requires j < |es| && es[j].patientId == ss[i].patient.id
    requires e.patientId == ss[i].patient.id && e.lastReading == LastReadingOf(ss[i]) > es[j].lastReading
    ensures AllCovered(ss, i + 1, es[j := e])
  {
    var es' := es[j := e];
    forall k | 0 <= k < i + 1 && |ss[k].records| > 0 ensures Covered(ss, k, es') {
      if k < i {
        CoveredAfterReplace(ss, k, es, j, e);
      } else {
        CoveredBy(ss, k, es', j);
      }
    }
  }

  /** A reading that is not newer than the stored one leaves the map as it is. */
  lemma KeepEntry(ss: seq<Session>, i: nat, es: seq<RecentEntry>, src: seq<nat>, j: nat)
    requires Built(ss, i, es, src) && i < |ss| && |ss[i].records| > 0
    requires IndexOfPatient(es, ss[i].patient.id) == Some(j)
    requires LastReadingOf(ss[i]) <= es[j].lastReading
    ensures Built(ss, i + 1, es, src)
  {
    OriginsGrow(ss, i, es, src);
    forall k | 0 <= k < i + 1 && |ss[k].records| > 0 ensures Covered(ss, k, es) {
      if k == i { CoveredBy(ss, i, es, j); }
    }
  }

  /** How many patients the dashboard lists. */
  const RecentLimit: nat := 5

  /** `.sort(newest first).slice(0, 5)`. */
  function TopRecent(es: seq<RecentEntry>): (top: seq<RecentEntry>)
    ensures |top| == if |es| < RecentLimit then |es| else RecentLimit
    ensures SortedDesc(top, LastReading)
    ensures forall e :: e in top ==> e in es
    ensures forall e :: e in es ==> e in top || forall t :: t in top ==> e.lastReading <= t.lastReading
  {
    var sorted := SortDesc(es, LastReading);
    SortDescProps(es, LastReading);
    var n := if |es| < RecentLimit then |es| else RecentLimit;
    CutKeepsNewest(es, sorted, n);
    sorted[..n]
  }

  /** Cutting a newest-first reordering of `es` leaves out only entries no newer than those kept. */
  lemma CutKeepsNewest(es: seq<RecentEntry>, sorted: seq<RecentEntry>, n: nat)
    requires SortedDesc(sorted, LastReading) && multiset(sorted) == multiset(es) && n <= |sorted|
    ensures forall e :: e in sorted[..n] ==> e in es
    ensures forall e :: e in es ==> e in sorted[..n] || forall t :: t in sorted[..n] ==> e.lastReading <= t.lastReading
  {
    var top := sorted[..n];
    forall e | e in top ensures e in es {
      assert e in multiset(sorted);
    }
    forall e | e in es ensures e in top || forall t :: t in top ==> e.lastReading <= t.lastReading {
      assert e in multiset(sorted);
      var p :| 0 <= p < |sorted| && sorted[p] == e;
      if p < n {
        assert top[p] == e;
      } else {
        forall t | t in top ensures e.lastReading <= t.lastReading {
          var r :| 0 <= r < n && top[r] == t;
        }
      }
    }
  }

  /** One line of the recent-patients card. */
  datatype RecentRow = RecentRow(name: string, status: string, lastReading: string)

  /**
   * `recentPatients`: the five patients with the newest readings, one entry
   * each, newest first, every one marked "Estable" with its relative time.
   */
  method RecentPatients(ss: seq<Session>, now: int) returns (top: seq<RecentEntry>, rows: seq<RecentRow>)
    ensures |top| <= RecentLimit && |rows| == |top|
    ensures SortedDesc(top, LastReading)
    ensures KeysDistinct(top)
    ensures forall q :: 0 <= q < |top| ==> HasOrigin(ss, top[q])
    ensures forall q :: 0 <= q < |top| ==> NewestOfPatient(ss, top[q])
    ensures |top| == if |PatientsWithReadings(ss)| < RecentLimit then |PatientsWithReadings(ss)| else RecentLimit
    ensures forall k :: 0 <= k < |ss| && |ss[k].records| > 0 && !Lists(top, ss[k].patient.id) ==>
              NoneOlderThan(top, LastReadingOf(ss[k]))
    ensures forall q :: 0 <= q < |top| ==>
              rows[q] == RecentRow(top[q].name, "Estable", FormatRelative(Some(top[q].lastReading), now))
  {
    var entries := CollectLatestPerPatient(ss);
    top := TopRecent(entries);
    SortDescProps(entries, LastReading);
    TopDistinct(entries);
    TopNewest(ss, entries);
    TopLeftOut(ss, entries);
    rows := seq(|top|, q requires 0 <= q < |top| => RecentRow(top[q].name, "Estable", FormatRelative(Some(top[q].lastReading), now)));
  }

  /** Two positions of the top list hold entries of different patients. */
  lemma TopDistinct(es: seq<RecentEntry>)
    requires KeysDistinct(es)
    ensures KeysDistinct(TopRecent(es))
  {
    var sorted := SortDesc(es, LastReading);
    SortDescProps(es, LastReading);
    PermutationKeysDistinct(sorted, es);
  }

  /** Reordering entries with distinct keys keeps the keys distinct. */
  lemma PermutationKeysDistinct(sorted: seq<RecentEntry>, es: seq<RecentEntry>)
    requires KeysDistinct(es) && multiset(sorted) == multiset(es)
    ensures KeysDistinct(sorted)
  {
    forall p, q | 0 <= p < |sorted| && 0 <= q < |sorted| && sorted[p].patientId == sorted[q].patientId
      ensures p == q
    {
      assert sorted[p] in multiset(es) && sorted[q] in multiset(es);
      var a :| 0 <= a < |es| && es[a] == sorted[p];
      var b :| 0 <= b < |es| && es[b] == sorted[q];
      assert a == b;
      CountOne(es, a);
      UniquePosition(sorted, sorted[p], p, q);
    }
  }

  /** An entry of a list with distinct keys occurs in it once. */
  lemma CountOne(es: seq<RecentEntry>, a: nat)
    requires KeysDistinct(es) && a < |es|
    ensures multiset(es)[es[a]] == 1
  {
    var x := es[a];
    assert es == es[..a] + [x] + es[a + 1..];
    forall b | 0 <= b < |es| && b != a ensures es[b] != x {
    }
    assert x !in es[..a];
    assert x !in es[a + 1..];
  }

  /** A value that occurs at most once sits at one position only. */
  lemma UniquePosition<T>(s: seq<T>, x: T, p: nat, q: nat)
    requires p < |s| && q < |s| && s[p] == x && s[q] == x
    requires multiset(s)[x] <= 1
    ensures p == q
  {
    if p < q {
      CountTwo(s, p, q);
    } else if q < p {
      CountTwo(s, q, p);
    }
  }

  /** A value at two positions occurs at least twice. */
  lemma CountTwo<T>(s: seq<T>, p: nat, q: nat)
    requires p < q < |s| && s[p] == s[q]
    ensures multiset(s)[s[p]] >= 2
  {
    var x := s[q];
    assert s == s[..q] + [x] + s[q + 1..];
    assert s[..q][p] == x;
    assert multiset(s) == multiset(s[..q]) + multiset{x} + multiset(s[q + 1..]);
  }

  /** The patients that have at least one session with records. */
  ghost function PatientsWithReadings(ss: seq<Session>): set<string> {
    set k | 0 <= k < |ss| && |ss[k].records| > 0 :: ss[k].patient.id
  }

  /** Entry `e` holds the newest reading of its patient over all sessions with records. */
  ghost predicate NewestOfPatient(ss: seq<Session>, e: RecentEntry) {
    forall k :: 0 <= k < |ss| && |ss[k].records| > 0 && ss[k].patient.id == e.patientId ==>
      LastReadingOf(ss[k]) <= e.lastReading
  }

  /** Some entry of `es` belongs to patient `id`. */
  ghost predicate Lists(es: seq<RecentEntry>, id: string) {
    exists q :: 0 <= q < |es| && es[q].patientId == id
  }

  /** Every entry of `es` is at least as new as time `t`. */
  ghost predicate NoneOlderThan(es: seq<RecentEntry>, t: int) {
    forall q :: 0 <= q < |es| ==> t <= es[q].lastReading
  }

  /** The patient ids of some entries. */
  ghost function KeysOf(es: seq<RecentEntry>): set<string>
    decreases |es|
  {
    if |es| == 0 then {} else KeysOf(es[..|es| - 1]) + {es[|es| - 1].patientId}
  }

  lemma {:induction false} KeysOfMembers(es: seq<RecentEntry>, id: string)
    ensures id in KeysOf(es) <==> Lists(es, id)
    decreases |es|
  {
    if |es| > 0 {
      var init := es[..|es| - 1];
      KeysOfMembers(init, id);
      if Lists(init, id) {
        var q :| 0 <= q < |init| && init[q].patientId == id;
        assert es[q].patientId == id;
      }
      if Lists(es, id) && es[|es| - 1].patientId != id {
        var q :| 0 <= q < |es| && es[q].patientId == id;
        assert init[q].patientId == id;
      }
    }
  }

  /** Entries with distinct keys have as many keys as entries. */
  lemma {:induction false} KeysOfSize(es: seq<RecentEntry>)
    requires KeysDistinct(es)
    ensures |KeysOf(es)| == |es|
    decreases |es|
  {
    if |es| > 0 {
      var init := es[..|es| - 1];
      var last := es[|es| - 1];
      assert KeysDistinct(init) by {
        forall p, q | 0 <= p < |init| && 0 <= q < |init| && init[p].patientId == init[q].patientId
          ensures p == q
        {
          assert es[p] == init[p] && es[q] == init[q];
        }
      }
      KeysOfSize(init);
      KeysOfMembers(init, last.patientId);
      forall q | 0 <= q < |init| ensures init[q].patientId != last.patientId {
        assert es[q] == init[q];
      }
      assert last.patientId !in KeysOf(init);
    }
  }

  /** Collected entries hold the newest reading of their patient. */
  lemma EntriesNewest(ss: seq<Session>, es: seq<RecentEntry>)
    requires KeysDistinct(es) && AllCovered(ss, |ss|, es)
    ensures forall q :: 0 <= q < |es| ==> NewestOfPatient(ss, es[q])
  {
    forall q, k | 0 <= q < |es| && 0 <= k < |ss| && |ss[k].records| > 0 && ss[k].patient.id == es[q].patientId
      ensures LastReadingOf(ss[k]) <= es[q].lastReading
    {
      assert Covered(ss, k, es);
      var p :| 0 <= p < |es| && es[p].patientId == ss[k].patient.id && LastReadingOf(ss[k]) <= es[p].lastReading;
    }
  }

  /** There is one collected entry per patient with readings. */
  lemma EntriesCount(ss: seq<Session>, es: seq<RecentEntry>)
    requires KeysDistinct(es) && AllCovered(ss, |ss|, es)
    requires forall q :: 0 <= q < |es| ==> HasOrigin(ss, es[q])
    ensures |es| == |PatientsWithReadings(ss)|
  {
    forall id ensures id in KeysOf(es) <==> id in PatientsWithReadings(ss) {
      KeysOfMembers(es, id);
      if Lists(es, id) {
        var q :| 0 <= q < |es| && es[q].patientId == id;
        var k: nat :| FromSession(ss, k, es[q]);
        assert ss[k].patient.id == id;
      }
      if id in PatientsWithReadings(ss) {
        var k :| 0 <= k < |ss| && |ss[k].records| > 0 && ss[k].patient.id == id;
        assert Covered(ss, k, es);
      }
    }
    assert KeysOf(es) == PatientsWithReadings(ss);
    KeysOfSize(es);
  }

  /** The listed entries keep the newest reading of their patient. */
  lemma TopNewest(ss: seq<Session>, es: seq<RecentEntry>)
    requires forall q :: 0 <= q < |es| ==> NewestOfPatient(ss, es[q])
    ensures forall q :: 0 <= q < |TopRecent(es)| ==> NewestOfPatient(ss, TopRecent(es)[q])
  {
    var top := TopRecent(es);
    forall q | 0 <= q < |top| ensures NewestOfPatient(ss, top[q]) {
      assert top[q] in es;
      var p :| 0 <= p < |es| && es[p] == top[q];
    }
  }

  /** A patient with readings that is not listed has no reading newer than a listed one. */
  lemma TopLeftOut(ss: seq<Session>, es: seq<RecentEntry>)
    requires AllCovered(ss, |ss|, es)
    ensures forall k :: 0 <= k < |ss| && |ss[k].records| > 0 && !Lists(TopRecent(es), ss[k].patient.id) ==>
              NoneOlderThan(TopRecent(es), LastReadingOf(ss[k]))
  {
    var top := TopRecent(es);
    forall k | 0 <= k < |ss| && |ss[k].records| > 0 && !Lists(top, ss[k].patient.id)
      ensures NoneOlderThan(top, LastReadingOf(ss[k]))
    {
      assert Covered(ss, k, es);
      var p :| 0 <= p < |es| && es[p].patientId == ss[k].patient.id && LastReadingOf(ss[k]) <= es[p].lastReading;
      forall r | 0 <= r < |top| ensures top[r] != es[p] {
        assert top[r].patientId != ss[k].patient.id;
      }
      assert es[p] !in top;
      assert es[p] in es;
    }
  }
}
