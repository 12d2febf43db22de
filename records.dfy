/**
 * Computations over session records that several pages share: the `reduce`
 * that picks the latest record, the finite values of one metric with their
 * average, minimum and maximum (`arrNums` with `stats`/`computeStats`), and
 * totals over a list of sessions.
 */
module Records {
  import opened Wrappers
  import opened JsNumber
  import opened Domain
  import opened Sorting

  /**
   * `records.reduce((acc, cur) => !acc ? cur : (cur.recordedAt > acc.recordedAt ? cur : acc), undefined)`:
   * a record with the latest timestamp, the first one among equals.
   */
  function LatestRecord(rs: seq<SessionData>): (r: Option<SessionData>)
    ensures r.None? <==> |rs| == 0
    ensures r.Some? ==> exists k :: IsFirstMax(rs, RecordedAt, k) && rs[k] == r.value
    decreases |rs|
  {
    if |rs| == 0 then None
    else
      var acc := LatestRecord(rs[..|rs| - 1]);
      var cur := rs[|rs| - 1];
      LatestStep(rs, acc);
      if acc.None? || cur.recordedAt > acc.value.recordedAt then Some(cur) else acc
  }

  /**
   * One step of the `reduce`: the new record replaces the running latest of the
   * records before it when there is none or it is strictly later.
   */
  lemma LatestStep(rs: seq<SessionData>, acc: Option<SessionData>)
    requires |rs| > 0
    requires acc.None? <==> |rs| == 1
    requires acc.Some? ==> exists k :: IsFirstMax(rs[..|rs| - 1], RecordedAt, k) && rs[k] == acc.value
    ensures var cur := rs[|rs| - 1];
            exists k :: IsFirstMax(rs, RecordedAt, k)
                        && rs[k] == (if acc.None? || cur.recordedAt > acc.value.recordedAt then cur else acc.value)
  {
    var cur := rs[|rs| - 1];
    if acc.None? {
      assert IsFirstMax(rs, RecordedAt, 0);
    } else {
      var init := rs[..|rs| - 1];
      var k :| IsFirstMax(init, RecordedAt, k) && rs[k] == acc.value;
      assert forall j :: 0 <= j < |init| ==> rs[j] == init[j];
      if cur.recordedAt > acc.value.recordedAt {
        assert IsFirstMax(rs, RecordedAt, |init|);
      } else {
        assert IsFirstMax(rs, RecordedAt, k);
      }
    }
  }

  /** The value of a metric when it is a finite number. */
  function FiniteValue(r: SessionData, m: Metric): Option<real> {
    match Pick(r, m)
    case Some(Finite(x)) => Some(x)
    case _ => None
  }

  /** `arrNums(records, pick)`: the picked values that are finite numbers, in record order. */
  function FiniteValues(rs: seq<SessionData>, m: Metric): (vals: seq<real>)
    ensures |vals| <= |rs|
    decreases |rs|
  {
    if |rs| == 0 then []
    else (match FiniteValue(rs[0], m) case Some(x) => [x] case None => []) + FiniteValues(rs[1..], m)
  }

  /** A value is kept exactly when some record holds it as a finite number. */
  lemma {:induction false} FiniteValuesMembers(rs: seq<SessionData>, m: Metric)
    ensures forall x :: x in FiniteValues(rs, m) <==> exists i :: 0 <= i < |rs| && Pick(rs[i], m) == Some(Finite(x))
    decreases |rs|
  {
    if |rs| > 0 {
      FiniteValuesMembers(rs[1..], m);
      forall x ensures x in FiniteValues(rs, m) <==> exists i :: 0 <= i < |rs| && Pick(rs[i], m) == Some(Finite(x)) {
        if (exists i :: 0 <= i < |rs| && Pick(rs[i], m) == Some(Finite(x))) {
          var i :| 0 <= i < |rs| && Pick(rs[i], m) == Some(Finite(x));
          if i > 0 { assert Pick(rs[1..][i - 1], m) == Some(Finite(x)); }
        }
        if x in FiniteValues(rs[1..], m) {
          var i :| 0 <= i < |rs| - 1 && Pick(rs[1..][i], m) == Some(Finite(x));
          assert Pick(rs[i + 1], m) == Some(Finite(x));
        }
      }
    }
  }

  /** Appending a record whose value is missing, NaN or infinite leaves the values unchanged. */
  lemma {:induction false} FiniteValuesIgnoresNonFinite(rs: seq<SessionData>, r: SessionData, m: Metric)
    requires !(Pick(r, m).Some? && Pick(r, m).value.Finite?)
    ensures FiniteValues(rs + [r], m) == FiniteValues(rs, m)
    decreases |rs|
  {
    if |rs| == 0 {
      assert FiniteValues([r], m) == [] + FiniteValues([], m);
    } else {
      assert (rs + [r])[1..] == rs[1..] + [r];
      FiniteValuesIgnoresNonFinite(rs[1..], r, m);
    }
  }

  function Sum(vals: seq<real>): real
    decreases |vals|
  {
    if |vals| == 0 then 0.0 else vals[0] + Sum(vals[1..])
  }

  /** `Math.min(...vals)` */
  function MinOf(vals: seq<real>): (r: real)
    requires |vals| > 0
    ensures r in vals && forall v :: v in vals ==> r <= v
    decreases |vals|
  {
    if |vals| == 1 then vals[0]
    else
      var rest := MinOf(vals[1..]);
      assert forall v :: v in vals ==> v == vals[0] || v in vals[1..];
      if vals[0] <= rest then vals[0] else rest
  }

  /** `Math.max(...vals)` */
  function MaxOf(vals: seq<real>): (r: real)
    requires |vals| > 0
    ensures r in vals && forall v :: v in vals ==> v <= r
    decreases |vals|
  {
    if |vals| == 1 then vals[0]
    else
      var rest := MaxOf(vals[1..]);
      assert forall v :: v in vals ==> v == vals[0] || v in vals[1..];
      if vals[0] >= rest then vals[0] else rest
  }

  lemma {:induction false} SumBounds(vals: seq<real>, lo: real, hi: real)
    requires forall i :: 0 <= i < |vals| ==> lo <= vals[i] <= hi
    ensures (|vals| as real) * lo <= Sum(vals) <= (|vals| as real) * hi
    decreases |vals|
  {
    if |vals| > 0 {
      var n := |vals| as real;
      assert forall i :: 0 <= i < |vals| - 1 ==> vals[1..][i] == vals[i + 1];
      SumBounds(vals[1..], lo, hi);
      assert |vals[1..]| as real == n - 1.0;
      assert Sum(vals) == vals[0] + Sum(vals[1..]);
      assert lo <= vals[0] <= hi;
      assert n * lo == (n - 1.0) * lo + lo;
      assert n * hi == (n - 1.0) * hi + hi;
    }
  }

  /** Dividing a bound on `n` copies by `n`. */
  lemma DivideBound(total: real, n: real, lo: real, hi: real)
    requires n > 0.0 && n * lo <= total <= n * hi
    ensures lo <= total / n <= hi
  {
    assert (total / n) * n == total;
  }

  /** Every element lies between `lo` and `hi`, by index. */
  lemma BoundsByIndex(vals: seq<real>, lo: real, hi: real)
    requires forall v :: v in vals ==> lo <= v <= hi
    ensures forall i :: 0 <= i < |vals| ==> lo <= vals[i] <= hi
  {
    forall i | 0 <= i < |vals| ensures lo <= vals[i] <= hi {
      assert vals[i] in vals;
    }
  }

  /** The mean of values that all lie between `lo` and `hi` lies there too. */
  lemma MeanWithin(vals: seq<real>, lo: real, hi: real)
    requires |vals| > 0
    requires forall i :: 0 <= i < |vals| ==> lo <= vals[i] <= hi
    ensures lo <= Sum(vals) / (|vals| as real) <= hi
  {
    SumBounds(vals, lo, hi);
    DivideBound(Sum(vals), |vals| as real, lo, hi);
  }

  /** The mean of a non-empty list lies between its minimum and maximum. */
  lemma MeanBetween(vals: seq<real>)
    requires |vals| > 0
    ensures MinOf(vals) <= Sum(vals) / (|vals| as real) <= MaxOf(vals)
  {
    var lo, hi := MinOf(vals), MaxOf(vals);
    BoundsByIndex(vals, lo, hi);
    MeanWithin(vals, lo, hi);
  }

  datatype MetricStats = MetricStats(avg: real, min: real, max: real)

  /**
   * `stats`/`computeStats`: average, minimum and maximum of the finite values,
   * all zero when there are none.
   */
  function ComputeStats(rs: seq<SessionData>, m: Metric): (st: MetricStats)
    ensures |FiniteValues(rs, m)| == 0 ==> st == MetricStats(0.0, 0.0, 0.0)
    ensures |FiniteValues(rs, m)| > 0 ==>
              && st.min in FiniteValues(rs, m) && st.max in FiniteValues(rs, m)
              && (forall v :: v in FiniteValues(rs, m) ==> st.min <= v <= st.max)
              && st.min <= st.avg <= st.max
  {
    var vals := FiniteValues(rs, m);
    if |vals| == 0 then MetricStats(0.0, 0.0, 0.0)
    else
      MeanBetween(vals);
      MetricStats(Sum(vals) / (|vals| as real), MinOf(vals), MaxOf(vals))
  }

  /** `sessions.flatMap(s => s.records ?? [])`. */
  function FlattenRecords(ss: seq<Session>): seq<SessionData>
    decreases |ss|
  {
    if |ss| == 0 then [] else ss[0].records + FlattenRecords(ss[1..])
  }

  /** `sessions.reduce((acc, s) => acc + (s.records?.length ?? 0), 0)`. */
  function TotalRecords(ss: seq<Session>): nat
    decreases |ss|
  {
    if |ss| == 0 then 0 else |ss[0].records| + TotalRecords(ss[1..])
  }

  lemma {:induction false} FlattenLength(ss: seq<Session>)
    ensures |FlattenRecords(ss)| == TotalRecords(ss)
    decreases |ss|
  {
    if |ss| > 0 { FlattenLength(ss[1..]); }
  }

  /** Every record of every session appears in the flattened list. */
  lemma {:induction false} FlattenMembers(ss: seq<Session>)
    ensures forall r :: r in FlattenRecords(ss) <==> exists i :: 0 <= i < |ss| && r in ss[i].records
    decreases |ss|
  {
    if |ss| > 0 {
      FlattenMembers(ss[1..]);
      forall r ensures r in FlattenRecords(ss) <==> exists i :: 0 <= i < |ss| && r in ss[i].records {
        if exists i :: 0 <= i < |ss| && r in ss[i].records {
          var i :| 0 <= i < |ss| && r in ss[i].records;
          if i > 0 { assert r in ss[1..][i - 1].records; }
        }
        if r in FlattenRecords(ss[1..]) {
          var i :| 0 <= i < |ss| - 1 && r in ss[1..][i].records;
          assert r in ss[i + 1].records;
        }
      }
    }
  }

  /** The ids of the sessions' patients, empty ids left out (`filter(Boolean)`). */
  function PatientIds(ss: seq<Session>): set<string>
    decreases |ss|
  {
    if |ss| == 0 then {}
    else (if ss[0].patient.id != "" then {ss[0].patient.id} else {}) + PatientIds(ss[1..])
  }

  /** An id is counted exactly when it is non-empty and some session's patient has it. */
  lemma {:induction false} PatientIdsMembers(ss: seq<Session>)
    ensures forall i :: 0 <= i < |ss| && ss[i].patient.id != "" ==> ss[i].patient.id in PatientIds(ss)
    ensures forall id :: id in PatientIds(ss) ==> id != "" && exists i :: 0 <= i < |ss| && ss[i].patient.id == id
    decreases |ss|
  {
    if |ss| > 0 {
      PatientIdsMembers(ss[1..]);
      forall i | 0 < i < |ss| ensures ss[i] == ss[1..][i - 1] { }
      forall id | id in PatientIds(ss[1..]) ensures exists i :: 0 <= i < |ss| && ss[i].patient.id == id {
        var i :| 0 <= i < |ss| - 1 && ss[1..][i].patient.id == id;
        assert ss[i + 1].patient.id == id;
      }
    }
  }

  /** There are never more distinct patients than sessions. */
  lemma {:induction false} PatientIdsBound(ss: seq<Session>)
    ensures |PatientIds(ss)| <= |ss|
    decreases |ss|
  {
    if |ss| > 0 {
      PatientIdsBound(ss[1..]);
      var first: set<string> := if ss[0].patient.id != "" then {ss[0].patient.id} else {};
      assert PatientIds(ss) == first + PatientIds(ss[1..]);
      assert |first + PatientIds(ss[1..])| <= |first| + |PatientIds(ss[1..])|;
    }
  }

  /** A session started inside the inclusive window `[dayStart, dayEnd]`. */
  predicate StartedWithin(s: Session, dayStart: int, dayEnd: int) {
    dayStart <= s.startedAt <= dayEnd
  }

  /** `sessions.filter(s => start <= startedAt && startedAt <= end).length`. */
  function CountStartedWithin(ss: seq<Session>, dayStart: int, dayEnd: int): (n: nat)
    ensures n <= |ss|
    ensures n == 0 <==> forall i :: 0 <= i < |ss| ==> !StartedWithin(ss[i], dayStart, dayEnd)
    ensures n == |ss| <==> forall i :: 0 <= i < |ss| ==> StartedWithin(ss[i], dayStart, dayEnd)
    decreases |ss|
  {
    if |ss| == 0 then 0
    else
      var rest := CountStartedWithin(ss[1..], dayStart, dayEnd);
      assert forall i :: 0 < i < |ss| ==> ss[i] == ss[1..][i - 1];
      (if StartedWithin(ss[0], dayStart, dayEnd) then 1 else 0) + rest
  }

  /** Counting over two lists of sessions adds up. */
  lemma {:induction false} CountStartedWithinAppend(a: seq<Session>, b: seq<Session>, dayStart: int, dayEnd: int)
    ensures CountStartedWithin(a + b, dayStart, dayEnd) == CountStartedWithin(a, dayStart, dayEnd) + CountStartedWithin(b, dayStart, dayEnd)
    decreases |a|
  {
    if |a| > 0 {
      assert (a + b)[1..] == a[1..] + b;
      CountStartedWithinAppend(a[1..], b, dayStart, dayEnd);
    } else {
      assert a + b == b;
    }
  }
}
