/**
 * The live monitoring page: a buffer of the most recent sensor readings that
 * an interval timer appends to while monitoring is on, and the start/stop
 * handlers that switch monitoring and clear the buffer.
 */
module Monitoring {
  import opened Wrappers
  import opened JsNumber
  import BreathingPattern

  /** One reading from the sensor (`SensorReading`); timestamps in milliseconds. */
  datatype SensorReading = SensorReading(
    id: string,
    sessionId: string,
    timestamp: int,
    pulseBpm: Option<Num>,
    spo2Percentage: Option<Num>,
    pressureVoltage: Option<Num>,
    breathingPhase: Option<BreathingPattern.Phase>,
    createdAt: int)

  /** How many readings the page keeps. */
  const BufferSize: nat := 50

  /** `updated.slice(-n)`: the last `n` elements, or all of them when there are fewer. */
  function KeepLast<T>(s: seq<T>, n: nat): (r: seq<T>)
    ensures |r| == if |s| <= n then |s| else n
    ensures r == s[|s| - |r|..]
  {
    if |s| <= n then s else s[|s| - n..]
  }

  /** The state update of one timer tick: append the reading, keep the last 50. */
  function PushReading(buffer: seq<SensorReading>, reading: SensorReading): (r: seq<SensorReading>)
    ensures 0 < |r| <= BufferSize
    ensures r[|r| - 1] == reading
    ensures |r| == if |buffer| < BufferSize then |buffer| + 1 else BufferSize
    ensures r[..|r| - 1] == buffer[|buffer| + 1 - |r|..]
  {
    var updated := buffer + [reading];
    var r := KeepLast(updated, BufferSize);
    assert r[..|r| - 1] == updated[|updated| - |r|..|updated| - 1];
    r
  }

  /** Applying the ticks for `readings`, in order, to a buffer. */
  function PushAll(buffer: seq<SensorReading>, readings: seq<SensorReading>): seq<SensorReading>
    decreases |readings|
  {
    if |readings| == 0 then buffer else PushAll(PushReading(buffer, readings[0]), readings[1..])
  }

  /** After any number of ticks the buffer holds the last 50 of everything seen since it was last cleared. */
  lemma {:induction false} PushAllKeepsLast(buffer: seq<SensorReading>, readings: seq<SensorReading>)
    requires |buffer| <= BufferSize
    ensures PushAll(buffer, readings) == KeepLast(buffer + readings, BufferSize)
    decreases |readings|
  {
    if |readings| == 0 {
      assert buffer + readings == buffer;
    } else {
      var next := PushReading(buffer, readings[0]);
      assert next == KeepLast(buffer + [readings[0]], BufferSize);
      PushAllKeepsLast(next, readings[1..]);
      calc {
        PushAll(buffer, readings);
        PushAll(next, readings[1..]);
        KeepLast(KeepLast(buffer + [readings[0]], BufferSize) + readings[1..], BufferSize);
        { KeepLastAppend(buffer + [readings[0]], readings[1..], BufferSize); }
        KeepLast((buffer + [readings[0]]) + readings[1..], BufferSize);
        { assert (buffer + [readings[0]]) + readings[1..] == buffer + readings; }
        KeepLast(buffer + readings, BufferSize);
      }
    }
  }

  /** Keeping the last `n` and appending, then keeping the last `n` again, is keeping the last `n` of the whole. */
  lemma KeepLastAppend<T>(s: seq<T>, t: seq<T>, n: nat)
    ensures KeepLast(KeepLast(s, n) + t, n) == KeepLast(s + t, n)
  {
    if |s| > n {
      var u := s + t;
      var d := |s| - n;
      assert KeepLast(s, n) == s[d..];
      assert s[d..] + t == u[d..];
      KeepLastSuffix(u, d, n);
    }
  }

  /** Dropping a prefix that leaves at least `n` elements does not change the last `n`. */
  lemma KeepLastSuffix<T>(u: seq<T>, d: nat, n: nat)
    requires d + n <= |u|
    ensures KeepLast(u[d..], n) == KeepLast(u, n)
  {
    assert u[d..][|u| - d - n..] == u[|u| - n..];
  }

  /** The page's state; `isConnected` is what the effect on `isMonitoring` sets. */
  class MonitoringPage {
    var isMonitoring: bool
    var isConnected: bool
    var realtimeData: seq<SensorReading>

    ghost predicate Valid()
      reads this
    {
      |realtimeData| <= BufferSize && isConnected == isMonitoring
    }

    constructor ()
      ensures Valid()
      ensures !isMonitoring && !isConnected && realtimeData == []
    {
      isMonitoring := false;
      isConnected := false;
      realtimeData := [];
    }

    /** `startMonitoring`, followed by the effect it triggers. */
    method StartMonitoring()
      modifies this
      ensures Valid()
      ensures isMonitoring && isConnected && realtimeData == []
    {
      isMonitoring := true;
      realtimeData := [];
      SyncConnection();
    }

    /** `stopMonitoring`, followed by the effect it triggers. */
    method StopMonitoring()
      modifies this
      ensures Valid()
      ensures !isMonitoring && !isConnected && realtimeData == []
    {
      isMonitoring := false;
      realtimeData := [];
      SyncConnection();
    }

    /** The effect on `isMonitoring`: the connection flag follows it. */
    method SyncConnection()
      modifies this
      ensures isConnected == isMonitoring
      ensures isMonitoring == old(isMonitoring) && realtimeData == old(realtimeData)
    {
      if isMonitoring {
        isConnected := true;
      } else {
        isConnected := false;
      }
    }

    /** One interval callback, which only runs while monitoring. */
    method Tick(reading: SensorReading)
      requires Valid() && isMonitoring
      modifies this
      ensures Valid()
      ensures realtimeData == PushReading(old(realtimeData), reading)
      ensures isMonitoring == old(isMonitoring) && isConnected == old(isConnected)
    {
      var updated := realtimeData + [reading];
      realtimeData := KeepLast(updated, BufferSize);
    }

    /** `latestReading`: the newest buffered reading, absent when the buffer is empty. */
    function LatestReading(): (r: Option<SensorReading>)
      reads this
      ensures r.None? <==> |realtimeData| == 0
      ensures r.Some? ==> r.value == realtimeData[|realtimeData| - 1]
    {
      if |realtimeData| == 0 then None else Some(realtimeData[|realtimeData| - 1])
    }
  }
}
