/**
 * The browser's congestion store (congestionStore.js): the current
 * metrics, merged field by field from each update, and the history of the
 * last 100 updates.
 *
 * A metrics object is a map from field name to value; the clock that
 * stamps each update is a parameter.
 */
module CongestionStore {
  import CongestionCommon

  /** A field value: a number or a text. */
  datatype Value = Num(n: int) | Text(s: string)

  type Metrics = map<string, Value>

  const HistoryCap: nat := 100

  /** The metrics before any update (lossRate, a fraction in the browser, starts at 0 here too). */
  const InitialMetrics: Metrics := map[
    "algorithm" := Text("NONE"), "cwnd" := Num(0), "ssthresh" := Num(0), "rate" := Num(0),
    "state" := Text("未初始化"), "rtt" := Num(0), "minRtt" := Num(0), "lossRate" := Num(0),
    "bandwidth" := Num(0), "networkQuality" := Text("未知"), "inflightCount" := Num(0), "inflightBytes" := Num(0)]

  datatype Store = Store(current: Metrics, history: seq<Metrics>)

  const Initial: Store := Store(InitialMetrics, [])

  /** An update stamped with the time it arrived. */
  function Stamped(m: Metrics, now: int): (r: Metrics)
    ensures r.Keys == m.Keys + {"timestamp"} && r["timestamp"] == Num(now)
  {
    m["timestamp" := Num(now)]
  }

  /**
   * updateMetrics: the update's fields override the current ones, the
   * others stay, and the time is stamped; the stamped update joins the
   * history, whose oldest entry is dropped once it would exceed 100.
   */
  function UpdateMetrics(s: Store, m: Metrics, now: int): (r: Store)
    ensures r.current.Keys == s.current.Keys + m.Keys + {"timestamp"}
    ensures r.current["timestamp"] == Num(now)
    ensures forall k :: k in m && k != "timestamp" ==> r.current[k] == m[k]
    ensures forall k :: k in s.current && k !in m && k != "timestamp" ==> r.current[k] == s.current[k]
    ensures |r.history| > 0 && r.history[|r.history| - 1] == Stamped(m, now)
    ensures r.history == Push(s.history, Stamped(m, now))
  {
    Store(Stamped(s.current + m, now), Push(s.history, Stamped(m, now)))
  }

  /** The history after one more entry: appended, the oldest dropped once there would be more than 100. */
  function Push<T>(h: seq<T>, x: T): (r: seq<T>)
    ensures |r| > 0 && r[|r| - 1] == x
    ensures |h| <= HistoryCap ==> |r| <= HistoryCap
    ensures |h| < HistoryCap ==> r == h + [x]
    ensures |h| >= HistoryCap ==> r == h[1..] + [x]
  {
    var r := CongestionCommon.BoundedAppend(h, x, HistoryCap);
    assert |h| >= HistoryCap ==> (h + [x])[1..] == h[1..] + [x];
    r
  }

  /** The last n entries of a sequence, or all of it when it is shorter. */
  function LastN<T>(xs: seq<T>, n: nat): (r: seq<T>)
    ensures |r| == CongestionCommon.Min(|xs|, n)
  {
    if |xs| <= n then xs else xs[|xs| - n..]
  }

  /** Feeding a sequence of updates, stamped at the given times. */
  function Run(s: Store, ms: seq<Metrics>, times: seq<int>): Store
    requires |times| == |ms|
    decreases |ms|
  {
    if ms == [] then s
    else Run(UpdateMetrics(s, ms[0], times[0]), ms[1..], times[1..])
  }

  function StampAll(ms: seq<Metrics>, times: seq<int>): (r: seq<Metrics>)
    requires |times| == |ms|
    ensures |r| == |ms|
    ensures forall k :: 0 <= k < |ms| ==> r[k] == Stamped(ms[k], times[k])
  {
    if ms == [] then [] else [Stamped(ms[0], times[0])] + StampAll(ms[1..], times[1..])
  }

  /** Pushing entries one by one. */
  function PushAll<T>(h: seq<T>, xs: seq<T>): seq<T>
    decreases |xs|
  {
    if xs == [] then h else PushAll(Push(h, xs[0]), xs[1..])
  }

  /**
   * From a history of at most 100 entries, pushing any entries leaves the
   * last 100 of the old history followed by the new entries: the oldest
   * entries are the ones dropped.
   */
  lemma {:induction false} PushAllKeepsLastHundred<T>(h: seq<T>, xs: seq<T>)
    requires |h| <= HistoryCap
    ensures PushAll(h, xs) == LastN(h + xs, HistoryCap)
    decreases |xs|
  {
    if xs != [] {
      PushAllKeepsLastHundred(Push(h, xs[0]), xs[1..]);
      assert h + xs == h + [xs[0]] + xs[1..];
      LastNAfterStep(h, xs[0], xs[1..], Push(h, xs[0]));
    }
  }

  /** A run of updates pushes the stamped updates onto the history. */
  lemma {:induction false} RunPushesStamped(s: Store, ms: seq<Metrics>, times: seq<int>)
    requires |times| == |ms|
    ensures Run(s, ms, times).history == PushAll(s.history, StampAll(ms, times))
    decreases |ms|
  {
    if ms != [] {
      RunPushesStamped(UpdateMetrics(s, ms[0], times[0]), ms[1..], times[1..]);
      var st := StampAll(ms, times);
      assert st[0] == Stamped(ms[0], times[0]) && st[1..] == StampAll(ms[1..], times[1..]);
    }
  }

  /** One capped append followed by the rest keeps the same last hundred. */
  lemma LastNAfterStep<T>(h: seq<T>, x: T, rest: seq<T>, h1: seq<T>)
    requires |h| <= HistoryCap
    requires |h| < HistoryCap ==> h1 == h + [x]
    requires |h| >= HistoryCap ==> h1 == h[1..] + [x]
    ensures LastN(h1 + rest, HistoryCap) == LastN(h + [x] + rest, HistoryCap)
  {
    if |h| >= HistoryCap {
      var a := h + [x] + rest;
      assert h1 + rest == a[1..];
    }
  }

  /** The history never holds more than 100 entries, however many updates arrive. */
  lemma RunBoundsHistory(s: Store, ms: seq<Metrics>, times: seq<int>)
    requires |times| == |ms| && |s.history| <= HistoryCap
    ensures Run(s, ms, times).history == LastN(s.history + StampAll(ms, times), HistoryCap)
    ensures |Run(s, ms, times).history| <= HistoryCap
  {
    RunPushesStamped(s, ms, times);
    PushAllKeepsLastHundred(s.history, StampAll(ms, times));
  }

  /** clearHistory: the history empties; the current metrics stay. */
  function ClearHistory(s: Store): (r: Store)
    ensures r.history == [] && r.current == s.current
  {
    s.(history := [])
  }

  /** reset: the initial metrics and an empty history, whatever came before. */
  function Reset(s: Store): (r: Store)
    ensures r == Initial
  {
    Store(InitialMetrics, [])
  }

  /** After a reset, one update gives the initial metrics overridden by that update and a one-entry history. */
  lemma ResetThenUpdate(s: Store, m: Metrics, now: int)
    ensures UpdateMetrics(Reset(s), m, now) == Store(Stamped(InitialMetrics + m, now), [Stamped(m, now)])
  {
  }
}
