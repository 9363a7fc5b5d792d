/**
 * The TCP Reno congestion-control algorithm of the transfer server
 * (RenoAlgorithm): slow start, congestion avoidance and fast recovery over
 * a byte-counted congestion window, in the manner of section 3 of RFC 5681.
 *
 * The algorithm object is a value; each callback is a function from the old
 * value to the new one.  The clock `System.currentTimeMillis()` becomes the
 * parameter `now`, the injected CongestionConfig the parameter `cfg`.
 */
module Reno {
  import opened CongestionCommon

  /** Maximum segment size in bytes. */
  const MSS: int := 1024

  datatype Reno = Reno(
    cwnd: int,
    ssthresh: int,
    currentRtt: int,
    lastCwndUpdateTime: int,
    state: CongestionState)

  /** The states Reno itself ever enters. */
  predicate IsRenoState(st: CongestionState) {
    st == SlowStart || st == CongestionAvoidance || st == FastRecovery
  }

  /** initialize (and reset): a window of at most ten segments, the configured threshold, a 100 ms RTT guess, slow start. */
  function Initialize(cfg: Config, now: int): (r: Reno)
    ensures r.cwnd <= 10 * MSS && r.cwnd <= cfg.initialCwnd
    ensures r.cwnd == 10 * MSS || r.cwnd == cfg.initialCwnd
    ensures r.ssthresh == cfg.ssthresh && r.currentRtt == 100
    ensures r.lastCwndUpdateTime == now && r.state == SlowStart
  {
    Reno(Min(cfg.initialCwnd, MSS * 10), cfg.ssthresh, 100, now, SlowStart)
  }

  /**
   * The slow-start growth on one ACK: the acknowledged bytes rounded down to
   * whole segments, but never less than one segment.
   */
  function SlowStartGrowth(ackedBytes: int): (g: int)
    ensures g >= MSS && g % MSS == 0
    ensures ackedBytes >= MSS ==> ackedBytes - MSS < g <= ackedBytes
    ensures ackedBytes < 2 * MSS ==> g == MSS
  {
    Max(1, JavaDiv(ackedBytes, MSS)) * MSS
  }

  /**
   * The congestion-avoidance growth on one ACK and the new update time: one
   * segment once a full RTT has passed since the last increase, otherwise
   * the fraction MSS*MSS*elapsed / (cwnd*rtt) truncated to whole bytes.
   */
  function AvoidanceGrowth(cwnd: int, rtt: int, last: int, now: int): (r: (int, int))
    ensures now - last >= rtt ==> r == (MSS, now)
    ensures now - last < rtt ==> r.1 == last
    ensures 0 <= now - last < rtt && cwnd > 0 ==> 0 <= r.0 && r.0 * cwnd * rtt <= MSS * MSS * (now - last)
  {
    var timeDelta := now - last;
    if timeDelta >= rtt then (MSS, now)
    else
      var inc := TruncatedQuotient(MSS * MSS * timeDelta, cwnd * rtt);
      if 0 <= timeDelta && cwnd > 0 then
        QuotientBound(MSS * MSS * timeDelta, cwnd * rtt);
        (inc, last)
      else (inc, last)
  }

  /** Within one RTT, on a window of at least one segment, the fractional growth is less than a segment. */
  lemma AvoidanceGrowthBelowSegment(cwnd: int, rtt: int, last: int, now: int)
    requires 0 <= now - last < rtt && cwnd >= MSS
    ensures 0 <= AvoidanceGrowth(cwnd, rtt, last, now).0 < MSS
  {
    var inc := AvoidanceGrowth(cwnd, rtt, last, now).0;
    var t := now - last;
    assert (inc * cwnd) * rtt <= MSS * MSS * t;
    assert (inc * cwnd) * rtt < (MSS * MSS) * rtt;
    MulCancel(inc * cwnd, MSS * MSS, rtt);
    assert inc * cwnd < MSS * cwnd;
    MulCancel(inc, MSS, cwnd);
  }

  lemma QuotientBound(n: int, d: int)
    requires n >= 0 && d > 0
    ensures TruncatedQuotient(n, d) >= 0 && TruncatedQuotient(n, d) * d <= n
  {
    JavaDivNonNegative(n, d);
    DivBounds(n, d);
  }

  /** The window before the final clamp of onAck, and the new phase and update time. */
  function AckStep(s: Reno, ackedBytes: int, now: int): (r: Reno)
    ensures r.ssthresh == s.ssthresh && r.currentRtt == s.currentRtt
  {
    match s.state
    case SlowStart =>
      var cwnd := s.cwnd + SlowStartGrowth(ackedBytes);
      s.(cwnd := cwnd, state := if cwnd >= s.ssthresh then CongestionAvoidance else SlowStart)
    case CongestionAvoidance =>
      var (inc, last) := AvoidanceGrowth(s.cwnd, s.currentRtt, s.lastCwndUpdateTime, now);
      s.(cwnd := s.cwnd + inc, lastCwndUpdateTime := last)
    case FastRecovery =>
      var cwnd := s.cwnd + MSS;
      s.(cwnd := cwnd, state := if cwnd >= s.ssthresh then CongestionAvoidance else FastRecovery)
    case _ => s
  }

  /**
   * onAck: record the RTT, grow the window by the phase's rule, leave slow
   * start or fast recovery once the window reaches the threshold, and clamp
   * the window into the configured range.
   */
  function OnAck(s: Reno, cfg: Config, ackedBytes: int, rtt: int, now: int): (r: Reno)
    ensures r.currentRtt == rtt && r.ssthresh == s.ssthresh
    ensures r.cwnd >= cfg.minCwnd
    ensures cfg.minCwnd <= cfg.maxCwnd ==> r.cwnd <= cfg.maxCwnd
    ensures s.state == SlowStart ==>
      (r.state == CongestionAvoidance <==> s.cwnd + SlowStartGrowth(ackedBytes) >= s.ssthresh)
      && (r.state == SlowStart <==> s.cwnd + SlowStartGrowth(ackedBytes) < s.ssthresh)
    ensures s.state == FastRecovery ==>
      (r.state == CongestionAvoidance <==> s.cwnd + MSS >= s.ssthresh)
      && (r.state == FastRecovery <==> s.cwnd + MSS < s.ssthresh)
    ensures s.state != SlowStart && s.state != FastRecovery ==> r.state == s.state
    ensures s.state != CongestionAvoidance ==> r.lastCwndUpdateTime == s.lastCwndUpdateTime
    ensures s.state == SlowStart ==> r.cwnd == Clamp(s.cwnd + SlowStartGrowth(ackedBytes), cfg)
    ensures s.state == CongestionAvoidance ==>
      var g := AvoidanceGrowth(s.cwnd, rtt, s.lastCwndUpdateTime, now);
      r.cwnd == Clamp(s.cwnd + g.0, cfg) && r.lastCwndUpdateTime == g.1
    ensures s.state == FastRecovery ==> r.cwnd == Clamp(s.cwnd + MSS, cfg)
    ensures !IsRenoState(s.state) ==> r.cwnd == Clamp(s.cwnd, cfg)
  {
    var t := AckStep(s.(currentRtt := rtt), ackedBytes, now);
    t.(cwnd := Clamp(t.cwnd, cfg))
  }

  /**
   * On an ACK the window never shrinks while it is inside the configured
   * range, in every phase, provided the clock has not gone backwards.
   */
  lemma OnAckNeverShrinks(s: Reno, cfg: Config, ackedBytes: int, rtt: int, now: int)
    requires 0 <= cfg.minCwnd <= s.cwnd <= cfg.maxCwnd
    requires now >= s.lastCwndUpdateTime
    ensures OnAck(s, cfg, ackedBytes, rtt, now).cwnd >= s.cwnd
  {
    var t := AckStep(s.(currentRtt := rtt), ackedBytes, now);
    assert t.cwnd >= s.cwnd by {
      if s.state == CongestionAvoidance && now - s.lastCwndUpdateTime < rtt {
        var (inc, _) := AvoidanceGrowth(s.cwnd, rtt, s.lastCwndUpdateTime, now);
        if s.cwnd == 0 {
          assert s.cwnd * rtt == 0;
        }
      }
    }
  }

  /**
   * onLoss: from slow start or congestion avoidance, halve the window into
   * the threshold (never below the minimum window) and enter fast recovery
   * three segments above it; a loss during fast recovery returns to slow
   * start with one segment (or the minimum window).  The window never ends
   * below the minimum.
   */
  function OnLoss(s: Reno, cfg: Config): (r: Reno)
    ensures r.cwnd >= cfg.minCwnd
    ensures r.currentRtt == s.currentRtt && r.lastCwndUpdateTime == s.lastCwndUpdateTime
    ensures (s.state == SlowStart || s.state == CongestionAvoidance) ==>
      r.state == FastRecovery
      && r.ssthresh == Max(JavaDiv(s.cwnd, 2), cfg.minCwnd)
      && r.cwnd == r.ssthresh + 3 * MSS
    ensures s.state == FastRecovery ==>
      r.state == SlowStart
      && r.ssthresh == Max(JavaDiv(s.cwnd, 2), cfg.minCwnd)
      && r.cwnd == Max(MSS, cfg.minCwnd)
    ensures !IsRenoState(s.state) ==> r.state == s.state && r.ssthresh == s.ssthresh
  {
    var t :=
      if s.state == SlowStart || s.state == CongestionAvoidance then
        var th := Max(JavaDiv(s.cwnd, 2), cfg.minCwnd);
        s.(ssthresh := th, cwnd := th + 3 * MSS, state := FastRecovery)
      else if s.state == FastRecovery then
        s.(ssthresh := Max(JavaDiv(s.cwnd, 2), cfg.minCwnd), cwnd := Max(MSS, cfg.minCwnd), state := SlowStart)
      else s;
    t.(cwnd := Max(t.cwnd, cfg.minCwnd))
  }

  /**
   * Multiplicative decrease: a loss outside fast recovery on a window of at
   * least twice the minimum leaves a threshold of half the window, and the
   * new window is smaller than the old one once that exceeds six segments.
   */
  lemma OnLossHalves(s: Reno, cfg: Config)
    requires s.state == SlowStart || s.state == CongestionAvoidance
    requires s.cwnd >= 2 * cfg.minCwnd && s.cwnd >= 0
    ensures var r := OnLoss(s, cfg);
      r.ssthresh * 2 <= s.cwnd <= r.ssthresh * 2 + 1
      && (s.cwnd > 6 * MSS + 1 ==> r.cwnd < s.cwnd)
  {
    JavaDivNonNegative(s.cwnd, 2);
  }

  /**
   * Exponential growth: in slow start, an ACK for a whole window of full
   * segments doubles the window, as long as the doubled window is in range.
   */
  lemma SlowStartDoubles(s: Reno, cfg: Config, rtt: int, now: int)
    requires s.state == SlowStart && s.cwnd >= MSS && s.cwnd % MSS == 0
    requires cfg.minCwnd <= 2 * s.cwnd <= cfg.maxCwnd
    ensures OnAck(s, cfg, s.cwnd, rtt, now).cwnd == 2 * s.cwnd
  {
    JavaDivNonNegative(s.cwnd, MSS);
    assert JavaDiv(s.cwnd, MSS) * MSS == s.cwnd;
  }

  /** getRate: bytes per second, the window over the current RTT (at least 1 ms). */
  function GetRate(s: Reno): (r: int)
    ensures s.cwnd >= 0 ==> r * Max(s.currentRtt, 1) <= s.cwnd * 1000 < (r + 1) * Max(s.currentRtt, 1)
  {
    Rate(s.cwnd, s.currentRtt)
  }

  /** A callback delivered to the algorithm. */
  datatype Event = Ack(ackedBytes: int, rtt: int, now: int) | Loss(lostBytes: int)

  function Step(s: Reno, cfg: Config, e: Event): Reno {
    match e
    case Ack(a, rtt, now) => OnAck(s, cfg, a, rtt, now)
    case Loss(_) => OnLoss(s, cfg)
  }

  function Run(s: Reno, cfg: Config, events: seq<Event>): Reno
    decreases |events|
  {
    if events == [] then s else Run(Step(s, cfg, events[0]), cfg, events[1..])
  }

  /** What holds of Reno at every point of its life. */
  predicate Invariant(s: Reno, cfg: Config) {
    IsRenoState(s.state) && (s.ssthresh == cfg.ssthresh || s.ssthresh >= cfg.minCwnd)
  }

  /**
   * From initialize, any sequence of ACKs and losses keeps Reno in its three
   * phases with a threshold that is the configured one or at least the
   * minimum window; after at least one event the window is at least the
   * minimum, and after an ACK it is also at most the maximum.
   */
  lemma {:induction false} RunKeepsInvariant(s: Reno, cfg: Config, events: seq<Event>)
    requires Invariant(s, cfg)
    ensures var r := Run(s, cfg, events);
      Invariant(r, cfg)
      && (events != [] ==> r.cwnd >= cfg.minCwnd)
      && (events != [] && events[|events| - 1].Ack? && cfg.minCwnd <= cfg.maxCwnd ==> r.cwnd <= cfg.maxCwnd)
    decreases |events|
  {
    if events != [] {
      var s' := Step(s, cfg, events[0]);
      assert Invariant(s', cfg);
      RunKeepsInvariant(s', cfg, events[1..]);
      if |events| > 1 {
        assert events[1..][|events[1..]| - 1] == events[|events| - 1];
      }
    }
  }

  /** A freshly initialised Reno satisfies the invariant, so every reachable state does. */
  lemma InitializeInvariant(cfg: Config, now: int, events: seq<Event>)
    ensures Invariant(Run(Initialize(cfg, now), cfg, events), cfg)
  {
    RunKeepsInvariant(Initialize(cfg, now), cfg, events);
  }
}
