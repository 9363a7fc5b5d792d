/**
 * The TCP Vegas congestion-control algorithm of the transfer server
 * (VegasAlgorithm): the window follows the gap between the throughput
 * expected at the base (minimum) RTT and the throughput actually seen at
 * the current RTT.
 */
module Vegas {
  import opened CongestionCommon

  /** Lower and upper bounds on the throughput gap, in KiB, and the slow-start RTT slack in ms. */
  const Alpha: int := 1
  const Beta: int := 3
  const Gamma: int := 1

  /** RTT samples outside (0, 10000) ms are discarded. */
  const MaxValidRtt: int := 10000
  const RttSampleCap: nat := 20
  const WindowSampleCap: nat := 10

  datatype Vegas = Vegas(
    cwnd: int,
    ssthresh: int,
    state: CongestionState,
    baseRtt: int,
    currentRtt: int,
    rttSamples: seq<int>,
    windowSamples: seq<int>,
    lastRtt: int)

  /** initialize (and reset): at most 5 MiB of window, no base RTT yet, 100 ms guesses, slow start, empty sample windows. */
  function Initialize(cfg: Config): (r: Vegas)
    ensures r.cwnd <= 5 * 1048576 && r.cwnd <= cfg.initialCwnd
    ensures r.cwnd == 5 * 1048576 || r.cwnd == cfg.initialCwnd
    ensures r.ssthresh == cfg.ssthresh && r.state == SlowStart
    ensures r.baseRtt == LongMax && r.currentRtt == 100 && r.lastRtt == 100
    ensures r.rttSamples == [] && r.windowSamples == []
  {
    Vegas(Min(cfg.initialCwnd, 1048576 * 5), cfg.ssthresh, SlowStart, LongMax, 100, [], [], 100)
  }

  /** The smallest positive sample, or `dflt` when there is none. */
  function MinPositive(q: seq<int>, dflt: int): (m: int)
    ensures (exists i :: 0 <= i < |q| && q[i] > 0) ==>
      m > 0 && (exists i :: 0 <= i < |q| && q[i] == m)
    ensures forall i :: 0 <= i < |q| && q[i] > 0 ==> m <= q[i]
    ensures (forall i :: 0 <= i < |q| ==> q[i] <= 0) ==> m == dflt
  {
    if q == [] then dflt
    else
      var rest := MinPositive(q[1..], dflt);
      var restHas := exists i :: 0 <= i < |q[1..]| && q[1..][i] > 0;
      if q[0] <= 0 then
        assert forall i :: 1 <= i < |q| ==> q[i] == q[1..][i - 1];
        rest
      else if !restHas || q[0] <= rest then
        assert forall i :: 1 <= i < |q| ==> q[i] == q[1..][i - 1];
        q[0]
      else
        assert forall i :: 1 <= i < |q| ==> q[i] == q[1..][i - 1];
        var j :| 0 <= j < |q[1..]| && q[1..][j] == rest;
        assert q[j + 1] == rest;
        rest
  }

  /**
   * updateRttSample: a valid RTT joins the bounded sample window and the
   * base RTT drops to the window's smallest positive sample if that is
   * lower; an invalid one changes nothing.
   */
  function UpdateRttSample(s: Vegas, rtt: int): (r: Vegas)
    ensures r.baseRtt <= s.baseRtt
    ensures r.(rttSamples := s.rttSamples, baseRtt := s.baseRtt) == s
    ensures !(0 < rtt < MaxValidRtt) ==> r == s
    ensures 0 < rtt < MaxValidRtt ==>
      r.baseRtt <= rtt && r.rttSamples == BoundedAppend(s.rttSamples, rtt, RttSampleCap)
  {
    if 0 < rtt < MaxValidRtt then
      var samples := BoundedAppend(s.rttSamples, rtt, RttSampleCap);
      var minRtt := MinPositive(samples, rtt);
      assert samples[|samples| - 1] == rtt;
      s.(rttSamples := samples, baseRtt := if minRtt < s.baseRtt then minRtt else s.baseRtt)
    else s
  }

  /**
   * adjustWindowByDelay: without a usable base RTT grow by 1 KiB; otherwise
   * grow by 1 KiB while the throughput gap is below Alpha KiB, shrink by
   * 1 KiB (not below the minimum window) while it is above Beta KiB, and
   * hold in between.
   */
  function AdjustWindowByDelay(s: Vegas, cfg: Config): (cwnd: int)
    ensures cwnd == s.cwnd + 1024 || cwnd == s.cwnd || cwnd == Max(s.cwnd - 1024, cfg.minCwnd)
    ensures (s.baseRtt == LongMax || s.baseRtt <= 0) ==> cwnd == s.cwnd + 1024
    ensures s.baseRtt != LongMax && s.baseRtt > 0 ==>
      var gap := DiffInBytes(s.cwnd, s.baseRtt, s.currentRtt);
      (gap < Alpha * 1024 ==> cwnd == s.cwnd + 1024)
      && (gap > Beta * 1024 ==> cwnd == Max(s.cwnd - 1024, cfg.minCwnd))
      && (Alpha * 1024 <= gap <= Beta * 1024 ==> cwnd == s.cwnd)
  {
    if s.baseRtt == LongMax || s.baseRtt <= 0 then s.cwnd + 1024
    else
      var diffInBytes := DiffInBytes(s.cwnd, s.baseRtt, s.currentRtt);
      if diffInBytes < Alpha * 1024 then s.cwnd + 1024
      else if diffInBytes > Beta * 1024 then Max(s.cwnd - 1024, cfg.minCwnd)
      else s.cwnd
  }

  /** The gap between expected and actual throughput, scaled back to bytes by the base RTT. */
  function DiffInBytes(cwnd: int, baseRtt: int, currentRtt: int): int
    requires baseRtt > 0
  {
    var expected := JavaDiv(cwnd * 1000, baseRtt);
    var actual := JavaDiv(cwnd * 1000, Max(currentRtt, 1));
    JavaDiv((expected - actual) * baseRtt, 1000)
  }

  lemma DivAntitone(n: int, a: int, b: int)
    requires n >= 0 && 0 < a <= b
    ensures n / b <= n / a
  {
    var qa, qb := n / a, n / b;
    DivBounds(n, a);
    DivBounds(n, b);
    if qb > qa {
      MulMono(qa + 1, qb, a);
      MulMono(a, b, qb);
    }
  }

  /** When the current RTT is no longer than the base RTT there is no gap to speak of. */
  lemma NoQueueingNoGap(cwnd: int, baseRtt: int, currentRtt: int)
    requires cwnd >= 0 && baseRtt > 0 && currentRtt <= baseRtt
    ensures DiffInBytes(cwnd, baseRtt, currentRtt) <= 0
  {
    var n := cwnd * 1000;
    JavaDivNonNegative(n, baseRtt);
    JavaDivNonNegative(n, Max(currentRtt, 1));
    DivAntitone(n, Max(currentRtt, 1), baseRtt);
    var diff := JavaDiv(n, baseRtt) - JavaDiv(n, Max(currentRtt, 1));
    assert diff <= 0;
    assert diff * baseRtt <= 0;
  }

  /** With a base RTT set and no queueing delay (current RTT at most the base) the window grows. */
  lemma AdjustGrowsWithoutQueueing(s: Vegas, cfg: Config)
    requires s.cwnd >= 0 && 0 < s.baseRtt && s.baseRtt != LongMax && s.currentRtt <= s.baseRtt
    ensures AdjustWindowByDelay(s, cfg) == s.cwnd + 1024
  {
    NoQueueingNoGap(s.cwnd, s.baseRtt, s.currentRtt);
  }

  /** The window only shrinks when the current RTT exceeds the base RTT. */
  lemma AdjustShrinksOnlyWhenQueued(s: Vegas, cfg: Config)
    requires s.cwnd >= 0
    ensures AdjustWindowByDelay(s, cfg) < s.cwnd ==> 0 < s.baseRtt < s.currentRtt
  {
    if s.baseRtt == LongMax || s.baseRtt <= 0 {
      assert AdjustWindowByDelay(s, cfg) == s.cwnd + 1024;
    } else if s.currentRtt <= s.baseRtt {
      AdjustGrowsWithoutQueueing(s, cfg);
    }
  }

  /**
   * onAck: sample the RTT, lower the base RTT, record the window, then in
   * slow start add the acknowledged bytes and leave slow start early when
   * the RTT has risen by more than Gamma over the last one (the threshold
   * becomes the window) or once the threshold is reached; in every other
   * phase apply the delay rule.  The window ends clamped into range.
   */
  function OnAck(s: Vegas, cfg: Config, ackedBytes: int, rtt: int): (r: Vegas)
    ensures r.currentRtt == rtt && r.lastRtt == rtt
    ensures r.baseRtt <= s.baseRtt && r.baseRtt <= rtt
    ensures r.cwnd >= cfg.minCwnd
    ensures cfg.minCwnd <= cfg.maxCwnd ==> r.cwnd <= cfg.maxCwnd
    ensures r.windowSamples == BoundedAppend(s.windowSamples, s.cwnd, WindowSampleCap)
    ensures s.state == SlowStart ==> r.state == SlowStart || r.state == CongestionAvoidance
    ensures s.state == SlowStart && rtt > s.lastRtt + Gamma && r.baseRtt != LongMax ==>
      r.state == CongestionAvoidance && r.ssthresh == s.cwnd + ackedBytes
    ensures s.state != SlowStart ==> r.state == s.state && r.ssthresh == s.ssthresh
    ensures s.state == SlowStart ==> r.cwnd == Clamp(s.cwnd + ackedBytes, cfg)
    ensures s.state == SlowStart && !(rtt > s.lastRtt + Gamma && r.baseRtt != LongMax) ==>
      r.ssthresh == s.ssthresh
      && (r.state == CongestionAvoidance <==> s.cwnd + ackedBytes >= s.ssthresh)
    ensures s.state != SlowStart ==>
      r.cwnd == Clamp(AdjustWindowByDelay(s.(currentRtt := rtt, baseRtt := r.baseRtt), cfg), cfg)
  {
    var t := UpdateRttSample(s, rtt);
    var t := t.(currentRtt := rtt, baseRtt := if rtt < t.baseRtt then rtt else t.baseRtt);
    var t := t.(windowSamples := BoundedAppend(t.windowSamples, t.cwnd, WindowSampleCap));
    var t :=
      if t.state == SlowStart then
        var cwnd := t.cwnd + ackedBytes;
        if rtt > t.lastRtt + Gamma && t.baseRtt != LongMax then
          t.(cwnd := cwnd, ssthresh := cwnd, state := CongestionAvoidance)
        else if cwnd >= t.ssthresh then
          t.(cwnd := cwnd, state := CongestionAvoidance)
        else t.(cwnd := cwnd)
      else t.(cwnd := AdjustWindowByDelay(t, cfg));
    t.(lastRtt := rtt, cwnd := Clamp(t.cwnd, cfg))
  }

  /**
   * onLoss: the threshold becomes half the window (not below the minimum),
   * the window drops to it, slow start begins again and the RTT history is
   * forgotten so the base RTT is probed afresh.
   */
  function OnLoss(s: Vegas, cfg: Config): (r: Vegas)
    ensures r.ssthresh == Max(JavaDiv(s.cwnd, 2), cfg.minCwnd)
    ensures r.cwnd == r.ssthresh && r.state == SlowStart
    ensures r.baseRtt == LongMax && r.rttSamples == []
    ensures r.windowSamples == s.windowSamples && r.currentRtt == s.currentRtt && r.lastRtt == s.lastRtt
  {
    var th := Max(JavaDiv(s.cwnd, 2), cfg.minCwnd);
    s.(ssthresh := th, cwnd := th, state := SlowStart, baseRtt := LongMax, rttSamples := [])
  }

  /** setCwnd, used when the adaptive controller hands its window over: never below the minimum. */
  function SetCwnd(s: Vegas, cfg: Config, cwnd: int): (r: Vegas)
    ensures r.cwnd >= cfg.minCwnd && (cwnd >= cfg.minCwnd ==> r.cwnd == cwnd)
    ensures r.(cwnd := s.cwnd) == s
  {
    s.(cwnd := Max(cwnd, cfg.minCwnd))
  }

  /** getRtt: the base RTT once one is known, the current RTT before. */
  function GetRtt(s: Vegas): (rtt: int)
    ensures s.baseRtt != LongMax ==> rtt == s.baseRtt
    ensures s.baseRtt == LongMax ==> rtt == s.currentRtt
  {
    if s.baseRtt != LongMax then s.baseRtt else s.currentRtt
  }

  /** getRate: bytes per second, the window over the current RTT (at least 1 ms). */
  function GetRate(s: Vegas): (r: int)
    ensures s.cwnd >= 0 ==> r * Max(s.currentRtt, 1) <= s.cwnd * 1000 < (r + 1) * Max(s.currentRtt, 1)
  {
    Rate(s.cwnd, s.currentRtt)
  }

  /**
   * The base RTT is a lower bound of every sample held, and the sample
   * windows are within their caps.
   */
  predicate Invariant(s: Vegas) {
    |s.rttSamples| <= RttSampleCap && |s.windowSamples| <= WindowSampleCap
    && forall i :: 0 <= i < |s.rttSamples| ==> s.baseRtt <= s.rttSamples[i]
  }

  lemma InitializeInvariant(cfg: Config)
    ensures Invariant(Initialize(cfg))
  {
  }

  /**
   * Under the invariant the minimum over the sample window adds nothing:
   * after an ACK the base RTT is exactly the smaller of the old base RTT and
   * the new RTT, and the invariant still holds.
   */
  lemma OnAckBaseRtt(s: Vegas, cfg: Config, ackedBytes: int, rtt: int)
    requires Invariant(s)
    ensures var r := OnAck(s, cfg, ackedBytes, rtt);
      r.baseRtt == Min(s.baseRtt, rtt) && Invariant(r)
  {
    var t := UpdateRttSample(s, rtt);
    if 0 < rtt < MaxValidRtt {
      var samples := BoundedAppend(s.rttSamples, rtt, RttSampleCap);
      var m := MinPositive(samples, rtt);
      assert samples[|samples| - 1] == rtt;
      assert m <= rtt;
      var i :| 0 <= i < |samples| && samples[i] == m;
      forall j | 0 <= j < |samples| ensures s.baseRtt <= samples[j] || samples[j] == rtt {
        if |s.rttSamples| < RttSampleCap {
          assert samples == s.rttSamples + [rtt];
        } else {
          assert samples == (s.rttSamples + [rtt])[1..];
          if j < |samples| - 1 {
            assert samples[j] == s.rttSamples[j + 1];
          }
        }
      }
      assert t.baseRtt == Min(s.baseRtt, rtt);
    }
    var r := OnAck(s, cfg, ackedBytes, rtt);
    assert r.rttSamples == t.rttSamples;
  }

  /** After a loss the invariant holds trivially: no samples, no base RTT. */
  lemma OnLossInvariant(s: Vegas, cfg: Config)
    requires Invariant(s)
    ensures Invariant(OnLoss(s, cfg))
  {
  }
}
