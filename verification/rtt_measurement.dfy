/**
 * RttMeasurement of the transfer server: send times by sequence number,
 * round-trip samples in a window of the last 100, running minimum and
 * maximum, and the smoothed RTT and RTT variation of section 2 of RFC 6298
 * (gains 1/8 and 1/4, in integer milliseconds with Java's truncating
 * division).
 */
module RttMeasurement {
  import opened CongestionCommon

  const SampleWindow: nat := 100

  datatype Rtt = Rtt(
    samples: seq<int>,
    sendTimes: map<int, int>,
    smoothedRtt: int,
    rttVar: int,
    minRtt: int,
    maxRtt: int)

  /** The constructor, and reset: no samples, no send times, no estimate. */
  const Empty: Rtt := Rtt([], map[], 0, 0, LongMax, 0)

  function Reset(m: Rtt): (r: Rtt)
    ensures r.samples == [] && r.sendTimes == map[]
    ensures r.smoothedRtt == 0 && r.rttVar == 0 && r.minRtt == LongMax && r.maxRtt == 0
  {
    Empty
  }

  /** recordSendTime: remember (or overwrite) when the packet was sent. */
  function RecordSendTime(m: Rtt, seqNo: int, now: int): (r: Rtt)
    ensures r.sendTimes.Keys == m.sendTimes.Keys + {seqNo} && r.sendTimes[seqNo] == now
    ensures forall q :: q in m.sendTimes && q != seqNo ==> r.sendTimes[q] == m.sendTimes[q]
    ensures r.(sendTimes := m.sendTimes) == m
  {
    m.(sendTimes := m.sendTimes[seqNo := now])
  }

  /**
   * addSample: the sample joins the window and the running extremes; the
   * first sample (a zero smoothed RTT) seeds SRTT with R and RTTVAR with
   * R/2, later ones blend RTTVAR := (3*RTTVAR + |SRTT - R|)/4 and then
   * SRTT := (7*SRTT + R)/8.
   */
  function AddSample(m: Rtt, rtt: int): (r: Rtt)
    ensures r.samples == BoundedAppend(m.samples, rtt, SampleWindow)
    ensures r.minRtt == Min(m.minRtt, rtt) && r.maxRtt == Max(m.maxRtt, rtt)
    ensures r.sendTimes == m.sendTimes
    ensures m.smoothedRtt == 0 ==> r.smoothedRtt == rtt && r.rttVar == JavaDiv(rtt, 2)
    ensures m.smoothedRtt != 0 ==>
      r.smoothedRtt == JavaDiv(7 * m.smoothedRtt + rtt, 8)
      && r.rttVar == JavaDiv(3 * m.rttVar + Abs(m.smoothedRtt - rtt), 4)
  {
    var samples := BoundedAppend(m.samples, rtt, SampleWindow);
    var (srtt, rttVar) :=
      if m.smoothedRtt == 0 then (rtt, JavaDiv(rtt, 2))
      else (JavaDiv(7 * m.smoothedRtt + rtt, 8), JavaDiv(3 * m.rttVar + Abs(m.smoothedRtt - rtt), 4));
    Rtt(samples, m.sendTimes, srtt, rttVar, Min(m.minRtt, rtt), Max(m.maxRtt, rtt))
  }

  /**
   * recordAck: an unknown sequence number yields -1 and changes nothing;
   * a known one is forgotten and its RTT (now minus the send time) is added
   * as a sample and returned.
   */
  function RecordAck(m: Rtt, seqNo: int, now: int): (r: (Rtt, int))
    ensures seqNo !in m.sendTimes ==> r == (m, -1)
    ensures seqNo in m.sendTimes ==>
      r.1 == now - m.sendTimes[seqNo]
      && r.0 == AddSample(m.(sendTimes := m.sendTimes - {seqNo}), r.1)
      && seqNo !in r.0.sendTimes
  {
    if seqNo !in m.sendTimes then (m, -1)
    else
      var rtt := now - m.sendTimes[seqNo];
      (AddSample(m.(sendTimes := m.sendTimes - {seqNo}), rtt), rtt)
  }

  /** The two calls pair up: the ACK of a recorded send yields the elapsed time, a second ACK yields -1. */
  lemma SendThenAck(m: Rtt, seqNo: int, sent: int, now: int)
    ensures var (m1, rtt) := RecordAck(RecordSendTime(m, seqNo, sent), seqNo, now);
      rtt == now - sent && RecordAck(m1, seqNo, now + 1) == (m1, -1)
  {
  }

  /** The moving averages move toward the sample: SRTT' and RTTVAR' lie between their old value and the new term. */
  lemma SmoothingBetween(m: Rtt, rtt: int)
    requires m.smoothedRtt > 0 && m.rttVar >= 0 && rtt >= 0
    ensures var r := AddSample(m, rtt);
      Min(m.smoothedRtt, rtt) <= r.smoothedRtt <= Max(m.smoothedRtt, rtt)
      && Min(m.rttVar, Abs(m.smoothedRtt - rtt)) <= r.rttVar <= Max(m.rttVar, Abs(m.smoothedRtt - rtt))
  {
    BlendEighth(m.smoothedRtt, rtt);
    BlendQuarter(m.rttVar, Abs(m.smoothedRtt - rtt));
  }

  /** (7a + b)/8 lies between a and b for non-negative a and b. */
  lemma BlendEighth(a: int, b: int)
    requires a >= 0 && b >= 0
    ensures Min(a, b) <= JavaDiv(7 * a + b, 8) <= Max(a, b)
  {
    JavaDivNonNegative(7 * a + b, 8);
  }

  /** (3a + b)/4 lies between a and b for non-negative a and b. */
  lemma BlendQuarter(a: int, b: int)
    requires a >= 0 && b >= 0
    ensures Min(a, b) <= JavaDiv(3 * a + b, 4) <= Max(a, b)
  {
    JavaDivNonNegative(3 * a + b, 4);
  }

  /** getSmoothedRtt: the smoothed RTT, or 0 while it is not positive. */
  function GetSmoothedRtt(m: Rtt): (r: int)
    ensures r >= 0 && (m.smoothedRtt > 0 ==> r == m.smoothedRtt)
  {
    if m.smoothedRtt > 0 then m.smoothedRtt else 0
  }

  /** getMinRtt: the smallest RTT seen, 0 before any sample. */
  function GetMinRtt(m: Rtt): (r: int)
    ensures m.minRtt == LongMax ==> r == 0
    ensures m.minRtt != LongMax ==> r == m.minRtt
  {
    if m.minRtt != LongMax then m.minRtt else 0
  }

  /** getMaxRtt: the largest RTT seen, never negative. */
  function GetMaxRtt(m: Rtt): (r: int)
    ensures r >= 0 && (m.maxRtt > 0 ==> r == m.maxRtt)
  {
    if m.maxRtt > 0 then m.maxRtt else 0
  }

  function Sum(q: seq<int>): int {
    if q == [] then 0 else q[0] + Sum(q[1..])
  }

  /** getAverageRtt: the mean of the window truncated to whole milliseconds, 0 for an empty window. */
  function GetAverageRtt(m: Rtt): (r: int)
    ensures m.samples == [] ==> r == 0
    ensures m.samples != [] && Sum(m.samples) >= 0 ==>
      r * |m.samples| <= Sum(m.samples) < (r + 1) * |m.samples|
  {
    if m.samples == [] then 0
    else
      var n := Sum(m.samples);
      var k := |m.samples|;
      if n >= 0 then
        JavaDivNonNegative(n, k);
        DivBounds(n, k);
        JavaDiv(n, k)
      else JavaDiv(n, k)
  }

  /** calculateRto: SRTT + 4*RTTVAR. */
  function CalculateRto(m: Rtt): (rto: int)
    ensures m.rttVar >= 0 ==> rto >= m.smoothedRtt
    ensures rto - m.smoothedRtt == 4 * m.rttVar
  {
    m.smoothedRtt + 4 * m.rttVar
  }

  /**
   * What every state reached from the empty one by non-negative samples
   * satisfies: the window is within its cap, every sample in it lies
   * between the running minimum and maximum, and SRTT and RTTVAR are
   * non-negative.
   */
  predicate Invariant(m: Rtt) {
    |m.samples| <= SampleWindow && m.minRtt >= 0
    && (forall i :: 0 <= i < |m.samples| ==> m.minRtt <= m.samples[i] <= m.maxRtt)
    && m.smoothedRtt >= 0 && m.rttVar >= 0
  }

  lemma EmptyInvariant()
    ensures Invariant(Empty)
  {
  }

  lemma AddSampleInvariant(m: Rtt, rtt: int)
    requires Invariant(m) && rtt >= 0
    ensures Invariant(AddSample(m, rtt))
  {
    var r := AddSample(m, rtt);
    forall i | 0 <= i < |r.samples| ensures r.minRtt <= r.samples[i] <= r.maxRtt {
      if |m.samples| < SampleWindow {
        assert r.samples == m.samples + [rtt];
      } else {
        assert r.samples == (m.samples + [rtt])[1..];
        if i < |r.samples| - 1 {
          assert r.samples[i] == m.samples[i + 1];
        }
      }
    }
    if m.smoothedRtt != 0 {
      JavaDivNonNegative(7 * m.smoothedRtt + rtt, 8);
      JavaDivNonNegative(3 * m.rttVar + Abs(m.smoothedRtt - rtt), 4);
    }
  }

  lemma {:induction false} SumBounds(q: seq<int>, lo: int, hi: int)
    requires forall i :: 0 <= i < |q| ==> lo <= q[i] <= hi
    ensures |q| * lo <= Sum(q) <= |q| * hi
    decreases |q|
  {
    if q != [] {
      assert forall i :: 0 <= i < |q[1..]| ==> q[1..][i] == q[i + 1];
      SumBounds(q[1..], lo, hi);
      assert |q| * lo == lo + |q[1..]| * lo;
      assert |q| * hi == hi + |q[1..]| * hi;
    }
  }

  /** Under the invariant the reported average lies between the reported minimum and maximum. */
  lemma AverageBetweenExtremes(m: Rtt)
    requires Invariant(m) && m.samples != [] && m.minRtt != LongMax
    ensures GetMinRtt(m) <= GetAverageRtt(m) <= GetMaxRtt(m)
  {
    var k := |m.samples|;
    SumBounds(m.samples, m.minRtt, m.maxRtt);
    MulMono(0, m.minRtt, k);
    assert m.samples[0] <= m.maxRtt;
    QuotientBetween(Sum(m.samples), k, m.minRtt, m.maxRtt, GetAverageRtt(m));
  }
}
