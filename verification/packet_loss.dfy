/**
 * PacketLossDetector of the transfer server: packets in flight by
 * sequence number, loss by retransmission timeout and loss by duplicate
 * ACKs (fast retransmit after three, as in section 3.2 of RFC 5681), and
 * the loss counters.
 *
 * The clock becomes the parameter `now`.  The detector is a value; each
 * call returns the new detector with its result.
 */
module PacketLoss {
  import opened CongestionCommon

  const FastRetransmitThreshold: int := 3

  datatype PacketInfo = PacketInfo(seqNo: int, size: int, sendTime: int, rto: int, retransmitCount: int)

  datatype Detector = Detector(
    inflight: map<int, PacketInfo>,
    receivedAcks: set<int>,
    dupAckCount: map<int, int>,
    lastAckedSeq: int,
    totalLost: int,
    timeoutLost: int,
    fastRetransmitLost: int)

  /** The constructor, and reset: nothing in flight, nothing acknowledged, zero counters. */
  const Empty: Detector := Detector(map[], {}, map[], 0, 0, 0, 0)

  /** Every loss is counted once, as a timeout or as a fast retransmit. */
  predicate CountersAgree(d: Detector) {
    d.totalLost == d.timeoutLost + d.fastRetransmitLost
    && d.timeoutLost >= 0 && d.fastRetransmitLost >= 0
  }

  function Reset(d: Detector): (r: Detector)
    ensures r.inflight == map[] && r.receivedAcks == {} && r.dupAckCount == map[]
    ensures r.lastAckedSeq == 0 && r.totalLost == 0 && CountersAgree(r)
  {
    Empty
  }

  /** recordSent: the packet is in flight from `now`, never retransmitted; an entry with the same number is replaced. */
  function RecordSent(d: Detector, seqNo: int, size: int, rto: int, now: int): (r: Detector)
    ensures r.inflight.Keys == d.inflight.Keys + {seqNo}
    ensures r.inflight[seqNo] == PacketInfo(seqNo, size, now, rto, 0)
    ensures forall q :: q in d.inflight && q != seqNo ==> r.inflight[q] == d.inflight[q]
    ensures r.(inflight := d.inflight) == d
  {
    d.(inflight := d.inflight[seqNo := PacketInfo(seqNo, size, now, rto, 0)])
  }

  /** The in-flight packets numbered above `ackSeq`: those a duplicate ACK of `ackSeq` reports missing. */
  function After(inflight: map<int, PacketInfo>, ackSeq: int): set<int> {
    set q | q in inflight.Keys && q > ackSeq
  }

  /** handleFastRetransmit: every in-flight packet after the ACK counts as a fast-retransmit loss; loss iff there is one. */
  function HandleFastRetransmit(d: Detector, ackSeq: int): (r: (Detector, bool))
    ensures r.1 <==> exists q :: q in d.inflight && q > ackSeq
    ensures r.0.fastRetransmitLost == d.fastRetransmitLost + |After(d.inflight, ackSeq)|
    ensures r.0.totalLost == d.totalLost + |After(d.inflight, ackSeq)|
    ensures r.0.(totalLost := d.totalLost, fastRetransmitLost := d.fastRetransmitLost) == d
  {
    var lost := After(d.inflight, ackSeq);
    var found := lost != {};
    assert forall q :: q in d.inflight && q > ackSeq ==> q in lost;
    assert found ==> exists q :: q in d.inflight && q > ackSeq by {
      if found {
        var q :| q in lost;
      }
    }
    (d.(totalLost := d.totalLost + |lost|, fastRetransmitLost := d.fastRetransmitLost + |lost|), found)
  }

  /**
   * recordAck as written: the ACK is recorded, the packet leaves the
   * flight and its duplicate count is removed; an ACK at or below the last
   * one then counts as a duplicate, which triggers fast retransmit at the
   * third; a higher one becomes the last acknowledged number.
   */
  function RecordAckAsWritten(d: Detector, seqNo: int): (r: (Detector, bool))
    ensures seqNo in r.0.receivedAcks && seqNo !in r.0.inflight
    ensures r.0.lastAckedSeq == Max(d.lastAckedSeq, seqNo)
  {
    var d1 := d.(receivedAcks := d.receivedAcks + {seqNo},
                 inflight := d.inflight - {seqNo},
                 dupAckCount := d.dupAckCount - {seqNo});
    if seqNo <= d1.lastAckedSeq then
      var count := DupCount(d1, seqNo) + 1;
      var d2 := d1.(dupAckCount := d1.dupAckCount[seqNo := count]);
      if count >= FastRetransmitThreshold then HandleFastRetransmit(d2, seqNo) else (d2, false)
    else (d1.(lastAckedSeq := seqNo), false)
  }

  /**
   * As written the count is cleared just before it is read, so every
   * duplicate is the first one and recordAck never reports a loss, however
   * many duplicates arrive.
   */
  lemma AsWrittenNeverDetects(d: Detector, seqNo: int)
    ensures !RecordAckAsWritten(d, seqNo).1
    ensures seqNo <= d.lastAckedSeq ==> RecordAckAsWritten(d, seqNo).0.dupAckCount[seqNo] == 1
  {
  }

  /** Three duplicate ACKs of a packet while a later one is in flight: the case fast retransmit exists for. */
  lemma AsWrittenMissesThirdDuplicate()
    ensures var d0 := RecordSent(Empty.(lastAckedSeq := 5), 6, 1024, 200, 0);
      var (d1, _) := RecordAckAsWritten(d0, 5);
      var (d2, _) := RecordAckAsWritten(d1, 5);
      !RecordAckAsWritten(d2, 5).1 && 6 in d2.inflight
  {
    AsWrittenNeverDetects(RecordSent(Empty.(lastAckedSeq := 5), 6, 1024, 200, 0), 5);
  }

  /**
   * recordAck with the duplicate count kept across calls: the same steps,
   * except that the count of `seqNo` is only cleared when a new highest ACK
   * arrives, so it reaches the fast-retransmit threshold.
   */
  function RecordAck(d: Detector, seqNo: int): (r: (Detector, bool))
    ensures seqNo in r.0.receivedAcks && seqNo !in r.0.inflight
    ensures r.0.inflight == d.inflight - {seqNo}
    ensures r.0.lastAckedSeq == Max(d.lastAckedSeq, seqNo)
    ensures seqNo > d.lastAckedSeq ==> !r.1 && seqNo !in r.0.dupAckCount
    ensures seqNo <= d.lastAckedSeq ==>
      seqNo in r.0.dupAckCount && r.0.dupAckCount[seqNo] == DupCount(d, seqNo) + 1
      && (r.1 <==> DupCount(d, seqNo) + 1 >= FastRetransmitThreshold && exists q :: q in d.inflight && q > seqNo)
  {
    var d1 := d.(receivedAcks := d.receivedAcks + {seqNo}, inflight := d.inflight - {seqNo});
    if seqNo <= d1.lastAckedSeq then
      var count := DupCount(d1, seqNo) + 1;
      var d2 := d1.(dupAckCount := d1.dupAckCount[seqNo := count]);
      if count >= FastRetransmitThreshold then
        assert (exists q :: q in d2.inflight && q > seqNo) <==> (exists q :: q in d.inflight && q > seqNo) by {
          assert forall q :: q > seqNo ==> (q in d2.inflight <==> q in d.inflight);
        }
        HandleFastRetransmit(d2, seqNo)
      else (d2, false)
    else (d1.(lastAckedSeq := seqNo, dupAckCount := d1.dupAckCount - {seqNo}), false)
  }

  /** The duplicate ACKs counted so far for `seqNo`. */
  function DupCount(d: Detector, seqNo: int): int {
    if seqNo in d.dupAckCount then d.dupAckCount[seqNo] else 0
  }

  /**
   * With the count kept, the third duplicate ACK of a packet reports a loss
   * exactly when a later packet is still in flight; the first two do not.
   */
  lemma ThirdDuplicateDetects(d: Detector, seqNo: int)
    requires seqNo <= d.lastAckedSeq && DupCount(d, seqNo) == 0
    ensures var (d1, l1) := RecordAck(d, seqNo);
      var (d2, l2) := RecordAck(d1, seqNo);
      var (d3, l3) := RecordAck(d2, seqNo);
      !l1 && !l2 && (l3 <==> exists q :: q in d.inflight && q > seqNo)
  {
    var (d1, _) := RecordAck(d, seqNo);
    var (d2, _) := RecordAck(d1, seqNo);
    assert forall q :: q > seqNo ==> (q in d2.inflight <==> q in d.inflight);
  }

  /** The as-written detector misses the loss that the corrected one reports on the same three ACKs. */
  lemma CorrectedCatchesThirdDuplicate()
    ensures var d0 := RecordSent(Empty.(lastAckedSeq := 5), 6, 1024, 200, 0);
      var (d1, _) := RecordAck(d0, 5);
      var (d2, _) := RecordAck(d1, 5);
      RecordAck(d2, 5).1
  {
    var d0 := RecordSent(Empty.(lastAckedSeq := 5), 6, 1024, 200, 0);
    ThirdDuplicateDetects(d0, 5);
  }

  /** A packet has timed out when more than its RTO has elapsed since it was (re)sent. */
  predicate TimedOut(p: PacketInfo, now: int) {
    now - p.sendTime > p.rto
  }

  /**
   * checkTimeout: the timed-out packets, each also counted as a timeout
   * loss; they stay in flight until acknowledged or retransmitted.
   */
  function CheckTimeout(d: Detector, now: int): (r: (Detector, map<int, PacketInfo>))
    ensures forall q :: q in r.1 <==> q in d.inflight && TimedOut(d.inflight[q], now)
    ensures forall q :: q in r.1 ==> r.1[q] == d.inflight[q]
    ensures r.0.timeoutLost == d.timeoutLost + |r.1| && r.0.totalLost == d.totalLost + |r.1|
    ensures r.0.(totalLost := d.totalLost, timeoutLost := d.timeoutLost) == d
  {
    var lost := map q | q in d.inflight && TimedOut(d.inflight[q], now) :: d.inflight[q];
    (d.(totalLost := d.totalLost + |lost|, timeoutLost := d.timeoutLost + |lost|), lost)
  }

  /** markRetransmit: a packet in flight counts one more retransmission and is re-timed from `now`; otherwise nothing. */
  function MarkRetransmit(d: Detector, seqNo: int, now: int): (r: Detector)
    ensures seqNo !in d.inflight ==> r == d
    ensures seqNo in d.inflight ==>
      r.inflight == d.inflight[seqNo := d.inflight[seqNo].(retransmitCount := d.inflight[seqNo].retransmitCount + 1, sendTime := now)]
    ensures r.(inflight := d.inflight) == d
  {
    if seqNo in d.inflight then
      var p := d.inflight[seqNo];
      d.(inflight := d.inflight[seqNo := p.(retransmitCount := p.retransmitCount + 1, sendTime := now)])
    else d
  }

  /** A retransmitted packet with a non-negative RTO is no longer reported by a timeout check at the same instant. */
  lemma RetransmitClearsTimeout(d: Detector, seqNo: int, now: int)
    requires seqNo in d.inflight && d.inflight[seqNo].rto >= 0
    ensures seqNo !in CheckTimeout(MarkRetransmit(d, seqNo, now), now).1
    ensures MarkRetransmit(d, seqNo, now).inflight[seqNo].retransmitCount == d.inflight[seqNo].retransmitCount + 1
  {
  }

  /** Every operation keeps the loss counters consistent. */
  lemma OperationsKeepCounters(d: Detector, seqNo: int, size: int, rto: int, now: int)
    requires CountersAgree(d)
    ensures CountersAgree(RecordSent(d, seqNo, size, rto, now))
    ensures CountersAgree(RecordAck(d, seqNo).0)
    ensures CountersAgree(CheckTimeout(d, now).0)
    ensures CountersAgree(MarkRetransmit(d, seqNo, now))
    ensures CountersAgree(Reset(d))
  {
  }

  /** getInflightCount. */
  function InflightCount(d: Detector): (n: nat)
    ensures n == |d.inflight.Keys|
  {
    |d.inflight|
  }

  /** The total size of the packets in a map, taken in increasing sequence order. */
  ghost function SizeSum(m: map<int, PacketInfo>): int
    decreases |m.Keys|
  {
    if m == map[] then 0
    else
      var k := MinKey(m.Keys);
      m[k].size + SizeSum(m - {k})
  }

  /** The smallest element of a non-empty finite set of integers. */
  ghost function MinKey(s: set<int>): (k: int)
    requires s != {}
    ensures k in s && forall j :: j in s ==> k <= j
    decreases |s|
  {
    NonEmptyHasElement(s);
    var x :| x in s;
    if s == {x} then x
    else
      var y := MinKey(s - {x});
      assert forall j :: j in s ==> j == x || j in s - {x};
      if x <= y then x else y
  }

  lemma NonEmptyHasElement(s: set<int>)
    requires s != {}
    ensures exists x :: x in s
  {
    if forall x :: x !in s {
      assert false;
    }
  }

  /** getInflightBytes: the sum of the in-flight sizes. */
  ghost function InflightBytes(d: Detector): (n: int)
    ensures (forall q :: q in d.inflight ==> d.inflight[q].size >= 0) ==> n >= 0
  {
    SizeSumNonNegative(d.inflight);
    SizeSum(d.inflight)
  }

  lemma {:induction false} SizeSumNonNegative(m: map<int, PacketInfo>)
    ensures (forall q :: q in m ==> m[q].size >= 0) ==> SizeSum(m) >= 0
    decreases |m.Keys|
  {
    if m != map[] {
      SizeSumNonNegative(m - {MinKey(m.Keys)});
    }
  }

  /** Sending a packet adds its size to the bytes in flight; acknowledging it takes them away. */
  lemma {:induction false} SizeSumUpdate(m: map<int, PacketInfo>, q: int)
    requires q in m
    ensures SizeSum(m) == m[q].size + SizeSum(m - {q})
    decreases |m.Keys|
  {
    var k := MinKey(m.Keys);
    if k != q {
      var m' := m - {k};
      SizeSumUpdate(m', q);
      assert m' - {q} == (m - {q}) - {k};
      var k' := MinKey((m - {q}).Keys);
      assert k in (m - {q}).Keys;
      assert k <= k' && k' <= k;
      assert SizeSum(m - {q}) == m[k].size + SizeSum((m - {q}) - {k});
    }
  }

  /** Sending a new packet then acknowledging it leaves the bytes in flight where they were. */
  lemma SendAckRestoresBytes(d: Detector, seqNo: int, size: int, rto: int, now: int)
    requires seqNo !in d.inflight
    ensures InflightBytes(RecordSent(d, seqNo, size, rto, now)) == InflightBytes(d) + size
    ensures InflightBytes(RecordAck(RecordSent(d, seqNo, size, rto, now), seqNo).0) == InflightBytes(d)
  {
    var d1 := RecordSent(d, seqNo, size, rto, now);
    SizeSumUpdate(d1.inflight, seqNo);
    assert d1.inflight - {seqNo} == d.inflight;
  }
}
