/**
 * The algorithm-switch history of AdaptiveAlgorithmMetrics: the adaptive
 * congestion controller logs every switch, the log keeps the latest 50
 * records, and the monitoring view asks for the latest `count`.
 *
 * The record's contents (timestamps, algorithm names, floating-point
 * scores) play no part in the history's behaviour, so a record is any
 * value of type `T`.
 */
module SwitchHistory {
  import opened Wrappers

  const HistoryCap: nat := 50

  /** The last `n` elements of `s`, or all of them when there are fewer. */
  function LastN<T>(s: seq<T>, n: nat): (r: seq<T>)
    ensures |r| == if |s| <= n then |s| else n
    ensures r == s[|s| - |r|..]
  {
    if |s| <= n then s else s[|s| - n..]
  }

  /** addSwitchRecord: append, then drop the oldest record once there are more than 50. */
  function AddSwitchRecord<T>(h: seq<T>, record: T): (r: seq<T>)
    ensures |h| <= HistoryCap ==> |r| <= HistoryCap
    ensures |r| > 0 && r[|r| - 1] == record
    ensures |h| < HistoryCap ==> r == h + [record]
    ensures |h| == HistoryCap ==> r == h[1..] + [record]
  {
    var h' := h + [record];
    if |h'| > HistoryCap then h'[1..] else h'
  }

  /** The history after logging each of `records` in turn. */
  function AddAll<T>(h: seq<T>, records: seq<T>): seq<T>
    decreases |records|
  {
    if records == [] then h else AddAll(AddSwitchRecord(h, records[0]), records[1..])
  }

  /** Whatever was logged, starting from the empty history the log holds exactly the latest 50 records in order. */
  lemma {:induction false} AddAllKeepsLatest<T>(h: seq<T>, records: seq<T>)
    requires |h| <= HistoryCap
    ensures AddAll(h, records) == LastN(h + records, HistoryCap)
    decreases |records|
  {
    if records == [] {
      assert h + records == h;
    } else {
      var h1 := AddSwitchRecord(h, records[0]);
      AddIsLastN(h, records[0]);
      AddAllKeepsLatest(h1, records[1..]);
      LastNOfLastN(h + [records[0]], records[1..]);
      assert (h + [records[0]]) + records[1..] == h + records;
    }
  }

  /** One addition keeps the latest 50 of the history and the new record. */
  lemma AddIsLastN<T>(h: seq<T>, record: T)
    requires |h| <= HistoryCap
    ensures AddSwitchRecord(h, record) == LastN(h + [record], HistoryCap)
  {
  }

  /** Truncating before appending more does not change the latest 50. */
  lemma LastNOfLastN<T>(s: seq<T>, t: seq<T>)
    ensures LastN(LastN(s, HistoryCap) + t, HistoryCap) == LastN(s + t, HistoryCap)
  {
    var l := LastN(s, HistoryCap);
    var a := LastN(l + t, HistoryCap);
    var b := LastN(s + t, HistoryCap);
    assert |a| == |b|;
    forall i | 0 <= i < |a| ensures a[i] == b[i] {
      var j := |l + t| - |a| + i;
      if j >= |l| {
        assert a[i] == t[j - |l|];
        assert b[i] == (s + t)[|s + t| - |b| + i];
      } else {
        assert a[i] == l[j] == s[|s| - |l| + j];
      }
    }
  }

  /** Why a request for the latest records fails: a negative count makes `subList` throw. */
  datatype HistoryError = NegativeCount

  /**
   * getRecentSwitchHistory: a copy of the whole history when it holds no
   * more than `count` records, otherwise of the last `count`; a negative
   * count is an error.
   */
  function GetRecentSwitchHistory<T>(h: seq<T>, count: int): (r: Result<seq<T>, HistoryError>)
    ensures r.Failure? <==> count < 0
    ensures r.Success? ==> r.value == LastN(h, count)
    ensures r.Success? ==> |r.value| <= count && (|h| <= count ==> r.value == h)
  {
    var size := |h|;
    if size <= count then Success(h)
    else if count < 0 then Failure(NegativeCount)
    else Success(h[size - count..size])
  }

  /**
   * Asking a history built from nothing for its latest `count` records
   * yields the latest `count` of everything logged, up to the cap of 50.
   */
  lemma RecentOfLogged<T>(records: seq<T>, count: nat)
    requires count <= HistoryCap
    ensures GetRecentSwitchHistory(AddAll([], records), count) == Success(LastN(records, count))
  {
    AddAllKeepsLatest([], records);
    assert [] + records == records;
    LastNShorter(records, count);
  }

  /** The latest `n` of the latest 50 are the latest `n`, for `n <= 50`. */
  lemma LastNShorter<T>(s: seq<T>, n: nat)
    requires n <= HistoryCap
    ensures LastN(LastN(s, HistoryCap), n) == LastN(s, n)
  {
    var h := LastN(s, HistoryCap);
    var a := LastN(h, n);
    var b := LastN(s, n);
    assert |a| == |b|;
    forall i | 0 <= i < |a| ensures a[i] == b[i] {
      assert a[i] == h[|h| - |a| + i];
    }
  }
}
