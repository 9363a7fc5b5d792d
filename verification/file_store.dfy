/**
 * The browser's file store (fileStore.js): the upload queue, the status
 * changes that start the clock and move a finished upload into the
 * history, removal from the queue, and clearing the histories.
 *
 * The fresh id drawn from the clock and `Math.random()`, and the clock
 * itself, are parameters.
 */
module FileStore {
  import opened Wrappers

  const Pending: string := "pending"
  const Uploading: string := "uploading"
  const Completed: string := "completed"
  const Failed: string := "failed"

  /** A queued upload; times are epoch milliseconds, 0 and null both meaning "not set". */
  datatype Item = Item(id: int, fileName: string, status: string, progress: int, speed: int,
                       uploadedChunks: seq<int>, startTime: Option<int>, endTime: Option<int>)

  /** What the caller hands addToQueue; each field may be missing. */
  datatype FileInfo = FileInfo(id: Option<int>, fileName: string, status: Option<string>, progress: Option<int>,
                               speed: Option<int>, uploadedChunks: Option<seq<int>>)

  datatype Store = Store(uploadQueue: seq<Item>, uploadHistory: seq<Item>, allHistory: seq<Item>)

  /** `x || d` of JavaScript for the falsy values these fields can take: missing, 0 or "". */
  function OrInt(x: Option<int>, d: int): int {
    if x.None? || x.value == 0 then d else x.value
  }

  function OrString(x: Option<string>, d: string): string {
    if x.None? || x.value == "" then d else x.value
  }

  /** Whether a time is set (JavaScript truthiness of a number or null). */
  predicate IsSet(t: Option<int>) {
    t.Some? && t.value != 0
  }

  /**
   * addToQueue: the item is appended with the given fields and defaults
   * for the missing ones (a fresh id, pending, progress and speed 0, no
   * chunks) and with both times cleared.
   */
  function AddToQueue(s: Store, info: FileInfo, freshId: int): (r: Store)
    ensures r.uploadHistory == s.uploadHistory && r.allHistory == s.allHistory
    ensures |r.uploadQueue| == |s.uploadQueue| + 1 && r.uploadQueue[..|s.uploadQueue|] == s.uploadQueue
    ensures var it := r.uploadQueue[|s.uploadQueue|];
      it.id == (if info.id.Some? && info.id.value != 0 then info.id.value else freshId)
      && (info.status.None? ==> it.status == Pending)
      && (info.progress.None? ==> it.progress == 0) && (info.speed.None? ==> it.speed == 0)
      && it.startTime.None? && it.endTime.None?
  {
    var it := Item(OrInt(info.id, freshId), info.fileName, OrString(info.status, Pending), OrInt(info.progress, 0),
                   OrInt(info.speed, 0), if info.uploadedChunks.Some? then info.uploadedChunks.value else [],
                   None, None);
    s.(uploadQueue := s.uploadQueue + [it])
  }

  /* --------------------------------------------------------------- lookup */

  predicate HasId(q: seq<Item>, id: int) {
    exists k :: 0 <= k < |q| && q[k].id == id
  }

  function Find(q: seq<Item>, id: int): (i: int)
    ensures -1 <= i < |q|
    ensures i >= 0 ==> q[i].id == id && forall j :: 0 <= j < i ==> q[j].id != id
    ensures i == -1 <==> !HasId(q, id)
  {
    if q == [] then -1
    else if q[0].id == id then 0
    else
      var j := Find(q[1..], id);
      assert forall k :: 1 <= k < |q| ==> q[k] == q[1..][k - 1];
      if j == -1 then -1 else j + 1
  }

  /** The queue without any item carrying the id, in order. */
  function WithoutId(q: seq<Item>, id: int): (r: seq<Item>)
    ensures !HasId(r, id)
    ensures |r| <= |q|
  {
    if q == [] then []
    else if q[0].id == id then WithoutId(q[1..], id)
    else [q[0]] + WithoutId(q[1..], id)
  }

  /** The items removed are exactly those with the id. */
  lemma {:induction false} WithoutIdMembers(q: seq<Item>, id: int)
    ensures forall it :: it in WithoutId(q, id) <==> it in q && it.id != id
    decreases |q|
  {
    if q != [] {
      WithoutIdMembers(q[1..], id);
      assert forall it :: it in q <==> it == q[0] || it in q[1..];
    }
  }

  /** A queue whose ids are distinct loses exactly one item when an id it holds is removed. */
  lemma {:induction false} WithoutIdCount(q: seq<Item>, id: int)
    requires forall a, b :: 0 <= a < b < |q| ==> q[a].id != q[b].id
    ensures |WithoutId(q, id)| == if HasId(q, id) then |q| - 1 else |q|
    decreases |q|
  {
    if q != [] {
      WithoutIdCount(q[1..], id);
      assert forall k :: 1 <= k < |q| ==> q[k] == q[1..][k - 1];
      if q[0].id == id {
        assert !HasId(q[1..], id);
      } else if HasId(q, id) {
        var k :| 0 <= k < |q| && q[k].id == id;
        assert q[1..][k - 1].id == id;
      }
    }
  }

  /* ---------------------------------------------------------- status change */

  /**
   * setUploadStatus: the first item with the id takes the status.  Entering
   * "uploading" starts the clock unless it was already started.  Entering
   * "completed" or "failed" stops the clock, puts a copy of the item at the
   * front of the upload history and drops every item with the id from the
   * queue.  An unknown id changes nothing.
   */
  function SetUploadStatus(s: Store, id: int, status: string, now: int): (r: Store)
    ensures !HasId(s.uploadQueue, id) ==> r == s
    ensures r.allHistory == s.allHistory
    ensures HasId(s.uploadQueue, id) && status != Completed && status != Failed ==> (
      var i := Find(s.uploadQueue, id);
      r.uploadHistory == s.uploadHistory && |r.uploadQueue| == |s.uploadQueue|
      && r.uploadQueue[i].status == status
      && r.uploadQueue[i].startTime == (if status == Uploading && !IsSet(s.uploadQueue[i].startTime) then Some(now)
                                        else s.uploadQueue[i].startTime)
      && forall k :: 0 <= k < |s.uploadQueue| && k != i ==> r.uploadQueue[k] == s.uploadQueue[k])
    ensures HasId(s.uploadQueue, id) && (status == Completed || status == Failed) ==> (
      |r.uploadHistory| == |s.uploadHistory| + 1 && r.uploadHistory[1..] == s.uploadHistory
      && r.uploadHistory[0].id == id && r.uploadHistory[0].status == status && r.uploadHistory[0].endTime == Some(now)
      && r.uploadQueue == WithoutId(s.uploadQueue, id))
  {
    var i := Find(s.uploadQueue, id);
    if i == -1 then s
    else
      var it := s.uploadQueue[i];
      var started := if status == Uploading && !IsSet(it.startTime) then it.(status := status, startTime := Some(now))
                     else it.(status := status);
      if status == Completed || status == Failed then
        var done := started.(endTime := Some(now));
        WithoutIdIgnoresUpdate(s.uploadQueue, i, done, id);
        s.(uploadHistory := [done] + s.uploadHistory, uploadQueue := WithoutId(s.uploadQueue[i := done], id))
      else
        s.(uploadQueue := s.uploadQueue[i := started])
  }

  /** Moving the marked item out, the rest of the queue drops the same items as before marking. */
  lemma {:induction false} WithoutIdIgnoresUpdate(q: seq<Item>, i: int, it: Item, id: int)
    requires 0 <= i < |q| && q[i].id == id && it.id == id
    ensures WithoutId(q[i := it], id) == WithoutId(q, id)
    decreases |q|
  {
    if i > 0 {
      WithoutIdIgnoresUpdate(q[1..], i - 1, it, id);
      assert q[i := it][1..] == q[1..][i - 1 := it];
    } else {
      assert q[i := it][1..] == q[1..];
    }
  }

  /**
   * The clock starts once: entering "uploading" again, at any later time,
   * keeps the start time of the first entry.
   */
  lemma StartTimeSetOnce(s: Store, id: int, t1: int, t2: int)
    requires HasId(s.uploadQueue, id) && t1 != 0
    ensures var s1 := SetUploadStatus(s, id, Uploading, t1);
      var s2 := SetUploadStatus(s1, id, Uploading, t2);
      s2 == s1 && IsSet(s1.uploadQueue[Find(s.uploadQueue, id)].startTime)
  {
    var i := Find(s.uploadQueue, id);
    var s1 := SetUploadStatus(s, id, Uploading, t1);
    assert Find(s1.uploadQueue, id) == i by {
      assert forall j :: 0 <= j < i ==> s1.uploadQueue[j] == s.uploadQueue[j];
    }
    assert s1.uploadQueue[i].status == Uploading;
    assert s1.uploadQueue[i := s1.uploadQueue[i].(status := Uploading)] == s1.uploadQueue;
  }

  /**
   * With distinct ids, finishing an upload moves it: the queue shrinks by
   * one, the history grows by one, and nothing else is lost or gained.
   */
  lemma FinishMovesOneItem(s: Store, id: int, status: string, now: int)
    requires status == Completed || status == Failed
    requires HasId(s.uploadQueue, id)
    requires forall a, b :: 0 <= a < b < |s.uploadQueue| ==> s.uploadQueue[a].id != s.uploadQueue[b].id
    ensures var r := SetUploadStatus(s, id, status, now);
      |r.uploadQueue| + |r.uploadHistory| == |s.uploadQueue| + |s.uploadHistory|
      && !HasId(r.uploadQueue, id)
      && forall it :: it in s.uploadQueue && it.id != id ==> it in r.uploadQueue
  {
    var r := SetUploadStatus(s, id, status, now);
    WithoutIdCount(s.uploadQueue, id);
    WithoutIdMembers(s.uploadQueue, id);
  }

  /* --------------------------------------------------------- remove, clear */

  /** removeFromQueue: every item with the id leaves the queue; the histories stay. */
  function RemoveFromQueue(s: Store, id: int): (r: Store)
    ensures !HasId(r.uploadQueue, id)
    ensures r.uploadHistory == s.uploadHistory && r.allHistory == s.allHistory
  {
    s.(uploadQueue := WithoutId(s.uploadQueue, id))
  }

  /** Removing an id is the same once or twice, and keeps every other item. */
  lemma RemoveFromQueueIdempotent(s: Store, id: int)
    ensures RemoveFromQueue(RemoveFromQueue(s, id), id) == RemoveFromQueue(s, id)
    ensures forall it :: it in s.uploadQueue && it.id != id ==> it in RemoveFromQueue(s, id).uploadQueue
  {
    WithoutIdAbsent(WithoutId(s.uploadQueue, id), id);
    WithoutIdMembers(s.uploadQueue, id);
  }

  lemma {:induction false} WithoutIdAbsent(q: seq<Item>, id: int)
    requires !HasId(q, id)
    ensures WithoutId(q, id) == q
    decreases |q|
  {
    if q != [] {
      assert q[0].id != id;
      assert !HasId(q[1..], id) by {
        assert forall k :: 0 <= k < |q| - 1 ==> q[1..][k] == q[k + 1];
      }
      WithoutIdAbsent(q[1..], id);
    }
  }

  /** clearHistory: both histories empty; the queue stays. */
  function ClearHistory(s: Store): (r: Store)
    ensures r.uploadHistory == [] && r.allHistory == [] && r.uploadQueue == s.uploadQueue
  {
    s.(uploadHistory := [], allHistory := [])
  }
}
