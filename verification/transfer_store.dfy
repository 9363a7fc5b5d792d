/**
 * The browser's transfer store (transferStore.js): the upload and download
 * queues, adding, patching, removing and completing a task, clearing the
 * completed ones, pausing everything, and the badge count and speed
 * totals.
 *
 * Task ids are integers; the fresh id the browser draws from the clock and
 * `Math.random()` is a parameter, as is the clock.  The history entry a
 * completion posts to the server is returned rather than sent.
 */
module TransferStore {
  import opened Wrappers

  const Pending: string := "pending"
  const Hashing: string := "hashing"
  const Uploading: string := "uploading"
  const Downloading: string := "downloading"
  const Paused: string := "paused"
  const Completed: string := "completed"

  /** A queued upload or download; `transferred` is uploadedSize or downloadedSize. */
  datatype QTask = QTask(id: int, fileId: Option<int>, fileName: string, fileSize: int, fileHash: Option<string>,
                         status: string, progress: int, speed: int, transferred: int,
                         startTime: Option<int>, endTime: Option<int>)

  /** The fields an update carries; an absent field is left as it is (Object.assign). */
  datatype Patch = Patch(fileId: Option<Option<int>>, status: Option<string>, progress: Option<int>,
                         speed: Option<int>, transferred: Option<int>,
                         startTime: Option<Option<int>>, endTime: Option<Option<int>>)

  function Apply(t: QTask, p: Patch): (r: QTask)
    ensures r.id == t.id && r.fileName == t.fileName && r.fileSize == t.fileSize && r.fileHash == t.fileHash
    ensures p.status.Some? ==> r.status == p.status.value
    ensures p.status.None? ==> r.status == t.status
  {
    t.(fileId := if p.fileId.Some? then p.fileId.value else t.fileId,
       status := if p.status.Some? then p.status.value else t.status,
       progress := if p.progress.Some? then p.progress.value else t.progress,
       speed := if p.speed.Some? then p.speed.value else t.speed,
       transferred := if p.transferred.Some? then p.transferred.value else t.transferred,
       startTime := if p.startTime.Some? then p.startTime.value else t.startTime,
       endTime := if p.endTime.Some? then p.endTime.value else t.endTime)
  }

  /** The empty patch. */
  const NoChange: Patch := Patch(None, None, None, None, None, None, None)

  /* ----------------------------------------------------------------- lookup */

  predicate HasId(q: seq<QTask>, id: int) {
    exists k :: 0 <= k < |q| && q[k].id == id
  }

  /** find / findIndex: the first position holding the id, -1 when none does. */
  function Find(q: seq<QTask>, id: int): (i: int)
    ensures -1 <= i < |q|
    ensures i >= 0 ==> q[i].id == id && forall j :: 0 <= j < i ==> q[j].id != id
    ensures i == -1 <==> !HasId(q, id)
  {
    if q == [] then -1
    else if q[0].id == id then 0
    else
      var j := Find(q[1..], id);
      assert forall k :: 1 <= k < |q| ==> q[k] == q[1..][k - 1];
      if j == -1 then -1 else j + 1
  }

  /* ------------------------------------------------------------------- add */

  /**
   * addUploadTask / addDownloadTask: a new pending task with progress,
   * speed and transferred size 0 and no times, appended to the queue.  A
   * missing or zero requested id is replaced by the fresh one.
   */
  function AddTask(q: seq<QTask>, requestedId: Option<int>, freshId: int, fileId: Option<int>,
                   fileName: string, fileSize: int, fileHash: Option<string>): (r: (seq<QTask>, QTask))
    ensures r.0 == q + [r.1]
    ensures r.1.status == Pending && r.1.progress == 0 && r.1.speed == 0 && r.1.transferred == 0
    ensures r.1.startTime.None? && r.1.endTime.None?
    ensures r.1.id == if requestedId.None? || requestedId.value == 0 then freshId else requestedId.value
  {
    var id := if requestedId.None? || requestedId.value == 0 then freshId else requestedId.value;
    var t := QTask(id, fileId, fileName, fileSize, fileHash, Pending, 0, 0, 0, None, None);
    (q + [t], t)
  }

  /** addUploadTask: the upload task starts without a file id or hash. */
  function AddUploadTask(q: seq<QTask>, requestedId: Option<int>, freshId: int, fileName: string, fileSize: int)
    : (r: (seq<QTask>, QTask))
    ensures r.0 == q + [r.1] && r.1.fileId.None? && r.1.fileHash.None? && r.1.status == Pending
  {
    AddTask(q, requestedId, freshId, None, fileName, fileSize, None)
  }

  /** addDownloadTask: a missing file size counts as 0, a missing hash stays null. */
  function AddDownloadTask(q: seq<QTask>, requestedId: Option<int>, freshId: int, fileId: Option<int>,
                           fileName: string, fileSize: Option<int>, fileHash: Option<string>): (r: (seq<QTask>, QTask))
    ensures r.0 == q + [r.1] && r.1.status == Pending
    ensures r.1.fileSize == if fileSize.Some? then fileSize.value else 0
  {
    AddTask(q, requestedId, freshId, fileId, fileName, if fileSize.Some? then fileSize.value else 0, fileHash)
  }

  /* ---------------------------------------------------------------- update */

  /** updateUploadTask / updateDownloadTask: the first task with the id takes the patch. */
  function UpdateTask(q: seq<QTask>, id: int, p: Patch): (r: seq<QTask>)
    ensures |r| == |q|
    ensures !HasId(q, id) ==> r == q
    ensures HasId(q, id) ==> 0 <= Find(q, id) < |q| && r[Find(q, id)] == Apply(q[Find(q, id)], p)
    ensures forall k :: 0 <= k < |q| && r[k] != q[k] ==>
      q[k].id == id && (forall j :: 0 <= j < k ==> q[j].id != id) && r[k] == Apply(q[k], p)
  {
    var i := Find(q, id);
    if i == -1 then q else q[i := Apply(q[i], p)]
  }

  /** Patching with nothing changes nothing, and applying the same patch twice is applying it once. */
  lemma UpdateTaskIdempotent(q: seq<QTask>, id: int, p: Patch)
    ensures UpdateTask(q, id, NoChange) == q
    ensures UpdateTask(UpdateTask(q, id, p), id, p) == UpdateTask(q, id, p)
  {
    var i := Find(q, id);
    if i != -1 {
      var r := UpdateTask(q, id, p);
      assert Find(r, id) == i by {
        assert r[i].id == id;
        assert forall j :: 0 <= j < i ==> r[j] == q[j];
      }
    }
  }

  /* ---------------------------------------------------------------- remove */

  /** removeUploadTask / removeDownloadTask: the first task with the id is spliced out. */
  function RemoveTask(q: seq<QTask>, id: int): (r: seq<QTask>)
    ensures !HasId(q, id) ==> r == q
    ensures HasId(q, id) ==> |r| == |q| - 1 && r == q[..Find(q, id)] + q[Find(q, id) + 1..]
  {
    var i := Find(q, id);
    if i == -1 then q else q[..i] + q[i + 1..]
  }

  /** Adding a task under an id the queue does not hold and then removing that id gives the queue back. */
  lemma RemoveUndoesAdd(q: seq<QTask>, freshId: int, fileId: Option<int>, fileName: string, fileSize: int,
                        fileHash: Option<string>)
    requires freshId != 0 && !HasId(q, freshId)
    ensures RemoveTask(AddTask(q, None, freshId, fileId, fileName, fileSize, fileHash).0, freshId) == q
  {
    var a := AddTask(q, None, freshId, fileId, fileName, fileSize, fileHash);
    assert Find(a.0, freshId) == |q| by {
      assert a.0[|q|].id == freshId;
      assert forall j :: 0 <= j < |q| ==> a.0[j] == q[j];
    }
    assert a.0[..|q|] == q;
  }

  /* -------------------------------------------------------------- complete */

  /** The history entry posted when a transfer completes. */
  datatype HistoryEntry = HistoryEntry(fileId: Option<int>, fileName: string, fileSize: int, fileHash: string,
                                       transferType: string, avgSpeed: int, duration: int)

  /**
   * Whole seconds between start and end: Math.floor((end - start) / 1000),
   * with a null start taken as 0, as JavaScript's subtraction does.
   */
  function DurationSeconds(startTime: Option<int>, endTime: int): int {
    (endTime - (if startTime.Some? then startTime.value else 0)) / 1000
  }

  /** Bytes per second over the duration, 0 for a duration of 0 seconds or less. */
  function AvgSpeed(fileSize: int, duration: int): (s: int)
    ensures duration > 0 && fileSize >= 0 ==> 0 <= s * duration <= fileSize < (s + 1) * duration
    ensures duration <= 0 ==> s == 0
  {
    if duration > 0 then fileSize / duration else 0
  }

  /**
   * completeUploadTask / completeDownloadTask: the first task with the id
   * becomes completed at 100% with speed 0 and the end time now; an upload
   * also records the hash it is given.  The entry posted to the history is
   * returned; nothing happens for an unknown id.
   */
  function CompleteTask(q: seq<QTask>, id: int, now: int, isUpload: bool, hash: Option<string>)
    : (r: (seq<QTask>, Option<HistoryEntry>))
    ensures !HasId(q, id) ==> r == (q, None)
    ensures HasId(q, id) ==> (
      var i := Find(q, id);
      |r.0| == |q| && r.0[i].status == Completed && r.0[i].progress == 100 && r.0[i].speed == 0
      && r.0[i].endTime == Some(now)
      && (forall k :: 0 <= k < |q| && k != i ==> r.0[k] == q[k])
      && r.1.Some? && r.1.value.transferType == (if isUpload then "UPLOAD" else "DOWNLOAD")
      && r.1.value.duration == DurationSeconds(q[i].startTime, now)
      && r.1.value.avgSpeed == AvgSpeed(q[i].fileSize, r.1.value.duration))
  {
    var i := Find(q, id);
    if i == -1 then (q, None)
    else
      var t := q[i];
      var done := t.(status := Completed, progress := 100, endTime := Some(now), speed := 0,
                     fileHash := if isUpload then hash else t.fileHash);
      var duration := DurationSeconds(t.startTime, now);
      var entryHash := if done.fileHash.Some? then done.fileHash.value else "";
      var entry := HistoryEntry(t.fileId, t.fileName, t.fileSize, entryHash,
                                if isUpload then "UPLOAD" else "DOWNLOAD", AvgSpeed(t.fileSize, duration), duration);
      (q[i := done], Some(entry))
  }

  /* ----------------------------------------------------------------- clear */

  /** clearCompletedUploads / clearCompletedDownloads: the tasks not completed, in their order. */
  function ClearCompleted(q: seq<QTask>): (r: seq<QTask>)
    ensures |r| <= |q|
  {
    if q == [] then []
    else if q[0].status == Completed then ClearCompleted(q[1..])
    else [q[0]] + ClearCompleted(q[1..])
  }

  /** The clear keeps exactly the tasks that are not completed. */
  lemma {:induction false} ClearCompletedMembers(q: seq<QTask>)
    ensures forall t :: t in ClearCompleted(q) <==> t in q && t.status != Completed
    decreases |q|
  {
    if q != [] {
      ClearCompletedMembers(q[1..]);
      assert forall t :: t in q <==> t == q[0] || t in q[1..];
    }
  }

  lemma {:induction false} ClearCompletedAppend(a: seq<QTask>, b: seq<QTask>)
    ensures ClearCompleted(a + b) == ClearCompleted(a) + ClearCompleted(b)
    decreases |a|
  {
    if a == [] {
      assert a + b == b;
    } else {
      ClearCompletedAppend(a[1..], b);
      var ab := a + b;
      assert ab[0] == a[0] && ab[1..] == a[1..] + b;
      if a[0].status == Completed {
        calc {
          ClearCompleted(ab);
          ClearCompleted(a[1..] + b);
          ClearCompleted(a[1..]) + ClearCompleted(b);
        }
      } else {
        calc {
          ClearCompleted(ab);
          [a[0]] + ClearCompleted(a[1..] + b);
          [a[0]] + (ClearCompleted(a[1..]) + ClearCompleted(b));
          ([a[0]] + ClearCompleted(a[1..])) + ClearCompleted(b);
        }
      }
    }
  }

  /**
   * Completing a task and then clearing leaves the same queue as removing
   * the task and then clearing: the completed task is exactly what the
   * clear takes away, along with what it took anyway.
   */
  lemma CompleteThenClear(q: seq<QTask>, id: int, now: int, isUpload: bool, hash: Option<string>)
    ensures ClearCompleted(CompleteTask(q, id, now, isUpload, hash).0) == ClearCompleted(RemoveTask(q, id))
  {
    if HasId(q, id) {
      ClearCompletedSkipsCompleted(q, CompleteTask(q, id, now, isUpload, hash).0, Find(q, id));
    }
  }

  /** Replacing one task by a completed one clears to what removing it clears to. */
  lemma ClearCompletedSkipsCompleted(q: seq<QTask>, c: seq<QTask>, i: int)
    requires 0 <= i < |q| && |c| == |q| && c[i].status == Completed
    requires forall k :: 0 <= k < |q| && k != i ==> c[k] == q[k]
    ensures ClearCompleted(c) == ClearCompleted(q[..i] + q[i + 1..])
  {
    var pre, post := q[..i], q[i + 1..];
    assert c == pre + [c[i]] + post by {
      assert forall k :: 0 <= k < i ==> c[k] == pre[k];
      assert forall k :: i < k < |c| ==> c[k] == post[k - i - 1];
    }
    ClearAroundCompleted(pre, c[i], post);
  }

  /** A completed task between two stretches clears away. */
  lemma ClearAroundCompleted(pre: seq<QTask>, t: QTask, post: seq<QTask>)
    requires t.status == Completed
    ensures ClearCompleted(pre + [t] + post) == ClearCompleted(pre + post)
  {
    ClearCompletedAppend(pre + [t], post);
    ClearCompletedAppend(pre, [t]);
    ClearCompletedOne(t);
    ClearCompletedAppend(pre, post);
  }

  lemma ClearCompletedOne(t: QTask)
    requires t.status == Completed
    ensures ClearCompleted([t]) == []
  {
    assert [t][1..] == [];
  }

  /** Clearing twice is clearing once. */
  lemma {:induction false} ClearCompletedIdempotent(q: seq<QTask>)
    ensures ClearCompleted(ClearCompleted(q)) == ClearCompleted(q)
    decreases |q|
  {
    if q != [] {
      ClearCompletedIdempotent(q[1..]);
      if q[0].status != Completed {
        assert ([q[0]] + ClearCompleted(q[1..]))[1..] == ClearCompleted(q[1..]);
      }
    }
  }

  /* ----------------------------------------------------------------- pause */

  /** pauseAllUploads: uploading and hashing tasks become paused with speed 0; the rest stay. */
  function PauseAllUploads(q: seq<QTask>): (r: seq<QTask>)
    ensures |r| == |q|
    ensures forall k :: 0 <= k < |q| ==> r[k].id == q[k].id
    ensures forall k :: 0 <= k < |q| ==> r[k].status != Uploading && r[k].status != Hashing
    ensures forall k :: 0 <= k < |q| && q[k].status != Uploading && q[k].status != Hashing ==> r[k] == q[k]
    ensures forall k :: 0 <= k < |q| && (q[k].status == Uploading || q[k].status == Hashing) ==>
      r[k] == q[k].(status := Paused, speed := 0)
  {
    if q == [] then []
    else
      var t := q[0];
      var t' := if t.status == Uploading || t.status == Hashing then t.(status := Paused, speed := 0) else t;
      [t'] + PauseAllUploads(q[1..])
  }

  /** pauseAllDownloads: downloading tasks become paused with speed 0; the rest stay. */
  function PauseAllDownloads(q: seq<QTask>): (r: seq<QTask>)
    ensures |r| == |q|
    ensures forall k :: 0 <= k < |q| ==> r[k].id == q[k].id
    ensures forall k :: 0 <= k < |q| ==> r[k].status != Downloading
    ensures forall k :: 0 <= k < |q| && q[k].status != Downloading ==> r[k] == q[k]
    ensures forall k :: 0 <= k < |q| && q[k].status == Downloading ==>
      r[k] == q[k].(status := Paused, speed := 0)
  {
    if q == [] then []
    else
      var t := q[0];
      var t' := if t.status == Downloading then t.(status := Paused, speed := 0) else t;
      [t'] + PauseAllDownloads(q[1..])
  }

  /* ---------------------------------------------------------------- totals */

  /** uploadingTasks: the uploads still in flight, queued ones included. */
  predicate ActiveUpload(t: QTask) {
    t.status == Uploading || t.status == Hashing || t.status == Pending
  }

  predicate ActiveDownload(t: QTask) {
    t.status == Downloading || t.status == Pending
  }

  function CountActiveUploads(q: seq<QTask>): (n: nat)
    ensures n <= |q|
  {
    if q == [] then 0 else (if ActiveUpload(q[0]) then 1 else 0) + CountActiveUploads(q[1..])
  }

  function CountActiveDownloads(q: seq<QTask>): (n: nat)
    ensures n <= |q|
  {
    if q == [] then 0 else (if ActiveDownload(q[0]) then 1 else 0) + CountActiveDownloads(q[1..])
  }

  /** totalTransferCount, the badge: uploads in flight plus downloads in flight. */
  function TotalTransferCount(uploads: seq<QTask>, downloads: seq<QTask>): (n: nat)
    ensures n <= |uploads| + |downloads|
  {
    CountActiveUploads(uploads) + CountActiveDownloads(downloads)
  }

  /** The summed speed of the tasks with the given status (totalUploadSpeed with "uploading"). */
  function SpeedOf(q: seq<QTask>, status: string): int {
    if q == [] then 0 else (if q[0].status == status then q[0].speed else 0) + SpeedOf(q[1..], status)
  }

  function TotalUploadSpeed(q: seq<QTask>): int {
    SpeedOf(q, Uploading)
  }

  function TotalDownloadSpeed(q: seq<QTask>): int {
    SpeedOf(q, Downloading)
  }

  /** No task with the status contributes nothing: the speed total is then 0. */
  lemma {:induction false} SpeedOfAbsent(q: seq<QTask>, status: string)
    requires forall k :: 0 <= k < |q| ==> q[k].status != status
    ensures SpeedOf(q, status) == 0
    decreases |q|
  {
    if q != [] {
      SpeedOfAbsent(q[1..], status);
    }
  }

  /** After pausing all uploads the upload speed shown is 0, and likewise for downloads. */
  lemma PauseAllStopsSpeed(up: seq<QTask>, down: seq<QTask>)
    ensures TotalUploadSpeed(PauseAllUploads(up)) == 0
    ensures TotalDownloadSpeed(PauseAllDownloads(down)) == 0
  {
    SpeedOfAbsent(PauseAllUploads(up), Uploading);
    SpeedOfAbsent(PauseAllDownloads(down), Downloading);
  }

  /** How many uploads are pending. */
  function CountPending(q: seq<QTask>): (n: nat) {
    if q == [] then 0 else (if q[0].status == Pending then 1 else 0) + CountPending(q[1..])
  }

  /** After pausing all uploads only the pending ones still count toward the badge. */
  lemma {:induction false} PauseAllLeavesPending(q: seq<QTask>)
    ensures CountActiveUploads(PauseAllUploads(q)) == CountPending(q)
    decreases |q|
  {
    if q != [] {
      PauseAllLeavesPending(q[1..]);
    }
  }

  /** Clearing completed tasks never changes the badge: completed tasks are not in flight. */
  lemma {:induction false} ClearKeepsBadge(q: seq<QTask>)
    ensures CountActiveUploads(ClearCompleted(q)) == CountActiveUploads(q)
    ensures CountActiveDownloads(ClearCompleted(q)) == CountActiveDownloads(q)
    decreases |q|
  {
    if q != [] {
      ClearKeepsBadge(q[1..]);
      if q[0].status != Completed {
        assert ([q[0]] + ClearCompleted(q[1..]))[1..] == ClearCompleted(q[1..]);
      }
    }
  }
}
