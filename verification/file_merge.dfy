/**
 * The merge step of a chunked upload (FileMergeServiceImpl): once every
 * chunk is in, the chunks are joined under a name that does not clash with
 * another file of the folder, the MD5 of the result is checked, and the
 * file becomes COMPLETED; a failed check, or a cancelled upload, removes
 * every trace of the file.
 *
 * Joining the chunk files and hashing them are I/O: their outcome, "the
 * digest matched", is a parameter.  The file, chunk and task tables are a
 * `Store`.
 */
module FileMerge {
  import opened Wrappers
  import FileInfoService

  type FileRecord = FileInfoService.FileRecord

  datatype UploadStatus = Uploading | Completed | OtherStatus

  datatype ChunkStatus = ChunkPending | ChunkCompleted | ChunkOther

  /** The file table with each file's upload status, the chunk records by file, and the file ids the transfer tasks refer to. */
  datatype Store = Store(
    files: seq<FileRecord>,
    status: map<int, UploadStatus>,
    chunks: map<int, seq<ChunkStatus>>,
    taskFiles: seq<int>)

  /** The number of chunk records that are COMPLETED. */
  function CountCompleted(chunks: seq<ChunkStatus>): (n: nat)
    ensures n <= |chunks|
    ensures n == |chunks| <==> forall k :: 0 <= k < |chunks| ==> chunks[k] == ChunkCompleted
  {
    if chunks == [] then 0
    else
      assert forall k :: 1 <= k < |chunks| ==> chunks[k] == chunks[1..][k - 1];
      (if chunks[0] == ChunkCompleted then 1 else 0) + CountCompleted(chunks[1..])
  }

  function StatusOf(st: Store, id: int): UploadStatus {
    if id in st.status then st.status[id] else OtherStatus
  }

  function ChunksOf(st: Store, id: int): seq<ChunkStatus> {
    if id in st.chunks then st.chunks[id] else []
  }

  /** The file rows without those of `id`. */
  function RemoveFile(files: seq<FileRecord>, id: int): (r: seq<FileRecord>)
    ensures forall k :: 0 <= k < |r| ==> r[k].id != id
    ensures forall k :: 0 <= k < |files| && files[k].id != id ==> files[k] in r
    ensures forall f :: f in r ==> f in files
  {
    if files == [] then []
    else if files[0].id == id then RemoveFile(files[1..], id)
    else [files[0]] + RemoveFile(files[1..], id)
  }

  function RemoveTasks(taskFiles: seq<int>, id: int): (r: seq<int>)
    ensures id !in r
    ensures forall t :: t in taskFiles && t != id ==> t in r
    ensures forall t :: t in r ==> t in taskFiles
  {
    if taskFiles == [] then []
    else if taskFiles[0] == id then RemoveTasks(taskFiles[1..], id)
    else [taskFiles[0]] + RemoveTasks(taskFiles[1..], id)
  }

  /**
   * cleanupFailedUpload: the file row, its chunk records and its transfer
   * tasks are deleted; nothing else changes.
   */
  function Cleanup(st: Store, id: int): (r: Store)
    ensures forall k :: 0 <= k < |r.files| ==> r.files[k].id != id
    ensures forall k :: 0 <= k < |st.files| && st.files[k].id != id ==> st.files[k] in r.files
    ensures id !in r.chunks && r.chunks == st.chunks - {id}
    ensures id !in r.taskFiles
    ensures id !in r.status
  {
    Store(RemoveFile(st.files, id), st.status - {id}, st.chunks - {id}, RemoveTasks(st.taskFiles, id))
  }

  datatype MergeOutcome =
    | FileMissing
    | AlreadyUploaded
    | ChunksMissing(completed: nat, total: nat)
    | DigestMismatch
    | Merged(fileName: string)
    | MergeFailed

  /** What the response reports as `success`. */
  predicate Succeeded(o: MergeOutcome) {
    o.AlreadyUploaded? || o.Merged?
  }

  /**
   * mergeFile: a missing file fails and an already COMPLETED one succeeds
   * at once, both without touching the store; fewer COMPLETED chunks than
   * chunk records fails; otherwise the file gets a non-clashing name, and a
   * digest mismatch cleans the upload up while a match makes the file
   * COMPLETED under that name.
   */
  function MergeFile(st: Store, fileId: int, userId: int, digestMatches: bool): (r: (MergeOutcome, Store))
    ensures FileInfoService.IndexOfId(st.files, fileId).None? ==> r == (FileMissing, st)
    ensures r.0.AlreadyUploaded? ==> r.1 == st && StatusOf(st, fileId) == Completed
    ensures r.0.ChunksMissing? ==> r.1 == st && r.0.completed < r.0.total == |ChunksOf(st, fileId)|
    ensures r.0 == DigestMismatch ==> r.1 == Cleanup(st, fileId)
    ensures r.0.Merged? ==> digestMatches
    ensures r.0.Merged? ==> StatusOf(r.1, fileId) == Completed && r.1.chunks == st.chunks && r.1.taskFiles == st.taskFiles
  {
    match FileInfoService.IndexOfId(st.files, fileId)
    case None => (FileMissing, st)
    case Some(i) =>
      var f := st.files[i];
      if StatusOf(st, fileId) == Completed then (AlreadyUploaded, st)
      else
        var chunks := ChunksOf(st, fileId);
        var done := CountCompleted(chunks);
        if done < |chunks| then (ChunksMissing(done, |chunks|), st)
        else match FileInfoService.CheckAndRename(st.files, f.fileName, FileInfoService.FolderOf(f), userId, Some(fileId))
          case Failure(_) => (MergeFailed, Cleanup(st, fileId))
          case Success(finalName) =>
            if !digestMatches then (DigestMismatch, Cleanup(st, fileId))
            else
              (Merged(finalName),
               st.(files := st.files[i := f.(fileName := finalName)], status := st.status[fileId := Completed]))
  }

  /**
   * The flow as a whole: an existing, not yet completed file whose chunks
   * are all COMPLETED is merged exactly when the digest matches; the merged
   * name is the file's own unless another file of that name is in the
   * folder, and only that one row changes.
   */
  lemma MergeFileComplete(st: Store, fileId: int, userId: int, digestMatches: bool)
    requires FileInfoService.IndexOfId(st.files, fileId).Some?
    requires StatusOf(st, fileId) != Completed
    requires forall k :: 0 <= k < |ChunksOf(st, fileId)| ==> ChunksOf(st, fileId)[k] == ChunkCompleted
    ensures var i := FileInfoService.IndexOfId(st.files, fileId).value;
      var f := st.files[i];
      var r := MergeFile(st, fileId, userId, digestMatches);
      (r.0.Merged? <==> digestMatches)
      && (!digestMatches ==> r == (DigestMismatch, Cleanup(st, fileId)))
      && (digestMatches ==>
            |r.1.files| == |st.files|
            && (forall k :: 0 <= k < |st.files| && k != i ==> r.1.files[k] == st.files[k])
            && r.1.files[i].fileName == r.0.fileName
            && (r.0.fileName == f.fileName <==>
                FileInfoService.Duplicates(st.files, f.fileName, FileInfoService.FolderOf(f), userId, Some(fileId)) == []))
  {
    var i := FileInfoService.IndexOfId(st.files, fileId).value;
    var f := st.files[i];
    FileInfoService.CheckAndRenameOutcome(st.files, f.fileName, FileInfoService.FolderOf(f), userId, Some(fileId));
  }

  /** A merge with a chunk not yet COMPLETED reports how many are, and changes nothing. */
  lemma MergeFileWaitsForChunks(st: Store, fileId: int, userId: int, digestMatches: bool)
    requires FileInfoService.IndexOfId(st.files, fileId).Some?
    requires StatusOf(st, fileId) != Completed
    requires exists k :: 0 <= k < |ChunksOf(st, fileId)| && ChunksOf(st, fileId)[k] != ChunkCompleted
    ensures MergeFile(st, fileId, userId, digestMatches)
      == (ChunksMissing(CountCompleted(ChunksOf(st, fileId)), |ChunksOf(st, fileId)|), st)
  {
  }

  /**
   * cancelUpload: true for a missing file (nothing to cancel), false for a
   * COMPLETED one (nothing changes), and otherwise true after the cleanup.
   */
  function CancelUpload(st: Store, fileId: int): (r: (bool, Store))
    ensures FileInfoService.IndexOfId(st.files, fileId).None? ==> r == (true, st)
    ensures !r.0 <==> FileInfoService.IndexOfId(st.files, fileId).Some? && StatusOf(st, fileId) == Completed
    ensures !r.0 ==> r.1 == st
    ensures FileInfoService.IndexOfId(st.files, fileId).Some? && StatusOf(st, fileId) != Completed ==>
      r.1 == Cleanup(st, fileId)
  {
    if FileInfoService.IndexOfId(st.files, fileId).None? then (true, st)
    else if StatusOf(st, fileId) == Completed then (false, st)
    else (true, Cleanup(st, fileId))
  }

  /** After a cancel that went through, the file is gone: a second cancel finds nothing and reports success. */
  lemma CancelTwice(st: Store, fileId: int)
    ensures var (_, st1) := CancelUpload(st, fileId);
      CancelUpload(st, fileId).0 ==> CancelUpload(st1, fileId) == (true, st1)
  {
    var (ok, st1) := CancelUpload(st, fileId);
    if FileInfoService.IndexOfId(st.files, fileId).Some? && StatusOf(st, fileId) != Completed {
      assert FileInfoService.IndexOfId(st1.files, fileId).None?;
    }
  }
}
