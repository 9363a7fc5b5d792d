/**
 * The decisions of FileUploadServiceImpl: what initUpload answers for a
 * file hash (instant upload, resume, or a new upload with its chunk
 * records), the RTT a chunk reports to the congestion algorithm, the loss
 * events a client's retry count stands for, and which chunks are logged.
 *
 * The file found by hash, the chunk numbers cached in Redis and those
 * recorded COMPLETED in the database are parameters, as are the fresh file
 * id and the server's own processing time.
 */
module FileUpload {
  import opened Wrappers
  import opened Text
  import FileInfoService
  import FileMerge
  import Reno
  import CongestionCommon

  type UploadStatus = FileMerge.UploadStatus
  type ChunkStatus = FileMerge.ChunkStatus

  /* -------------------------------------------------------------- initUpload */

  datatype ChunkRecord = ChunkRecord(chunkNumber: int, status: ChunkStatus)

  /** The chunk records of a new upload: numbers 0..total-1, all PENDING. */
  method NewChunkRecords(totalChunks: int) returns (chunks: seq<ChunkRecord>)
    ensures |chunks| == if totalChunks > 0 then totalChunks else 0
    ensures forall i :: 0 <= i < |chunks| ==> chunks[i] == ChunkRecord(i, FileMerge.ChunkPending)
  {
    chunks := [];
    var i := 0;
    while i < totalChunks
      invariant 0 <= i <= (if totalChunks > 0 then totalChunks else 0)
      invariant |chunks| == i
      invariant forall j :: 0 <= j < i ==> chunks[j] == ChunkRecord(j, FileMerge.ChunkPending)
    {
      chunks := chunks + [ChunkRecord(i, FileMerge.ChunkPending)];
      i := i + 1;
    }
  }

  /** The upload's file row: name, extension ("" when none), size, hash, folder (null as 0), status. */
  datatype NewFile = NewFile(fileName: string, extendName: string, fileSize: int, fileHash: string,
                             folderId: int, status: UploadStatus)

  datatype InitResult =
    | QuickUpload(fileId: int)
    | Resume(fileId: int, uploaded: set<int>)
    | Fresh(fileId: int, file: NewFile, chunks: seq<ChunkRecord>)

  /** skipUpload and quickUpload of the response, which are always equal. */
  predicate SkipsUpload(r: InitResult) {
    r.QuickUpload?
  }

  /** The upload's request: file name, size, hash, target folder and the client's chunk count. */
  datatype InitRequest = InitRequest(fileName: Option<string>, fileSize: int, fileHash: string,
                                     folderId: Option<int>, totalChunks: int)

  /**
   * extractExtendName of the upload service: "" for a null or empty name
   * and when the last dot is first or last, otherwise the lower-cased text
   * after it.
   */
  function UploadExtendName(fileName: Option<string>): (r: string)
    ensures forall k :: 0 <= k < |r| ==> r[k] != '.'
  {
    if fileName.None? || fileName.value == [] then ""
    else
      var s := fileName.value;
      var dot := LastIndexOf(s, '.');
      if dot > 0 && dot < |s| - 1 then Lower(s[dot + 1..]) else ""
  }

  /** The upload service's extension is the file service's, with "" where that one is null. */
  lemma UploadExtendNameAgrees(fileName: Option<string>)
    ensures UploadExtendName(fileName) ==
      match FileInfoService.ExtractExtendName(fileName)
      case None => ""
      case Some(e) => e
  {
  }

  /**
   * initUpload: a file with this hash already COMPLETED is an instant
   * upload; one still UPLOADING resumes with the chunk numbers cached in
   * Redis, or, when the cache is empty, those the database has as
   * COMPLETED; anything else creates a new UPLOADING file with PENDING
   * chunk records 0..totalChunks-1.
   */
  method InitUpload(existing: Option<(int, UploadStatus)>, cachedChunks: set<int>, completedInDb: seq<int>,
                    req: InitRequest, newId: int) returns (r: InitResult)
    ensures SkipsUpload(r) <==> existing.Some? && existing.value.1 == FileMerge.Completed
    ensures existing.Some? && existing.value.1 == FileMerge.Completed ==> r == QuickUpload(existing.value.0)
    ensures existing.Some? && existing.value.1 == FileMerge.Uploading ==>
      r.Resume? && r.fileId == existing.value.0
      && r.uploaded == (if cachedChunks != {} then cachedChunks else set k | k in completedInDb)
    ensures r.Fresh? <==> existing.None? || existing.value.1 == FileMerge.OtherStatus
    ensures r.Fresh? ==> (r.fileId == newId
      && r.file == NewFile(if req.fileName.Some? then req.fileName.value else "", UploadExtendName(req.fileName),
                           req.fileSize, req.fileHash, if req.folderId.Some? then req.folderId.value else 0,
                           FileMerge.Uploading)
      && |r.chunks| == (if req.totalChunks > 0 then req.totalChunks else 0)
      && forall i :: 0 <= i < |r.chunks| ==> r.chunks[i] == ChunkRecord(i, FileMerge.ChunkPending))
  {
    if existing.Some? && existing.value.1 == FileMerge.Completed {
      return QuickUpload(existing.value.0);
    }
    if existing.Some? && existing.value.1 == FileMerge.Uploading {
      var uploaded := if cachedChunks != {} then cachedChunks else set k | k in completedInDb;
      return Resume(existing.value.0, uploaded);
    }
    var file := NewFile(if req.fileName.Some? then req.fileName.value else "", UploadExtendName(req.fileName),
                        req.fileSize, req.fileHash, if req.folderId.Some? then req.folderId.value else 0,
                        FileMerge.Uploading);
    var chunks := NewChunkRecords(req.totalChunks);
    return Fresh(newId, file, chunks);
  }

  /* ------------------------------------------------------------------- RTT */

  const RttMsMin: int := 1
  const RttMsMax: int := 60000

  /**
   * calculateRtt: a positive client RTT, clamped to 1..60000 ms; otherwise
   * the server's own processing time.
   */
  function CalculateRtt(clientRttMs: Option<int>, serverProcessingMs: int): (rtt: int)
    ensures clientRttMs.Some? && clientRttMs.value > 0 ==> RttMsMin <= rtt <= RttMsMax
    ensures clientRttMs.Some? && RttMsMin <= clientRttMs.value <= RttMsMax ==> rtt == clientRttMs.value
    ensures clientRttMs.Some? && clientRttMs.value > RttMsMax ==> rtt == RttMsMax
    ensures (clientRttMs.None? || clientRttMs.value <= 0) ==> rtt == serverProcessingMs
  {
    if clientRttMs.Some? && clientRttMs.value > 0 then
      CongestionCommon.Max(RttMsMin, CongestionCommon.Min(RttMsMax, clientRttMs.value))
    else serverProcessingMs
  }

  /* ---------------------------------------------------------- retry losses */

  const RetryCountCap: int := 10

  /**
   * handleRetryLossStatistics: a client's retry count r stands for
   * min(r, 10) losses of the chunk's size, reported to the algorithm; none
   * for a null or non-positive count or without an algorithm.
   */
  function RetryLosses(retryCount: Option<int>, hasAlgorithm: bool, chunkSize: int): (events: seq<Reno.Event>)
    ensures (retryCount.None? || retryCount.value <= 0 || !hasAlgorithm) ==> events == []
    ensures retryCount.Some? && retryCount.value > 0 && hasAlgorithm ==>
      |events| == CongestionCommon.Min(retryCount.value, RetryCountCap)
    ensures forall k :: 0 <= k < |events| ==> events[k] == Reno.Loss(chunkSize)
    ensures |events| <= RetryCountCap
  {
    if retryCount.None? || retryCount.value <= 0 || !hasAlgorithm then []
    else Repeat(Reno.Loss(chunkSize), CongestionCommon.Min(retryCount.value, RetryCountCap))
  }

  function Repeat(e: Reno.Event, n: nat): (r: seq<Reno.Event>)
    ensures |r| == n && forall k :: 0 <= k < n ==> r[k] == e
  {
    if n == 0 then [] else [e] + Repeat(e, n - 1)
  }

  /**
   * Feeding a Reno window the retry losses keeps it inside its invariant,
   * and once at least one loss is reported the window is at least the
   * minimum window.
   */
  lemma RetryLossesKeepRenoSound(s: Reno.Reno, cfg: CongestionCommon.Config, retryCount: Option<int>, chunkSize: int)
    requires Reno.Invariant(s, cfg)
    ensures Reno.Invariant(Reno.Run(s, cfg, RetryLosses(retryCount, true, chunkSize)), cfg)
    ensures retryCount.Some? && retryCount.value > 0 ==>
      Reno.Run(s, cfg, RetryLosses(retryCount, true, chunkSize)).cwnd >= cfg.minCwnd
  {
    Reno.RunKeepsInvariant(s, cfg, RetryLosses(retryCount, true, chunkSize));
  }
}
