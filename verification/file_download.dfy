/**
 * Chunked download (FileDownloadServiceImpl): initDownload fixes a chunk
 * size and the number of chunks, and downloadChunk checks a request
 * against the size recorded at initialisation and works out the bytes to
 * send.  The cached chunk size and file size (kept in Redis by the server)
 * arrive as optional strings; the size of the file on disk is a parameter.
 */
module FileDownload {
  import opened Wrappers
  import opened Text
  import FileInfoService
  import TransferTasks

  const DefaultChunkSize: int := 5 * 1024 * 1024

  /** The size drift, in bytes, a download tolerates between initialisation and a chunk request. */
  const SizeTolerance: int := 1024

  datatype FileStatus = Deleted | NotDeleted

  datatype DownloadError =
    | NoDownloadTask | NoAlgorithm
    | FileNotFound | FileDeleted | SizeChanged | BadChunkNumber | NegativeSpan

  /** `(long) Math.ceil((double) a / b)` for a positive `b`, exact while the quotient is representable. */
  function CeilDiv(a: int, b: int): (q: int)
    requires b > 0
    ensures (q - 1) * b < a <= q * b
  {
    -((-a) / b)
  }

  /** The chunk size a download uses: the requested one when positive, 5 MiB otherwise. */
  function EffectiveChunkSize(requested: Option<int>): (cs: int)
    ensures cs > 0
    ensures requested.Some? && requested.value > 0 ==> cs == requested.value
    ensures (requested.None? || requested.value <= 0) ==> cs == DefaultChunkSize
  {
    if requested.Some? && requested.value > 0 then requested.value else DefaultChunkSize
  }

  datatype DownloadPlan = DownloadPlan(chunkSize: int, totalChunks: int)

  /**
   * initDownload: a missing or DELETED file is an error; otherwise the
   * chunk size and ceil(size / chunkSize) chunks.
   */
  function InitDownload(file: Option<(int, FileStatus)>, requested: Option<int>): (r: Result<DownloadPlan, DownloadError>)
    ensures file.None? ==> r == Failure(FileNotFound)
    ensures file.Some? && file.value.1 == Deleted ==> r == Failure(FileDeleted)
    ensures file.Some? && file.value.1 != Deleted ==>
      r.Success? && r.value.chunkSize == EffectiveChunkSize(requested)
      && (r.value.totalChunks - 1) * r.value.chunkSize < file.value.0 <= r.value.totalChunks * r.value.chunkSize
  {
    if file.None? then Failure(FileNotFound)
    else if file.value.1 == Deleted then Failure(FileDeleted)
    else
      var cs := EffectiveChunkSize(requested);
      Success(DownloadPlan(cs, CeilDiv(file.value.0, cs)))
  }

  /** A cached number as read back: trimmed, parsed, and used only when positive. */
  function CachedPositive(cached: Option<string>): (r: Option<int>)
    ensures r.Some? ==> r.value > 0
    ensures cached.None? ==> r.None?
  {
    if cached.None? then None
    else
      var t := TrimJava(cached.value);
      if t == [] then None
      else match FileInfoService.ParseLong(t)
        case None => None
        case Some(v) => if v > 0 then Some(v) else None
  }

  /** A DOWNLOAD task of the file that has not finished: PENDING, PROCESSING or PAUSED. */
  predicate OpenDownloadTask(t: TransferTasks.Task, fileId: int) {
    t.fileId == fileId && t.taskType == "DOWNLOAD"
    && (t.status == TransferTasks.Pending || t.status == TransferTasks.Processing || t.status == TransferTasks.Paused)
  }

  /**
   * getTaskIdByFileId(fileId, "DOWNLOAD") finds a task exactly when some row
   * is an open download task of the file.  Which of them it picks (the
   * latest started) only decides which cached values are read, and those
   * are parameters here.
   */
  predicate HasDownloadTask(tasks: seq<TransferTasks.Task>, fileId: int) {
    exists k :: 0 <= k < |tasks| && OpenDownloadTask(tasks[k], fileId)
  }

  /** A request for part of a file: the chunk number and the optional explicit byte bounds. */
  datatype ChunkRequest = ChunkRequest(chunkNumber: int, startByte: Option<int>, endByte: Option<int>)

  /** The bytes start..end (inclusive) to send. */
  datatype ByteSpan = ByteSpan(start: int, end: int, length: int)

  /**
   * The byte range of a chunk: the start is the explicit start or
   * chunkNumber * chunkSize, raised to 0; the end is the explicit end or
   * one chunk further, lowered to the last byte of the file.
   */
  function ChunkSpan(req: ChunkRequest, chunkSize: int, currentSize: int): (s: ByteSpan)
    ensures s.start >= 0 && s.end <= currentSize - 1 && s.length == s.end - s.start + 1
    ensures req.startByte.Some? ==> s.start == if req.startByte.value < 0 then 0 else req.startByte.value
    ensures req.endByte.Some? ==> s.end == if req.endByte.value > currentSize - 1 then currentSize - 1 else req.endByte.value
  {
    var start0 := if req.startByte.Some? then req.startByte.value else req.chunkNumber * chunkSize;
    var start := if start0 < 0 then 0 else start0;
    var byDefault := if start + chunkSize - 1 < currentSize - 1 then start + chunkSize - 1 else currentSize - 1;
    var end0 := if req.endByte.Some? then req.endByte.value else byDefault;
    var end := if end0 < currentSize - 1 then end0 else currentSize - 1;
    ByteSpan(start, end, end - start + 1)
  }

  /**
   * downloadChunk's checks and arithmetic: the file must have an open
   * DOWNLOAD task (400 otherwise) and the task a congestion-control
   * algorithm (500 otherwise; `algorithmFound` says whether the manager
   * returned one); then the file must exist in the
   * table and on disk; the chunk size and initial size come from the
   * cache when it holds a positive number (5 MiB and the recorded size
   * otherwise); a size drift over 1024 bytes, or a chunk number outside
   * 0..totalChunks-1, is an error; so is a span that ends before it
   * starts (the read buffer cannot be sized negatively); otherwise the
   * span to send, which may be empty.
   */
  function DownloadChunk(tasks: seq<TransferTasks.Task>, fileId: int, algorithmFound: bool,
                         recordedSize: Option<int>, diskSize: Option<int>, cachedChunkSize: Option<string>,
                         cachedFileSize: Option<string>, req: ChunkRequest): (r: Result<ByteSpan, DownloadError>)
    ensures !HasDownloadTask(tasks, fileId) ==> r == Failure(NoDownloadTask)
    ensures HasDownloadTask(tasks, fileId) && !algorithmFound ==> r == Failure(NoAlgorithm)
    ensures HasDownloadTask(tasks, fileId) && algorithmFound && (recordedSize.None? || diskSize.None?) ==>
      r == Failure(FileNotFound)
    ensures r.Success? ==> HasDownloadTask(tasks, fileId) && algorithmFound && recordedSize.Some? && diskSize.Some?
    ensures r.Success? ==>
      var initial := if CachedPositive(cachedFileSize).Some? then CachedPositive(cachedFileSize).value else recordedSize.value;
      var cs := if CachedPositive(cachedChunkSize).Some? then CachedPositive(cachedChunkSize).value else DefaultChunkSize;
      -SizeTolerance <= diskSize.value - initial <= SizeTolerance
      && 0 <= req.chunkNumber && req.chunkNumber * cs < initial
      && r.value == ChunkSpan(req, cs, diskSize.value) && r.value.length >= 0
    ensures r == Failure(NegativeSpan) ==>
      var cs := if CachedPositive(cachedChunkSize).Some? then CachedPositive(cachedChunkSize).value else DefaultChunkSize;
      ChunkSpan(req, cs, diskSize.value).length < 0
  {
    if !HasDownloadTask(tasks, fileId) then Failure(NoDownloadTask)
    else if !algorithmFound then Failure(NoAlgorithm)
    else if recordedSize.None? || diskSize.None? then Failure(FileNotFound)
    else
      var cs := if CachedPositive(cachedChunkSize).Some? then CachedPositive(cachedChunkSize).value else DefaultChunkSize;
      var initial := if CachedPositive(cachedFileSize).Some? then CachedPositive(cachedFileSize).value else recordedSize.value;
      var drift := diskSize.value - initial;
      if drift > SizeTolerance || -drift > SizeTolerance then Failure(SizeChanged)
      else
        var total := CeilDiv(initial, cs);
        if req.chunkNumber < 0 || req.chunkNumber >= total then Failure(BadChunkNumber)
        else
          ChunkInRange(req.chunkNumber, cs, initial, total);
          var span := ChunkSpan(req, cs, diskSize.value);
          if span.length < 0 then Failure(NegativeSpan) else Success(span)
  }

  /** A chunk number below ceil(size / cs) starts inside the file. */
  lemma ChunkInRange(k: int, cs: int, size: int, total: int)
    requires cs > 0 && total == CeilDiv(size, cs) && 0 <= k < total
    ensures k * cs < size
  {
    assert k <= total - 1;
    assert k * cs <= (total - 1) * cs;
  }

  /** The default span of chunk `k` of a file of `size` bytes. */
  function DefaultSpan(k: int, cs: int, size: int): ByteSpan {
    ChunkSpan(ChunkRequest(k, None, None), cs, size)
  }

  /**
   * Without explicit bounds, every valid chunk of an unchanged file is a
   * non-empty run of at most `cs` bytes starting at k * cs.
   */
  lemma DefaultSpanBounds(k: int, cs: int, size: int)
    requires cs > 0 && 0 <= k < CeilDiv(size, cs)
    ensures var s := DefaultSpan(k, cs, size);
      s.start == k * cs && 1 <= s.length <= cs
  {
    ChunkInRange(k, cs, size, CeilDiv(size, cs));
  }

  /**
   * The default spans tile the file: chunk 0 starts at byte 0, each next
   * chunk starts right after the previous one ends, and the last chunk
   * ends at the last byte.
   */
  lemma DefaultSpansTile(cs: int, size: int)
    requires cs > 0 && size > 0
    ensures DefaultSpan(0, cs, size).start == 0
    ensures forall k :: 0 <= k < CeilDiv(size, cs) - 1 ==> DefaultSpan(k + 1, cs, size).start == DefaultSpan(k, cs, size).end + 1
    ensures DefaultSpan(CeilDiv(size, cs) - 1, cs, size).end == size - 1
  {
    var total := CeilDiv(size, cs);
    forall k | 0 <= k < total - 1 ensures DefaultSpan(k + 1, cs, size).start == DefaultSpan(k, cs, size).end + 1 {
      ChunkInRange(k + 1, cs, size, total);
      assert (k + 1) * cs == k * cs + cs;
    }
    assert (total - 1) * cs + cs == total * cs;
  }

  /**
   * A drift past the tolerance is refused; within it, a chunk number out of
   * range is refused, and a valid chunk is served exactly when its span
   * does not end before it starts.
   */
  lemma DownloadChunkChecks(tasks: seq<TransferTasks.Task>, fileId: int, recordedSize: int, diskSize: int,
                            cachedChunkSize: Option<string>, cachedFileSize: Option<string>, req: ChunkRequest)
    requires HasDownloadTask(tasks, fileId)
    requires cachedFileSize.None? && cachedChunkSize.None?
    ensures (diskSize - recordedSize > SizeTolerance || recordedSize - diskSize > SizeTolerance) ==>
      DownloadChunk(tasks, fileId, true, Some(recordedSize), Some(diskSize), cachedChunkSize, cachedFileSize, req) == Failure(SizeChanged)
    ensures (-SizeTolerance <= diskSize - recordedSize <= SizeTolerance
      && 0 <= req.chunkNumber < CeilDiv(recordedSize, DefaultChunkSize)) ==>
      (DownloadChunk(tasks, fileId, true, Some(recordedSize), Some(diskSize), cachedChunkSize, cachedFileSize, req).Success?
       <==> ChunkSpan(req, DefaultChunkSize, diskSize).length >= 0)
    ensures (-SizeTolerance <= diskSize - recordedSize <= SizeTolerance
      && !(0 <= req.chunkNumber < CeilDiv(recordedSize, DefaultChunkSize))) ==>
      DownloadChunk(tasks, fileId, true, Some(recordedSize), Some(diskSize), cachedChunkSize, cachedFileSize, req) == Failure(BadChunkNumber)
  {
  }

  /**
   * A file that shrank within the tolerance: its last chunk, as numbered
   * at initialisation, now starts past the end of the file, and the
   * request is refused rather than served with a negative length.
   */
  lemma ShrunkFileLastChunkRefused()
    ensures DownloadChunk([OpenTask], 7, true, Some(DefaultChunkSize + 500), Some(DefaultChunkSize - 500), None, None,
                          ChunkRequest(1, None, None)) == Failure(NegativeSpan)
  {
    assert OpenDownloadTask([OpenTask][0], 7);
    var span := ChunkSpan(ChunkRequest(1, None, None), DefaultChunkSize, DefaultChunkSize - 500);
    assert span.start == DefaultChunkSize && span.end == DefaultChunkSize - 501;
  }

  /** A paused download task of file 7, as the examples below use it. */
  const OpenTask: TransferTasks.Task :=
    TransferTasks.Task("t1", 7, Some(1), "DOWNLOAD", TransferTasks.Paused, 40, 0, None)

  /**
   * Once the file's download task has COMPLETED, a chunk request is
   * refused with 400 before the file is even looked up, however valid the
   * chunk is.
   */
  lemma CompletedDownloadRefused(size: int, req: ChunkRequest)
    ensures var done := OpenTask.(status := TransferTasks.Completed);
      DownloadChunk([done], 7, true, Some(size), Some(size), None, None, req) == Failure(NoDownloadTask)
  {
  }
}
