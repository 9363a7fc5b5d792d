/**
 * The browser's file helpers (file.js) and display formatters (format.js):
 * cutting a file into upload chunks, the progress percentage, the
 * extension of a file name and its icon category, and the duration and
 * speed texts.
 *
 * Sizes, counts and seconds are integers; JavaScript's `%` truncates
 * toward zero and is written with JavaRem, `Math.floor(a / b)` with a
 * positive divisor is Dafny's `/`.
 */
module WebFileUtil {
  import opened Wrappers
  import opened Text
  import CongestionCommon

  /* ------------------------------------------------------------- chunking */

  /**
   * The chunk size createFileChunks uses when its caller passes none; the
   * functions below take the size as an ordinary parameter instead of a
   * defaulted one, and callers that omit it pass this constant.
   */
  const DefaultChunkSize: int := 2 * 1024 * 1024

  /** A chunk: the half-open byte range [start, end) of the file, its size and position. */
  datatype Chunk = Chunk(start: int, end: int, size: int, index: int)

  /** The sum of the chunk sizes. */
  function TotalSize(chunks: seq<Chunk>): int {
    if chunks == [] then 0 else TotalSize(chunks[..|chunks| - 1]) + chunks[|chunks| - 1].size
  }

  /** ceil(size / chunkSize) for a positive chunk size, 0 for an empty file. */
  function ChunkCount(fileSize: int, chunkSize: int): (n: nat)
    requires chunkSize > 0
    ensures fileSize > 0 ==> (n - 1) * chunkSize < fileSize <= n * chunkSize
    ensures fileSize <= 0 ==> n == 0
  {
    if fileSize <= 0 then 0 else (fileSize + chunkSize - 1) / chunkSize
  }

  /**
   * createFileChunks: chunk i covers [i*cs, min((i+1)*cs, size)), so the
   * chunks tile the file in order, the last may be short, their sizes add
   * up to the file size, and an empty file has none.  A non-positive chunk
   * size never advances the cursor, so the source loops for ever there.
   */
  method CreateFileChunks(fileSize: int, chunkSize: int) returns (chunks: seq<Chunk>)
    requires chunkSize > 0
    ensures |chunks| == ChunkCount(fileSize, chunkSize)
    ensures forall i :: 0 <= i < |chunks| ==>
      chunks[i].index == i && chunks[i].start == i * chunkSize
      && chunks[i].end == CongestionCommon.Min((i + 1) * chunkSize, fileSize)
      && chunks[i].size == chunks[i].end - chunks[i].start
      && 0 < chunks[i].size <= chunkSize
    ensures forall i :: 0 <= i < |chunks| - 1 ==> chunks[i].end == chunks[i + 1].start
    ensures |chunks| > 0 ==> chunks[0].start == 0 && chunks[|chunks| - 1].end == fileSize
    ensures TotalSize(chunks) == if fileSize > 0 then fileSize else 0
  {
    chunks := [];
    var cur := 0;
    while cur < fileSize
      invariant cur == |chunks| * chunkSize
      invariant cur > 0 ==> cur - chunkSize < fileSize
      invariant forall i :: 0 <= i < |chunks| ==> chunks[i] == ChunkAt(i, fileSize, chunkSize)
      invariant TotalSize(chunks) == if cur == 0 then 0 else CongestionCommon.Min(cur, fileSize)
      decreases fileSize - cur
    {
      var size := CongestionCommon.Min(chunkSize, fileSize - cur);
      var c := Chunk(cur, cur + size, size, |chunks|);
      assert (|chunks| + 1) * chunkSize == cur + chunkSize;
      assert c == ChunkAt(|chunks|, fileSize, chunkSize);
      assert (chunks + [c])[..|chunks|] == chunks;
      chunks := chunks + [c];
      cur := cur + chunkSize;
    }
    assert |chunks| > 0 ==> (|chunks| - 1) * chunkSize < fileSize <= |chunks| * chunkSize;
    ChunkCountUnique(fileSize, chunkSize, |chunks|);
    ChunksTile(chunks, fileSize, chunkSize);
  }

  /** The chunks 0..n-1 of a file needing n chunks tile it. */
  lemma ChunksTile(chunks: seq<Chunk>, fileSize: int, chunkSize: int)
    requires chunkSize > 0 && |chunks| == ChunkCount(fileSize, chunkSize)
    requires forall i :: 0 <= i < |chunks| ==> chunks[i] == ChunkAt(i, fileSize, chunkSize)
    ensures forall i :: 0 <= i < |chunks| ==>
      chunks[i].index == i && chunks[i].start == i * chunkSize
      && chunks[i].end == CongestionCommon.Min((i + 1) * chunkSize, fileSize)
      && chunks[i].size == chunks[i].end - chunks[i].start
      && 0 < chunks[i].size <= chunkSize
    ensures forall i :: 0 <= i < |chunks| - 1 ==> chunks[i].end == chunks[i + 1].start
    ensures |chunks| > 0 ==> chunks[0].start == 0 && chunks[|chunks| - 1].end == fileSize
  {
    var n := |chunks|;
    forall i | 0 <= i < n
      ensures chunks[i].index == i && chunks[i].start == i * chunkSize
        && chunks[i].end == CongestionCommon.Min((i + 1) * chunkSize, fileSize)
        && chunks[i].size == chunks[i].end - chunks[i].start
        && 0 < chunks[i].size <= chunkSize
    {
      ChunkAtWithin(i, n, fileSize, chunkSize);
    }
    forall i | 0 <= i < n - 1 ensures chunks[i].end == chunks[i + 1].start {
      ChunkAtWithin(i, n, fileSize, chunkSize);
    }
  }

  /** Chunk i of a file cut into pieces of chunkSize bytes. */
  function ChunkAt(i: int, fileSize: int, chunkSize: int): Chunk {
    var end := CongestionCommon.Min((i + 1) * chunkSize, fileSize);
    Chunk(i * chunkSize, end, end - i * chunkSize, i)
  }

  /** Every chunk before the count starts inside the file and is non-empty, at most chunkSize long; all but the last are full. */
  lemma ChunkAtWithin(i: int, n: int, fileSize: int, chunkSize: int)
    requires chunkSize > 0 && 0 <= i < n && (n - 1) * chunkSize < fileSize
    ensures var c := ChunkAt(i, fileSize, chunkSize);
      c.start < fileSize && 0 < c.size <= chunkSize
      && (i < n - 1 ==> c.end == (i + 1) * chunkSize)
  {
    CongestionCommon.MulMono(i, n - 1, chunkSize);
    assert (i + 1) * chunkSize == i * chunkSize + chunkSize;
    if i < n - 1 {
      CongestionCommon.MulMono(i + 1, n - 1, chunkSize);
    }
  }

  /** The only n with (n-1)*cs < size <= n*cs is the ceiling. */
  lemma ChunkCountUnique(fileSize: int, chunkSize: int, n: nat)
    requires chunkSize > 0
    requires fileSize > 0 ==> (n - 1) * chunkSize < fileSize <= n * chunkSize
    requires fileSize <= 0 ==> n == 0
    ensures n == ChunkCount(fileSize, chunkSize)
  {
    if fileSize > 0 {
      var m := ChunkCount(fileSize, chunkSize);
      if n < m {
        assert n * chunkSize <= (m - 1) * chunkSize by { CongestionCommon.MulMono(n, m - 1, chunkSize); }
        assert false;
      } else if n > m {
        assert m * chunkSize <= (n - 1) * chunkSize by { CongestionCommon.MulMono(m, n - 1, chunkSize); }
        assert false;
      }
    }
  }

  /* -------------------------------------------------------------- progress */

  /** Math.floor(a / b) for a non-zero divisor of either sign. */
  function FloorDiv(a: int, b: int): (q: int)
    requires b != 0
    ensures b > 0 ==> q * b <= a < q * b + b
  {
    if b > 0 then a / b else (-a) / (-b)
  }

  /**
   * formatProgress: 0 for a total of 0, otherwise floor(current / total * 100),
   * computed here exactly, without the floating-point rounding of the browser.
   */
  function FormatProgress(current: int, total: int): (p: int)
    ensures total == 0 ==> p == 0
    ensures total > 0 ==> p * total <= current * 100 < p * total + total
  {
    if total == 0 then 0 else FloorDiv(current * 100, total)
  }

  /** For work between none and all of a positive total, the percentage is 0..100, and 100 exactly when done. */
  lemma FormatProgressBounds(current: int, total: int)
    requires 0 <= current <= total && total > 0
    ensures 0 <= FormatProgress(current, total) <= 100
    ensures FormatProgress(current, total) == 100 <==> current == total
  {
    var p := FormatProgress(current, total);
    if p < 0 {
      CongestionCommon.MulMono(p + 1, 0, total);
      assert false;
    }
    if p > 100 {
      CongestionCommon.MulMono(101, p, total);
      assert false;
    }
    if current == total && p < 100 {
      CongestionCommon.MulMono(p + 1, 100, total);
      assert false;
    }
    if current < total && p == 100 {
      assert false;
    }
  }

  /** More work done never shows less progress. */
  lemma FormatProgressMonotone(c1: int, c2: int, total: int)
    requires c1 <= c2 && total > 0
    ensures FormatProgress(c1, total) <= FormatProgress(c2, total)
  {
    var p1, p2 := FormatProgress(c1, total), FormatProgress(c2, total);
    if p1 > p2 {
      assert (p2 + 1) * total == p2 * total + total;
      CongestionCommon.MulMono(p2 + 1, p1, total);
    }
  }

  /* ------------------------------------------------------------- extension */

  /** getFileExtension: the lower-cased text after the last dot, "" when there is no dot. */
  function GetFileExtension(fileName: string): (ext: string)
    ensures '.' !in ext
    ensures '.' !in fileName ==> ext == ""
    ensures |ext| < |fileName| || ext == ""
  {
    var i := LastIndexOf(fileName, '.');
    if i > -1 then Lower(fileName[i + 1..]) else ""
  }

  /** A name ending in "." + e, e without a dot, has extension lower(e), whatever comes before. */
  lemma GetFileExtensionOfSuffix(stem: string, e: string)
    requires '.' !in e
    ensures GetFileExtension(stem + "." + e) == Lower(e)
  {
    var s := stem + "." + e;
    var i := LastIndexOf(s, '.');
    assert s[|stem|] == '.';
    assert s[i + 1..] == e;
  }

  /* ------------------------------------------------------------- icon type */

  const ImageExts: seq<string> := ["jpg", "jpeg", "png", "gif", "bmp", "svg", "webp"]
  const VideoExts: seq<string> := ["mp4", "avi", "mkv", "mov", "wmv", "flv"]
  const AudioExts: seq<string> := ["mp3", "wav", "flac", "aac", "m4a"]
  const DocExts: seq<string> := ["doc", "docx", "pdf", "txt", "md"]
  const CodeExts: seq<string> := ["js", "java", "py", "cpp", "c", "html", "css", "vue"]
  const ArchiveExts: seq<string> := ["zip", "rar", "7z", "tar", "gz"]

  datatype IconType = ImageIcon | VideoIcon | AudioIcon | DocumentIcon | CodeIcon | ArchiveIcon | FileIcon

  /** The extension list behind each icon category; the fallback has none. */
  function IconExts(t: IconType): seq<string> {
    match t
    case ImageIcon => ImageExts
    case VideoIcon => VideoExts
    case AudioIcon => AudioExts
    case DocumentIcon => DocExts
    case CodeIcon => CodeExts
    case ArchiveIcon => ArchiveExts
    case FileIcon => []
  }

  /** getFileIconType of an extension: the first list, in the order image, video, audio, document, code, archive. */
  function IconTypeOfExt(ext: string): IconType {
    if ext in ImageExts then ImageIcon
    else if ext in VideoExts then VideoIcon
    else if ext in AudioExts then AudioIcon
    else if ext in DocExts then DocumentIcon
    else if ext in CodeExts then CodeIcon
    else if ext in ArchiveExts then ArchiveIcon
    else FileIcon
  }

  /** getFileIconType of a file name. */
  function GetFileIconType(fileName: string): (t: IconType)
    ensures t != FileIcon ==> GetFileExtension(fileName) in IconExts(t)
    ensures t == FileIcon <==> forall u :: GetFileExtension(fileName) !in IconExts(u)
  {
    IconTypeOfExt(GetFileExtension(fileName))
  }

  /** The six lists share no extension, so the first match is the only match. */
  lemma IconListsDisjoint(ext: string, t: IconType, u: IconType)
    requires ext in IconExts(t) && ext in IconExts(u)
    ensures t == u
  {
    IconOfListed(ext, t);
    IconOfListed(ext, u);
  }

  /** An extension of a list is shown with that list's icon: no earlier list claims it. */
  lemma IconOfListed(ext: string, t: IconType)
    requires ext in IconExts(t)
    ensures IconTypeOfExt(ext) == t
  {
    match t
    case ImageIcon =>
    case VideoIcon => VideoNotEarlier(ext);
    case AudioIcon => AudioNotEarlier(ext);
    case DocumentIcon => DocumentNotEarlier(ext);
    case CodeIcon => CodeNotEarlier(ext);
    case ArchiveIcon => ArchiveNotEarlier(ext);
  }

  lemma VideoNotEarlier(ext: string)
    requires ext in VideoExts
    ensures ext !in ImageExts
  {
  }

  lemma AudioNotEarlier(ext: string)
    requires ext in AudioExts
    ensures ext !in ImageExts && ext !in VideoExts
  {
  }

  lemma DocumentNotEarlier(ext: string)
    requires ext in DocExts
    ensures ext !in ImageExts && ext !in VideoExts && ext !in AudioExts
  {
  }

  lemma CodeNotEarlier(ext: string)
    requires ext in CodeExts
    ensures ext !in ImageExts && ext !in VideoExts && ext !in AudioExts && ext !in DocExts
  {
  }

  lemma ArchiveNotEarlier(ext: string)
    requires ext in ArchiveExts
    ensures ext !in ImageExts && ext !in VideoExts && ext !in AudioExts && ext !in DocExts && ext !in CodeExts
  {
  }

  /** A file is shown with an icon category exactly when its extension is in that category's list. */
  lemma IconTypeExact(fileName: string, t: IconType)
    requires t != FileIcon
    ensures GetFileIconType(fileName) == t <==> GetFileExtension(fileName) in IconExts(t)
  {
    var e := GetFileExtension(fileName);
    if e in IconExts(t) {
      IconListsDisjoint(e, t, GetFileIconType(fileName));
    }
  }

  /* ------------------------------------------------------ duration (file.js) */

  /** The hours, minutes and seconds of a duration, as file.js splits it. */
  datatype Hms = Hms(h: int, m: int, s: int)

  function SplitSeconds(seconds: int): (t: Hms)
    ensures seconds >= 0 ==> t == Hms(seconds / 3600, seconds % 3600 / 60, seconds % 60)
  {
    if seconds >= 0 then
      CongestionCommon.JavaDivNonNegative(seconds, 3600);
      CongestionCommon.JavaDivNonNegative(seconds, 60);
      Hms(seconds / 3600, CongestionCommon.JavaRem(seconds, 3600) / 60, CongestionCommon.JavaRem(seconds, 60))
    else
      Hms(seconds / 3600, CongestionCommon.JavaRem(seconds, 3600) / 60, CongestionCommon.JavaRem(seconds, 60))
  }

  /** For a non-negative duration the three units recompose it, with minutes and seconds below 60. */
  lemma SplitSecondsRecompose(seconds: int)
    requires seconds >= 0
    ensures var t := SplitSeconds(seconds);
      t.h * 3600 + t.m * 60 + t.s == seconds && t.h >= 0 && 0 <= t.m < 60 && 0 <= t.s < 60
  {
    FormatDurationUnitsRecompose(seconds);
  }

  /** Decimal text of an integer (JavaScript template interpolation). */
  function Str(n: int): string {
    IntToString(n)
  }

  /**
   * formatDuration of file.js: "h小时m分s秒" with hours, "m分s秒" with
   * minutes only, "s秒" otherwise; leading zero units are left out.
   */
  function FileFormatDuration(seconds: int): (r: string)
    ensures seconds >= 3600 ==> r == Str(seconds / 3600) + "小时" + Str((seconds % 3600) / 60) + "分" + Str(seconds % 60) + "秒"
    ensures 60 <= seconds < 3600 ==> r == Str(seconds / 60) + "分" + Str(seconds % 60) + "秒"
    ensures 0 <= seconds < 60 ==> r == Str(seconds) + "秒"
  {
    var t := SplitSeconds(seconds);
    if t.h > 0 then Str(t.h) + "小时" + Str(t.m) + "分" + Str(t.s) + "秒"
    else if t.m > 0 then Str(t.m) + "分" + Str(t.s) + "秒"
    else Str(t.s) + "秒"
  }

  /* ---------------------------------------------------- duration (format.js) */

  /**
   * formatDuration of format.js: "-" for a missing, zero or negative
   * duration; "s秒" below a minute, "m分s秒" below an hour, "h时m分s秒"
   * otherwise (every unit written, zero included, once hours appear).
   */
  function FormatDuration(seconds: Option<int>): (r: string)
    ensures seconds.None? || seconds.value <= 0 ==> r == "-"
    ensures seconds.Some? && 0 < seconds.value < 60 ==> r == Str(seconds.value) + "秒"
    ensures seconds.Some? && 60 <= seconds.value < 3600 ==>
      r == Str(seconds.value / 60) + "分" + Str(seconds.value % 60) + "秒"
    ensures seconds.Some? && seconds.value >= 3600 ==>
      r == Str(seconds.value / 3600) + "时" + Str(seconds.value % 3600 / 60) + "分" + Str(seconds.value % 60) + "秒"
  {
    if seconds.None? || seconds.value == 0 || seconds.value < 0 then "-"
    else
      var n := seconds.value;
      if n < 60 then Str(n) + "秒"
      else if n < 3600 then Str(n / 60) + "分" + Str(CongestionCommon.JavaRem(n, 60)) + "秒"
      else Str(n / 3600) + "时" + Str(CongestionCommon.JavaRem(n, 3600) / 60) + "分" + Str(CongestionCommon.JavaRem(n, 60)) + "秒"
  }

  /** The units format.js prints for a positive duration recompose it, minutes and seconds below 60. */
  lemma FormatDurationUnitsRecompose(n: int)
    requires n >= 0
    ensures n / 3600 * 3600 + n % 3600 / 60 * 60 + n % 60 == n
    ensures 0 <= n % 3600 / 60 < 60 && 0 <= n % 60 < 60
    ensures n < 3600 ==> n / 60 * 60 + n % 60 == n && n / 60 < 60
  {
  }

  /* ---------------------------------------------------------------- speed */

  /** 1024 to the power `u`. */
  function Pow1024(u: nat): (p: int)
    ensures p >= 1
  {
    if u == 0 then 1 else 1024 * Pow1024(u - 1)
  }

  /**
   * The unit formatFileSize of format.js picks by thresholds: bytes below
   * 1 KiB, then KB, MB, and GB for everything from 1 GiB on.  The unit is
   * the largest power of 1024 not above the size, capped at GB.
   */
  function SizeUnit(size: int): (u: nat)
    ensures u <= 3
    ensures 0 < u ==> Pow1024(u) <= size
    ensures u < 3 ==> size < Pow1024(u + 1)
  {
    if size < 1024 then 0
    else if size < 1024 * 1024 then 1
    else if size < 1024 * 1024 * 1024 then 2
    else 3
  }

  const UnitNames: seq<string> := [" B", " KB", " MB", " GB"]

  /**
   * formatFileSize of format.js: "-" for null; a size below 1 KiB as the
   * integer followed by " B"; otherwise the size scaled to its unit and
   * printed by `toFixed(2)`, which is the parameter `fixed`, followed by
   * the unit.
   */
  function FormatFileSize(size: Option<int>, fixed: string): (r: string)
    ensures size.None? <==> r == "-"
    ensures size.Some? ==> EndsWith(r, UnitNames[SizeUnit(size.value)])
    ensures size.Some? && 0 <= size.value < 1024 ==>
      AllDigits(r[..|r| - 2]) && DigitsValue(r[..|r| - 2]) == size.value
    ensures size.Some? && size.value >= 1024 ==> r[..|r| - |UnitNames[SizeUnit(size.value)]|] == fixed
  {
    match size
    case None => "-"
    case Some(n) =>
      var u := SizeUnit(n);
      if u == 0 then
        if n >= 0 then NatToStringRoundTrip(n); NatToString(n) + " B" else IntToString(n) + " B"
      else fixed + UnitNames[u]
  }

  /**
   * formatSpeed of format.js: "0 B/s" for a missing or non-positive speed,
   * otherwise formatFileSize of the speed followed by "/s".
   */
  function FormatSpeed(speed: Option<int>, fixed: string): (r: string)
    ensures EndsWith(r, "/s")
    ensures speed.None? || speed.value <= 0 ==> r == "0 B/s"
    ensures speed.Some? && speed.value > 0 ==>
      EndsWith(r, UnitNames[SizeUnit(speed.value)] + "/s") && r[..|r| - 2] == FormatFileSize(speed, fixed)
  {
    if speed.None? || speed.value <= 0 then "0 B/s" else FormatFileSize(speed, fixed) + "/s"
  }
}
