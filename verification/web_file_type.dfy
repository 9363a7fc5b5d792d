/**
 * The browser's file-type table (fileType.js): the category of an
 * extension, its icon, whether it can be previewed, the image/video/audio
 * tests and the category's display name.  A null or empty extension is
 * `None` or "".
 */
module WebFileType {
  import opened Wrappers
  import opened Text

  /** The categories of FILE_TYPES, in the table's order, and the fallback. */
  datatype FileType =
    | Image | Video | Audio | Document | Spreadsheet | Presentation | Archive | Code | Executable | Other

  const ImageExts: seq<string> := ["jpg", "jpeg", "png", "gif", "bmp", "webp", "svg", "ico", "tiff"]
  const VideoExts: seq<string> := ["mp4", "avi", "mkv", "mov", "wmv", "flv", "webm", "mpeg", "m4v"]
  const AudioExts: seq<string> := ["mp3", "wav", "ogg", "flac", "m4a", "aac", "wma", "ape"]
  const DocumentExts: seq<string> := ["doc", "docx", "pdf", "txt", "rtf", "odt"]
  const SpreadsheetExts: seq<string> := ["xls", "xlsx", "csv", "ods"]
  const PresentationExts: seq<string> := ["ppt", "pptx", "odp"]
  const ArchiveExts: seq<string> := ["zip", "rar", "7z", "tar", "gz", "bz2"]
  const CodeExts: seq<string> :=
    ["js", "ts", "vue", "jsx", "tsx", "java", "py", "c", "cpp", "h", "css", "scss", "less",
     "html", "xml", "json", "yaml", "yml", "sql", "sh", "bat", "md"]
  const ExecutableExts: seq<string> := ["exe", "msi", "dmg", "app", "apk", "deb", "rpm"]

  /** The extension list of a category; the fallback has none. */
  function Extensions(t: FileType): seq<string> {
    match t
    case Image => ImageExts
    case Video => VideoExts
    case Audio => AudioExts
    case Document => DocumentExts
    case Spreadsheet => SpreadsheetExts
    case Presentation => PresentationExts
    case Archive => ArchiveExts
    case Code => CodeExts
    case Executable => ExecutableExts
    case Other => []
  }

  /** The lower-cased extension, "" for null. */
  function Normal(extendName: Option<string>): string {
    if extendName.None? then "" else Lower(extendName.value)
  }

  /** The first category of the table, in order, whose list holds the lower-cased extension. */
  function TypeOfLower(ext: string): FileType {
    if ext in ImageExts then Image
    else if ext in VideoExts then Video
    else if ext in AudioExts then Audio
    else if ext in DocumentExts then Document
    else if ext in SpreadsheetExts then Spreadsheet
    else if ext in PresentationExts then Presentation
    else if ext in ArchiveExts then Archive
    else if ext in CodeExts then Code
    else if ext in ExecutableExts then Executable
    else Other
  }

  /** getFileType: 'other' for a null or empty extension, otherwise the first listing category. */
  function GetFileType(extendName: Option<string>): (t: FileType)
    ensures extendName.None? || extendName.value == [] ==> t == Other
    ensures t != Other ==> Normal(extendName) in Extensions(t)
  {
    if extendName.None? || extendName.value == [] then Other
    else TypeOfLower(Lower(extendName.value))
  }

  /** The fallback is given exactly to extensions no category lists. */
  lemma GetFileTypeOther(extendName: Option<string>)
    ensures GetFileType(extendName) == Other <==> forall u :: Normal(extendName) !in Extensions(u)
  {
    var e := Normal(extendName);
    if extendName.None? || extendName.value == [] {
      assert e == [];
      EmptyListedNowhere();
    } else if TypeOfLower(e) == Other {
      UnlistedIsOther(e);
    }
  }

  /** An extension the classification leaves as other is in no list. */
  lemma UnlistedIsOther(e: string)
    requires TypeOfLower(e) == Other
    ensures forall u :: e !in Extensions(u)
  {
    forall u ensures e !in Extensions(u) {
    }
  }

  /** No category lists the empty extension. */
  lemma EmptyListedNowhere()
    ensures forall u :: "" !in Extensions(u)
  {
    forall u ensures "" !in Extensions(u) {
      var xs := Extensions(u);
      assert forall k :: 0 <= k < |xs| ==> |xs[k]| > 0;
    }
  }

  /** A category's extension, in any letter case, is given that category: the lists are disjoint. */
  lemma GetFileTypeExact(extendName: Option<string>, t: FileType)
    requires t != Other
    ensures GetFileType(extendName) == t <==> Normal(extendName) in Extensions(t)
  {
    var e := Normal(extendName);
    if e in Extensions(t) {
      EmptyListedNowhere();
      assert e != "";
      TypeOfListed(e, t);
    }
  }

  /** An extension of a list is classified as that list's category: no earlier list holds it. */
  lemma TypeOfListed(ext: string, t: FileType)
    requires ext in Extensions(t)
    ensures TypeOfLower(ext) == t
  {
    match t
    case Image =>
    case Video => VideoNotEarlier(ext);
    case Audio => AudioNotEarlier(ext);
    case Document => DocumentNotEarlier(ext);
    case Spreadsheet => SpreadsheetNotEarlier(ext);
    case Presentation => PresentationNotEarlier(ext);
    case Archive => ArchiveNotEarlier(ext);
    case Code => CodeNotEarlier(ext);
    case Executable => ExecutableNotEarlier(ext);
  }

  lemma VideoNotEarlier(ext: string)
    requires ext in VideoExts
    ensures ext !in ImageExts
  {
  }

  lemma AudioNotEarlier(ext: string)
    requires ext in AudioExts
    ensures ext !in ImageExts && ext !in VideoExts
  {
  }

  lemma DocumentNotEarlier(ext: string)
    requires ext in DocumentExts
    ensures ext !in ImageExts && ext !in VideoExts && ext !in AudioExts
  {
  }

  lemma SpreadsheetNotEarlier(ext: string)
    requires ext in SpreadsheetExts
    ensures ext !in ImageExts && ext !in VideoExts && ext !in AudioExts && ext !in DocumentExts
  {
  }

  lemma PresentationNotEarlier(ext: string)
    requires ext in PresentationExts
    ensures ext !in ImageExts && ext !in VideoExts && ext !in AudioExts && ext !in DocumentExts
    ensures ext !in SpreadsheetExts
  {
  }

  lemma ArchiveNotEarlier(ext: string)
    requires ext in ArchiveExts
    ensures ext !in ImageExts && ext !in VideoExts && ext !in AudioExts && ext !in DocumentExts
    ensures ext !in SpreadsheetExts && ext !in PresentationExts
  {
  }

  lemma CodeNotEarlier(ext: string)
    requires ext in CodeExts
    ensures ext !in ImageExts && ext !in VideoExts && ext !in AudioExts && ext !in DocumentExts
    ensures ext !in SpreadsheetExts && ext !in PresentationExts && ext !in ArchiveExts
  {
    CodeNotImage(ext);
    CodeNotVideo(ext);
    CodeNotAudio(ext);
    CodeNotDocument(ext);
    CodeNotOffice(ext);
  }

  lemma CodeNotImage(ext: string)
    requires ext in CodeExts
    ensures ext !in ImageExts
  {
  }

  lemma CodeNotVideo(ext: string)
    requires ext in CodeExts
    ensures ext !in VideoExts
  {
  }

  lemma CodeNotAudio(ext: string)
    requires ext in CodeExts
    ensures ext !in AudioExts
  {
  }

  lemma CodeNotDocument(ext: string)
    requires ext in CodeExts
    ensures ext !in DocumentExts
  {
  }

  lemma CodeNotOffice(ext: string)
    requires ext in CodeExts
    ensures ext !in SpreadsheetExts && ext !in PresentationExts && ext !in ArchiveExts
  {
  }

  lemma ExecutableNotEarlier(ext: string)
    requires ext in ExecutableExts
    ensures ext !in ImageExts && ext !in VideoExts && ext !in AudioExts && ext !in DocumentExts
    ensures ext !in SpreadsheetExts && ext !in PresentationExts && ext !in ArchiveExts && ext !in CodeExts
  {
    ExecutableNotCode(ext);
  }

  lemma ExecutableNotCode(ext: string)
    requires ext in ExecutableExts
    ensures ext !in CodeExts
  {
  }

  /* ------------------------------------------------------------------ icons */

  /** The icon of each category. */
  function CategoryIcon(t: FileType): string {
    match t
    case Image => "/icons/image.svg"
    case Video => "/icons/video.svg"
    case Audio => "/icons/audio.svg"
    case Document => "/icons/document.svg"
    case Spreadsheet => "/icons/excel.svg"
    case Presentation => "/icons/ppt.svg"
    case Archive => "/icons/zip.svg"
    case Code => "/icons/code.svg"
    case Executable => "/icons/file.svg"
    case Other => "/icons/file.svg"
  }

  /**
   * getFileIconByType: pdf, txt, md and doc/docx have icons of their own;
   * every other extension takes its category's icon.
   */
  function GetFileIconByType(extendName: Option<string>): (icon: string)
    ensures Normal(extendName) == "pdf" ==> icon == "/icons/pdf.svg"
    ensures Normal(extendName) == "txt" ==> icon == "/icons/txt.svg"
    ensures Normal(extendName) == "md" ==> icon == "/icons/markdown.svg"
    ensures Normal(extendName) in ["doc", "docx"] ==> icon == "/icons/word.svg"
    ensures Normal(extendName) !in ["pdf", "txt", "md", "doc", "docx"] ==> icon == CategoryIcon(GetFileType(extendName))
  {
    var ext := Normal(extendName);
    if ext == "pdf" then "/icons/pdf.svg"
    else if ext == "txt" then "/icons/txt.svg"
    else if ext == "md" then "/icons/markdown.svg"
    else if ext in ["doc", "docx"] then "/icons/word.svg"
    else CategoryIcon(GetFileType(extendName))
  }

  /** The overrides only ever replace a document or code icon: "md" is code in the table, the rest documents. */
  lemma IconOverridesAreDocumentsOrCode(extendName: Option<string>)
    requires Normal(extendName) in ["pdf", "txt", "md", "doc", "docx"]
    ensures GetFileType(extendName) == (if Normal(extendName) == "md" then Code else Document)
  {
    var e := Normal(extendName);
    if e == "md" {
      TypeOfListed(e, Code);
    } else {
      TypeOfListed(e, Document);
    }
    assert extendName.Some? && extendName.value != [];
  }

  /* ---------------------------------------------------------------- preview */

  const TextExts: seq<string> := ["txt", "md", "json", "xml", "html", "css", "js", "ts", "vue", "java", "py", "sql"]

  /** canPreviewFile: images, videos and audio, pdf, and the listed text formats. */
  function CanPreviewFile(extendName: Option<string>): (ok: bool)
    ensures ok <==> (GetFileType(extendName) in {Image, Video, Audio}
                     || Normal(extendName) == "pdf" || Normal(extendName) in TextExts)
  {
    var t := GetFileType(extendName);
    var ext := Normal(extendName);
    if t == Image || t == Video || t == Audio then true
    else if ext == "pdf" then true
    else ext in TextExts
  }

  /** Exactly the media extensions, pdf and the text list can be previewed, whatever their letter case. */
  lemma CanPreviewExact(extendName: Option<string>)
    ensures CanPreviewFile(extendName) <==>
      Normal(extendName) in ImageExts + VideoExts + AudioExts + ["pdf"] + TextExts
  {
    var e := Normal(extendName);
    if e in ImageExts {
      GetFileTypeExact(extendName, Image);
    } else if e in VideoExts {
      GetFileTypeExact(extendName, Video);
    } else if e in AudioExts {
      GetFileTypeExact(extendName, Audio);
    } else {
      GetFileTypeExact(extendName, Image);
      GetFileTypeExact(extendName, Video);
      GetFileTypeExact(extendName, Audio);
    }
  }

  /* ------------------------------------------------------------ media tests */

  /** isImageFile, isVideoFile, isAudioFile: the category is image, video, audio. */
  function IsImageFile(extendName: Option<string>): (b: bool)
    ensures b <==> Normal(extendName) in ImageExts
  {
    GetFileTypeExact(extendName, Image);
    GetFileType(extendName) == Image
  }

  function IsVideoFile(extendName: Option<string>): (b: bool)
    ensures b <==> Normal(extendName) in VideoExts
  {
    GetFileTypeExact(extendName, Video);
    GetFileType(extendName) == Video
  }

  function IsAudioFile(extendName: Option<string>): (b: bool)
    ensures b <==> Normal(extendName) in AudioExts
  {
    GetFileTypeExact(extendName, Audio);
    GetFileType(extendName) == Audio
  }

  /** At most one of the three media tests holds for an extension. */
  lemma MediaTestsExclusive(extendName: Option<string>)
    ensures !(IsImageFile(extendName) && IsVideoFile(extendName))
    ensures !(IsImageFile(extendName) && IsAudioFile(extendName))
    ensures !(IsVideoFile(extendName) && IsAudioFile(extendName))
  {
  }

  /* ------------------------------------------------------------------ names */

  /** The display name of each category. */
  function TypeName(t: FileType): string {
    match t
    case Image => "图片"
    case Video => "视频"
    case Audio => "音频"
    case Document => "文档"
    case Spreadsheet => "表格"
    case Presentation => "演示文稿"
    case Archive => "压缩包"
    case Code => "代码"
    case Executable => "可执行文件"
    case Other => "其他"
  }

  /** getFileTypeName: the name of the extension's category, "其他" when none lists it. */
  function GetFileTypeName(extendName: Option<string>): (name: string)
    ensures name != []
    ensures (forall u :: Normal(extendName) !in Extensions(u)) ==> name == "其他"
  {
    GetFileTypeOther(extendName);
    TypeName(GetFileType(extendName))
  }

  /** No two categories share a display name, so the name tells the category back. */
  lemma TypeNameInjective(t: FileType, u: FileType)
    requires TypeName(t) == TypeName(u)
    ensures t == u
  {
    match t
    case Image => assert TypeName(t)[0] == '图';
    case Video => assert TypeName(t)[0] == '视';
    case Audio => assert TypeName(t)[0] == '音';
    case Document => assert TypeName(t)[0] == '文';
    case Spreadsheet => assert TypeName(t)[0] == '表';
    case Presentation => assert TypeName(t)[0] == '演';
    case Archive => assert TypeName(t)[0] == '压';
    case Code => assert TypeName(t)[0] == '代';
    case Executable => assert TypeName(t)[0] == '可';
    case Other => assert TypeName(t)[0] == '其';
  }
}
