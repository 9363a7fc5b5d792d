/**
 * FileTypeUtil of the transfer server: the file-type category of an
 * extension, the extension set of a category, and the category filter of
 * the file list.  `null` is `None`.
 */
module FileTypeUtil {
  import opened Wrappers
  import opened Text

  const TypeAll: int := 0
  const TypeImage: int := 1
  const TypeDocument: int := 2
  const TypeVideo: int := 3
  const TypeAudio: int := 4
  const TypeOther: int := 5

  const ImageExtensions: set<string> :=
    {"jpg", "jpeg", "png", "gif", "bmp", "webp", "svg", "ico", "tiff", "tif", "raw", "psd"}

  const DocumentExtensions: set<string> :=
    {"doc", "docx", "xls", "xlsx", "ppt", "pptx", "pdf", "txt", "md", "rtf",
     "odt", "ods", "odp", "csv", "json", "xml", "html", "htm", "css", "js",
     "java", "py", "c", "cpp", "h", "sql", "vue", "ts", "tsx", "jsx"}

  const VideoExtensions: set<string> :=
    {"mp4", "avi", "mkv", "mov", "wmv", "flv", "webm", "m4v", "mpeg", "mpg", "3gp", "rm", "rmvb"}

  const AudioExtensions: set<string> :=
    {"mp3", "wav", "flac", "aac", "ogg", "wma", "m4a", "ape", "aiff", "mid", "midi"}

  /** No extension belongs to two categories. */
  lemma CategoriesDisjoint()
    ensures ImageExtensions * DocumentExtensions == {}
    ensures ImageExtensions * VideoExtensions == {}
    ensures ImageExtensions * AudioExtensions == {}
    ensures DocumentExtensions * VideoExtensions == {}
    ensures DocumentExtensions * AudioExtensions == {}
    ensures VideoExtensions * AudioExtensions == {}
  {
    ImageNotDocument();
    ImageNotVideo();
    ImageNotAudio();
    DocumentNotVideo();
    DocumentNotAudio();
    VideoNotAudio();
  }

  lemma ImageNotDocument()
    ensures ImageExtensions * DocumentExtensions == {}
  {
    forall e | e in ImageExtensions ensures e !in DocumentExtensions {
    }
  }

  lemma ImageNotVideo()
    ensures ImageExtensions * VideoExtensions == {}
  {
    forall e | e in ImageExtensions ensures e !in VideoExtensions {
    }
  }

  lemma ImageNotAudio()
    ensures ImageExtensions * AudioExtensions == {}
  {
    forall e | e in ImageExtensions ensures e !in AudioExtensions {
    }
  }

  lemma DocumentNotVideo()
    ensures DocumentExtensions * VideoExtensions == {}
  {
    forall e | e in DocumentExtensions ensures e !in VideoExtensions {
    }
  }

  lemma DocumentNotAudio()
    ensures DocumentExtensions * AudioExtensions == {}
  {
    forall e | e in DocumentExtensions ensures e !in AudioExtensions {
    }
  }

  lemma VideoNotAudio()
    ensures VideoExtensions * AudioExtensions == {}
  {
    forall e | e in VideoExtensions ensures e !in AudioExtensions {
    }
  }

  /** The extension as looked up: lower-cased, then trimmed. */
  function Normalize(ext: string): string {
    TrimJava(Lower(ext))
  }

  /** getExtensionsByType: the category's set, empty for ALL, OTHER and unknown codes. */
  function GetExtensionsByType(fileType: int): (r: set<string>)
    ensures !(TypeImage <= fileType <= TypeAudio) ==> r == {}
    ensures fileType == TypeImage ==> r == ImageExtensions
    ensures fileType == TypeDocument ==> r == DocumentExtensions
    ensures fileType == TypeVideo ==> r == VideoExtensions
    ensures fileType == TypeAudio ==> r == AudioExtensions
  {
    if fileType == TypeImage then ImageExtensions
    else if fileType == TypeDocument then DocumentExtensions
    else if fileType == TypeVideo then VideoExtensions
    else if fileType == TypeAudio then AudioExtensions
    else {}
  }

  /**
   * getFileType: OTHER for a missing or empty extension; otherwise the
   * first of image, document, video, audio whose set holds the normalised
   * extension, and OTHER when none does.
   */
  function GetFileType(ext: Option<string>): (t: int)
    ensures TypeImage <= t <= TypeOther
    ensures (ext.None? || ext.value == "") ==> t == TypeOther
  {
    if ext.None? || ext.value == "" then TypeOther
    else
      var e := Normalize(ext.value);
      if e in ImageExtensions then TypeImage
      else if e in DocumentExtensions then TypeDocument
      else if e in VideoExtensions then TypeVideo
      else if e in AudioExtensions then TypeAudio
      else TypeOther
  }

  /**
   * Because the sets are disjoint, the order of the tests does not matter:
   * a non-empty extension has category `k` of 1..4 exactly when its
   * normalised form is in that category's set, and OTHER exactly when it is
   * in none.
   */
  lemma GetFileTypeBySet(ext: string, k: int)
    requires ext != "" && TypeImage <= k <= TypeAudio
    ensures GetFileType(Some(ext)) == k <==> Normalize(ext) in GetExtensionsByType(k)
    ensures GetFileType(Some(ext)) == TypeOther <==>
      forall j | TypeImage <= j <= TypeAudio :: Normalize(ext) !in GetExtensionsByType(j)
  {
    CategoriesDisjoint();
    var e := Normalize(ext);
    assert e in ImageExtensions ==> e !in DocumentExtensions && e !in VideoExtensions && e !in AudioExtensions;
    assert e in DocumentExtensions ==> e !in VideoExtensions && e !in AudioExtensions;
    assert e in VideoExtensions ==> e !in AudioExtensions;
    if GetFileType(Some(ext)) != TypeOther {
      var j := GetFileType(Some(ext));
      assert e in GetExtensionsByType(j);
    }
  }

  /**
   * matchesType: ALL matches everything, OTHER matches what getFileType
   * calls OTHER, any other code matches its own category (so an unknown
   * code matches nothing).
   */
  function MatchesType(ext: Option<string>, fileType: int): (r: bool)
    ensures fileType == TypeAll ==> r
    ensures fileType == TypeOther ==> (r <==> GetFileType(ext) == TypeOther)
    ensures (fileType < TypeAll || fileType > TypeOther) ==> !r
  {
    if fileType == TypeAll then true
    else if fileType == TypeOther then GetFileType(ext) == TypeOther
    else GetFileType(ext) == fileType
  }

  /** For the four real categories, matching is membership of the normalised extension in the category's set. */
  lemma MatchesTypeBySet(ext: Option<string>, fileType: int)
    requires TypeImage <= fileType <= TypeAudio
    ensures MatchesType(ext, fileType) <==> ext.Some? && ext.value != "" && Normalize(ext.value) in GetExtensionsByType(fileType)
  {
    if ext.Some? && ext.value != "" {
      GetFileTypeBySet(ext.value, fileType);
    }
  }
}
