/**
 * The file-management rules of FileInfoServiceImpl: splitting a name into
 * base and extension, numbering a duplicate as `base(n).ext`, renaming and
 * moving a file inside the file table, the extension and MIME type of a
 * name, and the byte range of a `Range: bytes=a-b` request.
 *
 * The file table is a sequence of records; the mapper query for files of
 * the same name in a folder is the exact-name filter `Duplicates`.  The
 * current user, read from a thread-local context in the server, is a
 * parameter.  Java `int` and `long` limits are explicit where parsing can
 * overflow.
 */
module FileInfoService {
  import opened Wrappers
  import opened Text
  import FileTypeUtil

  const IntMax: int := 0x7fff_ffff
  const IntMin: int := -0x8000_0000
  const LongMax: int := 0x7fff_ffff_ffff_ffff

  /* ---------------------------------------------------------------- names */

  /**
   * The base name and the extension (dot included): the split is at the
   * last dot, and only when that dot is neither the first nor the last
   * character; otherwise the extension is empty.
   */
  function SplitName(name: string): (r: (string, string))
    ensures r.0 + r.1 == name
    ensures r.1 == [] <==> (|name| < 2 || '.' !in name[1..] || name[|name| - 1] == '.')
    ensures r.1 != [] ==> |r.0| >= 1 && |r.1| >= 2 && r.1[0] == '.' && '.' !in r.1[1..]
  {
    var dot := LastIndexOf(name, '.');
    if 0 < dot < |name| - 1 then
      assert name[dot + 1..] == name[dot..][1..];
      (name[..dot], name[dot..])
    else
      assert dot <= 0 && |name| >= 2 ==> forall k :: 0 <= k < |name[1..]| ==> name[1..][k] == name[k + 1];
      (name, [])
  }

  /**
   * `name` has the form base + "(" + digits + ")" + ext: exactly the names
   * the pattern `^\Qbase\E\((\d+)\)\Qext\E$` matches (`\d` is ASCII).
   */
  predicate IsNumberedOf(name: string, base: string, ext: string) {
    |name| >= |base| + |ext| + 3
    && name[..|base|] == base && name[|base|] == '('
    && name[|name| - |ext|..] == ext && name[|name| - |ext| - 1] == ')'
    && AllDigits(name[|base| + 1..|name| - |ext| - 1])
  }

  /** The number inside the parentheses, as `Integer.parseInt` would read it were there no overflow. */
  function NumberOf(name: string, base: string, ext: string): nat
    requires IsNumberedOf(name, base, ext)
  {
    DigitsValue(name[|base| + 1..|name| - |ext| - 1])
  }

  datatype NameError = NumberFormat

  /**
   * The loop of generateUniqueFileName over the duplicates' names: the
   * largest number among the names of the form base(n)ext, 0 when there is
   * none; a number beyond the `int` range makes `Integer.parseInt` throw.
   */
  function MaxNumber(names: seq<string>, base: string, ext: string): (r: Result<nat, NameError>)
    ensures r.Failure? <==>
      exists i :: 0 <= i < |names| && IsNumberedOf(names[i], base, ext) && NumberOf(names[i], base, ext) > IntMax
    ensures r.Success? ==> r.value <= IntMax
    ensures r.Success? ==>
      forall i :: 0 <= i < |names| && IsNumberedOf(names[i], base, ext) ==> NumberOf(names[i], base, ext) <= r.value
    ensures r.Success? && r.value > 0 ==>
      exists i :: 0 <= i < |names| && IsNumberedOf(names[i], base, ext) && NumberOf(names[i], base, ext) == r.value
    decreases |names|
  {
    if names == [] then Success(0)
    else
      var init := names[..|names| - 1];
      var last := names[|names| - 1];
      assert forall i :: 0 <= i < |init| ==> init[i] == names[i];
      match MaxNumber(init, base, ext)
      case Failure(e) => Failure(e)
      case Success(m) =>
        if !IsNumberedOf(last, base, ext) then Success(m)
        else if NumberOf(last, base, ext) > IntMax then Failure(NumberFormat)
        else if m >= NumberOf(last, base, ext) then Success(m)
        else Success(NumberOf(last, base, ext))
  }

  /** `maxNumber + 1` in Java `int` arithmetic: the largest `int` wraps to the smallest. */
  function IntSucc(n: int): (r: int)
    requires IntMin <= n <= IntMax
    ensures IntMin <= r <= IntMax
    ensures n < IntMax ==> r == n + 1
  {
    if n == IntMax then IntMin else n + 1
  }

  /** generateUniqueFileName: base + "(" + (maxNumber + 1) + ")" + ext. */
  function GenerateUniqueFileName(original: string, names: seq<string>): (r: Result<string, NameError>)
    ensures r.Failure? <==> MaxNumber(names, SplitName(original).0, SplitName(original).1).Failure?
  {
    var (base, ext) := SplitName(original);
    match MaxNumber(names, base, ext)
    case Failure(e) => Failure(e)
    case Success(m) => Success(base + "(" + IntToString(IntSucc(m)) + ")" + ext)
  }

  /** A name built as base + "(" + digits + ")" + ext is numbered, with the digits' value. */
  lemma BuiltIsNumbered(base: string, digits: string, ext: string)
    requires |digits| >= 1 && AllDigits(digits)
    ensures var name := base + "(" + digits + ")" + ext;
      IsNumberedOf(name, base, ext) && NumberOf(name, base, ext) == DigitsValue(digits)
  {
    BuiltShape(base, digits, ext);
  }

  /** The pieces of base + "(" + digits + ")" + ext sit where IsNumberedOf looks for them. */
  lemma BuiltShape(base: string, digits: string, ext: string)
    ensures var name := base + "(" + digits + ")" + ext;
      |name| == |base| + |digits| + |ext| + 2
      && name[..|base|] == base && name[|base|] == '('
      && name[|name| - |ext|..] == ext && name[|name| - |ext| - 1] == ')'
      && name[|base| + 1..|name| - |ext| - 1] == digits
  {
    var p := base + "(" + digits + ")";
    var name := p + ext;
    assert name[..|p|] == p;
    assert name[|p|..] == ext;
    assert p[..|base|] == base;
    assert p[|base| + 1..|p| - 1] == digits;
  }

  /** The name generateUniqueFileName builds from a successful maximum. */
  lemma GeneratedShape(original: string, names: seq<string>)
    requires MaxNumber(names, SplitName(original).0, SplitName(original).1).Success?
    ensures GenerateUniqueFileName(original, names)
      == Success(SplitName(original).0 + "(" + IntToString(IntSucc(MaxNumber(names, SplitName(original).0, SplitName(original).1).value)) + ")" + SplitName(original).1)
  {
  }

  /** A numbered name whose number exceeds every number in use is none of the names. */
  lemma NumberedAboveAllIsNew(names: seq<string>, base: string, ext: string, name: string)
    requires IsNumberedOf(name, base, ext)
    requires forall i :: 0 <= i < |names| && IsNumberedOf(names[i], base, ext) ==> NumberOf(names[i], base, ext) < NumberOf(name, base, ext)
    ensures forall i :: 0 <= i < |names| ==> names[i] != name
  {
  }

  /**
   * Below the `int` limit the generated name is new: it is of the form
   * base(n)ext with n one more than every number already in use, so it is
   * none of the names it was generated against, and it is longer than the
   * original.
   */
  lemma UniqueNameIsFresh(original: string, names: seq<string>)
    requires MaxNumber(names, SplitName(original).0, SplitName(original).1).Success?
    requires MaxNumber(names, SplitName(original).0, SplitName(original).1).value < IntMax
    ensures GenerateUniqueFileName(original, names).Success?
    ensures IsNumberedOf(GenerateUniqueFileName(original, names).value, SplitName(original).0, SplitName(original).1)
    ensures NumberOf(GenerateUniqueFileName(original, names).value, SplitName(original).0, SplitName(original).1)
      == MaxNumber(names, SplitName(original).0, SplitName(original).1).value + 1
    ensures |GenerateUniqueFileName(original, names).value| > |original|
    ensures forall i :: 0 <= i < |names| ==> names[i] != GenerateUniqueFileName(original, names).value
  {
    var base := SplitName(original).0;
    var ext := SplitName(original).1;
    var m := MaxNumber(names, base, ext).value;
    var digits := NatToString(m + 1);
    NatToStringRoundTrip(m + 1);
    BuiltIsNumbered(base, digits, ext);
    GeneratedShape(original, names);
    var name := base + "(" + digits + ")" + ext;
    assert GenerateUniqueFileName(original, names) == Success(name);
    NumberedAboveAllIsNew(names, base, ext, name);
  }

  /** The original name itself is never of the form base(n)ext of its own split: it is too short. */
  lemma OriginalNotNumbered(original: string)
    ensures !IsNumberedOf(original, SplitName(original).0, SplitName(original).1)
  {
  }

  /* ------------------------------------------------------------ the table */

  /** One row of the file table; a missing folder id is `None`. */
  datatype FileRecord = FileRecord(id: int, fileName: string, folderId: Option<int>, userId: int)

  /** A missing folder id stands for the root folder 0. */
  function FolderOf(f: FileRecord): int {
    if f.folderId.None? then 0 else f.folderId.value
  }

  /**
   * The files named `name` in folder `folder` of user `userId`, without the
   * file `exclude` when one is given: selectByFileNameAndFolder followed by
   * the removal of the file itself.
   */
  function Duplicates(files: seq<FileRecord>, name: string, folder: int, userId: int, exclude: Option<int>): (r: seq<FileRecord>)
    ensures forall k :: 0 <= k < |r| ==>
      r[k].fileName == name && FolderOf(r[k]) == folder && r[k].userId == userId
      && (exclude.Some? ==> r[k].id != exclude.value)
    ensures r == [] <==> forall k :: 0 <= k < |files| ==>
      !(files[k].fileName == name && FolderOf(files[k]) == folder && files[k].userId == userId
        && (exclude.Some? ==> files[k].id != exclude.value))
    decreases |files|
  {
    if files == [] then []
    else
      var f := files[0];
      var rest := Duplicates(files[1..], name, folder, userId, exclude);
      assert forall k :: 1 <= k < |files| ==> files[k] == files[1..][k - 1];
      if f.fileName == name && FolderOf(f) == folder && f.userId == userId
        && (exclude.Some? ==> f.id != exclude.value)
      then [f] + rest
      else rest
  }

  function NamesOf(files: seq<FileRecord>): (r: seq<string>)
    ensures |r| == |files| && forall k :: 0 <= k < |files| ==> r[k] == files[k].fileName
  {
    if files == [] then [] else [files[0].fileName] + NamesOf(files[1..])
  }

  /**
   * checkAndRenameDuplicateFileForRename (exclude = the file being renamed)
   * and checkAndRenameDuplicateFileForCopy / ForUnzip (exclude = None): the
   * name itself when no such file exists, otherwise a numbered name.
   */
  function CheckAndRename(files: seq<FileRecord>, name: string, folder: int, userId: int, exclude: Option<int>): (r: Result<string, NameError>)
  {
    var dups := Duplicates(files, name, folder, userId, exclude);
    if dups == [] then Success(name) else GenerateUniqueFileName(name, NamesOf(dups))
  }

  /** Names that all equal one name hold no numbered form of it, so their maximum is 0. */
  lemma MaxOfSameNames(names: seq<string>, name: string)
    requires forall i :: 0 <= i < |names| ==> names[i] == name
    ensures MaxNumber(names, SplitName(name).0, SplitName(name).1) == Success(0)
  {
    OriginalNotNumbered(name);
  }

  /**
   * Because the duplicates all carry the name itself, which is never of the
   * form base(n)ext, the check never fails and yields either the name
   * unchanged (exactly when no other file of that name is in the folder) or
   * base(1)ext.
   */
  lemma CheckAndRenameOutcome(files: seq<FileRecord>, name: string, folder: int, userId: int, exclude: Option<int>)
    ensures CheckAndRename(files, name, folder, userId, exclude).Success?
    ensures CheckAndRename(files, name, folder, userId, exclude).value == name
      <==> Duplicates(files, name, folder, userId, exclude) == []
    ensures CheckAndRename(files, name, folder, userId, exclude).value != name ==>
      CheckAndRename(files, name, folder, userId, exclude).value == SplitName(name).0 + "(1)" + SplitName(name).1
  {
    var dups := Duplicates(files, name, folder, userId, exclude);
    if dups != [] {
      var names := NamesOf(dups);
      MaxOfSameNames(names, name);
      GeneratedShape(name, names);
      assert IntToString(IntSucc(0)) == "1";
      var numbered := SplitName(name).0 + "(1)" + SplitName(name).1;
      assert SplitName(name).0 + "(" + "1" + ")" + SplitName(name).1 == numbered;
      assert CheckAndRename(files, name, folder, userId, exclude) == Success(numbered);
      assert |numbered| > |name|;
    }
  }

  /** The position of the file with id `id`, the first when ids repeat. */
  function IndexOfId(files: seq<FileRecord>, id: int): (r: Option<nat>)
    ensures r.Some? ==> r.value < |files| && files[r.value].id == id
    ensures r.None? <==> forall k :: 0 <= k < |files| ==> files[k].id != id
    ensures r.Some? ==> forall k :: 0 <= k < r.value ==> files[k].id != id
  {
    if files == [] then None
    else if files[0].id == id then Some(0)
    else match IndexOfId(files[1..], id)
      case None => None
      case Some(k) => Some(k + 1)
  }

  datatype FileError = BlankName | FileNotFound | TargetFolderNotFound | BadNumber

  /**
   * renameFile: a missing or blank (after `trim`) new name is rejected, as
   * is an unknown file; otherwise the file takes the new name, numbered if
   * another file of that name is in its folder.  The new name is stored
   * untrimmed.
   */
  function RenameFile(files: seq<FileRecord>, id: int, newName: Option<string>, userId: int): (r: Result<seq<FileRecord>, FileError>)
    ensures (newName.None? || TrimJava(newName.value) == []) ==> r == Failure(BlankName)
    ensures newName.Some? && TrimJava(newName.value) != [] && IndexOfId(files, id).None? ==> r == Failure(FileNotFound)
    ensures r.Success? ==> newName.Some? && IndexOfId(files, id).Some?
    ensures r.Success? ==>
      var i := IndexOfId(files, id).value;
      |r.value| == |files|
      && (forall k :: 0 <= k < |files| && k != i ==> r.value[k] == files[k])
      && r.value[i] == files[i].(fileName := r.value[i].fileName)
  {
    if newName.None? || TrimJava(newName.value) == [] then Failure(BlankName)
    else match IndexOfId(files, id)
      case None => Failure(FileNotFound)
      case Some(i) =>
        var f := files[i];
        match CheckAndRename(files, newName.value, FolderOf(f), userId, Some(id))
        case Failure(_) => Failure(BadNumber)
        case Success(finalName) => Success(files[i := f.(fileName := finalName)])
  }

  /**
   * A rename with a non-blank name of an existing file succeeds; the file
   * gets exactly the requested name when no other file of that name shares
   * its folder, and the numbered form otherwise.
   */
  lemma RenameFileResult(files: seq<FileRecord>, id: int, newName: string, userId: int)
    requires TrimJava(newName) != [] && IndexOfId(files, id).Some?
    ensures var i := IndexOfId(files, id).value;
      var r := RenameFile(files, id, Some(newName), userId);
      var (base, ext) := SplitName(newName);
      r.Success?
      && (r.value[i].fileName == newName <==> Duplicates(files, newName, FolderOf(files[i]), userId, Some(id)) == [])
      && (r.value[i].fileName != newName ==> r.value[i].fileName == base + "(1)" + ext)
  {
    var i := IndexOfId(files, id).value;
    CheckAndRenameOutcome(files, newName, FolderOf(files[i]), userId, Some(id));
  }

  /** A null or zero target folder id means the root folder 0. */
  function NormalizeTarget(target: Option<int>): (r: int)
    ensures (target.None? || target.value == 0) <==> r == 0
    ensures r != 0 ==> target == Some(r)
  {
    if target.None? || target.value == 0 then 0 else target.value
  }

  /**
   * moveFile: an unknown file, or a positive target that is not an existing
   * folder, is rejected; otherwise the file moves to the normalised target,
   * renamed against the target's files only when the folder changes.
   */
  function MoveFile(files: seq<FileRecord>, folders: set<int>, id: int, target: Option<int>, userId: int): (r: Result<seq<FileRecord>, FileError>)
    ensures IndexOfId(files, id).None? ==> r == Failure(FileNotFound)
    ensures IndexOfId(files, id).Some? && NormalizeTarget(target) > 0 && NormalizeTarget(target) !in folders ==>
      r == Failure(TargetFolderNotFound)
    ensures r.Success? ==> IndexOfId(files, id).Some?
    ensures r.Success? ==>
      var i := IndexOfId(files, id).value;
      |r.value| == |files|
      && (forall k :: 0 <= k < |files| && k != i ==> r.value[k] == files[k])
      && r.value[i].id == files[i].id && r.value[i].userId == files[i].userId
      && r.value[i].folderId == Some(NormalizeTarget(target))
      && (FolderOf(files[i]) == NormalizeTarget(target) ==> r.value[i].fileName == files[i].fileName)
  {
    match IndexOfId(files, id)
    case None => Failure(FileNotFound)
    case Some(i) =>
      var f := files[i];
      var dest := NormalizeTarget(target);
      if dest > 0 && dest !in folders then Failure(TargetFolderNotFound)
      else
        var renamed :=
          if FolderOf(f) != dest then CheckAndRename(files, f.fileName, dest, userId, Some(id))
          else Success(f.fileName);
        match renamed
        case Failure(_) => Failure(BadNumber)
        case Success(finalName) => Success(files[i := f.(fileName := finalName, folderId := Some(dest))])
  }

  /**
   * A move into a different folder keeps the name unless a file of that
   * name is already there, in which case the file arrives as base(1)ext.
   */
  lemma MoveFileRenamesOnClash(files: seq<FileRecord>, folders: set<int>, id: int, target: Option<int>, userId: int)
    requires IndexOfId(files, id).Some?
    requires NormalizeTarget(target) <= 0 || NormalizeTarget(target) in folders
    requires FolderOf(files[IndexOfId(files, id).value]) != NormalizeTarget(target)
    ensures var i := IndexOfId(files, id).value;
      var name := files[i].fileName;
      var r := MoveFile(files, folders, id, target, userId);
      var (base, ext) := SplitName(name);
      r.Success?
      && (r.value[i].fileName == name <==> Duplicates(files, name, NormalizeTarget(target), userId, Some(id)) == [])
      && (r.value[i].fileName != name ==> r.value[i].fileName == base + "(1)" + ext)
  {
    var i := IndexOfId(files, id).value;
    CheckAndRenameOutcome(files, files[i].fileName, NormalizeTarget(target), userId, Some(id));
  }

  /* ---------------------------------------------------- extension and MIME */

  /**
   * extractExtendName: null for a missing or empty name and for a name
   * without a dot strictly inside it; otherwise the lower-cased text after
   * the last dot.
   */
  function ExtractExtendName(name: Option<string>): (r: Option<string>)
    ensures r.Some? <==> name.Some? && SplitName(name.value).1 != []
    ensures r.Some? ==> r.value == Lower(SplitName(name.value).1[1..])
    ensures r.Some? ==> |r.value| >= 1 && forall k :: 0 <= k < |r.value| ==> r.value[k] != '.' && !IsAsciiUpper(r.value[k])
  {
    if name.None? || name.value == [] then None
    else
      var s := name.value;
      var dot := LastIndexOf(s, '.');
      if 0 < dot < |s| - 1 then
        assert s[dot + 1..] == SplitName(s).1[1..];
        Some(Lower(s[dot + 1..]))
      else None
  }

  const OctetStream: string := "application/octet-stream"

  /** The MIME types getContentType knows, grouped as its switch groups them (keys in lower case). */
  const ImageTypes: map<string, string> := map[
    "jpg" := "image/jpeg", "jpeg" := "image/jpeg", "png" := "image/png", "gif" := "image/gif",
    "bmp" := "image/bmp", "webp" := "image/webp", "svg" := "image/svg+xml"]

  const VideoTypes: map<string, string> := map["mp4" := "video/mp4", "webm" := "video/webm"]

  const AudioTypes: map<string, string> := map["mp3" := "audio/mpeg", "wav" := "audio/wav", "ogg" := "audio/ogg"]

  const TextAndAppTypes: map<string, string> := map[
    "pdf" := "application/pdf", "txt" := "text/plain", "md" := "text/plain",
    "html" := "text/html", "css" := "text/css", "js" := "application/javascript",
    "json" := "application/json"]

  const ContentTypes: map<string, string> := ImageTypes + VideoTypes + AudioTypes + TextAndAppTypes

  /** getContentType: the type of the lower-cased extension, octet-stream for null and unknown ones. */
  function GetContentType(ext: Option<string>): (r: string)
    ensures ext.None? ==> r == OctetStream
    ensures ext.Some? && Lower(ext.value) !in ContentTypes ==> r == OctetStream
  {
    if ext.None? then OctetStream
    else
      var e := Lower(ext.value);
      if e in ContentTypes then ContentTypes[e] else OctetStream
  }

  /** Lower-casing twice is lower-casing once. */
  lemma LowerIdempotent(s: string)
    ensures Lower(Lower(s)) == Lower(s)
  {
    assert forall i :: 0 <= i < |s| ==> Lower(Lower(s))[i] == Lower(s)[i];
  }

  /** The lookup ignores case: an extension and its lower-cased form have the same type. */
  lemma ContentTypeIgnoresCase(ext: string)
    ensures GetContentType(Some(ext)) == GetContentType(Some(Lower(ext)))
  {
    LowerIdempotent(ext);
  }

  /** No known extension maps to octet-stream, so the default is reached exactly for null and unknown extensions. */
  lemma ContentTypeDefaultExactly(ext: Option<string>)
    ensures GetContentType(ext) == OctetStream <==> ext.None? || Lower(ext.value) !in ContentTypes
  {
    KnownTypesAreShort();
  }

  /** Every known type is shorter than the default, so none of them is the default. */
  lemma KnownTypesAreShort()
    ensures forall e | e in ContentTypes :: |ContentTypes[e]| < |OctetStream|
  {
    var n := |OctetStream|;
    TableShort(ImageTypes, 24);
    TableShort(VideoTypes, 24);
    TableShort(AudioTypes, 24);
    TableShort(TextAndAppTypes, 24);
    UnionShort(ImageTypes, VideoTypes, n);
    UnionShort(ImageTypes + VideoTypes, AudioTypes, n);
    UnionShort(ImageTypes + VideoTypes + AudioTypes, TextAndAppTypes, n);
  }

  /** Each group of the MIME table holds only types shorter than the default. */
  lemma TableShort(m: map<string, string>, n: nat)
    requires m == ImageTypes || m == VideoTypes || m == AudioTypes || m == TextAndAppTypes
    requires n == |OctetStream|
    ensures forall e | e in m :: |m[e]| < n
  {
    if m == ImageTypes {
    } else if m == VideoTypes {
    } else if m == AudioTypes {
    } else {
    }
  }

  /** A union of two tables whose values are all shorter than n has only such values. */
  lemma UnionShort(m1: map<string, string>, m2: map<string, string>, n: nat)
    requires forall e | e in m1 :: |m1[e]| < n
    requires forall e | e in m2 :: |m2[e]| < n
    ensures forall e | e in m1 + m2 :: |(m1 + m2)[e]| < n
  {
  }

  /**
   * The MIME table agrees with the file-type categories: every extension
   * served as image/, video/ or audio/ is in that category's extension set.
   */
  lemma ContentTypeAgreesWithCategory()
    ensures forall e | e in ImageTypes :: StartsWith(ImageTypes[e], "image/") && e in FileTypeUtil.ImageExtensions
    ensures forall e | e in VideoTypes :: StartsWith(VideoTypes[e], "video/") && e in FileTypeUtil.VideoExtensions
    ensures forall e | e in AudioTypes :: StartsWith(AudioTypes[e], "audio/") && e in FileTypeUtil.AudioExtensions
  {
    ImageTypesAgree();
    VideoTypesAgree();
    AudioTypesAgree();
  }

  lemma ImageTypesAgree()
    ensures forall e | e in ImageTypes :: StartsWith(ImageTypes[e], "image/") && e in FileTypeUtil.ImageExtensions
  {
  }

  lemma VideoTypesAgree()
    ensures forall e | e in VideoTypes :: StartsWith(VideoTypes[e], "video/") && e in FileTypeUtil.VideoExtensions
  {
  }

  lemma AudioTypesAgree()
    ensures forall e | e in AudioTypes :: StartsWith(AudioTypes[e], "audio/") && e in FileTypeUtil.AudioExtensions
  {
  }

  /* ---------------------------------------------------------- byte ranges */

  /**
   * `Long.parseLong` on ASCII input: an optional sign and at least one
   * digit, within the `long` range; anything else throws (None).
   */
  function ParseLong(s: string): (r: Option<int>)
    ensures r.Some? ==> -LongMax - 1 <= r.value <= LongMax
    ensures r.Some? && '-' !in s ==> r.value >= 0
    ensures AllDigits(s) && |s| >= 1 && DigitsValue(s) <= LongMax ==> r == Some(DigitsValue(s))
    ensures AllDigits(s) && DigitsValue(s) > LongMax ==> r.None?
    ensures s == [] ==> r.None?
  {
    if s == [] then None
    else
      var neg := s[0] == '-';
      var digits := if s[0] == '+' || s[0] == '-' then s[1..] else s;
      if digits == [] || !AllDigits(digits) then None
      else
        var v: int := if neg then 0 - DigitsValue(digits) else DigitsValue(digits);
        if -LongMax - 1 <= v <= LongMax then Some(v) else None
  }

  /** What the download answers to a Range header. */
  datatype RangeOutcome =
    | WholeFile                                      // 200 with the whole file
    | Partial(start: int, end: int, length: int)     // 206 with bytes start..end
    | NotSatisfiable                                  // 416

  /**
   * The Range handling of downloadFile as written: no header, or one not
   * starting with "bytes=", serves the whole file; otherwise the text after
   * "bytes=" is split at '-' (trailing empty pieces dropped) and read by
   * RangeOfParts.
   */
  function ParseRangeAsWritten(header: Option<string>, fileLength: int): (r: RangeOutcome)
    ensures header.None? || !StartsWith(header.value, "bytes=") ==> r == WholeFile
    ensures r.Partial? ==> 0 <= r.start < fileLength && r.end < fileLength && r.length == r.end - r.start + 1
  {
    if header.None? || !StartsWith(header.value, "bytes=") then WholeFile
    else RangeOfParts(JavaSplit(header.value[6..], '-'), fileLength)
  }

  /**
   * An empty first position, an unparsable number or a start at or past
   * the end gives 416; a missing end or one past the last byte becomes the
   * last byte; the length is end - start + 1, with no check that
   * end >= start.
   */
  function RangeOfParts(ranges: seq<string>, fileLength: int): (r: RangeOutcome)
    requires forall k :: 0 <= k < |ranges| ==> '-' !in ranges[k]
    ensures !r.WholeFile?
    ensures (|ranges| == 0 || ranges[0] == []) ==> r == NotSatisfiable
    ensures r.Partial? ==> 0 <= r.start < fileLength && r.end < fileLength && r.length == r.end - r.start + 1
  {
    if |ranges| == 0 || ranges[0] == [] then NotSatisfiable
    else
      var start := ParseLong(ranges[0]);
      var end := if |ranges| > 1 && ranges[1] != [] then ParseLong(ranges[1]) else Some(fileLength - 1);
      if start.None? || end.None? || start.value >= fileLength then NotSatisfiable
      else
        var e := if end.value >= fileLength then fileLength - 1 else end.value;
        Partial(start.value, e, e - start.value + 1)
  }

  /**
   * "bytes=5-3" on a ten-byte file is accepted with a negative length,
   * although section 2.1 of RFC 7233 makes a range whose last position is
   * before its first invalid.
   */
  lemma AsWrittenAcceptsBackwardRange()
    ensures ParseRangeAsWritten(Some("bytes=5-3"), 10) == Partial(5, 3, -1)
  {
    var h := "bytes=5-3";
    assert StartsWith(h, "bytes=");
    assert h[6..] == "5-3";
    SplitTwo("5", "3");
    assert DigitsValue("5") == 5;
    assert DigitsValue("3") == 3;
  }

  /** Two dash-free pieces joined by a dash split back into those pieces. */
  lemma SplitTwo(a: string, b: string)
    requires '-' !in a && '-' !in b && b != []
    ensures JavaSplit(a + "-" + b, '-') == [a, b]
  {
    JoinSplit([a, b], '-');
    assert Join([a, b], '-') == a + "-" + b;
    assert (a + "-" + b)[|a|] == '-';
  }

  /** The range handling with a backward range also answered 416. */
  function ParseRange(header: Option<string>, fileLength: int): (r: RangeOutcome)
    ensures header.None? || !StartsWith(header.value, "bytes=") ==> r == WholeFile
    ensures r.Partial? ==> 0 <= r.start <= r.end < fileLength && r.length == r.end - r.start + 1 >= 1
    ensures r.NotSatisfiable? <==>
      ParseRangeAsWritten(header, fileLength).NotSatisfiable?
      || (ParseRangeAsWritten(header, fileLength).Partial? && ParseRangeAsWritten(header, fileLength).length < 1)
    ensures r.Partial? ==> r == ParseRangeAsWritten(header, fileLength)
  {
    var w := ParseRangeAsWritten(header, fileLength);
    if w.Partial? && w.end < w.start then NotSatisfiable else w
  }

  /** The corrected handling answers the backward range with 416 and serves an open-ended one to the last byte. */
  lemma ParseRangeRejectsBackward()
    ensures ParseRange(Some("bytes=5-3"), 10) == NotSatisfiable
    ensures ParseRange(Some("bytes=3-"), 10) == Partial(3, 9, 7)
  {
    AsWrittenAcceptsBackwardRange();
    OpenEndedAsWritten();
  }

  /** "bytes=3-" on a ten-byte file is read as bytes 3..9. */
  lemma OpenEndedAsWritten()
    ensures ParseRangeAsWritten(Some("bytes=3-"), 10) == Partial(3, 9, 7)
  {
    HeaderSplits("3-");
    assert "bytes=" + "3-" == "bytes=3-";
    assert IndexOfFrom("3-", '-', 0) == 1;
    assert "3-"[..1] == "3" && "3-"[2..] == "";
    assert Split("", '-') == [""];
    assert Split("3-", '-') == ["3", ""];
    assert JavaSplit("3-", '-') == ["3"];
    assert DigitsValue("3") == 3;
  }

  /**
   * A header "bytes=a-b" with a <= b < length is served as exactly the
   * bytes a..b.
   */
  lemma ParseRangeServesWellFormed(a: nat, b: nat, fileLength: int)
    requires a <= b < fileLength <= LongMax
    ensures ParseRange(Some("bytes=" + NatToString(a) + "-" + NatToString(b)), fileLength) == Partial(a, b, b - a + 1)
  {
    NatToStringRoundTrip(a);
    NatToStringRoundTrip(b);
    DigitsHeaderServed(NatToString(a), NatToString(b), fileLength);
  }

  /** The same for any two digit strings whose values are in order below the length. */
  lemma DigitsHeaderServed(sa: string, sb: string, fileLength: int)
    requires AllDigits(sa) && AllDigits(sb) && |sa| >= 1 && |sb| >= 1
    requires DigitsValue(sa) <= DigitsValue(sb) < fileLength <= LongMax
    ensures ParseRange(Some("bytes=" + sa + "-" + sb), fileLength)
      == Partial(DigitsValue(sa), DigitsValue(sb), DigitsValue(sb) - DigitsValue(sa) + 1)
  {
    NoDashInDigits(sa);
    NoDashInDigits(sb);
    HeaderSplits(sa + "-" + sb);
    assert "bytes=" + sa + "-" + sb == "bytes=" + (sa + "-" + sb);
    SplitTwo(sa, sb);
    RangeOfTwoNumbers(sa, sb, fileLength);
  }

  /** A header "bytes=" + rest is read from rest. */
  lemma HeaderSplits(rest: string)
    ensures var h := "bytes=" + rest; StartsWith(h, "bytes=") && h[6..] == rest
  {
    var h := "bytes=" + rest;
    assert h[..6] == "bytes=";
  }

  /** Two numbers a <= b below the length give bytes a..b. */
  lemma RangeOfTwoNumbers(sa: string, sb: string, fileLength: int)
    requires AllDigits(sa) && AllDigits(sb) && |sa| >= 1 && |sb| >= 1 && '-' !in sa && '-' !in sb
    requires DigitsValue(sa) <= DigitsValue(sb) < fileLength <= LongMax
    ensures RangeOfParts([sa, sb], fileLength)
      == Partial(DigitsValue(sa), DigitsValue(sb), DigitsValue(sb) - DigitsValue(sa) + 1)
  {
    assert ParseLong(sa) == Some(DigitsValue(sa));
    assert ParseLong(sb) == Some(DigitsValue(sb));
  }

  lemma NoDashInDigits(s: string)
    requires AllDigits(s)
    ensures '-' !in s
  {
  }
}
