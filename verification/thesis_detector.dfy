/**
 * The Detector's position search: where the integrity declaration, the
 * abstracts, the keyword lines, the table of contents, the chapters, the
 * reference list and the acknowledgement start in a document.
 *
 * A document is the sequence of its paragraphs; the host numbers them from
 * 1, so paragraph `i` is `doc[i - 1]`, and -1 stands for "not found".
 */
module ThesisDetector {
  import opened Wrappers
  import opened Text
  import opened ThesisText
  import opened HeadingFormat

  /**
   * A paragraph as the Detector reads it: the cleaned text (Utils.cleanText
   * of the raw text), the full text (Utils.getFullText) and whether
   * Utils.isTocLine holds for it, and the heading detectHeadingFormat finds
   * in the full text.  Every search below reads paragraphs only through
   * these four values.
   */
  datatype View = View(clean: string, full: string, toc: bool, heading: Option<Heading>)

  function ViewOf(p: Paragraph): View {
    var full := FullText(p);
    View(CleanText(p.text), full, IsTocLine(p.text, p.styleName), DetectHeadingFormat(full))
  }

  type Document = seq<View>

  /** The document read paragraph by paragraph. */
  function ReadDocument(ps: seq<Paragraph>): (doc: Document)
    ensures |doc| == |ps| && forall i :: 0 <= i < |ps| ==> doc[i] == ViewOf(ps[i])
  {
    seq(|ps|, i requires 0 <= i < |ps| => ViewOf(ps[i]))
  }

  /**
   * The first 1-based index `i` with `lo <= i <= hi` and `i <= |doc|` whose
   * paragraph satisfies `p`, or -1: the `for (i = lo; i <= Math.min(Count, hi); i++)`
   * loops of the Detector.
   */
  function FirstIndex(doc: Document, lo: int, hi: int, p: View -> bool): (r: int)
    requires lo >= 1
    ensures r == -1 || (lo <= r <= hi && r <= |doc| && p(doc[r - 1]))
    ensures forall k :: lo <= k + 1 <= hi && k < |doc| && (r == -1 || k + 1 < r) ==> !p(doc[k])
    decreases hi - lo + 1
  {
    if lo > hi || lo > |doc| then -1
    else if p(doc[lo - 1]) then lo
    else FirstIndex(doc, lo + 1, hi, p)
  }

  predicate IsIntegrityTitle(p: View) {
    StartsWith(p.clean, "诚信声明")
  }

  predicate IsAbstractTitle(p: View) {
    p.clean == "摘要" || p.clean == "摘  要"
  }

  predicate IsKeywordsLine(p: View) {
    StartsWith(p.clean, "关键词")
  }

  predicate IsAbstractEnTitle(p: View) {
    Upper(p.clean) == "ABSTRACT"
  }

  /** `/^key\s*words?/i`. */
  predicate KeywordsEnPrefix(s: string) {
    var t := Lower(s);
    StartsWith(t, "key") && var w := SpaceRun(t, 3); StartsWith(t[3 + w..], "word")
  }

  predicate IsKeywordsEnLine(p: View) {
    KeywordsEnPrefix(p.clean)
  }

  predicate IsTocTitle(p: View) {
    p.clean == "目录" || p.clean == "目  录"
  }

  predicate HasHan(s: string) {
    exists k | 0 <= k < |s| :: IsHan(s[k])
  }

  /** The English-title look of the first method: capital first letter, no Han character, over 15 characters. */
  predicate LooksLikeEnglishTitle(s: string) {
    !HasHan(s) && |s| > 15 && IsAsciiUpper(s[0])
  }

  /** The fallback scan's test: the same look, but not the ABSTRACT or Keywords line itself. */
  predicate IsEnglishTitleCandidate(p: View) {
    var s := p.clean;
    LooksLikeEnglishTitle(s) && !StartsWith(Upper(s), "ABSTRACT") && !KeywordsEnPrefix(s)
  }

  /** Detector.findIntegrityDeclaration: the first of the first 100 paragraphs opening with 诚信声明. */
  function FindIntegrityDeclaration(doc: Document): (r: int)
    ensures r == -1 || (1 <= r <= 100 && r <= |doc| && IsIntegrityTitle(doc[r - 1]))
    ensures forall k :: 0 <= k < 100 && k < |doc| && (r == -1 || k + 1 < r) ==> !IsIntegrityTitle(doc[k])
  {
    FirstIndex(doc, 1, 100, IsIntegrityTitle)
  }

  /** Detector.findAbstractTitle: the first of the first 100 paragraphs reading 摘要. */
  function FindAbstractTitle(doc: Document): (r: int)
    ensures r == -1 || (1 <= r <= 100 && r <= |doc| && IsAbstractTitle(doc[r - 1]))
    ensures forall k :: 0 <= k < 100 && k < |doc| && (r == -1 || k + 1 < r) ==> !IsAbstractTitle(doc[k])
  {
    FirstIndex(doc, 1, 100, IsAbstractTitle)
  }

  /** Detector.findKeywords: within 30 paragraphs after `start`. */
  function FindKeywords(doc: Document, start: int): (r: int)
    requires start >= 0
    ensures r == -1 || (start < r <= start + 30 && r <= |doc| && IsKeywordsLine(doc[r - 1]))
    ensures forall k :: start <= k < start + 30 && k < |doc| && (r == -1 || k + 1 < r) ==> !IsKeywordsLine(doc[k])
  {
    FirstIndex(doc, start + 1, start + 30, IsKeywordsLine)
  }

  /** Detector.findAbstractEn: within 60 paragraphs after `start`, compared upper-cased. */
  function FindAbstractEn(doc: Document, start: int): (r: int)
    requires start >= 0
    ensures r == -1 || (start < r <= start + 60 && r <= |doc| && IsAbstractEnTitle(doc[r - 1]))
    ensures forall k :: start <= k < start + 60 && k < |doc| && (r == -1 || k + 1 < r) ==> !IsAbstractEnTitle(doc[k])
  {
    FirstIndex(doc, start + 1, start + 60, IsAbstractEnTitle)
  }

  /** Detector.findKeywordsEn: -1 without an English abstract, else within 20 paragraphs after it. */
  function FindKeywordsEn(doc: Document, start: int): (r: int)
    ensures start < 0 ==> r == -1
    ensures r == -1 || (start < r <= start + 20 && r <= |doc| && IsKeywordsEnLine(doc[r - 1]))
    ensures start >= 0 ==> forall k :: start <= k < start + 20 && k < |doc| && (r == -1 || k + 1 < r) ==> !IsKeywordsEnLine(doc[k])
  {
    if start < 0 then -1 else FirstIndex(doc, start + 1, start + 20, IsKeywordsEnLine)
  }

  /** Detector.findTocTitle: within 80 paragraphs after `start`. */
  function FindTocTitle(doc: Document, start: int): (r: int)
    requires start >= 0
    ensures r == -1 || (start < r <= start + 80 && r <= |doc| && IsTocTitle(doc[r - 1]))
    ensures forall k :: start <= k < start + 80 && k < |doc| && (r == -1 || k + 1 < r) ==> !IsTocTitle(doc[k])
  {
    FirstIndex(doc, start + 1, start + 80, IsTocTitle)
  }

  /**
   * The nearest paragraph at or above `j` and below `stop` whose cleaned text
   * has at least 5 characters (the look-back of findEnglishTitle), or -1.
   */
  function LastLongEnough(doc: Document, j: int, stop: int): (r: int)
    requires j <= |doc|
    ensures r == -1 || (stop < r <= j && r >= 1 && |doc[r - 1].clean| >= 5)
    ensures forall k :: stop <= k < j && k >= 0 && (r == -1 || k + 1 > r) ==> |doc[k].clean| < 5
    decreases j - stop
  {
    if j <= stop || j < 1 then -1
    else if |doc[j - 1].clean| >= 5 then j
    else LastLongEnough(doc, j - 1, stop)
  }

  /**
   * Detector.findEnglishTitle: the paragraph just above ABSTRACT (blank-ish
   * ones skipped) when it looks like an English title; otherwise the first
   * English-looking paragraph in the 50 after `start`.
   */
  function FindEnglishTitle(doc: Document, start: int): (r: int)
    requires start >= 0
    ensures r == -1 || (start < r <= |doc|)
    ensures r != -1 ==> LooksLikeEnglishTitle(doc[r - 1].clean)
  {
    var abs := FindAbstractEn(doc, start);
    assert abs <= |doc|;
    var j := TitleAboveAbstract(doc, start, abs);
    if j != -1 then j else FallbackEnglishTitle(doc, start)
  }

  /**
   * The first method of findEnglishTitle: the nearest paragraph above
   * ABSTRACT (at `abs`) with at least 5 characters, when it looks like an
   * English title.
   */
  function TitleAboveAbstract(doc: Document, start: int, abs: int): (r: int)
    requires start >= 0 && abs <= |doc|
    ensures r == -1 || (start < r < abs && LooksLikeEnglishTitle(doc[r - 1].clean))
    ensures r != -1 ==> forall k :: r <= k < abs - 1 ==> |doc[k].clean| < 5
  {
    var j := if abs > 1 then LastLongEnough(doc, abs - 1, start) else -1;
    if j != -1 && LooksLikeEnglishTitle(doc[j - 1].clean) then j else -1
  }

  /** The second method of findEnglishTitle: the first English-looking paragraph in the 50 after `start`. */
  function FallbackEnglishTitle(doc: Document, start: int): (r: int)
    requires start >= 0
    ensures r == -1 || (start < r <= start + 50 && r <= |doc| && IsEnglishTitleCandidate(doc[r - 1]))
    ensures r != -1 ==> LooksLikeEnglishTitle(doc[r - 1].clean)
    ensures forall k :: start <= k < start + 50 && k < |doc| && (r == -1 || k + 1 < r) ==> !IsEnglishTitleCandidate(doc[k])
  {
    FirstIndex(doc, start + 1, start + 50, IsEnglishTitleCandidate)
  }

  /** The paragraph filter of findFirstChapter. */
  predicate IsFirstChapterCandidate(p: View) {
    var full := p.full;
    !p.toc && |full| <= 50 && !EndsWithPunctuation(full) && IsChapter1Heading(p.heading)
  }

  /** Detector.findFirstChapter: the first paragraph after `start` that passes the chapter filter. */
  function FindFirstChapter(doc: Document, start: int): (r: int)
    requires start >= 0
    ensures r == -1 || (start < r <= |doc| && IsFirstChapterCandidate(doc[r - 1]))
    ensures forall k :: start <= k < |doc| && (r == -1 || k + 1 < r) ==> !IsFirstChapterCandidate(doc[k])
  {
    FirstIndex(doc, start + 1, |doc|, IsFirstChapterCandidate)
  }

  /** `^第[一二三四五六七八九十]+章为`: a sentence about a chapter ("第一章为绪论…"), not its title. */
  predicate ChapterIntroSentence(s: string) {
    |s| >= 1 && s[0] == '第' &&
    var n := Run(s, 1, IsCnTen);
    n >= 1 && 2 + n < |s| && s[1 + n] == '章' && s[2 + n] == '为'
  }

  /** The level-1 heading findAllChapters sees in a paragraph, if it passes the filters. */
  function LevelOneHeading(p: View): (r: Option<Format>)
    ensures r.Some? ==> p.heading == Some(Heading(1, r.value)) && !p.toc && |p.full| <= 50
  {
    var full := p.full;
    if p.toc || EndsWithPunctuation(full) || ChapterIntroSentence(full) || |full| > 50 then None
    else
      var h := p.heading;
      if h.Some? && h.value.level == 1 then Some(h.value.format) else None
  }

  datatype Chapter = Chapter(index: int, text: string, format: Format)

  /** `s.substring(0, n)`. */
  function Prefix(s: string, n: nat): (r: string)
    ensures |r| <= n && StartsWith(s, r)
    ensures |s| <= n ==> r == s
  {
    if |s| <= n then s else s[..n]
  }

  function ChapterAt(doc: Document, i: int, f: Format): Chapter
    requires 1 <= i <= |doc|
  {
    Chapter(i, Prefix(doc[i - 1].full, 30), f)
  }

  /** `c` records paragraph `c.index`: a filtered level-1 heading of format `c.format`, with its first 30 characters. */
  predicate IsChapterOf(doc: Document, c: Chapter) {
    1 <= c.index <= |doc| && LevelOneHeading(doc[c.index - 1]) == Some(c.format)
    && c == ChapterAt(doc, c.index, c.format)
  }

  /**
   * The equivalence policy for later chapters: a stand-alone title is always
   * allowed; otherwise 第X章 goes with 第N章, 一、 with 一 (space), 1、 with
   * 1 (space), and 1. only with itself.
   */
  predicate Compatible(first: Format, f: Format) {
    f == Standalone
    || ((first == ZhangCn || first == ZhangNum) && (f == ZhangCn || f == ZhangNum))
    || ((first == CnComma || first == CnSpace) && (f == CnComma || f == CnSpace))
    || ((first == ArabComma || first == ArabSpace) && (f == ArabComma || f == ArabSpace))
    || (first == ArabDot1 && f == ArabDot1)
  }

  datatype ChapterScan = ChapterScan(chapters: seq<Chapter>, skipped: seq<Chapter>)

  /**
   * The loop of findAllChapters from paragraph `i` to `end`, given the first
   * chapter's format once one has been found; `skipped` collects the level-1
   * headings left out for their format, which the Detector only logs.
   */
  function ScanChapters(doc: Document, i: int, end: int, first: Option<Format>): (r: ChapterScan)
    requires i >= 1 && end <= |doc|
    ensures first.Some? ==> forall c :: c in r.chapters ==> Compatible(first.value, c.format)
    ensures first.Some? ==> forall c :: c in r.skipped ==> !Compatible(first.value, c.format)
    decreases end - i + 1
  {
    if i > end then ChapterScan([], [])
    else
      match LevelOneHeading(doc[i - 1])
      case None => ScanChapters(doc, i + 1, end, first)
      case Some(f) =>
        var c := ChapterAt(doc, i, f);
        if first.None? then
          var rest := ScanChapters(doc, i + 1, end, Some(f));
          ChapterScan([c] + rest.chapters, rest.skipped)
        else
          var rest := ScanChapters(doc, i + 1, end, first);
          if Compatible(first.value, f) then ChapterScan([c] + rest.chapters, rest.skipped)
          else ChapterScan(rest.chapters, [c] + rest.skipped)
  }

  /**
   * Detector.findAllChapters: every chapter it returns records a filtered
   * level-1 heading between `start` and `end`, and every chapter after the
   * first is stand-alone or of the first chapter's family.
   */
  function FindAllChapters(doc: Document, start: int, end: int): (r: seq<Chapter>)
    requires start >= 1 && end <= |doc|
    ensures forall c :: c in r ==> start <= c.index <= end && IsChapterOf(doc, c)
    ensures |r| > 0 ==> forall k :: 0 < k < |r| ==> Compatible(r[0].format, r[k].format)
  {
    ScanIsSound(doc, start, end);
    ScanChapters(doc, start, end, None).chapters
  }

  lemma ScanIsSound(doc: Document, start: int, end: int)
    requires start >= 1 && end <= |doc|
    ensures var r := ScanChapters(doc, start, end, None).chapters;
      (forall c :: c in r ==> start <= c.index <= end && IsChapterOf(doc, c))
      && (|r| > 0 ==> forall k :: 0 < k < |r| ==> Compatible(r[0].format, r[k].format))
  {
    ScanMatchesReference(doc, start, end);
    CandidatesAreChapters(doc, start, end);
    var cs := Candidates(doc, start, end);
    if cs != [] {
      KeepCompatibleSound(cs[0].format, cs[1..]);
      var r := ScanChapters(doc, start, end, None).chapters;
      forall k | 0 < k < |r|
        ensures Compatible(r[0].format, r[k].format)
      {
        assert r[k] in KeepCompatible(cs[0].format, cs[1..]);
      }
    }
  }

  // ---------------------------------------------------------------------
  // Reference definition of the chapter list.
  // ---------------------------------------------------------------------

  /** Every paragraph from `i` to `end` that passes the filters, as a chapter record, in order. */
  function Candidates(doc: Document, i: int, end: int): seq<Chapter>
    requires i >= 1 && end <= |doc|
    decreases end - i + 1
  {
    if i > end then []
    else
      match LevelOneHeading(doc[i - 1])
      case None => Candidates(doc, i + 1, end)
      case Some(f) => [ChapterAt(doc, i, f)] + Candidates(doc, i + 1, end)
  }

  /** Every candidate records a filtered level-1 heading of the range. */
  lemma {:induction false} CandidatesAreChapters(doc: Document, i: int, end: int)
    requires i >= 1 && end <= |doc|
    ensures forall c :: c in Candidates(doc, i, end) ==> i <= c.index <= end && IsChapterOf(doc, c)
    decreases end - i + 1
  {
    if i <= end {
      CandidatesAreChapters(doc, i + 1, end);
      var h := LevelOneHeading(doc[i - 1]);
      if h.None? {
        SkipStep(doc, i, end, None);
      } else {
        CandidatesStep(doc, i, end, h.value);
        var cs := Candidates(doc, i, end);
        assert forall c :: c in cs ==> c == cs[0] || c in cs[1..];
      }
    }
  }

  function KeepCompatible(first: Format, cs: seq<Chapter>): seq<Chapter> {
    if cs == [] then []
    else (if Compatible(first, cs[0].format) then [cs[0]] else []) + KeepCompatible(first, cs[1..])
  }

  function DropCompatible(first: Format, cs: seq<Chapter>): seq<Chapter> {
    if cs == [] then []
    else (if Compatible(first, cs[0].format) then [] else [cs[0]]) + DropCompatible(first, cs[1..])
  }

  lemma ScanWithFirst(doc: Document, i: int, end: int, first: Format)
    requires i >= 1 && end <= |doc|
    ensures ScanChapters(doc, i, end, Some(first)).chapters == KeepCompatible(first, Candidates(doc, i, end))
    ensures ScanChapters(doc, i, end, Some(first)).skipped == DropCompatible(first, Candidates(doc, i, end))
  {
    ScanKeeps(doc, i, end, first);
    ScanDrops(doc, i, end, first);
  }

  /** One candidate more at the front of the range. */
  lemma CandidatesStep(doc: Document, i: int, end: int, f: Format)
    requires 1 <= i <= end <= |doc| && LevelOneHeading(doc[i - 1]) == Some(f)
    ensures var cs := Candidates(doc, i, end);
      cs != [] && cs[0] == ChapterAt(doc, i, f) && cs[1..] == Candidates(doc, i + 1, end)
  {
    var cs := [ChapterAt(doc, i, f)] + Candidates(doc, i + 1, end);
    assert Candidates(doc, i, end) == cs;
    assert cs[1..] == Candidates(doc, i + 1, end);
  }

  /** The scan with a first format, one heading at the front of the range. */
  lemma ScanStep(doc: Document, i: int, end: int, first: Format, f: Format)
    requires 1 <= i <= end <= |doc| && LevelOneHeading(doc[i - 1]) == Some(f)
    ensures var r := ScanChapters(doc, i, end, Some(first));
      var rest := ScanChapters(doc, i + 1, end, Some(first));
      var c := ChapterAt(doc, i, f);
      if Compatible(first, f) then r == ChapterScan([c] + rest.chapters, rest.skipped)
      else r == ChapterScan(rest.chapters, [c] + rest.skipped)
  {
  }

  /** A paragraph that is no filtered level-1 heading changes neither the scan nor the candidates. */
  lemma SkipStep(doc: Document, i: int, end: int, first: Option<Format>)
    requires 1 <= i <= end <= |doc| && LevelOneHeading(doc[i - 1]).None?
    ensures ScanChapters(doc, i, end, first) == ScanChapters(doc, i + 1, end, first)
    ensures Candidates(doc, i, end) == Candidates(doc, i + 1, end)
  {
  }

  lemma {:induction false} ScanKeeps(doc: Document, i: int, end: int, first: Format)
    requires i >= 1 && end <= |doc|
    ensures ScanChapters(doc, i, end, Some(first)).chapters == KeepCompatible(first, Candidates(doc, i, end))
    decreases end - i + 1
  {
    if i <= end {
      ScanKeeps(doc, i + 1, end, first);
      var h := LevelOneHeading(doc[i - 1]);
      if h.None? {
        SkipStep(doc, i, end, Some(first));
      } else {
        CandidatesStep(doc, i, end, h.value);
        ScanStep(doc, i, end, first, h.value);
      }
    }
  }

  lemma {:induction false} ScanDrops(doc: Document, i: int, end: int, first: Format)
    requires i >= 1 && end <= |doc|
    ensures ScanChapters(doc, i, end, Some(first)).skipped == DropCompatible(first, Candidates(doc, i, end))
    decreases end - i + 1
  {
    if i <= end {
      ScanDrops(doc, i + 1, end, first);
      var h := LevelOneHeading(doc[i - 1]);
      if h.None? {
        SkipStep(doc, i, end, Some(first));
      } else {
        CandidatesStep(doc, i, end, h.value);
        ScanStep(doc, i, end, first, h.value);
      }
    }
  }

  /**
   * findAllChapters keeps the first filtered level-1 heading and then exactly
   * the later ones compatible with its format; the rest are the skipped list.
   */
  lemma {:induction false} ScanMatchesReference(doc: Document, i: int, end: int)
    requires i >= 1 && end <= |doc|
    ensures var cs := Candidates(doc, i, end);
      var r := ScanChapters(doc, i, end, None);
      if cs == [] then r == ChapterScan([], [])
      else (r.chapters == [cs[0]] + KeepCompatible(cs[0].format, cs[1..])
        && r.skipped == DropCompatible(cs[0].format, cs[1..]))
    decreases end - i + 1
  {
    if i <= end {
      match LevelOneHeading(doc[i - 1]) {
        case None =>
          ScanMatchesReference(doc, i + 1, end);
        case Some(f) =>
          ScanWithFirst(doc, i + 1, end, f);
          var cs := Candidates(doc, i, end);
          assert cs[1..] == Candidates(doc, i + 1, end);
      }
    }
  }

  /** The chapters kept after the first are compatible with it and come from the candidate list. */
  lemma {:induction false} KeepCompatibleSound(first: Format, cs: seq<Chapter>)
    ensures forall c :: c in KeepCompatible(first, cs) ==> Compatible(first, c.format) && c in cs
  {
    if cs != [] {
      KeepCompatibleSound(first, cs[1..]);
    }
  }

  /** The family a level-1 format belongs to under the equivalence policy. */
  function Family(f: Format): int {
    match f
    case ZhangCn => 0 case ZhangNum => 0
    case CnComma => 1 case CnSpace => 1
    case ArabComma => 2 case ArabSpace => 2
    case ArabDot1 => 3
    case Standalone => 4
    case _ => 5
  }

  /** The policy is "same family, or stand-alone" for every first format except the stand-alone one. */
  lemma CompatibleIsSameFamily(first: Format, f: Format)
    requires LevelOf(first) == 1 && LevelOf(f) == 1 && first != Standalone
    ensures Compatible(first, f) <==> f == Standalone || Family(first) == Family(f)
  {
  }

  // ---------------------------------------------------------------------
  // Detector.findAll.
  // ---------------------------------------------------------------------

  predicate IsReferenceTitle(p: View) {
    !p.toc && p.clean == "参考文献"
  }

  predicate IsAcknowledgementTitle(p: View) {
    !p.toc && (p.clean == "致谢" || p.clean == "致  谢")
  }

  /**
   * Detector.findReferenceTitle: searched from max(start + 1, `tail`), where
   * `tail` is the host's `Math.floor(Count * 0.7)`, to the end.
   */
  function FindReferenceTitle(doc: Document, start: int, tail: int): (r: int)
    requires start >= 0
    ensures r == -1 || (start < r && tail <= r <= |doc| && IsReferenceTitle(doc[r - 1]))
    ensures forall k :: start <= k && tail <= k + 1 && k < |doc| && (r == -1 || k + 1 < r) ==> !IsReferenceTitle(doc[k])
  {
    FirstIndex(doc, if start + 1 >= tail then start + 1 else tail, |doc|, IsReferenceTitle)
  }

  /** Detector.findAcknowledgement, searched like the reference title. */
  function FindAcknowledgement(doc: Document, start: int, tail: int): (r: int)
    requires start >= 0
    ensures r == -1 || (start < r && tail <= r <= |doc| && IsAcknowledgementTitle(doc[r - 1]))
    ensures forall k :: start <= k && tail <= k + 1 && k < |doc| && (r == -1 || k + 1 < r) ==> !IsAcknowledgementTitle(doc[k])
  {
    FirstIndex(doc, if start + 1 >= tail then start + 1 else tail, |doc|, IsAcknowledgementTitle)
  }

  datatype Positions = Positions(
    integrity: int, abstractTitle: int, keywords: int, englishTitle: int,
    abstractEn: int, keywordsEn: int, toc: int, chapter1: int,
    chapters: seq<Chapter>, reference: int, acknowledgement: int)

  /** The end of the chapter search: the reference title, else the acknowledgement, else the last paragraph. */
  function ChapterEnd(doc: Document, reference: int, acknowledgement: int): (e: int)
    requires reference <= |doc| && acknowledgement <= |doc|
    ensures e <= |doc|
    ensures reference > 0 ==> e == reference
    ensures reference <= 0 && acknowledgement > 0 ==> e == acknowledgement
  {
    if reference > 0 then reference else if acknowledgement > 0 then acknowledgement else |doc|
  }

  /** The chapter list of findAll: empty unless a first chapter was found. */
  function ChapterList(doc: Document, chapter1: int, reference: int, acknowledgement: int): (cs: seq<Chapter>)
    requires chapter1 <= |doc| && reference <= |doc| && acknowledgement <= |doc|
    ensures chapter1 <= 0 ==> cs == []
    ensures forall c :: c in cs ==> chapter1 <= c.index <= ChapterEnd(doc, reference, acknowledgement) && IsChapterOf(doc, c)
  {
    if chapter1 > 0 then FindAllChapters(doc, chapter1, ChapterEnd(doc, reference, acknowledgement)) else []
  }

  /**
   * Detector.findAll: every position after the Chinese abstract title is
   * searched from it; without that title only the integrity declaration is
   * looked for.
   */
  function FindAll(doc: Document, tail: int): (pos: Positions)
    ensures pos.integrity == FindIntegrityDeclaration(doc)
    ensures pos.abstractTitle == FindAbstractTitle(doc)
    ensures pos.abstractTitle <= 0 ==>
      pos.keywords == -1 && pos.englishTitle == -1 && pos.abstractEn == -1 && pos.keywordsEn == -1
      && pos.toc == -1 && pos.chapter1 == -1 && pos.chapters == [] && pos.reference == -1 && pos.acknowledgement == -1
    ensures pos.abstractTitle > 0 ==>
      pos.keywords == FindKeywords(doc, pos.abstractTitle)
      && pos.englishTitle == FindEnglishTitle(doc, pos.abstractTitle)
      && pos.abstractEn == FindAbstractEn(doc, pos.abstractTitle)
      && pos.keywordsEn == FindKeywordsEn(doc, pos.abstractEn)
      && pos.toc == FindTocTitle(doc, pos.abstractTitle)
      && pos.chapter1 == FindFirstChapter(doc, pos.abstractTitle)
      && pos.reference == FindReferenceTitle(doc, pos.abstractTitle, tail)
      && pos.acknowledgement == FindAcknowledgement(doc, pos.abstractTitle, tail)
    ensures pos.chapter1 <= 0 ==> pos.chapters == []
    ensures pos.reference <= |doc| && pos.acknowledgement <= |doc|
    ensures forall c :: c in pos.chapters ==>
      pos.chapter1 <= c.index <= ChapterEnd(doc, pos.reference, pos.acknowledgement) && IsChapterOf(doc, c)
  {
    var integrity := FindIntegrityDeclaration(doc);
    var abs := FindAbstractTitle(doc);
    if abs <= 0 then Positions(integrity, abs, -1, -1, -1, -1, -1, -1, [], -1, -1)
    else
      var abstractEn := FindAbstractEn(doc, abs);
      var chapter1 := FindFirstChapter(doc, abs);
      var reference := FindReferenceTitle(doc, abs, tail);
      var ack := FindAcknowledgement(doc, abs, tail);
      Positions(integrity, abs, FindKeywords(doc, abs), FindEnglishTitle(doc, abs), abstractEn,
                FindKeywordsEn(doc, abstractEn), FindTocTitle(doc, abs), chapter1,
                ChapterList(doc, chapter1, reference, ack), reference, ack)
  }

  /**
   * The first chapter findFirstChapter reports heads the chapter list, unless
   * it reads like "第一章为…", which only findAllChapters filters out.
   */
  lemma FirstChapterHeadsList(doc: Document, start: int, end: int)
    requires 1 <= start <= end <= |doc|
    requires IsFirstChapterCandidate(doc[start - 1])
    requires !ChapterIntroSentence(doc[start - 1].full)
    ensures var r := FindAllChapters(doc, start, end);
      |r| > 0 && r[0].index == start
  {
    var p := doc[start - 1];
    assert LevelOneHeading(p).Some?;
  }
}
