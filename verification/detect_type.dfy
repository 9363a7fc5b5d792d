/**
 * Detector.detectType: the role of one paragraph during formatting (image,
 * empty line, TOC line, heading of level 1-4, caption, continued-table
 * caption or body text), decided by an ordered list of tests on the
 * paragraph's full text.
 */
module ParagraphType {
  import opened Wrappers
  import opened Text
  import opened ThesisText
  import opened HeadingFormat

  datatype Kind =
    | Image | Empty | TocLine
    | Heading1 | Heading2 | Heading3 | Heading4
    | ContinuedCaption | Caption | Body

  /** The class `[，。；：！？,.;:!?]` that keeps a text from being a level-1 title. */
  predicate IsTitlePunct(c: char) {
    c == '，' || c == '。' || c == '；' || c == '：' || c == '！' || c == '？'
    || c == ',' || c == '.' || c == ';' || c == ':' || c == '!' || c == '?'
  }

  predicate HasTitlePunct(s: string) {
    exists k | 0 <= k < |s| :: IsTitlePunct(s[k])
  }

  /** The class `[，；,;]` that marks a sentence rather than a caption. */
  predicate IsClausePunct(c: char) {
    c == '，' || c == '；' || c == ',' || c == ';'
  }

  predicate HasClausePunct(s: string) {
    exists k | 0 <= k < |s| :: IsClausePunct(s[k])
  }

  /** `[一二三四五六七八九十百]`: the chapter numerals detectType accepts (no 零). */
  predicate IsChapterNumeral(c: char) {
    c == '一' || c == '二' || c == '三' || c == '四' || c == '五' || c == '六' || c == '七' || c == '八'
    || c == '九' || c == '十' || c == '百'
  }

  /** `^\d+[.\s、]\s*[一-龥]` and not `^\d+\.\d+`. */
  predicate NumberMarkTitle(s: string) {
    var d := DigitRun(s, 0);
    d >= 1 && d < |s| && (s[d] == '.' || IsJsSpace(s[d]) || s[d] == '、') &&
    var w := SpaceRun(s, d + 1);
    d + 1 + w < |s| && IsHan(s[d + 1 + w]) && !TwoPartNumber(s)
  }

  /** `^[一二三四五六七八九十][、\s]\s*[一-龥]`: a single Chinese numeral, a mark and a title. */
  predicate CnMarkTitle(s: string) {
    |s| >= 2 && IsCnTen(s[0]) && (s[1] == '、' || IsJsSpace(s[1])) &&
    var w := SpaceRun(s, 2);
    2 + w < |s| && IsHan(s[2 + w])
  }

  /** The five stand-alone titles detectType knows (here 与 is required in the outlook titles). */
  predicate StandaloneTitle(s: string) {
    SpacedWord(s, "结论") || SpacedWord(s, "总结") || SpacedWord(s, "结束语")
    || SpacedWord(s, "总结与展望") || SpacedWord(s, "结论与展望")
  }

  predicate Heading1Rule(s: string) {
    OrdinalPrefix(s, IsChapterNumeral, '章') || OrdinalPrefix(s, IsDigit, '章')
    || NumberMarkTitle(s) || CnMarkTitle(s) || StandaloneTitle(s)
  }

  /** Position just after `^\d+\.\d+`, or -1. */
  function AfterTwoParts(s: string): (p: int)
    ensures p == -1 || 0 < p <= |s|
    ensures p >= 0 <==> TwoPartNumber(s)
  {
    var d1 := DigitRun(s, 0);
    if d1 >= 1 && d1 < |s| && s[d1] == '.' then
      var d2 := DigitRun(s, d1 + 1);
      if d2 >= 1 then d1 + 1 + d2 else -1
    else -1
  }

  /** `^\d+\.\d+[^\d\.]`. */
  predicate TwoPartThenOther(s: string) {
    var p := AfterTwoParts(s);
    p >= 0 && p < |s| && !IsDigit(s[p]) && s[p] != '.'
  }

  /** `^\d+\.\d+[^\d]`. */
  predicate TwoPartThenNonDigit(s: string) {
    var p := AfterTwoParts(s);
    p >= 0 && p < |s| && !IsDigit(s[p])
  }

  /** `^\d+\.\d+\s*@`: a code annotation such as "1.1 @PostMapping". */
  predicate TwoPartThenAt(s: string) {
    var p := AfterTwoParts(s);
    p >= 0 && var w := SpaceRun(s, p); p + w < |s| && s[p + w] == '@'
  }

  function DotCount(s: string): (n: nat)
    ensures n <= |s|
  {
    if s == [] then 0 else (if s[0] == '.' then 1 else 0) + DotCount(s[1..])
  }

  /** `^\d+\.\d+\.\d+[^\d\.]`. */
  predicate ThreePartThenOther(s: string) {
    var p := ThirdRunStart(s);
    p >= 0 && var d3 := DigitRun(s, p); d3 >= 1 && p + d3 < |s| && !IsDigit(s[p + d3]) && s[p + d3] != '.'
  }

  /** `^[\(（]\d+[\)）]` or `^\d+[\)）]`. */
  predicate ParenNumber(s: string) {
    (|s| >= 1 && IsOpenParen(s[0]) &&
     var d := DigitRun(s, 1); d >= 1 && 1 + d < |s| && IsCloseParen(s[1 + d]))
    || (var d := DigitRun(s, 0); d >= 1 && d < |s| && IsCloseParen(s[d]))
  }

  predicate IsNumberMark(c: char) {
    IsDigit(c) || c == '-' || c == '.'
  }

  /** After a label of length `n`, `\s*[\d\-\.]+`. */
  predicate NumberAfterLabel(s: string, n: nat) {
    n <= |s| && var w := SpaceRun(s, n); Run(s, n + w, IsNumberMark) >= 1
  }

  /** `^续表\s*[\d\-\.]+`. */
  predicate ContinuedLabel(s: string) {
    StartsWith(s, "续表") && NumberAfterLabel(s, 2)
  }

  /** `^(图|表|代码)\s*[\d\-\.]+`. */
  predicate CaptionLabel(s: string) {
    (StartsWith(s, "图") && NumberAfterLabel(s, 1))
    || (StartsWith(s, "表") && NumberAfterLabel(s, 1))
    || (StartsWith(s, "代码") && NumberAfterLabel(s, 2))
  }

  /** The heading-2 test of detectType, inner dot-count check included. */
  predicate Heading2Test(txt: string) {
    TwoPartThenOther(txt) && !EndsWithPunctuation(txt) && !TwoPartThenAt(txt)
    && (DotCount(txt) == 1 || TwoPartThenNonDigit(txt))
  }

  /**
   * The tests of detectType after the image, empty and TOC checks, on the
   * cleaned full text; `titlePunct` is the punctuation test that guards the
   * level-1 rules.
   */
  function KindOfText(txt: string, titlePunct: bool): (k: Kind)
    ensures k !in {Image, Empty, TocLine}
    ensures k == Heading1 <==> !titlePunct && Heading1Rule(txt)
    ensures k in {Heading2, Heading3, Heading4} ==> !EndsWithPunctuation(txt)
    ensures k in {ContinuedCaption, Caption} ==> |txt| < 50 && !HasClausePunct(txt)
  {
    if !titlePunct && Heading1Rule(txt) then Heading1
    else if Heading2Test(txt) then Heading2
    else if ThreePartThenOther(txt) && !EndsWithPunctuation(txt) then Heading3
    else if ParenNumber(txt) && !EndsWithPunctuation(txt) && |txt| < 50 then Heading4
    else if ContinuedLabel(txt) && |txt| < 50 && !HasClausePunct(txt) then ContinuedCaption
    else if CaptionLabel(txt) && |txt| < 50 && !HasClausePunct(txt) && !EndsWith(txt, "如下") then Caption
    else Body
  }

  /** The image, empty and TOC checks, then the tests on the cleaned full text `txt` with the given level-1 punctuation verdict. */
  function KindOf(p: Paragraph, txt: string, titlePunct: bool): (k: Kind)
    ensures k == Image <==> p.hasImage
    ensures k == Empty <==> !p.hasImage && IsEmptyParagraph(p)
    ensures k == TocLine ==> IsTocLine(p.text, p.styleName)
    ensures k == Heading1 <==>
      !p.hasImage && !IsEmptyParagraph(p) && !IsTocLine(p.text, p.styleName) && !titlePunct && Heading1Rule(txt)
  {
    if p.hasImage then Image
    else if IsEmptyParagraph(p) then Empty
    else if IsTocLine(p.text, p.styleName) then TocLine
    else KindOfText(txt, titlePunct)
  }

  /**
   * Detector.detectType as written: the level-1 rules are tried only when the
   * text holds none of `，。；：！？,.;:!?`, the ASCII dot included.
   */
  function DetectTypeAsWritten(p: Paragraph): (k: Kind)
    ensures k == Heading1 <==>
      !p.hasImage && !IsEmptyParagraph(p) && !IsTocLine(p.text, p.styleName)
      && !HasTitlePunct(FullText(p)) && Heading1Rule(FullText(p))
  {
    var txt := CleanText(FullText(p));
    CleanFullText(p);
    KindOf(p, txt, HasTitlePunct(txt))
  }

  /**
   * The level-1 punctuation test with the dot of a leading `\d+\.` exempt,
   * so that "1.绪论" can be a title as the numbered-title rule intends.
   */
  predicate HasTitlePunctAfterNumber(s: string) {
    var d := DigitRun(s, 0);
    exists k | 0 <= k < |s| :: IsTitlePunct(s[k]) && !(d >= 1 && k == d && s[k] == '.')
  }

  /** Detector.detectType with the numbering dot of "1.绪论" exempt from the punctuation test. */
  function DetectType(p: Paragraph): (k: Kind)
    ensures k == Heading1 <==>
      !p.hasImage && !IsEmptyParagraph(p) && !IsTocLine(p.text, p.styleName)
      && !HasTitlePunctAfterNumber(FullText(p)) && Heading1Rule(FullText(p))
  {
    var txt := CleanText(FullText(p));
    CleanFullText(p);
    KindOf(p, txt, HasTitlePunctAfterNumber(txt))
  }

  // ---------------------------------------------------------------------
  // Lemmas.
  // ---------------------------------------------------------------------

  /** A text the heading-2 test accepts is a level-2 arabDot heading for detectHeadingFormat too. */
  lemma Heading2AgreesWithCascade(s: string)
    requires TwoPartThenOther(s)
    ensures DetectHeadingFormat(s) == Some(Heading(2, ArabDot))
  {
    assert IsDigit(s[0]);
    FirstCharRules(s);
    assert ThirdRunStart(s) == -1;
    var d1 := DigitRun(s, 0);
    assert RunNotFollowedByDot(s, d1 + 1, DigitRun(s, d1 + 1));
    DetectIs(s, ArabDot);
  }

  /** A text the heading-3 test accepts is a level-3 arabDotDot heading for detectHeadingFormat too. */
  lemma Heading3AgreesWithCascade(s: string)
    requires ThreePartThenOther(s)
    ensures DetectHeadingFormat(s) == Some(Heading(3, ArabDotDot))
  {
    assert IsDigit(s[0]);
    FirstCharRules(s);
    assert !FourPartNumber(s);
    DetectIs(s, ArabDotDot);
  }

  /** The inner check `dotCount === 1 || /^\d+\.\d+[^\d]/` always holds once the outer heading-2 pattern matched. */
  lemma Heading2InnerCheckRedundant(s: string)
    requires TwoPartThenOther(s)
    ensures TwoPartThenNonDigit(s)
  {
  }

  /** Any text holding an ASCII dot fails the as-written punctuation guard. */
  lemma DotBlocksLevelOne(s: string)
    requires '.' in s
    ensures HasTitlePunct(s)
  {
    var k :| 0 <= k < |s| && s[k] == '.';
    assert IsTitlePunct(s[k]);
  }

  /**
   * Inside the as-written level-1 branch there is no dot, so neither the `.`
   * alternative of `[.\s、]` nor the `^\d+\.\d+` exclusion can ever matter.
   */
  lemma NumberMarkDotIsDead(s: string)
    requires !HasTitlePunct(s) && NumberMarkTitle(s)
    ensures s[DigitRun(s, 0)] != '.'
  {
    var d := DigitRun(s, 0);
    assert !IsTitlePunct(s[d]);
  }

  /** "1.绪论": digits, a dot and Han text with no other punctuation. */
  predicate DottedNumberTitle(s: string) {
    var d := DigitRun(s, 0);
    d >= 1 && d + 1 < |s| && s[d] == '.' && IsHan(s[d + 1])
    && forall k :: d < k < |s| ==> !IsTitlePunct(s[k])
  }

  /** As written, "1.绪论" is never a level-1 heading. */
  lemma DottedTitleNotHeading1AsWritten(p: Paragraph)
    requires DottedNumberTitle(FullText(p))
    ensures DetectTypeAsWritten(p) != Heading1
  {
    var s := FullText(p);
    DotBlocksLevelOne(s);
  }

  /** "1.绪论" passes the corrected punctuation test and the numbered-title rule. */
  lemma DottedTitleText(s: string)
    requires DottedNumberTitle(s)
    ensures !HasTitlePunctAfterNumber(s) && Heading1Rule(s)
  {
    var d := DigitRun(s, 0);
    assert IsDigit(s[0]);
    assert SpaceRun(s, d + 1) == 0 by {
      assert !IsJsSpace(s[d + 1]);
    }
    assert !TwoPartNumber(s) by {
      assert !IsDigit(s[d + 1]);
    }
    assert NumberMarkTitle(s);
    forall k | 0 <= k < |s| && k != d
      ensures !IsTitlePunct(s[k])
    {
      if k < d {
        assert IsDigit(s[k]);
      }
    }
  }

  /** With the numbering dot exempt, "1.绪论" in a plain paragraph is a level-1 heading. */
  lemma DottedTitleIsHeading1(p: Paragraph)
    requires !p.hasImage && !IsEmptyParagraph(p) && !IsTocLine(p.text, p.styleName)
    requires DottedNumberTitle(FullText(p))
    ensures DetectType(p) == Heading1
  {
    CleanFullText(p);
    DottedTitleText(FullText(p));
  }

  /** Without a dot right after a leading number, both punctuation tests agree. */
  lemma PunctTestsAgree(s: string)
    requires var d := DigitRun(s, 0); !(d >= 1 && d < |s| && s[d] == '.')
    ensures HasTitlePunct(s) <==> HasTitlePunctAfterNumber(s)
  {
    if HasTitlePunct(s) {
      var k :| 0 <= k < |s| && IsTitlePunct(s[k]);
      assert IsTitlePunct(s[k]) && !(DigitRun(s, 0) >= 1 && k == DigitRun(s, 0) && s[k] == '.');
    }
  }

  /** The exemption changes nothing for texts that do not open with a number and a dot. */
  lemma CorrectionOnlyAffectsDottedNumbers(p: Paragraph)
    requires var s := FullText(p); var d := DigitRun(s, 0); !(d >= 1 && d < |s| && s[d] == '.')
    ensures DetectType(p) == DetectTypeAsWritten(p)
  {
    CleanFullText(p);
    PunctTestsAgree(FullText(p));
  }
}
