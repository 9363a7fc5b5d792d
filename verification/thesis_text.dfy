/**
 * Paragraph-level text utilities of the WPS thesis formatter: control
 * character cleaning, the table-of-contents line test, the terminal
 * punctuation test and the "full text" of a paragraph (automatic list
 * number followed by the paragraph text).
 *
 * A paragraph is modelled by the four things the formatter reads from the
 * host: its raw text (with the '\r' paragraph mark and any '\f' page break),
 * its automatic list string, its paragraph style name and whether it holds
 * an inline picture.
 */
module ThesisText {
  import opened Text

  datatype Paragraph = Paragraph(text: string, listString: string, styleName: string, hasImage: bool)

  /** The code units cleanText skips: tab, LF, page break, CR, column/section breaks, 28-30. */
  predicate IsControl(c: char) {
    c == '\t' || c == '\n' || c == '\U{000C}' || c == '\r' || c == '\U{000E}'
    || c == '\U{001C}' || c == '\U{001D}' || c == '\U{001E}'
  }

  predicate NoControl(s: string) {
    forall k :: 0 <= k < |s| ==> !IsControl(s[k])
  }

  /** Text with no control characters and no JavaScript white space at either end. */
  predicate IsClean(s: string) {
    NoControl(s) && (s == [] || (!IsJsSpace(s[0]) && !IsJsSpace(s[|s| - 1])))
  }

  function RemoveControl(s: string): (r: string)
    ensures NoControl(r)
    ensures |r| <= |s|
    ensures NoControl(s) ==> r == s
  {
    if s == [] then []
    else if IsControl(s[0]) then RemoveControl(s[1..])
    else (assert s == [s[0]] + s[1..]; [s[0]] + RemoveControl(s[1..]))
  }

  /**
   * Utils.cleanText: the control characters are dropped, then white space is
   * trimmed from both ends.  CleanTextIsTrimmedFilter states which slice of
   * the filtered text remains.
   */
  function CleanText(text: string): (r: string)
    ensures IsClean(r)
    ensures |r| <= |text|
  {
    if text == [] then "" else
      var f := RemoveControl(text);
      TrimmedNoControl(f);
      TrimJs(f)
  }

  lemma TrimmedNoControl(f: string)
    requires NoControl(f)
    ensures NoControl(TrimJs(f))
  {
    TrimJsSlice(f);
    var a, b :| TrimmedSliceOf(TrimJs(f), f, a, b);
    SliceNoControl(f, a, b);
  }

  /** What cleanText keeps: the filtered text minus white space at both ends, and nothing else. */
  lemma CleanTextIsTrimmedFilter(text: string)
    ensures exists a, b :: TrimmedSliceOf(CleanText(text), RemoveControl(text), a, b)
  {
    var f := RemoveControl(text);
    if text == [] {
      assert f == [];
      assert TrimmedSliceOf(CleanText(text), f, 0, 0);
    } else {
      assert CleanText(text) == TrimJs(f);
      TrimJsSlice(f);
    }
  }

  lemma SliceNoControl(s: string, a: int, b: int)
    requires NoControl(s) && 0 <= a <= b <= |s|
    ensures NoControl(s[a..b])
  {
    assert forall k :: 0 <= k < b - a ==> s[a..b][k] == s[a + k];
  }

  /** A clean text is left unchanged by cleanText. */
  lemma CleanTextOfClean(s: string)
    requires IsClean(s)
    ensures CleanText(s) == s
  {
    if s != [] {
      var f := RemoveControl(s);
      assert f == s;
      CleanTextIsTrimmedFilter(s);
      var a, b :| TrimmedSliceOf(CleanText(s), f, a, b);
      assert !IsJsSpace(f[0]) && !IsJsSpace(f[|f| - 1]);
      assert a == 0 && b == |f|;
    }
  }

  /** Cleaning twice is the same as cleaning once. */
  lemma CleanTextIdempotent(text: string)
    ensures CleanText(CleanText(text)) == CleanText(text)
  {
    CleanTextOfClean(CleanText(text));
  }

  /** The characters Utils.endsWithPunctuation looks for: Chinese and Latin terminal or pause marks. */
  const EndPunctuation: string := "。；，：.;,、！？!?"

  /** Utils.endsWithPunctuation: the last character is one of `EndPunctuation`; the empty text is not. */
  predicate EndsWithPunctuation(txt: string) {
    |txt| > 0 && txt[|txt| - 1] in EndPunctuation
  }

  /**
   * The test looks at the last character only: a text extended by `c` ends
   * with punctuation exactly when `c` is a mark, whatever came before, and
   * text put in front of a non-empty text does not change the verdict.
   */
  lemma EndsWithPunctuationLastOnly(pre: string, s: string, c: char)
    ensures EndsWithPunctuation(s + [c]) <==> c in EndPunctuation
    ensures s != [] ==> (EndsWithPunctuation(pre + s) <==> EndsWithPunctuation(s))
    ensures !EndsWithPunctuation([])
  {
    if s != [] {
      assert (pre + s)[|pre + s| - 1] == s[|s| - 1];
    }
  }

  /** Utils.getFullText: the cleaned list string (when there is one) followed by the cleaned text. */
  function FullText(p: Paragraph): (r: string)
    ensures IsClean(r)
    ensures p.listString == [] ==> r == CleanText(p.text)
    ensures EndsWith(r, CleanText(p.text))
  {
    var txt := CleanText(p.text);
    if p.listString != [] then
      var ls := CleanText(p.listString);
      ConcatClean(ls, txt);
      ls + txt
    else txt
  }

  lemma ConcatClean(x: string, y: string)
    requires IsClean(x) && IsClean(y)
    ensures IsClean(x + y)
  {
    assert forall k :: 0 <= k < |x + y| ==> (x + y)[k] == if k < |x| then x[k] else y[k - |x|];
  }

  /** The full text is already clean, so detectType's extra cleanText changes nothing. */
  lemma CleanFullText(p: Paragraph)
    ensures CleanText(FullText(p)) == FullText(p)
  {
    CleanTextOfClean(FullText(p));
  }

  /** Utils.isEmpty: no picture, no list number, and nothing but white space in the text. */
  predicate IsEmptyParagraph(p: Paragraph) {
    !p.hasImage && p.listString == [] && forall k :: 0 <= k < |p.text| ==> IsJsSpace(p.text[k])
  }

  /** Utils.hasPageBreak: the raw text holds a page-break character. */
  predicate HasPageBreak(text: string) {
    '\U{000C}' in text
  }

  // ---------------------------------------------------------------------
  // The table-of-contents line test.
  // ---------------------------------------------------------------------

  predicate IsRomanLetter(c: char) {
    c in "IVXLCDMivxlcdm"
  }

  predicate IsCrLf(c: char) {
    c == '\r' || c == '\n'
  }

  /** `/(\d+|[IVXLCDM]+)[\r\n]*$/i`: a page number (Arabic or Roman) ends the text, before any line breaks. */
  predicate EndsWithPageNumber(text: string) {
    var t := DropWhileEnd(text, IsCrLf);
    |t| > 0 && (IsDigit(t[|t| - 1]) || IsRomanLetter(t[|t| - 1]))
  }

  /** The ten Chinese numerals 一 … 十 of the TOC patterns. */
  predicate IsCnTen(c: char) {
    c in "一二三四五六七八九十"
  }

  predicate IsCnTenOrDigit(c: char) {
    IsCnTen(c) || IsDigit(c)
  }

  /** `^第[一二三四五六七八九十\d]+章`. */
  predicate ChapterPrefix(s: string) {
    |s| >= 1 && s[0] == '第' &&
    var n := Run(s, 1, IsCnTenOrDigit);
    n >= 1 && 1 + n < |s| && s[1 + n] == '章'
  }

  /**
   * Length of the longest prefix of the form `\d+(\.\d+)*` starting at `i`
   * (0 when there is no digit at `i`).
   */
  function DottedNumberLen(s: string, i: nat): (n: nat)
    requires i <= |s|
    ensures i + n <= |s|
    decreases |s| - i
  {
    var d := DigitRun(s, i);
    if d == 0 then 0
    else if i + d + 1 < |s| && s[i + d] == '.' && IsDigit(s[i + d + 1]) then
      d + 1 + DottedNumberLen(s, i + d + 1)
    else d
  }

  /** `^\d+(\.\d+)*\s`. */
  predicate DottedNumberThenSpace(s: string) {
    var n := DottedNumberLen(s, 0);
    n >= 1 && n < |s| && IsJsSpace(s[n])
  }

  /** `^[一二三四五六七八九十]+[、\s]`. */
  predicate CnEnumPrefix(s: string) {
    var n := Run(s, 0, IsCnTen);
    n >= 1 && n < |s| && (s[n] == '、' || IsJsSpace(s[n]))
  }

  function RemoveCrLfTab(s: string): (r: string)
    ensures forall k :: 0 <= k < |r| ==> !IsCrLf(r[k]) && r[k] != '\t'
  {
    if s == [] then []
    else if IsCrLf(s[0]) || s[0] == '\t' then RemoveCrLfTab(s[1..])
    else [s[0]] + RemoveCrLfTab(s[1..])
  }

  /** The style-name test `/目录|TOC|toc/i`. */
  predicate IsTocStyleName(name: string) {
    Contains(name, "目录") || Contains(Lower(name), "toc")
  }

  /**
   * Utils.isTocLine: a tab followed by a trailing page number, a TOC
   * paragraph style, or a short tabbed line that opens like a heading.
   */
  predicate IsTocLine(text: string, styleName: string) {
    ('\t' in text && EndsWithPageNumber(text))
    || IsTocStyleName(styleName)
    || ('\t' in text && |text| < 50 &&
        var c := TrimJs(RemoveCrLfTab(text));
        ChapterPrefix(c) || DottedNumberThenSpace(c) || CnEnumPrefix(c))
  }

  /** A line without a tab is a TOC line only by its style. */
  lemma TocLineNeedsTabOrStyle(text: string, styleName: string)
    requires '\t' !in text
    ensures IsTocLine(text, styleName) <==> IsTocStyleName(styleName)
  {
  }

  /** A tabbed line ending in a page number is a TOC line, whatever follows it in line breaks. */
  lemma TabAndPageNumberIsToc(body: string, page: char, breaks: string, styleName: string)
    requires '\t' in body && (IsDigit(page) || IsRomanLetter(page))
    requires forall k :: 0 <= k < |breaks| ==> IsCrLf(breaks[k])
    ensures IsTocLine(body + [page] + breaks, styleName)
  {
    var text := body + [page] + breaks;
    assert text[|body|] == page;
    TrailingBreaksDropped(body + [page], breaks);
  }

  lemma {:induction false} TrailingBreaksDropped(s: string, breaks: string)
    requires s != [] && !IsCrLf(s[|s| - 1])
    requires forall k :: 0 <= k < |breaks| ==> IsCrLf(breaks[k])
    ensures DropWhileEnd(s + breaks, IsCrLf) == s
    decreases |breaks|
  {
    if breaks == [] {
      assert s + breaks == s;
    } else {
      var b := breaks[..|breaks| - 1];
      assert (s + breaks)[..|s + breaks| - 1] == s + b;
      TrailingBreaksDropped(s, b);
    }
  }
}
