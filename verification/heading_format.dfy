/**
 * Detector.detectHeadingFormat of the thesis formatter: an ordered cascade
 * of fifteen heading patterns, the first that matches deciding the level
 * (1-4) and the numbering format of a heading.
 *
 * Each pattern is a JavaScript regular expression anchored at the start of
 * the text.  A pattern is modelled by the maximal runs it consumes: `\d+`,
 * `[一二…]+` and `\s*` can only succeed on their longest run here, because
 * the character that must follow never belongs to the run.  The one place
 * where backtracking matters, the negative lookahead `(?!\.)`, is modelled
 * explicitly and proved equal to its existential reading.
 */
module HeadingFormat {
  import opened Wrappers
  import opened Text

  datatype Format =
    | ZhangCn | ZhangNum | JieCn | JieNum
    | ArabDotDotDot | ArabDotDot | ArabDot
    | CnComma | CnSpace | CnParen
    | ArabComma | ArabSpace | ArabDot1 | ArabParen
    | Standalone

  datatype Heading = Heading(level: int, format: Format)

  /** Position of each pattern in the cascade. */
  function Rank(f: Format): (n: nat)
    ensures n < 15
  {
    match f
    case ZhangCn => 0 case ZhangNum => 1 case JieCn => 2 case JieNum => 3
    case ArabDotDotDot => 4 case ArabDotDot => 5 case ArabDot => 6
    case CnComma => 7 case CnSpace => 8 case CnParen => 9
    case ArabComma => 10 case ArabSpace => 11 case ArabDot1 => 12 case ArabParen => 13
    case Standalone => 14
  }

  /** The level each pattern assigns. */
  function LevelOf(f: Format): (l: int)
    ensures 1 <= l <= 4
  {
    match f
    case ZhangCn => 1 case ZhangNum => 1 case JieCn => 2 case JieNum => 2
    case ArabDotDotDot => 4 case ArabDotDot => 3 case ArabDot => 2
    case CnComma => 1 case CnSpace => 1 case CnParen => 2
    case ArabComma => 1 case ArabSpace => 1 case ArabDot1 => 1 case ArabParen => 4
    case Standalone => 1
  }

  /** The class `[一二三四五六七八九十百零]`. */
  predicate IsCn(c: char) {
    c == '一' || c == '二' || c == '三' || c == '四' || c == '五' || c == '六' || c == '七' || c == '八'
    || c == '九' || c == '十' || c == '百' || c == '零'
  }

  predicate IsOpenParen(c: char) {
    c == '（' || c == '('
  }

  predicate IsCloseParen(c: char) {
    c == '）' || c == ')'
  }

  /** Words that, after "一 ", make a sentence rather than a heading: 一 个, 三 种, 一 般, … */
  predicate IsCnQuantifier(c: char) {
    c == '个' || c == '多' || c == '种' || c == '项' || c == '条' || c == '件' || c == '位' || c == '名'
    || c == '次' || c == '是' || c == '分' || c == '基' || c == '般' || c == '定' || c == '些' || c == '样'
    || c == '直' || c == '共' || c == '同' || c == '起' || c == '下' || c == '时' || c == '边' || c == '点'
    || c == '面'
  }

  /** Words that, after "10 ", make a quantity rather than a heading: 10 个, 2024 年, 100 万, … */
  predicate IsArabQuantifier(c: char) {
    c == '个' || c == '多' || c == '种' || c == '项' || c == '条' || c == '件' || c == '位' || c == '名'
    || c == '次' || c == '年' || c == '月' || c == '日' || c == '万' || c == '亿' || c == '%'
  }

  /** `^第<run of class p>+<mark>` with the run starting at index 1. */
  predicate OrdinalPrefix(s: string, p: char -> bool, mark: char) {
    |s| >= 1 && s[0] == '第' &&
    var n := Run(s, 1, p);
    n >= 1 && 1 + n < |s| && s[1 + n] == mark
  }

  /** `^\d+\.\d+` — the text opens with a two-part section number. */
  predicate TwoPartNumber(s: string) {
    var d1 := DigitRun(s, 0);
    d1 >= 1 && d1 < |s| && s[d1] == '.' && DigitRun(s, d1 + 1) >= 1
  }

  /** The third number of `^\d+\.\d+\.\d+` starts here (or -1 when the text does not open that way). */
  function ThirdRunStart(s: string): (p: int)
    ensures p == -1 || 0 < p <= |s|
  {
    var d1 := DigitRun(s, 0);
    if d1 >= 1 && d1 < |s| && s[d1] == '.' then
      var d2 := DigitRun(s, d1 + 1);
      if d2 >= 1 && d1 + 1 + d2 < |s| && s[d1 + 1 + d2] == '.' then d1 + 2 + d2 else -1
    else -1
  }

  /** `^\d+\.\d+\.\d+\.\d+`. */
  predicate FourPartNumber(s: string) {
    var p := ThirdRunStart(s);
    p >= 0 &&
    var d3 := DigitRun(s, p);
    d3 >= 1 && p + d3 < |s| && s[p + d3] == '.' && DigitRun(s, p + d3 + 1) >= 1
  }

  /**
   * `X(?!\.)` after a digit run of length `n` at `p`: some non-empty prefix of
   * the run is not followed by a dot.  Only the whole run can be followed by
   * a dot, so this fails exactly when the run is one digit long and a dot follows.
   */
  predicate RunNotFollowedByDot(s: string, p: nat, n: nat)
    requires p + n <= |s|
  {
    n >= 1 && (n >= 2 || p + n == |s| || s[p + n] != '.')
  }

  /** `^\d+\.\d+\.\d+(?!\.)`. */
  predicate ThreePartNumber(s: string) {
    var p := ThirdRunStart(s);
    p >= 0 && RunNotFollowedByDot(s, p, DigitRun(s, p))
  }

  /** `^\d+\.\d+(?!\.)`. */
  predicate TwoPartNumberNoDot(s: string) {
    var d1 := DigitRun(s, 0);
    d1 >= 1 && d1 < |s| && s[d1] == '.' && RunNotFollowedByDot(s, d1 + 1, DigitRun(s, d1 + 1))
  }

  /** `^[一…零]+、[一-龥]`. */
  predicate CnCommaRule(s: string) {
    var n := Run(s, 0, IsCn);
    n >= 1 && n + 1 < |s| && s[n] == '、' && IsHan(s[n + 1])
  }

  /** `^百\s*分`. */
  predicate BaiFen(s: string) {
    |s| >= 1 && s[0] == '百' && var w := SpaceRun(s, 1); 1 + w < |s| && s[1 + w] == '分'
  }

  /** `^零\s*基`. */
  predicate LingJi(s: string) {
    |s| >= 1 && s[0] == '零' && var w := SpaceRun(s, 1); 1 + w < |s| && s[1 + w] == '基'
  }

  /** `^[一…零]+\s+[一-龥]`: the Han character that follows the numeral and the spaces, if the text opens that way. */
  predicate CnSpaceShape(s: string) {
    var n := Run(s, 0, IsCn);
    n >= 1 && var w := SpaceRun(s, n); w >= 1 && n + w < |s| && IsHan(s[n + w])
  }

  /** `^[一…零]+\s+[个多…]`. */
  predicate CnSpaceQuantifier(s: string) {
    var n := Run(s, 0, IsCn);
    n >= 1 && var w := SpaceRun(s, n); w >= 1 && n + w < |s| && IsCnQuantifier(s[n + w])
  }

  predicate CnSpaceRule(s: string) {
    CnSpaceShape(s) && !CnSpaceQuantifier(s) && !BaiFen(s) && !LingJi(s)
  }

  /** `^[（(]<run of p>+[）)]\s*[一-龥]`. */
  predicate ParenRule(s: string, p: char -> bool) {
    |s| >= 1 && IsOpenParen(s[0]) &&
    var n := Run(s, 1, p);
    n >= 1 && 1 + n < |s| && IsCloseParen(s[1 + n]) &&
    var w := SpaceRun(s, 2 + n);
    2 + n + w < |s| && IsHan(s[2 + n + w])
  }

  /** `^\d+、[一-龥]`. */
  predicate ArabCommaRule(s: string) {
    var d := DigitRun(s, 0);
    d >= 1 && d + 1 < |s| && s[d] == '、' && IsHan(s[d + 1])
  }

  predicate ArabSpaceShape(s: string) {
    var d := DigitRun(s, 0);
    d >= 1 && var w := SpaceRun(s, d); w >= 1 && d + w < |s| && IsHan(s[d + w])
  }

  predicate ArabSpaceQuantifier(s: string) {
    var d := DigitRun(s, 0);
    d >= 1 && var w := SpaceRun(s, d); w >= 1 && d + w < |s| && IsArabQuantifier(s[d + w])
  }

  predicate ArabSpaceRule(s: string) {
    ArabSpaceShape(s) && !ArabSpaceQuantifier(s) && !TwoPartNumber(s)
  }

  /** `^\d+\.[一-龥]` and not `^\d+\.\d+`. */
  predicate ArabDot1Rule(s: string) {
    var d := DigitRun(s, 0);
    d >= 1 && d + 1 < |s| && s[d] == '.' && IsHan(s[d + 1]) && !TwoPartNumber(s)
  }

  /**
   * `^w₀\s*w₁\s*…wₙ$`: the whole text is the word `w` with any white space
   * between its characters.
   */
  predicate SpacedWord(s: string, w: string)
    decreases |w|
  {
    if w == [] then s == []
    else
      |s| >= 1 && s[0] == w[0] &&
      (if |w| == 1 then |s| == 1 else SpacedWord(DropWhile(s[1..], IsJsSpace), w[1..]))
  }

  /** The stand-alone headings: conclusion, summary, outlook, closing words, introduction, preface. */
  predicate StandaloneRule(s: string) {
    |s| >= 1 && IsStandaloneInitial(s[0]) &&
    (SpacedWord(s, "结论") || SpacedWord(s, "总结")
    || SpacedWord(s, "结论展望") || SpacedWord(s, "结论与展望")
    || SpacedWord(s, "总结展望") || SpacedWord(s, "总结与展望")
    || SpacedWord(s, "结束语") || SpacedWord(s, "结语")
    || SpacedWord(s, "引言") || SpacedWord(s, "绪论") || SpacedWord(s, "概述") || SpacedWord(s, "前言"))
  }

  /** The first characters of the stand-alone headings. */
  predicate IsStandaloneInitial(c: char) {
    c == '结' || c == '总' || c == '引' || c == '绪' || c == '概' || c == '前'
  }

  /** Whether the pattern of format `f` matches `s`. */
  predicate Matches(f: Format, s: string) {
    match f
    case ZhangCn => OrdinalPrefix(s, IsCn, '章')
    case ZhangNum => OrdinalPrefix(s, IsDigit, '章')
    case JieCn => OrdinalPrefix(s, IsCn, '节')
    case JieNum => OrdinalPrefix(s, IsDigit, '节')
    case ArabDotDotDot => FourPartNumber(s)
    case ArabDotDot => ThreePartNumber(s)
    case ArabDot => TwoPartNumberNoDot(s)
    case CnComma => CnCommaRule(s)
    case CnSpace => CnSpaceRule(s)
    case CnParen => ParenRule(s, IsCn)
    case ArabComma => ArabCommaRule(s)
    case ArabSpace => ArabSpaceRule(s)
    case ArabDot1 => ArabDot1Rule(s)
    case ArabParen => ParenRule(s, IsDigit)
    case Standalone => StandaloneRule(s)
  }

  /** The pattern tried at position `i` of the cascade. */
  function FormatAt(i: nat): (f: Format)
    requires i < 15
    ensures Rank(f) == i
  {
    [ZhangCn, ZhangNum, JieCn, JieNum,
     ArabDotDotDot, ArabDotDot, ArabDot,
     CnComma, CnSpace, CnParen,
     ArabComma, ArabSpace, ArabDot1, ArabParen,
     Standalone][i]
  }

  lemma FormatAtRank(f: Format)
    ensures FormatAt(Rank(f)) == f
  {
  }

  /** The first pattern from position `i` of the cascade on that matches `s`. */
  function FirstMatch(s: string, i: nat): (r: Option<Format>)
    requires i <= 15
    ensures r.Some? ==> i <= Rank(r.value) && Matches(r.value, s)
    ensures forall f :: i <= Rank(f) && (r.None? || Rank(f) < Rank(r.value)) ==> !Matches(f, s)
    decreases 15 - i
  {
    if i == 15 then None
    else
      var f := FormatAt(i);
      var r := if Matches(f, s) then Some(f) else FirstMatch(s, i + 1);
      assert forall g :: Rank(g) == i ==> g == f by {
        forall g | Rank(g) == i ensures g == f { FormatAtRank(g); }
      }
      r
  }

  /**
   * Detector.detectHeadingFormat: the result is the level and format of the
   * first pattern in the cascade that matches, or None when none does.
   */
  function DetectHeadingFormat(s: string): (r: Option<Heading>)
    ensures r.Some? ==> 1 <= r.value.level <= 4 && r.value.level == LevelOf(r.value.format)
    ensures r.Some? ==> Matches(r.value.format, s)
    ensures r.Some? ==> forall f :: Rank(f) < Rank(r.value.format) ==> !Matches(f, s)
    ensures r.None? <==> forall f :: !Matches(f, s)
  {
    match FirstMatch(s, 0)
    case None => None
    case Some(f) => Some(Heading(LevelOf(f), f))
  }

  /** The cascade picks `g` exactly when `g` matches and no earlier pattern does. */
  lemma DetectIs(s: string, g: Format)
    requires Matches(g, s)
    requires forall f :: Rank(f) < Rank(g) ==> !Matches(f, s)
    ensures DetectHeadingFormat(s) == Some(Heading(LevelOf(g), g))
  {
    var r := DetectHeadingFormat(s);
    assert r.Some?;
    var h := r.value.format;
    assert Rank(h) == Rank(g);
    FormatAtRank(h);
    FormatAtRank(g);
  }

  /** The format list isChapter1Title accepts. */
  predicate IsChapterFormat(f: Format) {
    f in [ZhangCn, ZhangNum, CnComma, CnSpace, ArabComma, ArabSpace, ArabDot1, Standalone]
  }

  /** Detector.isChapter1Title on a detected heading: level 1 and one of the eight chapter formats. */
  predicate IsChapter1Heading(h: Option<Heading>) {
    h.Some? && h.value.level == 1 && IsChapterFormat(h.value.format)
  }

  predicate IsChapter1Title(s: string) {
    IsChapter1Heading(DetectHeadingFormat(s))
  }

  /** The format list in isChapter1Title names every level-1 format, so it only restates the level test. */
  lemma ChapterFormatsAreLevelOne(f: Format)
    ensures IsChapterFormat(f) <==> LevelOf(f) == 1
  {
  }

  /** For any heading the cascade can report, being a chapter-1 title is being a level-1 heading. */
  lemma Chapter1TitleIsLevelOne(h: Option<Heading>)
    requires h.Some? ==> h.value.level == LevelOf(h.value.format)
    ensures IsChapter1Heading(h) <==> (h.Some? && h.value.level == 1)
  {
    if h.Some? {
      ChapterFormatsAreLevelOne(h.value.format);
    }
  }

  datatype ThesisType = Type1Or3 | Type2 | Type1 | UnknownType

  /** Detector.detectThesisType: the numbering scheme implied by the first chapter's format. */
  function DetectThesisType(first: Option<Format>): (t: ThesisType)
    ensures t == Type1Or3 <==> first == Some(ZhangCn) || first == Some(ZhangNum)
    ensures t == Type2 <==> first == Some(CnComma)
    ensures t == Type1 <==> first == Some(ArabSpace)
  {
    match first
    case Some(ZhangCn) => Type1Or3
    case Some(ZhangNum) => Type1Or3
    case Some(CnComma) => Type2
    case Some(ArabSpace) => Type1
    case _ => UnknownType
  }

  // ---------------------------------------------------------------------
  // Lemmas about the cascade.
  // ---------------------------------------------------------------------

  /** A run is exactly `n` long when `n` characters satisfy `p` and the next one does not. */
  lemma {:induction false} RunExact(s: string, i: nat, n: nat, p: char -> bool)
    requires i + n <= |s|
    requires forall k :: i <= k < i + n ==> p(s[k])
    requires i + n == |s| || !p(s[i + n])
    ensures Run(s, i, p) == n
    decreases n
  {
    if n > 0 {
      RunExact(s, i + 1, n - 1, p);
    }
  }

  /** The character `k` places after `p` is not a dot, or the text ends there. */
  predicate NoDotAfter(s: string, p: nat, k: nat) {
    p + k >= |s| || s[p + k] != '.'
  }

  /**
   * The lookahead `(?!\.)` read as the regular-expression engine reads it:
   * the engine may give back digits of the run, so it succeeds when some
   * prefix of at least one digit is not followed by a dot.
   */
  predicate LookaheadHolds(s: string, p: nat, n: nat) {
    exists k :: 1 <= k <= n && NoDotAfter(s, p, k)
  }

  /** Only the whole digit run can be followed by a dot, which is what RunNotFollowedByDot tests. */
  lemma RunNotFollowedByDotMeansLookahead(s: string, p: nat)
    requires p <= |s|
    ensures RunNotFollowedByDot(s, p, DigitRun(s, p)) <==> LookaheadHolds(s, p, DigitRun(s, p))
  {
    var n := DigitRun(s, p);
    if n >= 2 {
      assert IsDigit(s[p + 1]);
      assert NoDotAfter(s, p, 1);
    } else if n == 1 && RunNotFollowedByDot(s, p, n) {
      assert NoDotAfter(s, p, 1);
    }
  }

  /** Facts that follow from the first character alone. */
  lemma FirstCharRules(s: string)
    requires |s| >= 1
    ensures s[0] != '第' ==> !Matches(ZhangCn, s) && !Matches(ZhangNum, s) && !Matches(JieCn, s) && !Matches(JieNum, s)
    ensures !IsOpenParen(s[0]) ==> !Matches(CnParen, s) && !Matches(ArabParen, s)
    ensures !IsDigit(s[0]) ==> (!Matches(ArabDotDotDot, s) && !Matches(ArabDotDot, s) && !Matches(ArabDot, s)
                                && !Matches(ArabComma, s) && !Matches(ArabSpace, s) && !Matches(ArabDot1, s))
    ensures !IsCn(s[0]) ==> !Matches(CnComma, s) && !Matches(CnSpace, s)
    ensures !IsStandaloneInitial(s[0]) ==> !Matches(Standalone, s)
  {
  }

  /** A four-part section number is always level 4, before the three- and two-part rules are tried. */
  lemma FourPartIsLevelFour(s: string)
    requires FourPartNumber(s)
    ensures DetectHeadingFormat(s) == Some(Heading(4, ArabDotDotDot))
  {
    assert IsDigit(s[0]);
    FirstCharRules(s);
    DetectIs(s, ArabDotDotDot);
  }

  /** "1.2.3." (one-digit second and third parts, a dot after the third) is neither level 3 nor level 2. */
  lemma TrailingDotAfterThreeParts(s: string)
    requires ThirdRunStart(s) >= 0
    requires DigitRun(s, DigitRun(s, 0) + 1) == 1
    requires var p := ThirdRunStart(s); DigitRun(s, p) == 1 && p + 1 < |s| && s[p + 1] == '.'
    ensures !ThreePartNumber(s) && !TwoPartNumberNoDot(s)
  {
  }

  /** A numeral, spaces and a quantifier ("10 个", "2024 年") do not form a heading of any kind. */
  lemma ArabQuantifierNone(s: string)
    requires ArabSpaceQuantifier(s)
    ensures DetectHeadingFormat(s) == None
  {
    var d := DigitRun(s, 0);
    assert IsDigit(s[0]) && IsJsSpace(s[d]);
    FirstCharRules(s);
    DigitsThenOther(s);
    assert !Matches(ArabSpace, s);
    AllRulesFail(s);
  }

  /** Digits followed by neither a dot nor 、 rule out every dotted and comma pattern. */
  lemma DigitsThenOther(s: string)
    requires DigitRun(s, 0) < |s| && s[DigitRun(s, 0)] != '.' && s[DigitRun(s, 0)] != '、'
    ensures !Matches(ArabDotDotDot, s) && !Matches(ArabDotDot, s) && !Matches(ArabDot, s)
    ensures !Matches(ArabComma, s) && !Matches(ArabDot1, s)
  {
    assert ThirdRunStart(s) == -1;
  }

  /** The same with the numeral, the spaces and the quantifier given as pieces of the text. */
  lemma ArabQuantifierIsNotHeading(d: string, w: string, q: char, rest: string)
    requires |d| >= 1 && AllDigits(d)
    requires |w| >= 1 && forall k :: 0 <= k < |w| ==> IsJsSpace(w[k])
    requires IsArabQuantifier(q)
    ensures DetectHeadingFormat(d + w + [q] + rest) == None
  {
    ArabSpacePieces(d, w, q, rest);
    ArabQuantifierNone(d + w + [q] + rest);
  }

  /** In numeral + spaces + c + rest, the numeral and the spaces are maximal runs and c follows them. */
  lemma NumeralSpacesThen(n: string, w: string, c: char, rest: string, p: char -> bool)
    requires |n| >= 1 && forall k :: 0 <= k < |n| ==> p(n[k])
    requires |w| >= 1 && forall k :: 0 <= k < |w| ==> IsJsSpace(w[k])
    requires forall k :: 0 <= k < |w| ==> !p(w[k])
    requires !IsJsSpace(c)
    ensures var s := n + w + [c] + rest;
      Run(s, 0, p) == |n| && SpaceRun(s, |n|) == |w| && s[|n| + |w|] == c && |n| + |w| < |s|
  {
    var s := n + w + [c] + rest;
    assert forall k :: 0 <= k < |n| ==> s[k] == n[k];
    assert forall k :: 0 <= k < |w| ==> s[|n| + k] == w[k];
    assert s[|n| + |w|] == c;
    RunExact(s, 0, |n|, p);
    RunExact(s, |n|, |w|, IsJsSpace);
  }

  /** Digits, spaces and a character `c`: the shape the numeral-space rule and its exclusion test. */
  lemma ArabSpacePieces(d: string, w: string, c: char, rest: string)
    requires |d| >= 1 && AllDigits(d)
    requires |w| >= 1 && forall k :: 0 <= k < |w| ==> IsJsSpace(w[k])
    requires IsHan(c) || IsArabQuantifier(c)
    ensures var s := d + w + [c] + rest;
      DigitRun(s, 0) == |d| && SpaceRun(s, |d|) == |w| && |d| + |w| < |s| && s[|d| + |w|] == c
    ensures IsHan(c) ==> ArabSpaceShape(d + w + [c] + rest)
    ensures IsArabQuantifier(c) ==> ArabSpaceQuantifier(d + w + [c] + rest)
    ensures !IsArabQuantifier(c) ==> !ArabSpaceQuantifier(d + w + [c] + rest)
  {
    NumeralSpacesThen(d, w, c, rest, IsDigit);
  }

  /** Chinese numerals, spaces and a character `c`: the shape the numeral-space rule and its exclusion test. */
  lemma CnSpacePieces(n: string, w: string, c: char, rest: string)
    requires |n| >= 1 && forall k :: 0 <= k < |n| ==> IsCn(n[k])
    requires |w| >= 1 && forall k :: 0 <= k < |w| ==> IsJsSpace(w[k])
    requires IsHan(c) || IsCnQuantifier(c)
    ensures var s := n + w + [c] + rest;
      Run(s, 0, IsCn) == |n| && SpaceRun(s, |n|) == |w| && |n| + |w| < |s| && s[|n| + |w|] == c
    ensures IsCnQuantifier(c) ==> CnSpaceQuantifier(n + w + [c] + rest)
  {
    NumeralSpacesThen(n, w, c, rest, IsCn);
  }

  /** A Chinese numeral, spaces and a measure word ("一 个", "三 种") do not form a heading of any kind. */
  lemma CnQuantifierNone(s: string)
    requires CnSpaceQuantifier(s)
    ensures DetectHeadingFormat(s) == None
  {
    var n := Run(s, 0, IsCn);
    assert IsCn(s[0]) && IsJsSpace(s[n]);
    FirstCharRules(s);
    assert !Matches(CnComma, s);
    assert !Matches(CnSpace, s);
    AllRulesFail(s);
  }

  lemma AllRulesFail(s: string)
    requires !Matches(ZhangCn, s) && !Matches(ZhangNum, s) && !Matches(JieCn, s) && !Matches(JieNum, s)
    requires !Matches(ArabDotDotDot, s) && !Matches(ArabDotDot, s) && !Matches(ArabDot, s)
    requires !Matches(CnComma, s) && !Matches(CnSpace, s) && !Matches(CnParen, s)
    requires !Matches(ArabComma, s) && !Matches(ArabSpace, s) && !Matches(ArabDot1, s) && !Matches(ArabParen, s)
    requires !Matches(Standalone, s)
    ensures DetectHeadingFormat(s) == None
  {
    forall f
      ensures !Matches(f, s)
    {
      match f {
        case ZhangCn => case ZhangNum => case JieCn => case JieNum =>
        case ArabDotDotDot => case ArabDotDot => case ArabDot =>
        case CnComma => case CnSpace => case CnParen =>
        case ArabComma => case ArabSpace => case ArabDot1 => case ArabParen =>
        case Standalone =>
      }
    }
  }

  lemma CnQuantifierIsNotHeading(n: string, w: string, q: char, rest: string)
    requires |n| >= 1 && forall k :: 0 <= k < |n| ==> IsCn(n[k])
    requires |w| >= 1 && forall k :: 0 <= k < |w| ==> IsJsSpace(w[k])
    requires IsCnQuantifier(q)
    ensures DetectHeadingFormat(n + w + [q] + rest) == None
  {
    CnSpacePieces(n, w, q, rest);
    CnQuantifierNone(n + w + [q] + rest);
  }

  lemma SecondCharNotCn(s: string)
    requires BaiFen(s) || LingJi(s)
    ensures !IsCn(s[1])
  {
    var w := SpaceRun(s, 1);
    if w == 0 {
      assert s[1] == '分' || s[1] == '基';
    } else {
      assert IsJsSpace(s[1]);
    }
  }

  /** The exclusions `^百\s*分` and `^零\s*基` never reject a text the measure-word exclusion lets through. */
  lemma BaiFenLingJiRedundant(s: string)
    requires CnSpaceShape(s)
    requires BaiFen(s) || LingJi(s)
    ensures CnSpaceQuantifier(s)
  {
    SecondCharNotCn(s);
    RunExact(s, 0, 1, IsCn);
  }

  /** After "12 " comes no dot, so the `^\d+\.\d+` exclusion of the numeral-space rule never fires. */
  lemma ArabSpaceDotExclusionRedundant(s: string)
    requires ArabSpaceShape(s)
    ensures !TwoPartNumber(s)
  {
    var d := DigitRun(s, 0);
    assert IsJsSpace(s[d]);
  }

  /** "1 绪论": digits, spaces and a Han character other than a quantifier form a level-1 chapter. */
  lemma ArabSpaceChapter(d: string, w: string, h: char, rest: string)
    requires |d| >= 1 && AllDigits(d)
    requires |w| >= 1 && forall k :: 0 <= k < |w| ==> IsJsSpace(w[k])
    requires IsHan(h) && !IsArabQuantifier(h)
    ensures DetectHeadingFormat(d + w + [h] + rest) == Some(Heading(1, ArabSpace))
  {
    ArabSpacePieces(d, w, h, rest);
    ArabSpaceWins(d + w + [h] + rest);
  }

  lemma ArabSpaceWins(s: string)
    requires ArabSpaceShape(s) && !ArabSpaceQuantifier(s)
    ensures DetectHeadingFormat(s) == Some(Heading(1, ArabSpace))
  {
    var d := DigitRun(s, 0);
    assert IsDigit(s[0]) && IsJsSpace(s[d]);
    FirstCharRules(s);
    ArabSpaceDotExclusionRedundant(s);
    DigitsThenOther(s);
    DetectIs(s, ArabSpace);
  }

  /** "第三章 …": 第, Chinese numerals and 章 always form a level-1 zhangCn heading. */
  lemma ZhangCnChapter(n: string, rest: string)
    requires |n| >= 1 && forall k :: 0 <= k < |n| ==> IsCn(n[k])
    ensures DetectHeadingFormat("第" + n + "章" + rest) == Some(Heading(1, ZhangCn))
  {
    var s := "第" + n + "章" + rest;
    assert forall k :: 0 <= k < |n| ==> s[1 + k] == n[k];
    assert s[1 + |n|] == '章';
    RunExact(s, 1, |n|, IsCn);
    DetectIs(s, ZhangCn);
  }
}
