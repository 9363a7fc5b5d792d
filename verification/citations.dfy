/**
 * The CitationManager's text-level logic: parsing the numbers of a citation
 * marker, scanning paragraphs for `[n]` / `[n,m,...]` markers, recognising
 * reference entries by their document-type tag, locating the first
 * reference item among the host's numbered items, and the order in which
 * processAll replaces the cited numbers.
 */
module Citations {
  import opened Wrappers
  import opened Text

  // ---------------------------------------------------------------------
  // JavaScript parseInt (radix omitted).
  // ---------------------------------------------------------------------

  predicate IsHexDigit(c: char) {
    IsDigit(c) || ('a' <= c <= 'f') || ('A' <= c <= 'F')
  }

  function HexDigitValue(c: char): (v: nat)
    requires IsHexDigit(c)
    ensures v < 16
  {
    if IsDigit(c) then c as int - '0' as int
    else if 'a' <= c <= 'f' then c as int - 'a' as int + 10
    else c as int - 'A' as int + 10
  }

  function HexValue(s: string): nat
    requires forall k :: 0 <= k < |s| ==> IsHexDigit(s[k])
  {
    if s == [] then 0 else HexValue(s[..|s| - 1]) * 16 + HexDigitValue(s[|s| - 1])
  }

  /** The magnitude parseInt reads from `u` (after the sign): hexadecimal after 0x/0X, else decimal; None is NaN. */
  function ParseMagnitude(u: string): (r: Option<nat>)
    ensures r.None? <==> (if |u| >= 2 && u[0] == '0' && (u[1] == 'x' || u[1] == 'X')
                          then |u| == 2 || !IsHexDigit(u[2])
                          else u == [] || !IsDigit(u[0]))
  {
    if |u| >= 2 && u[0] == '0' && (u[1] == 'x' || u[1] == 'X') then
      var h := Run(u, 2, IsHexDigit);
      if h == 0 then None else Some(HexValue(u[2..2 + h]))
    else
      var d := DigitRun(u, 0);
      if d == 0 then None else Some(DigitsValue(u[..d]))
  }

  /**
   * `parseInt(s)`: leading white space is skipped, one optional sign is
   * read, then the longest digit prefix; None stands for NaN.
   */
  function ParseIntJs(s: string): (r: Option<int>) {
    var t := DropWhile(s, IsJsSpace);
    var neg := |t| > 0 && t[0] == '-';
    var signed := |t| > 0 && (t[0] == '-' || t[0] == '+');
    var m := ParseMagnitude(if signed then t[1..] else t);
    if m.None? then None else var v: int := m.value; Some(if neg then -v else v)
  }

  /** parseInt reads a printed natural number back. */
  lemma ParseIntOfDigits(s: string)
    requires s != [] && AllDigits(s)
    requires |s| < 2 || s[1] != 'x'
    ensures ParseIntJs(s) == Some(DigitsValue(s))
  {
    assert DropWhile(s, IsJsSpace) == s;
    assert s[..DigitRun(s, 0)] == s;
  }

  lemma ParseIntOfNatToString(n: nat)
    ensures ParseIntJs(NatToString(n)) == Some(n)
  {
    var s := NatToString(n);
    ParseIntOfDigits(s);
    NatToStringRoundTrip(n);
  }

  // ---------------------------------------------------------------------
  // CitationManager.parseNumbers.
  // ---------------------------------------------------------------------

  /** The integers from `a` to `b`, as the `for (j = a; j <= b; j++)` loop pushes them. */
  function Interval(a: int, b: int): (r: seq<Option<int>>)
    ensures |r| == if a <= b then b - a + 1 else 0
    ensures forall k :: 0 <= k < |r| ==> r[k] == Some(a + k)
    decreases b - a
  {
    if a > b then [] else [Some(a)] + Interval(a + 1, b)
  }

  /**
   * One comma-separated part: a range `x-y` (a dash after the first
   * character) expands to x..y, anything else is parsed as one number.
   */
  function ParsePart(part: string): seq<Option<int>>
  {
    ParseTrimmed(TrimJs(part))
  }

  /** ParsePart after `trim`. */
  function ParseTrimmed(p: string): seq<Option<int>>
  {
    if IndexOfFrom(p, '-', 0) > 0 then
      var range := Split(p, '-');
      var a := ParseIntJs(range[0]);
      var b := ParseIntJs(range[1]);
      if a.Some? && b.Some? then Interval(a.value, b.value) else []
    else [ParseIntJs(p)]
  }

  function ParseParts(parts: seq<string>): seq<Option<int>> {
    if parts == [] then [] else ParsePart(parts[0]) + ParseParts(parts[1..])
  }

  /** CitationManager.parseNumbers. */
  function ParseNumbers(str: string): seq<Option<int>> {
    ParseParts(Split(str, ','))
  }

  // ---------------------------------------------------------------------
  // The citation-content pattern `^\d+(?:,\d+)*$`.
  // ---------------------------------------------------------------------

  /**
   * The matcher of `\d+(?:,\d+)*$` on `c`, where `afterDigit` says whether a
   * digit was just read: digits may always follow, a comma only after a
   * digit, and the text may end only after a digit.
   */
  predicate Groups(c: string, afterDigit: bool)
    decreases |c|
  {
    if c == [] then afterDigit
    else if IsDigit(c[0]) then Groups(c[1..], true)
    else c[0] == ',' && afterDigit && Groups(c[1..], false)
  }

  /** `/^\d+(?:,\d+)*$/`: digit groups separated by single commas. */
  predicate IsCitationContent(c: string) {
    Groups(c, false)
  }

  /** Matched text holds only digits and commas. */
  lemma {:induction false} GroupsChars(c: string, b: bool)
    requires Groups(c, b)
    ensures forall k :: 0 <= k < |c| ==> IsDigit(c[k]) || c[k] == ','
    decreases |c|
  {
    if c != [] {
      GroupsChars(c[1..], IsDigit(c[0]));
      assert forall k :: 1 <= k < |c| ==> c[k] == c[1..][k - 1];
    }
  }

  /** Reading a run of digits: the matcher continues after it, having seen a digit if the run was non-empty. */
  lemma {:induction false} GroupsAfterDigits(d: string, t: string, b: bool)
    requires AllDigits(d)
    ensures Groups(d + t, b) <==> Groups(t, b || d != [])
    decreases |d|
  {
    if d != [] {
      assert (d + t)[1..] == d[1..] + t;
      GroupsAfterDigits(d[1..], t, true);
    } else {
      assert d + t == t;
    }
  }

  /** Up to its first comma, a citation content is a digit group, and a content follows the comma. */
  lemma FirstGroup(c: string, i: int)
    requires IsCitationContent(c) && i == IndexOfFrom(c, ',', 0) && i >= 0
    ensures c[..i] != [] && AllDigits(c[..i]) && IsCitationContent(c[i + 1..])
  {
    GroupsChars(c, false);
    var d := c[..i];
    assert c == d + c[i..];
    GroupsAfterDigits(d, c[i..], false);
    assert c[i..][1..] == c[i + 1..];
  }

  /** A citation content without a comma is one digit group. */
  lemma LastGroup(c: string)
    requires IsCitationContent(c) && ',' !in c
    ensures c != [] && AllDigits(c)
  {
    GroupsChars(c, false);
    assert c == c + [];
    GroupsAfterDigits(c, [], false);
  }

  /** Each piece of a citation content is a non-empty digit string. */
  lemma {:induction false} CitationPieces(c: string)
    requires IsCitationContent(c)
    ensures DigitPieces(Split(c, ','))
    decreases |c|
  {
    var i := IndexOfFrom(c, ',', 0);
    if i >= 0 {
      FirstGroup(c, i);
      CitationPieces(c[i + 1..]);
      SplitAtFirst(c, ',', i);
      DigitPiecesPrepend(c[..i], Split(c[i + 1..], ','));
    } else {
      OnlyGroup(c);
    }
  }

  /** A citation content without a comma is a single piece. */
  lemma OnlyGroup(c: string)
    requires IsCitationContent(c) && IndexOfFrom(c, ',', 0) < 0
    ensures DigitPieces(Split(c, ','))
  {
    assert ',' !in c;
    LastGroup(c);
    assert Split(c, ',') == [c];
  }

  lemma SplitAtFirst(s: string, sep: char, i: int)
    requires i == IndexOfFrom(s, sep, 0) && i >= 0
    ensures Split(s, sep) == [s[..i]] + Split(s[i + 1..], sep)
  {
  }

  /** Every piece is a non-empty digit string. */
  predicate DigitPieces(ps: seq<string>) {
    forall k :: 0 <= k < |ps| ==> ps[k] != [] && AllDigits(ps[k])
  }

  lemma DigitPiecesPrepend(d: string, rest: seq<string>)
    requires d != [] && AllDigits(d) && DigitPieces(rest)
    ensures DigitPieces([d] + rest)
  {
    assert forall k :: 1 <= k < |[d] + rest| ==> ([d] + rest)[k] == rest[k - 1];
  }

  function DigitValues(parts: seq<string>): seq<Option<int>>
    requires forall k :: 0 <= k < |parts| ==> AllDigits(parts[k])
  {
    if parts == [] then [] else [Some(DigitsValue(parts[0]))] + DigitValues(parts[1..])
  }

  /** A non-empty digit string is one number to parsePart. */
  lemma ParsePartOfDigits(p: string)
    requires p != [] && AllDigits(p)
    ensures ParsePart(p) == [Some(DigitsValue(p))]
  {
    assert !IsJsSpace(p[0]) && !IsJsSpace(p[|p| - 1]);
    TrimJsOfTrimmed(p);
    NumberTrimmed(p);
  }

  lemma NumberTrimmed(p: string)
    requires p != [] && AllDigits(p)
    ensures ParseTrimmed(p) == [Some(DigitsValue(p))]
  {
    assert IndexOfFrom(p, '-', 0) == -1;
    ParseIntOfDigits(p);
  }

  /** Two digit groups joined by a dash: the dash splits them apart. */
  lemma DashedDigits(x: string, y: string)
    requires x != [] && AllDigits(x) && AllDigits(y)
    ensures var p := x + "-" + y;
      IndexOfFrom(p, '-', 0) == |x| && Split(p, '-') == [x, y]
  {
    var p := x + "-" + y;
    assert p[|x|] == '-';
    assert forall k :: 0 <= k < |x| ==> p[k] == x[k];
    assert IndexOfFrom(p, '-', 0) == |x|;
    assert p[..|x|] == x && p[|x| + 1..] == y;
    assert '-' !in y;
  }

  /** Digit groups joined by a dash have no white space to trim. */
  lemma DashedDigitsTrimmed(x: string, y: string)
    requires x != [] && y != [] && AllDigits(x) && AllDigits(y)
    ensures TrimJs(x + "-" + y) == x + "-" + y
  {
    var p := x + "-" + y;
    assert p[0] == x[0] && p[|p| - 1] == y[|y| - 1];
    TrimJsOfTrimmed(p);
  }

  /** A range part "a-b" expands to every integer from a to b (none when a > b). */
  lemma ParseRange(a: nat, b: nat)
    ensures ParsePart(NatToString(a) + "-" + NatToString(b)) == Interval(a, b)
  {
    var x := NatToString(a);
    var y := NatToString(b);
    RangePart(x, y);
    NatToStringRoundTrip(a);
    NatToStringRoundTrip(b);
  }

  lemma RangePart(x: string, y: string)
    requires x != [] && y != [] && AllDigits(x) && AllDigits(y)
    ensures ParsePart(x + "-" + y) == Interval(DigitsValue(x), DigitsValue(y))
  {
    DashedDigitsTrimmed(x, y);
    DashedRange(x, y);
  }

  lemma DashedRange(x: string, y: string)
    requires x != [] && y != [] && AllDigits(x) && AllDigits(y)
    ensures ParseTrimmed(x + "-" + y) == Interval(DigitsValue(x), DigitsValue(y))
  {
    DashedDigits(x, y);
    ParseIntOfDigits(x);
    ParseIntOfDigits(y);
  }

  lemma {:induction false} ParsePartsOfDigits(parts: seq<string>)
    requires forall k :: 0 <= k < |parts| ==> parts[k] != [] && AllDigits(parts[k])
    ensures ParseParts(parts) == DigitValues(parts)
    decreases |parts|
  {
    if parts != [] {
      ParsePartOfDigits(parts[0]);
      ParsePartsOfDigits(parts[1..]);
      calc {
        ParseParts(parts);
        ParsePart(parts[0]) + ParseParts(parts[1..]);
        [Some(DigitsValue(parts[0]))] + DigitValues(parts[1..]);
      }
    }
  }

  /**
   * On the contents findAllCitations accepts, parseNumbers yields exactly
   * the values of the comma-separated digit groups, in order.
   */
  lemma CitationNumbers(c: string)
    requires IsCitationContent(c)
    ensures forall k :: 0 <= k < |Split(c, ',')| ==> AllDigits(Split(c, ',')[k])
    ensures ParseNumbers(c) == DigitValues(Split(c, ','))
  {
    CitationPieces(c);
    ParsePartsOfDigits(Split(c, ','));
  }

  /** The citation text `n1,n2,...` for the numbers `ns`. */
  function Render(ns: seq<nat>): (s: string)
    requires |ns| >= 1
  {
    Join(RenderAll(ns), ',')
  }

  function RenderAll(ns: seq<nat>): (r: seq<string>)
    ensures |r| == |ns|
    ensures forall k :: 0 <= k < |ns| ==> r[k] == NatToString(ns[k])
  {
    if ns == [] then [] else [NatToString(ns[0])] + RenderAll(ns[1..])
  }

  lemma {:induction false} JoinedIsContent(parts: seq<string>)
    requires |parts| >= 1
    requires forall k :: 0 <= k < |parts| ==> parts[k] != [] && AllDigits(parts[k])
    ensures IsCitationContent(Join(parts, ','))
    decreases |parts|
  {
    if |parts| > 1 {
      JoinedIsContent(parts[1..]);
      var rest := Join(parts[1..], ',');
      assert Join(parts, ',') == parts[0] + ([','] + rest);
      GroupsAfterDigits(parts[0], [','] + rest, false);
      assert ([','] + rest)[1..] == rest;
    } else {
      assert Join(parts, ',') == parts[0] + [];
      GroupsAfterDigits(parts[0], [], false);
    }
  }

  lemma {:induction false} DigitValuesOfRendered(ns: seq<nat>)
    ensures forall k :: 0 <= k < |RenderAll(ns)| ==> AllDigits(RenderAll(ns)[k])
    ensures DigitValues(RenderAll(ns)) == SomeAll(ns)
    decreases |ns|
  {
    if ns != [] {
      NatToStringRoundTrip(ns[0]);
      DigitValuesOfRendered(ns[1..]);
      assert RenderAll(ns)[1..] == RenderAll(ns[1..]);
    }
  }

  function SomeAll(ns: seq<nat>): (r: seq<Option<int>>)
    ensures |r| == |ns| && forall k :: 0 <= k < |ns| ==> r[k] == Some(ns[k] as int)
  {
    if ns == [] then [] else [Some(ns[0] as int)] + SomeAll(ns[1..])
  }

  /** A rendered citation is accepted by the content pattern and parses back to its numbers. */
  lemma RenderParse(ns: seq<nat>)
    requires |ns| >= 1
    ensures IsCitationContent(Render(ns))
    ensures ParseNumbers(Render(ns)) == SomeAll(ns)
  {
    var parts := RenderAll(ns);
    JoinedIsContent(parts);
    JoinSplit(parts, ',');
    CitationNumbers(Render(ns));
    DigitValuesOfRendered(ns);
  }

  // ---------------------------------------------------------------------
  // CitationManager.findAllCitations.
  // ---------------------------------------------------------------------

  /** The brackets of a marker in one paragraph's text: '[' at `open`, the first ']' after it at `close`. */
  datatype Span = Span(open: int, close: int)

  /** '[' at `open`, ']' at `close`, and citation content between. */
  predicate BracketsAt(text: string, open: int, close: int) {
    0 <= open < close < |text|
    && text[open] == '[' && text[close] == ']'
    && IsCitationContent(text[open + 1..close])
  }

  /** Spans in text order, not overlapping. */
  predicate Ordered(ms: seq<Span>) {
    forall i, j :: 0 <= i < j < |ms| ==> ms[i].close < ms[j].open
  }

  /**
   * The scanning loop of findAllCitations over one paragraph text from
   * `pos`: take the next '[' and the next ']' after it, record the bracket
   * when its content is a citation, and continue after the ']'.
   */
  function ScanMarkers(text: string, pos: nat): (r: seq<Span>)
    ensures forall k :: 0 <= k < |r| ==> BracketsAt(text, r[k].open, r[k].close) && pos <= r[k].open
    ensures Ordered(r)
    decreases |text| - pos
  {
    if pos >= |text| then []
    else
      var open := IndexOfFrom(text, '[', pos);
      if open < 0 then []
      else
        var close := IndexOfFrom(text, ']', open);
        if close < 0 then []
        else
          var rest := ScanMarkers(text, close + 1);
          if IsCitationContent(text[open + 1..close]) then [Span(open, close)] + rest
          else rest
  }

  /** Without a '[' after `pos` there is no marker. */
  lemma NoBracketNoMarker(text: string, pos: nat)
    requires forall k :: pos <= k < |text| ==> text[k] != '['
    ensures ScanMarkers(text, pos) == []
  {
    if pos < |text| {
      assert IndexOfFrom(text, '[', pos) == -1;
    }
  }

  /**
   * A text whose first '[' opens citation content closed by ']' has its
   * first marker there.
   */
  lemma MarkerFound(prefix: string, c: string, suffix: string)
    requires '[' !in prefix && IsCitationContent(c)
    ensures var text := prefix + "[" + c + "]" + suffix;
      var ms := ScanMarkers(text, 0);
      |ms| >= 1 && ms[0] == Span(|prefix|, |prefix| + |c| + 1)
  {
    GroupsChars(c, false);
    var text := prefix + "[" + c + "]" + suffix;
    var open := |prefix|;
    var close := |prefix| + 1 + |c|;
    assert forall k :: 0 <= k < open ==> text[k] == prefix[k];
    assert text[open] == '[' && text[close] == ']';
    assert IndexOfFrom(text, '[', 0) == open;
    assert forall k :: open < k < close ==> text[k] == c[k - open - 1] && text[k] != ']';
    assert IndexOfFrom(text, ']', open) == close;
    assert text[open + 1..close] == c;
  }

  lemma RenderedMarker(prefix: string, c: string, suffix: string)
    requires '[' !in prefix && IsCitationContent(c)
    ensures var text := prefix + "[" + c + "]" + suffix;
      var ms := ScanMarkers(text, 0);
      |ms| >= 1 && ms[0] == Span(|prefix|, |prefix| + |c| + 1)
      && text[ms[0].open + 1..ms[0].close] == c
  {
    MarkerFound(prefix, c, suffix);
    var text := prefix + "[" + c + "]" + suffix;
    assert text[|prefix| + 1..|prefix| + |c| + 1] == c;
  }

  /**
   * The first marker of a text whose first '[' opens a citation: it is found
   * at that place, and its content parses to the numbers it was written with.
   */
  lemma FirstMarker(prefix: string, ns: seq<nat>, suffix: string)
    requires |ns| >= 1 && '[' !in prefix
    ensures var text := prefix + "[" + Render(ns) + "]" + suffix;
      var ms := ScanMarkers(text, 0);
      |ms| >= 1 && ms[0] == Span(|prefix|, |prefix| + |Render(ns)| + 1)
      && ParseNumbers(text[ms[0].open + 1..ms[0].close]) == SomeAll(ns)
  {
    RenderParse(ns);
    RenderedMarker(prefix, Render(ns), suffix);
  }

  /** A paragraph as the CitationManager reads it: its text and the document offset where it starts. */
  datatype Para = Para(text: string, rangeStart: int)

  /**
   * One record of findAllCitations; `localEnd` is just past the ']'.  The
   * record's `numbers` field is parseNumbers of the text between the
   * brackets, given here by Numbers.
   */
  datatype Citation = Citation(para: int, paraStart: int, localStart: int, localEnd: int, text: string)

  function Numbers(c: Citation): seq<Option<int>> {
    if |c.text| < 2 then [] else ParseNumbers(c.text[1..|c.text| - 1])
  }

  function ToCitations(i: int, p: Para, ms: seq<Span>): (cs: seq<Citation>)
    requires forall k :: 0 <= k < |ms| ==> 0 <= ms[k].open < ms[k].close < |p.text|
    ensures |cs| == |ms|
    ensures forall k :: 0 <= k < |ms| ==>
      cs[k] == Citation(i, p.rangeStart, ms[k].open, ms[k].close + 1, p.text[ms[k].open..ms[k].close + 1])
  {
    if ms == [] then []
    else
      var m := ms[0];
      var rest := ToCitations(i, p, ms[1..]);
      assert forall k :: 1 <= k < |ms| ==> ms[1..][k - 1] == ms[k];
      [Citation(i, p.rangeStart, m.open, m.close + 1, p.text[m.open..m.close + 1])] + rest
  }

  /** A citation records a marker of paragraph `c.para`: where it lies and its bracketed text. */
  predicate CitationOf(doc: seq<Para>, c: Citation) {
    1 <= c.para <= |doc|
    && var p := doc[c.para - 1];
    BracketsAt(p.text, c.localStart, c.localEnd - 1)
    && c.paraStart == p.rangeStart && c.text == p.text[c.localStart..c.localEnd]
  }

  /** CitationManager.findAllCitations over paragraphs `i`..`endPara` (1-based). */
  function FindAllCitations(doc: seq<Para>, i: int, endPara: int): (cs: seq<Citation>)
    requires i >= 1 && endPara <= |doc|
    ensures forall k :: 0 <= k < |cs| ==> i <= cs[k].para <= endPara && CitationOf(doc, cs[k])
    decreases endPara - i + 1
  {
    if i > endPara then []
    else
      var here := ParagraphCitations(doc, i);
      var rest := FindAllCitations(doc, i + 1, endPara);
      AppendCitations(doc, here, rest, i, endPara);
      here + rest
  }

  lemma AppendCitations(doc: seq<Para>, here: seq<Citation>, rest: seq<Citation>, i: int, endPara: int)
    requires forall k :: 0 <= k < |here| ==> here[k].para == i && CitationOf(doc, here[k])
    requires forall k :: 0 <= k < |rest| ==> i + 1 <= rest[k].para <= endPara && CitationOf(doc, rest[k])
    requires i <= endPara
    ensures forall k :: 0 <= k < |here + rest| ==> i <= (here + rest)[k].para <= endPara && CitationOf(doc, (here + rest)[k])
  {
    forall k | 0 <= k < |here + rest|
      ensures i <= (here + rest)[k].para <= endPara && CitationOf(doc, (here + rest)[k])
    {
      if k < |here| {
        assert (here + rest)[k] == here[k];
      } else {
        assert (here + rest)[k] == rest[k - |here|];
      }
    }
  }

  /** The citations of paragraph i, in text order: each a marker of that paragraph. */
  function ParagraphCitations(doc: seq<Para>, i: int): (cs: seq<Citation>)
    requires 1 <= i <= |doc|
    ensures forall k :: 0 <= k < |cs| ==> cs[k].para == i && CitationOf(doc, cs[k])
  {
    var ms := ScanMarkers(doc[i - 1].text, 0);
    SpansInText(doc[i - 1].text, ms);
    SpansCitations(doc, i, ms);
    ToCitations(i, doc[i - 1], ms)
  }

  /** Bracketed spans lie inside their text. */
  lemma SpansInText(text: string, ms: seq<Span>)
    requires forall k :: 0 <= k < |ms| ==> BracketsAt(text, ms[k].open, ms[k].close)
    ensures forall k :: 0 <= k < |ms| ==> 0 <= ms[k].open < ms[k].close < |text|
  {
  }

  /** Bracketed spans of paragraph i become citations of that paragraph. */
  lemma SpansCitations(doc: seq<Para>, i: int, ms: seq<Span>)
    requires 1 <= i <= |doc|
    requires forall k :: 0 <= k < |ms| ==>
      0 <= ms[k].open < ms[k].close < |doc[i - 1].text| && BracketsAt(doc[i - 1].text, ms[k].open, ms[k].close)
    ensures var cs := ToCitations(i, doc[i - 1], ms);
      forall k :: 0 <= k < |cs| ==> cs[k].para == i && CitationOf(doc, cs[k])
  {
    var p := doc[i - 1];
    var cs := ToCitations(i, p, ms);
    forall k | 0 <= k < |cs| ensures cs[k].para == i && CitationOf(doc, cs[k]) {
      SpanCitation(doc, i, ms[k].open, ms[k].close);
    }
  }

  lemma SpanCitation(doc: seq<Para>, i: int, open: int, close: int)
    requires 1 <= i <= |doc| && BracketsAt(doc[i - 1].text, open, close)
    ensures var p := doc[i - 1];
      CitationOf(doc, Citation(i, p.rangeStart, open, close + 1, p.text[open..close + 1]))
  {
  }

  /**
   * The numbers of every citation found are the values of its
   * comma-separated digit groups, in order: at least one, never NaN, never
   * negative.
   */
  lemma CitationHasNumbers(doc: seq<Para>, c: Citation)
    requires CitationOf(doc, c)
    ensures var content := c.text[1..|c.text| - 1];
      forall k :: 0 <= k < |Split(content, ',')| ==> AllDigits(Split(content, ',')[k])
    ensures Numbers(c) == DigitValues(Split(c.text[1..|c.text| - 1], ','))
    ensures |Numbers(c)| >= 1
    ensures forall x :: x in Numbers(c) ==> x.Some? && x.value >= 0
  {
    CitationContent(doc, c);
    var content := c.text[1..|c.text| - 1];
    CitationNumbers(content);
    DigitValuesAreNumbers(Split(content, ','));
  }

  /** The text between a citation's brackets matches the content pattern. */
  lemma CitationContent(doc: seq<Para>, c: Citation)
    requires CitationOf(doc, c)
    ensures |c.text| >= 2 && IsCitationContent(c.text[1..|c.text| - 1])
  {
    var p := doc[c.para - 1];
    assert BracketsAt(p.text, c.localStart, c.localEnd - 1);
    assert |c.text| == c.localEnd - c.localStart;
    var content := c.text[1..|c.text| - 1];
    assert forall k :: 0 <= k < |content| ==> content[k] == p.text[c.localStart + 1 + k];
    assert content == p.text[c.localStart + 1..c.localEnd - 1];
  }

  lemma {:induction false} DigitValuesAreNumbers(parts: seq<string>)
    requires forall k :: 0 <= k < |parts| ==> AllDigits(parts[k])
    ensures |DigitValues(parts)| == |parts|
    ensures forall x :: x in DigitValues(parts) ==> x.Some? && x.value >= 0
  {
    if parts != [] {
      DigitValuesAreNumbers(parts[1..]);
    }
  }

  // ---------------------------------------------------------------------
  // CitationManager.isReferenceEntry and getNumberedItems.
  // ---------------------------------------------------------------------

  const ReferenceTypes: seq<string> := ["[J]", "[M]", "[D]", "[C]", "[N]", "[EB/OL]", "[P]", "[R]", "[S]", "[Z]"]

  /** A reference entry carries one of the document-type tags [J], [M], [D], … anywhere in its text. */
  predicate IsReferenceEntry(txt: string) {
    exists k | 0 <= k < |ReferenceTypes| :: Contains(txt, ReferenceTypes[k])
  }

  /** A tag needs a '[': text without one is never a reference entry. */
  lemma ReferenceEntryNeedsBracket(txt: string)
    requires '[' !in txt
    ensures !IsReferenceEntry(txt)
  {
    forall k, i | 0 <= k < |ReferenceTypes| && 0 <= i <= |txt|
      ensures !OccursAt(txt, ReferenceTypes[k], i)
    {
      assert ReferenceTypes[k][0] == '[';
    }
  }

  /** A journal article line "… [J]. …" is a reference entry. */
  lemma JournalIsReferenceEntry(before: string, after: string)
    ensures IsReferenceEntry(before + "[J]" + after)
  {
    var t := before + "[J]" + after;
    assert t[|before|..|before| + 3] == "[J]";
    assert OccursAt(t, ReferenceTypes[0], |before|);
  }

  /** `/^\s*\[/`: the item's text opens with a '[' after white space. */
  predicate OpensWithBracket(s: string) {
    var n := SpaceRun(s, 0);
    n < |s| && s[n] == '['
  }

  /**
   * The refOffset of getNumberedItems: (index - 1) of the first numbered
   * item opening with '[' (items counted from 1), or 0 when there is none.
   */
  function RefOffset(items: seq<string>): (r: nat)
    ensures r < |items| || r == 0
    ensures (exists k :: 0 <= k < |items| && OpensWithBracket(items[k])) ==>
      OpensWithBracket(items[r]) && forall k :: 0 <= k < r ==> !OpensWithBracket(items[k])
    ensures (forall k :: 0 <= k < |items| ==> !OpensWithBracket(items[k])) ==> r == 0
  {
    var f := FirstOpening(items, 0);
    if f == |items| then 0 else f
  }

  function FirstOpening(items: seq<string>, i: nat): (r: nat)
    requires i <= |items|
    ensures i <= r <= |items|
    ensures r < |items| ==> OpensWithBracket(items[r])
    ensures forall k :: i <= k < r ==> !OpensWithBracket(items[k])
    ensures r == |items| ==> forall k :: i <= k < |items| ==> !OpensWithBracket(items[k])
    decreases |items| - i
  {
    if i == |items| then |items|
    else if OpensWithBracket(items[i]) then i
    else FirstOpening(items, i + 1)
  }

  // ---------------------------------------------------------------------
  // The replacement order of processAll.
  // ---------------------------------------------------------------------

  /** The numeric entries of a parsed list, in order. */
  function Values(xs: seq<Option<int>>): (r: seq<int>)
    ensures forall n :: n in r <==> Some(n) in xs
  {
    if xs == [] then []
    else (if xs[0].Some? then [xs[0].value] else []) + Values(xs[1..])
  }

  /** The parsed numbers of each citation, in order. */
  function NumberLists(cs: seq<Citation>): (r: seq<seq<Option<int>>>)
    ensures |r| == |cs| && forall k :: 0 <= k < |cs| ==> r[k] == Numbers(cs[k])
  {
    if cs == [] then [] else [Numbers(cs[0])] + NumberLists(cs[1..])
  }

  /** The numeric entries of several parsed lists, list after list. */
  function Flatten(ls: seq<seq<Option<int>>>): seq<int> {
    if ls == [] then [] else Values(ls[0]) + Flatten(ls[1..])
  }

  lemma {:induction false} FlattenMembers(ls: seq<seq<Option<int>>>)
    ensures forall n :: n in Flatten(ls) <==> exists k :: 0 <= k < |ls| && Some(n) in ls[k]
  {
    if ls != [] {
      FlattenMembers(ls[1..]);
      assert forall k :: 1 <= k < |ls| ==> ls[k] == ls[1..][k - 1];
    }
  }

  /** Every number cited, in citation order, repeats included. */
  function AllNumbers(cs: seq<Citation>): seq<int> {
    Flatten(NumberLists(cs))
  }

  /** Some citation of `cs` cites `n`. */
  predicate Cited(cs: seq<Citation>, n: int) {
    exists k :: 0 <= k < |cs| && Some(n) in Numbers(cs[k])
  }

  /** A number is among all the numbers exactly when some citation cites it. */
  lemma AllNumbersMembers(cs: seq<Citation>)
    ensures forall n :: n in AllNumbers(cs) <==> Cited(cs, n)
  {
    FlattenMembers(NumberLists(cs));
  }

  predicate StrictlyDescending(s: seq<int>) {
    forall i, j :: 0 <= i < j < |s| ==> s[i] > s[j]
  }

  lemma PrependDescending(x: int, s: seq<int>)
    requires StrictlyDescending(s) && forall n :: n in s ==> n < x
    ensures StrictlyDescending([x] + s)
  {
    assert forall j :: 0 < j < |[x] + s| ==> ([x] + s)[j] == s[j - 1] && s[j - 1] in s;
  }

  /** Inserts `x` into a strictly descending list unless it is already there. */
  function InsertDescending(x: int, s: seq<int>): (r: seq<int>)
    requires StrictlyDescending(s)
    ensures StrictlyDescending(r)
    ensures forall n :: n in r <==> n == x || n in s
  {
    if s == [] then [x]
    else if x > s[0] then [x] + s
    else if x == s[0] then s
    else
      var rest := InsertDescending(x, s[1..]);
      assert forall n :: n in s[1..] ==> n < s[0];
      PrependDescending(s[0], rest);
      assert s == [s[0]] + s[1..];
      [s[0]] + rest
  }

  /**
   * The distinct numbers of `xs` from largest to smallest: the keys of
   * `existingNums` after `numsToProcess.sort((a, b) => b - a)`.
   */
  function DistinctDescending(xs: seq<int>): (r: seq<int>)
    ensures StrictlyDescending(r)
    ensures forall n :: n in r <==> n in xs
  {
    if xs == [] then [] else InsertDescending(xs[0], DistinctDescending(xs[1..]))
  }

  /** The numbers that fit the numbered-item list once shifted by `refOffset`. */
  function KeepInRange(ns: seq<int>, refOffset: int, count: int): (r: seq<int>)
    requires StrictlyDescending(ns)
    ensures forall n :: n in r <==> n in ns && n + refOffset <= count
    ensures StrictlyDescending(r)
  {
    if ns == [] then []
    else
      var rest := KeepInRange(ns[1..], refOffset, count);
      assert forall n :: n in ns[1..] ==> n < ns[0];
      PrependDescending(ns[0], rest);
      assert ns == [ns[0]] + ns[1..];
      if ns[0] + refOffset <= count then [ns[0]] + rest else rest
  }

  /**
   * The numbers processAll replaces, in order: each cited number once, from
   * the largest down, skipping those beyond the numbered-item list.
   */
  function ProcessOrder(cs: seq<Citation>, refOffset: int, count: int): (r: seq<int>)
    ensures StrictlyDescending(r)
    ensures forall n :: n in r <==>
      (n + refOffset <= count && exists k :: 0 <= k < |cs| && Some(n) in Numbers(cs[k]))
  {
    AllNumbersMembers(cs);
    KeepInRange(DistinctDescending(AllNumbers(cs)), refOffset, count)
  }
}
