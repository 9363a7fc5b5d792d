/**
 * The ContinuationTableManager of the WPS thesis formatter: how a table is
 * seen to cross a page (the page of each row's first cell), which
 * paragraph is its caption, the caption of the continuation table, and
 * where a cross-page table is cut.
 *
 * The host supplies the page number of each row (`Information(3)` of the
 * row's first cell), the text of the paragraph just before the table and
 * the cell texts; the table edits themselves (deleting rows, adding the new
 * table, formatting) are replaced by the pair of row sequences the split
 * produces.
 */
module ContinuationTable {
  import opened Wrappers
  import opened Text

  // ---------------------------------------------------------------------
  // getTableInfo: the page scan over the rows.
  // ---------------------------------------------------------------------

  /** A row (1-based) that starts on a later page than the row before it. */
  datatype PageChange = PageChange(row: int, fromPage: int, toPage: int)

  /**
   * What the scan records for row `c.row`: the previous row's page was
   * known (not -1) and the row's page is greater.
   */
  predicate IsPageChange(pages: seq<int>, c: PageChange) {
    2 <= c.row <= |pages| && c.fromPage == pages[c.row - 2] && c.toPage == pages[c.row - 1]
    && c.fromPage != -1 && c.toPage > c.fromPage
  }

  /** `startPage`: the first page other than the unknown value -1, or -1. */
  predicate IsStartPage(pages: seq<int>, start: int) {
    (start == -1 && forall k :: 0 <= k < |pages| ==> pages[k] == -1)
    || (exists i :: 0 <= i < |pages| && pages[i] == start && start != -1
          && forall k :: 0 <= k < i ==> pages[k] == -1)
  }

  /**
   * The row loop of getTableInfo: `startPage` is the first known page,
   * `endPage` the last row's page, and `changes` the page changes in row
   * order.
   */
  method ScanRowPages(pages: seq<int>) returns (startPage: int, endPage: int, changes: seq<PageChange>)
    ensures IsStartPage(pages, startPage)
    ensures endPage == if pages == [] then -1 else pages[|pages| - 1]
    ensures forall c :: c in changes <==> IsPageChange(pages, c)
    ensures forall i, j :: 0 <= i < j < |changes| ==> changes[i].row < changes[j].row
  {
    startPage, endPage := -1, -1;
    var lastPage := -1;
    changes := [];
    var r := 0;
    while r < |pages|
      invariant 0 <= r <= |pages|
      invariant IsStartPage(pages[..r], startPage)
      invariant endPage == lastPage
      invariant lastPage == if r == 0 then -1 else pages[r - 1]
      invariant forall c :: c in changes <==> IsPageChange(pages, c) && c.row <= r
      invariant forall i, j :: 0 <= i < j < |changes| ==> changes[i].row < changes[j].row
      invariant forall i :: 0 <= i < |changes| ==> changes[i].row <= r
    {
      var page := pages[r];
      if startPage == -1 {
        startPage := page;
      }
      endPage := page;
      if lastPage != -1 && page > lastPage {
        changes := changes + [PageChange(r + 1, lastPage, page)];
      }
      lastPage := page;
      assert pages[..r + 1] == pages[..r] + [page];
      r := r + 1;
    }
    assert pages[..r] == pages;
  }

  /** processAll's test: some row starts a new page, or the table ends on a later page than it starts. */
  predicate IsCrossPage(startPage: int, endPage: int, changes: seq<PageChange>) {
    |changes| > 0 || endPage > startPage
  }

  // ---------------------------------------------------------------------
  // findTableCaption and getContinuationCaption.
  // ---------------------------------------------------------------------

  const TableChar: char := '表'

  /** Position just past `表\s*\d+`, or -1. */
  function NumberedPrefixEnd(t: string): (n: int)
    ensures n == -1 || 0 < n <= |t|
  {
    if |t| == 0 || t[0] != TableChar then -1
    else
      var sp := SpaceRun(t, 1);
      var d := DigitRun(t, 1 + sp);
      if d == 0 then -1 else 1 + sp + d
  }

  /** `/^表\s*\d+[-－]\d+/` or `/^表\s*\d+\.\d+/`: a numbered table caption such as "表3-1" or "表 2.4". */
  predicate IsTableCaption(t: string) {
    var n := NumberedPrefixEnd(t);
    n != -1 && n + 1 < |t| && (t[n] == '-' || t[n] == '－' || t[n] == '.') && IsDigit(t[n + 1])
  }

  function RemoveCr(s: string): (r: string)
    ensures '\r' !in r
    ensures '\r' !in s ==> r == s
  {
    if s == [] then []
    else if s[0] == '\r' then RemoveCr(s[1..])
    else
      var rest := RemoveCr(s[1..]);
      assert s == [s[0]] + s[1..];
      [s[0]] + rest
  }

  /**
   * The caption test findTableCaption applies to the paragraph before the
   * table: trimmed and without carriage returns, a numbered table caption
   * is kept, cut to 50 characters.
   */
  function CaptionOf(text: string): (r: Option<string>)
    ensures r.Some? ==> 0 < |r.value| <= 50 && r.value[0] == TableChar
    ensures r.Some? <==> IsTableCaption(RemoveCr(TrimJs(text)))
  {
    var t := RemoveCr(TrimJs(text));
    if IsTableCaption(t) then Some(if |t| <= 50 then t else t[..50]) else None
  }

  /**
   * findTableCaption given the paragraph starts and the table start: the
   * caption test is applied to the paragraph before the first one that
   * starts at or after the table; there is no caption when that is the
   * first paragraph or when every paragraph starts before the table.
   */
  function FindTableCaption(paraStarts: seq<int>, texts: seq<string>, tableStart: int): (r: Option<string>)
    requires |texts| == |paraStarts|
    ensures r.Some? ==> exists i :: CaptionFollows(paraStarts, tableStart, i) && CaptionOf(texts[i - 1]) == r
    ensures (forall i :: 1 <= i < |paraStarts| ==> !CaptionFollows(paraStarts, tableStart, i)) ==> r.None?
  {
    var i := FirstAtOrAfter(paraStarts, tableStart, 0);
    if i <= 0 then None
    else
      assert CaptionFollows(paraStarts, tableStart, i);
      CaptionOf(texts[i - 1])
  }

  /** Paragraph `i` (0-based) is the first to start at or after the table, and it is not the first paragraph. */
  predicate CaptionFollows(paraStarts: seq<int>, tableStart: int, i: int) {
    1 <= i < |paraStarts| && paraStarts[i] >= tableStart
    && forall k :: 0 <= k < i ==> paraStarts[k] < tableStart
  }

  /** The first 0-based index at or after `from` whose start is at least `tableStart`, or -1. */
  function FirstAtOrAfter(starts: seq<int>, tableStart: int, from: nat): (i: int)
    requires from <= |starts|
    requires forall k :: 0 <= k < from ==> starts[k] < tableStart
    ensures i == -1 || (from <= i < |starts| && starts[i] >= tableStart)
    ensures i == -1 ==> forall k :: 0 <= k < |starts| ==> starts[k] < tableStart
    ensures i != -1 ==> forall k :: 0 <= k < i ==> starts[k] < tableStart
    decreases |starts| - from
  {
    if from == |starts| then -1
    else if starts[from] >= tableStart then from
    else FirstAtOrAfter(starts, tableStart, from + 1)
  }

  /** getTableInfo's caption: the caption found, or "未命名表格". */
  function CaptionOrDefault(c: Option<string>): string {
    match c
    case Some(s) => if s == [] then "未命名表格" else s
    case None => "未命名表格"
  }

  const Continued: string := "续表"

  /** `/^表\s*\d/`. */
  predicate OpensWithTableNumber(s: string) {
    |s| > 0 && s[0] == TableChar && 1 + SpaceRun(s, 1) < |s| && IsDigit(s[1 + SpaceRun(s, 1)])
  }

  /**
   * getContinuationCaption: "表…" becomes "续表…" when a number follows
   * (after optional white space); anything else, a missing or an empty
   * caption included, gives plain "续表".
   */
  function ContinuationCaption(original: Option<string>): (r: string)
    ensures StartsWith(r, Continued)
    ensures original.Some? && OpensWithTableNumber(original.value) ==> r == ['续'] + original.value
    ensures !(original.Some? && OpensWithTableNumber(original.value)) ==> r == Continued
  {
    if original.None? || original.value == [] then Continued
    else if OpensWithTableNumber(original.value) then
      var s := original.value;
      assert s == [s[0]] + s[1..];
      Continued + s[1..]
    else Continued
  }

  /**
   * A caption found by the caption test keeps its number within the first
   * 50 characters unless more than 48 white-space characters follow "表",
   * so its continuation caption is "续" before the whole caption.
   */
  lemma FoundCaptionContinues(text: string)
    requires var c := CaptionOf(text); c.Some? && SpaceRun(c.value, 1) < 49
    ensures var c := CaptionOf(text); ContinuationCaption(c) == ['续'] + c.value
  {
    var t := RemoveCr(TrimJs(text));
    var c := CaptionOf(text).value;
    assert c == if |t| <= 50 then t else t[..50];
    CaptionPrefixOpens(t, c);
  }

  lemma CaptionPrefixOpens(t: string, c: string)
    requires IsTableCaption(t) && c == (if |t| <= 50 then t else t[..50])
    requires SpaceRun(c, 1) < 49
    ensures OpensWithTableNumber(c)
  {
    var sp := SpaceRun(t, 1);
    assert IsDigit(t[1 + sp]);
    assert forall k :: 0 <= k < |c| ==> c[k] == t[k];
    if |t| > 50 {
      assert 1 + sp < |c| by {
        var n := 1 + SpaceRun(c, 1);
        assert !IsJsSpace(c[n]) && c[n] == t[n];
      }
      SpaceRunPrefix(t, c, 1);
    }
  }

  /** A white-space run ending inside a prefix is the same run in the prefix. */
  lemma {:induction false} SpaceRunPrefix(t: string, c: string, i: nat)
    requires |c| <= |t| && i <= |c| && forall k :: 0 <= k < |c| ==> c[k] == t[k]
    requires i + SpaceRun(t, i) < |c|
    ensures SpaceRun(c, i) == SpaceRun(t, i)
    decreases |c| - i
  {
    if i < |c| && IsJsSpace(c[i]) {
      SpaceRunPrefix(t, c, i + 1);
    }
  }

  // ---------------------------------------------------------------------
  // splitCrossPageTable.
  // ---------------------------------------------------------------------

  /** One header row is repeated on the continuation table. */
  const HeaderRows: int := 1

  datatype SplitDecision =
    | NoSplitPoint               // no page change was recorded
    | SplitRowOutOfRange         // the first change is the header row or past the last row
    | PushToNextPage             // fewer than two rows would stay: a page break before the caption
    | NoCaptionToPush            // the same, but there is no caption paragraph to break before
    | SplitAt(splitRow: int)     // rows splitRow.. move to a continuation table

  /**
   * The decision of splitCrossPageTable from the first page change: the
   * table is cut only when at least two rows (header included) stay on the
   * first page.
   */
  function DecideSplit(changes: seq<PageChange>, rowCount: int, hasCaption: bool): (d: SplitDecision)
    ensures d.SplitAt? <==> |changes| > 0 && 3 <= changes[0].row <= rowCount
    ensures d.SplitAt? ==> d.splitRow == changes[0].row
    ensures d == PushToNextPage <==> |changes| > 0 && changes[0].row == 2 && rowCount >= 2 && hasCaption
    ensures d == NoSplitPoint <==> changes == []
  {
    if changes == [] then NoSplitPoint
    else
      var splitRow := changes[0].row;
      if splitRow <= HeaderRows || splitRow > rowCount then SplitRowOutOfRange
      else if (splitRow - 1) + 1 < 3 then
        if hasCaption then PushToNextPage else NoCaptionToPush
      else SplitAt(splitRow)
  }

  /** The success flag splitCrossPageTable returns. */
  predicate Succeeds(d: SplitDecision) {
    d.SplitAt? || d == PushToNextPage
  }

  const Bell: char := '\U{0007}'

  /** A cell's text with the end-of-cell marks "\r\x07" and any other "\x07" removed. */
  function CleanCell(s: string): (r: string)
    ensures Bell !in r
    ensures Bell !in s ==> r == s
    ensures |r| <= |s|
  {
    if s == [] then []
    else if |s| >= 2 && s[0] == '\r' && s[1] == Bell then CleanCell(s[2..])
    else if s[0] == Bell then CleanCell(s[1..])
    else
      var rest := CleanCell(s[1..]);
      assert s == [s[0]] + s[1..];
      [s[0]] + rest
  }

  type TableRow = seq<string>

  function CleanRow(row: TableRow): (r: TableRow)
    ensures |r| == |row| && forall k :: 0 <= k < |row| ==> r[k] == CleanCell(row[k])
  {
    if row == [] then [] else [CleanCell(row[0])] + CleanRow(row[1..])
  }

  function CleanRows(rows: seq<TableRow>): (r: seq<TableRow>)
    ensures |r| == |rows| && forall k :: 0 <= k < |rows| ==> r[k] == CleanRow(rows[k])
  {
    if rows == [] then [] else [CleanRow(rows[0])] + CleanRows(rows[1..])
  }

  /**
   * The two tables a split at `splitRow` leaves: the original keeps rows
   * 1..splitRow-1; the continuation table is the header row followed by
   * rows splitRow..rowCount, with their end-of-cell marks removed.
   */
  function SplitRows(rows: seq<TableRow>, splitRow: int): (r: (seq<TableRow>, seq<TableRow>))
    requires 3 <= splitRow <= |rows|
    ensures |r.0| == splitRow - 1 >= 2
    ensures |r.1| == HeaderRows + |rows| - splitRow + 1
    ensures r.1[0] == CleanRow(rows[0])
  {
    (rows[..splitRow - 1], CleanRows([rows[0]] + rows[splitRow - 1..]))
  }

  predicate NoBell(rows: seq<TableRow>) {
    forall i, j :: 0 <= i < |rows| && 0 <= j < |rows[i]| ==> Bell !in rows[i][j]
  }

  /**
   * Without end-of-cell marks in the cells, the kept rows followed by the
   * moved rows are the original table: no row is lost or repeated.
   */
  lemma SplitKeepsRows(rows: seq<TableRow>, splitRow: int)
    requires 3 <= splitRow <= |rows| && NoBell(rows)
    ensures var (kept, cont) := SplitRows(rows, splitRow);
      kept + cont[HeaderRows..] == rows && cont[0] == rows[0]
  {
    var (kept, cont) := SplitRows(rows, splitRow);
    var moved := [rows[0]] + rows[splitRow - 1..];
    forall k | 0 <= k < |moved| ensures cont[k] == moved[k] {
      CleanRowOfClean(moved[k]);
    }
    assert cont == moved;
    assert kept + moved[1..] == rows;
  }

  lemma CleanRowOfClean(row: TableRow)
    requires forall j :: 0 <= j < |row| ==> Bell !in row[j]
    ensures CleanRow(row) == row
  {
  }
}
