/**
 * The BreakManager of the WPS thesis formatter: a page break ('\f') is put
 * in front of a paragraph unless one is already there.
 *
 * The document is the sequence of raw paragraph texts; WPS paragraph `idx`
 * (1-based) is `doc[idx - 1]`.  The host's `InsertBreak(wdPageBreak)` at the
 * collapsed start of a paragraph is modelled as prepending '\f' to that
 * paragraph's text: a page break is a character inside the paragraph, so
 * no paragraph is added and every index stays valid.
 */
module PageBreaks {
  import opened ThesisText

  type Document = seq<string>

  const PageBreak: char := '\U{000C}'

  /** BreakManager.hasBreakBefore: the previous paragraph holds a page break; false for the first paragraph or a missing one. */
  predicate HasBreakBefore(doc: Document, idx: int) {
    2 <= idx <= |doc| + 1 && HasPageBreak(doc[idx - 2])
  }

  predicate StartsWithBreak(text: string) {
    |text| > 0 && text[0] == PageBreak
  }

  /** Paragraph `idx` exists and a page break stands just before it or opens it. */
  predicate BreakAt(doc: Document, idx: int) {
    1 <= idx <= |doc| && (HasBreakBefore(doc, idx) || StartsWithBreak(doc[idx - 1]))
  }

  /**
   * BreakManager.ensureBreak: nothing when the previous paragraph has a
   * page break, when the paragraph is missing (the host call throws and the
   * error is swallowed) or when it already opens with one; otherwise a page
   * break is inserted at the start of paragraph `idx`.
   */
  function EnsureBreak(doc: Document, idx: int): (r: Document)
    ensures |r| == |doc|
    ensures forall k :: 0 <= k < |doc| && k != idx - 1 ==> r[k] == doc[k]
    ensures 1 <= idx <= |doc| ==> BreakAt(r, idx)
    ensures r == doc <==> !(1 <= idx <= |doc|) || BreakAt(doc, idx)
    ensures r != doc ==> r[idx - 1] == [PageBreak] + doc[idx - 1]
  {
    if HasBreakBefore(doc, idx) then doc
    else if !(1 <= idx <= |doc|) then doc
    else if StartsWithBreak(doc[idx - 1]) then doc
    else
      var r := doc[idx - 1 := [PageBreak] + doc[idx - 1]];
      assert r[idx - 1] != doc[idx - 1];
      r
  }

  /** Calling ensureBreak twice on the same paragraph inserts nothing the second time. */
  lemma EnsureBreakIdempotent(doc: Document, idx: int)
    ensures EnsureBreak(EnsureBreak(doc, idx), idx) == EnsureBreak(doc, idx)
  {
  }

  /** The number of page-break characters in a text. */
  function BreakCount(s: string): nat {
    if s == [] then 0 else (if s[0] == PageBreak then 1 else 0) + BreakCount(s[1..])
  }

  function TotalBreaks(doc: Document): nat {
    if doc == [] then 0 else BreakCount(doc[0]) + TotalBreaks(doc[1..])
  }

  lemma {:induction false} TotalBreaksUpdate(doc: Document, i: int, s: string)
    requires 0 <= i < |doc|
    ensures TotalBreaks(doc[i := s]) + BreakCount(doc[i]) == TotalBreaks(doc) + BreakCount(s)
    decreases |doc|
  {
    if i > 0 {
      assert doc[i := s][1..] == doc[1..][i - 1 := s];
      TotalBreaksUpdate(doc[1..], i - 1, s);
    } else {
      assert doc[i := s][1..] == doc[1..];
    }
  }

  /** ensureBreak adds at most one page break to the document, and exactly one when it edits. */
  lemma {:induction false} EnsureBreakAddsAtMostOne(doc: Document, idx: int)
    ensures TotalBreaks(EnsureBreak(doc, idx)) <= TotalBreaks(doc) + 1
    ensures EnsureBreak(doc, idx) != doc ==> TotalBreaks(EnsureBreak(doc, idx)) == TotalBreaks(doc) + 1
  {
    var r := EnsureBreak(doc, idx);
    if r != doc {
      var s := [PageBreak] + doc[idx - 1];
      assert r == doc[idx - 1 := s];
      assert s[1..] == doc[idx - 1];
      TotalBreaksUpdate(doc, idx - 1, s);
    }
  }

  /** Inserting a break in front of any paragraph keeps every break already in place. */
  lemma EnsureBreakKeepsBreaks(doc: Document, idx: int, other: int)
    requires BreakAt(doc, other)
    ensures BreakAt(EnsureBreak(doc, idx), other)
  {
    var r := EnsureBreak(doc, idx);
    if r != doc && HasBreakBefore(doc, other) && other - 2 == idx - 1 {
      assert r[idx - 1] == [PageBreak] + doc[idx - 1];
      assert PageBreak in r[other - 2];
    }
  }

  /** ensureBreak applied to each index in turn, as BreakManager.handleAll does from the back of the document. */
  function EnsureBreaks(doc: Document, idxs: seq<int>): (r: Document)
    ensures |r| == |doc|
    decreases |idxs|
  {
    if idxs == [] then doc else EnsureBreaks(EnsureBreak(doc, idxs[0]), idxs[1..])
  }

  /**
   * After the batch every listed paragraph that exists has a page break in
   * front of it, and every break already in front of a paragraph stays.
   */
  lemma {:induction false} EnsureBreaksPlacesAll(doc: Document, idxs: seq<int>, kept: set<int>)
    requires forall j :: j in kept ==> BreakAt(doc, j)
    ensures var r := EnsureBreaks(doc, idxs);
      (forall j :: j in kept ==> BreakAt(r, j))
      && (forall k :: 0 <= k < |idxs| && 1 <= idxs[k] <= |doc| ==> BreakAt(r, idxs[k]))
    decreases |idxs|
  {
    if idxs != [] {
      var d := EnsureBreak(doc, idxs[0]);
      var kept' := if 1 <= idxs[0] <= |doc| then kept + {idxs[0]} else kept;
      forall j | j in kept' ensures BreakAt(d, j) {
        if j in kept {
          EnsureBreakKeepsBreaks(doc, idxs[0], j);
        }
      }
      EnsureBreaksPlacesAll(d, idxs[1..], kept');
      forall k | 0 <= k < |idxs| && 1 <= idxs[k] <= |doc|
        ensures BreakAt(EnsureBreaks(doc, idxs), idxs[k])
      {
        if k > 0 {
          assert idxs[k] == idxs[1..][k - 1];
        }
      }
    }
  }
}
