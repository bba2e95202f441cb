/**
 What the paragraphs of an assembled document are made of, read off its lines: which
 lines share one, which heading each hangs under, and what its box and text hold.
 */
module WholeParagraphs {
  import opened Base
  import opened ParagraphText
  import opened ParagraphCuts
  import opened DocumentParts
  import opened DocumentIr
  import opened WholeDocuments

  /** The run a paragraph was made of. */
  lemma RunOf(input: seq<ContentPage>, w: Whole, j: int, p: int, k: int) returns (r: Range)
    requires Readable(input) && ShowsPages(input, w, |input|) && 0 <= p < |input| && Spans(w, j, p, k)
    ensures 0 <= r.first <= k <= r.last < |input[p].lines| && w.shares[p].sectionsFrom >= 0
    ensures r in w.shares[p].runs
    ensures InRange(input[p].lines, LineSections(input[p].lines, w.shares[p].sectionsFrom), r, |input[p].lines|)
    ensures w.paragraphs[j] == Assembled(input[p].lines, LineSections(input[p].lines, w.shares[p].sectionsFrom), r, j + 1, p + 1)
  {
    var i := SpanIsRun(input, w, j, p, k);
    assert ShowsPage(input, w, p);
    ParagraphIsARun(input, w, p, j);
    r := w.shares[p].runs[i];
  }

  // ------------------------------------------------------------ shared lines

  lemma SharedIsRun(input: seq<ContentPage>, w: Whole, p: int, k: int)
    requires Readable(input) && ShowsPages(input, w, |input|) && 0 <= p < |input|
    ensures (exists j :: Spans(w, j, p, k - 1) && Spans(w, j, p, k)) <==>
              exists i :: 0 <= i < |w.shares[p].runs|
                          && w.shares[p].runs[i].first <= k - 1 && k <= w.shares[p].runs[i].last
  {
    var runs := w.shares[p].runs;
    if j :| Spans(w, j, p, k - 1) && Spans(w, j, p, k) {
      var i := SpanIsRun(input, w, j, p, k - 1);
      var i' := SpanIsRun(input, w, j, p, k);
    }
    if i :| 0 <= i < |runs| && runs[i].first <= k - 1 && k <= runs[i].last {
      RunIsSpan(input, w, p, i, k - 1);
      RunIsSpan(input, w, p, i, k);
    }
  }

  lemma BreaksMeans(lines: seq<ContentLine>, before: nat, k: int)
    requires 1 <= k < |lines| && lines[k].heading.None?
    ensures var a, b := lines[k - 1].line, lines[k].line;
            !Breaks(lines, LineSections(lines, before), k) <==>
              && -36.0 <= b.x0 - a.x0 <= 36.0
              && (b.top - a.bottom <= 6.0 || b.top - a.bottom <= 1.5 * (a.bottom - a.top))
  {
    assert LineSections(lines, before)[k] == LineSections(lines, before)[k - 1];
  }

  /**
   Neighbouring content lines are in one paragraph exactly when the second starts within
   half an inch of the first and leaves no more than six points, or one and a half times
   the first line's height, between them.
   */
  lemma NeighboursShareExactly(input: seq<ContentPage>, w: Whole, p: int, k: int)
    requires Readable(input) && ShowsPages(input, w, |input|) && 0 <= p < |input| && 1 <= k < |input[p].lines|
    requires IsContent(input[p].lines, k - 1) && IsContent(input[p].lines, k)
    ensures (exists j :: Spans(w, j, p, k - 1) && Spans(w, j, p, k)) <==>
              var a, b := input[p].lines[k - 1].line, input[p].lines[k].line;
              && -36.0 <= b.x0 - a.x0 <= 36.0
              && (b.top - a.bottom <= 6.0 || b.top - a.bottom <= 1.5 * (a.bottom - a.top))
  {
    assert ShowsPage(input, w, p);
    var lines, share := input[p].lines, w.shares[p];
    SharedIsRun(input, w, p, k);
    SharedExactlyWithoutBreak(lines, LineSections(lines, share.sectionsFrom), share.runs, k);
    BreaksMeans(lines, share.sectionsFrom, k);
  }

  // ------------------------------------------------------------ the heading above

  /** A later page starts no earlier than an earlier one ends. */
  lemma {:induction false} SharesInOrder(input: seq<ContentPage>, w: Whole, p: int, q: int)
    requires Readable(input) && ShowsPages(input, w, |input|) && 0 <= p < q < |input|
    ensures w.shares[p].sectionsTo <= w.shares[q].sectionsFrom
    decreases q
  {
    assert ShowsPage(input, w, q) && ShowsPage(input, w, q - 1);
    if p < q - 1 {
      SharesInOrder(input, w, p, q - 1);
    }
  }

  lemma {:induction false} NoHeadingsBetween(lines: seq<ContentLine>, first: nat, k: nat)
    requires first <= k <= |lines| && forall m :: first <= m < k ==> lines[m].heading.None?
    ensures HeadingsBefore(lines, first) == HeadingsBefore(lines, k)
    decreases k
  {
    if first < k {
      NoHeadingsBetween(lines, first, k - 1);
    }
  }

  lemma RunSection(lines: seq<ContentLine>, before: nat, r: Range, k: int)
    requires InRange(lines, LineSections(lines, before), r, |lines|) && r.first <= k <= r.last
    ensures LineSections(lines, before)[r.first] == Latest(before + HeadingsBefore(lines, k))
  {
    forall m | r.first <= m <= k ensures lines[m].heading.None? {
      assert IsContent(lines, m);
    }
    NoHeadingsBetween(lines, r.first, k);
    NoHeadingsBetween(lines, r.first, r.first + 1);
  }

  lemma SectionCountsHeadings(input: seq<ContentPage>, w: Whole, j: int, p: int, k: int)
    requires Readable(input) && ShowsPages(input, w, |input|) && 0 <= p < |input| && Spans(w, j, p, k)
    ensures 0 <= k < |input[p].lines| && w.shares[p].sectionsFrom >= 0
    ensures w.paragraphs[j].section == Latest(w.shares[p].sectionsFrom + HeadingsBefore(input[p].lines, k))
  {
    var r := RunOf(input, w, j, p, k);
    RunSection(input[p].lines, w.shares[p].sectionsFrom, r, k);
  }

  /**
   A paragraph hangs under the last heading before it: a heading line comes before any
   line of the paragraph exactly when its section is that one or an earlier.
   */
  lemma SectionIsLastHeadingBefore(input: seq<ContentPage>, w: Whole, j: int, p: int, k: int, q: int, h: int)
    requires Readable(input) && ShowsPages(input, w, |input|) && 0 <= p < |input| && Spans(w, j, p, k)
    requires 0 <= q < |input| && 0 <= h < |input[q].lines| && input[q].lines[h].heading.Some?
    ensures w.paragraphs[j].section.Some? ==> 1 <= w.paragraphs[j].section.value <= |w.sections|
    ensures q < p || (q == p && h < k) <==>
              w.paragraphs[j].section.Some? && SectionOf(input, w, q, h) < w.paragraphs[j].section.value
  {
    SectionCountsHeadings(input, w, j, p, k);
    assert ShowsPage(input, w, p) && ShowsPage(input, w, q);
    HeadingsOnlyGrow(input[p].lines, k, |input[p].lines|);
    FewerHeadingsBefore(input[q].lines, h, |input[q].lines|);
    if q < p {
      SharesInOrder(input, w, q, p);
    } else if p < q {
      SharesInOrder(input, w, p, q);
    } else if h < k {
      FewerHeadingsBefore(input[p].lines, h, k);
    } else {
      HeadingsOnlyGrow(input[p].lines, k, h);
    }
  }

  // ------------------------------------------------------------ box and text

  lemma {:induction false} TopIsLeast(lines: seq<Line>) returns (at: nat)
    requires lines != []
    ensures forall i :: 0 <= i < |lines| ==> TopOf(lines) <= lines[i].top
    ensures at < |lines| && TopOf(lines) == lines[at].top
  {
    var last := |lines| - 1;
    at := last;
    if last > 0 {
      var front := TopIsLeast(lines[..last]);
      assert forall m :: 0 <= m < last ==> lines[..last][m] == lines[m];
      at := if lines[front].top <= lines[last].top then front else last;
    }
  }

  lemma {:induction false} BottomIsGreatest(lines: seq<Line>) returns (at: nat)
    requires lines != []
    ensures forall i :: 0 <= i < |lines| ==> lines[i].bottom <= BottomOf(lines)
    ensures at < |lines| && BottomOf(lines) == lines[at].bottom
  {
    var last := |lines| - 1;
    at := last;
    if last > 0 {
      var front := BottomIsGreatest(lines[..last]);
      assert forall m :: 0 <= m < last ==> lines[..last][m] == lines[m];
      at := if lines[front].bottom >= lines[last].bottom then front else last;
    }
  }

  /** The least box that holds the lines of a range. */
  predicate Boxes(lines: seq<ContentLine>, first: int, last: int, top: real, bottom: real)
    requires 0 <= first <= last < |lines|
  {
    && (forall k :: first <= k <= last ==> top <= lines[k].line.top && lines[k].line.bottom <= bottom)
    && (exists k :: first <= k <= last && lines[k].line.top == top)
    && exists k :: first <= k <= last && lines[k].line.bottom == bottom
  }

  lemma RunBoxes(lines: seq<ContentLine>, r: Range)
    requires 0 <= r.first <= r.last < |lines|
    ensures var run := LinesOf(lines[r.first..r.last + 1]);
            Boxes(lines, r.first, r.last, TopOf(run), BottomOf(run))
  {
    var run := LinesOf(lines[r.first..r.last + 1]);
    assert forall m :: 0 <= m < |run| ==> run[m] == lines[r.first + m].line;
    var top := TopIsLeast(run);
    var bottom := BottomIsGreatest(run);
    forall k | r.first <= k <= r.last ensures TopOf(run) <= lines[k].line.top && lines[k].line.bottom <= BottomOf(run) {
      assert run[k - r.first] == lines[k].line;
    }
    assert lines[r.first + top].line.top == TopOf(run);
    assert lines[r.first + bottom].line.bottom == BottomOf(run);
  }

  /** A paragraph's box is the least that holds all its lines. */
  lemma ParagraphBoxesItsLines(input: seq<ContentPage>, w: Whole, j: int, p: int, k: int)
    requires Readable(input) && ShowsPages(input, w, |input|) && 0 <= p < |input| && Spans(w, j, p, k)
    ensures var q := w.paragraphs[j];
            && 0 <= q.lineStart <= k <= q.lineEnd < |input[p].lines|
            && Boxes(input[p].lines, q.lineStart, q.lineEnd, q.top, q.bottom)
  {
    var r := RunOf(input, w, j, p, k);
    RunBoxes(input[p].lines, r);
  }

  /** Line `k` stands in the text where the lines of the range before it end, after a space, and the last ends it. */
  predicate Reads(lines: seq<ContentLine>, first: int, last: int, text: string, k: int)
    requires 0 <= first <= k <= last < |lines|
  {
    var start := StartOf(LineTexts(LinesOf(lines[first..last + 1])), k - first);
    var end := start + |lines[k].line.text|;
    && end <= |text| && text[start..end] == lines[k].line.text
    && (k > first ==> start > 0 && text[start - 1] == ' ')
    && (k == last ==> end == |text|)
  }

  lemma {:induction false} RunReads(lines: seq<ContentLine>, r: Range, k: int)
    requires 0 <= r.first <= k <= r.last < |lines|
    ensures Reads(lines, r.first, r.last, Joined(LineTexts(LinesOf(lines[r.first..r.last + 1]))), k)
  {
    var texts := LineTexts(LinesOf(lines[r.first..r.last + 1]));
    assert texts[k - r.first] == lines[k].line.text;
    JoinedHolds(texts, k - r.first);
    JoinedLength(texts);
  }

  /** Its text is the texts of its lines with one space between. */
  lemma ParagraphReadsItsLines(input: seq<ContentPage>, w: Whole, j: int, p: int, k: int)
    requires Readable(input) && ShowsPages(input, w, |input|) && 0 <= p < |input| && Spans(w, j, p, k)
    ensures var q := w.paragraphs[j];
            && 0 <= q.lineStart <= k <= q.lineEnd < |input[p].lines|
            && Reads(input[p].lines, q.lineStart, q.lineEnd, q.text, k)
  {
    var r := RunOf(input, w, j, p, k);
    RunReads(input[p].lines, r, k);
  }
}
