/**
 What a document assembled from its pages amounts to: every line has its place,
 nothing else is there, and the pages leave no choice.
 */
module WholeDocuments {
  import opened Base
  import opened SectionNesting
  import opened ParagraphText
  import opened ParagraphCuts
  import opened DocumentParts
  import opened RepeatedMargins
  import opened DocumentIr

  // ------------------------------------------------------------ every line has its place

  /** Paragraph `j` is on page `p + 1` and spans line `k` of it. */
  predicate Spans(w: Whole, j: int, p: int, k: int) {
    && 0 <= j < |w.paragraphs| && w.paragraphs[j].page == p + 1
    && w.paragraphs[j].lineStart <= k <= w.paragraphs[j].lineEnd
  }

  /** Section `j` is line `k` of page `p + 1`. */
  predicate IsHeadingOf(w: Whole, j: int, input: seq<ContentPage>, p: int, k: int)
    requires 0 <= p < |input| && 0 <= k < |input[p].lines|
  {
    var line := input[p].lines[k];
    && 0 <= j < |w.sections| && w.sections[j].page == p + 1
    && Some(w.sections[j].level) == line.heading && w.sections[j].text == line.line.text
    && w.sections[j].top == line.line.top && w.sections[j].bottom == line.line.bottom
  }

  /** Every paragraph is in the share of some page. */
  lemma {:induction false} ParagraphHasPage(input: seq<ContentPage>, w: Whole, upto: int, j: int) returns (p: int)
    requires Readable(input) && ShowsPages(input, w, |input|) && 0 <= upto <= |input|
    requires 0 <= j < ParagraphsUpTo(w.shares, upto)
    ensures 0 <= p < upto && w.shares[p].paragraphsFrom <= j < w.shares[p].paragraphsTo
    decreases upto
  {
    p := upto - 1;
    assert ShowsPage(input, w, p);
    if j < w.shares[p].paragraphsFrom {
      p := ParagraphHasPage(input, w, upto - 1, j);
    }
  }

  lemma {:induction false} SectionHasPage(input: seq<ContentPage>, w: Whole, upto: int, j: int) returns (p: int)
    requires Readable(input) && ShowsPages(input, w, |input|) && 0 <= upto <= |input|
    requires 0 <= j < SectionsUpTo(w.shares, upto)
    ensures 0 <= p < upto && w.shares[p].sectionsFrom <= j < w.shares[p].sectionsTo
    decreases upto
  {
    p := upto - 1;
    assert ShowsPage(input, w, p);
    if j < w.shares[p].sectionsFrom {
      p := SectionHasPage(input, w, upto - 1, j);
    }
  }

  /** A paragraph is one run of one page, with its text, markers, section and box. */
  lemma ParagraphIsARun(input: seq<ContentPage>, w: Whole, p: int, j: int)
    requires Readable(input) && ShowsPages(input, w, |input|) && 0 <= p < |input|
    requires w.shares[p].paragraphsFrom <= j < w.shares[p].paragraphsTo
    ensures w.shares[p].sectionsFrom >= 0
    ensures var share, lines := w.shares[p], input[p].lines;
            var sections := LineSections(lines, share.sectionsFrom);
            && 0 <= j < |w.paragraphs| && j - share.paragraphsFrom < |share.runs|
            && Cut(lines, sections, share.runs, |lines|) && InPage(lines, share.runs)
            && w.paragraphs[j] == Assembled(lines, sections, share.runs[j - share.paragraphsFrom], j + 1, p + 1)
  {
    assert ShowsPage(input, w, p);
    var share := w.shares[p];
    var mine := w.paragraphs[..share.paragraphsTo];
    assert mine[share.paragraphsFrom + (j - share.paragraphsFrom)] == w.paragraphs[j];
  }

  /** The paragraph spanning a line is a run of that line's page. */
  lemma SpanIsRun(input: seq<ContentPage>, w: Whole, j: int, p: int, k: int) returns (i: int)
    requires Readable(input) && ShowsPages(input, w, |input|) && 0 <= p < |input| && Spans(w, j, p, k)
    ensures w.shares[p].sectionsFrom >= 0
    ensures var share, lines := w.shares[p], input[p].lines;
            && Cut(lines, LineSections(lines, share.sectionsFrom), share.runs, |lines|)
            && 0 <= i < |share.runs| && j == share.paragraphsFrom + i
            && share.runs[i].first <= k <= share.runs[i].last
  {
    var q := ParagraphHasPage(input, w, |input|, j);
    ParagraphIsARun(input, w, q, j);
    i := j - w.shares[q].paragraphsFrom;
  }

  lemma RunIsSpan(input: seq<ContentPage>, w: Whole, p: int, i: int, k: int)
    requires Readable(input) && ShowsPages(input, w, |input|) && 0 <= p < |input|
    requires 0 <= i < |w.shares[p].runs| && w.shares[p].runs[i].first <= k <= w.shares[p].runs[i].last
    ensures Spans(w, w.shares[p].paragraphsFrom + i, p, k)
  {
    assert ShowsPage(input, w, p);
    ParagraphIsARun(input, w, p, w.shares[p].paragraphsFrom + i);
  }

  /**
   A line is in some paragraph of the whole document if and only if it is content,
   and then in only one.
   */
  lemma ContentLinesHaveOneParagraph(input: seq<ContentPage>, w: Whole, p: int, k: int)
    requires Readable(input) && ShowsPages(input, w, |input|)
    requires 0 <= p < |input| && 0 <= k < |input[p].lines|
    ensures (exists j :: Spans(w, j, p, k)) <==> IsContent(input[p].lines, k)
    ensures forall j, j' :: Spans(w, j, p, k) && Spans(w, j', p, k) ==> j == j'
  {
    var lines, share := input[p].lines, w.shares[p];
    assert ShowsPage(input, w, p);
    var sections := LineSections(lines, share.sectionsFrom);
    if IsContent(lines, k) {
      assert Placed(share.runs, k);
      var i :| 0 <= i < |share.runs| && share.runs[i].first <= k <= share.runs[i].last;
      RunIsSpan(input, w, p, i, k);
    }
    if j :| Spans(w, j, p, k) {
      var i := SpanIsRun(input, w, j, p, k);
      assert InRange(lines, sections, share.runs[i], |lines|);
    }
    forall j, j' | Spans(w, j, p, k) && Spans(w, j', p, k) ensures j == j' {
      var i := SpanIsRun(input, w, j, p, k);
      var i' := SpanIsRun(input, w, j', p, k);
      PlacedOnce(lines, sections, share.runs, k, i, i');
    }
  }

  lemma {:induction false} HeadingWithRank(lines: seq<ContentLine>, upto: nat, n: nat) returns (i: nat)
    requires upto <= |lines| && n < HeadingsBefore(lines, upto)
    ensures i < upto && lines[i].heading.Some? && HeadingsBefore(lines, i) == n
    decreases upto
  {
    if n < HeadingsBefore(lines, upto - 1) {
      i := HeadingWithRank(lines, upto - 1, n);
    } else {
      i := upto - 1;
    }
  }

  /** The rank of a heading among its page's, counted on from the sections before the page. */
  function SectionOf(input: seq<ContentPage>, w: Whole, p: int, k: int): int
    requires 0 <= p < |input| && p < |w.shares| && 0 <= k < |input[p].lines|
  {
    w.shares[p].sectionsFrom + HeadingsBefore(input[p].lines, k)
  }

  /** Every heading line is a section of the whole document, at its own rank. */
  lemma HeadingLinesAreSections(input: seq<ContentPage>, w: Whole, p: int, k: int)
    requires Readable(input) && ShowsPages(input, w, |input|)
    requires 0 <= p < |input| && 0 <= k < |input[p].lines| && input[p].lines[k].heading.Some?
    ensures IsHeadingOf(w, SectionOf(input, w, p, k), input, p, k)
  {
    assert ShowsPage(input, w, p);
    var share := w.shares[p];
    assert ShowsHeading(w.sections[..share.sectionsTo], share.sectionsFrom, input[p].lines, k, p + 1);
  }

  /** And every section is a heading line of some page, so there is nothing else. */
  lemma SectionsAreHeadingLines(input: seq<ContentPage>, w: Whole, j: int) returns (p: int, k: int)
    requires Readable(input) && ShowsPages(input, w, |input|) && 0 <= j < |w.sections|
    ensures 0 <= p < |input| && 0 <= k < |input[p].lines| && input[p].lines[k].heading.Some?
    ensures SectionOf(input, w, p, k) == j && IsHeadingOf(w, j, input, p, k)
  {
    p := SectionHasPage(input, w, |input|, j);
    assert ShowsPage(input, w, p);
    var lines := input[p].lines;
    k := HeadingWithRank(lines, |lines|, j - w.shares[p].sectionsFrom);
    HeadingLinesAreSections(input, w, p, k);
  }

  // ------------------------------------------------------------ the pages leave no choice

  /** The run of `b` that holds the first line of `a`'s `j`th comes no earlier. */
  lemma NoEarlierStart(
    lines: seq<ContentLine>, sections: seq<Option<int>>, a: seq<Range>, b: seq<Range>, j: int)
    requires |lines| == |sections| && Cut(lines, sections, a, |lines|) && Cut(lines, sections, b, |lines|)
    requires 0 <= j < |a| && j <= |b| && a[..j] == b[..j]
    ensures j < |b| && b[j].first <= a[j].first
  {
    var k := a[j].first;
    assert InRange(lines, sections, a[j], |lines|);
    assert Placed(b, k);
    var i :| 0 <= i < |b| && b[i].first <= k <= b[i].last;
    if i < j {
      assert a[..j][i] == b[..j][i];
      PlacedOnce(lines, sections, a, k, i, j);
    } else if j < i {
      InOrder(lines, sections, b, j, i);
      assert InRange(lines, sections, b[j], |lines|);
    }
  }

  lemma NoEarlierEnd(
    lines: seq<ContentLine>, sections: seq<Option<int>>, a: seq<Range>, b: seq<Range>, j: int)
    requires |lines| == |sections| && Cut(lines, sections, a, |lines|) && Cut(lines, sections, b, |lines|)
    requires 0 <= j < |a| && j < |b| && a[j].first == b[j].first
    ensures b[j].last <= a[j].last
  {
    var k := a[j].last + 1;
    assert InRange(lines, sections, a[j], |lines|) && InRange(lines, sections, b[j], |lines|);
    if k <= b[j].last {
      SharedExactlyWithoutBreak(lines, sections, a, k);
      var i :| 0 <= i < |a| && a[i].first <= k - 1 && k <= a[i].last;
      PlacedOnce(lines, sections, a, k - 1, i, j);
    }
  }

  lemma {:induction false} CutsAgreeUpTo(
    lines: seq<ContentLine>, sections: seq<Option<int>>, a: seq<Range>, b: seq<Range>, j: int)
    requires |lines| == |sections| && Cut(lines, sections, a, |lines|) && Cut(lines, sections, b, |lines|)
    requires 0 <= j <= |a|
    ensures j <= |b| && a[..j] == b[..j]
    decreases j
  {
    if j > 0 {
      CutsAgreeUpTo(lines, sections, a, b, j - 1);
      NoEarlierStart(lines, sections, a, b, j - 1);
      NoEarlierStart(lines, sections, b, a, j - 1);
      NoEarlierEnd(lines, sections, a, b, j - 1);
      NoEarlierEnd(lines, sections, b, a, j - 1);
      assert a[..j] == a[..j - 1] + [a[j - 1]] && b[..j] == b[..j - 1] + [b[j - 1]];
    }
  }

  /** There is one way to cut a page. */
  lemma CutIsUnique(lines: seq<ContentLine>, sections: seq<Option<int>>, a: seq<Range>, b: seq<Range>)
    requires |lines| == |sections| && Cut(lines, sections, a, |lines|) && Cut(lines, sections, b, |lines|)
    ensures a == b
  {
    CutsAgreeUpTo(lines, sections, a, b, |a|);
    CutsAgreeUpTo(lines, sections, b, a, |b|);
    assert a[..|a|] == a && b[..|b|] == b;
  }

  lemma SharesStartAlike(input: seq<ContentPage>, v: Whole, w: Whole, p: int)
    requires Readable(input) && ShowsPages(input, v, |input|) && ShowsPages(input, w, |input|)
    requires 0 <= p < |input| && SectionsUpTo(v.shares, p) == SectionsUpTo(w.shares, p)
    requires ParagraphsUpTo(v.shares, p) == ParagraphsUpTo(w.shares, p)
    ensures v.shares[p] == w.shares[p] && v.pages[p] == w.pages[p]
  {
    assert ShowsPage(input, v, p) && ShowsPage(input, w, p);
    var lines := input[p].lines;
    CutIsUnique(lines, LineSections(lines, v.shares[p].sectionsFrom), v.shares[p].runs, w.shares[p].runs);
  }

  lemma {:induction false} SharesAgree(input: seq<ContentPage>, v: Whole, w: Whole, upto: int)
    requires Readable(input) && ShowsPages(input, v, |input|) && ShowsPages(input, w, |input|)
    requires 0 <= upto <= |input|
    ensures v.shares[..upto] == w.shares[..upto] && v.pages[..upto] == w.pages[..upto]
    decreases upto
  {
    if upto > 0 {
      SharesAgree(input, v, w, upto - 1);
      assert upto > 1 ==> v.shares[upto - 2] == v.shares[..upto - 1][upto - 2];
      assert upto > 1 ==> w.shares[upto - 2] == w.shares[..upto - 1][upto - 2];
      SharesStartAlike(input, v, w, upto - 1);
      assert v.shares[..upto] == v.shares[..upto - 1] + [v.shares[upto - 1]];
      assert w.shares[..upto] == w.shares[..upto - 1] + [w.shares[upto - 1]];
      assert v.pages[..upto] == v.pages[..upto - 1] + [v.pages[upto - 1]];
      assert w.pages[..upto] == w.pages[..upto - 1] + [w.pages[upto - 1]];
    }
  }

  lemma ParagraphsAgree(input: seq<ContentPage>, v: Whole, w: Whole, j: int)
    requires Readable(input) && ShowsPages(input, v, |input|) && ShowsPages(input, w, |input|)
    requires v.shares == w.shares && 0 <= j < |v.paragraphs| == |w.paragraphs|
    ensures v.paragraphs[j] == w.paragraphs[j]
  {
    var p := ParagraphHasPage(input, v, |input|, j);
    ParagraphIsARun(input, v, p, j);
    ParagraphIsARun(input, w, p, j);
  }

  lemma SectionsAgreeButParents(input: seq<ContentPage>, v: Whole, w: Whole, j: int)
    requires Readable(input) && ShowsPages(input, v, |input|) && ShowsPages(input, w, |input|)
    requires v.shares == w.shares && 0 <= j < |v.sections| == |w.sections|
    ensures v.sections[j] == w.sections[j].(parent := v.sections[j].parent)
  {
    var p, k := SectionsAreHeadingLines(input, v, j);
    assert ShowsPage(input, v, p) && ShowsPage(input, w, p);
    var share, lines := v.shares[p], input[p].lines;
    assert ShowsHeading(v.sections[..share.sectionsTo], share.sectionsFrom, lines, k, p + 1);
    assert ShowsHeading(w.sections[..share.sectionsTo], share.sectionsFrom, lines, k, p + 1);
  }

  /** Levels and ids decide every parent. */
  lemma NestingIsUnique(a: seq<Section>, b: seq<Section>)
    requires |a| == |b| && Nested(a) && Nested(b)
    requires forall j :: 0 <= j < |a| ==> a[j] == b[j].(parent := a[j].parent)
    ensures a == b
  {
    assert Levels(a) == Levels(b) && Ids(a) == Ids(b);
    forall j | 0 <= j < |a| ensures a[j] == b[j] {
      assert ParentAt(a, j) == ParentAt(b, j);
    }
  }

  /** The input decides the assembled document: pages, sections with their parents, and paragraphs. */
  lemma AssemblyIsUnique(input: seq<ContentPage>, v: Whole, w: Whole)
    requires Readable(input) && ShowsPages(input, v, |input|) && ShowsPages(input, w, |input|)
    requires Nested(v.sections) && Nested(w.sections)
    ensures v == w
  {
    SharesAgree(input, v, w, |input|);
    assert v.shares[..|input|] == v.shares && w.shares[..|input|] == w.shares;
    assert v.pages[..|input|] == v.pages && w.pages[..|input|] == w.pages;
    forall j | 0 <= j < |v.paragraphs| ensures v.paragraphs[j] == w.paragraphs[j] {
      ParagraphsAgree(input, v, w, j);
    }
    forall j | 0 <= j < |v.sections|
      ensures v.sections[j] == w.sections[j].(parent := v.sections[j].parent)
    {
      SectionsAgreeButParents(input, v, w, j);
    }
    NestingIsUnique(v.sections, w.sections);
    assert v.paragraphs == w.paragraphs;
  }

  lemma {:induction false} MarginPassIsUnique(
    rd: Reading, whole: Whole, pass1: MarginPass, after1: Contents, pass2: MarginPass, after2: Contents)
    requires MarginsDropped(rd, whole, pass1, after1) && MarginsDropped(rd, whole, pass2, after2)
    ensures after1 == after2
  {
    assert pass1.repeated == pass2.repeated;
    forall id: int ensures id in pass1.gone <==> id in pass2.gone {
    }
    assert pass1.gone == pass2.gone;
    NestingIsUnique(after1.sections, after2.sections);
  }

  /** Two documents parsed from the same pages are the same, down to every parent and every list. */
  lemma {:induction false} ParsedDocumentIsUnique(
    input: seq<ContentPage>, rd: Reading,
    v: Whole, pass1: MarginPass, after1: Contents, w: Whole, pass2: MarginPass, after2: Contents)
    requires Readable(input) && ShowsPages(input, v, |input|) && ShowsPages(input, w, |input|)
    requires Nested(v.sections) && Nested(w.sections)
    requires MarginsDropped(rd, v, pass1, after1) && MarginsDropped(rd, w, pass2, after2)
    ensures after1 == after2
  {
    AssemblyIsUnique(input, v, w);
    MarginPassIsUnique(rd, v, pass1, after1, pass2, after2);
  }
}
