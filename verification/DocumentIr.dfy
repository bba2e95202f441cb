/**
 Assembling a document page by page, and dropping the running heads and feet at the
 end: headings nest under earlier headings, the other lines fall into paragraphs.
 */
module DocumentIr {
  import opened Base
  import opened SectionNesting
  import opened ParagraphText
  import opened ParagraphCuts
  import opened DocumentParts
  import opened RepeatedMargins

  /** What layout analysis hands over for one page. */
  datatype ContentPage = ContentPage(lines: seq<ContentLine>, height: real)

  /** Headings among the first `i` lines. */
  function HeadingsBefore(lines: seq<ContentLine>, i: nat): (n: nat)
    requires i <= |lines|
    ensures n <= i
  {
    if i == 0 then 0 else HeadingsBefore(lines, i - 1) + if lines[i - 1].heading.Some? then 1 else 0
  }

  /** Section ids count up from one, so the latest of `count` sections has id `count`. */
  function Latest(count: nat): Option<int> {
    if count == 0 then None else Some(count)
  }

  /** The section each line falls under, when `before` sections precede the page. */
  function LineSections(lines: seq<ContentLine>, before: nat): seq<Option<int>> {
    seq(|lines|, i requires 0 <= i < |lines| => Latest(before + HeadingsBefore(lines, i + 1)))
  }

  /** The sections from `before` on are the headings among the first `upto` lines, in order. */
  ghost predicate ShowsHeadings(
    sections: seq<Section>, before: nat, lines: seq<ContentLine>, upto: nat, number: int)
    requires upto <= |lines|
  {
    && |sections| == before + HeadingsBefore(lines, upto)
    && forall i {:trigger ShowsHeading(sections, before, lines, i, number)} ::
         0 <= i < upto && lines[i].heading.Some? ==> ShowsHeading(sections, before, lines, i, number)
  }

  ghost predicate ShowsHeading(
    sections: seq<Section>, before: nat, lines: seq<ContentLine>, i: nat, number: int)
    requires i < |lines| && lines[i].heading.Some?
  {
    var k := before + HeadingsBefore(lines, i);
    && k < |sections|
    && sections[k] == Section(k + 1, lines[i].line.text, lines[i].heading.value, sections[k].parent,
                              number, lines[i].line.top, lines[i].line.bottom)
  }

  lemma LineShown(sections: seq<Section>, before: nat, lines: seq<ContentLine>, i: nat, number: int)
    requires i < |lines| && ShowsHeadings(sections, before, lines, i, number) && lines[i].heading.None?
    ensures ShowsHeadings(sections, before, lines, i + 1, number)
  {
  }

  lemma {:induction false} FewerHeadingsBefore(lines: seq<ContentLine>, i: nat, j: nat)
    requires i < j <= |lines| && lines[i].heading.Some?
    ensures HeadingsBefore(lines, i) < HeadingsBefore(lines, j)
    decreases j
  {
    if i < j - 1 {
      FewerHeadingsBefore(lines, i, j - 1);
    }
  }

  lemma HeadingShown(
    sections: seq<Section>, before: nat, lines: seq<ContentLine>, i: nat, number: int, parent: Option<int>)
    requires i < |lines| && ShowsHeadings(sections, before, lines, i, number) && lines[i].heading.Some?
    ensures var line := lines[i].line;
            var s := Section(|sections| + 1, line.text, lines[i].heading.value, parent, number, line.top, line.bottom);
            ShowsHeadings(sections + [s], before, lines, i + 1, number)
  {
    var line := lines[i].line;
    var s := Section(|sections| + 1, line.text, lines[i].heading.value, parent, number, line.top, line.bottom);
    forall j | 0 <= j < i + 1 && lines[j].heading.Some?
      ensures ShowsHeading(sections + [s], before, lines, j, number)
    {
      if j < i {
        FewerHeadingsBefore(lines, j, i);
        assert ShowsHeading(sections, before, lines, j, number);
      }
    }
  }

  function LinesOf(lines: seq<ContentLine>): seq<Line> {
    seq(|lines|, i requires 0 <= i < |lines| => lines[i].line)
  }

  function TopOf(lines: seq<Line>): real
    requires lines != []
  {
    var last := |lines| - 1;
    if last == 0 then lines[0].top else RealMin(TopOf(lines[..last]), lines[last].top)
  }

  function BottomOf(lines: seq<Line>): real
    requires lines != []
  {
    var last := |lines| - 1;
    if last == 0 then lines[0].bottom else RealMax(BottomOf(lines[..last]), lines[last].bottom)
  }

  ghost predicate MarkersPoint(lines: seq<ContentLine>) {
    forall i :: 0 <= i < |lines| ==> LineMarkersSound(lines[i].line.text, lines[i].line.markers)
  }

  /** What one run of content lines becomes. */
  ghost function Assembled(
    lines: seq<ContentLine>, sections: seq<Option<int>>, r: Range, id: int, number: int): Paragraph
    requires |lines| == |sections| && 0 <= r.first <= r.last < |lines| && MarkersPoint(lines)
  {
    var run := LinesOf(lines[r.first..r.last + 1]);
    Paragraph(id, Joined(LineTexts(run)), ParagraphMarkers(run), sections[r.first], number,
              r.first, r.last, TopOf(run), BottomOf(run))
  }

  /** The paragraphs from `before` on are the runs of one page, in order. */
  ghost predicate ShowsRuns(
    paragraphs: seq<Paragraph>, before: nat, lines: seq<ContentLine>, sections: seq<Option<int>>,
    ranges: seq<Range>, upto: nat, number: int)
    requires |lines| == |sections| && MarkersPoint(lines) && upto <= |ranges|
    requires InPage(lines, ranges)
  {
    && |paragraphs| == before + upto
    && forall j :: 0 <= j < upto ==>
         paragraphs[before + j] == Assembled(lines, sections, ranges[j], before + j + 1, number)
  }

  lemma {:induction false} RunsOneMore(
    paragraphs: seq<Paragraph>, before: nat, lines: seq<ContentLine>, sections: seq<Option<int>>,
    ranges: seq<Range>, j: nat, number: int)
    requires |lines| == |sections| && MarkersPoint(lines) && j < |ranges| && InPage(lines, ranges)
    requires ShowsRuns(paragraphs, before, lines, sections, ranges, j, number)
    ensures ShowsRuns(paragraphs + [Assembled(lines, sections, ranges[j], |paragraphs| + 1, number)],
                      before, lines, sections, ranges, j + 1, number)
  {
  }

  method Assemble(lines: seq<ContentLine>, sections: seq<Option<int>>, r: Range, id: int, number: int)
    returns (p: Paragraph)
    requires |lines| == |sections| && 0 <= r.first <= r.last < |lines| && MarkersPoint(lines)
    ensures p == Assembled(lines, sections, r, id, number)
  {
    var run := LinesOf(lines[r.first..r.last + 1]);
    var text, markers := ParagraphFromLines(run);
    p := Paragraph(id, text, markers, sections[r.first], number, r.first, r.last, TopOf(run), BottomOf(run));
  }

  function Counted(from: int, to: int): seq<int>
    requires from <= to
  {
    seq(to - from, i => from + i + 1)
  }

  lemma CountedOneMore(from: int, to: int)
    requires from <= to
    ensures Counted(from, to + 1) == Counted(from, to) + [to + 1]
  {
  }

  /** Page `p` lists exactly the ids `1..count` it owns. */
  ghost predicate ListsItsOwn(pages: seq<Page>, sections: seq<Section>, paragraphs: seq<Paragraph>) {
    && (forall p, id :: 0 <= p < |pages| && id in pages[p].headings ==>
          1 <= id <= |sections| && sections[id - 1].page == p + 1)
    && (forall p, id :: 0 <= p < |pages| && id in pages[p].paragraphs ==>
          1 <= id <= |paragraphs| && paragraphs[id - 1].page == p + 1)
  }

  predicate InPage(lines: seq<ContentLine>, ranges: seq<Range>) {
    forall j :: 0 <= j < |ranges| ==> 0 <= ranges[j].first <= ranges[j].last < |lines|
  }

  lemma CutsAreInPage(lines: seq<ContentLine>, sections: seq<Option<int>>, ranges: seq<Range>)
    requires |lines| == |sections| && Cut(lines, sections, ranges, |lines|)
    ensures InPage(lines, ranges)
  {
  }

  ghost predicate ParagraphsNumbered(paragraphs: seq<Paragraph>, sections: nat, count: int) {
    forall i :: 0 <= i < |paragraphs| ==>
      && paragraphs[i].id == i + 1 && 1 <= paragraphs[i].page <= count
      && (paragraphs[i].section.Some? ==> 1 <= paragraphs[i].section.value <= sections)
  }

  lemma {:induction false} HeadingsOnlyGrow(lines: seq<ContentLine>, i: nat, j: nat)
    requires i <= j <= |lines|
    ensures HeadingsBefore(lines, i) <= HeadingsBefore(lines, j)
    decreases j
  {
    if i < j {
      HeadingsOnlyGrow(lines, i, j - 1);
    }
  }

  lemma {:induction false} ParagraphsStayNumbered(
    known: seq<Paragraph>, paragraphs: seq<Paragraph>, sections: nat, lines: seq<ContentLine>,
    ranges: seq<Range>, before: nat, number: int)
    requires ParagraphsNumbered(known, before, number - 1) && known <= paragraphs && number >= 1
    requires MarkersPoint(lines) && InPage(lines, ranges)
    requires sections == before + HeadingsBefore(lines, |lines|)
    requires ShowsRuns(paragraphs, |known|, lines, LineSections(lines, before), ranges, |ranges|, number)
    ensures ParagraphsNumbered(paragraphs, sections, number)
    ensures forall i :: |known| <= i < |paragraphs| ==> paragraphs[i].page == number
  {
    forall i | |known| <= i < |paragraphs|
      ensures paragraphs[i].id == i + 1 && paragraphs[i].page == number
      ensures paragraphs[i].section.Some? ==> 1 <= paragraphs[i].section.value <= sections
    {
      var r := ranges[i - |known|];
      assert paragraphs[|known| + (i - |known|)] == Assembled(lines, LineSections(lines, before), r, i + 1, number);
      HeadingsOnlyGrow(lines, r.first + 1, |lines|);
    }
  }

  lemma {:induction false} NewSectionsAreOnPage(
    sections: seq<Section>, before: nat, lines: seq<ContentLine>, upto: nat, number: int)
    requires upto <= |lines| && ShowsHeadings(sections, before, lines, upto, number)
    ensures forall k :: before <= k < |sections| ==> sections[k].page == number
  {
    if upto > 0 {
      if lines[upto - 1].heading.Some? {
        assert ShowsHeading(sections, before, lines, upto - 1, number);
        var front := sections[..|sections| - 1];
        forall i | 0 <= i < upto - 1 && lines[i].heading.Some?
          ensures ShowsHeading(front, before, lines, i, number)
        {
          assert ShowsHeading(sections, before, lines, i, number);
          FewerHeadingsBefore(lines, i, upto - 1);
        }
        NewSectionsAreOnPage(front, before, lines, upto - 1, number);
      } else {
        NewSectionsAreOnPage(sections, before, lines, upto - 1, number);
      }
    }
  }

  lemma ListsOneMore(
    pages: seq<Page>, page: Page, sections: seq<Section>, more: seq<Section>,
    paragraphs: seq<Paragraph>, longer: seq<Paragraph>)
    requires ListsItsOwn(pages, sections, paragraphs)
    requires sections <= more && paragraphs <= longer
    requires page.headings == Counted(|sections|, |more|) && page.paragraphs == Counted(|paragraphs|, |longer|)
    requires forall k :: |sections| <= k < |more| ==> more[k].page == |pages| + 1
    requires forall k :: |paragraphs| <= k < |longer| ==> longer[k].page == |pages| + 1
    ensures ListsItsOwn(pages + [page], more, longer)
  {
  }

  // ------------------------------------------------------------ the whole document

  /** What one page contributed: where its sections and paragraphs start and end, and its runs of lines. */
  datatype Share = Share(
    sectionsFrom: int, sectionsTo: int, paragraphsFrom: int, paragraphsTo: int, runs: seq<Range>)

  /** A document with its pages added, before running heads and feet are dropped. */
  datatype Whole = Whole(
    pages: seq<Page>, sections: seq<Section>, paragraphs: seq<Paragraph>, shares: seq<Share>)

  /** The repeated texts and what goes with them. */
  datatype MarginPass = MarginPass(repeated: set<string>, gone: set<int>, goneParagraphs: set<int>)

  datatype Contents = Contents(pages: seq<Page>, sections: seq<Section>, paragraphs: seq<Paragraph>)

  ghost predicate Readable(input: seq<ContentPage>) {
    forall p :: 0 <= p < |input| ==> HeadingLevels(input[p].lines) && MarkersPoint(input[p].lines)
  }

  function SectionsUpTo(shares: seq<Share>, p: int): int
    requires 0 <= p <= |shares|
  {
    if p == 0 then 0 else shares[p - 1].sectionsTo
  }

  function ParagraphsUpTo(shares: seq<Share>, p: int): int
    requires 0 <= p <= |shares|
  {
    if p == 0 then 0 else shares[p - 1].paragraphsTo
  }

  /** The sections from `from` up to `to` are the page's headings, the paragraphs of the share its runs, and its record lists both. */
  ghost predicate ShowsContent(content: ContentPage, number: int, share: Share, page: Page, w: Whole)
    requires MarkersPoint(content.lines)
  {
    var lines := content.lines;
    && 0 <= share.sectionsFrom <= share.sectionsTo <= |w.sections|
    && 0 <= share.paragraphsFrom <= share.paragraphsTo <= |w.paragraphs|
    && ShowsHeadings(w.sections[..share.sectionsTo], share.sectionsFrom, lines, |lines|, number)
    && Cut(lines, LineSections(lines, share.sectionsFrom), share.runs, |lines|) && InPage(lines, share.runs)
    && ShowsRuns(w.paragraphs[..share.paragraphsTo], share.paragraphsFrom, lines,
                 LineSections(lines, share.sectionsFrom), share.runs, |share.runs|, number)
    && page == Page(number, content.height, Counted(share.sectionsFrom, share.sectionsTo),
                    Counted(share.paragraphsFrom, share.paragraphsTo))
  }

  /** Page `p` starts where the one before it ended, and shows its own content. */
  ghost predicate ShowsPage(input: seq<ContentPage>, w: Whole, p: int)
    requires 0 <= p < |input| && p < |w.shares| && p < |w.pages| && Readable(input)
  {
    && w.shares[p].sectionsFrom == SectionsUpTo(w.shares, p)
    && w.shares[p].paragraphsFrom == ParagraphsUpTo(w.shares, p)
    && ShowsContent(input[p], p + 1, w.shares[p], w.pages[p], w)
  }

  /** The document is exactly the first `upto` pages, one after the other, with nothing between or after them. */
  ghost predicate ShowsPages(input: seq<ContentPage>, w: Whole, upto: int)
    requires 0 <= upto <= |input| && Readable(input)
  {
    && |w.pages| == |w.shares| == upto
    && (forall p {:trigger ShowsPage(input, w, p)} :: 0 <= p < upto ==> ShowsPage(input, w, p))
    && SectionsUpTo(w.shares, upto) == |w.sections|
    && ParagraphsUpTo(w.shares, upto) == |w.paragraphs|
  }

  /** What a page showed it still shows when the document has grown. */
  lemma ShownStays(content: ContentPage, number: int, share: Share, page: Page, w: Whole, more: Whole)
    requires MarkersPoint(content.lines) && ShowsContent(content, number, share, page, w)
    requires w.sections <= more.sections && w.paragraphs <= more.paragraphs
    ensures ShowsContent(content, number, share, page, more)
  {
    assert more.sections[..share.sectionsTo] == w.sections[..share.sectionsTo];
    assert more.paragraphs[..share.paragraphsTo] == w.paragraphs[..share.paragraphsTo];
  }

  lemma PageAdded(input: seq<ContentPage>, p: int, w: Whole, more: Whole, share: Share, page: Page)
    requires 0 <= p < |input| && Readable(input) && ShowsPages(input, w, p)
    requires w.sections <= more.sections && w.paragraphs <= more.paragraphs
    requires more.shares == w.shares + [share] && more.pages == w.pages + [page]
    requires share.sectionsFrom == |w.sections| && share.sectionsTo == |more.sections|
    requires share.paragraphsFrom == |w.paragraphs| && share.paragraphsTo == |more.paragraphs|
    requires ShowsContent(input[p], p + 1, share, page, more)
    ensures ShowsPages(input, more, p + 1)
  {
    forall q | 0 <= q < p + 1 ensures ShowsPage(input, more, q) {
      if q < p {
        assert ShowsPage(input, w, q);
        ShownStays(input[q], q + 1, w.shares[q], w.pages[q], w, more);
      }
    }
  }

  class DocumentIr {
    var pages: seq<Page>
    var sections: seq<Section>
    var paragraphs: seq<Paragraph>
    var stack: seq<Entry>
    ghost var where: seq<int>

    /** Numbering, nesting and cross-references while pages are still being added. */
    ghost predicate Growing()
      reads this
    {
      && Stacked() && Nested(sections)
      && Numbered(pages, sections, paragraphs)
      && ListsItsOwn(pages, sections, paragraphs)
    }

    ghost predicate Stacked()
      reads this
    {
      && Chain(where, Levels(sections))
      && Shows(stack, where, Levels(sections), Ids(sections))
    }

    constructor ()
      ensures Growing() && pages == [] && sections == [] && paragraphs == []
    {
      pages, sections, paragraphs, stack, where := [], [], [], [], [];
    }

    /** Headings of the first `i` lines are nested; `before` sections precede the page. */
    ghost predicate Nesting(before: nat, lines: seq<ContentLine>, i: nat, number: int)
      requires i <= |lines|
      reads this
    {
      && Stacked() && Nested(sections) && SectionsNumbered(sections, number)
      && ShowsHeadings(sections, before, lines, i, number)
    }

    /** The heading loop of one page. */
    method NestHeadings(lines: seq<ContentLine>, number: int)
      returns (lineSections: seq<Option<int>>, headings: seq<int>)
      requires Stacked() && Nested(sections) && SectionsNumbered(sections, number)
      requires HeadingLevels(lines) && number >= 1
      modifies this
      ensures pages == old(pages) && paragraphs == old(paragraphs)
      ensures Nesting(|old(sections)|, lines, |lines|, number)
      ensures old(sections) <= sections
      ensures lineSections == LineSections(lines, |old(sections)|)
      ensures headings == Counted(|old(sections)|, |sections|)
    {
      lineSections, headings := [], [];
      ghost var before := |sections|;
      var current := if stack != [] then Some(stack[|stack| - 1].id) else None;
      TopIsLatest();
      for i := 0 to |lines|
        invariant pages == old(pages) && paragraphs == old(paragraphs)
        invariant Nesting(before, lines, i, number)
        invariant old(sections) <= sections
        invariant current == Latest(|sections|)
        invariant |headings| == |sections| - before && |lineSections| == i
        invariant forall k :: 0 <= k < |headings| ==> headings[k] == before + k + 1
        invariant forall k :: 0 <= k < i ==> lineSections[k] == Latest(before + HeadingsBefore(lines, k + 1))
      {
        var added;
        current, added := PlaceLine(lines, i, number, current, before);
        headings := headings + added;
        lineSections := lineSections + [current];
      }
    }

    method PlaceLine(lines: seq<ContentLine>, i: nat, number: int, current: Option<int>, ghost before: nat)
      returns (section: Option<int>, added: seq<int>)
      requires i < |lines| && HeadingLevels(lines) && number >= 1
      requires Nesting(before, lines, i, number) && current == Latest(|sections|)
      modifies this
      ensures pages == old(pages) && paragraphs == old(paragraphs)
      ensures Nesting(before, lines, i + 1, number) && section == Latest(|sections|)
      ensures old(sections) <= sections && |sections| == |old(sections)| + |added|
      ensures forall k :: 0 <= k < |added| ==> added[k] == |old(sections)| + k + 1
    {
      if lines[i].heading.Some? {
        var id := |sections| + 1;
        ghost var known := sections;
        var parent := Nest(lines[i], lines[i].heading.value, number);
        HeadingShown(known, before, lines, i, number, parent);
        NumberedOneMore(known, sections[|known|], number);
        section, added := Some(id), [id];
      } else {
        LineShown(sections, before, lines, i, number);
        section, added := current, [];
      }
    }

    /** One page: nest its headings, cut the other lines into paragraphs, list what it owns. */
    method AddPage(lines: seq<ContentLine>, height: real) returns (ghost ranges: seq<Range>)
      requires Growing() && HeadingLevels(lines) && MarkersPoint(lines)
      modifies this
      ensures Growing()
      ensures old(sections) <= sections && old(paragraphs) <= paragraphs
      ensures ShowsHeadings(sections, |old(sections)|, lines, |lines|, |pages|)
      ensures Cut(lines, LineSections(lines, |old(sections)|), ranges, |lines|) && InPage(lines, ranges)
      ensures ShowsRuns(paragraphs, |old(paragraphs)|, lines, LineSections(lines, |old(sections)|),
                        ranges, |ranges|, |pages|)
      ensures pages == old(pages) + [Page(|old(pages)| + 1, height, Counted(|old(sections)|, |sections|),
                                          Counted(|old(paragraphs)|, |paragraphs|))]
    {
      var number := |pages| + 1;
      var lineSections, headings := NestHeadings(lines, number);
      var cuts := CutParagraphs(lines, lineSections);
      ranges := cuts;
      CutsAreInPage(lines, lineSections, cuts);
      var listed := AssembleParagraphs(lines, lineSections, cuts, number);
      ParagraphsStayNumbered(old(paragraphs), paragraphs, |sections|, lines, ranges, |old(sections)|, number);
      NewSectionsAreOnPage(sections, |old(sections)|, lines, |lines|, number);
      ListsOneMore(pages, Page(number, height, headings, listed), old(sections), sections, old(paragraphs), paragraphs);
      pages := pages + [Page(number, height, headings, listed)];
    }

    method AssembleParagraphs(
      lines: seq<ContentLine>, lineSections: seq<Option<int>>, ranges: seq<Range>, number: int)
      returns (listed: seq<int>)
      requires |lines| == |lineSections| && MarkersPoint(lines) && InPage(lines, ranges)
      modifies this`paragraphs
      ensures old(paragraphs) <= paragraphs
      ensures ShowsRuns(paragraphs, |old(paragraphs)|, lines, lineSections, ranges, |ranges|, number)
      ensures listed == Counted(|old(paragraphs)|, |paragraphs|)
    {
      listed := [];
      for j := 0 to |ranges|
        invariant old(paragraphs) <= paragraphs
        invariant ShowsRuns(paragraphs, |old(paragraphs)|, lines, lineSections, ranges, j, number)
        invariant listed == Counted(|old(paragraphs)|, |paragraphs|)
      {
        var id := |paragraphs| + 1;
        var p := Assemble(lines, lineSections, ranges[j], id, number);
        CountedOneMore(|old(paragraphs)|, |paragraphs|);
        RunsOneMore(paragraphs, |old(paragraphs)|, lines, lineSections, ranges, j, number);
        paragraphs := paragraphs + [p];
        listed := listed + [id];
      }
    }

    /** Nest what survives afresh and move paragraphs off dropped sections; with nothing dropped, touch nothing. */
    method RebuildForest(rd: Reading, dropped: set<int>)
      requires Nested(sections) && forall i :: 0 <= i < |sections| ==> sections[i].id == i + 1
      modifies this`sections, this`paragraphs
      ensures Reparented(Keep(old(sections), dropped), sections) && Nested(sections)
      ensures ResettledAll(rd, old(sections), dropped, old(paragraphs), paragraphs)
    {
      if dropped == {} {
        KeepAll(sections);
        return;
      }
      var kept, replaced := Renest(rd, sections, dropped);
      assert sections[..|sections|] == sections;
      Resettle(replaced, rd, dropped);
      sections := kept;
    }

    /** Drop repeated margin text, rebuild the forest and repair every reference to what went. */
    method DropRepeatedMarginElements(rd: Reading)
      returns (ghost repeated: set<string>, ghost gone: set<int>, ghost goneParagraphs: set<int>)
      requires Growing()
      modifies this
      ensures forall key :: key in repeated <==>
                Repeats(rd, old(pages), Elements(old(sections), old(paragraphs)), key)
      ensures Dropped(rd, old(pages), repeated, old(sections), gone)
      ensures goneParagraphs == DroppedParagraphs(rd, old(pages), repeated, old(paragraphs))
      ensures Reparented(Keep(old(sections), gone), sections)
      ensures ResettledAll(rd, old(sections), gone, KeepParagraphs(old(paragraphs), goneParagraphs), paragraphs)
      ensures RelistedAll(old(pages), gone, goneParagraphs, pages)
      ensures Consistent(pages, sections, paragraphs)
    {
      var texts := FindRepeated(rd, pages, Elements(sections, paragraphs));
      var dropped := DroppedSections(rd, pages, texts, sections);
      var droppedParagraphs := DroppedParagraphs(rd, pages, texts, paragraphs);
      repeated, gone, goneParagraphs := texts, dropped, droppedParagraphs;
      paragraphs := KeepParagraphs(paragraphs, droppedParagraphs);
      RebuildForest(rd, dropped);
      RelistPages(dropped, droppedParagraphs);
      StaysConsistent(rd, gone, goneParagraphs, old(pages), pages, old(sections), sections, old(paragraphs), paragraphs);
    }

    method Resettle(replaced: map<int, Option<int>>, ghost rd: Reading, ghost gone: set<int>)
      requires forall id :: id in replaced <==> 1 <= id <= |sections| && id in gone
      requires forall id :: id in replaced ==> replaced[id] == Replacement(rd, sections, gone, id - 1)
      modifies this`paragraphs
      ensures ResettledAll(rd, sections, gone, old(paragraphs), paragraphs)
    {
      ghost var before := paragraphs;
      for i := 0 to |paragraphs|
        invariant |paragraphs| == |before|
        invariant forall k :: 0 <= k < i ==> paragraphs[k] == Resettled(rd, sections, gone, before[k])
        invariant forall k :: i <= k < |before| ==> paragraphs[k] == before[k]
      {
        var p := paragraphs[i];
        if p.section.Some? && p.section.value in replaced {
          paragraphs := paragraphs[i := p.(section := replaced[p.section.value])];
        }
      }
    }

    method RelistPages(gone: set<int>, goneParagraphs: set<int>)
      modifies this`pages
      ensures RelistedAll(old(pages), gone, goneParagraphs, pages)
    {
      ghost var before := pages;
      for i := 0 to |pages|
        invariant |pages| == |before|
        invariant forall k :: 0 <= k < i ==> pages[k] == Relisted(before[k], gone, goneParagraphs)
        invariant forall k :: i <= k < |before| ==> pages[k] == before[k]
      {
        pages := pages[i := Relisted(pages[i], gone, goneParagraphs)];
      }
    }

    /** The document as it stands while its pages are added. */
    ghost function SoFar(shares: seq<Share>): Whole
      reads this
    {
      Whole(pages, sections, paragraphs, shares)
    }

    /** Page after page. */
    method AddPages(input: seq<ContentPage>) returns (ghost shares: seq<Share>)
      requires Growing() && pages == [] && sections == [] && paragraphs == [] && Readable(input)
      modifies this
      ensures Growing() && ShowsPages(input, SoFar(shares), |input|)
    {
      shares := [];
      for p := 0 to |input|
        invariant Growing() && ShowsPages(input, SoFar(shares), p)
      {
        ghost var share := AddShare(input, p, shares);
        shares := shares + [share];
      }
    }

    method AddShare(input: seq<ContentPage>, p: nat, ghost shares: seq<Share>) returns (ghost share: Share)
      requires p < |input| && Readable(input) && Growing() && ShowsPages(input, SoFar(shares), p)
      modifies this
      ensures Growing() && ShowsPages(input, SoFar(shares + [share]), p + 1)
    {
      ghost var w := SoFar(shares);
      ghost var runs := AddPage(input[p].lines, input[p].height);
      share := Share(|w.sections|, |sections|, |w.paragraphs|, |paragraphs|, runs);
      ghost var more := SoFar(shares + [share]);
      assert sections[..|sections|] == sections && paragraphs[..|paragraphs|] == paragraphs;
      PageAdded(input, p, w, more, share, pages[p]);
    }

    /**
     The whole document: page after page, then the margin pass. `whole` is the
     document between the two; the result is what the pass makes of it.
     */
    method ParsePages(input: seq<ContentPage>, rd: Reading)
      returns (ghost whole: Whole, ghost pass: MarginPass)
      requires Growing() && pages == [] && sections == [] && paragraphs == [] && Readable(input)
      modifies this
      ensures ShowsPages(input, whole, |input|) && Nested(whole.sections)
      ensures MarginsDropped(rd, whole, pass, Contents(pages, sections, paragraphs))
      ensures Consistent(pages, sections, paragraphs)
      ensures |pages| == |input|
      ensures forall p :: 0 <= p < |input| ==> pages[p].number == p + 1 && pages[p].height == input[p].height
    {
      ghost var shares := AddPages(input);
      whole := SoFar(shares);
      PagesAreNumbered(input, whole);
      ghost var repeated, gone, goneParagraphs := DropRepeatedMarginElements(rd);
      pass := MarginPass(repeated, gone, goneParagraphs);
    }

    lemma TopIsLatest()
      requires Stacked() && (forall i :: 0 <= i < |sections| ==> sections[i].id == i + 1)
      ensures (if stack != [] then Some(stack[|stack| - 1].id) else None) == Latest(|sections|)
    {
      assert |Levels(sections)| == |sections|;
      if sections != [] {
        assert Levels(sections) != [];
        ShowsTop(stack, where, Levels(sections), Ids(sections));
      }
    }

    method Nest(line: ContentLine, level: int, number: int) returns (parent: Option<int>)
      requires Stacked() && Nested(sections)
      modifies this
      ensures pages == old(pages) && paragraphs == old(paragraphs)
      ensures Stacked() && Nested(sections)
      ensures sections == old(sections) + [
                Section(|old(sections)| + 1, line.line.text, level, parent, number, line.line.top, line.line.bottom)]
    {
      var id := |sections| + 1;
      ghost var deeper;
      stack, parent, deeper := PushHeading(stack, level, id, where, Levels(sections), Ids(sections));
      var s := Section(id, line.line.text, level, parent, number, line.line.top, line.line.bottom);
      LevelsAndIdsOneMore(sections, s);
      assert |Levels(sections)| == |sections|;
      NestedOneMore(sections, s);
      sections := sections + [s];
      where := deeper;
    }
  }

  lemma PagesAreNumbered(input: seq<ContentPage>, w: Whole)
    requires Readable(input) && ShowsPages(input, w, |input|)
    ensures forall p :: 0 <= p < |input| ==> w.pages[p].number == p + 1 && w.pages[p].height == input[p].height
  {
    forall p | 0 <= p < |input| ensures w.pages[p].number == p + 1 && w.pages[p].height == input[p].height {
      assert ShowsPage(input, w, p);
    }
  }

  /** What the margin pass makes of a whole document. */
  ghost predicate MarginsDropped(rd: Reading, whole: Whole, pass: MarginPass, after: Contents) {
    && (forall key :: key in pass.repeated <==>
          Repeats(rd, whole.pages, Elements(whole.sections, whole.paragraphs), key))
    && Dropped(rd, whole.pages, pass.repeated, whole.sections, pass.gone)
    && pass.goneParagraphs == DroppedParagraphs(rd, whole.pages, pass.repeated, whole.paragraphs)
    && Reparented(Keep(whole.sections, pass.gone), after.sections) && Nested(after.sections)
    && ResettledAll(rd, whole.sections, pass.gone, KeepParagraphs(whole.paragraphs, pass.goneParagraphs),
                    after.paragraphs)
    && RelistedAll(whole.pages, pass.gone, pass.goneParagraphs, after.pages)
  }

  ghost predicate HeadingLevels(lines: seq<ContentLine>) {
    forall i :: 0 <= i < |lines| && lines[i].heading.Some? ==> lines[i].heading.value >= 1
  }

  ghost predicate SectionsNumbered(sections: seq<Section>, count: int) {
    forall i :: 0 <= i < |sections| ==>
      sections[i].id == i + 1 && sections[i].level >= 1 && 1 <= sections[i].page <= count
  }

  lemma NumberedOneMore(sections: seq<Section>, s: Section, count: int)
    requires SectionsNumbered(sections, count)
    requires s.id == |sections| + 1 && s.level >= 1 && 1 <= s.page <= count
    ensures SectionsNumbered(sections + [s], count)
  {
  }

  /** Ids and page numbers count up from one, and paragraphs name sections that exist. */
  ghost predicate Numbered(pages: seq<Page>, sections: seq<Section>, paragraphs: seq<Paragraph>) {
    && SectionsNumbered(sections, |pages|)
    && (forall p :: 0 <= p < |pages| ==> pages[p].number == p + 1)
    && ParagraphsNumbered(paragraphs, |sections|, |pages|)
  }

  ghost predicate ResettledAll(
    rd: Reading, sections: seq<Section>, gone: set<int>, before: seq<Paragraph>, after: seq<Paragraph>)
  {
    |before| == |after| && forall k :: 0 <= k < |before| ==> after[k] == Resettled(rd, sections, gone, before[k])
  }

  ghost predicate RelistedAll(before: seq<Page>, gone: set<int>, goneParagraphs: set<int>, after: seq<Page>) {
    |before| == |after| && forall k :: 0 <= k < |before| ==> after[k] == Relisted(before[k], gone, goneParagraphs)
  }

  function ParagraphIds(paragraphs: seq<Paragraph>): set<int> {
    set p | p in paragraphs :: p.id
  }

  /** The finished document: a proper forest, and nothing names an element that is not there. */
  ghost predicate Consistent(pages: seq<Page>, sections: seq<Section>, paragraphs: seq<Paragraph>) {
    && Nested(sections)
    && (forall p, id :: p in pages && id in p.headings ==> id in SectionIds(sections))
    && (forall p, id :: p in pages && id in p.paragraphs ==> id in ParagraphIds(paragraphs))
    && forall p :: p in paragraphs && p.section.Some? ==> p.section.value in SectionIds(sections)
  }

  lemma SurvivorIsListed(sections: seq<Section>, gone: set<int>, kept: seq<Section>, id: int)
    requires forall i :: 0 <= i < |sections| ==> sections[i].id == i + 1
    requires Reparented(Keep(sections, gone), kept)
    requires 1 <= id <= |sections| && id !in gone
    ensures id in SectionIds(kept)
  {
    Kept(sections, gone, sections[id - 1]);
    ReparentingKeepsIds(Keep(sections, gone), kept);
  }

  lemma {:induction false} HeadingListsNameSurvivors(
    before: seq<Page>, after: seq<Page>, gone: set<int>, goneParagraphs: set<int>,
    sections: seq<Section>, kept: seq<Section>, paragraphs: seq<Paragraph>, p: Page, id: int)
    requires ListsItsOwn(before, sections, paragraphs) && RelistedAll(before, gone, goneParagraphs, after)
    requires forall i :: 0 <= i < |sections| ==> sections[i].id == i + 1
    requires Reparented(Keep(sections, gone), kept)
    requires p in after && id in p.headings
    ensures id in SectionIds(kept)
  {
    var k :| 0 <= k < |after| && after[k] == p;
    LeftWithout(before[k].headings, gone, id);
    SurvivorIsListed(sections, gone, kept, id);
  }

  lemma ResettlingKeepsIds(
    rd: Reading, sections: seq<Section>, gone: set<int>, before: seq<Paragraph>, after: seq<Paragraph>)
    requires ResettledAll(rd, sections, gone, before, after)
    ensures forall p :: p in before ==> p.id in ParagraphIds(after)
  {
  }

  lemma {:induction false} ParagraphListsNameSurvivors(
    rd: Reading, before: seq<Page>, after: seq<Page>, gone: set<int>, goneParagraphs: set<int>,
    sections: seq<Section>, paragraphs: seq<Paragraph>, settled: seq<Paragraph>, p: Page, id: int)
    requires ListsItsOwn(before, sections, paragraphs) && RelistedAll(before, gone, goneParagraphs, after)
    requires forall i :: 0 <= i < |paragraphs| ==> paragraphs[i].id == i + 1
    requires ResettledAll(rd, sections, gone, KeepParagraphs(paragraphs, goneParagraphs), settled)
    requires p in after && id in p.paragraphs
    ensures id in ParagraphIds(settled)
  {
    var k :| 0 <= k < |after| && after[k] == p;
    LeftWithout(before[k].paragraphs, goneParagraphs, id);
    KeptParagraph(paragraphs, goneParagraphs, paragraphs[id - 1]);
    ResettlingKeepsIds(rd, sections, gone, KeepParagraphs(paragraphs, goneParagraphs), settled);
  }

  lemma {:induction false} ParagraphsNameSurvivors(
    rd: Reading, gone: set<int>, goneParagraphs: set<int>, sections: seq<Section>, kept: seq<Section>,
    paragraphs: seq<Paragraph>, settled: seq<Paragraph>, p: Paragraph)
    requires forall i :: 0 <= i < |sections| ==> sections[i].id == i + 1
    requires forall q :: q in paragraphs && q.section.Some? ==> 1 <= q.section.value <= |sections|
    requires Reparented(Keep(sections, gone), kept)
    requires ResettledAll(rd, sections, gone, KeepParagraphs(paragraphs, goneParagraphs), settled)
    requires p in settled && p.section.Some?
    ensures p.section.value in SectionIds(kept)
  {
    var k :| 0 <= k < |settled| && settled[k] == p;
    var was := KeepParagraphs(paragraphs, goneParagraphs)[k];
    KeptParagraph(paragraphs, goneParagraphs, was);
    if was.section.value in gone {
      ReplacementSurvives(rd, sections, gone, was.section.value - 1);
      ReparentingKeepsIds(Keep(sections, gone), kept);
    } else {
      SurvivorIsListed(sections, gone, kept, was.section.value);
    }
  }

  lemma {:induction false} StaysConsistent(
    rd: Reading, gone: set<int>, goneParagraphs: set<int>, before: seq<Page>, after: seq<Page>,
    sections: seq<Section>, kept: seq<Section>, paragraphs: seq<Paragraph>, settled: seq<Paragraph>)
    requires Numbered(before, sections, paragraphs) && ListsItsOwn(before, sections, paragraphs)
    requires Nested(kept) && Reparented(Keep(sections, gone), kept)
    requires ResettledAll(rd, sections, gone, KeepParagraphs(paragraphs, goneParagraphs), settled)
    requires RelistedAll(before, gone, goneParagraphs, after)
    ensures Consistent(after, kept, settled)
  {
    forall p, id | p in after && id in p.headings ensures id in SectionIds(kept) {
      HeadingListsNameSurvivors(before, after, gone, goneParagraphs, sections, kept, paragraphs, p, id);
    }
    forall p, id | p in after && id in p.paragraphs ensures id in ParagraphIds(settled) {
      ParagraphListsNameSurvivors(rd, before, after, gone, goneParagraphs, sections, paragraphs, settled, p, id);
    }
    forall p | p in settled && p.section.Some? ensures p.section.value in SectionIds(kept) {
      ParagraphsNameSurvivors(rd, gone, goneParagraphs, sections, kept, paragraphs, settled, p);
    }
  }
}
