/**
 What the margin pass drops from a document, said of its pages and lines alone: where
 dropped elements lie, and exactly which ones go.
 */
module EdgeText {
  import opened Base
  import opened ParagraphText
  import opened DocumentParts
  import opened RepeatedMargins
  import opened DocumentIr
  import opened WholeDocuments

  /** Within an inch of the top or the bottom of its page. */
  predicate NearEdge(input: seq<ContentPage>, page: int, top: real, bottom: real) {
    1 <= page <= |input| && (top <= 72.0 || bottom >= input[page - 1].height - 72.0)
  }

  /** Text of some but not too much length whose folded form reads `key`. */
  predicate ShortFor(rd: Reading, text: string, key: string) {
    0 < |rd.collapse(text)| <= 160 && rd.normalize(rd.collapse(text)) == key
  }

  /** The page has a section or a paragraph of that text near an edge. */
  predicate EdgeReads(input: seq<ContentPage>, rd: Reading, w: Whole, page: int, key: string) {
    || (exists s :: s in w.sections && s.page == page && NearEdge(input, page, s.top, s.bottom) && ShortFor(rd, s.text, key))
    || (exists p :: p in w.paragraphs && p.page == page && NearEdge(input, page, p.top, p.bottom) && ShortFor(rd, p.text, key))
  }

  /** Two different pages have it near an edge. */
  ghost predicate RunsOverPages(input: seq<ContentPage>, rd: Reading, w: Whole, key: string) {
    key != "" && exists p, q :: p != q && EdgeReads(input, rd, w, p, key) && EdgeReads(input, rd, w, q, key)
  }

  lemma {:induction false} HeightByNumber(pages: seq<Page>, upto: int, p: int)
    requires 0 <= p < upto <= |pages| && forall k :: 0 <= k < |pages| ==> pages[k].number == k + 1
    ensures HeightOf(pages[..upto], p + 1) == pages[p].height
    decreases upto
  {
    assert pages[..upto][..upto - 1] == pages[..upto - 1];
    if p < upto - 1 {
      HeightByNumber(pages, upto - 1, p);
    }
  }

  lemma MarginIsEdge(input: seq<ContentPage>, w: Whole, e: Element)
    requires Readable(input) && ShowsPages(input, w, |input|) && 1 <= e.page <= |input|
    ensures AtMargin(w.pages, e) <==> NearEdge(input, e.page, e.top, e.bottom)
  {
    forall k | 0 <= k < |w.pages| ensures w.pages[k].number == k + 1 {
      assert ShowsPage(input, w, k);
    }
    HeightByNumber(w.pages, |w.pages|, e.page - 1);
    assert w.pages[..|w.pages|] == w.pages;
    assert ShowsPage(input, w, e.page - 1);
  }

  lemma PagesInRange(input: seq<ContentPage>, w: Whole)
    requires Readable(input) && ShowsPages(input, w, |input|)
    ensures forall s :: s in w.sections ==> 1 <= s.page <= |input|
    ensures forall p :: p in w.paragraphs ==> 1 <= p.page <= |input|
  {
    forall s | s in w.sections ensures 1 <= s.page <= |input| {
      var j :| 0 <= j < |w.sections| && w.sections[j] == s;
      var p, k := SectionsAreHeadingLines(input, w, j);
    }
    forall p | p in w.paragraphs ensures 1 <= p.page <= |input| {
      var j :| 0 <= j < |w.paragraphs| && w.paragraphs[j] == p;
      var at := ParagraphHasPage(input, w, |input|, j);
      ParagraphIsARun(input, w, at, j);
    }
  }

  lemma ElementsAreBoth(sections: seq<Section>, paragraphs: seq<Paragraph>, e: Element)
    ensures e in Elements(sections, paragraphs) <==>
              || (exists s :: s in sections && OfSection(s) == e)
              || (exists p :: p in paragraphs && OfParagraph(p) == e)
  {
    var all := Elements(sections, paragraphs);
    if i :| 0 <= i < |sections| && OfSection(sections[i]) == e {
      assert all[i] == e;
    }
    if i :| 0 <= i < |paragraphs| && OfParagraph(paragraphs[i]) == e {
      assert all[|sections| + i] == e;
    }
    if i :| 0 <= i < |all| && all[i] == e {
      if i < |sections| {
        assert OfSection(sections[i]) == e;
      } else {
        assert OfParagraph(paragraphs[i - |sections|]) == e;
      }
    }
  }

  lemma EdgeReadsExactly(input: seq<ContentPage>, rd: Reading, w: Whole, page: int, key: string)
    requires Readable(input) && ShowsPages(input, w, |input|)
    ensures EdgeReads(input, rd, w, page, key) <==>
              exists e :: e in Elements(w.sections, w.paragraphs) && e.page == page && FiledUnder(rd, w.pages, e, key)
  {
    PagesInRange(input, w);
    if EdgeReads(input, rd, w, page, key) {
      if s :| s in w.sections && s.page == page && NearEdge(input, page, s.top, s.bottom) && ShortFor(rd, s.text, key) {
        ElementsAreBoth(w.sections, w.paragraphs, OfSection(s));
        MarginIsEdge(input, w, OfSection(s));
        assert FiledUnder(rd, w.pages, OfSection(s), key);
      } else {
        var p :| p in w.paragraphs && p.page == page && NearEdge(input, page, p.top, p.bottom) && ShortFor(rd, p.text, key);
        ElementsAreBoth(w.sections, w.paragraphs, OfParagraph(p));
        MarginIsEdge(input, w, OfParagraph(p));
        assert FiledUnder(rd, w.pages, OfParagraph(p), key);
      }
    }
    if e :| e in Elements(w.sections, w.paragraphs) && e.page == page && FiledUnder(rd, w.pages, e, key) {
      ElementsAreBoth(w.sections, w.paragraphs, e);
      MarginIsEdge(input, w, e);
    }
  }

  lemma RepeatsExactly(input: seq<ContentPage>, rd: Reading, w: Whole, key: string)
    requires Readable(input) && ShowsPages(input, w, |input|)
    ensures Repeats(rd, w.pages, Elements(w.sections, w.paragraphs), key) <==> RunsOverPages(input, rd, w, key)
  {
    var elements := Elements(w.sections, w.paragraphs);
    if Repeats(rd, w.pages, elements, key) {
      var a, b :| a in elements && b in elements && a.page != b.page
                  && FiledUnder(rd, w.pages, a, key) && FiledUnder(rd, w.pages, b, key);
      EdgeReadsExactly(input, rd, w, a.page, key);
      EdgeReadsExactly(input, rd, w, b.page, key);
    }
    if RunsOverPages(input, rd, w, key) {
      var p, q :| p != q && EdgeReads(input, rd, w, p, key) && EdgeReads(input, rd, w, q, key);
      EdgeReadsExactly(input, rd, w, p, key);
      EdgeReadsExactly(input, rd, w, q, key);
    }
  }

  /** Near an edge, with a text that two pages have near an edge. */
  ghost predicate Runs(input: seq<ContentPage>, rd: Reading, w: Whole, text: string, page: int, top: real, bottom: real) {
    NearEdge(input, page, top, bottom) && RunsOverPages(input, rd, w, rd.normalize(text))
  }

  lemma HitExactly(input: seq<ContentPage>, rd: Reading, w: Whole, pass: MarginPass, after: Contents, e: Element)
    requires Readable(input) && ShowsPages(input, w, |input|) && MarginsDropped(rd, w, pass, after)
    requires 1 <= e.page <= |input|
    ensures Hit(rd, w.pages, pass.repeated, e) <==> Runs(input, rd, w, e.text, e.page, e.top, e.bottom)
  {
    MarginIsEdge(input, w, e);
    RepeatsExactly(input, rd, w, rd.normalize(e.text));
  }

  // ------------------------------------------------------------ exactly what goes

  /** A paragraph is gone from the parsed document exactly when it is such running text. */
  lemma ParagraphGoesExactly(
    input: seq<ContentPage>, rd: Reading, w: Whole, pass: MarginPass, after: Contents, p: Paragraph)
    requires Readable(input) && ShowsPages(input, w, |input|) && MarginsDropped(rd, w, pass, after)
    requires p in w.paragraphs
    ensures p.id !in ParagraphIds(after.paragraphs) <==> Runs(input, rd, w, p.text, p.page, p.top, p.bottom)
  {
    PagesInRange(input, w);
    HitExactly(input, rd, w, pass, after, OfParagraph(p));
    ParagraphGoneExactly(input, rd, w, pass, after, p);
  }

  lemma ParagraphIdsTell(input: seq<ContentPage>, w: Whole, p: Paragraph, q: Paragraph)
    requires Readable(input) && ShowsPages(input, w, |input|) && p in w.paragraphs && q in w.paragraphs && p.id == q.id
    ensures p == q
  {
    var i :| 0 <= i < |w.paragraphs| && w.paragraphs[i] == p;
    var j :| 0 <= j < |w.paragraphs| && w.paragraphs[j] == q;
    var at := ParagraphHasPage(input, w, |input|, i);
    ParagraphIsARun(input, w, at, i);
    at := ParagraphHasPage(input, w, |input|, j);
    ParagraphIsARun(input, w, at, j);
  }

  lemma ParagraphGoneExactly(
    input: seq<ContentPage>, rd: Reading, w: Whole, pass: MarginPass, after: Contents, p: Paragraph)
    requires Readable(input) && ShowsPages(input, w, |input|) && MarginsDropped(rd, w, pass, after)
    requires p in w.paragraphs
    ensures p.id !in ParagraphIds(after.paragraphs) <==> Hit(rd, w.pages, pass.repeated, OfParagraph(p))
  {
    var kept := KeepParagraphs(w.paragraphs, pass.goneParagraphs);
    ResettlingKeepsIds(rd, w.sections, pass.gone, kept, after.paragraphs);
    KeptParagraph(w.paragraphs, pass.goneParagraphs, p);
    if p.id in ParagraphIds(after.paragraphs) {
      var k :| 0 <= k < |after.paragraphs| && after.paragraphs[k].id == p.id;
      KeptParagraph(w.paragraphs, pass.goneParagraphs, kept[k]);
    }
    if p.id in pass.goneParagraphs {
      var q :| q in w.paragraphs && Hit(rd, w.pages, pass.repeated, OfParagraph(q)) && q.id == p.id;
      ParagraphIdsTell(input, w, p, q);
    }
  }

  /**
   A section is gone exactly when it is such running text and, if its text heads a
   bibliography, not the first section of that text to be so.
   */
  lemma SectionGoesExactly(
    input: seq<ContentPage>, rd: Reading, w: Whole, pass: MarginPass, after: Contents, i: nat)
    requires Readable(input) && ShowsPages(input, w, |input|) && MarginsDropped(rd, w, pass, after)
    requires i < |w.sections|
    ensures var s := w.sections[i];
            s.id !in SectionIds(after.sections) <==>
              && Runs(input, rd, w, s.text, s.page, s.top, s.bottom)
              && (rd.bibliography(rd.normalize(s.text)) ==>
                    exists j :: 0 <= j < i && EarlierNamesake(input, rd, w, j, i))
  {
    PagesInRange(input, w);
    HitExactly(input, rd, w, pass, after, OfSection(w.sections[i]));
    forall j | 0 <= j < i
      ensures EarlierNamesake(input, rd, w, j, i) <==>
                Hit(rd, w.pages, pass.repeated, OfSection(w.sections[j]))
                && rd.normalize(w.sections[j].text) == rd.normalize(w.sections[i].text)
    {
      HitExactly(input, rd, w, pass, after, OfSection(w.sections[j]));
    }
    SectionGoneExactly(rd, w, pass, after, i);
  }

  /** An earlier section with the same folded text that is running text too. */
  ghost predicate EarlierNamesake(input: seq<ContentPage>, rd: Reading, w: Whole, j: int, i: int)
    requires 0 <= j < i < |w.sections|
  {
    var s, t := w.sections[j], w.sections[i];
    rd.normalize(s.text) == rd.normalize(t.text) && Runs(input, rd, w, s.text, s.page, s.top, s.bottom)
  }

  lemma SectionGoneExactly(rd: Reading, w: Whole, pass: MarginPass, after: Contents, i: nat)
    requires MarginsDropped(rd, w, pass, after) && i < |w.sections|
    ensures w.sections[i].id !in SectionIds(after.sections) <==> DropsSection(rd, w.pages, pass.repeated, w.sections, i)
  {
    var kept := Keep(w.sections, pass.gone);
    ReparentingKeepsIds(kept, after.sections);
    Kept(w.sections, pass.gone, w.sections[i]);
    assert i + 1 in pass.gone <==> DropsSection(rd, w.pages, pass.repeated, w.sections, (i + 1) - 1);
    if w.sections[i].id in SectionIds(kept) {
      var s :| s in kept && s.id == w.sections[i].id;
      Kept(w.sections, pass.gone, s);
    }
  }

  /** Whatever is clear of both edges of its page is still there, whatever it says. */
  lemma ClearOfEdgesStays(
    input: seq<ContentPage>, rd: Reading, w: Whole, pass: MarginPass, after: Contents)
    requires Readable(input) && ShowsPages(input, w, |input|) && MarginsDropped(rd, w, pass, after)
    ensures forall s :: s in w.sections ==>
              && 1 <= s.page <= |input|
              && (72.0 < s.top && s.bottom < input[s.page - 1].height - 72.0 ==> s.id in SectionIds(after.sections))
    ensures forall p :: p in w.paragraphs ==>
              && 1 <= p.page <= |input|
              && (72.0 < p.top && p.bottom < input[p.page - 1].height - 72.0 ==> p.id in ParagraphIds(after.paragraphs))
  {
    PagesInRange(input, w);
    forall s | s in w.sections
      ensures 72.0 < s.top && s.bottom < input[s.page - 1].height - 72.0 ==> s.id in SectionIds(after.sections)
    {
      var i :| 0 <= i < |w.sections| && w.sections[i] == s;
      SectionGoesExactly(input, rd, w, pass, after, i);
    }
    forall p | p in w.paragraphs
      ensures 72.0 < p.top && p.bottom < input[p.page - 1].height - 72.0 ==> p.id in ParagraphIds(after.paragraphs)
    {
      ParagraphGoesExactly(input, rd, w, pass, after, p);
    }
  }

  // ------------------------------------------------------------ what stays, and how

  /** Ids run up. */
  ghost predicate RunUp(ids: seq<int>) {
    forall i, j :: 0 <= i < j < |ids| ==> ids[i] < ids[j]
  }

  function IdsOf(paragraphs: seq<Paragraph>): seq<int> {
    seq(|paragraphs|, i requires 0 <= i < |paragraphs| => paragraphs[i].id)
  }

  lemma {:induction false} KeptSectionsRunUp(sections: seq<Section>, gone: set<int>)
    requires forall i :: 0 <= i < |sections| ==> sections[i].id == i + 1
    ensures RunUp(Ids(Keep(sections, gone)))
    ensures forall i :: 0 <= i < |Keep(sections, gone)| ==> Keep(sections, gone)[i].id <= |sections|
  {
    if sections != [] {
      var last := sections[|sections| - 1];
      KeptSectionsRunUp(sections[..|sections| - 1], gone);
      LevelsAndIdsOneMore(Keep(sections[..|sections| - 1], gone), last);
      var front := Keep(sections[..|sections| - 1], gone);
      assert forall i :: 0 <= i < |front| ==> Ids(front)[i] == front[i].id;
      assert Keep(sections, gone) == if last.id in gone then front else front + [last];
    }
  }

  lemma {:induction false} KeptParagraphsRunUp(paragraphs: seq<Paragraph>, gone: set<int>)
    requires forall i :: 0 <= i < |paragraphs| ==> paragraphs[i].id == i + 1
    ensures RunUp(IdsOf(KeepParagraphs(paragraphs, gone)))
    ensures forall i :: 0 <= i < |KeepParagraphs(paragraphs, gone)| ==>
              KeepParagraphs(paragraphs, gone)[i].id <= |paragraphs|
  {
    if paragraphs != [] {
      var last := paragraphs[|paragraphs| - 1];
      KeptParagraphsRunUp(paragraphs[..|paragraphs| - 1], gone);
      var front := KeepParagraphs(paragraphs[..|paragraphs| - 1], gone);
      assert forall i :: 0 <= i < |front| ==> IdsOf(front)[i] == front[i].id;
      assert IdsOf(front + [last]) == IdsOf(front) + [last.id];
      assert KeepParagraphs(paragraphs, gone) == if last.id in gone then front else front + [last];
    }
  }

  lemma ParagraphsCountUp(input: seq<ContentPage>, w: Whole)
    requires Readable(input) && ShowsPages(input, w, |input|)
    ensures forall i :: 0 <= i < |w.paragraphs| ==> w.paragraphs[i].id == i + 1
  {
    forall i | 0 <= i < |w.paragraphs| ensures w.paragraphs[i].id == i + 1 {
      var p := ParagraphHasPage(input, w, |input|, i);
      ParagraphIsARun(input, w, p, i);
    }
  }

  /** Sections and paragraphs that stay keep their order. */
  lemma SurvivorsInOrder(input: seq<ContentPage>, rd: Reading, w: Whole, pass: MarginPass, after: Contents)
    requires Readable(input) && ShowsPages(input, w, |input|) && MarginsDropped(rd, w, pass, after)
    ensures RunUp(Ids(after.sections)) && RunUp(IdsOf(after.paragraphs))
  {
    KeptSectionsRunUp(w.sections, pass.gone);
    assert Ids(after.sections) == Ids(Keep(w.sections, pass.gone));
    ParagraphsCountUp(input, w);
    KeptParagraphsRunUp(w.paragraphs, pass.goneParagraphs);
    assert IdsOf(after.paragraphs) == IdsOf(KeepParagraphs(w.paragraphs, pass.goneParagraphs));
  }

  /** A section that stays keeps all but its parent, and a paragraph all but its section, that too if the section stays. */
  lemma SurvivorsKeepTheirFields(
    input: seq<ContentPage>, rd: Reading, w: Whole, pass: MarginPass, after: Contents, i: nat)
    requires Readable(input) && ShowsPages(input, w, |input|) && MarginsDropped(rd, w, pass, after)
    ensures i < |after.sections| ==>
              var s := after.sections[i];
              exists t :: t in w.sections && s == t.(parent := s.parent)
    ensures i < |after.paragraphs| ==>
              var q := after.paragraphs[i];
              exists p :: p in w.paragraphs && q == p.(section := q.section)
                          && (p.section.None? || p.section.value in SectionIds(after.sections) ==> q.section == p.section)
  {
    if i < |after.sections| {
      Kept(w.sections, pass.gone, Keep(w.sections, pass.gone)[i]);
    }
    if i < |after.paragraphs| {
      var p := KeepParagraphs(w.paragraphs, pass.goneParagraphs)[i];
      KeptParagraph(w.paragraphs, pass.goneParagraphs, p);
      if p.section.Some? && p.section.value in SectionIds(after.sections) {
        ReparentingKeepsIds(Keep(w.sections, pass.gone), after.sections);
        var s :| s in Keep(w.sections, pass.gone) && s.id == p.section.value;
        Kept(w.sections, pass.gone, s);
      }
    }
  }

  /** A page lists just those of its sections and paragraphs that stay. */
  lemma PageListsWhatStays(
    input: seq<ContentPage>, rd: Reading, w: Whole, pass: MarginPass, after: Contents, p: nat, id: int)
    requires Readable(input) && ShowsPages(input, w, |input|) && MarginsDropped(rd, w, pass, after) && p < |input|
    ensures p < |after.pages| && p < |w.pages|
    ensures id in after.pages[p].headings <==> id in w.pages[p].headings && id in SectionIds(after.sections)
    ensures id in after.pages[p].paragraphs <==> id in w.pages[p].paragraphs && id in ParagraphIds(after.paragraphs)
  {
    assert ShowsPage(input, w, p);
    var share := w.shares[p];
    LeftWithout(w.pages[p].headings, pass.gone, id);
    LeftWithout(w.pages[p].paragraphs, pass.goneParagraphs, id);
    if id in w.pages[p].headings {
      var k :| 0 <= k < |w.pages[p].headings| && w.pages[p].headings[k] == id;
      SectionStaysExactly(w.sections, pass.gone, after.sections, id);
    }
    if id in w.pages[p].paragraphs {
      var k :| 0 <= k < |w.pages[p].paragraphs| && w.pages[p].paragraphs[k] == id;
      ParagraphsCountUp(input, w);
      ParagraphStaysExactly(rd, w.sections, pass.gone, w.paragraphs, pass.goneParagraphs, after.paragraphs, id);
    }
  }

  lemma {:induction false} SectionStaysExactly(sections: seq<Section>, gone: set<int>, kept: seq<Section>, id: int)
    requires Reparented(Keep(sections, gone), kept) && 1 <= id <= |sections| && sections[id - 1].id == id
    ensures id in SectionIds(kept) <==> id !in gone
  {
    ReparentingKeepsIds(Keep(sections, gone), kept);
    Kept(sections, gone, sections[id - 1]);
    if id in SectionIds(Keep(sections, gone)) {
      var s :| s in Keep(sections, gone) && s.id == id;
      Kept(sections, gone, s);
    }
  }

  lemma {:induction false} ParagraphStaysExactly(
    rd: Reading, sections: seq<Section>, gone: set<int>, paragraphs: seq<Paragraph>, goneParagraphs: set<int>,
    settled: seq<Paragraph>, id: int)
    requires ResettledAll(rd, sections, gone, KeepParagraphs(paragraphs, goneParagraphs), settled)
    requires 1 <= id <= |paragraphs| && paragraphs[id - 1].id == id
    ensures id in ParagraphIds(settled) <==> id !in goneParagraphs
  {
    var kept := KeepParagraphs(paragraphs, goneParagraphs);
    KeptParagraph(paragraphs, goneParagraphs, paragraphs[id - 1]);
    ResettlingKeepsIds(rd, sections, gone, kept, settled);
    if id in ParagraphIds(settled) {
      var k :| 0 <= k < |settled| && settled[k].id == id;
      KeptParagraph(paragraphs, goneParagraphs, kept[k]);
    }
  }
}
