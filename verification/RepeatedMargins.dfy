/**
 Running heads and feet: what counts as repeated margin text, which elements go, and
 where the paragraphs under a dropped heading move.
 */
module RepeatedMargins {
  import opened Base
  import opened SectionNesting
  import opened DocumentParts

  /** Whitespace folding, heading normalisation and the bibliography pattern are not modelled further. */
  datatype Reading = Reading(
    collapse: string -> string, normalize: string -> string, bibliography: string -> bool)

  datatype Element = Element(text: string, page: int, top: real, bottom: real)

  function OfSection(s: Section): Element {
    Element(s.text, s.page, s.top, s.bottom)
  }

  function OfParagraph(p: Paragraph): Element {
    Element(p.text, p.page, p.top, p.bottom)
  }

  function Elements(sections: seq<Section>, paragraphs: seq<Paragraph>): seq<Element> {
    seq(|sections|, i requires 0 <= i < |sections| => OfSection(sections[i]))
    + seq(|paragraphs|, i requires 0 <= i < |paragraphs| => OfParagraph(paragraphs[i]))
  }

  /** An unknown page counts as US Letter. */
  function HeightOf(pages: seq<Page>, number: int): real {
    if pages == [] then 792.0
    else
      var last := pages[|pages| - 1];
      if last.number == number then last.height else HeightOf(pages[..|pages| - 1], number)
  }

  predicate AtMargin(pages: seq<Page>, e: Element) {
    e.top <= 72.0 || e.bottom >= HeightOf(pages, e.page) - 72.0
  }

  // ------------------------------------------------------------ repeated text

  /** `e` is one of the short margin texts filed under `key`. */
  predicate FiledUnder(rd: Reading, pages: seq<Page>, e: Element, key: string) {
    var text := rd.collapse(e.text);
    text != "" && |text| <= 160 && AtMargin(pages, e) && rd.normalize(text) == key
  }

  /** Margin text seen on two different pages. */
  ghost predicate Repeats(rd: Reading, pages: seq<Page>, elements: seq<Element>, key: string) {
    && key != ""
    && exists a, b :: a in elements && b in elements && a.page != b.page
                      && FiledUnder(rd, pages, a, key) && FiledUnder(rd, pages, b, key)
  }

  function PagesOf(elements: seq<Element>): set<int> {
    set e | e in elements :: e.page
  }

  lemma TwoPages(elements: seq<Element>)
    ensures |PagesOf(elements)| >= 2
       <==> exists a, b :: a in elements && b in elements && a.page != b.page
  {
    var pages := PagesOf(elements);
    if |pages| >= 2 {
      var p :| p in pages;
      assert pages - {p} != {} by {
        assert |pages - {p}| == |pages| - 1;
      }
      var q :| q in pages - {p};
      var a :| a in elements && a.page == p;
      var b :| b in elements && b.page == q;
      assert a.page != b.page;
    }
    if a, b :| a in elements && b in elements && a.page != b.page {
      assert {a.page, b.page} <= pages;
      assert |pages - {a.page, b.page}| == |pages| - |{a.page, b.page}|;
    }
  }

  /** The files hold exactly the margin texts among `elements`. */
  ghost predicate Files(rd: Reading, pages: seq<Page>, elements: seq<Element>, files: map<string, seq<Element>>) {
    && (forall key, e :: key in files && e in files[key] ==> e in elements && FiledUnder(rd, pages, e, key))
    && (forall key, e :: e in elements && FiledUnder(rd, pages, e, key) ==> key in files && e in files[key])
  }

  method FindRepeated(rd: Reading, pages: seq<Page>, elements: seq<Element>) returns (repeated: set<string>)
    ensures forall key :: key in repeated <==> Repeats(rd, pages, elements, key)
  {
    var files: map<string, seq<Element>> := map[];
    for i := 0 to |elements|
      invariant Files(rd, pages, elements[..i], files)
    {
      var e := elements[i];
      var text := rd.collapse(e.text);
      assert elements[..i + 1] == elements[..i] + [e];
      if text != "" && |text| <= 160 && AtMargin(pages, e) {
        var key := rd.normalize(text);
        files := files[key := (if key in files then files[key] else []) + [e]];
      }
    }
    assert elements[..|elements|] == elements;
    repeated := set key | key in files && key != "" && |PagesOf(files[key])| >= 2;
    forall key ensures key in repeated <==> Repeats(rd, pages, elements, key) {
      if key in files {
        TwoPages(files[key]);
      }
    }
  }

  /** At the margin, under a repeated text. */
  predicate Hit(rd: Reading, pages: seq<Page>, repeated: set<string>, e: Element) {
    rd.normalize(e.text) in repeated && AtMargin(pages, e)
  }

  // ------------------------------------------------------------ what is dropped

  /** A repeated heading goes, except that the first hit of each bibliography text stays. */
  ghost predicate DropsSection(
    rd: Reading, pages: seq<Page>, repeated: set<string>, sections: seq<Section>, i: nat)
    requires i < |sections|
  {
    var key := rd.normalize(sections[i].text);
    && Hit(rd, pages, repeated, OfSection(sections[i]))
    && (rd.bibliography(key) ==> HitBefore(rd, pages, repeated, sections, i, key))
  }

  ghost predicate HitBefore(
    rd: Reading, pages: seq<Page>, repeated: set<string>, sections: seq<Section>, i: nat, key: string)
    requires i <= |sections|
  {
    exists j :: 0 <= j < i && Hit(rd, pages, repeated, OfSection(sections[j]))
                && rd.normalize(sections[j].text) == key
  }

  method DroppedSections(rd: Reading, pages: seq<Page>, repeated: set<string>, sections: seq<Section>)
    returns (dropped: set<int>)
    requires forall i :: 0 <= i < |sections| ==> sections[i].id == i + 1
    ensures forall id :: id in dropped <==>
              1 <= id <= |sections| && DropsSection(rd, pages, repeated, sections, id - 1)
  {
    dropped := {};
    var keptBibliography: set<string> := {};
    for i := 0 to |sections|
      invariant forall key :: key in keptBibliography <==>
                  rd.bibliography(key) && HitBefore(rd, pages, repeated, sections, i, key)
      invariant forall id :: id in dropped <==>
                  1 <= id <= i && DropsSection(rd, pages, repeated, sections, id - 1)
    {
      var key := rd.normalize(sections[i].text);
      if Hit(rd, pages, repeated, OfSection(sections[i])) {
        if rd.bibliography(key) {
          if key in keptBibliography {
            dropped := dropped + {sections[i].id};
          } else {
            keptBibliography := keptBibliography + {key};
          }
        } else {
          dropped := dropped + {sections[i].id};
        }
      }
    }
  }

  function DroppedParagraphs(rd: Reading, pages: seq<Page>, repeated: set<string>, paragraphs: seq<Paragraph>): set<int> {
    set p | p in paragraphs && Hit(rd, pages, repeated, OfParagraph(p)) :: p.id
  }

  // ------------------------------------------------------------ the rebuilt forest

  function Keep(sections: seq<Section>, dropped: set<int>): seq<Section> {
    if sections == [] then []
    else
      var last := sections[|sections| - 1];
      Keep(sections[..|sections| - 1], dropped) + if last.id in dropped then [] else [last]
  }

  /** `new` is `old` with parents of its own. */
  ghost predicate Reparented(before: seq<Section>, after: seq<Section>) {
    && |before| == |after|
    && forall i :: 0 <= i < |before| ==> after[i] == before[i].(parent := after[i].parent)
  }

  /** The last surviving bibliography heading with this text. */
  function LastRetained(rd: Reading, sections: seq<Section>, dropped: set<int>, key: string): Option<int> {
    if sections == [] then None
    else
      var last := sections[|sections| - 1];
      if last.id !in dropped && rd.normalize(last.text) == key && rd.bibliography(key) then Some(last.id)
      else LastRetained(rd, sections[..|sections| - 1], dropped, key)
  }

  function LastId(sections: seq<Section>): Option<int> {
    if sections == [] then None else Some(sections[|sections| - 1].id)
  }

  /** The heading that takes over the paragraphs of dropped section `i`. */
  function Replacement(rd: Reading, sections: seq<Section>, dropped: set<int>, i: nat): Option<int>
    requires i < |sections|
  {
    var namesake := LastRetained(rd, sections, dropped, rd.normalize(sections[i].text));
    if namesake.Some? then namesake else LastId(Keep(sections[..i], dropped))
  }

  lemma KeepOneMore(sections: seq<Section>, dropped: set<int>, i: nat)
    requires i < |sections|
    ensures Keep(sections[..i + 1], dropped)
         == Keep(sections[..i], dropped) + if sections[i].id in dropped then [] else [sections[i]]
  {
    assert sections[..i + 1][..i] == sections[..i];
  }

  lemma {:induction false} KeepAll(sections: seq<Section>)
    ensures Keep(sections, {}) == sections
  {
    if sections != [] {
      KeepAll(sections[..|sections| - 1]);
    }
  }

  lemma {:induction false} Kept(sections: seq<Section>, dropped: set<int>, s: Section)
    ensures s in Keep(sections, dropped) <==> s in sections && s.id !in dropped
  {
    if sections != [] {
      var front, last := sections[..|sections| - 1], sections[|sections| - 1];
      Kept(front, dropped, s);
      assert sections == front + [last];
    }
  }

  lemma ReparentedOneMore(before: seq<Section>, after: seq<Section>, s: Section, parent: Option<int>)
    requires Reparented(before, after)
    ensures Reparented(before + [s], after + [s.(parent := parent)])
  {
  }

  /** What the rebuilding loop has after `i` sections. */
  ghost predicate Rebuilt(
    rd: Reading, sections: seq<Section>, dropped: set<int>, i: nat,
    kept: seq<Section>, replaced: map<int, Option<int>>)
    requires i <= |sections|
  {
    && Reparented(Keep(sections[..i], dropped), kept) && Nested(kept)
    && (forall id :: id in replaced <==> 1 <= id <= i && id in dropped)
    && forall id :: id in replaced ==> replaced[id] == Replacement(rd, sections, dropped, id - 1)
  }

  method RetainedBibliography(rd: Reading, sections: seq<Section>, dropped: set<int>)
    returns (retained: map<string, int>)
    ensures forall key :: LastRetained(rd, sections, dropped, key)
                       == if key in retained then Some(retained[key]) else None
  {
    retained := map[];
    for i := 0 to |sections|
      invariant forall key :: LastRetained(rd, sections[..i], dropped, key)
                           == if key in retained then Some(retained[key]) else None
    {
      var s := sections[i];
      var key := rd.normalize(s.text);
      assert sections[..i + 1][..i] == sections[..i];
      if s.id !in dropped && rd.bibliography(key) {
        retained := retained[key := s.id];
      }
    }
    assert sections[..|sections|] == sections;
  }

  /** Walk the old sections, nesting the survivors afresh and sending each dropped one to its replacement. */
  method Renest(rd: Reading, sections: seq<Section>, dropped: set<int>)
    returns (kept: seq<Section>, replaced: map<int, Option<int>>)
    requires forall i :: 0 <= i < |sections| ==> sections[i].id == i + 1
    ensures Rebuilt(rd, sections, dropped, |sections|, kept, replaced)
  {
    var retained := RetainedBibliography(rd, sections, dropped);
    kept, replaced := [], map[];
    var stack: seq<Entry> := [];
    ghost var where: seq<int> := [];
    for i := 0 to |sections|
      invariant Rebuilt(rd, sections, dropped, i, kept, replaced)
      invariant Chain(where, Levels(kept)) && Shows(stack, where, Levels(kept), Ids(kept))
    {
      var s := sections[i];
      if s.id in dropped {
        var key := rd.normalize(s.text);
        var top := if stack != [] then Some(stack[|stack| - 1].id) else None;
        TopIsLastKept(stack, where, kept, Keep(sections[..i], dropped));
        DropOne(rd, sections, dropped, i, kept, replaced);
        replaced := replaced[s.id := if key in retained then Some(retained[key]) else top];
      } else {
        var parent;
        stack, parent, where := PushHeading(stack, s.level, s.id, where, Levels(kept), Ids(kept));
        LevelsAndIdsOneMore(kept, s.(parent := parent));
        KeepOne(rd, sections, dropped, i, kept, replaced, parent);
        kept := kept + [s.(parent := parent)];
      }
    }
    assert sections[..|sections|] == sections;
  }

  lemma DropOne(
    rd: Reading, sections: seq<Section>, dropped: set<int>, i: nat,
    kept: seq<Section>, replaced: map<int, Option<int>>)
    requires i < |sections| && sections[i].id == i + 1 && i + 1 in dropped
    requires Rebuilt(rd, sections, dropped, i, kept, replaced)
    ensures Rebuilt(rd, sections, dropped, i + 1, kept, replaced[i + 1 := Replacement(rd, sections, dropped, i)])
  {
    KeepOneMore(sections, dropped, i);
  }

  lemma KeepOne(
    rd: Reading, sections: seq<Section>, dropped: set<int>, i: nat,
    kept: seq<Section>, replaced: map<int, Option<int>>, parent: Option<int>)
    requires i < |sections| && sections[i].id == i + 1 && i + 1 !in dropped
    requires Rebuilt(rd, sections, dropped, i, kept, replaced)
    requires parent == IdAt(Ids(kept), NearestSmaller(Levels(kept), |kept|, sections[i].level))
    ensures Rebuilt(rd, sections, dropped, i + 1, kept + [sections[i].(parent := parent)], replaced)
  {
    KeepOneMore(sections, dropped, i);
    ReparentedOneMore(Keep(sections[..i], dropped), kept, sections[i], parent);
    NestedOneMore(kept, sections[i].(parent := parent));
  }

  lemma TopIsLastKept(stack: seq<Entry>, where: seq<int>, kept: seq<Section>, survivors: seq<Section>)
    requires Chain(where, Levels(kept)) && Shows(stack, where, Levels(kept), Ids(kept))
    requires Reparented(survivors, kept)
    ensures (if stack != [] then Some(stack[|stack| - 1].id) else None) == LastId(survivors)
  {
    if kept != [] {
      assert Levels(kept) != [];
      ShowsTop(stack, where, Levels(kept), Ids(kept));
    }
  }

  // ------------------------------------------------------------ where paragraphs go

  lemma {:induction false} LastRetainedIsNamesake(rd: Reading, sections: seq<Section>, dropped: set<int>, key: string)
    ensures var last := LastRetained(rd, sections, dropped, key);
            && (last.Some? ==> exists s :: s in Keep(sections, dropped) && s.id == last.value
                                           && rd.normalize(s.text) == key)
            && (last.None? && rd.bibliography(key) ==>
                  forall s :: s in Keep(sections, dropped) ==> rd.normalize(s.text) != key)
  {
    if sections != [] {
      LastRetainedIsNamesake(rd, sections[..|sections| - 1], dropped, key);
    }
  }

  /** Sections are numbered and `dropped` is what the margin pass drops. */
  ghost predicate Dropped(rd: Reading, pages: seq<Page>, repeated: set<string>, sections: seq<Section>, dropped: set<int>) {
    && (forall i :: 0 <= i < |sections| ==> sections[i].id == i + 1)
    && forall id :: id in dropped <==>
         1 <= id <= |sections| && DropsSection(rd, pages, repeated, sections, id - 1)
  }

  /** Dropping a repeated bibliography heading leaves another with the same text. */
  lemma {:induction false} SomeNamesakeStays(
    rd: Reading, pages: seq<Page>, repeated: set<string>, sections: seq<Section>, dropped: set<int>, i: nat)
    requires Dropped(rd, pages, repeated, sections, dropped) && i < |sections|
    requires rd.bibliography(rd.normalize(sections[i].text))
    ensures exists s :: s in Keep(sections, dropped) && rd.normalize(s.text) == rd.normalize(sections[i].text)
    decreases i
  {
    var key := rd.normalize(sections[i].text);
    if i + 1 in dropped {
      assert DropsSection(rd, pages, repeated, sections, (i + 1) - 1);
      var j :| 0 <= j < i && Hit(rd, pages, repeated, OfSection(sections[j]))
               && rd.normalize(sections[j].text) == key;
      SomeNamesakeStays(rd, pages, repeated, sections, dropped, j);
    } else {
      Kept(sections, dropped, sections[i]);
    }
  }

  /** Paragraphs under a dropped bibliography heading move to a surviving one with the same text. */
  lemma BibliographyMovesToNamesake(
    rd: Reading, pages: seq<Page>, repeated: set<string>, sections: seq<Section>, dropped: set<int>, i: nat)
    requires Dropped(rd, pages, repeated, sections, dropped) && i < |sections|
    requires rd.bibliography(rd.normalize(sections[i].text))
    ensures var r := Replacement(rd, sections, dropped, i);
            r.Some? && exists s :: s in Keep(sections, dropped) && s.id == r.value
                                   && rd.normalize(s.text) == rd.normalize(sections[i].text)
  {
    SomeNamesakeStays(rd, pages, repeated, sections, dropped, i);
    LastRetainedIsNamesake(rd, sections, dropped, rd.normalize(sections[i].text));
  }

  /** Of several surviving ones it is the last. */
  lemma {:induction false} NamesakeIsLast(rd: Reading, sections: seq<Section>, dropped: set<int>, key: string) returns (k: nat)
    requires LastRetained(rd, sections, dropped, key).Some?
    ensures k < |sections| && LastRetained(rd, sections, dropped, key) == Some(sections[k].id)
    ensures sections[k].id !in dropped && rd.normalize(sections[k].text) == key
    ensures forall m :: k < m < |sections| && rd.normalize(sections[m].text) == key ==> sections[m].id in dropped
  {
    var last := |sections| - 1;
    if sections[last].id !in dropped && rd.normalize(sections[last].text) == key && rd.bibliography(key) {
      k := last;
    } else {
      RetainedHeadsBibliography(rd, sections, dropped, key);
      k := NamesakeIsLast(rd, sections[..last], dropped, key);
    }
  }

  lemma {:induction false} RetainedHeadsBibliography(rd: Reading, sections: seq<Section>, dropped: set<int>, key: string)
    requires LastRetained(rd, sections, dropped, key).Some?
    ensures rd.bibliography(key)
  {
    if !rd.bibliography(key) {
      NoNamesake(rd, sections, dropped, key);
    }
  }

  /** Paragraphs under any other dropped heading move to the nearest surviving heading before it. */
  lemma OthersMoveToNearestBefore(
    rd: Reading, pages: seq<Page>, repeated: set<string>, sections: seq<Section>, dropped: set<int>, i: nat)
    requires Dropped(rd, pages, repeated, sections, dropped) && i < |sections|
    requires !rd.bibliography(rd.normalize(sections[i].text))
    ensures var r := Replacement(rd, sections, dropped, i);
            var nearest := if r.Some? then r.value else 0;
            && 0 <= nearest <= i
            && (r.Some? ==> 1 <= nearest && nearest !in dropped)
            && forall id :: nearest < id <= i ==> id in dropped
  {
    NoNamesake(rd, sections, dropped, rd.normalize(sections[i].text));
    LastKeptIsNearest(sections, dropped, i);
  }

  lemma {:induction false} NoNamesake(rd: Reading, sections: seq<Section>, dropped: set<int>, key: string)
    requires !rd.bibliography(key)
    ensures LastRetained(rd, sections, dropped, key).None?
  {
    if sections != [] {
      NoNamesake(rd, sections[..|sections| - 1], dropped, key);
    }
  }

  lemma {:induction false} LastKeptIsNearest(sections: seq<Section>, dropped: set<int>, i: nat)
    requires i <= |sections| && forall k :: 0 <= k < |sections| ==> sections[k].id == k + 1
    ensures var last := LastId(Keep(sections[..i], dropped));
            var nearest := if last.Some? then last.value else 0;
            && 0 <= nearest <= i
            && (last.Some? ==> 1 <= nearest && nearest !in dropped)
            && forall id :: nearest < id <= i ==> id in dropped
  {
    if i > 0 {
      LastKeptIsNearest(sections, dropped, i - 1);
      KeepOneMore(sections, dropped, i - 1);
    }
  }

  function SectionIds(sections: seq<Section>): set<int> {
    set s | s in sections :: s.id
  }

  lemma ReplacementSurvives(rd: Reading, sections: seq<Section>, dropped: set<int>, i: nat)
    requires i < |sections|
    ensures var r := Replacement(rd, sections, dropped, i);
            r.Some? ==> r.value in SectionIds(Keep(sections, dropped))
  {
    LastRetainedIsNamesake(rd, sections, dropped, rd.normalize(sections[i].text));
    var early := Keep(sections[..i], dropped);
    if early != [] {
      var last := early[|early| - 1];
      Kept(sections[..i], dropped, last);
      Kept(sections, dropped, last);
    }
  }

  lemma ReparentingKeepsIds(before: seq<Section>, after: seq<Section>)
    requires Reparented(before, after)
    ensures SectionIds(before) == SectionIds(after)
  {
  }

  // ------------------------------------------------------------ paragraphs and page lists

  function KeepParagraphs(paragraphs: seq<Paragraph>, gone: set<int>): seq<Paragraph> {
    if paragraphs == [] then []
    else
      var last := paragraphs[|paragraphs| - 1];
      KeepParagraphs(paragraphs[..|paragraphs| - 1], gone) + if last.id in gone then [] else [last]
  }

  lemma {:induction false} KeptParagraph(paragraphs: seq<Paragraph>, gone: set<int>, p: Paragraph)
    ensures p in KeepParagraphs(paragraphs, gone) <==> p in paragraphs && p.id !in gone
  {
    if paragraphs != [] {
      var front, last := paragraphs[..|paragraphs| - 1], paragraphs[|paragraphs| - 1];
      KeptParagraph(front, gone, p);
      assert paragraphs == front + [last];
    }
  }

  function Without(ids: seq<int>, gone: set<int>): seq<int> {
    if ids == [] then []
    else
      var last := ids[|ids| - 1];
      Without(ids[..|ids| - 1], gone) + if last in gone then [] else [last]
  }

  lemma {:induction false} LeftWithout(ids: seq<int>, gone: set<int>, id: int)
    ensures id in Without(ids, gone) <==> id in ids && id !in gone
  {
    if ids != [] {
      LeftWithout(ids[..|ids| - 1], gone, id);
      assert ids == ids[..|ids| - 1] + [ids[|ids| - 1]];
    }
  }

  function Relisted(page: Page, gone: set<int>, goneParagraphs: set<int>): Page {
    page.(headings := Without(page.headings, gone), paragraphs := Without(page.paragraphs, goneParagraphs))
  }

  function Resettled(rd: Reading, sections: seq<Section>, gone: set<int>, p: Paragraph): Paragraph {
    if p.section.Some? && p.section.value in gone && 1 <= p.section.value <= |sections|
    then p.(section := Replacement(rd, sections, gone, p.section.value - 1))
    else p
  }
}
