/**
 Sections, paragraphs and pages of a document, and how sections hang together.
 */
module DocumentParts {
  import opened Base
  import opened SectionNesting
  import opened ParagraphText

  datatype Section = Section(
    id: int, text: string, level: int, parent: Option<int>, page: int, top: real, bottom: real)

  datatype Paragraph = Paragraph(
    id: int, text: string, markers: seq<Marker>, section: Option<int>, page: int,
    lineStart: int, lineEnd: int, top: real, bottom: real)

  datatype Page = Page(number: int, height: real, headings: seq<int>, paragraphs: seq<int>)

  function Levels(sections: seq<Section>): seq<int> {
    seq(|sections|, i requires 0 <= i < |sections| => sections[i].level)
  }

  function Ids(sections: seq<Section>): seq<int> {
    seq(|sections|, i requires 0 <= i < |sections| => sections[i].id)
  }

  function ParentAt(sections: seq<Section>, i: nat): Option<int>
    requires i < |sections|
  {
    IdAt(Ids(sections), NearestSmaller(Levels(sections), i, sections[i].level))
  }

  /** Every section hangs under the nearest earlier section of strictly smaller level. */
  ghost predicate Nested(sections: seq<Section>) {
    forall i {:trigger ParentAt(sections, i)} :: 0 <= i < |sections| ==> sections[i].parent == ParentAt(sections, i)
  }

  /** The parent is the nearest section before of strictly smaller level, and there is none exactly when no such section is. */
  lemma NestedMeans(sections: seq<Section>, i: nat)
    requires Nested(sections) && i < |sections|
    ensures sections[i].parent.None? <==> forall m :: 0 <= m < i ==> sections[m].level >= sections[i].level
    ensures sections[i].parent.Some? ==>
              exists k :: 0 <= k < i && sections[k].id == sections[i].parent.value && sections[k].level < sections[i].level
                          && forall m :: k < m < i ==> sections[m].level >= sections[i].level
  {
    assert sections[i].parent == ParentAt(sections, i);
    assert forall m :: 0 <= m < i ==> Levels(sections)[m] == sections[m].level;
    var nearest := NearestSmaller(Levels(sections), i, sections[i].level);
    if nearest.Some? {
      assert sections[nearest.value].level < sections[i].level;
    }
  }

  lemma LevelsAndIdsOneMore(sections: seq<Section>, s: Section)
    ensures Levels(sections + [s]) == Levels(sections) + [s.level]
    ensures Ids(sections + [s]) == Ids(sections) + [s.id]
  {
  }

  lemma ParentsIgnoreLater(sections: seq<Section>, s: Section, i: nat)
    requires i < |sections|
    ensures ParentAt(sections + [s], i) == ParentAt(sections, i)
  {
    LevelsAndIdsOneMore(sections, s);
    NearestSmallerIgnoresLater(Levels(sections), [s.level], i, sections[i].level);
  }

  lemma NewParent(sections: seq<Section>, s: Section)
    ensures ParentAt(sections + [s], |sections|)
         == IdAt(Ids(sections), NearestSmaller(Levels(sections), |sections|, s.level))
  {
    LevelsAndIdsOneMore(sections, s);
    NearestSmallerIgnoresLater(Levels(sections), [s.level], |sections|, s.level);
  }

  lemma NestedOneMore(sections: seq<Section>, s: Section)
    requires Nested(sections)
    requires s.parent == IdAt(Ids(sections), NearestSmaller(Levels(sections), |sections|, s.level))
    ensures Nested(sections + [s])
  {
    forall i | 0 <= i < |sections| ensures (sections + [s])[i].parent == ParentAt(sections + [s], i) {
      ParentsIgnoreLater(sections, s, i);
    }
    NewParent(sections, s);
  }
}
