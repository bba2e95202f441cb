/**
 Cutting the content lines of one page into paragraphs.
 */
module ParagraphCuts {
  import opened Base
  import opened ParagraphText

  /** A content line of a page, with the level the heading test gave it if it is one. */
  datatype ContentLine = ContentLine(line: Line, heading: Option<int>)

  predicate IsContent(lines: seq<ContentLine>, i: int)
    requires 0 <= i < |lines|
  {
    lines[i].heading.None? && lines[i].line.text != ""
  }

  /** What ends a paragraph between two neighbouring content lines. */
  predicate Breaks(lines: seq<ContentLine>, sections: seq<Option<int>>, i: int)
    requires 1 <= i < |lines| == |sections|
  {
    var previous, line := lines[i - 1].line, lines[i].line;
    var shift := line.x0 - previous.x0;
    || sections[i] != sections[i - 1]
    || shift > 36.0 || -shift > 36.0
    || line.top - previous.bottom > RealMax(6.0, (previous.bottom - previous.top) * 1.5)
  }

  datatype Range = Range(first: int, last: int)

  ghost predicate InRange(lines: seq<ContentLine>, sections: seq<Option<int>>, r: Range, upto: int)
    requires upto <= |lines| == |sections|
  {
    && 0 <= r.first <= r.last < upto
    && (forall k :: r.first <= k <= r.last ==> IsContent(lines, k))
    && (forall k :: r.first < k <= r.last ==> !Breaks(lines, sections, k))
  }

  /**
   The ranges cut the first `upto` lines into paragraphs: each is an unbroken run of
   content lines, they follow one another, neighbours are parted by a break, and no
   content line is left out.
   */
  ghost predicate Cut(lines: seq<ContentLine>, sections: seq<Option<int>>, ranges: seq<Range>, upto: int)
    requires 0 <= upto <= |lines| == |sections|
  {
    && (forall j :: 0 <= j < |ranges| ==> InRange(lines, sections, ranges[j], upto))
    && (forall j :: 1 <= j < |ranges| ==> Parted(lines, sections, ranges, j))
    && (forall k :: 0 <= k < upto && IsContent(lines, k) ==> Placed(ranges, k))
  }

  ghost predicate Parted(lines: seq<ContentLine>, sections: seq<Option<int>>, ranges: seq<Range>, j: int)
    requires |lines| == |sections| && 1 <= j < |ranges| && 0 <= ranges[j - 1].last && ranges[j].first < |lines|
  {
    && ranges[j - 1].last < ranges[j].first
    && (ranges[j - 1].last + 1 == ranges[j].first ==> Breaks(lines, sections, ranges[j].first))
  }

  ghost predicate Placed(ranges: seq<Range>, k: int) {
    exists j :: 0 <= j < |ranges| && ranges[j].first <= k <= ranges[j].last
  }

  lemma PlacedStays(ranges: seq<Range>, k: int, more: seq<Range>)
    requires Placed(ranges, k)
    ensures Placed(ranges + more, k)
  {
    var j :| 0 <= j < |ranges| && ranges[j].first <= k <= ranges[j].last;
    assert (ranges + more)[j] == ranges[j];
  }

  /** A line that is no content parts the last range from line `i`. */
  ghost predicate LeavesGap(ranges: seq<Range>, i: int) {
    ranges != [] ==> ranges[|ranges| - 1].last + 1 < i
  }

  lemma SkipLine(lines: seq<ContentLine>, sections: seq<Option<int>>, ranges: seq<Range>, i: int)
    requires 0 <= i < |lines| == |sections| && Cut(lines, sections, ranges, i) && !IsContent(lines, i)
    ensures Cut(lines, sections, ranges, i + 1) && LeavesGap(ranges, i + 1)
  {
  }

  lemma OpenRange(lines: seq<ContentLine>, sections: seq<Option<int>>, ranges: seq<Range>, i: int)
    requires 0 <= i < |lines| == |sections| && Cut(lines, sections, ranges, i) && IsContent(lines, i)
    requires ranges != [] && ranges[|ranges| - 1].last + 1 == i ==> Breaks(lines, sections, i)
    ensures Cut(lines, sections, ranges + [Range(i, i)], i + 1)
  {
    var after := ranges + [Range(i, i)];
    forall j | 1 <= j < |after| ensures Parted(lines, sections, after, j) {
      assert j < |ranges| ==> Parted(lines, sections, ranges, j);
    }
    forall k | 0 <= k < i + 1 && IsContent(lines, k) ensures Placed(after, k) {
      if k < i {
        PlacedStays(ranges, k, [Range(i, i)]);
      } else {
        assert after[|ranges|].first <= k <= after[|ranges|].last;
      }
    }
  }

  lemma WiderRange(lines: seq<ContentLine>, sections: seq<Option<int>>, first: int, i: int)
    requires 0 <= first < i < |lines| == |sections| && IsContent(lines, i) && !Breaks(lines, sections, i)
    requires InRange(lines, sections, Range(first, i - 1), i)
    ensures InRange(lines, sections, Range(first, i), i + 1)
  {
  }

  /** The last of `ranges` reaches `i - 1` and takes in line `i` as well. */
  lemma ExtendRange(lines: seq<ContentLine>, sections: seq<Option<int>>, done: seq<Range>, first: int, i: int)
    requires 0 <= first < i < |lines| == |sections| && IsContent(lines, i) && !Breaks(lines, sections, i)
    requires Cut(lines, sections, done + [Range(first, i - 1)], i)
    ensures Cut(lines, sections, done + [Range(first, i)], i + 1)
  {
    var n := |done|;
    var before, after := done + [Range(first, i - 1)], done + [Range(first, i)];
    assert before[n] == Range(first, i - 1) && after[n] == Range(first, i);
    assert forall j :: 0 <= j < n ==> before[j] == after[j];
    WiderRange(lines, sections, first, i);
    forall j | 0 <= j < |after| ensures InRange(lines, sections, after[j], i + 1) {
      assert InRange(lines, sections, before[j], i);
    }
    forall j | 1 <= j < |after| ensures Parted(lines, sections, after, j) {
      assert Parted(lines, sections, before, j);
    }
    ExtendedPlaces(lines, before, after, i);
  }

  lemma ExtendedPlaces(lines: seq<ContentLine>, before: seq<Range>, after: seq<Range>, i: int)
    requires 0 <= i < |lines| && 0 < |before| == |after|
    requires forall j :: 0 <= j < |before| ==> before[j].first == after[j].first && before[j].last <= after[j].last
    requires after[|after| - 1].first <= i == after[|after| - 1].last
    requires forall k :: 0 <= k < i && IsContent(lines, k) ==> Placed(before, k)
    ensures forall k :: 0 <= k < i + 1 && IsContent(lines, k) ==> Placed(after, k)
  {
  }

  /** The finished ranges with the open one, if any, closed before line `i`. */
  function Closed(ranges: seq<Range>, open: Option<int>, i: int): seq<Range> {
    if open.None? then ranges else ranges + [Range(open.value, i - 1)]
  }

  /** The paragraph loop of one page, as ranges of line numbers. */
  method CutParagraphs(lines: seq<ContentLine>, sections: seq<Option<int>>) returns (ranges: seq<Range>)
    requires |lines| == |sections|
    ensures Cut(lines, sections, ranges, |lines|)
  {
    ranges := [];
    var open: Option<int> := None;
    for i := 0 to |lines|
      invariant open.Some? ==> 0 <= open.value < i
      invariant Cut(lines, sections, Closed(ranges, open, i), i)
      invariant open.None? ==> LeavesGap(ranges, i)
    {
      if lines[i].heading.Some? || lines[i].line.text == "" {
        ranges := Closed(ranges, open, i);
        open := None;
        SkipLine(lines, sections, ranges, i);
      } else if open.Some? && !Breaks(lines, sections, i) {
        ExtendRange(lines, sections, ranges, open.value, i);
      } else {
        ranges := Closed(ranges, open, i);
        OpenRange(lines, sections, ranges, i);
        open := Some(i);
      }
    }
    ranges := Closed(ranges, open, |lines|);
  }

  lemma {:induction false} InOrder(
    lines: seq<ContentLine>, sections: seq<Option<int>>, ranges: seq<Range>, i: int, j: int)
    requires |lines| == |sections| && Cut(lines, sections, ranges, |lines|) && 0 <= i < j < |ranges|
    ensures ranges[i].last < ranges[j].first
    decreases j
  {
    assert Parted(lines, sections, ranges, j);
    if i < j - 1 {
      InOrder(lines, sections, ranges, i, j - 1);
      assert InRange(lines, sections, ranges[j - 1], |lines|);
    }
  }

  /** Neighbouring content lines share a paragraph exactly when nothing breaks between them. */
  lemma SharedExactlyWithoutBreak(
    lines: seq<ContentLine>, sections: seq<Option<int>>, ranges: seq<Range>, k: int)
    requires |lines| == |sections| && Cut(lines, sections, ranges, |lines|)
    requires 1 <= k < |lines| && IsContent(lines, k - 1) && IsContent(lines, k)
    ensures (exists j :: 0 <= j < |ranges| && ranges[j].first <= k - 1 && k <= ranges[j].last)
       <==> !Breaks(lines, sections, k)
  {
    assert Placed(ranges, k - 1) && Placed(ranges, k);
    var a :| 0 <= a < |ranges| && ranges[a].first <= k - 1 <= ranges[a].last;
    var b :| 0 <= b < |ranges| && ranges[b].first <= k <= ranges[b].last;
    assert InRange(lines, sections, ranges[a], |lines|) && InRange(lines, sections, ranges[b], |lines|);
    if b < a {
      InOrder(lines, sections, ranges, b, a);
    } else if a < b {
      assert InRange(lines, sections, ranges[a + 1], |lines|);
      InOrder(lines, sections, ranges, a, a + 1);
      if a + 1 < b {
        InOrder(lines, sections, ranges, a + 1, b);
      }
      assert Parted(lines, sections, ranges, b);
    }
    if j :| 0 <= j < |ranges| && ranges[j].first <= k - 1 && k <= ranges[j].last {
      assert InRange(lines, sections, ranges[j], |lines|);
    }
  }

  /** No content line is in two paragraphs. */
  lemma PlacedOnce(lines: seq<ContentLine>, sections: seq<Option<int>>, ranges: seq<Range>, k: int, i: int, j: int)
    requires |lines| == |sections| && Cut(lines, sections, ranges, |lines|)
    requires 0 <= i < |ranges| && ranges[i].first <= k <= ranges[i].last
    requires 0 <= j < |ranges| && ranges[j].first <= k <= ranges[j].last
    ensures i == j
  {
    if i != j {
      InOrder(lines, sections, ranges, Min(i, j), Max(i, j));
    }
  }

  /** A paragraph's lines all belong to the section of its first line. */
  lemma {:induction false} OneSectionPerRange(
    lines: seq<ContentLine>, sections: seq<Option<int>>, r: Range, k: int)
    requires |lines| == |sections| && InRange(lines, sections, r, |lines|) && r.first <= k <= r.last
    ensures sections[k] == sections[r.first]
    decreases k - r.first
  {
    if k > r.first {
      OneSectionPerRange(lines, sections, r, k - 1);
      assert !Breaks(lines, sections, k);
    }
  }
}
