/**
 What the three counts of the gutter search count, word by word: the rows that cross a
 position, and the rows that leave it clear with text to one side.
 */
module GutterRows {
  import opened Base
  import opened PageWords
  import opened ProseGutter

  // ------------------------------------------------------------ the three conditions

  predicate Uncovered(row: Row, x: real) {
    forall w :: w in row ==> !(w.x0 <= x <= w.x1)
  }

  /** Ink on both sides of x without a gap there: some word comes up to x, and some goes on from it. */
  predicate Crosses(row: Row, x: real) {
    (exists w :: w in row && w.x0 < x <= w.x1) && (exists w :: w in row && w.x0 <= x < w.x1)
  }

  /** Any two words with x between them are a gutter apart. */
  predicate WideAt(row: Row, x: real, minimumGutter: real) {
    forall v, w :: v in row && w in row && v.x1 < x < w.x0 ==> w.x0 - v.x1 >= minimumGutter
  }

  predicate ClearRightOfText(row: Row, x: real, minimumGutter: real) {
    Uncovered(row, x) && WideAt(row, x, minimumGutter) && exists w :: w in row && w.x1 < x
  }

  predicate ClearLeftOfText(row: Row, x: real, minimumGutter: real) {
    Uncovered(row, x) && WideAt(row, x, minimumGutter) && exists w :: w in row && x < w.x0
  }

  // ------------------------------------------------------------ spans and words

  predicate Inner(w: Word, s: Span) {
    s.start <= w.x0 && w.x1 <= s.end
  }

  ghost predicate InSome(w: Word, spans: seq<Span>) {
    exists k :: 0 <= k < |spans| && Inner(w, spans[k])
  }

  /** Every word lies in a span. */
  ghost predicate AllInner(row: Row, spans: seq<Span>) {
    forall w :: w in row ==> InSome(w, spans)
  }

  ghost predicate Begins(row: Row, s: Span) {
    exists w :: w in row && w.x0 == s.start
  }

  ghost predicate Ends(row: Row, s: Span) {
    exists w :: w in row && w.x1 == s.end
  }

  /** Every span begins and ends with a word. */
  ghost predicate Bounded(row: Row, spans: seq<Span>) {
    forall k :: 0 <= k < |spans| ==> Begins(row, spans[k]) && Ends(row, spans[k])
  }

  lemma BoundsStay(row: Row, word: Word, s: Span)
    ensures Begins(row, s) ==> Begins(row + [word], s)
    ensures Ends(row, s) ==> Ends(row + [word], s)
  {
    if w :| w in row && w.x0 == s.start {
      assert w in row + [word];
    }
    if w :| w in row && w.x1 == s.end {
      assert w in row + [word];
    }
  }

  lemma AddWordHoldsWords(row: Row, spans: seq<Span>, word: Word)
    requires AllInner(row, spans) && word.x0 <= word.x1
    requires spans != [] ==> spans[|spans| - 1].start <= word.x0
    ensures AllInner(row + [word], AddWord(spans, word))
  {
    var after := AddWord(spans, word);
    forall w | w in row + [word] ensures InSome(w, after) {
      if w in row {
        assert InSome(w, spans);
        var k :| 0 <= k < |spans| && Inner(w, spans[k]);
        assert Inner(w, after[k]);
      } else {
        assert Inner(w, after[|after| - 1]);
      }
    }
  }

  lemma AddWordKeepsBounds(row: Row, spans: seq<Span>, word: Word)
    requires Bounded(row, spans)
    ensures Bounded(row + [word], AddWord(spans, word))
  {
    var more, after := row + [word], AddWord(spans, word);
    assert word in more;
    forall k | 0 <= k < |after| ensures Begins(more, after[k]) && Ends(more, after[k]) {
      if k < |spans| {
        BoundsStay(row, word, spans[k]);
      }
    }
  }

  lemma {:induction false} RowIsHeld(row: Row)
    requires ValidRow(row)
    ensures AllInner(row, Spans(row))
  {
    var front, word := row[..|row| - 1], row[|row| - 1];
    if |row| > 1 {
      ValidFront(row);
      SpansOfRow(front);
      RowIsHeld(front);
    } else {
      assert front == [] && Spans(front) == [];
    }
    AddWordHoldsWords(front, Spans(front), word);
    assert row == front + [word];
  }

  lemma {:induction false} RowBounds(row: Row)
    ensures Bounded(row, Spans(row))
  {
    if row != [] {
      var front, word := row[..|row| - 1], row[|row| - 1];
      RowBounds(front);
      AddWordKeepsBounds(front, Spans(front), word);
      assert row == front + [word];
    }
  }

  // ------------------------------------------------------------ counts and marks

  lemma {:induction false} CountIsPositive(spans: seq<Span>, x: int)
    ensures Count(spans, x) > 0 <==> exists k :: 0 <= k < |spans| && Inside(spans[k], x)
  {
    if spans != [] {
      CountIsPositive(spans[..|spans| - 1], x);
    }
  }

  /** A wide gap between span `k` and the next, with x inside. */
  predicate GapAt(spans: seq<Span>, minimumGutter: real, x: real, k: int) {
    && 0 <= k < |spans| - 1 && spans[k].end < x < spans[k + 1].start
    && spans[k + 1].start - spans[k].end >= minimumGutter
  }

  ghost predicate SomeGap(spans: seq<Span>, minimumGutter: real, x: real) {
    exists k :: GapAt(spans, minimumGutter, x, k)
  }

  lemma SomeGapOneMore(spans: seq<Span>, minimumGutter: real, x: real)
    requires |spans| > 1
    ensures SomeGap(spans, minimumGutter, x) <==>
              SomeGap(spans[..|spans| - 1], minimumGutter, x) || GapAt(spans, minimumGutter, x, |spans| - 2)
  {
    var front := spans[..|spans| - 1];
    if k :| GapAt(front, minimumGutter, x, k) {
      assert GapAt(spans, minimumGutter, x, k);
    }
    if k :| GapAt(spans, minimumGutter, x, k) && k < |spans| - 2 {
      assert GapAt(front, minimumGutter, x, k);
    }
  }

  lemma {:induction false} GapsCounted(spans: seq<Span>, minimumGutter: real, x: int)
    ensures Count(WideGaps(spans, minimumGutter), x) > 0 <==> SomeGap(spans, minimumGutter, x as real)
  {
    if |spans| > 1 {
      GapsCounted(spans[..|spans| - 1], minimumGutter, x);
      LastGap(spans, minimumGutter, x);
      SomeGapOneMore(spans, minimumGutter, x as real);
    }
  }

  // ------------------------------------------------------------ crossing

  /** The furthest any word that starts before x reaches, if that is short of x. */
  lemma {:induction false} ReachBelow(row: Row, x: real) returns (reach: real)
    requires forall w :: w in row && w.x0 < x ==> w.x1 < x
    ensures reach < x && forall w :: w in row && w.x0 < x ==> w.x1 <= reach
  {
    reach := x - 1.0;
    if row != [] {
      var front, last := row[..|row| - 1], row[|row| - 1];
      assert row == front + [last];
      reach := ReachBelow(front, x);
      if last.x0 < x {
        reach := RealMax(reach, last.x1);
      }
    }
  }

  lemma {:induction false} ReachAbove(row: Row, x: real) returns (reach: real)
    requires forall w :: w in row && x < w.x1 ==> x < w.x0
    ensures x < reach && forall w :: w in row && x < w.x1 ==> reach <= w.x0
  {
    reach := x + 1.0;
    if row != [] {
      var front, last := row[..|row| - 1], row[|row| - 1];
      assert row == front + [last];
      reach := ReachAbove(front, x);
      if x < last.x1 {
        reach := RealMin(reach, last.x0);
      }
    }
  }

  lemma CoveredHolds(row: Row, p: real)
    ensures Covered(row, p) <==> exists w :: w in row && w.x0 <= p <= w.x1
  {
    if w :| w in row && w.x0 <= p <= w.x1 {
      var k :| 0 <= k < |row| && row[k] == w;
    }
  }

  lemma InsideHasWordBefore(row: Row, s: Span, x: real)
    requires ValidRow(row) && s in Spans(row) && s.start < x <= s.end
    ensures exists w :: w in row && w.x0 < x <= w.x1
  {
    if forall w :: w in row && w.x0 < x ==> w.x1 < x {
      var reach := ReachBelow(row, x);
      var low := RealMax(reach, s.start);
      var p := (low + x) / 2.0;
      SpansCoverTheWords(row, p);
      CoveredHolds(row, p);
      assert InSpan(Spans(row), p);
    }
  }

  lemma InsideHasWordAfter(row: Row, s: Span, x: real)
    requires ValidRow(row) && s in Spans(row) && s.start <= x < s.end
    ensures exists w :: w in row && w.x0 <= x < w.x1
  {
    if forall w :: w in row && x < w.x1 ==> x < w.x0 {
      var reach := ReachAbove(row, x);
      var high := RealMin(reach, s.end);
      var p := (x + high) / 2.0;
      SpansCoverTheWords(row, p);
      CoveredHolds(row, p);
      assert InSpan(Spans(row), p);
    }
  }

  lemma SameSpan(spans: seq<Span>, i: int, k: int, x: real)
    requires Separated(spans) && 0 <= i < |spans| && 0 <= k < |spans|
    requires spans[i].start <= x <= spans[i].end && spans[k].start <= x <= spans[k].end
    ensures i == k
  {
  }

  lemma InsideCrosses(row: Row, s: Span, x: int)
    requires ValidRow(row) && s in Spans(row) && Inside(s, x)
    ensures Crosses(row, x as real)
  {
    InsideHasWordBefore(row, s, x as real);
    InsideHasWordAfter(row, s, x as real);
  }

  lemma CrossesInside(row: Row, x: int)
    requires ValidRow(row) && Separated(Spans(row)) && Crosses(row, x as real)
    ensures exists k :: 0 <= k < |Spans(row)| && Inside(Spans(row)[k], x)
  {
    var v :| v in row && v.x0 < x as real <= v.x1;
    var w :| w in row && w.x0 <= x as real < w.x1;
    RowIsHeld(row);
    assert InSome(v, Spans(row)) && InSome(w, Spans(row));
    CrossingSpan(Spans(row), v, w, x);
  }

  /** A row counts as crossing x exactly when some word comes up to x and some goes on from it. */
  lemma CrossingRowExactly(row: Row, x: int)
    requires ValidRow(row)
    ensures Count(Spans(row), x) > 0 <==> Crosses(row, x as real)
  {
    SpansOfRow(row);
    CountIsPositive(Spans(row), x);
    if k :| 0 <= k < |Spans(row)| && Inside(Spans(row)[k], x) {
      InsideCrosses(row, Spans(row)[k], x);
    }
    if Crosses(row, x as real) {
      CrossesInside(row, x);
    }
  }

  lemma CrossingSpan(spans: seq<Span>, v: Word, w: Word, x: int)
    requires Separated(spans) && InSome(v, spans) && InSome(w, spans)
    requires v.x0 < x as real <= v.x1 && w.x0 <= x as real < w.x1
    ensures exists k :: 0 <= k < |spans| && Inside(spans[k], x)
  {
    var i :| 0 <= i < |spans| && Inner(v, spans[i]);
    var k :| 0 <= k < |spans| && Inner(w, spans[k]);
    SameSpan(spans, i, k, x as real);
    assert Inside(spans[k], x);
  }

  // ------------------------------------------------------------ clear on one side

  lemma UncoveredBySpans(row: Row, x: real)
    requires ValidRow(row)
    ensures Uncovered(row, x) <==> !InSpan(Spans(row), x)
  {
    SpansCoverTheWords(row, x);
    CoveredHolds(row, x);
  }

  /** x lies past the first `k` spans and before the others. */
  ghost predicate Parts(spans: seq<Span>, x: real, k: int) {
    && 0 <= k <= |spans|
    && (forall i :: 0 <= i < k ==> spans[i].end < x)
    && forall i :: k <= i < |spans| ==> x < spans[i].start
  }

  lemma {:induction false} SomeParts(spans: seq<Span>, x: real) returns (k: int)
    requires Separated(spans) && !InSpan(spans, x)
    ensures Parts(spans, x, k)
  {
    k := 0;
    while k < |spans| && spans[k].end < x
      invariant 0 <= k <= |spans| && forall i :: 0 <= i < k ==> spans[i].end < x
    {
      k := k + 1;
    }
    if k < |spans| {
      assert spans[k].start <= x ==> InSpan(spans, x);
    }
  }

  /** With x between spans, words end at or before the span on its left and start at or after the one on its right. */
  lemma SidesOfParts(row: Row, x: real, k: int)
    requires ValidRow(row) && Parts(Spans(row), x, k)
    ensures Separated(Spans(row))
    ensures forall w :: w in row && w.x1 < x ==> k > 0 && w.x1 <= Spans(row)[k - 1].end
    ensures forall w :: w in row && x < w.x0 ==> k < |Spans(row)| && Spans(row)[k].start <= w.x0
    ensures k > 0 ==> exists w :: w in row && w.x1 == Spans(row)[k - 1].end
    ensures k < |Spans(row)| ==> exists w :: w in row && w.x0 == Spans(row)[k].start
  {
    var spans := Spans(row);
    SpansOfRow(row);
    forall w | w in row
      ensures w.x1 < x ==> k > 0 && w.x1 <= spans[k - 1].end
      ensures x < w.x0 ==> k < |spans| && spans[k].start <= w.x0
    {
      RowIsHeld(row);
      assert InSome(w, spans);
      WordAtParts(spans, x, k, w);
    }
    RowBounds(row);
    assert k > 0 ==> Ends(row, spans[k - 1]);
    assert k < |spans| ==> Begins(row, spans[k]);
  }

  lemma WordAtParts(spans: seq<Span>, x: real, k: int, w: Word)
    requires Separated(spans) && Parts(spans, x, k) && InSome(w, spans) && w.x0 <= w.x1
    ensures w.x1 < x ==> k > 0 && w.x1 <= spans[k - 1].end
    ensures x < w.x0 ==> k < |spans| && spans[k].start <= w.x0
  {
    var i :| 0 <= i < |spans| && Inner(w, spans[i]);
  }

  lemma GapPartsExactly(spans: seq<Span>, minimumGutter: real, x: real, k: int)
    requires Separated(spans) && Parts(spans, x, k)
    ensures SomeGap(spans, minimumGutter, x) <==>
              0 < k < |spans| && spans[k].start - spans[k - 1].end >= minimumGutter
  {
    if j :| GapAt(spans, minimumGutter, x, j) {
      assert spans[j].start <= spans[j].end && spans[j + 1].start <= spans[j + 1].end;
    }
    if 0 < k < |spans| && spans[k].start - spans[k - 1].end >= minimumGutter {
      assert GapAt(spans, minimumGutter, x, k - 1);
    }
  }

  lemma WidthAtParts(row: Row, minimumGutter: real, x: real, k: int)
    requires ValidRow(row) && Parts(Spans(row), x, k)
    ensures WideAt(row, x, minimumGutter) <==>
              !(0 < k < |Spans(row)|) || Spans(row)[k].start - Spans(row)[k - 1].end >= minimumGutter
  {
    SidesOfParts(row, x, k);
  }

  lemma NoGapWhenCovered(spans: seq<Span>, minimumGutter: real, x: real)
    requires Separated(spans) && InSpan(spans, x)
    ensures !SomeGap(spans, minimumGutter, x)
    ensures spans[0].start <= x <= spans[|spans| - 1].end
  {
    var i :| 0 <= i < |spans| && spans[i].start <= x <= spans[i].end;
  }

  lemma FirstMark(first: Span, rest: seq<Span>, x: int)
    ensures Count([first] + rest, x) == Count(rest, x) + if Inside(first, x) then 1 else 0
  {
    CountConcat([first], rest, x);
    assert [first][..0] == [];
  }

  /** A row counts as clear with text on the left exactly when nothing covers x, something ends before it, and the gap there is a gutter. */
  lemma LeftClearRowExactly(row: Row, minimumGutter: real, width: int, x: int)
    requires ValidRow(row) && 0 < x < width
    ensures Count(LeftClearMarks(row, minimumGutter, width), x) > 0 <==> ClearRightOfText(row, x as real, minimumGutter)
  {
    var spans, at := Spans(row), x as real;
    SpansOfRow(row);
    UncoveredBySpans(row, at);
    GapsCounted(spans, minimumGutter, x);
    FirstMark(Span(spans[|spans| - 1].end, width as real), WideGaps(spans, minimumGutter), x);
    if InSpan(spans, at) {
      NoGapWhenCovered(spans, minimumGutter, at);
    } else {
      var k := SomeParts(spans, at);
      SidesOfParts(row, at, k);
      GapPartsExactly(spans, minimumGutter, at, k);
      WidthAtParts(row, minimumGutter, at, k);
    }
  }

  /** And clear with text on the right exactly when something starts after x. */
  lemma RightClearRowExactly(row: Row, minimumGutter: real, x: int)
    requires ValidRow(row) && 0 < x
    ensures Count(RightClearMarks(row, minimumGutter), x) > 0 <==> ClearLeftOfText(row, x as real, minimumGutter)
  {
    var spans, at := Spans(row), x as real;
    SpansOfRow(row);
    UncoveredBySpans(row, at);
    GapsCounted(spans, minimumGutter, x);
    FirstMark(Span(0.0, spans[0].start), WideGaps(spans, minimumGutter), x);
    if InSpan(spans, at) {
      NoGapWhenCovered(spans, minimumGutter, at);
    } else {
      var k := SomeParts(spans, at);
      SidesOfParts(row, at, k);
      GapPartsExactly(spans, minimumGutter, at, k);
      WidthAtParts(row, minimumGutter, at, k);
    }
  }

  // ------------------------------------------------------------ rows counted

  function Counted(rows: seq<Row>, holds: Row -> bool): nat {
    if rows == [] then 0
    else Counted(rows[..|rows| - 1], holds) + if holds(rows[|rows| - 1]) then 1 else 0
  }

  /** At every position of the page the three counts are the numbers of rows that meet the three conditions. */
  lemma {:induction false} CountsCountRows(rows: seq<Row>, minimumGutter: real, width: int, x: int)
    requires 0 < x < width && forall i :: 0 <= i < |rows| ==> ValidRow(rows[i])
    ensures Crossing(rows, x) == Counted(rows, row => Crosses(row, x as real))
    ensures LeftClear(rows, minimumGutter, width, x) == Counted(rows, row => ClearRightOfText(row, x as real, minimumGutter))
    ensures RightClear(rows, minimumGutter, x) == Counted(rows, row => ClearLeftOfText(row, x as real, minimumGutter))
  {
    if rows != [] {
      var front, row := rows[..|rows| - 1], rows[|rows| - 1];
      CountsCountRows(front, minimumGutter, width, x);
      RowCountsOnce(row, minimumGutter, width, x);
      CrossingRowExactly(row, x);
      LeftClearRowExactly(row, minimumGutter, width, x);
      RightClearRowExactly(row, minimumGutter, x);
      CountConcat(AllMarks(front, r => Spans(r)), Spans(row), x);
      CountConcat(AllMarks(front, r => LeftClearMarks(r, minimumGutter, width)), LeftClearMarks(row, minimumGutter, width), x);
      CountConcat(AllMarks(front, r => RightClearMarks(r, minimumGutter)), RightClearMarks(row, minimumGutter), x);
    }
  }

  /**
   A position may be the gutter exactly when it lies in the middle fifth of the page,
   ten rows at least have text on either side of it and leave a gutter's width clear
   there, and no more than three rows, or a fifth of all, cross it.
   */
  lemma CandidateExactly(rows: seq<Row>, pageWidth: real, x: int)
    requires pageWidth > 0.0 && forall i :: 0 <= i < |rows| ==> ValidRow(rows[i])
    ensures var gutter := if pageWidth * 0.015 > 8.0 then pageWidth * 0.015 else 8.0;
            Candidate(rows, pageWidth, x) <==>
              && pageWidth * 0.4 <= x as real <= pageWidth * 0.6
              && Counted(rows, row => ClearRightOfText(row, x as real, gutter)) >= 10
              && Counted(rows, row => ClearLeftOfText(row, x as real, gutter)) >= 10
              && (Counted(rows, row => Crosses(row, x as real)) <= 3
                  || Counted(rows, row => Crosses(row, x as real)) <= |rows| / 5)
  {
    CeilAndFloor(pageWidth * 0.4, pageWidth * 0.6, x);
    if pageWidth * 0.4 <= x as real <= pageWidth * 0.6 {
      MiddleIsInside(pageWidth, x);
      CountsCountRows(rows, MinimumProseGutter(pageWidth), ArrayWidth(pageWidth), x);
    }
  }

  lemma CeilAndFloor(low: real, high: real, x: int)
    ensures Ceil(low) <= x <= high.Floor <==> low <= x as real <= high
  {
  }

  lemma MiddleIsInside(pageWidth: real, x: int)
    requires pageWidth > 0.0 && pageWidth * 0.4 <= x as real <= pageWidth * 0.6
    ensures 0 < x < ArrayWidth(pageWidth)
  {
  }

  /** A candidate's score is the rows clear on either side less the rows that cross. */
  lemma ScoreExactly(rows: seq<Row>, pageWidth: real, x: int)
    requires pageWidth > 0.0 && forall i :: 0 <= i < |rows| ==> ValidRow(rows[i])
    requires pageWidth * 0.4 <= x as real <= pageWidth * 0.6
    ensures var gutter := if pageWidth * 0.015 > 8.0 then pageWidth * 0.015 else 8.0;
            var scored := Counted(rows, row => ClearRightOfText(row, x as real, gutter))
                          + Counted(rows, row => ClearLeftOfText(row, x as real, gutter))
                          - Counted(rows, row => Crosses(row, x as real));
            Score(rows, pageWidth, x) == scored
  {
    MiddleIsInside(pageWidth, x);
    CountsCountRows(rows, MinimumProseGutter(pageWidth), ArrayWidth(pageWidth), x);
  }
}
