/**
 The search for a narrow central gutter between two prose columns. Rows are
 counted into difference arrays and summed once; every count is shown equal to the
 direct count of marked intervals around that x.
 */
module ProseGutter {
  import opened Base
  import opened PageWords

  const MAX_PAGE_WIDTH: real := 14400.0

  datatype Span = Span(start: real, end: real)

  predicate Inside(span: Span, x: int) {
    span.start < x as real < span.end
  }

  /** Direct counting: how many of the intervals contain x strictly inside. */
  function Count(spans: seq<Span>, x: int): nat {
    if spans == [] then 0
    else Count(spans[..|spans| - 1], x) + if Inside(spans[|spans| - 1], x) then 1 else 0
  }

  lemma {:induction false} CountConcat(a: seq<Span>, b: seq<Span>, x: int)
    ensures Count(a + b, x) == Count(a, x) + Count(b, x)
  {
    if b == [] {
      assert a + b == a;
    } else {
      var last := |b| - 1;
      assert (a + b)[..|a + b| - 1] == a + b[..last];
      CountConcat(a, b[..last], x);
    }
  }

  // ------------------------------------------------------- what one row marks

  /** Merge one more word, which starts no further left than the last span, into the covered stretches. */
  function AddWord(spans: seq<Span>, word: Word): seq<Span> {
    var last := |spans| - 1;
    if spans != [] && word.x0 <= spans[last].end
    then spans[..last] + [Span(spans[last].start, RealMax(spans[last].end, word.x1))]
    else spans + [Span(word.x0, word.x1)]
  }

  /** The stretches of x a row's words cover, touching words merged. */
  function Spans(row: Row): seq<Span> {
    if row == [] then [] else AddWord(Spans(row[..|row| - 1]), row[|row| - 1])
  }

  ghost predicate Separated(spans: seq<Span>) {
    && (forall i :: 0 <= i < |spans| ==> spans[i].start <= spans[i].end)
    && (forall i, j :: 0 <= i < j < |spans| ==> spans[i].end < spans[j].start)
  }

  predicate InSpan(spans: seq<Span>, p: real) {
    exists k :: 0 <= k < |spans| && spans[k].start <= p <= spans[k].end
  }

  predicate Covered(row: Row, p: real) {
    exists k :: 0 <= k < |row| && row[k].x0 <= p <= row[k].x1
  }

  lemma AddWordSeparates(spans: seq<Span>, word: Word)
    requires Separated(spans) && word.x0 <= word.x1
    requires spans != [] ==> spans[|spans| - 1].start <= word.x0
    ensures var after := AddWord(spans, word);
            after != [] && Separated(after) && after[|after| - 1].start <= word.x0
  {
  }

  lemma AddWordCovers(spans: seq<Span>, word: Word, p: real)
    requires Separated(spans) && word.x0 <= word.x1
    requires spans != [] ==> spans[|spans| - 1].start <= word.x0
    ensures InSpan(AddWord(spans, word), p) <==> InSpan(spans, p) || word.x0 <= p <= word.x1
  {
    var after := AddWord(spans, word);
    var a := |after| - 1;
    if InSpan(after, p) {
      var k :| 0 <= k < |after| && after[k].start <= p <= after[k].end;
      assert k < a ==> spans[k] == after[k];
    }
    if k :| 0 <= k < |spans| && spans[k].start <= p <= spans[k].end {
      assert after[k].start <= p <= after[k].end;
    }
    if word.x0 <= p <= word.x1 {
      assert after[a].start <= p <= after[a].end;
    }
  }

  lemma ValidFront(row: Row)
    requires ValidRow(row) && |row| > 1
    ensures ValidRow(row[..|row| - 1]) && row[|row| - 2].x0 <= row[|row| - 1].x0
  {
  }

  lemma {:induction false} SpansOfRow(row: Row)
    requires ValidRow(row)
    ensures Spans(row) != [] && Separated(Spans(row))
    ensures Spans(row)[|Spans(row)| - 1].start <= row[|row| - 1].x0
  {
    if |row| > 1 {
      ValidFront(row);
      SpansOfRow(row[..|row| - 1]);
    } else {
      assert Spans(row[..0]) == [];
    }
    AddWordSeparates(Spans(row[..|row| - 1]), row[|row| - 1]);
  }

  /** Merging neither adds nor loses ink: a point lies in some span exactly when it lies in some word. */
  lemma {:induction false} SpansCoverTheWords(row: Row, p: real)
    requires ValidRow(row)
    ensures InSpan(Spans(row), p) <==> Covered(row, p)
  {
    var front, word := row[..|row| - 1], row[|row| - 1];
    if |row| > 1 {
      ValidFront(row);
      SpansOfRow(front);
      SpansCoverTheWords(front, p);
    } else {
      assert Spans(front) == [];
    }
    AddWordCovers(Spans(front), word, p);
    CoveredByLast(row, p);
  }

  lemma CoveredByLast(row: Row, p: real)
    requires row != []
    ensures Covered(row, p) <==>
            Covered(row[..|row| - 1], p) || row[|row| - 1].x0 <= p <= row[|row| - 1].x1
  {
  }

  /** The gaps between neighbouring spans that are at least a gutter wide. */
  function WideGaps(spans: seq<Span>, minimumGutter: real): seq<Span> {
    if |spans| <= 1 then []
    else
      var n := |spans|;
      var front := WideGaps(spans[..n - 1], minimumGutter);
      if spans[n - 1].start - spans[n - 2].end >= minimumGutter
      then front + [Span(spans[n - 2].end, spans[n - 1].start)]
      else front
  }

  /** Where a row has text to the left and nothing over x, up to the right end of the arrays. */
  function LeftClearMarks(row: Row, minimumGutter: real, width: int): seq<Span> {
    var spans := Spans(row);
    if spans == [] then []
    else [Span(spans[|spans| - 1].end, width as real)] + WideGaps(spans, minimumGutter)
  }

  function RightClearMarks(row: Row, minimumGutter: real): seq<Span> {
    var spans := Spans(row);
    if spans == [] then []
    else [Span(0.0, spans[0].start)] + WideGaps(spans, minimumGutter)
  }

  function AllMarks(rows: seq<Row>, marks: Row -> seq<Span>): seq<Span> {
    if rows == [] then [] else AllMarks(rows[..|rows| - 1], marks) + marks(rows[|rows| - 1])
  }

  function Crossing(rows: seq<Row>, x: int): nat {
    Count(AllMarks(rows, row => Spans(row)), x)
  }

  function LeftClear(rows: seq<Row>, minimumGutter: real, width: int, x: int): nat {
    Count(AllMarks(rows, row => LeftClearMarks(row, minimumGutter, width)), x)
  }

  function RightClear(rows: seq<Row>, minimumGutter: real, x: int): nat {
    Count(AllMarks(rows, row => RightClearMarks(row, minimumGutter)), x)
  }

  // ------------------------------------------------ a row counts once at each x

  /** Spans and wide gaps up to the last span: at most one contains x, and none does beyond its end. */
  lemma {:induction false} SpansAndGapsAreDisjoint(spans: seq<Span>, minimumGutter: real, x: int)
    requires Separated(spans)
    ensures Count(spans, x) + Count(WideGaps(spans, minimumGutter), x) <= 1
    ensures spans != [] && x as real >= spans[|spans| - 1].end ==>
              Count(spans, x) == 0 && Count(WideGaps(spans, minimumGutter), x) == 0
    ensures spans != [] && x as real <= spans[0].start ==>
              Count(spans, x) == 0 && Count(WideGaps(spans, minimumGutter), x) == 0
  {
    var n := |spans|;
    if n == 1 {
      assert spans[..0] == [];
    } else if n > 1 {
      var front := spans[..n - 1];
      assert Separated(front);
      SpansAndGapsAreDisjoint(front, minimumGutter, x);
      var gap := Span(spans[n - 2].end, spans[n - 1].start);
      var wide := gap.end - gap.start >= minimumGutter;
      LastGap(spans, minimumGutter, x);
      LastSpanOnce(spans[0].start, gap.start, spans[n - 1], wide, x,
                   Count(front, x), Count(WideGaps(front, minimumGutter), x));
    }
  }

  lemma LastGap(spans: seq<Span>, minimumGutter: real, x: int)
    requires |spans| > 1
    ensures var n := |spans|;
            var gap := Span(spans[n - 2].end, spans[n - 1].start);
            Count(WideGaps(spans, minimumGutter), x) == Count(WideGaps(spans[..n - 1], minimumGutter), x)
              + if gap.end - gap.start >= minimumGutter && Inside(gap, x) then 1 else 0
  {
    var gap := Span(spans[|spans| - 2].end, spans[|spans| - 1].start);
    CountConcat(WideGaps(spans[..|spans| - 1], minimumGutter), [gap], x);
    assert [gap][..0] == [];
  }

  /** One more span, and the gap before it, right of everything counted so far. */
  lemma LastSpanOnce(start: real, end: real, last: Span, wide: bool, x: int, inSpans: nat, inGaps: nat)
    requires start <= end < last.start <= last.end && inSpans + inGaps <= 1
    requires x as real >= end || x as real <= start ==> inSpans == 0 && inGaps == 0
    ensures var spans := inSpans + if Inside(last, x) then 1 else 0;
            var gaps := inGaps + if wide && Inside(Span(end, last.start), x) then 1 else 0;
            && spans + gaps <= 1
            && (x as real >= last.end || x as real <= start ==> spans == 0 && gaps == 0)
  {
  }

  lemma RowCountsOnce(row: Row, minimumGutter: real, width: int, x: int)
    requires ValidRow(row) && 0 <= x < width
    ensures Count(Spans(row), x) + Count(LeftClearMarks(row, minimumGutter, width), x) <= 1
    ensures Count(Spans(row), x) + Count(RightClearMarks(row, minimumGutter), x) <= 1
  {
    SpansOfRow(row);
    var spans := Spans(row);
    SpansAndGapsAreDisjoint(spans, minimumGutter, x);
    var right, left := Span(spans[|spans| - 1].end, width as real), Span(0.0, spans[0].start);
    CountConcat([right], WideGaps(spans, minimumGutter), x);
    CountConcat([left], WideGaps(spans, minimumGutter), x);
    assert [right][..0] == [] && [left][..0] == [];
  }

  /** At every x the rows crossing it and the rows clear of it with text on one side are distinct rows. */
  lemma {:induction false} CountsFitTheRows(rows: seq<Row>, minimumGutter: real, width: int, x: int)
    requires 0 <= x < width && forall i :: 0 <= i < |rows| ==> ValidRow(rows[i])
    ensures Crossing(rows, x) + LeftClear(rows, minimumGutter, width, x) <= |rows|
    ensures Crossing(rows, x) + RightClear(rows, minimumGutter, x) <= |rows|
  {
    if rows != [] {
      var front, row := rows[..|rows| - 1], rows[|rows| - 1];
      CountsFitTheRows(front, minimumGutter, width, x);
      RowCountsOnce(row, minimumGutter, width, x);
      var spans, left, right :=
        (r: Row) => Spans(r), (r: Row) => LeftClearMarks(r, minimumGutter, width),
        (r: Row) => RightClearMarks(r, minimumGutter);
      CountConcat(AllMarks(front, spans), spans(row), x);
      CountConcat(AllMarks(front, left), left(row), x);
      CountConcat(AllMarks(front, right), right(row), x);
    }
  }

  // ---------------------------------------------------------- difference arrays

  function Prefix(s: seq<int>, x: nat): int
    requires x < |s|
  {
    s[x] + if x == 0 then 0 else Prefix(s, x - 1)
  }

  lemma {:induction false} PrefixAfterAdd(s: seq<int>, i: nat, d: int, x: nat)
    requires i < |s| && x < |s|
    ensures Prefix(s[i := s[i] + d], x) == Prefix(s, x) + if i <= x then d else 0
  {
    if x > 0 {
      PrefixAfterAdd(s, i, d, x - 1);
    }
  }

  /** Summed from the left, the array gives the direct counts. */
  ghost predicate Represents(counts: seq<int>, spans: seq<Span>, width: nat) {
    && |counts| == width + 1
    && forall x :: 0 <= x < width ==> Prefix(counts, x) == Count(spans, x)
  }

  lemma {:induction false} ZeroesRepresentNothing(counts: seq<int>, width: nat)
    requires |counts| == width + 1 && forall x :: 0 <= x <= width ==> counts[x] == 0
    ensures Represents(counts, [], width)
  {
    forall x | 0 <= x < width ensures Prefix(counts, x) == 0 {
      ZeroPrefix(counts, x);
    }
  }

  lemma {:induction false} ZeroPrefix(counts: seq<int>, x: nat)
    requires x < |counts| && forall k :: 0 <= k < |counts| ==> counts[k] == 0
    ensures Prefix(counts, x) == 0
  {
    if x > 0 {
      ZeroPrefix(counts, x - 1);
    }
  }

  /** The integers strictly inside an interval, clipped to the arrays, are `first .. last`. */
  lemma IntegersInside(span: Span, x: int, width: int)
    requires 0 <= x < width
    ensures Inside(span, x) <==> Max(0, span.start.Floor + 1) <= x < Min(width, Ceil(span.end))
  {
  }

  lemma CountOneMore(spans: seq<Span>, span: Span, x: int)
    ensures Count(spans + [span], x) == Count(spans, x) + if Inside(span, x) then 1 else 0
  {
  }

  method Mark(counts: array<int>, start: real, end: real, width: nat, ghost spans: seq<Span>)
    requires counts.Length == width + 1 && Represents(counts[..], spans, width)
    modifies counts
    ensures Represents(counts[..], spans + [Span(start, end)], width)
  {
    ghost var before := counts[..];
    var first := Max(0, start.Floor + 1);
    var last := Min(width, Ceil(end));
    if first < last {
      counts[first] := counts[first] + 1;
      ghost var middle := counts[..];
      assert middle == before[first := before[first] + 1];
      counts[last] := counts[last] - 1;
      assert counts[..] == middle[last := middle[last] + -1];
      forall x | 0 <= x < width
        ensures Prefix(counts[..], x) == Prefix(before, x) + if first <= x < last then 1 else 0
      {
        PrefixAfterAdd(before, first, 1, x);
        PrefixAfterAdd(middle, last, -1, x);
      }
    }
    forall x | 0 <= x < width
      ensures Prefix(counts[..], x) == Count(spans + [Span(start, end)], x)
    {
      IntegersInside(Span(start, end), x, width);
      CountOneMore(spans, Span(start, end), x);
    }
  }

  /** The final loop: each cell becomes the sum of all cells up to it. */
  method Accumulate(counts: array<int>, width: nat, ghost spans: seq<Span>)
    requires counts.Length == width + 1 && Represents(counts[..], spans, width)
    modifies counts
    ensures forall x :: 0 <= x < width ==> counts[x] == Count(spans, x)
  {
    ghost var before := counts[..];
    for x := 1 to width + 1
      invariant forall k :: 0 <= k < x ==> counts[k] == Prefix(before, k)
      invariant forall k :: x <= k <= width ==> counts[k] == before[k]
    {
      counts[x] := counts[x] + counts[x - 1];
    }
  }

  /** The inner loop over a row's words. */
  method MergeWords(row: Row) returns (spans: seq<Span>)
    ensures spans == Spans(row)
  {
    spans := [];
    assert row[..0] == [];
    for i := 0 to |row|
      invariant spans == Spans(row[..i])
    {
      var word := row[i];
      assert row[..i + 1][..i] == row[..i];
      var last := |spans| - 1;
      if spans != [] && word.x0 <= spans[last].end {
        spans := spans[..last] + [Span(spans[last].start, RealMax(spans[last].end, word.x1))];
      } else {
        spans := spans + [Span(word.x0, word.x1)];
      }
    }
    assert row[..|row|] == row;
  }

  method MarkSpans(spans: seq<Span>, crossing: array<int>, width: nat, ghost cross: seq<Span>)
    requires crossing.Length == width + 1 && Represents(crossing[..], cross, width)
    modifies crossing
    ensures Represents(crossing[..], cross + spans, width)
  {
    assert cross + spans[..0] == cross;
    for i := 0 to |spans|
      invariant Represents(crossing[..], cross + spans[..i], width)
    {
      Mark(crossing, spans[i].start, spans[i].end, width, cross + spans[..i]);
      assert cross + spans[..i] + [Span(spans[i].start, spans[i].end)] == cross + spans[..i + 1];
    }
    assert cross + spans[..|spans|] == cross + spans;
  }

  /** Each wide gap is marked in both clear arrays. */
  method MarkGaps(spans: seq<Span>, minimumGutter: real, width: nat, leftClear: array<int>, rightClear: array<int>,
                  ghost left: seq<Span>, ghost right: seq<Span>)
    requires spans != [] && leftClear != rightClear
    requires leftClear.Length == width + 1 && Represents(leftClear[..], left, width)
    requires rightClear.Length == width + 1 && Represents(rightClear[..], right, width)
    modifies leftClear, rightClear
    ensures Represents(leftClear[..], left + WideGaps(spans, minimumGutter), width)
    ensures Represents(rightClear[..], right + WideGaps(spans, minimumGutter), width)
  {
    assert left + WideGaps(spans[..1], minimumGutter) == left;
    assert right + WideGaps(spans[..1], minimumGutter) == right;
    for i := 1 to |spans|
      invariant Represents(leftClear[..], left + WideGaps(spans[..i], minimumGutter), width)
      invariant Represents(rightClear[..], right + WideGaps(spans[..i], minimumGutter), width)
    {
      ghost var gaps := WideGaps(spans[..i], minimumGutter);
      var gap := Span(spans[i - 1].end, spans[i].start);
      WideGapsOneMore(spans, i, minimumGutter);
      if gap.end - gap.start >= minimumGutter {
        Mark(leftClear, gap.start, gap.end, width, left + gaps);
        Mark(rightClear, gap.start, gap.end, width, right + gaps);
        assert left + gaps + [gap] == left + (gaps + [gap]);
        assert right + gaps + [gap] == right + (gaps + [gap]);
      }
    }
    assert spans[..|spans|] == spans;
  }

  lemma WideGapsOneMore(spans: seq<Span>, i: nat, minimumGutter: real)
    requires 1 <= i < |spans|
    ensures WideGaps(spans[..i + 1], minimumGutter) ==
            if spans[i].start - spans[i - 1].end >= minimumGutter
            then WideGaps(spans[..i], minimumGutter) + [Span(spans[i - 1].end, spans[i].start)]
            else WideGaps(spans[..i], minimumGutter)
  {
    assert spans[..i + 1][..i] == spans[..i];
  }

  /** Everything one row adds to the three arrays. */
  method CountRow(row: Row, minimumGutter: real, width: nat,
                  leftClear: array<int>, rightClear: array<int>, crossing: array<int>,
                  ghost left: seq<Span>, ghost right: seq<Span>, ghost cross: seq<Span>)
    requires ValidRow(row)
    requires leftClear != rightClear && rightClear != crossing && crossing != leftClear
    requires leftClear.Length == width + 1 && Represents(leftClear[..], left, width)
    requires rightClear.Length == width + 1 && Represents(rightClear[..], right, width)
    requires crossing.Length == width + 1 && Represents(crossing[..], cross, width)
    modifies leftClear, rightClear, crossing
    ensures Represents(leftClear[..], left + LeftClearMarks(row, minimumGutter, width), width)
    ensures Represents(rightClear[..], right + RightClearMarks(row, minimumGutter), width)
    ensures Represents(crossing[..], cross + Spans(row), width)
  {
    var spans := MergeWords(row);
    SpansOfRow(row);
    MarkSpans(spans, crossing, width, cross);
    var final, opening := Span(spans[|spans| - 1].end, width as real), Span(0.0, spans[0].start);
    Mark(leftClear, final.start, final.end, width, left);
    Mark(rightClear, opening.start, opening.end, width, right);
    MarkGaps(spans, minimumGutter, width, leftClear, rightClear, left + [final], right + [opening]);
    ClearMarks(row, minimumGutter, width, left, right);
  }

  lemma ClearMarks(row: Row, minimumGutter: real, width: int, left: seq<Span>, right: seq<Span>)
    requires Spans(row) != []
    ensures var spans := Spans(row);
            var final, opening := Span(spans[|spans| - 1].end, width as real), Span(0.0, spans[0].start);
            && left + [final] + WideGaps(spans, minimumGutter) == left + LeftClearMarks(row, minimumGutter, width)
            && right + [opening] + WideGaps(spans, minimumGutter) == right + RightClearMarks(row, minimumGutter)
  {
  }

  // ---------------------------------------------------------------- the gutter

  function MinimumProseGutter(pageWidth: real): real {
    RealMax(8.0, pageWidth * 0.015)
  }

  function ArrayWidth(pageWidth: real): int {
    Ceil(pageWidth) + 2
  }

  predicate Candidate(rows: seq<Row>, pageWidth: real, x: int) {
    var gutter := MinimumProseGutter(pageWidth);
    && Ceil(pageWidth * 0.4) <= x <= (pageWidth * 0.6).Floor
    && LeftClear(rows, gutter, ArrayWidth(pageWidth), x) >= 10
    && RightClear(rows, gutter, x) >= 10
    && Crossing(rows, x) <= Max(3, |rows| / 5)
  }

  function Score(rows: seq<Row>, pageWidth: real, x: int): int {
    var gutter := MinimumProseGutter(pageWidth);
    LeftClear(rows, gutter, ArrayWidth(pageWidth), x) + RightClear(rows, gutter, x) - Crossing(rows, x)
  }

  ghost predicate Best(rows: seq<Row>, pageWidth: real, x: int) {
    && Candidate(rows, pageWidth, x)
    && forall y :: Candidate(rows, pageWidth, y) ==> Score(rows, pageWidth, y) <= Score(rows, pageWidth, x)
  }

  predicate Searchable(rows: seq<Row>, pageWidth: real) {
    |rows| >= 12 && 0.0 < pageWidth <= MAX_PAGE_WIDTH
  }

  method Zeroes(width: nat) returns (counts: array<int>)
    ensures fresh(counts) && counts.Length == width + 1 && Represents(counts[..], [], width)
  {
    counts := new int[width + 1](_ => 0);
    ZeroesRepresentNothing(counts[..], width);
  }

  lemma AllMarksOneMore(rows: seq<Row>, i: nat, marks: Row -> seq<Span>)
    requires i < |rows|
    ensures AllMarks(rows[..i + 1], marks) == AllMarks(rows[..i], marks) + marks(rows[i])
  {
    assert rows[..i + 1][..i] == rows[..i];
  }

  /** The outer loop, for given marks of each row; the arrays end up representing all of them. */
  method CountRows(rows: seq<Row>, gutter: real, width: nat,
                   leftClear: array<int>, rightClear: array<int>, crossing: array<int>,
                   ghost left: Row -> seq<Span>, ghost right: Row -> seq<Span>, ghost cross: Row -> seq<Span>)
    requires forall i :: 0 <= i < |rows| ==> ValidRow(rows[i])
    requires forall r :: left(r) == LeftClearMarks(r, gutter, width)
    requires forall r :: right(r) == RightClearMarks(r, gutter)
    requires forall r :: cross(r) == Spans(r)
    requires leftClear != rightClear && rightClear != crossing && crossing != leftClear
    requires leftClear.Length == width + 1 && Represents(leftClear[..], [], width)
    requires rightClear.Length == width + 1 && Represents(rightClear[..], [], width)
    requires crossing.Length == width + 1 && Represents(crossing[..], [], width)
    modifies leftClear, rightClear, crossing
    ensures Represents(leftClear[..], AllMarks(rows, left), width)
    ensures Represents(rightClear[..], AllMarks(rows, right), width)
    ensures Represents(crossing[..], AllMarks(rows, cross), width)
  {
    assert rows[..0] == [];
    for i := 0 to |rows|
      invariant Represents(leftClear[..], AllMarks(rows[..i], left), width)
      invariant Represents(rightClear[..], AllMarks(rows[..i], right), width)
      invariant Represents(crossing[..], AllMarks(rows[..i], cross), width)
    {
      AllMarksOneMore(rows, i, left);
      AllMarksOneMore(rows, i, right);
      AllMarksOneMore(rows, i, cross);
      CountRow(rows[i], gutter, width, leftClear, rightClear, crossing,
        AllMarks(rows[..i], left), AllMarks(rows[..i], right), AllMarks(rows[..i], cross));
    }
    assert rows[..|rows|] == rows;
  }

  /** Fill the arrays for all rows and sum them: each cell is the direct count. */
  method CountAll(rows: seq<Row>, pageWidth: real)
    returns (leftClear: array<int>, rightClear: array<int>, crossing: array<int>)
    requires Searchable(rows, pageWidth) && forall i :: 0 <= i < |rows| ==> ValidRow(rows[i])
    ensures leftClear.Length == rightClear.Length == crossing.Length == ArrayWidth(pageWidth) + 1
    ensures forall x :: 0 <= x < ArrayWidth(pageWidth) ==>
              && crossing[x] == Crossing(rows, x)
              && leftClear[x] == LeftClear(rows, MinimumProseGutter(pageWidth), ArrayWidth(pageWidth), x)
              && rightClear[x] == RightClear(rows, MinimumProseGutter(pageWidth), x)
  {
    var gutter := MinimumProseGutter(pageWidth);
    var width := ArrayWidth(pageWidth);
    ghost var cross, left, right :=
      (r: Row) => Spans(r), (r: Row) => LeftClearMarks(r, gutter, width), (r: Row) => RightClearMarks(r, gutter);
    leftClear := Zeroes(width);
    rightClear := Zeroes(width);
    crossing := Zeroes(width);
    CountRows(rows, gutter, width, leftClear, rightClear, crossing, left, right, cross);
    Accumulate(leftClear, width, AllMarks(rows, left));
    Accumulate(rightClear, width, AllMarks(rows, right));
    Accumulate(crossing, width, AllMarks(rows, cross));
  }

  /** The x positions with the best score among the candidates, first and last. */
  method BestCandidates(rows: seq<Row>, pageWidth: real) returns (found: Option<(int, int)>)
    requires Searchable(rows, pageWidth) && forall i :: 0 <= i < |rows| ==> ValidRow(rows[i])
    ensures found.None? ==> forall x :: !Candidate(rows, pageWidth, x)
    ensures found.Some? ==>
              && Best(rows, pageWidth, found.value.0) && Best(rows, pageWidth, found.value.1)
              && forall x :: Best(rows, pageWidth, x) ==> found.value.0 <= x <= found.value.1
  {
    var leftClear, rightClear, crossing := CountAll(rows, pageWidth);
    var limit := Max(3, |rows| / 5);
    var from, until := Ceil(pageWidth * 0.4), (pageWidth * 0.6).Floor + 1;
    var best: Option<(int, int, int)> := None;
    var x := from;
    while x < until
      invariant from <= x && (x <= until || x == from)
      invariant best.None? ==> forall y :: y < x ==> !Candidate(rows, pageWidth, y)
      invariant best.Some? ==>
        && from <= best.value.0 <= best.value.1 < x
        && Candidate(rows, pageWidth, best.value.0) && Candidate(rows, pageWidth, best.value.1)
        && Score(rows, pageWidth, best.value.0) == best.value.2
        && Score(rows, pageWidth, best.value.1) == best.value.2
        && (forall y :: y < x && Candidate(rows, pageWidth, y) ==>
              && Score(rows, pageWidth, y) <= best.value.2
              && (Score(rows, pageWidth, y) == best.value.2 ==> best.value.0 <= y <= best.value.1))
    {
      if leftClear[x] >= 10 && rightClear[x] >= 10 && crossing[x] <= limit {
        assert Candidate(rows, pageWidth, x);
        var score := leftClear[x] + rightClear[x] - crossing[x];
        if best.None? || score > best.value.2 {
          best := Some((x, x, score));
        } else if score == best.value.2 {
          best := Some((best.value.0, x, score));
        }
      } else {
        assert !Candidate(rows, pageWidth, x);
      }
      x := x + 1;
    }
    found := if best.Some? then Some((best.value.0, best.value.1)) else None;
  }

  /**
   `_prose_gutter_split`. `justified` stands for the final check that both sides
   read as justified prose.
   */
  method FindGutter(rows: seq<Row>, pageWidth: real, justified: real -> bool) returns (split: Option<real>)
    requires forall i :: 0 <= i < |rows| ==> ValidRow(rows[i])
    ensures IsGutter(rows, pageWidth, justified, split)
  {
    if !Searchable(rows, pageWidth) {
      return None;
    }
    var found := BestCandidates(rows, pageWidth);
    if found.None? {
      return None;
    }
    var (first, last) := found.value;
    assert Extremes(rows, pageWidth, first, last);
    assert Best(rows, pageWidth, first);
    var middle := (first + last) as real / 2.0;
    split := if justified(middle) then Some(middle) else None;
  }

  /** The middle of the best-scoring positions, if there are any and both sides pass the prose check there. */
  ghost predicate IsGutter(rows: seq<Row>, pageWidth: real, justified: real -> bool, split: Option<real>) {
    && (split.None? <==>
          || !Searchable(rows, pageWidth)
          || (forall x :: !Candidate(rows, pageWidth, x))
          || (exists first, last :: Extremes(rows, pageWidth, first, last)
                && !justified((first + last) as real / 2.0)))
    && (split.Some? ==>
          exists first, last :: Extremes(rows, pageWidth, first, last)
            && split.value == (first + last) as real / 2.0
            && pageWidth * 0.4 <= split.value <= pageWidth * 0.6)
  }

  ghost predicate Extremes(rows: seq<Row>, pageWidth: real, first: int, last: int) {
    && Best(rows, pageWidth, first) && Best(rows, pageWidth, last)
    && forall x :: Best(rows, pageWidth, x) ==> first <= x <= last
  }
}
