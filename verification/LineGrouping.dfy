/**
 From words to lines in reading order: rows that span the columns stay where they
 are and cut the page into segments; each segment reads its left column first.
 */
module LineGrouping {
  import opened Base
  import opened PageWords
  import G = ProseGutter

  /** How the page is split: the x of the gutter and what tells a spanning row from two columns. */
  datatype Split = Split(x: real, minimumGutter: real, bodySize: real)

  function LeftOf(row: Row, x: real): Row {
    if row == [] then []
    else (if row[0].x0 <= x then [row[0]] else []) + LeftOf(row[1..], x)
  }

  function RightOf(row: Row, x: real): Row {
    if row == [] then []
    else (if row[0].x0 > x then [row[0]] else []) + RightOf(row[1..], x)
  }

  function MinX0(row: Row): real
    requires row != []
  {
    if |row| == 1 then row[0].x0 else RealMin(row[0].x0, MinX0(row[1..]))
  }

  function MaxX1(row: Row): real
    requires row != []
  {
    if |row| == 1 then row[0].x1 else RealMax(row[0].x1, MaxX1(row[1..]))
  }

  function MaxFont(row: Row): real
    requires row != []
  {
    if |row| == 1 then row[0].fontSize else RealMax(row[0].fontSize, MaxFont(row[1..]))
  }

  predicate Spanning(row: Row, s: Split) {
    var left, right := LeftOf(row, s.x), RightOf(row, s.x);
    || (exists k :: 0 <= k < |row| && row[k].x0 < s.x < row[k].x1)
    || (left != [] && right != [] && MinX0(right) - MaxX1(left) < s.minimumGutter)
    || (left != [] && right != [] && |row| <= 16 && MaxFont(row) >= s.bodySize * 1.2)
  }

  function AsPart(row: Row): seq<Row> {
    if row != [] then [row] else []
  }

  /** The nonempty column parts of some rows, in row order. */
  function LeftParts(segment: seq<Row>, x: real): seq<Row> {
    if segment == [] then []
    else
      var last := |segment| - 1;
      LeftParts(segment[..last], x) + AsPart(LeftOf(segment[last], x))
  }

  function RightParts(segment: seq<Row>, x: real): seq<Row> {
    if segment == [] then []
    else
      var last := |segment| - 1;
      RightParts(segment[..last], x) + AsPart(RightOf(segment[last], x))
  }

  /** A segment with text in one column only keeps its rows; with both, left comes whole before right. */
  function Flushed(segment: seq<Row>, x: real): seq<Row> {
    var left, right := LeftParts(segment, x), RightParts(segment, x);
    if left == [] || right == [] then segment else left + right
  }

  /** Line groups of the remaining rows, given the segment collected so far. */
  function Grouped(rows: seq<Row>, segment: seq<Row>, s: Split): seq<Row>
    decreases |rows|
  {
    if rows == [] then Flushed(segment, s.x)
    else if Spanning(rows[0], s) then Flushed(segment, s.x) + [rows[0]] + Grouped(rows[1..], [], s)
    else Grouped(rows[1..], segment + [rows[0]], s)
  }

  /** `flush_segment`: two passes build the columns row by row. */
  method FlushSegment(segment: seq<Row>, x: real) returns (lines: seq<Row>)
    ensures lines == Flushed(segment, x)
  {
    var leftRows: seq<Row>, rightRows: seq<Row> := [], [];
    assert segment[..0] == [];
    for i := 0 to |segment|
      invariant leftRows == LeftParts(segment[..i], x)
      invariant rightRows == RightParts(segment[..i], x)
    {
      assert segment[..i + 1][..i] == segment[..i];
      var left, right := LeftOf(segment[i], x), RightOf(segment[i], x);
      if left != [] {
        leftRows := leftRows + [left];
      }
      if right != [] {
        rightRows := rightRows + [right];
      }
    }
    assert segment[..|segment|] == segment;
    lines := if leftRows == [] || rightRows == [] then segment else leftRows + rightRows;
  }

  /** The second half of `_group_lines`, once a split is known. */
  method GroupRows(rows: seq<Row>, s: Split) returns (lines: seq<Row>)
    ensures lines == Grouped(rows, [], s)
  {
    lines := [];
    var segment: seq<Row> := [];
    assert rows[0..] == rows;
    for i := 0 to |rows|
      invariant lines + Grouped(rows[i..], segment, s) == Grouped(rows, [], s)
    {
      var row := rows[i];
      assert rows[i..][1..] == rows[i + 1..];
      if Spanning(row, s) {
        var flushed := FlushSegment(segment, s.x);
        assert lines + (flushed + [row] + Grouped(rows[i + 1..], [], s))
            == lines + flushed + [row] + Grouped(rows[i + 1..], [], s);
        lines := lines + flushed + [row];
        segment := [];
      } else {
        segment := segment + [row];
      }
    }
    var flushed := FlushSegment(segment, s.x);
    assert rows[|rows|..] == [];
    lines := lines + flushed;
  }

  /**
   How the page is split: by the wide-column search if that answered, else at the
   narrow gutter between justified columns, and not at all on a page of unknown width.
   */
  ghost predicate IsSplit(rows: seq<Row>, pageWidth: Option<real>, bodySize: real, columnSplit: Option<real>,
                          justified: real -> bool, split: Option<Split>) {
    match split
    case None =>
      pageWidth.None? || (columnSplit.None? && G.IsGutter(rows, pageWidth.value, justified, None))
    case Some(s) =>
      && pageWidth.Some? && s.bodySize == bodySize
      && if columnSplit.Some? then s.x == columnSplit.value && s.minimumGutter == RealMax(36.0, pageWidth.value * 0.06)
         else G.IsGutter(rows, pageWidth.value, justified, Some(s.x))
              && s.minimumGutter == G.MinimumProseGutter(pageWidth.value)
  }

  /**
   `_group_lines`. `columnSplit` is the answer of the wide-column search, which is
   tried first; `justified` the prose check of the narrow one. The result is the
   page's rows, grouped at the split if there is one.
   */
  method GroupLines(words: seq<Word>, pageWidth: Option<real>, bodySize: real, columnSplit: Option<real>,
                    justified: real -> bool)
    returns (lines: seq<Row>, ghost rows: seq<Row>, ghost split: Option<Split>)
    requires ValidWords(words)
    ensures AreRows(words, rows) && RunDown(rows)
    ensures IsSplit(rows, pageWidth, bodySize, columnSplit, justified, split)
    ensures lines == if split.None? then rows else Grouped(rows, [], split.value)
    ensures Bag(lines) == multiset(words)
    ensures Inhabited(lines)
  {
    lines := WordRows(words);
    rows, split := lines, None;
    WordRowsRunDown(words, rows);
    if pageWidth.None? {
      return;
    }
    var x, gutter := columnSplit, RealMax(36.0, pageWidth.value * 0.06);
    if x.None? {
      x := G.FindGutter(lines, pageWidth.value, justified);
      gutter := G.MinimumProseGutter(pageWidth.value);
    }
    if x.None? {
      return;
    }
    var s := Split(x.value, gutter, bodySize);
    split := Some(s);
    lines := GroupRows(lines, s);
    GroupingConserves(rows, [], s);
    GroupsAreInhabited(rows, [], s);
  }

  // -------------------------------------------------------------- conservation

  lemma {:induction false} ColumnsPartition(row: Row, x: real)
    ensures multiset(LeftOf(row, x)) + multiset(RightOf(row, x)) == multiset(row)
  {
    if row != [] {
      assert row == [row[0]] + row[1..];
      ColumnsPartition(row[1..], x);
    }
  }

  ghost predicate Inhabited(rows: seq<Row>) {
    forall i :: 0 <= i < |rows| ==> rows[i] != []
  }

  lemma {:induction false} PartsAreInhabited(segment: seq<Row>, x: real)
    ensures Inhabited(LeftParts(segment, x)) && Inhabited(RightParts(segment, x))
  {
    if segment != [] {
      PartsAreInhabited(segment[..|segment| - 1], x);
    }
  }

  lemma LastPart(segment: seq<Row>, x: real)
    requires segment != []
    ensures var rest, row := segment[..|segment| - 1], segment[|segment| - 1];
            && Bag(LeftParts(segment, x)) == Bag(LeftParts(rest, x)) + multiset(LeftOf(row, x))
            && Bag(RightParts(segment, x)) == Bag(RightParts(rest, x)) + multiset(RightOf(row, x))
  {
    var rest, row := segment[..|segment| - 1], segment[|segment| - 1];
    AppendPart(LeftParts(rest, x), LeftOf(row, x));
    AppendPart(RightParts(rest, x), RightOf(row, x));
  }

  lemma LastRow(segment: seq<Row>)
    requires segment != []
    ensures Bag(segment) == Bag(segment[..|segment| - 1]) + multiset(segment[|segment| - 1])
  {
    var rest, row := segment[..|segment| - 1], segment[|segment| - 1];
    assert segment == rest + [row];
    BagConcat(rest, [row]);
    BagOfOne(row);
  }

  lemma {:induction false} PartsConserve(segment: seq<Row>, x: real)
    ensures Bag(LeftParts(segment, x)) + Bag(RightParts(segment, x)) == Bag(segment)
  {
    if segment != [] {
      var rest, row := segment[..|segment| - 1], segment[|segment| - 1];
      PartsConserve(rest, x);
      ColumnsPartition(row, x);
      LastPart(segment, x);
      LastRow(segment);
      Regroup(Bag(LeftParts(rest, x)), Bag(RightParts(rest, x)),
              multiset(LeftOf(row, x)), multiset(RightOf(row, x)));
    }
  }

  lemma Regroup<T>(a: multiset<T>, b: multiset<T>, c: multiset<T>, d: multiset<T>)
    ensures (a + c) + (b + d) == (a + b) + (c + d)
  {
  }

  lemma RowFirst(rows: seq<Row>)
    requires rows != []
    ensures Bag(rows) == multiset(rows[0]) + Bag(rows[1..])
  {
  }

  lemma AppendPart(front: seq<Row>, part: Row)
    ensures Bag(front + AsPart(part)) == Bag(front) + multiset(part)
  {
    if part != [] {
      BagConcat(front, [part]);
      BagOfOne(part);
    } else {
      assert front + [] == front;
    }
  }

  lemma FlushConserves(segment: seq<Row>, x: real)
    ensures Bag(Flushed(segment, x)) == Bag(segment)
    ensures Inhabited(segment) ==> Inhabited(Flushed(segment, x))
  {
    PartsConserve(segment, x);
    PartsAreInhabited(segment, x);
    BagConcat(LeftParts(segment, x), RightParts(segment, x));
  }

  /** Every word of the rows is in exactly one line group. */
  lemma {:induction false} GroupingConserves(rows: seq<Row>, segment: seq<Row>, s: Split)
    ensures Bag(Grouped(rows, segment, s)) == Bag(segment) + Bag(rows)
    decreases |rows|
  {
    FlushConserves(segment, s.x);
    if rows != [] {
      var row, rest := rows[0], rows[1..];
      RowFirst(rows);
      if Spanning(row, s) {
        GroupingConserves(rest, [], s);
        BagConcat(Flushed(segment, s.x) + [row], Grouped(rest, [], s));
        BagConcat(Flushed(segment, s.x), [row]);
        BagOfOne(row);
      } else {
        GroupingConserves(rest, segment + [row], s);
        BagConcat(segment, [row]);
        BagOfOne(row);
      }
    }
  }

  lemma {:induction false} GroupsAreInhabited(rows: seq<Row>, segment: seq<Row>, s: Split)
    requires Inhabited(rows) && Inhabited(segment)
    ensures Inhabited(Grouped(rows, segment, s))
    decreases |rows|
  {
    FlushConserves(segment, s.x);
    if rows != [] {
      if Spanning(rows[0], s) {
        GroupsAreInhabited(rows[1..], [], s);
      } else {
        GroupsAreInhabited(rows[1..], segment + [rows[0]], s);
      }
    }
  }

  // ------------------------------------------------------------- reading order

  ghost predicate NoneSpanning(rows: seq<Row>, s: Split) {
    forall i :: 0 <= i < |rows| ==> !Spanning(rows[i], s)
  }

  /** Rows between two spanning rows form one segment, flushed as a whole. */
  lemma {:induction false} SegmentIsFlushedWhole(rows: seq<Row>, segment: seq<Row>, s: Split)
    requires NoneSpanning(rows, s)
    ensures Grouped(rows, segment, s) == Flushed(segment + rows, s.x)
    decreases |rows|
  {
    if rows == [] {
      assert segment + rows == segment;
    } else {
      SegmentIsFlushedWhole(rows[1..], segment + [rows[0]], s);
      assert segment + [rows[0]] + rows[1..] == segment + rows;
    }
  }

  lemma {:induction false} BarrierBehindSegment(
    above: seq<Row>, segment: seq<Row>, row: Row, below: seq<Row>, s: Split)
    requires Spanning(row, s)
    ensures Grouped(above + [row] + below, segment, s)
         == Grouped(above, segment, s) + [row] + Grouped(below, [], s)
    decreases |above|
  {
    var rows := above + [row] + below;
    if above == [] {
      assert rows[0] == row && rows[1..] == below;
    } else {
      assert rows[0] == above[0] && rows[1..] == above[1..] + [row] + below;
      if Spanning(above[0], s) {
        BarrierBehindSegment(above[1..], [], row, below, s);
        var head := Flushed(segment, s.x) + [above[0]];
        assert head + (Grouped(above[1..], [], s) + [row] + Grouped(below, [], s))
            == head + Grouped(above[1..], [], s) + [row] + Grouped(below, [], s);
      } else {
        BarrierBehindSegment(above[1..], segment + [above[0]], row, below, s);
      }
    }
  }

  /**
   Text never moves across a spanning row: the page groups as the part above it,
   the row itself as one line, and the part below it.
   */
  lemma SpanningRowIsABarrier(above: seq<Row>, row: Row, below: seq<Row>, s: Split)
    requires Spanning(row, s)
    ensures Grouped(above + [row] + below, [], s)
         == Grouped(above, [], s) + [row] + Grouped(below, [], s)
  {
    BarrierBehindSegment(above, [], row, below, s);
  }

  lemma {:induction false} PartsAreOnOneSide(segment: seq<Row>, x: real)
    ensures forall i, k :: 0 <= i < |LeftParts(segment, x)| && 0 <= k < |LeftParts(segment, x)[i]| ==>
              LeftParts(segment, x)[i][k].x0 <= x
    ensures forall i, k :: 0 <= i < |RightParts(segment, x)| && 0 <= k < |RightParts(segment, x)[i]| ==>
              RightParts(segment, x)[i][k].x0 > x
  {
    if segment != [] {
      SidesOfRow(segment[|segment| - 1], x);
      PartsAreOnOneSide(segment[..|segment| - 1], x);
    }
  }

  lemma {:induction false} SidesOfRow(row: Row, x: real)
    ensures forall k :: 0 <= k < |LeftOf(row, x)| ==> LeftOf(row, x)[k].x0 <= x
    ensures forall k :: 0 <= k < |RightOf(row, x)| ==> RightOf(row, x)[k].x0 > x
  {
    if row != [] {
      SidesOfRow(row[1..], x);
    }
  }

  lemma ColumnsInOrder(left: seq<Row>, right: seq<Row>, x: real, i: nat, j: nat)
    requires i < |left + right| && j < |left + right|
    requires (left + right)[i] != [] && (left + right)[j] != []
    requires forall i, k :: 0 <= i < |left| && 0 <= k < |left[i]| ==> left[i][k].x0 <= x
    requires forall i, k :: 0 <= i < |right| && 0 <= k < |right[i]| ==> right[i][k].x0 > x
    requires (left + right)[i][0].x0 <= x < (left + right)[j][0].x0
    ensures i < |left| <= j
  {
  }

  /** Within a segment that has both columns, no line of the right column comes before a line of the left. */
  lemma LeftColumnReadsFirst(segment: seq<Row>, s: Split, i: nat, j: nat)
    requires NoneSpanning(segment, s)
    requires LeftParts(segment, s.x) != [] && RightParts(segment, s.x) != []
    requires i < |Grouped(segment, [], s)| && j < |Grouped(segment, [], s)|
    requires Grouped(segment, [], s)[i] != [] && Grouped(segment, [], s)[j] != []
    requires Grouped(segment, [], s)[i][0].x0 <= s.x < Grouped(segment, [], s)[j][0].x0
    ensures i < j
  {
    SegmentIsFlushedWhole(segment, [], s);
    assert [] + segment == segment;
    PartsAreOnOneSide(segment, s.x);
    ColumnsInOrder(LeftParts(segment, s.x), RightParts(segment, s.x), s.x, i, j);
  }

  // ------------------------------------------------------------- what spans the columns

  /**
   `part` is the words of `row` at the positions `at`, in row order: from position `i`
   on, those that start up to x, or those that start beyond.
   */
  ghost predicate Keeps(row: Row, i: nat, part: Row, at: seq<int>, x: real, upTo: bool) {
    && |at| == |part|
    && (forall k :: 0 <= k < |at| ==> i <= at[k] < |row| && part[k] == row[at[k]])
    && (forall j, k :: 0 <= j < k < |at| ==> at[j] < at[k])
    && forall m :: i <= m < |row| ==> (m in at <==> (row[m].x0 <= x <==> upTo))
  }

  lemma KeepsOneMore(row: Row, i: nat, part: Row, at: seq<int>, x: real, upTo: bool)
    requires i < |row| && Keeps(row, i + 1, part, at, x, upTo) && (row[i].x0 <= x <==> upTo)
    ensures Keeps(row, i, [row[i]] + part, [i] + at, x, upTo)
  {
    var more := [i] + at;
    assert forall k :: 1 <= k < |more| ==> more[k] == at[k - 1] && ([row[i]] + part)[k] == part[k - 1];
    forall m | i <= m < |row| ensures m in more <==> (row[m].x0 <= x <==> upTo) {
      assert m in more <==> m == i || m in at;
    }
  }

  lemma SkipsOne(row: Row, i: nat, part: Row, at: seq<int>, x: real, upTo: bool)
    requires i < |row| && Keeps(row, i + 1, part, at, x, upTo) && !(row[i].x0 <= x <==> upTo)
    ensures Keeps(row, i, part, at, x, upTo)
  {
  }

  lemma {:induction false} PartsKeep(row: Row, x: real, i: nat) returns (left: seq<int>, right: seq<int>)
    requires i <= |row|
    ensures Keeps(row, i, LeftOf(row[i..], x), left, x, true)
    ensures Keeps(row, i, RightOf(row[i..], x), right, x, false)
    decreases |row| - i
  {
    left, right := [], [];
    if i < |row| {
      left, right := PartsKeep(row, x, i + 1);
      assert row[i..][1..] == row[i + 1..];
      var l, r := LeftOf(row[i + 1..], x), RightOf(row[i + 1..], x);
      if row[i].x0 <= x {
        KeepsOneMore(row, i, l, left, x, true);
        SkipsOne(row, i, r, right, x, false);
        left := [i] + left;
        assert LeftOf(row[i..], x) == [row[i]] + l && RightOf(row[i..], x) == [] + r == r;
      } else {
        SkipsOne(row, i, l, left, x, true);
        KeepsOneMore(row, i, r, right, x, false);
        right := [i] + right;
        assert LeftOf(row[i..], x) == [] + l == l && RightOf(row[i..], x) == [row[i]] + r;
      }
    }
  }

  /** The parts of a row are exactly its words that start at or before x, and exactly its others, both in row order. */
  lemma RowSplitsInOrder(row: Row, x: real) returns (left: seq<int>, right: seq<int>)
    ensures Keeps(row, 0, LeftOf(row, x), left, x, true)
    ensures Keeps(row, 0, RightOf(row, x), right, x, false)
  {
    left, right := PartsKeep(row, x, 0);
    assert row[0..] == row;
  }

  lemma {:induction false} LeftOfHolds(row: Row, x: real, w: Word)
    ensures w in LeftOf(row, x) <==> w in row && w.x0 <= x
    ensures w in RightOf(row, x) <==> w in row && w.x0 > x
  {
    if row != [] {
      LeftOfHolds(row[1..], x, w);
      assert row == [row[0]] + row[1..];
    }
  }

  lemma {:induction false} MinX0IsLeast(row: Row)
    requires row != []
    ensures forall w :: w in row ==> MinX0(row) <= w.x0
    ensures exists w :: w in row && w.x0 == MinX0(row)
  {
    assert row == [row[0]] + row[1..];
    assert row[0] in row;
    if |row| > 1 {
      MinX0IsLeast(row[1..]);
    }
  }

  lemma {:induction false} MaxX1IsGreatest(row: Row)
    requires row != []
    ensures forall w :: w in row ==> w.x1 <= MaxX1(row)
    ensures exists w :: w in row && w.x1 == MaxX1(row)
  {
    assert row == [row[0]] + row[1..];
    assert row[0] in row;
    if |row| > 1 {
      MaxX1IsGreatest(row[1..]);
    }
  }

  lemma {:induction false} MaxFontIsGreatest(row: Row)
    requires row != []
    ensures forall w :: w in row ==> w.fontSize <= MaxFont(row)
    ensures exists w :: w in row && w.fontSize == MaxFont(row)
  {
    assert row == [row[0]] + row[1..];
    assert row[0] in row;
    if |row| > 1 {
      MaxFontIsGreatest(row[1..]);
    }
  }

  /** Two words, one starting at or before x and one after, with less than a gutter between them. */
  predicate Near(left: Word, right: Word, s: Split) {
    left.x0 <= s.x < right.x0 && right.x0 - left.x1 < s.minimumGutter
  }

  predicate OnBothSides(row: Row, x: real) {
    (exists l :: l in row && l.x0 <= x) && (exists r :: r in row && r.x0 > x)
  }

  /** A word lies across the split, two words come too near, or a short row with both columns is set large. */
  predicate SpansColumns(row: Row, s: Split) {
    || (exists w :: w in row && w.x0 < s.x < w.x1)
    || (exists l, r :: l in row && r in row && Near(l, r, s))
    || (OnBothSides(row, s.x) && |row| <= 16 && exists w :: w in row && w.fontSize >= s.bodySize * 1.2)
  }

  lemma GapMeans(row: Row, s: Split)
    requires LeftOf(row, s.x) != [] && RightOf(row, s.x) != []
    ensures MinX0(RightOf(row, s.x)) - MaxX1(LeftOf(row, s.x)) < s.minimumGutter
       <==> exists l, r :: l in row && r in row && Near(l, r, s)
  {
    var left, right := LeftOf(row, s.x), RightOf(row, s.x);
    MinX0IsLeast(right);
    MaxX1IsGreatest(left);
    forall w ensures (w in left <==> w in row && w.x0 <= s.x) && (w in right <==> w in row && w.x0 > s.x) {
      LeftOfHolds(row, s.x, w);
    }
    var l0 :| l0 in left && l0.x1 == MaxX1(left);
    var r0 :| r0 in right && r0.x0 == MinX0(right);
    if MinX0(right) - MaxX1(left) < s.minimumGutter {
      assert Near(l0, r0, s);
    }
    if l, r :| l in row && r in row && Near(l, r, s) {
      assert l in left && r in right;
    }
  }

  lemma SidesMean(row: Row, x: real)
    ensures LeftOf(row, x) != [] <==> exists l :: l in row && l.x0 <= x
    ensures RightOf(row, x) != [] <==> exists r :: r in row && r.x0 > x
  {
    forall w ensures (w in LeftOf(row, x) <==> w in row && w.x0 <= x) && (w in RightOf(row, x) <==> w in row && w.x0 > x) {
      LeftOfHolds(row, x, w);
    }
    if LeftOf(row, x) != [] {
      assert LeftOf(row, x)[0] in LeftOf(row, x);
    }
    if RightOf(row, x) != [] {
      assert RightOf(row, x)[0] in RightOf(row, x);
    }
  }

  /** The test on a row, word by word. */
  lemma SpanningMeans(row: Row, s: Split)
    ensures Spanning(row, s) <==> SpansColumns(row, s)
  {
    SidesMean(row, s.x);
    if k :| 0 <= k < |row| && row[k].x0 < s.x < row[k].x1 {
      assert row[k] in row;
    }
    if LeftOf(row, s.x) != [] && RightOf(row, s.x) != [] {
      GapMeans(row, s);
      MaxFontIsGreatest(row);
    } else {
      assert !exists l, r :: l in row && r in row && Near(l, r, s);
    }
  }

  // ------------------------------------------------------------- a page as it reads

  /** Lines that run strictly down the page. */
  ghost predicate RunDown(lines: seq<Row>) {
    forall i, j, a, b :: 0 <= i < j < |lines| && a in lines[i] && b in lines[j] ==> a.top < b.top
  }

  /** `left` and then `right`: nonempty lines of one column each, either running down the page, with all words of the segment. */
  ghost predicate ReadsColumns(segment: seq<Row>, left: seq<Row>, right: seq<Row>, x: real) {
    && Inhabited(left) && Inhabited(right) && RunDown(left) && RunDown(right)
    && (forall i, w :: 0 <= i < |left| && w in left[i] ==> w.x0 <= x)
    && (forall i, w :: 0 <= i < |right| && w in right[i] ==> w.x0 > x)
    && Bag(left) + Bag(right) == Bag(segment)
  }

  /** Every word of the lines is in some row and on one side of x. */
  ghost predicate Within(lines: seq<Row>, rows: seq<Row>, x: real, upTo: bool) {
    forall i, w :: 0 <= i < |lines| && w in lines[i] ==> InSomeRow(rows, w) && (w.x0 <= x <==> upTo)
  }

  lemma WithinOneMore(lines: seq<Row>, rows: seq<Row>, row: Row, part: Row, x: real, upTo: bool)
    requires Within(lines, rows, x, upTo) && forall w :: w in part ==> w in row && (w.x0 <= x <==> upTo)
    ensures Within(lines + AsPart(part), rows + [row], x, upTo)
  {
    assert (rows + [row])[|rows|] == row;
    forall w | InSomeRow(rows, w) ensures InSomeRow(rows + [row], w) {
      var k :| 0 <= k < |rows| && w in rows[k];
      assert w in (rows + [row])[k];
    }
  }

  lemma {:induction false} PartsAreWithin(segment: seq<Row>, x: real)
    ensures Within(LeftParts(segment, x), segment, x, true)
    ensures Within(RightParts(segment, x), segment, x, false)
  {
    if segment != [] {
      var last := |segment| - 1;
      var rest, row := segment[..last], segment[last];
      PartsAreWithin(rest, x);
      forall w ensures (w in LeftOf(row, x) <==> w in row && w.x0 <= x) && (w in RightOf(row, x) <==> w in row && w.x0 > x) {
        LeftOfHolds(row, x, w);
      }
      WithinOneMore(LeftParts(rest, x), rest, row, LeftOf(row, x), x, true);
      WithinOneMore(RightParts(rest, x), rest, row, RightOf(row, x), x, false);
      assert segment == rest + [row];
    }
  }

  lemma RowsRunDownTo(segment: seq<Row>, w: Word, v: Word)
    requires RunDown(segment) && segment != []
    requires InSomeRow(segment[..|segment| - 1], w) && v in segment[|segment| - 1]
    ensures w.top < v.top
  {
    var k :| 0 <= k < |segment| - 1 && w in segment[..|segment| - 1][k];
    assert w in segment[k];
  }

  lemma FrontRunsDown(segment: seq<Row>)
    requires RunDown(segment) && segment != []
    ensures RunDown(segment[..|segment| - 1])
  {
  }

  lemma {:induction false} PartsRunDown(segment: seq<Row>, x: real)
    requires RunDown(segment)
    ensures RunDown(LeftParts(segment, x)) && RunDown(RightParts(segment, x))
  {
    if segment != [] {
      var last := |segment| - 1;
      var rest, row := segment[..last], segment[last];
      FrontRunsDown(segment);
      PartsRunDown(rest, x);
      PartsAreWithin(rest, x);
      PartsRunDownTo(segment, LeftParts(rest, x), LeftOf(row, x), x, true);
      PartsRunDownTo(segment, RightParts(rest, x), RightOf(row, x), x, false);
    }
  }

  lemma PartsRunDownTo(segment: seq<Row>, lines: seq<Row>, part: Row, x: real, upTo: bool)
    requires RunDown(segment) && segment != [] && RunDown(lines)
    requires Within(lines, segment[..|segment| - 1], x, upTo)
    requires part == if upTo then LeftOf(segment[|segment| - 1], x) else RightOf(segment[|segment| - 1], x)
    ensures RunDown(lines + AsPart(part))
  {
    var row := segment[|segment| - 1];
    forall i, w, v | 0 <= i < |lines| && w in lines[i] && v in part ensures w.top < v.top {
      LeftOfHolds(row, x, v);
      RowsRunDownTo(segment, w, v);
    }
    OneMoreRunsDown(lines, part);
  }

  lemma OneMoreRunsDown(lines: seq<Row>, part: Row)
    requires RunDown(lines)
    requires forall i, w, v :: 0 <= i < |lines| && w in lines[i] && v in part ==> w.top < v.top
    ensures RunDown(lines + AsPart(part))
  {
  }

  ghost predicate InSomeRow(rows: seq<Row>, w: Word) {
    exists k :: 0 <= k < |rows| && w in rows[k]
  }

  lemma FlushedReadsColumns(segment: seq<Row>, x: real)
    requires RunDown(segment)
    ensures ReadsColumns(segment, LeftParts(segment, x), RightParts(segment, x), x)
  {
    PartsRunDown(segment, x);
    PartsAreWithin(segment, x);
    PartsAreInhabited(segment, x);
    PartsConserve(segment, x);
  }

  lemma InLastOrBefore(segment: seq<Row>, w: Word)
    requires segment != []
    ensures InSomeRow(segment, w) <==> InSomeRow(segment[..|segment| - 1], w) || w in segment[|segment| - 1]
  {
    var rest := segment[..|segment| - 1];
    if k :| 0 <= k < |rest| && w in rest[k] {
      assert w in segment[k];
    }
    if k :| 0 <= k < |segment| && w in segment[k] {
      assert k < |rest| ==> w in rest[k];
    }
  }

  /** Some word of the rows is on this side of x. */
  ghost predicate HasSide(rows: seq<Row>, x: real, upTo: bool) {
    exists w :: InSomeRow(rows, w) && (w.x0 <= x <==> upTo)
  }

  lemma SideInLastOrBefore(segment: seq<Row>, x: real, upTo: bool)
    requires segment != []
    ensures HasSide(segment, x, upTo) <==>
              || HasSide(segment[..|segment| - 1], x, upTo)
              || exists w :: w in segment[|segment| - 1] && (w.x0 <= x <==> upTo)
  {
    forall w ensures InSomeRow(segment, w) <==> InSomeRow(segment[..|segment| - 1], w) || w in segment[|segment| - 1] {
      InLastOrBefore(segment, w);
    }
  }

  lemma {:induction false} PartsThereExactly(segment: seq<Row>, x: real)
    ensures LeftParts(segment, x) != [] <==> HasSide(segment, x, true)
    ensures RightParts(segment, x) != [] <==> HasSide(segment, x, false)
  {
    if segment != [] {
      var last := |segment| - 1;
      PartsThereExactly(segment[..last], x);
      SidesMean(segment[last], x);
      SideInLastOrBefore(segment, x, true);
      SideInLastOrBefore(segment, x, false);
    }
  }

  lemma WordRowsRunDown(words: seq<Word>, rows: seq<Row>)
    requires AreRows(words, rows)
    ensures RunDown(rows)
  {
    forall i, j, a, b | 0 <= i < j < |rows| && a in rows[i] && b in rows[j] ensures a.top < b.top {
      var k :| 0 <= k < |rows[i]| && rows[i][k] == a;
      var m :| 0 <= m < |rows[j]| && rows[j][m] == b;
    }
  }

  lemma MiddleRunsDown(rows: seq<Row>, segment: seq<Row>, from: nat)
    requires RunDown(rows) && from + |segment| <= |rows|
    requires forall i :: 0 <= i < |segment| ==> rows[from + i] == segment[i]
    ensures RunDown(segment)
  {
  }

  /** Words of both columns occur. */
  ghost predicate HasBoth(segment: seq<Row>, x: real) {
    HasSide(segment, x, true) && HasSide(segment, x, false)
  }

  /** A segment read by columns if it has both, and as it is otherwise. */
  ghost predicate ReadsSegment(segment: seq<Row>, lines: seq<Row>, x: real) {
    if HasBoth(segment, x) then exists left, right :: ReadsColumns(segment, left, right, x) && lines == left + right
    else lines == segment
  }

  lemma FlushedReads(segment: seq<Row>, x: real)
    requires RunDown(segment)
    ensures ReadsSegment(segment, Flushed(segment, x), x)
  {
    PartsThereExactly(segment, x);
    FlushedReadsColumns(segment, x);
  }

  lemma BetweenBarriers(above: seq<Row>, segment: seq<Row>, below: seq<Row>, top: Row, bottom: Row, s: Split)
    requires Spanning(top, s) && Spanning(bottom, s) && NoneSpanning(segment, s)
    ensures Grouped(above + [top] + (segment + [bottom] + below), [], s)
         == Grouped(above, [], s) + [top] + (Flushed(segment, s.x) + [bottom] + Grouped(below, [], s))
  {
    SpanningRowIsABarrier(above, top, segment + [bottom] + below, s);
    SpanningRowIsABarrier(segment, bottom, below, s);
    SegmentIsFlushedWhole(segment, [], s);
    assert [] + segment == segment;
  }

  /**
   What a reader of the page gets. Nothing moves across a row that spans the columns;
   the rows between two such are read as they are if they have words of one column
   only, and else the left column whole and then the right, each down the page.
   */
  lemma PageReadsInOrder(
    rows: seq<Row>, above: seq<Row>, segment: seq<Row>, below: seq<Row>, top: Row, bottom: Row, s: Split)
    returns (middle: seq<Row>)
    requires RunDown(rows) && rows == above + [top] + (segment + [bottom] + below)
    requires SpansColumns(top, s) && SpansColumns(bottom, s)
    requires forall i :: 0 <= i < |segment| ==> !SpansColumns(segment[i], s)
    ensures ReadsSegment(segment, middle, s.x)
    ensures Grouped(rows, [], s) == Grouped(above, [], s) + [top] + (middle + [bottom] + Grouped(below, [], s))
  {
    SpanningMeans(top, s);
    SpanningMeans(bottom, s);
    NoneSpansMeans(segment, s);
    BetweenBarriers(above, segment, below, top, bottom, s);
    middle := Flushed(segment, s.x);
    Reassociate(above + [top], segment, [bottom], below);
    SegmentReads(rows, above + [top], segment, [bottom] + below, s.x);
  }

  lemma Reassociate(a: seq<Row>, b: seq<Row>, c: seq<Row>, d: seq<Row>)
    ensures a + (b + c + d) == a + b + (c + d)
  {
  }

  lemma SegmentReads(rows: seq<Row>, before: seq<Row>, segment: seq<Row>, after: seq<Row>, x: real)
    requires RunDown(rows) && rows == before + segment + after
    ensures ReadsSegment(segment, Flushed(segment, x), x)
  {
    MiddleRunsDown(rows, segment, |before|);
    FlushedReads(segment, x);
  }

  lemma NoneSpansMeans(segment: seq<Row>, s: Split)
    ensures NoneSpanning(segment, s) <==> forall i :: 0 <= i < |segment| ==> !SpansColumns(segment[i], s)
  {
    forall i | 0 <= i < |segment| ensures Spanning(segment[i], s) <==> SpansColumns(segment[i], s) {
      SpanningMeans(segment[i], s);
    }
  }

  /** A page on which no row spans is one such segment. */
  lemma UnspannedPageReads(rows: seq<Row>, s: Split)
    requires RunDown(rows) && forall i :: 0 <= i < |rows| ==> !SpansColumns(rows[i], s)
    ensures ReadsSegment(rows, Grouped(rows, [], s), s.x)
  {
    NoneSpansMeans(rows, s);
    SegmentIsFlushedWhole(rows, [], s);
    assert [] + rows == rows;
    FlushedReads(rows, s.x);
  }
}
