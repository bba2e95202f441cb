/** Positioned words of one page and their gathering into rows. */
module PageWords {

  const ROW_TOLERANCE: real := 3.0

  /** Extraction has already rejected boxes with `x1 < x0`. */
  datatype Word = Word(
    text: string, x0: real, top: real, x1: real, bottom: real, fontSize: real, fontName: string)

  type Row = seq<Word>

  function Flatten(rows: seq<Row>): seq<Word> {
    if rows == [] then [] else rows[0] + Flatten(rows[1..])
  }

  /** The words of some rows, with multiplicity and without order. */
  function Bag(rows: seq<Row>): multiset<Word> {
    multiset(Flatten(rows))
  }

  lemma {:induction false} FlattenConcat(a: seq<Row>, b: seq<Row>)
    ensures Flatten(a + b) == Flatten(a) + Flatten(b)
  {
    if a == [] {
      assert a + b == b;
    } else {
      assert (a + b)[1..] == a[1..] + b;
      FlattenConcat(a[1..], b);
    }
  }

  lemma BagConcat(a: seq<Row>, b: seq<Row>)
    ensures Bag(a + b) == Bag(a) + Bag(b)
  {
    FlattenConcat(a, b);
  }

  lemma BagOfOne(row: Row)
    ensures Bag([row]) == multiset(row)
  {
    assert Flatten([row]) == row + Flatten([]) == row;
  }

  // ------------------------------------------------------------------ sorting

  /** Keys of the two orders used: (top, x0) down the page, and x0 alone along a row. */
  type Key = Word -> (real, real)

  const Reading: Key := (w: Word) => (w.top, w.x0)
  const LeftToRight: Key := (w: Word) => (w.x0, 0.0)

  predicate Le(a: (real, real), b: (real, real)) {
    a.0 < b.0 || (a.0 == b.0 && a.1 <= b.1)
  }

  ghost predicate SortedBy(words: seq<Word>, key: Key) {
    forall i, j :: 0 <= i < j < |words| ==> Le(key(words[i]), key(words[j]))
  }

  /** Inserting after everything not greater keeps equal words in their order, as Python's sort does. */
  function Insert(words: seq<Word>, w: Word, key: Key): seq<Word> {
    if words == [] then [w]
    else if Le(key(words[|words| - 1]), key(w)) then words + [w]
    else Insert(words[..|words| - 1], w, key) + [words[|words| - 1]]
  }

  function Sort(words: seq<Word>, key: Key): seq<Word> {
    if words == [] then [] else Insert(Sort(words[..|words| - 1], key), words[|words| - 1], key)
  }

  lemma {:induction false} InsertKeeps(words: seq<Word>, w: Word, key: Key)
    ensures multiset(Insert(words, w, key)) == multiset(words) + multiset{w}
    ensures |Insert(words, w, key)| == |words| + 1
  {
    if words != [] && !Le(key(words[|words| - 1]), key(w)) {
      var front, last := words[..|words| - 1], words[|words| - 1];
      assert words == front + [last];
      InsertKeeps(front, w, key);
    }
  }

  lemma {:induction false} InsertSorts(words: seq<Word>, w: Word, key: Key)
    requires SortedBy(words, key)
    ensures SortedBy(Insert(words, w, key), key)
  {
    if words != [] && !Le(key(words[|words| - 1]), key(w)) {
      var front, last := words[..|words| - 1], words[|words| - 1];
      InsertSorts(front, w, key);
      InsertKeeps(front, w, key);
      var rest := Insert(front, w, key);
      forall i | 0 <= i < |rest| ensures Le(key(rest[i]), key(last)) {
        assert rest[i] in multiset(rest);
        if rest[i] != w {
          assert rest[i] in multiset(front);
          var k :| 0 <= k < |front| && front[k] == rest[i];
          assert words[k] == rest[i];
        }
      }
    }
  }

  lemma {:induction false} SortSorts(words: seq<Word>, key: Key)
    ensures SortedBy(Sort(words, key), key)
    ensures multiset(Sort(words, key)) == multiset(words)
    ensures |Sort(words, key)| == |words|
  {
    if words != [] {
      var front, last := words[..|words| - 1], words[|words| - 1];
      assert words == front + [last];
      SortSorts(front, key);
      InsertSorts(Sort(front, key), last, key);
      InsertKeeps(Sort(front, key), last, key);
    }
  }

  // --------------------------------------------------------------------- rows

  /** A word starts a new row when it lies more than three points from the first word of the current one. */
  predicate StartsRow(current: Row, w: Word)
    requires current != []
  {
    var gap := w.top - current[0].top;
    gap > ROW_TOLERANCE || -gap > ROW_TOLERANCE
  }

  /** A row keeps to its first word's baseline. */
  ghost predicate Level(row: Row) {
    && row != []
    && forall k :: 0 <= k < |row| ==> row[0].top <= row[k].top <= row[0].top + ROW_TOLERANCE
  }

  predicate Below(row: Row, later: Row) {
    row != [] && later != [] && later[0].top > row[0].top + ROW_TOLERANCE
  }

  /** What gathering guarantees: rows are inhabited and level, and lie further and further down. */
  ghost predicate Gathered(rows: seq<Row>) {
    && (forall i :: 0 <= i < |rows| ==> Level(rows[i]))
    && (forall i, j :: 0 <= i < j < |rows| ==> Below(rows[i], rows[j]))
  }

  ghost predicate ValidRow(row: Row) {
    && row != []
    && SortedBy(row, LeftToRight)
    && forall k :: 0 <= k < |row| ==> row[k].x0 <= row[k].x1
  }

  ghost predicate ValidWords(words: seq<Word>) {
    forall k :: 0 <= k < |words| ==> words[k].x0 <= words[k].x1
  }

  lemma BagOfNewRow(rows: seq<Row>, w: Word)
    ensures Bag(rows + [[w]]) == Bag(rows) + multiset{w}
  {
    BagConcat(rows, [[w]]);
    BagOfOne([w]);
  }

  function GrowLast(rows: seq<Row>, w: Word): seq<Row>
    requires rows != []
  {
    var last := |rows| - 1;
    rows[..last] + [rows[last] + [w]]
  }

  lemma BagOfGrownRow(rows: seq<Row>, w: Word)
    requires rows != []
    ensures Bag(GrowLast(rows, w)) == Bag(rows) + multiset{w}
  {
    var last := |rows| - 1;
    assert rows == rows[..last] + [rows[last]];
    BagConcat(rows[..last], [rows[last]]);
    BagConcat(rows[..last], [rows[last] + [w]]);
    BagOfOne(rows[last]);
    BagOfOne(rows[last] + [w]);
  }

  lemma GrowingKeepsGathered(rows: seq<Row>, w: Word)
    requires Gathered(rows) && rows != [] && !StartsRow(rows[|rows| - 1], w)
    requires w.top >= rows[|rows| - 1][0].top
    ensures Gathered(GrowLast(rows, w))
  {
  }

  lemma StartingKeepsGathered(rows: seq<Row>, w: Word)
    requires Gathered(rows)
    requires rows != [] ==> StartsRow(rows[|rows| - 1], w) && w.top >= rows[|rows| - 1][0].top
    ensures Gathered(rows + [[w]])
  {
  }

  /** A word joins the last row or starts the next. */
  function WithWord(rows: seq<Row>, w: Word): seq<Row>
    requires rows != [] ==> rows[|rows| - 1] != []
  {
    if rows == [] || StartsRow(rows[|rows| - 1], w) then rows + [[w]] else GrowLast(rows, w)
  }

  lemma WithWordHolds(rows: seq<Row>, w: Word)
    requires rows != [] ==> rows[|rows| - 1] != []
    ensures Bag(WithWord(rows, w)) == Bag(rows) + multiset{w}
  {
    if rows == [] || StartsRow(rows[|rows| - 1], w) {
      BagOfNewRow(rows, w);
    } else {
      BagOfGrownRow(rows, w);
    }
  }

  /** The last row starts no lower than `top`. */
  ghost predicate LastStartsBy(rows: seq<Row>, top: real) {
    rows != [] ==> rows[|rows| - 1] != [] && rows[|rows| - 1][0].top <= top
  }

  lemma WordIsGathered(rows: seq<Row>, w: Word)
    requires Gathered(rows) && LastStartsBy(rows, w.top)
    ensures Gathered(WithWord(rows, w)) && LastStartsBy(WithWord(rows, w), w.top)
  {
    if rows == [] || StartsRow(rows[|rows| - 1], w) {
      StartingKeepsGathered(rows, w);
    } else {
      GrowingKeepsGathered(rows, w);
    }
  }

  /** No top is above an earlier one. */
  ghost predicate RunsDown(words: seq<Word>) {
    forall i, j :: 0 <= i < j < |words| ==> words[i].top <= words[j].top
  }

  lemma ReadingOrderRunsDown(words: seq<Word>)
    requires SortedBy(words, Reading)
    ensures RunsDown(words)
  {
  }

  /** The first loop of `_word_rows`, before each row is put in order. */
  method Gather(words: seq<Word>) returns (rows: seq<Row>)
    ensures Gathered(rows)
    ensures Bag(rows) == multiset(words)
  {
    var ordered := Sort(words, Reading);
    SortSorts(words, Reading);
    ReadingOrderRunsDown(ordered);
    rows := GatherOrdered(ordered);
  }

  /** The rows of some words taken in order. */
  function RowsOf(ordered: seq<Word>): (rows: seq<Row>)
    ensures ordered != [] ==> rows != [] && rows[|rows| - 1] != []
    ensures ordered == [] ==> rows == []
  {
    if ordered == [] then [] else WithWord(RowsOf(ordered[..|ordered| - 1]), ordered[|ordered| - 1])
  }

  lemma LastWord(words: seq<Word>)
    requires words != []
    ensures multiset(words) == multiset(words[..|words| - 1]) + multiset{words[|words| - 1]}
  {
    assert words == words[..|words| - 1] + [words[|words| - 1]];
  }

  lemma {:induction false} RowsOfHoldTheWords(ordered: seq<Word>)
    ensures Bag(RowsOf(ordered)) == multiset(ordered)
  {
    if ordered != [] {
      var front, word := ordered[..|ordered| - 1], ordered[|ordered| - 1];
      RowsOfHoldTheWords(front);
      WithWordHolds(RowsOf(front), word);
      LastWord(ordered);
    }
  }

  lemma {:induction false} RowsOfAreGathered(ordered: seq<Word>)
    requires RunsDown(ordered) && ordered != []
    ensures Gathered(RowsOf(ordered)) && LastStartsBy(RowsOf(ordered), ordered[|ordered| - 1].top)
  {
    var last := |ordered| - 1;
    var front, word := ordered[..last], ordered[last];
    if last > 0 {
      assert front[last - 1].top <= word.top;
      RowsOfAreGathered(front);
    }
    WordIsGathered(RowsOf(front), word);
  }

  method GatherOrdered(ordered: seq<Word>) returns (rows: seq<Row>)
    requires RunsDown(ordered)
    ensures rows == RowsOf(ordered)
    ensures Gathered(rows)
    ensures Bag(rows) == multiset(ordered)
  {
    rows := [];
    assert ordered[..0] == [];
    for i := 0 to |ordered|
      invariant rows == RowsOf(ordered[..i])
    {
      var word := ordered[i];
      assert ordered[..i + 1][..i] == ordered[..i];
      if rows == [] || StartsRow(rows[|rows| - 1], word) {
        rows := rows + [[word]];
      } else {
        rows := rows[|rows| - 1 := rows[|rows| - 1] + [word]];
        assert rows == RowsOf(ordered[..i + 1]);
      }
    }
    assert ordered[..|ordered|] == ordered;
    RowsOfHoldTheWords(ordered);
    if ordered != [] {
      RowsOfAreGathered(ordered);
    }
  }

  lemma {:induction false} BagOfSortedRows(before: seq<Row>, after: seq<Row>)
    requires |before| == |after|
    requires forall i :: 0 <= i < |before| ==> multiset(before[i]) == multiset(after[i])
    ensures Bag(before) == Bag(after)
  {
    if before != [] {
      BagOfSortedRows(before[1..], after[1..]);
    }
  }

  /** Every word is in exactly one row, rows run down the page and each runs left to right. */
  ghost predicate AreRows(words: seq<Word>, rows: seq<Row>) {
    && Bag(rows) == multiset(words)
    && (forall i :: 0 <= i < |rows| ==> ValidRow(rows[i]))
    && (forall i, a, b :: 0 <= i < |rows| && 0 <= a < |rows[i]| && 0 <= b < |rows[i]| ==>
          rows[i][a].top - rows[i][b].top <= ROW_TOLERANCE)
    && forall i, j, a, b :: 0 <= i < j < |rows| && 0 <= a < |rows[i]| && 0 <= b < |rows[j]| ==>
         rows[i][a].top < rows[j][b].top
  }

  /** `_word_rows`. */
  method WordRows(words: seq<Word>) returns (rows: seq<Row>)
    requires ValidWords(words)
    ensures AreRows(words, rows)
  {
    var gathered := Gather(words);
    rows := seq(|gathered|, i requires 0 <= i < |gathered| => Sort(gathered[i], LeftToRight));
    forall i | 0 <= i < |rows|
      ensures multiset(rows[i]) == multiset(gathered[i]) && SortedBy(rows[i], LeftToRight) && rows[i] != []
      ensures forall k :: 0 <= k < |rows[i]| ==> rows[i][k] in gathered[i] && rows[i][k] in words
    {
      SortSorts(gathered[i], LeftToRight);
      forall k | 0 <= k < |rows[i]| ensures rows[i][k] in gathered[i] && rows[i][k] in words {
        assert rows[i][k] in multiset(rows[i]);
        RowWordInBag(gathered, i, rows[i][k]);
      }
    }
    BagOfSortedRows(gathered, rows);
  }

  lemma {:induction false} RowWordInBag(rows: seq<Row>, i: nat, w: Word)
    requires i < |rows| && w in rows[i]
    ensures w in Bag(rows) && w in Flatten(rows)
  {
    if i > 0 {
      RowWordInBag(rows[1..], i - 1, w);
    }
  }
}
