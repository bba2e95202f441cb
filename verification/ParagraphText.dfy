/**
 Joining words into lines and lines into paragraphs while keeping superscript
 markers pointed at their text.
 */
module ParagraphText {
  import opened PageWords

  datatype LineMarker = LineMarker(start: int, end: int, number: int)

  datatype Marker = Marker(raw: string, number: int, start: int, end: int)

  /** The part of a line the text assembly reads; the box is kept for paragraph breaks. */
  datatype Line = Line(text: string, markers: seq<LineMarker>, x0: real, top: real, bottom: real)

  /** `" ".join(parts)`. */
  function Joined(parts: seq<string>): string {
    if parts == [] then ""
    else if |parts| == 1 then parts[0]
    else Joined(parts[..|parts| - 1]) + " " + parts[|parts| - 1]
  }

  /** Where the next part would start: after a space, unless it is the first. */
  function Offset(parts: seq<string>): int {
    |Joined(parts)| + if parts == [] then 0 else 1
  }

  lemma JoinedOneMore(parts: seq<string>, part: string)
    ensures Joined(parts + [part]) == Joined(parts) + (if parts == [] then "" else " ") + part
  {
  }

  // ------------------------------------------------------------ marker numbers

  predicate Digit(c: char) {
    '0' <= c <= '9'
  }

  /** One to four digits, the first not zero. */
  predicate MarkerText(s: string) {
    1 <= |s| <= 4 && s[0] != '0' && forall k :: 0 <= k < |s| ==> Digit(s[k])
  }

  function IntOf(s: string): (n: int)
    requires forall k :: 0 <= k < |s| ==> Digit(s[k])
    ensures n >= 0
  {
    if s == "" then 0
    else assert Digit(s[|s| - 1]); IntOf(s[..|s| - 1]) * 10 + (s[|s| - 1] as int - '0' as int)
  }

  lemma {:induction false} MarkerNumbersArePositive(s: string)
    requires 1 <= |s| && s[0] != '0' && forall k :: 0 <= k < |s| ==> Digit(s[k])
    ensures IntOf(s) > 0
  {
    if |s| > 1 {
      MarkerNumbersArePositive(s[..|s| - 1]);
    } else {
      assert IntOf(s[..0]) == 0;
    }
  }

  /** A marker that points at its own digits. */
  predicate PointsAtNumber(text: string, start: int, end: int, number: int) {
    && 0 <= start < end <= |text|
    && MarkerText(text[start..end])
    && number == IntOf(text[start..end]) > 0
  }

  lemma LongerTextKeepsPoint(text: string, more: string, start: int, end: int, number: int)
    requires PointsAtNumber(text, start, end, number)
    ensures PointsAtNumber(text + more, start, end, number)
  {
    assert (text + more)[start..end] == text[start..end];
  }

  ghost predicate LineMarkersSound(text: string, markers: seq<LineMarker>) {
    && (forall k :: 0 <= k < |markers| ==>
          PointsAtNumber(text, markers[k].start, markers[k].end, markers[k].number))
    && (forall i, j :: 0 <= i < j < |markers| ==> markers[i].end < markers[j].start)
  }

  ghost predicate MarkersSound(text: string, markers: seq<Marker>) {
    && (forall k :: 0 <= k < |markers| ==>
          && PointsAtNumber(text, markers[k].start, markers[k].end, markers[k].number)
          && markers[k].raw == text[markers[k].start..markers[k].end])
    && (forall i, j :: 0 <= i < j < |markers| ==> markers[i].end < markers[j].start)
  }

  // --------------------------------------------------------------------- lines

  /**
   When a word is a superscript marker. `attached` stands for the two textual
   conditions on the word before: it ends in punctuation, or has letters and is
   close by.
   */
  predicate IsMarker(previous: Word, word: Word, bodySize: real, bodyBottom: real, attached: (Word, Word) -> bool) {
    && MarkerText(word.text)
    && attached(previous, word)
    && word.fontSize <= bodySize * 0.8
    && word.bottom <= bodyBottom - bodySize * 0.2
  }

  function Texts(words: seq<Word>): seq<string> {
    seq(|words|, i requires 0 <= i < |words| => words[i].text)
  }

  function Visible(words: seq<Word>): seq<Word> {
    if words == [] then []
    else Visible(words[..|words| - 1]) + if words[|words| - 1].text != "" then [words[|words| - 1]] else []
  }

  /** The markers of a line of visible words: exactly the words that qualify, each at its place in the text. */
  function MarkersOf(words: seq<Word>, bodySize: real, bodyBottom: real, attached: (Word, Word) -> bool)
    : seq<LineMarker>
  {
    if |words| < 2 then []
    else
      var last := |words| - 1;
      var start := Offset(Texts(words[..last]));
      MarkersOf(words[..last], bodySize, bodyBottom, attached)
      + if IsMarker(words[last - 1], words[last], bodySize, bodyBottom, attached)
        then [LineMarker(start, start + |words[last].text|, IntOf(words[last].text))] else []
  }

  lemma TextsOneMore(words: seq<Word>, i: nat)
    requires i < |words|
    ensures Texts(words[..i + 1]) == Texts(words[..i]) + [words[i].text]
  {
  }

  lemma MarkersOneMore(words: seq<Word>, i: nat, bodySize: real, bodyBottom: real, attached: (Word, Word) -> bool)
    requires i < |words|
    ensures var start := Offset(Texts(words[..i]));
            (MarkersOf(words[..i + 1], bodySize, bodyBottom, attached)
             == MarkersOf(words[..i], bodySize, bodyBottom, attached)
                + if i > 0 && IsMarker(words[i - 1], words[i], bodySize, bodyBottom, attached)
                  then [LineMarker(start, start + |words[i].text|, IntOf(words[i].text))] else [])
  {
    assert words[..i + 1][..i] == words[..i];
  }

  /** `_line_from_words`, text and markers. */
  method LineFromWords(words: seq<Word>, bodySize: real, bodyBottom: real, attached: (Word, Word) -> bool)
    returns (text: string, markers: seq<LineMarker>)
    ensures text == Joined(Texts(Visible(words)))
    ensures markers == MarkersOf(Visible(words), bodySize, bodyBottom, attached)
    ensures LineMarkersSound(text, markers)
  {
    var visible := Visible(words);
    var parts: seq<string> := [];
    var offset := 0;
    markers := [];
    for index := 0 to |visible|
      invariant parts == Texts(visible[..index]) && offset == |Joined(parts)|
      invariant markers == MarkersOf(visible[..index], bodySize, bodyBottom, attached)
    {
      var word := visible[index];
      TextsOneMore(visible, index);
      JoinedOneMore(parts, word.text);
      MarkersOneMore(visible, index, bodySize, bodyBottom, attached);
      if parts != [] {
        offset := offset + 1;
      }
      var start := offset;
      parts := parts + [word.text];
      offset := offset + |word.text|;
      if index > 0 && IsMarker(visible[index - 1], word, bodySize, bodyBottom, attached) {
        markers := markers + [LineMarker(start, offset, IntOf(word.text))];
      }
    }
    assert visible[..|visible|] == visible;
    text := Joined(parts);
    LineMarkersPoint(visible, bodySize, bodyBottom, attached);
  }

  lemma JoinedPoint(parts: seq<string>, part: string)
    requires MarkerText(part)
    ensures PointsAtNumber(Joined(parts + [part]), Offset(parts), Offset(parts) + |part|, IntOf(part))
    ensures Offset(parts) >= |Joined(parts)|
  {
    JoinedOneMore(parts, part);
    var text := Joined(parts + [part]);
    assert text[Offset(parts)..] == part;
    assert text[Offset(parts)..Offset(parts) + |part|] == part;
    MarkerNumbersArePositive(part);
  }

  lemma {:induction false} LineMarkersPoint(
    words: seq<Word>, bodySize: real, bodyBottom: real, attached: (Word, Word) -> bool)
    ensures LineMarkersSound(Joined(Texts(words)), MarkersOf(words, bodySize, bodyBottom, attached))
  {
    if |words| >= 2 {
      var last := |words| - 1;
      var front := words[..last];
      LineMarkersPoint(front, bodySize, bodyBottom, attached);
      assert words[..last + 1] == words;
      TextsOneMore(words, last);
      JoinedOneMore(Texts(front), words[last].text);
      var before := MarkersOf(front, bodySize, bodyBottom, attached);
      var more := " " + words[last].text;
      assert Joined(Texts(words)) == Joined(Texts(front)) + more;
      forall k | 0 <= k < |before|
        ensures PointsAtNumber(Joined(Texts(words)), before[k].start, before[k].end, before[k].number)
      {
        LongerTextKeepsPoint(Joined(Texts(front)), more, before[k].start, before[k].end, before[k].number);
      }
      if IsMarker(words[last - 1], words[last], bodySize, bodyBottom, attached) {
        JoinedPoint(Texts(front), words[last].text);
      }
    }
  }

  // ---------------------------------------------------------------- paragraphs

  function LineTexts(lines: seq<Line>): seq<string> {
    seq(|lines|, i requires 0 <= i < |lines| => lines[i].text)
  }

  function Moved(line: Line, shift: int): seq<Marker>
    requires LineMarkersSound(line.text, line.markers)
  {
    seq(|line.markers|, k requires 0 <= k < |line.markers| =>
      var m := line.markers[k];
      Marker(line.text[m.start..m.end], m.number, shift + m.start, shift + m.end))
  }

  function ParagraphMarkers(lines: seq<Line>): seq<Marker>
    requires forall i :: 0 <= i < |lines| ==> LineMarkersSound(lines[i].text, lines[i].markers)
  {
    if lines == [] then []
    else
      var last := |lines| - 1;
      ParagraphMarkers(lines[..last]) + Moved(lines[last], Offset(LineTexts(lines[..last])))
  }

  lemma LineTextsOneMore(lines: seq<Line>, i: nat)
    requires i < |lines|
    ensures LineTexts(lines[..i + 1]) == LineTexts(lines[..i]) + [lines[i].text]
  {
  }

  /** The text half of `_append_paragraph`. */
  method ParagraphFromLines(lines: seq<Line>) returns (text: string, markers: seq<Marker>)
    requires forall i :: 0 <= i < |lines| ==> LineMarkersSound(lines[i].text, lines[i].markers)
    ensures text == Joined(LineTexts(lines))
    ensures markers == ParagraphMarkers(lines)
    ensures MarkersSound(text, markers)
  {
    var parts: seq<string> := [];
    var offset := 0;
    markers := [];
    for i := 0 to |lines|
      invariant parts == LineTexts(lines[..i]) && offset == |Joined(parts)|
      invariant markers == ParagraphMarkers(lines[..i])
    {
      var line := lines[i];
      LineTextsOneMore(lines, i);
      JoinedOneMore(parts, line.text);
      assert lines[..i + 1][..i] == lines[..i];
      if parts != [] {
        offset := offset + 1;
      }
      var lineStart := offset;
      parts := parts + [line.text];
      offset := offset + |line.text|;
      markers := markers + Moved(line, lineStart);
    }
    assert lines[..|lines|] == lines;
    text := Joined(parts);
    ParagraphMarkersPoint(lines);
  }

  lemma MovedPoints(line: Line, prefix: string, k: nat)
    requires LineMarkersSound(line.text, line.markers) && k < |line.markers|
    ensures var m := Moved(line, |prefix|)[k];
            && PointsAtNumber(prefix + line.text, m.start, m.end, m.number)
            && m.raw == (prefix + line.text)[m.start..m.end]
            && |prefix| <= m.start
  {
    var m := line.markers[k];
    assert PointsAtNumber(line.text, m.start, m.end, m.number);
    assert (prefix + line.text)[|prefix| + m.start..|prefix| + m.end] == line.text[m.start..m.end];
  }

  lemma MovedAreSound(line: Line, prefix: string)
    requires LineMarkersSound(line.text, line.markers)
    ensures MarkersSound(prefix + line.text, Moved(line, |prefix|))
    ensures forall k :: 0 <= k < |line.markers| ==> |prefix| <= Moved(line, |prefix|)[k].start
  {
    forall k | 0 <= k < |line.markers|
      ensures var m := Moved(line, |prefix|)[k];
              && PointsAtNumber(prefix + line.text, m.start, m.end, m.number)
              && m.raw == (prefix + line.text)[m.start..m.end]
              && |prefix| <= m.start
    {
      MovedPoints(line, prefix, k);
    }
  }

  lemma SoundConcat(text: string, more: string, a: seq<Marker>, b: seq<Marker>)
    requires MarkersSound(text, a) && MarkersSound(text + more, b)
    requires forall k :: 0 <= k < |b| ==> |text| < b[k].start
    ensures MarkersSound(text + more, a + b)
  {
    forall k | 0 <= k < |a|
      ensures PointsAtNumber(text + more, a[k].start, a[k].end, a[k].number)
      ensures a[k].raw == (text + more)[a[k].start..a[k].end]
    {
      LongerTextKeepsPoint(text, more, a[k].start, a[k].end, a[k].number);
      assert (text + more)[a[k].start..a[k].end] == text[a[k].start..a[k].end];
    }
  }

  /** One more line: its markers move past what is there and a space, and join the ones before. */
  lemma LineJoinsSound(before: string, markers: seq<Marker>, first: bool, line: Line)
    requires MarkersSound(before, markers) && LineMarkersSound(line.text, line.markers)
    requires first ==> before == "" && markers == []
    ensures var prefix := before + (if first then "" else " ");
            MarkersSound(prefix + line.text, markers + Moved(line, |prefix|))
  {
    var prefix := before + (if first then "" else " ");
    MovedAreSound(line, prefix);
    if first {
      assert markers + Moved(line, |prefix|) == Moved(line, |prefix|);
    } else {
      assert prefix + line.text == before + (" " + line.text);
      SoundConcat(before, " " + line.text, markers, Moved(line, |prefix|));
    }
  }

  /** After both levels of joining every marker still points at its own digits, in order and without overlap. */
  lemma {:induction false} ParagraphMarkersPoint(lines: seq<Line>)
    requires forall i :: 0 <= i < |lines| ==> LineMarkersSound(lines[i].text, lines[i].markers)
    ensures MarkersSound(Joined(LineTexts(lines)), ParagraphMarkers(lines))
  {
    if lines != [] {
      var last := |lines| - 1;
      var front, line := lines[..last], lines[last];
      ParagraphMarkersPoint(front);
      assert lines[..last + 1] == lines;
      LineTextsOneMore(lines, last);
      JoinedOneMore(LineTexts(front), line.text);
      LineJoinsSound(Joined(LineTexts(front)), ParagraphMarkers(front), front == [], line);
    }
  }

  /** The shape and range checks a citation parser applies to a marker before it trusts it. */
  predicate PassesCitationChecks(text: string, m: Marker) {
    m.number > 0 && m.start >= 0 && m.end > m.start && m.end <= |text|
  }

  lemma ParagraphMarkersPassCitationChecks(lines: seq<Line>, k: nat)
    requires forall i :: 0 <= i < |lines| ==> LineMarkersSound(lines[i].text, lines[i].markers)
    requires k < |ParagraphMarkers(lines)|
    ensures PassesCitationChecks(Joined(LineTexts(lines)), ParagraphMarkers(lines)[k])
  {
    ParagraphMarkersPoint(lines);
  }

  // ------------------------------------------------ where everything is, and that nothing is missing

  /** Where part `i` starts when all parts are joined with one space between. */
  function StartOf(parts: seq<string>, i: nat): nat
    requires i <= |parts|
  {
    if i == 0 then 0 else StartOf(parts, i - 1) + |parts[i - 1]| + 1
  }

  lemma {:induction false} StartInFront(parts: seq<string>, i: nat)
    requires i < |parts|
    ensures StartOf(parts[..|parts| - 1], i) == StartOf(parts, i)
  {
    if i > 0 {
      StartInFront(parts, i - 1);
    }
  }

  lemma {:induction false} JoinedLength(parts: seq<string>)
    requires parts != []
    ensures |Joined(parts)| == StartOf(parts, |parts| - 1) + |parts[|parts| - 1]|
  {
    var last := |parts| - 1;
    if last > 0 {
      JoinedLength(parts[..last]);
      StartInFront(parts, last - 1);
    }
  }

  lemma LastPartHolds(parts: seq<string>)
    requires parts != []
    ensures var last := |parts| - 1;
            && |Joined(parts)| == StartOf(parts, last) + |parts[last]|
            && Joined(parts)[StartOf(parts, last)..] == parts[last]
            && (last > 0 ==> Joined(parts)[StartOf(parts, last) - 1] == ' ')
  {
    var last := |parts| - 1;
    JoinedLength(parts);
    if last > 0 {
      JoinedLength(parts[..last]);
      StartInFront(parts, last - 1);
      assert Joined(parts) == Joined(parts[..last]) + (" " + parts[last]);
    }
  }

  /** The joined text is the parts at their starts, a space before each but the first, and nothing else. */
  lemma {:induction false} JoinedHolds(parts: seq<string>, i: nat)
    requires i < |parts|
    ensures StartOf(parts, i) + |parts[i]| <= |Joined(parts)|
    ensures Joined(parts)[StartOf(parts, i)..StartOf(parts, i) + |parts[i]|] == parts[i]
    ensures i > 0 ==> Joined(parts)[StartOf(parts, i) - 1] == ' '
    decreases |parts|
  {
    var last := |parts| - 1;
    if i == last {
      LastPartHolds(parts);
    } else {
      var front := parts[..last];
      JoinedHolds(front, i);
      StartInFront(parts, i);
      assert Joined(parts) == Joined(front) + (" " + parts[last]);
      PrefixKeeps(Joined(front), " " + parts[last], StartOf(parts, i), StartOf(parts, i) + |parts[i]|);
    }
  }

  lemma PrefixKeeps(text: string, more: string, from: nat, to: nat)
    requires from <= to <= |text|
    ensures (text + more)[from..to] == text[from..to]
    ensures from > 0 ==> (text + more)[from - 1] == text[from - 1]
  {
  }

  lemma OffsetIsStart(parts: seq<string>, i: nat)
    requires i <= |parts|
    ensures Offset(parts[..i]) == StartOf(parts, i)
  {
    if i > 0 {
      JoinedLength(parts[..i]);
      StartsAgree(parts, i, i - 1);
    }
  }

  lemma {:induction false} StartsAgree(parts: seq<string>, n: nat, i: nat)
    requires i <= n <= |parts|
    ensures StartOf(parts[..n], i) == StartOf(parts, i)
  {
    if i > 0 {
      StartsAgree(parts, n, i - 1);
    }
  }

  /** `part` is the words with text, in order: they stand at the positions `at`. */
  ghost predicate PicksText(words: seq<Word>, part: seq<Word>, at: seq<int>) {
    && |at| == |part|
    && (forall k :: 0 <= k < |at| ==> 0 <= at[k] < |words| && part[k] == words[at[k]])
    && (forall j, k :: 0 <= j < k < |at| ==> at[j] < at[k])
    && forall i :: 0 <= i < |words| ==> (i in at <==> words[i].text != "")
  }

  lemma PicksLast(words: seq<Word>, part: seq<Word>, at: seq<int>)
    requires words != [] && words[|words| - 1].text != "" && PicksText(words[..|words| - 1], part, at)
    ensures PicksText(words, part + [words[|words| - 1]], at + [|words| - 1])
  {
    var more := at + [|words| - 1];
    forall i | 0 <= i < |words| ensures i in more <==> words[i].text != "" {
      assert i in more <==> i in at || i == |words| - 1;
      assert i < |words| - 1 ==> words[..|words| - 1][i] == words[i];
    }
  }

  lemma PicksNotLast(words: seq<Word>, part: seq<Word>, at: seq<int>)
    requires words != [] && words[|words| - 1].text == "" && PicksText(words[..|words| - 1], part, at)
    ensures PicksText(words, part, at)
  {
    forall i | 0 <= i < |words| ensures i in at <==> words[i].text != "" {
      assert i < |words| - 1 ==> words[..|words| - 1][i] == words[i];
    }
  }

  lemma {:induction false} VisibleKeeps(words: seq<Word>) returns (at: seq<int>)
    ensures PicksText(words, Visible(words), at)
  {
    at := [];
    if words != [] {
      var last := |words| - 1;
      at := VisibleKeeps(words[..last]);
      if words[last].text != "" {
        PicksLast(words, Visible(words[..last]), at);
        at := at + [last];
      } else {
        PicksNotLast(words, Visible(words[..last]), at);
      }
    }
  }

  /** A word that qualifies, by size, place, digits and what is before it. */
  predicate Superscript(previous: Word, word: Word, bodySize: real, bodyBottom: real, attached: (Word, Word) -> bool) {
    && 1 <= |word.text| <= 4 && word.text[0] != '0' && (forall k :: 0 <= k < |word.text| ==> '0' <= word.text[k] <= '9')
    && word.fontSize <= 0.8 * bodySize && word.bottom <= bodyBottom - 0.2 * bodySize
    && attached(previous, word)
  }

  /** The marker of word `i`: its span in the joined text and the number it spells. */
  function MarkerAt(words: seq<Word>, i: nat): LineMarker
    requires i < |words| && forall k :: 0 <= k < |words[i].text| ==> Digit(words[i].text[k])
  {
    var start := StartOf(Texts(words), i);
    LineMarker(start, start + |words[i].text|, IntOf(words[i].text))
  }

  /** A line's markers are those of its qualifying words: each has one, at its own place, and there are no others. */
  lemma {:induction false} MarkersExactly(
    words: seq<Word>, bodySize: real, bodyBottom: real, attached: (Word, Word) -> bool, m: LineMarker)
    ensures m in MarkersOf(words, bodySize, bodyBottom, attached) <==>
              exists i :: 1 <= i < |words| && Superscript(words[i - 1], words[i], bodySize, bodyBottom, attached)
                          && m == MarkerAt(words, i)
  {
    if |words| >= 2 {
      var last := |words| - 1;
      var front := words[..last];
      MarkersExactly(front, bodySize, bodyBottom, attached, m);
      TextsFront(words, last);
      OffsetIsStart(Texts(words), last);
      assert IsMarker(words[last - 1], words[last], bodySize, bodyBottom, attached)
        <==> Superscript(words[last - 1], words[last], bodySize, bodyBottom, attached);
      forall i | 1 <= i < last && Superscript(words[i - 1], words[i], bodySize, bodyBottom, attached)
        ensures Superscript(front[i - 1], front[i], bodySize, bodyBottom, attached)
        ensures MarkerAt(front, i) == MarkerAt(words, i)
      {
        StartsAgree(Texts(words), last, i);
      }
    }
  }

  lemma TextsFront(words: seq<Word>, n: nat)
    requires n <= |words|
    ensures Texts(words[..n]) == Texts(words)[..n]
  {
  }

  /** `m` is a marker of line `i`, moved. */
  ghost predicate ComesFrom(lines: seq<Line>, i: nat, m: Marker)
    requires i < |lines|
  {
    exists k :: 0 <= k < |lines[i].markers| && IsMoved(lines, i, k, m)
  }

  ghost predicate AllSound(lines: seq<Line>) {
    forall i :: 0 <= i < |lines| ==> LineMarkersSound(lines[i].text, lines[i].markers)
  }

  ghost predicate FromSome(lines: seq<Line>, n: nat, m: Marker)
    requires n <= |lines|
  {
    exists i :: 0 <= i < n && ComesFrom(lines, i, m)
  }

  lemma {:induction false} MarkersUpTo(lines: seq<Line>, n: nat, m: Marker)
    requires n <= |lines| && AllSound(lines)
    ensures m in ParagraphMarkers(lines[..n]) <==> FromSome(lines, n, m)
    decreases n
  {
    if n > 0 {
      MarkersUpTo(lines, n - 1, m);
      OneMoreLineMoved(lines, n, m);
      FromOneMore(lines, n, m);
    }
  }

  lemma FromOneMore(lines: seq<Line>, n: nat, m: Marker)
    requires 0 < n <= |lines|
    ensures FromSome(lines, n, m) <==> FromSome(lines, n - 1, m) || ComesFrom(lines, n - 1, m)
  {
  }

  lemma OneMoreLineMoved(lines: seq<Line>, n: nat, m: Marker)
    requires 0 < n <= |lines| && AllSound(lines)
    ensures m in ParagraphMarkers(lines[..n]) <==> m in ParagraphMarkers(lines[..n - 1]) || ComesFrom(lines, n - 1, m)
  {
    var front := lines[..n - 1];
    assert lines[..n][..n - 1] == front;
    assert ParagraphMarkers(lines[..n]) == ParagraphMarkers(front) + Moved(lines[n - 1], Offset(LineTexts(front)));
    LineMoved(lines, n - 1, m);
  }

  lemma LineMoved(lines: seq<Line>, i: nat, m: Marker)
    requires i < |lines| && LineMarkersSound(lines[i].text, lines[i].markers)
    ensures m in Moved(lines[i], Offset(LineTexts(lines[..i]))) <==> ComesFrom(lines, i, m)
  {
    assert LineTexts(lines[..i]) == LineTexts(lines)[..i];
    OffsetIsStart(LineTexts(lines), i);
    MovedExactly(lines, i, m);
  }

  /** A paragraph's markers are its lines' markers, each moved by where its line starts, and no others. */
  lemma ParagraphMarkersExactly(lines: seq<Line>, m: Marker)
    requires forall i :: 0 <= i < |lines| ==> LineMarkersSound(lines[i].text, lines[i].markers)
    ensures m in ParagraphMarkers(lines) <==> exists i :: 0 <= i < |lines| && ComesFrom(lines, i, m)
  {
    MarkersUpTo(lines, |lines|, m);
    assert lines[..|lines|] == lines;
  }

  /** `m` is the marker `k` of line `i`, with its digits, moved to where the line stands in the joined text. */
  predicate IsMoved(lines: seq<Line>, i: nat, k: nat, m: Marker)
    requires i < |lines| && k < |lines[i].markers|
  {
    var start, line := StartOf(LineTexts(lines), i), lines[i].markers[k];
    && m.number == line.number && m.start == start + line.start && m.end == start + line.end
    && 0 <= line.start <= line.end <= |lines[i].text| && m.raw == lines[i].text[line.start..line.end]
  }

  lemma MovedExactly(lines: seq<Line>, i: nat, m: Marker)
    requires i < |lines| && LineMarkersSound(lines[i].text, lines[i].markers)
    ensures m in Moved(lines[i], StartOf(LineTexts(lines), i)) <==>
              exists k :: 0 <= k < |lines[i].markers| && IsMoved(lines, i, k, m)
  {
    var moved := Moved(lines[i], StartOf(LineTexts(lines), i));
    forall k | 0 <= k < |moved| ensures moved[k] == m <==> IsMoved(lines, i, k, m) {
      assert PointsAtNumber(lines[i].text, lines[i].markers[k].start, lines[i].markers[k].end, lines[i].markers[k].number);
    }
  }
}
