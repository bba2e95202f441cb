/**
 Linking mentions in the text to references in the bibliography, and the counts a
 report shows.
 */
module CitationLinks {
  import opened Base

  datatype ParserStatus = Parsed | Uncertain | Fragmented

  datatype MentionStatus = Linked | OrphanMention | Ambiguous | AmbiguousMapping

  datatype Linkage = ReferenceLinked | UncitedReference | UncertainReference

  /** `tokens` are the normalised words of all its authors. */
  datatype Reference = Reference(
    id: int, number: Option<int>, explicit: bool, year: Option<int>, tokens: seq<string>,
    parser: ParserStatus, linkage: Linkage)

  /** A numeric mention has `numbers`; any other is looked up by `year` and the author's first word. */
  datatype Mention = Mention(
    numbers: seq<int>, year: Option<int>, token: string,
    parser: ParserStatus, status: MentionStatus, references: seq<int>)

  // ------------------------------------------------------------ reading the numbers

  const MAX_NUMERIC_MARKER_CHARS := 512
  const MAX_NUMBERS_PER_MENTION := 64

  /** `4` or `4-9` between two commas of a numeric mention. */
  datatype Part = Part(first: nat, last: Option<nat>)

  predicate Readable(part: Option<Part>) {
    && part.Some?
    && (part.value.last.Some? ==> 0 <= part.value.last.value - part.value.first <= 50)
  }

  function Spelled(part: Part): seq<int>
    requires Readable(Some(part))
  {
    if part.last.None? then [part.first]
    else seq(part.last.value - part.first + 1, i => part.first + i)
  }

  function Spread(parts: seq<Option<Part>>): seq<int>
    requires forall k :: 0 <= k < |parts| ==> Readable(parts[k])
  {
    if parts == [] then []
    else
      assert Readable(parts[|parts| - 1]);
      Spread(parts[..|parts| - 1]) + Spelled(parts[|parts| - 1].value)
  }

  /** First occurrences, in order. */
  function Deduplicated(numbers: seq<int>): seq<int> {
    if numbers == [] then []
    else
      var front, last := numbers[..|numbers| - 1], numbers[|numbers| - 1];
      Deduplicated(front) + if last in front then [] else [last]
  }

  ghost predicate Expandable(parts: seq<Option<Part>>, length: int) {
    && length <= MAX_NUMERIC_MARKER_CHARS && |parts| <= MAX_NUMBERS_PER_MENTION
    && (forall k :: 0 <= k < |parts| ==> Readable(parts[k]))
    && |Spread(parts)| <= MAX_NUMBERS_PER_MENTION
  }

  lemma {:induction false} SpreadOnlyGrows(parts: seq<Option<Part>>, i: nat)
    requires i <= |parts| && forall k :: 0 <= k < |parts| ==> Readable(parts[k])
    ensures |Spread(parts[..i])| <= |Spread(parts)|
    decreases |parts|
  {
    if i == |parts| {
      assert parts[..i] == parts;
    } else {
      SpreadOnlyGrows(parts[..|parts| - 1], i);
      assert parts[..|parts| - 1][..i] == parts[..i];
    }
  }

  /** `body` is the text of `length` characters that the parts were split from. */
  method ExpandNumbers(parts: seq<Option<Part>>, length: int) returns (numbers: Option<seq<int>>)
    ensures numbers.Some? <==> Expandable(parts, length)
    ensures numbers.Some? ==> numbers.value == Deduplicated(Spread(parts))
  {
    if length > MAX_NUMERIC_MARKER_CHARS || |parts| > MAX_NUMBERS_PER_MENTION {
      return None;
    }
    var result: seq<int> := [];
    for i := 0 to |parts|
      invariant forall k :: 0 <= k < i ==> Readable(parts[k])
      invariant result == Spread(parts[..i]) && |result| <= MAX_NUMBERS_PER_MENTION
    {
      if !Readable(parts[i]) {
        return None;
      }
      var values := Spelled(parts[i].value);
      assert parts[..i + 1][..i] == parts[..i];
      if |result| + |values| > MAX_NUMBERS_PER_MENTION {
        if forall k :: 0 <= k < |parts| ==> Readable(parts[k]) {
          SpreadOnlyGrows(parts, i + 1);
        }
        return None;
      }
      result := result + values;
    }
    assert parts[..|parts|] == parts;
    numbers := Some(Deduplicated(result));
  }

  lemma {:induction false} DeduplicatedIsDistinct(numbers: seq<int>)
    ensures Distinct(Deduplicated(numbers))
    ensures forall n :: n in Deduplicated(numbers) <==> n in numbers
    ensures |Deduplicated(numbers)| <= |numbers| && (numbers != [] ==> Deduplicated(numbers) != [])
  {
    if numbers != [] {
      var front := numbers[..|numbers| - 1];
      DeduplicatedIsDistinct(front);
      assert numbers == front + [numbers[|numbers| - 1]];
    }
  }

  lemma {:induction false} SpreadIsTheUnion(parts: seq<Option<Part>>, n: int)
    requires forall k :: 0 <= k < |parts| ==> Readable(parts[k])
    ensures n in Spread(parts) <==> exists k :: 0 <= k < |parts| && Names(parts[k].value, n)
  {
    if parts != [] {
      var last := |parts| - 1;
      SpreadIsTheUnion(parts[..last], n);
      SpelledNames(parts[last].value, n);
      if k :| 0 <= k < |parts| && Names(parts[k].value, n) && k < last {
        assert Names(parts[..last][k].value, n);
      }
    }
  }

  predicate Names(part: Part, n: int) {
    part.first <= n <= if part.last.Some? then part.last.value else part.first
  }

  lemma SpelledNames(part: Part, n: int)
    requires Readable(Some(part))
    ensures n in Spelled(part) <==> Names(part, n)
  {
    if Names(part, n) {
      assert Spelled(part)[n - part.first] == n;
    }
  }

  /** A mention's numbers are those its parts name, each once, and never more than the cap. */
  lemma ExpandedNumbers(parts: seq<Option<Part>>, length: int)
    requires Expandable(parts, length)
    ensures var numbers := Deduplicated(Spread(parts));
            && Distinct(numbers) && |numbers| <= MAX_NUMBERS_PER_MENTION
            && forall n :: n in numbers <==> exists k :: 0 <= k < |parts| && Names(parts[k].value, n)
  {
    DeduplicatedIsDistinct(Spread(parts));
    forall n ensures n in Deduplicated(Spread(parts)) <==> exists k :: 0 <= k < |parts| && Names(parts[k].value, n) {
      SpreadIsTheUnion(parts, n);
    }
  }

  /** How many numbers the parts name, repetitions included. */
  function Total(parts: seq<Option<Part>>): int {
    if parts == [] then 0
    else
      var last := parts[|parts| - 1];
      Total(parts[..|parts| - 1])
      + if last.None? then 0 else if last.value.last.None? then 1 else last.value.last.value - last.value.first + 1
  }

  lemma {:induction false} SpreadIsTotal(parts: seq<Option<Part>>)
    requires forall k :: 0 <= k < |parts| ==> Readable(parts[k])
    ensures |Spread(parts)| == Total(parts)
  {
    if parts != [] {
      SpreadIsTotal(parts[..|parts| - 1]);
      assert Readable(parts[|parts| - 1]);
    }
  }

  /** The four limits in figures: 512 characters, 64 parts, ranges that run up by 50 at most, and 64 numbers in all. */
  lemma ExpandableExactly(parts: seq<Option<Part>>, length: int)
    ensures Expandable(parts, length) <==>
              && length <= 512 && |parts| <= 64
              && (forall k :: 0 <= k < |parts| ==>
                    parts[k].Some?
                    && (parts[k].value.last.Some? ==>
                          parts[k].value.first <= parts[k].value.last.value <= parts[k].value.first + 50))
              && Total(parts) <= 64
  {
    if forall k :: 0 <= k < |parts| ==> Readable(parts[k]) {
      SpreadIsTotal(parts);
    }
  }

  /** Position `p` is where `n` first stands. */
  predicate FirstAt(numbers: seq<int>, n: int, p: int) {
    0 <= p < |numbers| && numbers[p] == n && n !in numbers[..p]
  }

  lemma FirstAtLonger(numbers: seq<int>, n: int, p: int)
    requires numbers != [] && FirstAt(numbers[..|numbers| - 1], n, p)
    ensures FirstAt(numbers, n, p)
  {
    assert numbers[..|numbers| - 1][..p] == numbers[..p];
  }

  /** Without repetitions the numbers stand in the order in which they first stood. */
  lemma {:induction false} DeduplicatedInOrder(numbers: seq<int>, i: int, j: int) returns (p: int, q: int)
    requires 0 <= i < j < |Deduplicated(numbers)|
    ensures FirstAt(numbers, Deduplicated(numbers)[i], p) && FirstAt(numbers, Deduplicated(numbers)[j], q) && p < q
  {
    var last := |numbers| - 1;
    var front := numbers[..last];
    var d := Deduplicated(front);
    if j < |d| {
      p, q := DeduplicatedInOrder(front, i, j);
      FirstAtLonger(numbers, d[i], p);
      FirstAtLonger(numbers, d[j], q);
    } else {
      DeduplicatedIsDistinct(front);
      assert d[i] in d;
      p, q := FirstPlace(front, d[i]), last;
      FirstAtLonger(numbers, d[i], p);
    }
  }

  function FirstPlace(numbers: seq<int>, n: int): (p: int)
    requires n in numbers
    ensures FirstAt(numbers, n, p)
  {
    if numbers[0] == n then 0
    else
      var p := FirstPlace(numbers[1..], n) + 1;
      assert numbers[..p] == [numbers[0]] + numbers[1..][..p - 1];
      p
  }

  // ------------------------------------------------------------ candidates

  predicate HasNumber(r: Reference, number: int) {
    r.number == Some(number) && r.explicit
  }

  predicate HasAuthorYear(r: Reference, year: int, token: string) {
    r.year == Some(year) && token in r.tokens
  }

  function Numbered(references: seq<Reference>, number: int): seq<Reference> {
    if references == [] then []
    else
      var last := references[|references| - 1];
      Numbered(references[..|references| - 1], number) + if HasNumber(last, number) then [last] else []
  }

  function Written(references: seq<Reference>, year: int, token: string): seq<Reference> {
    if references == [] then []
    else
      var last := references[|references| - 1];
      Written(references[..|references| - 1], year, token)
      + if HasAuthorYear(last, year, token) then [last] else []
  }

  function AllNumbered(references: seq<Reference>, numbers: seq<int>): seq<Reference> {
    if numbers == [] then []
    else
      AllNumbered(references, numbers[..|numbers| - 1]) + Numbered(references, numbers[|numbers| - 1])
  }

  function Matched(references: seq<Reference>, m: Mention): seq<Reference> {
    if m.numbers != [] then AllNumbered(references, m.numbers)
    else if m.year.Some? then Written(references, m.year.value, m.token)
    else []
  }

  lemma {:induction false} NumberedHolds(references: seq<Reference>, number: int, r: Reference)
    ensures r in Numbered(references, number) <==> r in references && HasNumber(r, number)
  {
    if references != [] {
      NumberedHolds(references[..|references| - 1], number, r);
      assert references == references[..|references| - 1] + [references[|references| - 1]];
    }
  }

  lemma {:induction false} WrittenHolds(references: seq<Reference>, year: int, token: string, r: Reference)
    ensures r in Written(references, year, token) <==> r in references && HasAuthorYear(r, year, token)
  {
    if references != [] {
      WrittenHolds(references[..|references| - 1], year, token, r);
      assert references == references[..|references| - 1] + [references[|references| - 1]];
    }
  }

  predicate HasOneOf(r: Reference, numbers: seq<int>) {
    exists k :: 0 <= k < |numbers| && HasNumber(r, numbers[k])
  }

  lemma HasOneOfMore(r: Reference, numbers: seq<int>, number: int)
    ensures HasOneOf(r, numbers + [number]) <==> HasOneOf(r, numbers) || HasNumber(r, number)
  {
    if HasOneOf(r, numbers) {
      var k :| 0 <= k < |numbers| && HasNumber(r, numbers[k]);
      assert HasNumber(r, (numbers + [number])[k]);
    }
    assert (numbers + [number])[|numbers|] == number;
  }

  lemma {:induction false} AllNumberedHolds(references: seq<Reference>, numbers: seq<int>, r: Reference)
    ensures r in AllNumbered(references, numbers) <==> r in references && HasOneOf(r, numbers)
  {
    if numbers != [] {
      var last := |numbers| - 1;
      AllNumberedHolds(references, numbers[..last], r);
      NumberedHolds(references, numbers[last], r);
      HasOneOfMore(r, numbers[..last], numbers[last]);
      assert numbers == numbers[..last] + [numbers[last]];
    }
  }

  /** Exactly one candidate, and it was read cleanly. */
  predicate Sole(candidates: seq<Reference>) {
    |candidates| == 1 && candidates[0].parser == Parsed
  }

  // ------------------------------------------------------------ the two indexes

  function At<K(==), V>(index: map<K, seq<V>>, key: K): seq<V> {
    if key in index then index[key] else []
  }

  method IndexByNumber(references: seq<Reference>) returns (index: map<int, seq<Reference>>)
    ensures forall n :: At(index, n) == Numbered(references, n)
  {
    index := map[];
    for i := 0 to |references|
      invariant forall n :: At(index, n) == Numbered(references[..i], n)
    {
      var r := references[i];
      assert references[..i + 1][..i] == references[..i];
      if r.number.Some? && r.explicit {
        index := index[r.number.value := At(index, r.number.value) + [r]];
      }
    }
    assert references[..|references|] == references;
  }

  /** References of `year` filed under `token`, when of the last one only the first `k` words are in yet. */
  function Filing(references: seq<Reference>, i: nat, k: nat, year: int, token: string): seq<Reference>
    requires i < |references| && k <= |references[i].tokens|
  {
    Written(references[..i], year, token)
    + if references[i].year == Some(year) && token in references[i].tokens[..k] then [references[i]] else []
  }

  ghost predicate DistinctIds(references: seq<Reference>) {
    forall i, j :: 0 <= i < j < |references| ==> references[i].id != references[j].id
  }

  function Upsert(filed: seq<Reference>, r: Reference): seq<Reference> {
    if exists k :: 0 <= k < |filed| && filed[k].id == r.id then filed else filed + [r]
  }

  lemma FiledBefore(references: seq<Reference>, i: nat, year: int, token: string)
    requires i < |references| && DistinctIds(references)
    ensures forall k :: 0 <= k < |Written(references[..i], year, token)| ==>
              Written(references[..i], year, token)[k].id != references[i].id
  {
    var filed := Written(references[..i], year, token);
    forall k | 0 <= k < |filed| ensures filed[k].id != references[i].id {
      WrittenHolds(references[..i], year, token, filed[k]);
      var j :| 0 <= j < i && references[j] == filed[k];
    }
  }

  lemma FileWord(references: seq<Reference>, i: nat, k: nat, year: int, token: string)
    requires i < |references| && k < |references[i].tokens| && DistinctIds(references)
    requires references[i].year == Some(year) && references[i].tokens[k] == token
    ensures Filing(references, i, k + 1, year, token)
         == Upsert(Filing(references, i, k, year, token), references[i])
  {
    FiledBefore(references, i, year, token);
    var r, filed := references[i], Filing(references, i, k, year, token);
    assert r.tokens[..k + 1] == r.tokens[..k] + [token];
    if token in r.tokens[..k] {
      assert filed[|filed| - 1].id == r.id;
    }
  }

  type YearIndex = map<(int, string), seq<Reference>>

  ghost predicate Indexes(index: YearIndex, references: seq<Reference>) {
    forall year, token :: At(index, (year, token)) == Written(references, year, token)
  }

  ghost predicate FiledWords(index: YearIndex, references: seq<Reference>, i: nat, k: nat)
    requires i < |references| && k <= |references[i].tokens|
  {
    forall year, token :: At(index, (year, token)) == Filing(references, i, k, year, token)
  }

  lemma {:induction false} FileNextWord(index: YearIndex, references: seq<Reference>, i: nat, k: nat)
    requires i < |references| && k < |references[i].tokens| && DistinctIds(references)
    requires references[i].year.Some? && FiledWords(index, references, i, k)
    ensures var key := (references[i].year.value, references[i].tokens[k]);
            FiledWords(index[key := Upsert(At(index, key), references[i])], references, i, k + 1)
  {
    var r := references[i];
    var key := (r.year.value, r.tokens[k]);
    var more := index[key := Upsert(At(index, key), r)];
    forall year, token ensures At(more, (year, token)) == Filing(references, i, k + 1, year, token) {
      assert At(index, (year, token)) == Filing(references, i, k, year, token);
      if (year, token) == key {
        FileWord(references, i, k, year, token);
      } else {
        assert r.tokens[..k + 1] == r.tokens[..k] + [r.tokens[k]];
      }
    }
  }

  lemma {:induction false} FiledAllWords(index: YearIndex, references: seq<Reference>, i: nat)
    requires i < |references| && FiledWords(index, references, i, |references[i].tokens|)
    ensures Indexes(index, references[..i + 1])
  {
    assert references[i].tokens[..|references[i].tokens|] == references[i].tokens;
    forall year, token ensures At(index, (year, token)) == Written(references[..i + 1], year, token) {
      assert At(index, (year, token)) == Filing(references, i, |references[i].tokens|, year, token);
      assert references[..i + 1][..i] == references[..i];
    }
  }

  lemma {:induction false} Unfiled(index: YearIndex, references: seq<Reference>, i: nat)
    requires i < |references| && Indexes(index, references[..i])
    ensures FiledWords(index, references, i, 0)
    ensures references[i].year.None? ==> Indexes(index, references[..i + 1])
  {
    forall year, token ensures At(index, (year, token)) == Filing(references, i, 0, year, token) {
      assert At(index, (year, token)) == Written(references[..i], year, token);
    }
    if references[i].year.None? {
      forall year, token ensures At(index, (year, token)) == Written(references[..i + 1], year, token) {
        assert At(index, (year, token)) == Written(references[..i], year, token);
        assert references[..i + 1][..i] == references[..i];
      }
    }
  }

  method IndexByAuthorYear(references: seq<Reference>) returns (index: YearIndex)
    requires DistinctIds(references)
    ensures Indexes(index, references)
  {
    index := map[];
    for i := 0 to |references|
      invariant Indexes(index, references[..i])
    {
      var r := references[i];
      Unfiled(index, references, i);
      if r.year.Some? {
        for k := 0 to |r.tokens|
          invariant FiledWords(index, references, i, k)
        {
          FileNextWord(index, references, i, k);
          var key := (r.year.value, r.tokens[k]);
          index := index[key := Upsert(At(index, key), r)];
        }
        FiledAllWords(index, references, i);
      }
    }
    assert references[..|references|] == references;
  }

  // ------------------------------------------------------------ judging a mention

  /** Something in the document was not read cleanly. */
  ghost predicate Unclear(bibliographyRead: bool, truncated: bool, references: seq<Reference>, mentions: seq<Mention>) {
    || !bibliographyRead || truncated
    || (exists i :: 0 <= i < |references| && references[i].parser != Parsed)
    || (exists i :: 0 <= i < |mentions| && mentions[i].parser != Parsed)
  }

  /** Every number, or the author and year, picks out exactly one cleanly read reference. */
  ghost predicate Resolves(references: seq<Reference>, m: Mention) {
    if m.numbers != [] then AllSole(references, m.numbers) else Sole(Matched(references, m))
  }

  ghost predicate AllSole(references: seq<Reference>, numbers: seq<int>) {
    forall k :: 0 <= k < |numbers| ==> Sole(Numbered(references, numbers[k]))
  }

  ghost predicate OneCandidateEach(references: seq<Reference>, numbers: seq<int>) {
    forall k :: 0 <= k < |numbers| ==> |Numbered(references, numbers[k])| == 1
  }

  lemma OneCandidateMore(references: seq<Reference>, numbers: seq<int>, number: int)
    ensures OneCandidateEach(references, numbers + [number]) <==>
              OneCandidateEach(references, numbers) && |Numbered(references, number)| == 1
  {
    var more := numbers + [number];
    if OneCandidateEach(references, more) {
      assert more[|numbers|] == number;
      forall k | 0 <= k < |numbers| ensures |Numbered(references, numbers[k])| == 1 {
        assert more[k] == numbers[k];
      }
    }
  }

  ghost function StatusOf(references: seq<Reference>, unclear: bool, m: Mention): MentionStatus {
    if m.parser != Parsed then AmbiguousMapping
    else if Resolves(references, m) then Linked
    else if unclear then AmbiguousMapping
    else if Matched(references, m) != [] then Ambiguous
    else OrphanMention
  }

  function IdsOf(references: seq<Reference>): seq<int> {
    seq(|references|, i requires 0 <= i < |references| => references[i].id)
  }

  ghost function Judged(references: seq<Reference>, unclear: bool, m: Mention): Mention {
    var status := StatusOf(references, unclear, m);
    m.(status := status,
       parser := if m.parser != Parsed then m.parser else if status == AmbiguousMapping then Uncertain else Parsed,
       references := if m.parser != Parsed then [] else IdsOf(Matched(references, m)))
  }

  predicate AllParsed(references: seq<Reference>) {
    forall i :: 0 <= i < |references| ==> references[i].parser == Parsed
  }

  lemma {:induction false} OneEach(references: seq<Reference>, numbers: seq<int>)
    requires OneCandidateEach(references, numbers)
    ensures |AllNumbered(references, numbers)| == |numbers|
    ensures forall k :: 0 <= k < |numbers| ==>
              Numbered(references, numbers[k]) == [AllNumbered(references, numbers)[k]]
  {
    if numbers != [] {
      var front, number := numbers[..|numbers| - 1], numbers[|numbers| - 1];
      assert numbers == front + [number];
      OneCandidateMore(references, front, number);
      OneEach(references, front);
      forall k | 0 <= k < |numbers|
        ensures Numbered(references, numbers[k]) == [AllNumbered(references, numbers)[k]]
      {
        assert k < |front| ==> numbers[k] == front[k];
      }
    }
  }

  /** When each number has one candidate, all are sole exactly when all were read cleanly. */
  lemma SoleWhenParsed(references: seq<Reference>, numbers: seq<int>)
    requires OneCandidateEach(references, numbers)
    ensures AllParsed(AllNumbered(references, numbers)) <==> AllSole(references, numbers)
  {
    OneEach(references, numbers);
    var all := AllNumbered(references, numbers);
    if AllSole(references, numbers) {
      forall k | 0 <= k < |all| ensures all[k].parser == Parsed {
        assert Sole(Numbered(references, numbers[k]));
      }
    }
  }

  lemma SoleHasOneCandidate(references: seq<Reference>, numbers: seq<int>)
    requires AllSole(references, numbers)
    ensures OneCandidateEach(references, numbers)
  {
  }

  lemma AllNumberedMore(references: seq<Reference>, numbers: seq<int>, k: nat)
    requires k < |numbers|
    ensures AllNumbered(references, numbers[..k + 1])
         == AllNumbered(references, numbers[..k]) + Numbered(references, numbers[k])
    ensures OneCandidateEach(references, numbers[..k + 1]) <==>
              OneCandidateEach(references, numbers[..k]) && |Numbered(references, numbers[k])| == 1
  {
    assert numbers[..k + 1][..k] == numbers[..k];
    assert numbers[..k + 1] == numbers[..k] + [numbers[k]];
    OneCandidateMore(references, numbers[..k], numbers[k]);
  }

  lemma SoleDecided(references: seq<Reference>, numbers: seq<int>)
    ensures AllSole(references, numbers) <==>
              OneCandidateEach(references, numbers) && AllParsed(AllNumbered(references, numbers))
  {
    if AllSole(references, numbers) {
      SoleHasOneCandidate(references, numbers);
    }
    if OneCandidateEach(references, numbers) {
      SoleWhenParsed(references, numbers);
    }
  }

  method MatchNumbers(index: map<int, seq<Reference>>, ghost references: seq<Reference>, numbers: seq<int>)
    returns (matched: seq<Reference>, sole: bool)
    requires forall n :: At(index, n) == Numbered(references, n)
    ensures matched == AllNumbered(references, numbers)
    ensures sole <==> AllSole(references, numbers)
  {
    matched := [];
    var single := true;
    for k := 0 to |numbers|
      invariant matched == AllNumbered(references, numbers[..k])
      invariant single <==> OneCandidateEach(references, numbers[..k])
    {
      var found := At(index, numbers[k]);
      AllNumberedMore(references, numbers, k);
      single := single && |found| == 1;
      matched := matched + found;
    }
    assert numbers[..|numbers|] == numbers;
    sole := single && AllParsed(matched);
    SoleDecided(references, numbers);
  }

  method Judge(byNumber: map<int, seq<Reference>>, byAuthorYear: YearIndex, unclear: bool, m: Mention,
               ghost references: seq<Reference>)
    returns (judged: Mention)
    requires forall n :: At(byNumber, n) == Numbered(references, n)
    requires Indexes(byAuthorYear, references)
    ensures judged == Judged(references, unclear, m)
  {
    if m.parser != Parsed {
      return m.(status := AmbiguousMapping, references := []);
    }
    var matched, sole;
    if m.numbers != [] {
      matched, sole := MatchNumbers(byNumber, references, m.numbers);
    } else {
      matched := if m.year.Some? then At(byAuthorYear, (m.year.value, m.token)) else [];
      sole := Sole(matched);
    }
    var status :=
      if sole then Linked
      else if matched != [] then (if unclear then AmbiguousMapping else Ambiguous)
      else (if unclear then AmbiguousMapping else OrphanMention);
    judged := m.(status := status,
                 parser := if status == AmbiguousMapping then Uncertain else Parsed,
                 references := IdsOf(matched));
  }

  // ------------------------------------------------------------ the report

  datatype Report = Report(references: seq<Reference>, mentions: seq<Mention>, parser: ParserStatus)

  ghost predicate Cited(mentions: seq<Mention>, id: int) {
    exists k :: 0 <= k < |mentions| && mentions[k].status == Linked && id in mentions[k].references
  }

  ghost function LinkageOf(mentions: seq<Mention>, r: Reference): Linkage {
    if r.parser != Parsed then UncertainReference
    else if Cited(mentions, r.id) then ReferenceLinked
    else UncitedReference
  }

  ghost predicate Reports(
    references: seq<Reference>, mentions: seq<Mention>, bibliographyRead: bool, truncated: bool, report: Report)
  {
    var unclear := Unclear(bibliographyRead, truncated, references, mentions);
    && report.parser == (if unclear then Uncertain else Parsed)
    && |report.mentions| == |mentions| && |report.references| == |references|
    && (forall k :: 0 <= k < |mentions| ==>
          report.mentions[k] == Judged(references, unclear, mentions[k]))
    && forall i :: 0 <= i < |references| ==>
         report.references[i] == references[i].(linkage := LinkageOf(report.mentions, references[i]))
  }

  /** The linking half of citation parsing. */
  method Link(references: seq<Reference>, mentions: seq<Mention>, bibliographyRead: bool, truncated: bool)
    returns (report: Report)
    requires DistinctIds(references)
    ensures Reports(references, mentions, bibliographyRead, truncated, report)
  {
    var byNumber := IndexByNumber(references);
    var byAuthorYear := IndexByAuthorYear(references);
    var unclear := !bibliographyRead || truncated || !AllParsed(references)
                   || exists k :: 0 <= k < |mentions| && mentions[k].parser != Parsed;
    var judged := JudgeAll(byNumber, byAuthorYear, unclear, mentions, references);
    var linked := MarkLinked(references, judged);
    report := Report(linked, judged, if unclear then Uncertain else Parsed);
  }

  method JudgeAll(byNumber: map<int, seq<Reference>>, byAuthorYear: YearIndex, unclear: bool, mentions: seq<Mention>,
                  ghost references: seq<Reference>)
    returns (judged: seq<Mention>)
    requires forall n :: At(byNumber, n) == Numbered(references, n)
    requires Indexes(byAuthorYear, references)
    ensures |judged| == |mentions|
    ensures forall k :: 0 <= k < |mentions| ==> judged[k] == Judged(references, unclear, mentions[k])
  {
    judged := mentions;
    for k := 0 to |mentions|
      invariant |judged| == |mentions|
      invariant forall j :: 0 <= j < k ==> judged[j] == Judged(references, unclear, mentions[j])
      invariant forall j :: k <= j < |mentions| ==> judged[j] == mentions[j]
    {
      var m := Judge(byNumber, byAuthorYear, unclear, judged[k], references);
      judged := judged[k := m];
    }
  }

  method MarkLinked(references: seq<Reference>, mentions: seq<Mention>) returns (linked: seq<Reference>)
    ensures |linked| == |references|
    ensures forall i :: 0 <= i < |references| ==>
              linked[i] == references[i].(linkage := LinkageOf(mentions, references[i]))
  {
    var cited := CitedIds(mentions);
    linked := references;
    for i := 0 to |references|
      invariant |linked| == |references|
      invariant forall j :: 0 <= j < i ==>
                  linked[j] == references[j].(linkage := LinkageOf(mentions, references[j]))
      invariant forall j :: i <= j < |references| ==> linked[j] == references[j]
    {
      var r := linked[i];
      linked := linked[i := r.(linkage :=
        if r.parser != Parsed then UncertainReference
        else if r.id in cited then ReferenceLinked
        else UncitedReference)];
    }
  }

  method CitedIds(mentions: seq<Mention>) returns (cited: set<int>)
    ensures forall id :: id in cited <==> Cited(mentions, id)
  {
    cited := {};
    for k := 0 to |mentions|
      invariant forall id :: id in cited <==> Cited(mentions[..k], id)
    {
      assert mentions[..k + 1] == mentions[..k] + [mentions[k]];
      CitedOneMore(mentions[..k], mentions[k]);
      if mentions[k].status == Linked {
        cited := cited + set id | id in mentions[k].references;
      }
    }
    assert mentions[..|mentions|] == mentions;
  }

  lemma CitedOneMore(mentions: seq<Mention>, m: Mention)
    ensures forall id :: Cited(mentions + [m], id) <==>
              Cited(mentions, id) || (m.status == Linked && id in m.references)
  {
    forall id ensures Cited(mentions + [m], id) <==>
                        Cited(mentions, id) || (m.status == Linked && id in m.references) {
      var more := mentions + [m];
      if Cited(mentions, id) {
        var k :| 0 <= k < |mentions| && mentions[k].status == Linked && id in mentions[k].references;
        assert more[k] == mentions[k];
      }
      assert more[|mentions|] == m;
    }
  }

  // ------------------------------------------------------------ what the links mean

  ghost predicate NamesOnly(references: seq<Reference>, id: int, number: int) {
    forall i :: 0 <= i < |references| ==> (HasNumber(references[i], number) <==> references[i].id == id)
  }

  lemma SoleNumbered(references: seq<Reference>, number: int)
    requires DistinctIds(references) && Sole(Numbered(references, number))
    ensures var r := Numbered(references, number)[0];
            r in references && r.parser == Parsed && NamesOnly(references, r.id, number)
  {
    var found := Numbered(references, number);
    NumberedHolds(references, number, found[0]);
    var at :| 0 <= at < |references| && references[at] == found[0];
    forall i | 0 <= i < |references| ensures HasNumber(references[i], number) <==> references[i].id == found[0].id {
      NumberedHolds(references, number, references[i]);
      assert references[i].id == found[0].id ==> i == at;
      if HasNumber(references[i], number) {
        assert references[i] == found[0];
      }
    }
  }

  lemma SoleWritten(references: seq<Reference>, year: int, token: string)
    requires DistinctIds(references) && Sole(Written(references, year, token))
    ensures var r := Written(references, year, token)[0];
            && r in references && r.parser == Parsed
            && forall i :: 0 <= i < |references| ==>
                 (HasAuthorYear(references[i], year, token) <==> references[i].id == r.id)
  {
    var found := Written(references, year, token);
    WrittenHolds(references, year, token, found[0]);
    var at :| 0 <= at < |references| && references[at] == found[0];
    forall i | 0 <= i < |references|
      ensures HasAuthorYear(references[i], year, token) <==> references[i].id == found[0].id
    {
      WrittenHolds(references, year, token, references[i]);
      assert references[i].id == found[0].id ==> i == at;
      if HasAuthorYear(references[i], year, token) {
        assert references[i] == found[0];
      }
    }
  }

  /** A linked numeric mention names, number by number, the only reference that carries the number. */
  lemma LinkedNumbersResolve(references: seq<Reference>, unclear: bool, m: Mention, j: nat)
    requires DistinctIds(references) && m.numbers != [] && j < |m.numbers|
    requires Judged(references, unclear, m).status == Linked
    ensures var ids := Judged(references, unclear, m).references;
            && |ids| == |m.numbers| && NamesOnly(references, ids[j], m.numbers[j])
            && exists r :: r in references && r.id == ids[j] && r.parser == Parsed
  {
    SoleHasOneCandidate(references, m.numbers);
    OneEach(references, m.numbers);
    assert Sole(Numbered(references, m.numbers[j]));
    SoleNumbered(references, m.numbers[j]);
  }

  /** ... and, as its numbers are distinct, names no reference twice. */
  lemma LinkedNumbersNameDistinctReferences(references: seq<Reference>, unclear: bool, m: Mention)
    requires DistinctIds(references) && m.numbers != [] && Distinct(m.numbers)
    requires Judged(references, unclear, m).status == Linked
    ensures Distinct(Judged(references, unclear, m).references)
  {
    var ids := Judged(references, unclear, m).references;
    LinkedNumbersResolve(references, unclear, m, 0);
    forall i, j | 0 <= i < j < |ids| ensures ids[i] != ids[j] {
      LinkedNumbersResolve(references, unclear, m, i);
      LinkedNumbersResolve(references, unclear, m, j);
      var r :| r in references && r.id == ids[i] && r.parser == Parsed;
      assert HasNumber(r, m.numbers[i]);
    }
  }

  /** A linked author-year mention names the only reference of that year with the author's first word. */
  lemma LinkedAuthorResolves(references: seq<Reference>, unclear: bool, m: Mention)
    requires DistinctIds(references) && m.numbers == []
    requires Judged(references, unclear, m).status == Linked
    ensures var ids := Judged(references, unclear, m).references;
            && |ids| == 1 && m.year.Some?
            && (exists r :: r in references && r.id == ids[0] && r.parser == Parsed)
            && forall i :: 0 <= i < |references| ==>
                 (HasAuthorYear(references[i], m.year.value, m.token) <==> references[i].id == ids[0])
  {
    SoleWritten(references, m.year.value, m.token);
  }

  lemma LinkedNamesParsed(references: seq<Reference>, unclear: bool, m: Mention, id: int)
    requires DistinctIds(references)
    requires Judged(references, unclear, m).status == Linked && id in Judged(references, unclear, m).references
    ensures exists r :: r in references && r.id == id && r.parser == Parsed
  {
    var ids := Judged(references, unclear, m).references;
    var j :| 0 <= j < |ids| && ids[j] == id;
    if m.numbers != [] {
      LinkedNumbersResolve(references, unclear, m, 0);
      LinkedNumbersResolve(references, unclear, m, j);
    } else {
      LinkedAuthorResolves(references, unclear, m);
    }
  }

  /** A reference counts as linked exactly when some linked mention names it. */
  lemma LinkedExactlyWhenNamed(
    references: seq<Reference>, mentions: seq<Mention>, bibliographyRead: bool, truncated: bool, report: Report, i: nat)
    requires DistinctIds(references) && i < |references|
    requires Reports(references, mentions, bibliographyRead, truncated, report)
    ensures report.references[i].linkage == ReferenceLinked <==> Cited(report.mentions, references[i].id)
  {
    if Cited(report.mentions, references[i].id) {
      var k :| 0 <= k < |report.mentions| && report.mentions[k].status == Linked
               && references[i].id in report.mentions[k].references;
      LinkedNamesParsed(references, Unclear(bibliographyRead, truncated, references, mentions), mentions[k],
                        references[i].id);
    }
  }

  /**
   Only a report that read everything cleanly calls a mention an orphan or ambiguous:
   the first then means no reference matches at all, the second that some does but
   not one alone. Otherwise the mapping is what is doubtful.
   */
  lemma BlameNeedsAClearReport(
    references: seq<Reference>, mentions: seq<Mention>, bibliographyRead: bool, truncated: bool, report: Report, k: nat)
    requires Reports(references, mentions, bibliographyRead, truncated, report) && k < |mentions|
    ensures var m := report.mentions[k];
            && (m.status == OrphanMention || m.status == Ambiguous ==> report.parser == Parsed)
            && (m.status == AmbiguousMapping ==> report.parser != Parsed)
            && (m.status == AmbiguousMapping <==> m.parser != Parsed)
            && (m.status == OrphanMention <==>
                  report.parser == Parsed && forall r :: r in references ==> !Candidate(r, m))
            && (m.status == Ambiguous ==> exists r :: r in references && Candidate(r, m))
            && (m.status == Linked ==> mentions[k].parser == Parsed)
  {
    var unclear := Unclear(bibliographyRead, truncated, references, mentions);
    var m := mentions[k];
    forall r ensures r in Matched(references, m) <==> r in references && Candidate(r, m) {
      MatchedAreCandidates(references, m, r);
    }
    if Resolves(references, m) {
      SomethingMatched(references, m);
    }
    if Matched(references, m) != [] {
      assert Matched(references, m)[0] in Matched(references, m);
    }
  }

  predicate Candidate(r: Reference, m: Mention) {
    if m.numbers != [] then HasOneOf(r, m.numbers)
    else m.year.Some? && HasAuthorYear(r, m.year.value, m.token)
  }

  lemma MatchedAreCandidates(references: seq<Reference>, m: Mention, r: Reference)
    ensures r in Matched(references, m) <==> r in references && Candidate(r, m)
  {
    AllNumberedHolds(references, m.numbers, r);
    if m.year.Some? {
      WrittenHolds(references, m.year.value, m.token, r);
    }
  }

  lemma SomethingMatched(references: seq<Reference>, m: Mention)
    requires Resolves(references, m)
    ensures Matched(references, m) != []
  {
  }

  // ------------------------------------------------------------ exactly when a mention is linked

  /** Reference `i`, read cleanly, is the only one that carries the number explicitly. */
  predicate OnlyCarrier(references: seq<Reference>, n: int, i: int) {
    && 0 <= i < |references| && references[i].parser == Parsed
    && forall j :: 0 <= j < |references| ==> (references[j].explicit && references[j].number == Some(n) <==> j == i)
  }

  /** Reference `i`, read cleanly, is the only one of that year with that author word. */
  predicate OnlyWriter(references: seq<Reference>, year: int, token: string, i: int) {
    && 0 <= i < |references| && references[i].parser == Parsed
    && forall j :: 0 <= j < |references| ==>
         (references[j].year == Some(year) && token in references[j].tokens <==> j == i)
  }

  ghost predicate CarriedOnce(references: seq<Reference>, n: int) {
    exists i :: OnlyCarrier(references, n, i)
  }

  ghost predicate WrittenOnce(references: seq<Reference>, year: int, token: string) {
    exists i :: OnlyWriter(references, year, token, i)
  }

  /** Each number is carried by one reference alone, or the author and year are those of one alone; all read cleanly. */
  ghost predicate PointsToOne(references: seq<Reference>, m: Mention) {
    && (m.numbers != [] ==> forall k :: 0 <= k < |m.numbers| ==> CarriedOnce(references, m.numbers[k]))
    && (m.numbers == [] ==> m.year.Some? && WrittenOnce(references, m.year.value, m.token))
  }

  /** The reference carries one of the mention's numbers, or has its year and author word. */
  predicate PointedTo(r: Reference, m: Mention) {
    if m.numbers != [] then r.explicit && exists k :: 0 <= k < |m.numbers| && r.number == Some(m.numbers[k])
    else m.year.Some? && r.year == m.year && m.token in r.tokens
  }

  predicate AllClear(references: seq<Reference>, mentions: seq<Mention>, bibliographyRead: bool, truncated: bool) {
    && bibliographyRead && !truncated
    && (forall i :: 0 <= i < |references| ==> references[i].parser == Parsed)
    && forall i :: 0 <= i < |mentions| ==> mentions[i].parser == Parsed
  }

  lemma {:induction false} OneNumbered(references: seq<Reference>, n: int, i: int)
    requires forall j :: 0 <= j < |references| ==> (HasNumber(references[j], n) <==> j == i)
    ensures Numbered(references, n) == if 0 <= i < |references| then [references[i]] else []
  {
    if references != [] {
      OneNumbered(references[..|references| - 1], n, i);
    }
  }

  lemma {:induction false} OneWritten(references: seq<Reference>, year: int, token: string, i: int)
    requires forall j :: 0 <= j < |references| ==> (HasAuthorYear(references[j], year, token) <==> j == i)
    ensures Written(references, year, token) == if 0 <= i < |references| then [references[i]] else []
  {
    if references != [] {
      OneWritten(references[..|references| - 1], year, token, i);
    }
  }

  lemma SoleIsCarriedOnce(references: seq<Reference>, n: int)
    requires DistinctIds(references)
    ensures Sole(Numbered(references, n)) <==> CarriedOnce(references, n)
  {
    if Sole(Numbered(references, n)) {
      SoleNumbered(references, n);
      var r := Numbered(references, n)[0];
      var i :| 0 <= i < |references| && references[i] == r;
      assert forall j :: 0 <= j < |references| ==> (HasNumber(references[j], n) <==> j == i);
      assert OnlyCarrier(references, n, i);
    }
    if i :| OnlyCarrier(references, n, i) {
      assert forall j :: 0 <= j < |references| ==> (HasNumber(references[j], n) <==> j == i);
      OneNumbered(references, n, i);
    }
  }

  lemma SoleIsWrittenOnce(references: seq<Reference>, year: int, token: string)
    requires DistinctIds(references)
    ensures Sole(Written(references, year, token)) <==> WrittenOnce(references, year, token)
  {
    if Sole(Written(references, year, token)) {
      SoleWritten(references, year, token);
      var r := Written(references, year, token)[0];
      var i :| 0 <= i < |references| && references[i] == r;
      assert forall j :: 0 <= j < |references| ==> (HasAuthorYear(references[j], year, token) <==> j == i);
      assert OnlyWriter(references, year, token, i);
    }
    if i :| OnlyWriter(references, year, token, i) {
      assert forall j :: 0 <= j < |references| ==> (HasAuthorYear(references[j], year, token) <==> j == i);
      OneWritten(references, year, token, i);
    }
  }

  lemma ResolvesExactly(references: seq<Reference>, m: Mention)
    requires DistinctIds(references)
    ensures Resolves(references, m) <==> PointsToOne(references, m)
  {
    if m.numbers != [] {
      forall k | 0 <= k < |m.numbers|
        ensures Sole(Numbered(references, m.numbers[k])) <==> CarriedOnce(references, m.numbers[k])
      {
        SoleIsCarriedOnce(references, m.numbers[k]);
      }
    } else if m.year.Some? {
      SoleIsWrittenOnce(references, m.year.value, m.token);
    }
  }

  lemma CandidateIsPointedTo(r: Reference, m: Mention)
    ensures Candidate(r, m) <==> PointedTo(r, m)
  {
    if m.numbers != [] {
      if k :| 0 <= k < |m.numbers| && HasNumber(r, m.numbers[k]) {
        assert r.number == Some(m.numbers[k]);
      }
      if r.explicit {
        if k :| 0 <= k < |m.numbers| && r.number == Some(m.numbers[k]) {
          assert HasNumber(r, m.numbers[k]);
        }
      }
    }
  }

  /**
   Every status in both directions. A mention read cleanly is linked exactly when what
   it gives points to one cleanly read reference each; otherwise, in a report with
   nothing unclear, it is ambiguous if it points to some and an orphan if to none.
   */
  lemma StatusExactly(
    references: seq<Reference>, mentions: seq<Mention>, bibliographyRead: bool, truncated: bool, report: Report, k: nat)
    requires DistinctIds(references) && k < |mentions|
    requires Reports(references, mentions, bibliographyRead, truncated, report)
    ensures var m, status := mentions[k], report.mentions[k].status;
            var clear := AllClear(references, mentions, bibliographyRead, truncated);
            var some := exists i :: 0 <= i < |references| && PointedTo(references[i], m);
            && (status == Linked <==> m.parser == Parsed && PointsToOne(references, m))
            && (status == Ambiguous <==> clear && !PointsToOne(references, m) && some)
            && (status == OrphanMention <==> clear && !PointsToOne(references, m) && !some)
            && (report.parser == Parsed <==> clear)
  {
    var m := mentions[k];
    ResolvesExactly(references, m);
    assert Unclear(bibliographyRead, truncated, references, mentions)
      <==> !AllClear(references, mentions, bibliographyRead, truncated);
    SomeMatchedExactly(references, m);
  }

  lemma SomeMatchedExactly(references: seq<Reference>, m: Mention)
    ensures Matched(references, m) != [] <==> exists i :: 0 <= i < |references| && PointedTo(references[i], m)
  {
    if Matched(references, m) != [] {
      var r := Matched(references, m)[0];
      MatchedAreCandidates(references, m, r);
      CandidateIsPointedTo(r, m);
      var i :| 0 <= i < |references| && references[i] == r;
    }
    if i :| 0 <= i < |references| && PointedTo(references[i], m) {
      MatchedAreCandidates(references, m, references[i]);
      CandidateIsPointedTo(references[i], m);
    }
  }

  /** A cleanly read mention lists exactly the references it points to, linked or not; any other lists none. */
  lemma ListsExactlyPointedTo(
    references: seq<Reference>, mentions: seq<Mention>, bibliographyRead: bool, truncated: bool, report: Report,
    k: nat, id: int)
    requires k < |mentions| && Reports(references, mentions, bibliographyRead, truncated, report)
    ensures id in report.mentions[k].references <==>
              && mentions[k].parser == Parsed
              && exists i :: 0 <= i < |references| && references[i].id == id && PointedTo(references[i], mentions[k])
  {
    var m := mentions[k];
    var matched := Matched(references, m);
    if m.parser == Parsed {
      if j :| 0 <= j < |matched| && matched[j].id == id {
        MatchedAreCandidates(references, m, matched[j]);
        CandidateIsPointedTo(matched[j], m);
        var i :| 0 <= i < |references| && references[i] == matched[j];
      }
      if i :| 0 <= i < |references| && references[i].id == id && PointedTo(references[i], m) {
        MatchedAreCandidates(references, m, references[i]);
        CandidateIsPointedTo(references[i], m);
        var j :| 0 <= j < |matched| && matched[j] == references[i];
        assert IdsOf(matched)[j] == id;
      }
    }
  }

  /** A cleanly read reference counts as linked exactly when a cleanly read mention that points to one each points to it. */
  lemma LinkageExactly(
    references: seq<Reference>, mentions: seq<Mention>, bibliographyRead: bool, truncated: bool, report: Report, i: nat)
    requires DistinctIds(references) && i < |references|
    requires Reports(references, mentions, bibliographyRead, truncated, report)
    ensures report.references[i].linkage == ReferenceLinked <==>
              exists k :: 0 <= k < |mentions| && mentions[k].parser == Parsed
                          && PointsToOne(references, mentions[k]) && PointedTo(references[i], mentions[k])
    ensures report.references[i].linkage == UncertainReference <==> references[i].parser != Parsed
  {
    LinkedExactlyWhenNamed(references, mentions, bibliographyRead, truncated, report, i);
    forall k | 0 <= k < |mentions|
      ensures report.mentions[k].status == Linked && references[i].id in report.mentions[k].references <==>
                mentions[k].parser == Parsed && PointsToOne(references, mentions[k])
                && PointedTo(references[i], mentions[k])
    {
      StatusExactly(references, mentions, bibliographyRead, truncated, report, k);
      ListsExactlyPointedTo(references, mentions, bibliographyRead, truncated, report, k, references[i].id);
    }
  }

  // ------------------------------------------------------------ the counts

  datatype Counts = Counts(
    linked: nat, orphans: nat, ambiguous: nat, ambiguousMapping: nat, uncited: nat,
    uncertainReferences: nat, uncertainMentions: nat)

  function Status(mentions: seq<Mention>, status: MentionStatus): nat {
    if mentions == [] then 0
    else Status(mentions[..|mentions| - 1], status) + if mentions[|mentions| - 1].status == status then 1 else 0
  }

  function Class(references: seq<Reference>, linkage: Linkage): nat {
    if references == [] then 0
    else
      Class(references[..|references| - 1], linkage)
      + if references[|references| - 1].linkage == linkage then 1 else 0
  }

  /** The report's counts, taken the way the report takes them: from the mentions and the cited set. */
  method AsDict(report: Report) returns (c: Counts)
    ensures c.linked == Status(report.mentions, Linked)
    ensures c.orphans == Status(report.mentions, OrphanMention)
    ensures c.ambiguousMapping == Status(report.mentions, AmbiguousMapping)
    ensures c.ambiguous == Status(report.mentions, Ambiguous) + Status(report.mentions, AmbiguousMapping)
    ensures c.uncertainMentions == Unread(report.mentions)
    ensures c.uncited == Uncited(report.references, report.mentions)
    ensures c.uncertainReferences == UnreadReferences(report.references)
  {
    var linked, orphans, ambiguous, mapping, unread := 0, 0, 0, 0, 0;
    for k := 0 to |report.mentions|
      invariant linked == Status(report.mentions[..k], Linked)
      invariant orphans == Status(report.mentions[..k], OrphanMention)
      invariant ambiguous == Status(report.mentions[..k], Ambiguous)
      invariant mapping == Status(report.mentions[..k], AmbiguousMapping)
      invariant unread == Unread(report.mentions[..k])
    {
      assert report.mentions[..k + 1][..k] == report.mentions[..k];
      unread := unread + if report.mentions[k].parser != Parsed then 1 else 0;
      match report.mentions[k].status
      case Linked => linked := linked + 1;
      case OrphanMention => orphans := orphans + 1;
      case Ambiguous => ambiguous := ambiguous + 1;
      case AmbiguousMapping => mapping := mapping + 1;
    }
    assert report.mentions[..|report.mentions|] == report.mentions;
    var cited := CitedIds(report.mentions);
    var uncited, uncertain := 0, 0;
    for i := 0 to |report.references|
      invariant uncited == Uncited(report.references[..i], report.mentions)
      invariant uncertain == UnreadReferences(report.references[..i])
    {
      var r := report.references[i];
      assert report.references[..i + 1][..i] == report.references[..i];
      uncited := uncited + if r.parser == Parsed && r.id !in cited then 1 else 0;
      uncertain := uncertain + if r.parser != Parsed then 1 else 0;
    }
    assert report.references[..|report.references|] == report.references;
    c := Counts(linked, orphans, ambiguous + mapping, mapping, uncited, uncertain, unread);
  }

  function Unread(mentions: seq<Mention>): nat {
    if mentions == [] then 0
    else Unread(mentions[..|mentions| - 1]) + if mentions[|mentions| - 1].parser != Parsed then 1 else 0
  }

  function UnreadReferences(references: seq<Reference>): nat {
    if references == [] then 0
    else
      UnreadReferences(references[..|references| - 1])
      + if references[|references| - 1].parser != Parsed then 1 else 0
  }

  ghost function Uncited(references: seq<Reference>, mentions: seq<Mention>): nat {
    if references == [] then 0
    else
      var last := references[|references| - 1];
      Uncited(references[..|references| - 1], mentions)
      + if last.parser == Parsed && !Cited(mentions, last.id) then 1 else 0
  }

  lemma {:induction false} MentionCountsSum(mentions: seq<Mention>)
    ensures Status(mentions, Linked) + Status(mentions, OrphanMention) + Status(mentions, Ambiguous)
            + Status(mentions, AmbiguousMapping) == |mentions|
  {
    if mentions != [] {
      MentionCountsSum(mentions[..|mentions| - 1]);
    }
  }

  lemma {:induction false} UnreadAreDoubtfulMappings(mentions: seq<Mention>)
    requires forall k :: 0 <= k < |mentions| ==> (mentions[k].status == AmbiguousMapping <==> mentions[k].parser != Parsed)
    ensures Unread(mentions) == Status(mentions, AmbiguousMapping)
  {
    if mentions != [] {
      UnreadAreDoubtfulMappings(mentions[..|mentions| - 1]);
    }
  }

  lemma {:induction false} ReferenceClassesSum(references: seq<Reference>, mentions: seq<Mention>)
    requires forall i :: 0 <= i < |references| ==> references[i].linkage == LinkageOf(mentions, references[i])
    ensures Class(references, UncitedReference) == Uncited(references, mentions)
    ensures Class(references, UncertainReference) == UnreadReferences(references)
    ensures Class(references, ReferenceLinked) + Uncited(references, mentions) + UnreadReferences(references)
         == |references|
  {
    if references != [] {
      ReferenceClassesSum(references[..|references| - 1], mentions);
    }
  }

  /** Every mention and every reference of a report falls into exactly one of the counted classes. */
  lemma CountsAddUp(
    references: seq<Reference>, mentions: seq<Mention>, bibliographyRead: bool, truncated: bool,
    report: Report, c: Counts)
    requires Reports(references, mentions, bibliographyRead, truncated, report)
    requires c.linked == Status(report.mentions, Linked) && c.orphans == Status(report.mentions, OrphanMention)
    requires c.ambiguousMapping == Status(report.mentions, AmbiguousMapping)
    requires c.ambiguous == Status(report.mentions, Ambiguous) + Status(report.mentions, AmbiguousMapping)
    requires c.uncertainMentions == Unread(report.mentions)
    requires c.uncited == Uncited(report.references, report.mentions)
    requires c.uncertainReferences == UnreadReferences(report.references)
    ensures c.linked + c.orphans + c.ambiguous == |mentions|
    ensures c.uncertainMentions == c.ambiguousMapping
    ensures Class(report.references, ReferenceLinked) + c.uncited + c.uncertainReferences == |references|
    ensures report.parser == Parsed ==> c.uncertainReferences == 0 && c.ambiguousMapping == 0
  {
    MentionCountsSum(report.mentions);
    forall k | 0 <= k < |mentions|
      ensures report.mentions[k].status == AmbiguousMapping <==> report.mentions[k].parser != Parsed
      ensures report.parser == Parsed ==> report.mentions[k].parser == Parsed
    {
      BlameNeedsAClearReport(references, mentions, bibliographyRead, truncated, report, k);
    }
    UnreadAreDoubtfulMappings(report.mentions);
    forall i | 0 <= i < |report.references|
      ensures report.references[i].linkage == LinkageOf(report.mentions, report.references[i])
    {
      assert report.references[i] == references[i].(linkage := LinkageOf(report.mentions, references[i]));
    }
    ReferenceClassesSum(report.references, report.mentions);
    if report.parser == Parsed {
      NothingUnread(report.mentions, report.references);
    }
  }

  lemma {:induction false} NothingUnread(mentions: seq<Mention>, references: seq<Reference>)
    requires forall k :: 0 <= k < |mentions| ==> mentions[k].parser == Parsed
    requires forall i :: 0 <= i < |references| ==> references[i].parser == Parsed
    ensures Unread(mentions) == 0 && UnreadReferences(references) == 0
    decreases |mentions|, |references|
  {
    if mentions != [] {
      NothingUnread(mentions[..|mentions| - 1], references);
    } else if references != [] {
      NothingUnread(mentions, references[..|references| - 1]);
    }
  }
}
