/**
 Nesting headings with one monotonic stack. The parent found by popping is shown to
 be the nearest preceding heading of strictly smaller level.
 */
module SectionNesting {
  import opened Base

  /** Scanning back from position `i`: the first heading above `level`. */
  function NearestSmaller(levels: seq<int>, i: nat, level: int): (r: Option<nat>)
    requires i <= |levels|
    ensures r.Some? ==>
              && r.value < i && levels[r.value] < level
              && forall m :: r.value < m < i ==> levels[m] >= level
    ensures r.None? ==> forall m :: 0 <= m < i ==> levels[m] >= level
  {
    if i == 0 then None
    else if levels[i - 1] < level then Some(i - 1)
    else NearestSmaller(levels, i - 1, level)
  }

  lemma {:induction false} NearestSmallerIgnoresLater(levels: seq<int>, later: seq<int>, i: nat, level: int)
    requires i <= |levels|
    ensures NearestSmaller(levels + later, i, level) == NearestSmaller(levels, i, level)
  {
    if i > 0 {
      NearestSmallerIgnoresLater(levels, later, i - 1, level);
    }
  }

  datatype Entry = Entry(level: int, id: int)

  /** First position after the entry below `where[j]`. */
  function After(where: seq<int>, j: int): int
    requires 0 <= j < |where|
  {
    if j == 0 then 0 else where[j - 1] + 1
  }

  /** The positions on the stack: the last heading and, below each, the nearest one above its level. */
  ghost predicate Chain(where: seq<int>, levels: seq<int>) {
    && (levels == [] ==> where == [])
    && (levels != [] ==> where != [] && where[|where| - 1] == |levels| - 1)
    && Tower(where, levels)
  }

  ghost predicate Tower(where: seq<int>, levels: seq<int>) {
    forall j :: 0 <= j < |where| ==> 0 <= where[j] < |levels| && Covers(where, levels, j)
  }

  /** Nothing between two neighbours on the stack is above the upper one's level. */
  ghost predicate Covers(where: seq<int>, levels: seq<int>, j: int)
    requires 0 <= j < |where| && 0 <= where[j] < |levels|
  {
    forall m :: 0 <= m && After(where, j) <= m < where[j] ==> levels[m] >= levels[where[j]]
  }

  ghost predicate Shows(stack: seq<Entry>, where: seq<int>, levels: seq<int>, ids: seq<int>) {
    && |stack| == |where| && |ids| == |levels|
    && forall j :: 0 <= j < |where| ==> Mirrors(stack, where, levels, ids, j)
  }

  ghost predicate Mirrors(stack: seq<Entry>, where: seq<int>, levels: seq<int>, ids: seq<int>, j: int)
    requires 0 <= j < |stack| && j < |where| && |ids| == |levels|
  {
    0 <= where[j] < |levels| && stack[j] == Entry(levels[where[j]], ids[where[j]])
  }

  function IdAt(ids: seq<int>, position: Option<nat>): Option<int>
    requires position.Some? ==> position.value < |ids|
  {
    if position.None? then None else Some(ids[position.value])
  }

  /** `left` is what remains of the stack while every heading from `covered` on is too deep to be the parent. */
  ghost predicate Popping(left: seq<int>, levels: seq<int>, level: int, covered: int) {
    && Tower(left, levels)
    && covered == After(left + [|levels|], |left|)
    && 0 <= covered <= |levels|
    && forall m :: covered <= m < |levels| ==> levels[m] >= level
  }

  lemma ChainStartsPopping(where: seq<int>, levels: seq<int>, level: int)
    requires Chain(where, levels)
    ensures Popping(where, levels, level, |levels|)
  {
    if where != [] {
      assert where[|where| - 1] < |levels|;
    }
  }

  lemma PopOne(left: seq<int>, levels: seq<int>, level: int, covered: int)
    requires Popping(left, levels, level, covered) && left != []
    requires levels[left[|left| - 1]] >= level
    ensures Popping(left[..|left| - 1], levels, level, After(left, |left| - 1))
  {
    var j := |left| - 1;
    var rest := left[..j];
    assert Covers(left, levels, j);
    forall k | 0 <= k < j ensures Covers(rest, levels, k) {
      assert Covers(left, levels, k) && After(rest, k) == After(left, k);
    }
    forall m | After(left, j) <= m < |levels| ensures levels[m] >= level {
      if m < left[j] {
        assert levels[m] >= levels[left[j]];
      }
    }
  }

  lemma TowerTopIsNearest(left: seq<int>, levels: seq<int>, level: int, covered: int)
    requires Popping(left, levels, level, covered)
    requires left != [] ==> levels[left[|left| - 1]] < level
    ensures NearestSmaller(levels, |levels|, level)
         == if left == [] then None else Some(left[|left| - 1])
  {
  }

  lemma PushKeepsChain(where: seq<int>, levels: seq<int>, level: int, covered: int)
    requires Popping(where, levels, level, covered)
    requires where != [] ==> levels[where[|where| - 1]] < level
    ensures Chain(where + [|levels|], levels + [level])
  {
    var w, l := where + [|levels|], levels + [level];
    assert forall j :: 0 <= j < |where| ==> w[j] == where[j] && l[w[j]] == levels[where[j]];
    forall j | 0 <= j < |w| ensures Covers(w, l, j) {
      if j < |where| {
        assert Covers(where, levels, j) && After(where, j) == After(w, j);
      }
    }
  }

  lemma ShowsOneMore(stack: seq<Entry>, where: seq<int>, levels: seq<int>, ids: seq<int>, level: int, id: int)
    requires Shows(stack, where, levels, ids)
    ensures Shows(stack + [Entry(level, id)], where + [|levels|], levels + [level], ids + [id])
  {
    var s, w := stack + [Entry(level, id)], where + [|levels|];
    forall j | 0 <= j < |w| ensures Mirrors(s, w, levels + [level], ids + [id], j) {
      assert j < |where| ==> Mirrors(stack, where, levels, ids, j);
    }
  }

  lemma ShowsTop(stack: seq<Entry>, where: seq<int>, levels: seq<int>, ids: seq<int>)
    requires Shows(stack, where, levels, ids) && where != []
    ensures 0 <= where[|where| - 1] < |levels|
    ensures stack[|stack| - 1] == Entry(levels[where[|where| - 1]], ids[where[|where| - 1]])
    ensures Shows(stack[..|stack| - 1], where[..|where| - 1], levels, ids)
  {
    var top := |stack| - 1;
    assert Mirrors(stack, where, levels, ids, top);
    forall j | 0 <= j < top ensures Mirrors(stack[..top], where[..top], levels, ids, j) {
      assert Mirrors(stack, where, levels, ids, j);
    }
  }

  lemma PoppedStackGivesParent(rest: seq<Entry>, left: seq<int>, levels: seq<int>, ids: seq<int>,
                               level: int, id: int, covered: int)
    requires Popping(left, levels, level, covered) && Shows(rest, left, levels, ids)
    requires rest != [] ==> rest[|rest| - 1].level < level
    ensures (if rest != [] then Some(rest[|rest| - 1].id) else None)
         == IdAt(ids, NearestSmaller(levels, |levels|, level))
    ensures Chain(left + [|levels|], levels + [level])
    ensures Shows(rest + [Entry(level, id)], left + [|levels|], levels + [level], ids + [id])
  {
    if left != [] {
      ShowsTop(rest, left, levels, ids);
      assert levels[left[|left| - 1]] < level;
    }
    PushKeepsChain(left, levels, level, covered);
    TowerTopIsNearest(left, levels, level, covered);
    ShowsOneMore(rest, left, levels, ids, level, id);
  }

  /**
   One heading: pop until the top is above `level`, take it as parent, push. The
   ghost arguments are the positions on the stack and all headings so far.
   */
  method PushHeading(stack: seq<Entry>, level: int, id: int,
                     ghost where: seq<int>, ghost levels: seq<int>, ghost ids: seq<int>)
    returns (pushed: seq<Entry>, parent: Option<int>, ghost where': seq<int>)
    requires Chain(where, levels) && Shows(stack, where, levels, ids)
    ensures parent == IdAt(ids, NearestSmaller(levels, |levels|, level))
    ensures Chain(where', levels + [level]) && Shows(pushed, where', levels + [level], ids + [id])
    ensures pushed != [] && pushed[|pushed| - 1] == Entry(level, id)
  {
    var rest := stack;
    ghost var left: seq<int>, covered: int := where, |levels|;
    ChainStartsPopping(where, levels, level);
    while rest != [] && rest[|rest| - 1].level >= level
      invariant Popping(left, levels, level, covered) && Shows(rest, left, levels, ids)
      decreases |rest|
    {
      PopStep(rest, left, levels, ids, level, covered);
      covered := After(left, |left| - 1);
      left := left[..|left| - 1];
      rest := rest[..|rest| - 1];
    }
    PoppedStackGivesParent(rest, left, levels, ids, level, id, covered);
    parent := if rest != [] then Some(rest[|rest| - 1].id) else None;
    where' := left + [|levels|];
    pushed := rest + [Entry(level, id)];
  }

  lemma PopStep(rest: seq<Entry>, left: seq<int>, levels: seq<int>, ids: seq<int>, level: int, covered: int)
    requires Popping(left, levels, level, covered) && Shows(rest, left, levels, ids)
    requires rest != [] && rest[|rest| - 1].level >= level
    ensures left != [] && Popping(left[..|left| - 1], levels, level, After(left, |left| - 1))
    ensures Shows(rest[..|rest| - 1], left[..|left| - 1], levels, ids)
  {
    ShowsTop(rest, left, levels, ids);
    PopOne(left, levels, level, covered);
  }
}
