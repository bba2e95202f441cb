/**
 The sections that belong to a bibliography: a worklist over the child lists finds
 exactly those whose chain of parents reaches a bibliography heading. The parent map
 comes from outside and may be cyclic.
 */
module BibliographyClosure {
  import opened Base

  /** `heading` says whether the section's text is a bibliography heading. */
  datatype Section = Section(id: string, parent: Option<string>, heading: bool)

  type ById = map<string, Section>

  /** A later section with the same id takes its place; one without an id is skipped. */
  function Indexed(sections: seq<Section>): ById {
    if sections == [] then map[]
    else
      var last := sections[|sections| - 1];
      var front := Indexed(sections[..|sections| - 1]);
      if last.id == "" then front else front[last.id := last]
  }

  /** Position `i` is the last with its id, and the id is not empty: it is the section of that id. */
  predicate Counts(sections: seq<Section>, i: int) {
    && 0 <= i < |sections| && sections[i].id != ""
    && forall j :: i < j < |sections| ==> sections[j].id != sections[i].id
  }

  lemma {:induction false} IndexedIsLast(sections: seq<Section>, id: string)
    ensures id in Indexed(sections) <==> exists i :: Counts(sections, i) && sections[i].id == id
    ensures forall i :: Counts(sections, i) && sections[i].id == id ==> Indexed(sections)[id] == sections[i]
  {
    if sections != [] {
      var last := |sections| - 1;
      var front := sections[..last];
      IndexedIsLast(front, id);
      if sections[last].id == id && id != "" {
        assert Counts(sections, last);
      } else {
        forall i ensures Counts(sections, i) && sections[i].id == id <==> Counts(front, i) && front[i].id == id {
          if Counts(front, i) && front[i].id == id {
            assert sections[i] == front[i];
          }
        }
      }
    }
  }

  /** Positions of sections that count, each hanging under the next, up to a bibliography heading. */
  ghost predicate Climbs(sections: seq<Section>, path: seq<int>) {
    && path != [] && (forall k :: 0 <= k < |path| ==> Counts(sections, path[k]))
    && sections[path[|path| - 1]].heading
    && forall k :: 0 <= k < |path| - 1 ==> HangsUnder(sections, path, k)
  }

  predicate HangsUnder(sections: seq<Section>, path: seq<int>, k: int)
    requires 0 <= k < |path| - 1 && 0 <= path[k] < |sections| && 0 <= path[k + 1] < |sections|
  {
    sections[path[k]].parent == Some(sections[path[k + 1]].id)
  }

  /** The section of this id has a chain of parents that ends at a bibliography heading. */
  ghost predicate InBibliography(sections: seq<Section>, id: string) {
    exists path :: Climbs(sections, path) && sections[path[0]].id == id
  }

  lemma ClimbIsPath(sections: seq<Section>, path: seq<int>)
    requires Climbs(sections, path)
    ensures Belongs(Indexed(sections), sections[path[0]].id)
  {
    var byId := Indexed(sections);
    var ids := seq(|path|, k requires 0 <= k < |path| => sections[path[k]].id);
    forall k | 0 <= k < |path| ensures ids[k] in byId && byId[ids[k]] == sections[path[k]] {
      IndexedIsLast(sections, ids[k]);
    }
    forall k | 0 <= k < |ids| - 1 ensures ChildOf(byId, ids[k], ids[k + 1]) {
      assert HangsUnder(sections, path, k);
    }
    assert ClimbsToHeading(byId, ids);
  }

  lemma LongerClimb(sections: seq<Section>, i: int, above: seq<int>)
    requires Climbs(sections, above) && Counts(sections, i)
    requires sections[i].parent == Some(sections[above[0]].id)
    ensures Climbs(sections, [i] + above)
  {
    var path := [i] + above;
    forall k | 0 <= k < |path| - 1 ensures HangsUnder(sections, path, k) {
      if k > 0 {
        assert HangsUnder(sections, above, k - 1);
      }
    }
  }

  lemma RestClimbs(byId: ById, ids: seq<string>)
    requires ClimbsToHeading(byId, ids) && |ids| > 1
    ensures ClimbsToHeading(byId, ids[1..])
  {
    var rest := ids[1..];
    forall k | 0 <= k < |rest| - 1 ensures ChildOf(byId, rest[k], rest[k + 1]) {
      assert ChildOf(byId, ids[k + 1], ids[k + 1 + 1]);
    }
  }

  lemma {:induction false} PathIsClimb(sections: seq<Section>, ids: seq<string>) returns (path: seq<int>)
    requires ClimbsToHeading(Indexed(sections), ids)
    ensures Climbs(sections, path) && sections[path[0]].id == ids[0]
    decreases |ids|
  {
    var byId := Indexed(sections);
    assert ids[0] in byId by {
      assert |ids| > 1 ==> ChildOf(byId, ids[0], ids[0 + 1]);
    }
    IndexedIsLast(sections, ids[0]);
    var i :| Counts(sections, i) && sections[i].id == ids[0];
    if |ids| == 1 {
      path := [i];
    } else {
      assert ChildOf(byId, ids[0], ids[0 + 1]);
      RestClimbs(byId, ids);
      var above := PathIsClimb(sections, ids[1..]);
      LongerClimb(sections, i, above);
      path := [i] + above;
    }
  }

  lemma BelongsExactly(sections: seq<Section>, id: string)
    ensures Belongs(Indexed(sections), id) <==> InBibliography(sections, id)
  {
    if Belongs(Indexed(sections), id) {
      var ids :| ClimbsToHeading(Indexed(sections), ids) && ids[0] == id;
      var path := PathIsClimb(sections, ids);
    }
    if path :| Climbs(sections, path) && sections[path[0]].id == id {
      ClimbIsPath(sections, path);
    }
  }

  /** `child` hangs directly under `parent`, and both are known. */
  predicate ChildOf(byId: ById, child: string, parent: string) {
    child in byId && parent in byId && byId[child].parent == Some(parent)
  }

  /** A walk up the parents that ends at a bibliography heading. */
  ghost predicate ClimbsToHeading(byId: ById, path: seq<string>) {
    && path != [] && path[|path| - 1] in byId && byId[path[|path| - 1]].heading
    && forall k :: 0 <= k < |path| - 1 ==> ChildOf(byId, path[k], path[k + 1])
  }

  ghost predicate Belongs(byId: ById, id: string) {
    exists path :: ClimbsToHeading(byId, path) && path[0] == id
  }

  function Headings(byId: ById): set<string> {
    set id | id in byId && byId[id].heading
  }

  function ChildrenOf(children: map<string, seq<string>>, parent: string): seq<string> {
    if parent in children then children[parent] else []
  }

  /** The child lists of the sections in `done`. */
  ghost predicate Lists(byId: ById, done: set<string>, children: map<string, seq<string>>) {
    forall child, parent :: child in ChildrenOf(children, parent) <==> child in done && ChildOf(byId, child, parent)
  }

  method ListChildren(byId: ById) returns (children: map<string, seq<string>>)
    ensures Lists(byId, byId.Keys, children)
  {
    children := map[];
    var todo := byId.Keys;
    while todo != {}
      invariant todo <= byId.Keys
      invariant Lists(byId, byId.Keys - todo, children)
      decreases |todo|
    {
      var id :| id in todo;
      ghost var done := byId.Keys - todo;
      assert byId.Keys - (todo - {id}) == done + {id};
      var parent := byId[id].parent;
      if parent.Some? && parent.value in byId {
        var more := ChildrenOf(children, parent.value) + [id];
        ListOne(byId, done, children, id, parent.value);
        children := children[parent.value := more];
      }
      todo := todo - {id};
    }
    assert byId.Keys - {} == byId.Keys;
  }

  lemma ListOne(byId: ById, done: set<string>, children: map<string, seq<string>>, id: string, parent: string)
    requires Lists(byId, done, children) && ChildOf(byId, id, parent)
    ensures Lists(byId, done + {id}, children[parent := ChildrenOf(children, parent) + [id]])
  {
  }

  lemma HeadingsBelong(byId: ById, id: string)
    requires id in Headings(byId)
    ensures Belongs(byId, id)
  {
    assert ClimbsToHeading(byId, [id]);
  }

  lemma ChildrenBelong(byId: ById, child: string, parent: string)
    requires ChildOf(byId, child, parent) && Belongs(byId, parent)
    ensures Belongs(byId, child)
  {
    var path :| ClimbsToHeading(byId, path) && path[0] == parent;
    var longer := [child] + path;
    forall k | 0 <= k < |longer| - 1 ensures ChildOf(byId, longer[k], longer[k + 1]) {
      if k > 0 {
        assert ChildOf(byId, path[k - 1], path[k - 1 + 1]);
      }
    }
    assert ClimbsToHeading(byId, longer);
  }

  /** A set with the headings in it that is closed under children holds every section that climbs to one. */
  lemma {:induction false} ClosedHoldsPath(byId: ById, closed: set<string>, path: seq<string>)
    requires Headings(byId) <= closed && ClimbsToHeading(byId, path)
    requires forall child, parent :: parent in closed && ChildOf(byId, child, parent) ==> child in closed
    ensures path[0] in closed
    decreases |path|
  {
    if |path| > 1 {
      var rest := path[1..];
      RestClimbs(byId, path);
      ClosedHoldsPath(byId, closed, rest);
      assert ChildOf(byId, path[0], path[0 + 1]);
    }
  }

  /** What the worklist has found: members only, and every finished member's children too. */
  ghost predicate Working(byId: ById, found: set<string>, pending: seq<string>) {
    && Headings(byId) <= found <= byId.Keys
    && (forall id :: id in pending ==> id in found)
    && (forall id :: id in found ==> Belongs(byId, id))
    && forall child, parent ::
         parent in found && parent !in pending && ChildOf(byId, child, parent) ==> child in found
  }

  /** `parent` has been taken off the list and the first `i` of its children are in. */
  ghost predicate Visiting(
    byId: ById, found: set<string>, pending: seq<string>, parent: string, children: seq<string>, i: nat)
    requires i <= |children|
  {
    && Headings(byId) <= found <= byId.Keys && parent in found
    && (forall id :: id in pending ==> id in found)
    && (forall id :: id in found ==> Belongs(byId, id))
    && (forall k :: 0 <= k < i ==> children[k] in found)
    && forall child, p :: p in found && p !in pending && p != parent && ChildOf(byId, child, p) ==> child in found
  }

  lemma VisitOne(
    byId: ById, found: set<string>, pending: seq<string>, parent: string, children: seq<string>, i: nat)
    requires i < |children| && Visiting(byId, found, pending, parent, children, i)
    requires ChildOf(byId, children[i], parent) && children[i] !in found
    ensures Visiting(byId, found + {children[i]}, pending + [children[i]], parent, children, i + 1)
  {
    ChildrenBelong(byId, children[i], parent);
  }

  /**
   Exactly the ids of sections whose chain of parents ends at a bibliography heading,
   where of several sections with one id the last counts.
   */
  method SectionMembership(sections: seq<Section>) returns (members: set<string>)
    ensures forall id :: id in members <==> InBibliography(sections, id)
  {
    var byId := IndexById(sections);
    members := Closure(byId);
    forall id ensures id in members <==> InBibliography(sections, id) {
      BelongsExactly(sections, id);
    }
  }

  method Closure(byId: ById) returns (members: set<string>)
    ensures forall id :: id in members <==> Belongs(byId, id)
  {
    var matches := Headings(byId);
    if matches == {} {
      members := {};
      assert forall id :: !Belongs(byId, id);
      return;
    }
    var children := ListChildren(byId);
    members := matches;
    var pending := ToSeq(matches);
    forall id | id in matches ensures Belongs(byId, id) {
      HeadingsBelong(byId, id);
    }
    while pending != []
      invariant Working(byId, members, pending)
      decreases |byId.Keys - members|, |pending|
    {
      ghost var before := members;
      members, pending := Visit(byId, children, members, pending);
      if members != before {
        assert byId.Keys - members < byId.Keys - before;
        Smaller(byId.Keys - members, byId.Keys - before);
      }
    }
    forall id | Belongs(byId, id) ensures id in members {
      var path :| ClimbsToHeading(byId, path) && path[0] == id;
      ClosedHoldsPath(byId, members, path);
    }
  }

  lemma {:induction false} Smaller(a: set<string>, b: set<string>)
    requires a < b
    ensures |a| < |b|
  {
    var x :| x in b && x !in a;
    assert a <= b - {x};
    SmallerOrEqual(a, b - {x});
  }

  lemma {:induction false} SmallerOrEqual(a: set<string>, b: set<string>)
    requires a <= b
    ensures |a| <= |b|
    decreases a
  {
    if a != {} {
      var x :| x in a;
      SmallerOrEqual(a - {x}, b - {x});
    }
  }

  /** Take the last pending section and let its children in. */
  method Visit(byId: ById, children: map<string, seq<string>>, found: set<string>, pending: seq<string>)
    returns (members: set<string>, left: seq<string>)
    requires Working(byId, found, pending) && pending != []
    requires Lists(byId, byId.Keys, children)
    ensures Working(byId, members, left) && found <= members
    ensures members == found ==> |left| < |pending|
  {
    var parent := pending[|pending| - 1];
    members, left := found, pending[..|pending| - 1];
    var below := ChildrenOf(children, parent);
    assert pending == left + [parent];
    for i := 0 to |below|
      invariant Visiting(byId, members, left, parent, below, i)
      invariant found <= members && (members == found ==> |left| < |pending|)
    {
      assert below[i] in below;
      if below[i] !in members {
        VisitOne(byId, members, left, parent, below, i);
        members := members + {below[i]};
        left := left + [below[i]];
      }
    }
    forall child, p | p in members && p !in left && ChildOf(byId, child, p) ensures child in members {
      if p == parent {
        assert child in below;
      }
    }
  }

  method IndexById(sections: seq<Section>) returns (byId: ById)
    ensures byId == Indexed(sections)
  {
    byId := map[];
    for i := 0 to |sections|
      invariant byId == Indexed(sections[..i])
    {
      assert sections[..i + 1][..i] == sections[..i];
      if sections[i].id != "" {
        byId := byId[sections[i].id := sections[i]];
      }
    }
    assert sections[..|sections|] == sections;
  }

  method ToSeq(ids: set<string>) returns (s: seq<string>)
    ensures forall id :: id in s <==> id in ids
  {
    s := [];
    var todo := ids;
    while todo != {}
      invariant todo <= ids
      invariant forall id :: id in s <==> id in ids && id !in todo
      decreases |todo|
    {
      var id :| id in todo;
      s := s + [id];
      todo := todo - {id};
    }
  }

  /** Sections whose parents stay among themselves without a heading, a cycle above all, belong to nothing. */
  lemma {:induction false} HeadinglessCycleBelongsToNothing(byId: ById, cycle: set<string>, path: seq<string>)
    requires forall id :: id in cycle ==> id in byId && !byId[id].heading
                                          && byId[id].parent.Some? && byId[id].parent.value in cycle
    requires ClimbsToHeading(byId, path)
    ensures path[0] !in cycle
    decreases |path|
  {
    if |path| > 1 {
      var rest := path[1..];
      RestClimbs(byId, path);
      HeadinglessCycleBelongsToNothing(byId, cycle, rest);
      assert ChildOf(byId, path[0], path[0 + 1]);
    }
  }
}
