/** Two short runs that come to the corners of the tracking rules. */
module NestedRuns {
  import opened NestedJson
  import opened NestedTracking

  /** Whatever spells the same as an empty plain dictionary is an empty dictionary. */
  lemma SpelledEmpty(plain: Node, copy: Value, json: Json, made: set<Node>)
    requires plain.isDict && plain.keys == [] && plain.items == []
    requires Represents(Ref(plain), json, {plain}) && Represents(copy, json, made)
    ensures copy.Ref? && copy.node in made && copy.node.isDict && copy.node.keys == [] && copy.node.items == []
  {
  }

  lemma EmptyUnfolds(plain: Node)
    requires plain.isDict && plain.keys == [] && plain.items == []
    ensures Unfolds(Ref(plain), {plain}) && Closed({plain})
  {
    assert Represents(Ref(plain), Tree(true, [], []), {plain});
  }

  /** A column set to an empty dictionary. */
  method EmptyColumn(world: World) returns (top: Node)
    requires world.Valid()
    modifies world
    ensures world.Valid() && old(world.nodes) <= world.nodes && fresh(top)
    ensures top in world.nodes && top.isDict && top.root == top && top.keys == [] && top.items == []
  {
    var plain := new Node(true, null, 0);
    EmptyUnfolds(plain);
    ghost var json;
    var coerced;
    coerced, json := world.Coerce(Ref(plain), {plain});
    top := coerced.value;
    SpelledEmpty(plain, Ref(top), json, world.nodes);
  }

  /** Put a fresh empty dictionary under a new key of an empty one. */
  method PutEmpty(world: World, n: Node, key: string) returns (child: Node)
    requires world.Valid() && n in world.nodes && n.isDict && n.keys == [] && n.items == []
    modifies world, n, n.root
    ensures world.Valid() && old(world.nodes) <= world.nodes && child in world.nodes && fresh(child)
    ensures Told(n, true)
    ensures n.keys == [key] && n.items == [Ref(child)] && child.isDict && child.keys == [] && child.items == []
    ensures child.root == old(RootFor(n))
  {
    var plain := new Node(true, null, 0);
    EmptyUnfolds(plain);
    assert KeyAt([key], key) == 0;
    ghost var json, made;
    var ok;
    ok, json, made := world.SetKey(n, key, Ref(plain), {plain});
    SpelledEmpty(plain, n.items[0], json, made);
    child := n.items[0].node;
  }

  method PopOnly(world: World, n: Node, key: string)
    requires world.Valid() && n in world.nodes && n.isDict && n.keys == [key] && |n.items| == 1
    modifies n, n.root
    ensures world.Valid() && n.keys == [] && n.items == [] && Told(n, true)
  {
    assert KeyAt(n.keys, key) == 0;
    var ok, popped := world.PopKey(n, key, false);
  }

  /**
   A column holding one empty dictionary loses it to a `pop` and is empty. What is then
   put into the popped dictionary reports to that dictionary, not to the column.
   */
  method PoppedChildBecomesRoot() returns (world: World, top: Node, child: Node, grandchild: Node)
    ensures world.Valid() && {top, child, grandchild} <= world.nodes
    ensures top.items == [] && child.root == top && child != top
    ensures child.items == [Ref(grandchild)] && grandchild.root == child
  {
    world := new World();
    top := EmptyColumn(world);
    child := PutEmpty(world, top, "a");
    PopOnly(world, top, "a");
    assert world.Sound(child);
    grandchild := PutEmpty(world, child, "b");
  }

  /** A list that holds itself has no finite spelling. */
  lemma {:induction false} LoopNeverUnfolds(loop: Node, nodes: set<Node>, j: Json)
    requires loop.items == [Ref(loop)]
    ensures !Represents(Ref(loop), j, nodes)
    decreases j
  {
    if Represents(Ref(loop), j, nodes) {
      LoopNeverUnfolds(loop, nodes, j.kids[0]);
    }
  }

  /**
   An update whose second value is such a list: the first key is in, the second is not,
   and the column was not told.
   */
  method StuckUpdateIsUnreported() returns (top: Node, ok: bool, ghost changes: nat)
    ensures !ok && top.keys == ["a"] && top.items == [Scalar("1")]
    ensures top.root == top && top.changes == changes
  {
    var loop := new Node(false, null, 0);
    loop.items := [Ref(loop)];
    var world := new World();
    top := EmptyColumn(world);
    changes := top.changes;
    var pairs := [("a", Scalar("1")), ("b", Ref(loop))];
    assert pairs[1].1 == Ref(loop);
    forall j ensures !Represents(Ref(loop), j, {loop}) {
      LoopNeverUnfolds(loop, {loop}, j);
    }
    assert Represents(Scalar("1"), Leaf("1"), {loop});
    ghost var kids, made;
    var stuck;
    ok, stuck, kids, made := world.Update(top, pairs, {loop});
    assert pairs[..1][..0] == [];
    assert KeysAfter([], pairs[..1]) == PutKey([], "a");
    assert Holds(top.keys, top.items, pairs[0].0, kids[0], made);
  }
}
