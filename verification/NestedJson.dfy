/**
 JSON columns whose nested dictionaries and lists report every change to the column's
 top container. Values put in are copied by `Reparent`; the copy's containers all point
 at the root they were made for.
 */
module NestedJson {
  import opened Base

  datatype Value = Scalar(text: string) | Ref(node: Node)

  /** What a value spells out, when that is finite. */
  datatype Json = Leaf(text: string) | Tree(isDict: bool, keys: seq<string>, kids: seq<Json>)

  /** A dictionary or list, tracked or plain. Only tracked ones have a root. `changes` counts its notifications. */
  class Node {
    const isDict: bool
    var keys: seq<string>
    var items: seq<Value>
    var root: Node?
    var changes: nat
    /** When it was made: the number of tracked containers before it. */
    ghost const born: nat

    constructor (isDict: bool, root: Node?, ghost born: nat)
      ensures this.isDict == isDict && keys == [] && items == [] && changes == 0 && this.born == born
      ensures this.root == (if root != null then root else this)
    {
      this.isDict, this.born := isDict, born;
      keys, items, changes := [], [], 0;
      this.root := if root != null then root else this;
    }
  }

  function Size(j: Json): nat {
    match j
    case Leaf(_) => 1
    case Tree(_, _, kids) => 1 + Sizes(kids)
  }

  function Sizes(kids: seq<Json>): nat {
    if kids == [] then 0 else Sizes(kids[..|kids| - 1]) + Size(kids[|kids| - 1])
  }

  lemma {:induction false} KidIsSmaller(kids: seq<Json>, k: nat)
    requires k < |kids|
    ensures Size(kids[k]) <= Sizes(kids)
    decreases |kids|
  {
    if k < |kids| - 1 {
      KidIsSmaller(kids[..|kids| - 1], k);
    }
  }

  /** `v` spells out `j`, using containers of `nodes` only. */
  ghost predicate Represents(v: Value, j: Json, nodes: set<Node>)
    reads nodes
    decreases j
  {
    match j
    case Leaf(text) => v == Scalar(text)
    case Tree(isDict, keys, kids) =>
      && v.Ref? && v.node in nodes
      && v.node.isDict == isDict && v.node.keys == keys && |v.node.items| == |kids|
      && forall k :: 0 <= k < |kids| ==> Represents(v.node.items[k], kids[k], nodes)
  }

  lemma {:induction false} RepresentsInMore(v: Value, j: Json, nodes: set<Node>, more: set<Node>)
    requires nodes <= more && Represents(v, j, nodes)
    ensures Represents(v, j, more)
    decreases j
  {
    if j.Tree? {
      forall k | 0 <= k < |j.kids| ensures Represents(v.node.items[k], j.kids[k], more) {
        RepresentsInMore(v.node.items[k], j.kids[k], nodes, more);
      }
    }
  }

  /** A value spells out one thing at most. */
  lemma {:induction false} RepresentsOne(v: Value, i: Json, j: Json, nodes: set<Node>)
    requires Represents(v, i, nodes) && Represents(v, j, nodes)
    ensures i == j
    decreases i
  {
    if i.Tree? {
      forall k | 0 <= k < |i.kids| ensures i.kids[k] == j.kids[k] {
        RepresentsOne(v.node.items[k], i.kids[k], j.kids[k], nodes);
      }
    }
  }

  /** A dictionary has a key for each item, a list has none. */
  ghost predicate Shaped(n: Node)
    reads n
  {
    if n.isDict then |n.keys| == |n.items| else n.keys == []
  }

  ghost predicate Closed(nodes: set<Node>)
    reads nodes
  {
    && (forall n :: n in nodes ==> Shaped(n))
    && forall n, k :: n in nodes && 0 <= k < |n.items| && n.items[k].Ref? ==> n.items[k].node in nodes
  }

  /** `v` has a finite spelling: following references from it never comes round again. */
  ghost predicate Unfolds(v: Value, nodes: set<Node>)
    reads nodes
  {
    exists j :: Represents(v, j, nodes)
  }

  /** If `v` spells out anything, some container already on the path spells out no more. */
  ghost predicate ComesRound(v: Value, seen: set<Node>, nodes: set<Node>)
    reads nodes
  {
    forall j :: Represents(v, j, nodes) ==> AsSmall(j, seen, nodes)
  }

  ghost predicate AsSmall(j: Json, seen: set<Node>, nodes: set<Node>)
    reads nodes
  {
    exists a, i :: a in seen && SpellsNoMore(a, i, j, nodes)
  }

  ghost predicate SpellsNoMore(a: Node, i: Json, j: Json, nodes: set<Node>)
    reads nodes
  {
    Represents(Ref(a), i, nodes) && Size(i) <= Size(j)
  }

  lemma SeenComesRound(v: Value, seen: set<Node>, nodes: set<Node>)
    requires v.Ref? && v.node in seen
    ensures ComesRound(v, seen, nodes)
  {
    forall j | Represents(v, j, nodes) ensures AsSmall(j, seen, nodes) {
      assert Ref(v.node) == v;
      assert SpellsNoMore(v.node, j, j, nodes);
    }
  }

  lemma KidComesRound(v: Value, k: nat, seen: set<Node>, nodes: set<Node>)
    requires v.Ref? && k < |v.node.items|
    requires ComesRound(v.node.items[k], seen + {v.node}, nodes)
    ensures ComesRound(v, seen, nodes)
  {
    forall j | Represents(v, j, nodes) ensures AsSmall(j, seen, nodes) {
      var kid := j.kids[k];
      assert Represents(v.node.items[k], kid, nodes);
      KidIsSmaller(j.kids, k);
      assert AsSmall(kid, seen + {v.node}, nodes);
      var a, i :| a in seen + {v.node} && SpellsNoMore(a, i, kid, nodes);
      if a == v.node {
        RepresentsOne(v, i, j, nodes);
      }
      assert a in seen && SpellsNoMore(a, i, j, nodes);
    }
  }

  /** New containers between two moments, all under one root and pointing only to younger ones of them. */
  ghost predicate Wired(made: set<Node>, root: Node, from: nat, to: nat)
    reads made
  {
    forall n :: n in made ==> n.root == root && from <= n.born < to && Shaped(n) && YoungerKids(n, made)
  }

  ghost predicate YoungerKids(n: Node, nodes: set<Node>)
    reads n
  {
    forall k :: 0 <= k < |n.items| && n.items[k].Ref? ==>
      n.items[k].node in nodes && n.born < n.items[k].node.born
  }

  lemma WiredTogether(a: set<Node>, b: set<Node>, root: Node, from: nat, mid: nat, to: nat)
    requires from <= mid <= to && Wired(a, root, from, mid) && Wired(b, root, mid, to)
    ensures Wired(a + b, root, from, to)
  {
  }

  /** The copies of the first items of `from`: same spelling, wired into `made`. */
  ghost predicate Copied(
    from: seq<Value>, items: seq<Value>, kids: seq<Json>, nodes: set<Node>, made: set<Node>, clock: nat)
    requires |from| >= |items|
    reads nodes, made
  {
    && |items| == |kids|
    && forall k :: 0 <= k < |items| ==>
         && Represents(from[k], kids[k], nodes) && Represents(items[k], kids[k], made)
         && (items[k].Ref? ==> items[k].node in made && clock <= items[k].node.born)
  }

  lemma CopiedOneMore(
    from: seq<Value>, items: seq<Value>, kids: seq<Json>, nodes: set<Node>, made: set<Node>, clock: nat,
    item: Value, kid: Json, more: set<Node>)
    requires |from| > |items| && Copied(from, items, kids, nodes, made, clock)
    requires Represents(from[|items|], kid, nodes) && Represents(item, kid, more)
    requires item.Ref? ==> item.node in more && clock <= item.node.born
    ensures Copied(from, items + [item], kids + [kid], nodes, made + more, clock)
  {
    forall k | 0 <= k < |items| + 1 ensures Represents((items + [item])[k], (kids + [kid])[k], made + more) {
      if k < |items| {
        RepresentsInMore(items[k], kids[k], made, made + more);
      } else {
        RepresentsInMore(item, kid, more, made + more);
      }
    }
  }

  lemma CopyIsWhole(
    v: Value, res: Node, kids: seq<Json>, nodes: set<Node>, made: set<Node>)
    requires v.Ref? && v.node in nodes && res.isDict == v.node.isDict && res.keys == v.node.keys
    requires |res.items| == |v.node.items|
    requires Copied(v.node.items, res.items, kids, nodes, made, res.born + 1)
    ensures var j := Tree(res.isDict, res.keys, kids);
            Represents(v, j, nodes) && Represents(Ref(res), j, made + {res})
  {
    forall k | 0 <= k < |kids| ensures Represents(res.items[k], kids[k], made + {res}) {
      RepresentsInMore(res.items[k], kids[k], made, made + {res});
    }
  }

  lemma HeadJoinsWired(res: Node, made: set<Node>, root: Node, from: nat, to: nat)
    requires from < to && Wired(made, root, from + 1, to) && res.root == root && res.born == from && Shaped(res)
    requires forall k :: 0 <= k < |res.items| && res.items[k].Ref? ==>
               res.items[k].node in made && from < res.items[k].node.born
    ensures Wired(made + {res}, root, from, to)
  {
  }

  /** Put the copied items into the new container. */
  method Fill(res: Node, v: Value, items: seq<Value>, ghost top: Node,
              ghost kids: seq<Json>, ghost nodes: set<Node>, ghost made: set<Node>, ghost now: nat)
    requires v.Ref? && v.node in nodes && res !in nodes && res !in made
    requires res.isDict == v.node.isDict && Shaped(v.node) && res.root == top && res.born < now
    requires |items| == |v.node.items| && Copied(v.node.items, items, kids, nodes, made, res.born + 1)
    requires Wired(made, top, res.born + 1, now)
    modifies res
    ensures res.root == top
    ensures var j := Tree(res.isDict, res.keys, kids);
            Represents(v, j, nodes) && Represents(Ref(res), j, made + {res})
    ensures Wired(made + {res}, top, res.born, now)
  {
    res.keys, res.items := v.node.keys, items;
    CopyIsWhole(v, res, kids, nodes, made);
    HeadJoinsWired(res, made, top, res.born, now);
  }

  /**
   Copy `v`, every container of the copy under `root`, or under the copy itself if it has
   none. Fails exactly when `v` comes back to a container on the path to it.
   */
  method Reparent(v: Value, root: Node?, seen: set<Node>, ghost nodes: set<Node>, ghost clock: nat)
    returns (copy: Option<Value>, ghost json: Json, ghost made: set<Node>, ghost now: nat)
    requires Closed(nodes) && seen <= nodes && (v.Ref? ==> v.node in nodes)
    ensures fresh(made) && clock <= now
    ensures copy.None? ==> ComesRound(v, seen, nodes)
    ensures copy.Some? ==> Represents(v, json, nodes) && Represents(copy.value, json, made)
    ensures copy.Some? && copy.value.Scalar? ==> made == {}
    ensures copy.Some? && copy.value.Ref? ==>
              && copy.value.node in made && copy.value.node.born >= clock
              && copy.value.node.root == (if root != null then root else copy.value.node)
              && Wired(made, copy.value.node.root, clock, now)
    decreases |nodes - seen|, 0
  {
    json, made, now := Leaf(""), {}, clock;
    if v.Ref? && v.node in seen {
      SeenComesRound(v, seen, nodes);
      return None, json, made, now;
    }
    if v.Scalar? {
      return Some(v), Leaf(v.text), made, now;
    }
    var res := new Node(v.node.isDict, root, clock);
    var top: Node := res.root;
    assert nodes - (seen + {v.node}) == (nodes - seen) - {v.node};
    var items;
    ghost var kids, stuck;
    items, kids, made, now, stuck := ReparentItems(v.node.items, top, seen + {v.node}, nodes, clock + 1);
    if items.None? {
      KidComesRound(v, stuck, seen, nodes);
      return None, json, {}, now;
    }
    Fill(res, v, items.value, top, kids, nodes, made, now);
    copy, json, made := Some(Ref(res)), Tree(res.isDict, res.keys, kids), made + {res};
  }

  /** The loop over the items of one container whose path is `seen`. */
  method ReparentItems(
    from: seq<Value>, top: Node, seen: set<Node>, ghost nodes: set<Node>, ghost clock: nat)
    returns (items: Option<seq<Value>>, ghost kids: seq<Json>, ghost made: set<Node>, ghost now: nat, ghost stuck: nat)
    requires Closed(nodes) && seen <= nodes
    requires forall k :: 0 <= k < |from| && from[k].Ref? ==> from[k].node in nodes
    ensures fresh(made) && clock <= now
    ensures items.None? ==> stuck < |from| && ComesRound(from[stuck], seen, nodes)
    ensures items.Some? ==> |items.value| == |from| && Wired(made, top, clock, now)
    ensures items.Some? ==> Copied(from, items.value, kids, nodes, made, clock)
    decreases |nodes - seen|, 1
  {
    items, kids, made, now, stuck := Some([]), [], {}, clock, 0;
    for i := 0 to |from|
      invariant fresh(made) && clock <= now
      invariant items.Some? && |items.value| == i
      invariant Copied(from, items.value, kids, nodes, made, clock)
      invariant Wired(made, top, clock, now)
    {
      var copied;
      ghost var kid, inner, later;
      copied, kid, inner, later := Reparent(from[i], top, seen, nodes, now);
      if copied.None? {
        return None, kids, {}, now, i;
      }
      CopiedOneMore(from, items.value, kids, nodes, made, clock, copied.value, kid, inner);
      if copied.value.Scalar? {
        assert made + inner == made;
      } else {
        WiredTogether(made, inner, top, clock, now, later);
      }
      kids, made, now := kids + [kid], made + inner, later;
      items := Some(items.value + [copied.value]);
    }
  }
}
