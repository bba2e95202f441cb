/**
 The containers of loaded JSON columns and the operations on them: whatever is done at
 whatever depth, the structure stays a finite tree or graph without cycles, and every
 container that can be reached from a column's top container reports to it.
 */
module NestedTracking {
  import opened Base
  import opened NestedJson

  /** All tracked containers, and those known to be cut off from the container they report to. */
  class World {
    ghost var nodes: set<Node>
    ghost var lost: set<Node>
    ghost var clock: nat

    ghost predicate Valid()
      reads this, nodes
    {
      && lost <= nodes
      && forall n {:trigger Sound(n)} :: n in nodes ==> Sound(n)
    }

    ghost predicate Sound(n: Node)
      requires n in nodes
      reads this, nodes
    {
      && n.born < clock && Shaped(n)
      && n.root != null && n.root in nodes
      && (n in lost ==> n.root != n)
      && (n !in lost ==> n.root !in lost && n.root.root == n.root)
      && forall k {:trigger Fits(n.items[k], n)} :: 0 <= k < |n.items| ==> Fits(n.items[k], n)
    }

    /** A value that may stand in `n`: younger, and unless `n` is lost under the same root. */
    ghost predicate Fits(v: Value, n: Node)
      reads this, nodes
    {
      v.Ref? ==>
        && v.node in nodes && n.born < v.node.born
        && (n in nodes && n !in lost ==> v.node !in lost && v.node.root == n.root)
    }

    constructor ()
      ensures Valid() && nodes == {}
    {
      nodes, lost, clock := {}, {}, 0;
    }

    // ---------------------------------------------------------- taking values in

    /** An emptied container reaches nothing, so all others that report to it are cut off. */
    ghost method CutOff(top: Node)
      requires Valid() && top in nodes && top !in lost && top.root == top && top.items == []
      modifies this`lost
      ensures Valid()
      ensures lost == old(lost) + set m | m in nodes && m.root == top && m != top
    {
      lost := lost + set m | m in nodes && m.root == top && m != top;
      forall n | n in nodes ensures Sound(n) {
        assert old(Sound(n));
        forall k | 0 <= k < |n.items| ensures Fits(n.items[k], n) {
          assert old(Fits(n.items[k], n));
        }
      }
    }

    /** Take the containers of a fresh copy in; those of a lost container are lost with it. */
    ghost method Register(n: Node, root: Node, made: set<Node>, now: nat)
      requires Valid() && n in nodes && made !! nodes && clock <= now
      requires Wired(made, root, clock, now)
      requires root in nodes && (n !in lost ==> root == n.root)
      modifies this
      ensures Valid() && nodes == old(nodes) + made && clock == now
      ensures lost == if n in old(lost) then old(lost) + made else old(lost)
    {
      assert Sound(n);
      nodes, clock := nodes + made, now;
      if n in lost {
        lost := lost + made;
      }
      forall m | m in nodes ensures Sound(m) {
        if m in made {
          assert YoungerKids(m, made);
          forall k | 0 <= k < |m.items| ensures Fits(m.items[k], m) {
            assert m.items[k].Ref? ==> m.items[k].node in made;
          }
        } else {
          assert old(Sound(m));
          forall k | 0 <= k < |m.items| ensures Fits(m.items[k], m) {
            assert old(Fits(m.items[k], m));
          }
        }
      }
    }

    /**
     Copy a value for container `n`. The copy goes under `n`'s root, unless that root is
     empty: an empty container counts as false, and the copy then goes under `n` itself.
     */
    method Adopt(n: Node, v: Value, ghost universe: set<Node>)
      returns (copy: Option<Value>, ghost json: Json, ghost made: set<Node>)
      requires Valid() && n in nodes && Closed(universe) && (v.Ref? ==> v.node in universe)
      modifies this
      ensures Valid() && nodes == old(nodes) + made && fresh(made)
      ensures copy.Some? <==> Unfolds(v, universe)
      ensures copy.None? ==> made == {}
      ensures n !in lost ==> lost == old(lost)
      ensures copy.Some? ==> Represents(v, json, universe) && Represents(copy.value, json, made)
      ensures copy.Some? ==> Fits(copy.value, n)
      ensures Closed(made) && (copy.Some? && copy.value.Ref? ==> copy.value.node in made)
      ensures n.root != null
      ensures copy.Some? && copy.value.Ref? ==> copy.value.node.root == (if n.root.items != [] then n.root else n)
    {
      assert Sound(n);
      var root: Node := if n.root.items != [] then n.root else n;
      ghost var now;
      copy, json, made, now := Reparent(v, root, {}, universe, clock);
      if copy.None? {
        NeverUnfolds(v, universe);
        made := {};
      } else if copy.value.Ref? {
        WiredIsClosed(made, root, clock, now);
        TakeIn(n, root, made, now);
      }
    }

    ghost method TakeIn(n: Node, root: Node, made: set<Node>, now: nat)
      requires Valid() && n in nodes && made !! nodes && clock <= now && Wired(made, root, clock, now)
      requires n.root != null && root == (if n.root.items != [] then n.root else n)
      modifies this
      ensures Valid() && nodes == old(nodes) + made && (n !in lost ==> lost == old(lost))
      ensures forall m :: m in made ==> Fits(Ref(m), n)
    {
      assert Sound(n);
      if n !in lost && n.root != n && n.root.items == [] {
        CutOff(n.root);
      }
      Register(n, root, made, now);
    }

    /** Tell the root; no contents change. */
    method Notify(n: Node)
      requires Valid() && n in nodes
      modifies n.root
      ensures Valid() && n.root == old(n.root) && n.root != null
      ensures n.root.changes == old(n.root.changes) + 1
      ensures n.root.items == old(n.root.items) && n.root.keys == old(n.root.keys)
    {
      assert Sound(n);
      n.root.changes := n.root.changes + 1;
      forall m | m in nodes ensures Sound(m) {
        assert old(Sound(m));
        forall k | 0 <= k < |m.items| ensures Fits(m.items[k], m) {
          assert old(Fits(m.items[k], m));
        }
      }
    }

    /** Give `n` new contents that fit it. */
    method SetContents(n: Node, keys: seq<string>, items: seq<Value>)
      requires Valid() && n in nodes
      requires if n.isDict then |keys| == |items| else keys == []
      requires forall k {:trigger items[k]} :: 0 <= k < |items| ==> Fits(items[k], n)
      modifies n
      ensures Valid() && n.keys == keys && n.items == items
      ensures n.root == old(n.root) && n.changes == old(n.changes)
    {
      n.keys, n.items := keys, items;
      forall m | m in nodes ensures Sound(m) {
        assert old(Sound(m));
        forall k | 0 <= k < |m.items| ensures Fits(m.items[k], m) {
          if m == n {
            assert old(Fits(items[k], n));
          } else {
            assert old(Fits(m.items[k], m));
          }
        }
      }
    }

    lemma ContentsFit(n: Node)
      requires Valid() && n in nodes
      ensures Shaped(n) && n.root != null && n.root in nodes
      ensures forall k {:trigger n.items[k]} :: 0 <= k < |n.items| ==> Fits(n.items[k], n)
    {
      assert Sound(n);
    }

    /** Put a copy of `v` at index `at`, over what is there or before it. The root is not told yet. */
    method PlaceCopy(n: Node, v: Value, keys: seq<string>, at: nat, over: bool, ghost universe: set<Node>)
      returns (ok: bool, ghost json: Json, ghost made: set<Node>)
      requires Valid() && n in nodes && Closed(universe) && (v.Ref? ==> v.node in universe)
      requires at <= |n.items| && (over ==> at < |n.items|)
      requires if n.isDict then |keys| == |n.items| + (if over then 0 else 1) else keys == []
      modifies this, n
      ensures Valid() && nodes == old(nodes) + made && fresh(made)
      ensures n.root == old(n.root) && n.root != null && n.changes == old(n.changes)
      ensures ok <==> old(Unfolds(v, universe))
      ensures !ok ==> n.keys == old(n.keys) && n.items == old(n.items) && !Unfolds(v, universe) && made == {}
      ensures Closed(universe + made)
      ensures ok ==> n.keys == keys && at < |n.items|
                     && n.items == old(n.items)[..at] + [n.items[at]] + old(n.items)[if over then at + 1 else at..]
      ensures ok ==> old(Represents(v, json, universe)) && Represents(n.items[at], json, made)
      ensures ok && n.items[at].Ref? ==> n.items[at].node in made && n.items[at].node.root == old(RootFor(n))
    {
      var copy;
      copy, json, made := Adopt(n, v, universe);
      ok := copy.Some?;
      if ok {
        ContentsFit(n);
        var items := n.items[..at] + [copy.value] + n.items[if over then at + 1 else at..];
        SetContents(n, keys, items);
      }
    }

    // ---------------------------------------------------------- dictionaries

    /** Put a copy of `v` under `key`. The root is not told yet. */
    method PlaceKey(n: Node, key: string, v: Value, ghost universe: set<Node>)
      returns (ok: bool, ghost json: Json, ghost made: set<Node>)
      requires Valid() && n in nodes && n.isDict && Closed(universe) && (v.Ref? ==> v.node in universe)
      modifies this, n
      ensures Valid() && nodes == old(nodes) + made && fresh(made) && Closed(universe + made)
      ensures n.root == old(n.root) && n.root != null && n.changes == old(n.changes)
      ensures ok <==> old(Unfolds(v, universe))
      ensures !ok ==> made == {} && n.keys == old(n.keys) && n.items == old(n.items) && !Unfolds(v, universe)
      ensures ok ==> old(Represents(v, json, universe))
      ensures ok ==> Put(old(n.keys), old(n.items), key, n.keys, n.items) && Holds(n.keys, n.items, key, json, made)
      ensures ok ==> var at := KeyAt(n.keys, key);
                     n.items[at].Ref? ==> n.items[at].node in made && n.items[at].node.root == old(RootFor(n))
    {
      ContentsFit(n);
      ghost var keys, items := n.keys, n.items;
      var at := KeyAt(n.keys, key);
      PutKeyFindsIt(n.keys, key);
      ok, json, made := PlaceCopy(n, v, PutKey(n.keys, key), at, at < |n.keys|, universe);
      if ok {
        PlacedIsPut(keys, items, key, n.items[at]);
      }
    }

    method SetKey(n: Node, key: string, v: Value, ghost universe: set<Node>)
      returns (ok: bool, ghost json: Json, ghost made: set<Node>)
      requires Valid() && n in nodes && n.isDict && Closed(universe) && (v.Ref? ==> v.node in universe)
      modifies this, n, n.root
      ensures Valid() && nodes == old(nodes) + made && fresh(made)
      ensures Told(n, ok)
      ensures ok <==> old(Unfolds(v, universe))
      ensures !ok ==> n.keys == old(n.keys) && n.items == old(n.items)
      ensures ok ==> old(Represents(v, json, universe))
      ensures ok ==> Put(old(n.keys), old(n.items), key, n.keys, n.items) && Holds(n.keys, n.items, key, json, made)
      ensures ok ==> var at := KeyAt(n.keys, key);
                     n.items[at].Ref? ==> n.items[at].node in made && n.items[at].node.root == old(RootFor(n))
    {
      ok, json, made := PlaceKey(n, key, v, universe);
      if ok {
        Notify(n);
      }
    }

    method DeleteKey(n: Node, key: string) returns (ok: bool)
      requires Valid() && n in nodes && n.isDict
      modifies n, n.root
      ensures Valid() && Told(n, ok) && (ok <==> key in old(n.keys))
      ensures var at := KeyAt(old(n.keys), key);
              if ok then Without(old(n.keys), old(n.items), at, n.keys, n.items)
              else n.keys == old(n.keys) && n.items == old(n.items)
    {
      ContentsFit(n);
      var at := KeyAt(n.keys, key);
      assert n.keys == n.keys[..at] + n.keys[at..];
      ok := at < |n.keys|;
      if ok {
        SetContents(n, n.keys[..at] + n.keys[at + 1..], n.items[..at] + n.items[at + 1..]);
        Notify(n);
      }
    }

    method SetDefault(n: Node, key: string, v: Value, ghost universe: set<Node>)
      returns (value: Option<Value>, ghost json: Json, ghost made: set<Node>)
      requires Valid() && n in nodes && n.isDict && Closed(universe) && (v.Ref? ==> v.node in universe)
      modifies this, n, n.root
      ensures Valid() && old(nodes) <= nodes
      ensures Told(n, key !in old(n.keys) && value.Some?)
      ensures value.Some? <==> key in old(n.keys) || old(Unfolds(v, universe))
      ensures key in old(n.keys) || value.None? ==> n.keys == old(n.keys) && n.items == old(n.items)
      ensures key !in old(n.keys) && value.Some? ==>
                && old(Represents(v, json, universe)) && fresh(made)
                && Put(old(n.keys), old(n.items), key, n.keys, n.items) && Holds(n.keys, n.items, key, json, made)
      ensures value.Some? ==> KeyAt(n.keys, key) < |n.items| && value.value == n.items[KeyAt(n.keys, key)]
    {
      ContentsFit(n);
      var at := KeyAt(n.keys, key);
      assert n.keys == n.keys[..at] + n.keys[at..];
      if at == |n.keys| {
        PutKeyFindsIt(n.keys, key);
        var ok;
        ok, json, made := SetKey(n, key, v, universe);
        if !ok {
          return None, json, made;
        }
      } else {
        json, made := Leaf(""), {};
      }
      value := Some(n.items[KeyAt(n.keys, key)]);
    }

    /** With a default, popping a key that is not there changes nothing and is still reported. */
    method PopKey(n: Node, key: string, hasDefault: bool) returns (ok: bool, value: Option<Value>)
      requires Valid() && n in nodes && n.isDict
      modifies n, n.root
      ensures Valid() && Told(n, ok) && (ok <==> hasDefault || key in old(n.keys))
      ensures value.Some? <==> key in old(n.keys)
      ensures var at := KeyAt(old(n.keys), key);
              if value.Some? then at < |old(n.items)| && value.value == old(n.items)[at]
                                  && Without(old(n.keys), old(n.items), at, n.keys, n.items)
              else n.keys == old(n.keys) && n.items == old(n.items)
    {
      ContentsFit(n);
      var at := KeyAt(n.keys, key);
      assert n.keys == n.keys[..at] + n.keys[at..];
      value := None;
      if at < |n.keys| {
        value := Some(n.items[at]);
        SetContents(n, n.keys[..at] + n.keys[at + 1..], n.items[..at] + n.items[at + 1..]);
      }
      ok := value.Some? || hasDefault;
      if ok {
        Notify(n);
      }
    }

    method PopItem(n: Node) returns (ok: bool)
      requires Valid() && n in nodes && n.isDict
      modifies n, n.root
      ensures Valid() && Told(n, ok) && (ok <==> old(n.items) != [])
      ensures ok ==> |old(n.items)| > 0 && Without(old(n.keys), old(n.items), |old(n.items)| - 1, n.keys, n.items)
      ensures !ok ==> n.keys == old(n.keys) && n.items == old(n.items)
    {
      ContentsFit(n);
      ok := n.items != [];
      if ok {
        var last := |n.items| - 1;
        SetContents(n, n.keys[..last], n.items[..last]);
        Notify(n);
      }
    }

    /** The next pair of an update; `made` is what earlier pairs brought in. */
    method UpdateOne(n: Node, pairs: seq<(string, Value)>, at: nat, ghost universe: set<Node>, ghost made: set<Node>,
                     ghost kids: seq<Json>, ghost keys: seq<string>, ghost items: seq<Value>)
      returns (ok: bool, ghost json: Json, ghost more: set<Node>)
      requires Valid() && n in nodes && n.isDict && Closed(universe + made) && at < |pairs|
      requires pairs[at].1.Ref? ==> pairs[at].1.node in universe
      requires forall i, k :: 0 <= i < k < |pairs| ==> pairs[i].0 != pairs[k].0
      requires n !in universe ==> Closed(universe)
      requires n !in made && Updating(keys, items, pairs, at, n.keys, n.items, kids, made)
      modifies this, n
      ensures Valid() && old(nodes) <= nodes && made <= more && fresh(more - made) && Closed(universe + more)
      ensures n.root == old(n.root) && n.root != null && n.changes == old(n.changes)
      ensures ok ==> Updating(keys, items, pairs, at + 1, n.keys, n.items, kids + [json], more)
      ensures !ok ==> !Unfolds(pairs[at].1, universe + made) && Updating(keys, items, pairs, at, n.keys, n.items, kids, made)
      ensures n !in universe ==> (ok <==> Unfolds(pairs[at].1, universe))
      ensures n !in universe ==> (ok ==> Represents(pairs[at].1, json, universe))
    {
      ghost var keysBefore, itemsBefore := n.keys, n.items;
      if n !in universe {
        SameInClosed(pairs[at].1, universe, universe + made);
      }
      ghost var inner;
      ok, json, inner := PlaceKey(n, pairs[at].0, pairs[at].1, universe + made);
      more := made + inner;
      assert universe + (made + inner) == universe + made + inner;
      if ok {
        UpdatingOneMore(keys, items, pairs, at, keysBefore, itemsBefore, kids, made, n.keys, n.items, json, inner);
      }
    }

    /** The pairs one by one, as far as they unfold. */
    method PutAll(n: Node, pairs: seq<(string, Value)>, ghost universe: set<Node>)
      returns (ok: bool, stuck: nat, ghost kids: seq<Json>, ghost made: set<Node>)
      requires Valid() && n in nodes && n.isDict && Closed(universe)
      requires forall i, k :: 0 <= i < k < |pairs| ==> pairs[i].0 != pairs[k].0
      requires forall k :: 0 <= k < |pairs| && pairs[k].1.Ref? ==> pairs[k].1.node in universe
      modifies this, n
      ensures Valid() && old(nodes) <= nodes && fresh(made)
      ensures n.root == old(n.root) && n.root != null && n.changes == old(n.changes)
      ensures stuck <= |pairs| && (ok <==> stuck == |pairs|)
      ensures Updating(old(n.keys), old(n.items), pairs, stuck, n.keys, n.items, kids, made)
      ensures !ok ==> !Unfolds(pairs[stuck].1, universe + made)
      ensures n !in universe ==> AllSpell(pairs, kids, stuck, universe)
      ensures n !in universe && !ok ==> !Unfolds(pairs[stuck].1, universe)
    {
      ContentsFit(n);
      ok, made, stuck, kids := true, {}, 0, [];
      ghost var keys, items := n.keys, n.items;
      while stuck < |pairs|
        invariant ok && stuck <= |pairs|
        invariant Valid() && n in nodes && old(nodes) <= nodes && fresh(made)
        invariant n.root == old(n.root) && n.root != null && n.changes == old(n.changes)
        invariant Closed(universe + made)
        invariant n !in made && Updating(keys, items, pairs, stuck, n.keys, n.items, kids, made)
        invariant n !in universe ==> AllSpell(pairs, kids, stuck, universe)
        decreases |pairs| - stuck
      {
        ghost var json, more;
        ok, json, more := UpdateOne(n, pairs, stuck, universe, made, kids, keys, items);
        if !ok {
          return;
        }
        made, kids := more, kids + [json];
        stuck := stuck + 1;
      }
    }

    /**
     The pairs go in one by one, and the root is told at the end. A pair whose value comes
     round to itself stops the update there: what went in stays in, and nobody is told.
     */
    method Update(n: Node, pairs: seq<(string, Value)>, ghost universe: set<Node>)
      returns (ok: bool, stuck: nat, ghost kids: seq<Json>, ghost made: set<Node>)
      requires Valid() && n in nodes && n.isDict && Closed(universe)
      requires forall i, k :: 0 <= i < k < |pairs| ==> pairs[i].0 != pairs[k].0
      requires forall k :: 0 <= k < |pairs| && pairs[k].1.Ref? ==> pairs[k].1.node in universe
      modifies this, n, n.root
      ensures Valid() && old(nodes) <= nodes && fresh(made)
      ensures Told(n, ok) && stuck <= |pairs| && (ok <==> stuck == |pairs|)
      ensures Updating(old(n.keys), old(n.items), pairs, stuck, n.keys, n.items, kids, made)
      ensures !ok ==> !Unfolds(pairs[stuck].1, universe + made)
      ensures n !in universe ==> forall k :: 0 <= k < stuck ==> old(Represents(pairs[k].1, kids[k], universe))
      ensures n !in universe && !ok ==> !old(Unfolds(pairs[stuck].1, universe))
    {
      ok, stuck, kids, made := PutAll(n, pairs, universe);
      if n !in universe {
        forall k | 0 <= k < stuck ensures old(Represents(pairs[k].1, kids[k], universe)) {
          assert Represents(pairs[k].1, kids[k], universe);
        }
      }
      if ok {
        Notify(n);
      }
    }

    // ---------------------------------------------------------- lists

    method SetAt(n: Node, index: int, v: Value, ghost universe: set<Node>)
      returns (ok: bool, ghost json: Json, ghost made: set<Node>)
      requires Valid() && n in nodes && !n.isDict && Closed(universe) && (v.Ref? ==> v.node in universe)
      modifies this, n, n.root
      ensures Valid() && nodes == old(nodes) + made && fresh(made) && n.keys == []
      ensures Told(n, ok)
      ensures ok <==> old(At(index, |n.items|).Some? && Unfolds(v, universe))
      ensures !ok ==> n.items == old(n.items)
      ensures ok ==> var at := At(index, |old(n.items)|).value;
                     && |n.items| == |old(n.items)| && n.items == old(n.items)[at := n.items[at]]
                     && old(Represents(v, json, universe)) && Represents(n.items[at], json, made)
    {
      ContentsFit(n);
      ok, json, made := false, Leaf(""), {};
      if At(index, |n.items|).Some? {
        ok, json, made := PlaceCopy(n, v, [], At(index, |n.items|).value, true, universe);
        if ok {
          Notify(n);
        }
      }
    }

    method Insert(n: Node, index: int, v: Value, ghost universe: set<Node>)
      returns (ok: bool, ghost json: Json, ghost made: set<Node>)
      requires Valid() && n in nodes && !n.isDict && Closed(universe) && (v.Ref? ==> v.node in universe)
      modifies this, n, n.root
      ensures Valid() && nodes == old(nodes) + made && fresh(made) && n.keys == []
      ensures Told(n, ok)
      ensures ok <==> old(Unfolds(v, universe))
      ensures !ok ==> n.items == old(n.items)
      ensures ok ==> var at := Clamped(index, |old(n.items)|);
                     && at < |n.items| && n.items == old(n.items)[..at] + [n.items[at]] + old(n.items)[at..]
                     && old(Represents(v, json, universe)) && Represents(n.items[at], json, made)
    {
      ContentsFit(n);
      ok, json, made := PlaceCopy(n, v, [], Clamped(index, |n.items|), false, universe);
      if ok {
        Notify(n);
      }
    }

    method Append(n: Node, v: Value, ghost universe: set<Node>)
      returns (ok: bool, ghost json: Json, ghost made: set<Node>)
      requires Valid() && n in nodes && !n.isDict && Closed(universe) && (v.Ref? ==> v.node in universe)
      modifies this, n, n.root
      ensures Valid() && nodes == old(nodes) + made && fresh(made) && n.keys == []
      ensures Told(n, ok)
      ensures ok <==> old(Unfolds(v, universe))
      ensures !ok ==> n.items == old(n.items)
      ensures ok ==> |n.items| == |old(n.items)| + 1 && n.items[..|old(n.items)|] == old(n.items)
                     && old(Represents(v, json, universe)) && Represents(n.items[|old(n.items)|], json, made)
    {
      ContentsFit(n);
      ok, json, made := PlaceCopy(n, v, [], |n.items|, false, universe);
      if ok {
        Notify(n);
      }
    }

    /** One value of an extension; `made` is what earlier values brought in. */
    method PlaceLast(n: Node, v: Value, ghost universe: set<Node>, ghost made: set<Node>)
      returns (ok: bool, ghost json: Json, ghost more: set<Node>)
      requires Valid() && n in nodes && !n.isDict && Closed(universe + made) && (v.Ref? ==> v.node in universe)
      requires n !in universe ==> Closed(universe)
      modifies this, n
      ensures Valid() && old(nodes) <= nodes && made <= more && fresh(more - made) && Closed(universe + more)
      ensures n.root == old(n.root) && n.root != null && n.changes == old(n.changes) && n.keys == []
      ensures |n.items| == |old(n.items)| + (if ok then 1 else 0) && n.items[..|old(n.items)|] == old(n.items)
      ensures !ok ==> more == made && !Unfolds(v, universe + more)
      ensures ok ==> Represents(n.items[|old(n.items)|], json, more)
      ensures n !in universe ==> (ok <==> old(Unfolds(v, universe))) && (ok ==> old(Represents(v, json, universe)))
    {
      ContentsFit(n);
      if n !in universe {
        SameInClosed(v, universe, universe + made);
      }
      ghost var inner;
      ok, json, inner := PlaceCopy(n, v, [], |n.items|, false, universe + made);
      more := if ok then made + inner else made;
      assert ok ==> universe + (made + inner) == universe + made + inner;
      if ok {
        RepresentsInMore(n.items[|old(n.items)|], json, inner, more);
      }
    }

    /** Like `Update`: a value that comes round to itself leaves the earlier ones in, unreported. */
    method Extend(n: Node, values: seq<Value>, ghost universe: set<Node>)
      returns (ok: bool, stuck: nat, ghost kids: seq<Json>, ghost made: set<Node>)
      requires Valid() && n in nodes && !n.isDict && Closed(universe)
      requires forall k :: 0 <= k < |values| && values[k].Ref? ==> values[k].node in universe
      modifies this, n, n.root
      ensures Valid() && old(nodes) <= nodes && fresh(made)
      ensures Told(n, ok) && stuck <= |values| && (ok <==> stuck == |values|)
      ensures |n.items| == |old(n.items)| + stuck && n.items[..|old(n.items)|] == old(n.items)
      ensures !ok ==> !Unfolds(values[stuck], universe + made)
      ensures |kids| == stuck
      ensures forall k :: 0 <= k < stuck ==> Represents(n.items[|old(n.items)| + k], kids[k], made)
      ensures n !in universe ==> forall k :: 0 <= k < stuck ==> old(Represents(values[k], kids[k], universe))
      ensures n !in universe ==> (ok <==> forall k :: 0 <= k < |values| ==> old(Unfolds(values[k], universe)))
    {
      ContentsFit(n);
      made, stuck, kids := {}, 0, [];
      while stuck < |values|
        invariant stuck <= |values|
        invariant Valid() && n in nodes && old(nodes) <= nodes && fresh(made)
        invariant Told(n, false)
        invariant Closed(universe + made) && (n !in universe ==> unchanged(universe))
        invariant |n.items| == |old(n.items)| + stuck && n.items[..|old(n.items)|] == old(n.items)
        invariant |kids| == stuck && n !in made
        invariant forall k :: 0 <= k < stuck ==> Represents(n.items[|old(n.items)| + k], kids[k], made)
        invariant n !in universe ==> forall k :: 0 <= k < stuck ==> old(Represents(values[k], kids[k], universe))
        invariant n !in universe ==> forall k :: 0 <= k < stuck ==> old(Unfolds(values[k], universe))
        decreases |values| - stuck
      {
        ghost var json, more;
        ok, json, more := PlaceLast(n, values[stuck], universe, made);
        if ok {
          forall k | 0 <= k < stuck ensures Represents(n.items[|old(n.items)| + k], kids[k], more) {
            RepresentsInMore(n.items[|old(n.items)| + k], kids[k], made, more);
          }
          kids := kids + [json];
        }
        made := more;
        if !ok {
          return;
        }
        stuck := stuck + 1;
      }
      Notify(n);
      ok := true;
    }

    /** All values are copied before any goes in, so a slice assignment happens whole or not at all. */
    method SetSlice(n: Node, lo: nat, hi: nat, values: seq<Value>, ghost universe: set<Node>)
      returns (ok: bool, ghost kids: seq<Json>, ghost made: set<Node>)
      requires Valid() && n in nodes && !n.isDict && Closed(universe) && lo <= hi <= |n.items|
      requires forall k :: 0 <= k < |values| && values[k].Ref? ==> values[k].node in universe
      modifies this, n, n.root
      ensures Valid() && old(nodes) <= nodes && n.keys == []
      ensures Told(n, ok)
      ensures ok <==> forall k :: 0 <= k < |values| ==> old(Unfolds(values[k], universe))
      ensures !ok ==> n.items == old(n.items)
      ensures ok ==> |n.items| == |old(n.items)| - (hi - lo) + |values|
                     && n.items[..lo] == old(n.items)[..lo] && n.items[lo + |values|..] == old(n.items)[hi..]
      ensures ok ==> |kids| == |values| && forall k :: 0 <= k < |values| ==>
                old(Represents(values[k], kids[k], universe)) && Represents(n.items[lo + k], kids[k], made)
    {
      ContentsFit(n);
      var copies;
      copies, kids, made := AdoptAll(n, values, universe);
      ok := copies.Some?;
      if ok {
        ContentsFit(n);
        SetContents(n, [], n.items[..lo] + copies.value + n.items[hi..]);
        forall k | 0 <= k < |values|
          ensures old(Represents(values[k], kids[k], universe)) && Represents(n.items[lo + k], kids[k], made)
        {
          assert n.items[lo + k] == copies.value[k];
        }
        Notify(n);
      }
    }

    method AdoptAll(n: Node, values: seq<Value>, ghost universe: set<Node>)
      returns (copies: Option<seq<Value>>, ghost kids: seq<Json>, ghost made: set<Node>)
      requires Valid() && n in nodes && Closed(universe)
      requires forall k :: 0 <= k < |values| && values[k].Ref? ==> values[k].node in universe
      modifies this
      ensures Valid() && old(nodes) <= nodes
      ensures copies.Some? <==> forall k :: 0 <= k < |values| ==> Unfolds(values[k], universe)
      ensures copies.Some? ==> |copies.value| == |values| && fresh(made) && Copied(values, copies.value, kids, universe, made, 0)
      ensures copies.Some? ==> forall k {:trigger copies.value[k]} :: 0 <= k < |values| ==> Fits(copies.value[k], n)
    {
      copies, kids, made := Some([]), [], {};
      for i := 0 to |values|
        invariant Valid() && n in nodes && old(nodes) <= nodes
        invariant copies.Some? && |copies.value| == i && fresh(made)
        invariant Copied(values, copies.value, kids, universe, made, 0)
        invariant forall k :: 0 <= k < i ==> Unfolds(values[k], universe)
        invariant forall k {:trigger copies.value[k]} :: 0 <= k < i ==> Fits(copies.value[k], n)
      {
        var copy;
        ghost var json, more;
        label Before:
        copy, json, more := Adopt(n, values[i], universe);
        if copy.None? {
          return None, kids, made;
        }
        CopiedOneMore(values, copies.value, kids, universe, made, 0, copy.value, json, more);
        forall k | 0 <= k < i ensures Fits(copies.value[k], n) {
          assert old@Before(Fits(copies.value[k], n));
        }
        copies, kids, made := Some(copies.value + [copy.value]), kids + [json], made + more;
      }
    }

    /** Removes what index `index` names: deletion, popping, and removal of a value found there. */
    method DeleteAt(n: Node, index: int) returns (ok: bool)
      requires Valid() && n in nodes && !n.isDict
      modifies n, n.root
      ensures Valid() && Told(n, ok) && n.keys == []
      ensures ok <==> At(index, |old(n.items)|).Some?
      ensures n.items == if ok then var at := At(index, |old(n.items)|).value;
                                    old(n.items)[..at] + old(n.items)[at + 1..]
                         else old(n.items)
    {
      ContentsFit(n);
      ok := At(index, |n.items|).Some?;
      if ok {
        var at := At(index, |n.items|).value;
        SetContents(n, [], n.items[..at] + n.items[at + 1..]);
        Notify(n);
      }
    }

    /** Sorting and reversing: the items of `n` in another order. */
    method Reorder(n: Node, order: seq<nat>)
      requires Valid() && n in nodes && !n.isDict
      requires |order| == |n.items| && forall k :: 0 <= k < |order| ==> order[k] < |n.items|
      requires forall i, k :: 0 <= i < k < |order| ==> order[i] != order[k]
      modifies n, n.root
      ensures Valid() && Told(n, true) && n.keys == [] && |n.items| == |order|
      ensures forall k :: 0 <= k < |order| ==> n.items[k] == old(n.items)[order[k]]
    {
      ContentsFit(n);
      var items := n.items;
      SetContents(n, [], seq(|order|, k requires 0 <= k < |order| => items[order[k]]));
      Notify(n);
    }

    /** `*=`: the same items over again, so one container may stand in several places. */
    method Repeat(n: Node, count: int)
      requires Valid() && n in nodes && !n.isDict
      modifies n, n.root
      ensures Valid() && Told(n, true) && n.keys == []
      ensures n.items == Repeated(old(n.items), if count > 0 then count else 0)
    {
      ContentsFit(n);
      var times := if count > 0 then count else 0;
      var items: seq<Value> := [];
      for i := 0 to times
        invariant items == Repeated(n.items, i)
        invariant forall k {:trigger items[k]} :: 0 <= k < |items| ==> Fits(items[k], n)
      {
        items := items + n.items;
      }
      SetContents(n, [], items);
      Notify(n);
    }

    // ---------------------------------------------------------- both

    method Clear(n: Node)
      requires Valid() && n in nodes
      modifies n, n.root
      ensures Valid() && Told(n, true) && n.keys == [] && n.items == []
    {
      SetContents(n, [], []);
      Notify(n);
    }

    /** A column is given a plain dictionary or list: its copy is a top container. */
    method Coerce(v: Value, ghost universe: set<Node>) returns (top: Option<Node>, ghost json: Json)
      requires Valid() && Closed(universe) && v.Ref? && v.node in universe
      modifies this
      ensures Valid() && old(nodes) <= nodes && old(lost) == lost
      ensures top.Some? <==> Unfolds(v, universe)
      ensures top.Some? ==> top.value in nodes && fresh(top.value) && top.value.root == top.value
      ensures top.Some? ==> Represents(v, json, universe) && Represents(Ref(top.value), json, nodes)
    {
      ghost var made, now;
      var copy;
      copy, json, made, now := Reparent(v, null, {}, universe, clock);
      if copy.None? {
        NeverUnfolds(v, universe);
        return None, json;
      }
      top := Some(copy.value.node);
      RegisterTop(copy.value.node, made, now);
      RepresentsInMore(copy.value, json, made, nodes);
    }

    ghost method RegisterTop(top: Node, made: set<Node>, now: nat)
      requires Valid() && made !! nodes && clock <= now
      requires top in made && top.root == top && Wired(made, top, clock, now)
      modifies this
      ensures Valid() && nodes == old(nodes) + made && lost == old(lost)
    {
      nodes, clock := nodes + made, now;
      forall m | m in nodes ensures Sound(m) {
        if m in made {
          assert YoungerKids(m, made);
          forall k | 0 <= k < |m.items| ensures Fits(m.items[k], m) {
            assert m.items[k].Ref? ==> m.items[k].node in made;
          }
        } else {
          assert old(Sound(m));
          forall k | 0 <= k < |m.items| ensures Fits(m.items[k], m) {
            assert old(Fits(m.items[k], m));
          }
        }
      }
    }
  }

  // ------------------------------------------------------------ what operations say

  /** Where a copy put into `n` reports: to `n`'s root, or to `n` itself while that root is empty. */
  function RootFor(n: Node): Node
    reads n, n.root
  {
    if n.root != null && n.root.items != [] then n.root else n
  }

  /** The root of `n` hears of the operation once if `told`, and not at all otherwise; its own contents stay. */
  twostate predicate Told(n: Node, told: bool)
    reads n, n.root
  {
    && n.root == old(n.root) && n.root != null
    && n.root.changes == old(n.root.changes) + (if told then 1 else 0)
    && (n.root != n ==> n.root.keys == old(n.root.keys) && n.root.items == old(n.root.items))
  }

  /** First position of a key, or the length if it is not there. */
  function KeyAt(keys: seq<string>, key: string): (at: nat)
    ensures at <= |keys| && (at < |keys| ==> keys[at] == key) && key !in keys[..at]
  {
    if keys == [] then 0
    else
      var front := keys[..|keys| - 1];
      var at := KeyAt(front, key);
      assert keys == front + [keys[|keys| - 1]];
      if at < |front| then assert keys[..at] == front[..at]; at
      else if keys[|keys| - 1] == key then assert keys[..|front|] == front; |front|
      else assert keys[..|keys|] == keys; |keys|
  }

  function PutKey(keys: seq<string>, key: string): seq<string> {
    if KeyAt(keys, key) < |keys| then keys else keys + [key]
  }

  lemma PutKeyFindsIt(keys: seq<string>, key: string)
    ensures KeyAt(PutKey(keys, key), key) == KeyAt(keys, key)
    ensures key in PutKey(keys, key)
  {
  }

  /** A key that is there keeps its place, a new one comes last; nothing else moves. */
  ghost predicate Put(keys: seq<string>, items: seq<Value>, key: string, newKeys: seq<string>, newItems: seq<Value>) {
    && newKeys == PutKey(keys, key) && |newItems| == |newKeys| && |items| == |keys|
    && forall k :: 0 <= k < |keys| && keys[k] != key ==> newItems[k] == items[k]
  }

  lemma PlacedIsPut(keys: seq<string>, items: seq<Value>, key: string, v: Value)
    requires |keys| == |items|
    ensures var at := KeyAt(keys, key);
            Put(keys, items, key, PutKey(keys, key),
                items[..at] + [v] + items[if at < |keys| then at + 1 else at..])
  {
  }

  /** The position an index names, counting from the end if it is negative. */
  function At(index: int, length: nat): (at: Option<nat>)
    ensures at.Some? ==> at.value < length && (at.value == index || at.value == index + length)
    ensures at.None? <==> index >= length || index + length < 0
  {
    if 0 <= index < length then Some(index)
    else if index < 0 <= length + index then Some(length + index)
    else None
  }

  /** Where an insertion goes: never off either end. */
  function Clamped(index: int, length: nat): (at: nat)
    ensures at <= length
    ensures 0 <= index + length && index <= length ==> at == index || (index < 0 && at == index + length)
    ensures index > length ==> at == length
    ensures index + length < 0 ==> at == 0
  {
    if index < 0 then Max(0, length + index) else Min(index, length)
  }

  function Repeated(items: seq<Value>, times: nat): seq<Value> {
    if times == 0 then [] else Repeated(items, times - 1) + items
  }

  /** Each of the copies is the items whole. */
  lemma {:induction false} RepeatedIsCopies(items: seq<Value>, times: nat, i: nat)
    requires i < times
    ensures |Repeated(items, i)| + |items| <= |Repeated(items, times)|
    ensures Repeated(items, times)[|Repeated(items, i)|..|Repeated(items, i)| + |items|] == items
    ensures |Repeated(items, times)| == |Repeated(items, times - 1)| + |items|
  {
    if i < times - 1 {
      RepeatedIsCopies(items, times - 1, i);
      assert Repeated(items, times)[|Repeated(items, i)|..|Repeated(items, i)| + |items|]
          == Repeated(items, times - 1)[|Repeated(items, i)|..|Repeated(items, i)| + |items|];
    }
  }

  ghost predicate Without(
    keys: seq<string>, items: seq<Value>, at: nat, newKeys: seq<string>, newItems: seq<Value>)
  {
    && at < |keys| && at < |items|
    && newKeys == keys[..at] + keys[at + 1..]
    && newItems == items[..at] + items[at + 1..]
  }

  lemma WiredIsClosed(made: set<Node>, root: Node, from: nat, to: nat)
    requires Wired(made, root, from, to)
    ensures Closed(made)
  {
  }

  /** Within a closed set a value spells the same as within a larger one. */
  lemma {:induction false} SpellsInClosed(v: Value, j: Json, nodes: set<Node>, more: set<Node>)
    requires Closed(nodes) && nodes <= more && (v.Ref? ==> v.node in nodes) && Represents(v, j, more)
    ensures Represents(v, j, nodes)
    decreases j
  {
    if j.Tree? {
      forall k | 0 <= k < |j.kids| ensures Represents(v.node.items[k], j.kids[k], nodes) {
        SpellsInClosed(v.node.items[k], j.kids[k], nodes, more);
      }
    }
  }

  lemma SameInClosed(v: Value, nodes: set<Node>, more: set<Node>)
    requires Closed(nodes) && nodes <= more && (v.Ref? ==> v.node in nodes)
    ensures Unfolds(v, nodes) <==> Unfolds(v, more)
    ensures forall j :: Represents(v, j, more) ==> Represents(v, j, nodes)
  {
    forall j | Represents(v, j, more) ensures Represents(v, j, nodes) {
      SpellsInClosed(v, j, nodes, more);
    }
    if j :| Represents(v, j, nodes) {
      RepresentsInMore(v, j, nodes, more);
    }
  }

  /** `key` is there, and what stands under it spells out `j`. */
  ghost predicate Holds(keys: seq<string>, items: seq<Value>, key: string, j: Json, nodes: set<Node>)
    reads nodes
  {
    var at := KeyAt(keys, key);
    at < |keys| == |items| && Represents(items[at], j, nodes)
  }

  /** The first `i` values spell out `kids`. */
  ghost predicate AllSpell(pairs: seq<(string, Value)>, kids: seq<Json>, i: nat, nodes: set<Node>)
    reads nodes
  {
    i <= |pairs| && |kids| == i && forall k :: 0 <= k < i ==> Represents(pairs[k].1, kids[k], nodes)
  }

  /** An update of `keys` and `items` that has come to `newKeys` and `newItems` after its first `i` pairs. */
  ghost predicate Updating(
    keys: seq<string>, items: seq<Value>, pairs: seq<(string, Value)>, i: nat,
    newKeys: seq<string>, newItems: seq<Value>, kids: seq<Json>, made: set<Node>)
    reads made
  {
    && i <= |pairs| && |kids| == i
    && newKeys == KeysAfter(keys, pairs[..i])
    && OthersStay(keys, items, pairs[..i], newItems)
    && forall k :: 0 <= k < i ==> Holds(newKeys, newItems, pairs[k].0, kids[k], made)
  }

  lemma {:induction false} UpdatingOneMore(
    keys: seq<string>, items: seq<Value>, pairs: seq<(string, Value)>, i: nat,
    newKeys: seq<string>, newItems: seq<Value>, kids: seq<Json>, made: set<Node>,
    putKeys: seq<string>, putItems: seq<Value>, json: Json, more: set<Node>)
    requires Updating(keys, items, pairs, i, newKeys, newItems, kids, made) && i < |pairs|
    requires forall j, k :: 0 <= j < k < |pairs| ==> pairs[j].0 != pairs[k].0
    requires Put(newKeys, newItems, pairs[i].0, putKeys, putItems)
    requires Holds(putKeys, putItems, pairs[i].0, json, more)
    ensures Updating(keys, items, pairs, i + 1, putKeys, putItems, kids + [json], made + more)
  {
    assert pairs[..i + 1][..i] == pairs[..i];
    forall k | 0 <= k < i ensures Holds(putKeys, putItems, pairs[k].0, kids[k], made + more) {
      assert Holds(newKeys, newItems, pairs[k].0, kids[k], made);
      PutKeepsOther(newKeys, newItems, pairs[i].0, putKeys, putItems, pairs[k].0);
      RepresentsInMore(putItems[KeyAt(putKeys, pairs[k].0)], kids[k], made, made + more);
    }
    RepresentsInMore(putItems[KeyAt(putKeys, pairs[i].0)], json, more, made + more);
    OthersStayOneMore(keys, items, pairs, i, newKeys, newItems, putItems);
  }

  lemma PutKeepsOther(
    keys: seq<string>, items: seq<Value>, key: string, newKeys: seq<string>, newItems: seq<Value>, other: string)
    requires Put(keys, items, key, newKeys, newItems) && other != key && KeyAt(keys, other) < |keys|
    ensures var at := KeyAt(keys, other);
            KeyAt(newKeys, other) == at && newItems[at] == items[at]
  {
  }

  /** The items whose keys are not among the pairs are where they were. */
  ghost predicate OthersStay(keys: seq<string>, items: seq<Value>, pairs: seq<(string, Value)>, newItems: seq<Value>) {
    && |keys| == |items| <= |newItems|
    && forall k :: 0 <= k < |keys| && !Among(keys[k], pairs) ==> newItems[k] == items[k]
  }

  predicate Among(key: string, pairs: seq<(string, Value)>) {
    exists i :: 0 <= i < |pairs| && pairs[i].0 == key
  }

  lemma AmongOneMore(key: string, pairs: seq<(string, Value)>, i: nat)
    requires i < |pairs|
    ensures Among(key, pairs[..i + 1]) <==> Among(key, pairs[..i]) || pairs[i].0 == key
  {
  }

  lemma OthersStayOneMore(
    first: seq<string>, firstItems: seq<Value>, pairs: seq<(string, Value)>, i: nat,
    keys: seq<string>, items: seq<Value>, newItems: seq<Value>)
    requires i < |pairs| && OthersStay(first, firstItems, pairs[..i], items)
    requires keys == KeysAfter(first, pairs[..i])
    requires Put(keys, items, pairs[i].0, PutKey(keys, pairs[i].0), newItems)
    ensures OthersStay(first, firstItems, pairs[..i + 1], newItems)
  {
    KeysAfterExtends(first, pairs[..i]);
    forall k | 0 <= k < |first| && !Among(first[k], pairs[..i + 1]) ensures newItems[k] == firstItems[k] {
      AmongOneMore(first[k], pairs, i);
      assert keys[k] == first[k];
    }
  }

  lemma {:induction false} KeysAfterExtends(keys: seq<string>, pairs: seq<(string, Value)>)
    ensures keys <= KeysAfter(keys, pairs)
  {
    if pairs != [] {
      KeysAfterExtends(keys, pairs[..|pairs| - 1]);
    }
  }

  function KeysAfter(keys: seq<string>, pairs: seq<(string, Value)>): seq<string> {
    if pairs == [] then keys
    else PutKey(KeysAfter(keys, pairs[..|pairs| - 1]), pairs[|pairs| - 1].0)
  }

  lemma NeverUnfolds(v: Value, universe: set<Node>)
    requires ComesRound(v, {}, universe)
    ensures forall j :: !Represents(v, j, universe)
  {
  }

  // ------------------------------------------------------------ what validity gives

  /** A walk down from container to container. */
  ghost predicate Path(path: seq<Node>)
    reads path
  {
    && path != []
    && forall k :: 0 <= k < |path| - 1 ==> StepsDown(path, k)
  }

  ghost predicate StepsDown(path: seq<Node>, k: nat)
    requires k < |path| - 1
    reads path
  {
    Ref(path[k + 1]) in path[k].items
  }

  /** Everything reachable from a top container reports to that container. */
  lemma {:induction false} ReachableReportsToTop(world: World, path: seq<Node>)
    requires world.Valid() && Path(path) && path[0] in world.nodes && path[0].root == path[0]
    ensures var last := path[|path| - 1];
            last in world.nodes && last !in world.lost && last.root == path[0]
    decreases |path|
  {
    assert world.Sound(path[0]);
    if |path| > 1 {
      var front := path[..|path| - 1];
      forall k | 0 <= k < |front| - 1 ensures StepsDown(front, k) {
        assert StepsDown(path, k);
      }
      ReachableReportsToTop(world, front);
      var parent := front[|front| - 1];
      assert world.Sound(parent);
      assert StepsDown(path, |front| - 1);
      var k :| 0 <= k < |parent.items| && parent.items[k] == Ref(path[|path| - 1]);
      assert world.Fits(parent.items[k], parent);
    }
  }

  /** No container contains itself, at any depth. */
  lemma {:induction false} DescentIsYounger(world: World, path: seq<Node>)
    requires world.Valid() && Path(path) && path[0] in world.nodes
    ensures path[|path| - 1] in world.nodes
    ensures |path| > 1 ==> path[0].born < path[|path| - 1].born
    decreases |path|
  {
    if |path| > 1 {
      var front := path[..|path| - 1];
      forall k | 0 <= k < |front| - 1 ensures StepsDown(front, k) {
        assert StepsDown(path, k);
      }
      DescentIsYounger(world, front);
      var parent := front[|front| - 1];
      assert world.Sound(parent);
      assert StepsDown(path, |front| - 1);
      var k :| 0 <= k < |parent.items| && parent.items[k] == Ref(path[|path| - 1]);
      assert world.Fits(parent.items[k], parent);
    }
  }

  lemma NoCycles(world: World, path: seq<Node>)
    requires world.Valid() && Path(path) && path[0] in world.nodes && |path| > 1
    ensures path[|path| - 1] != path[0]
  {
    DescentIsYounger(world, path);
  }
}
