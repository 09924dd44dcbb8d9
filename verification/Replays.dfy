/**
 Overlay and replay. On priority-free data, adding a write to a compound write and applying the result
 is applying the compound write and then putting the write, except when a deletion takes back the very
 writes that displaced a leaf.
 */
module Replays {
  import opened Options
  import opened Keys
  import opened Paths
  import opened Nodes
  import opened LeafViews
  import opened Enumerations
  import opened ImmutableTrees
  import opened CompoundWrites
  import opened Overlays

  /** Well-formed compound writes without priorities. */
  ghost predicate PlainTree(t: WriteTree) {
    && Wf(t)
    && (t.value.Some? ==> Plain(t.value.value))
    && PRIORITY !in t.kids
    && forall k :: k in t.kids ==> PlainTree(t.kids[k])
  }

  lemma {:induction false} PutKeepsPlain(t: WriteTree, x: Node, path: Path)
    requires PlainTree(t) && Plain(x) && PlainPath(path)
    ensures PlainTree(Put(t, x, path))
    decreases path
  {
    PlainIsCanonical(x);
    PutKeepsWf(t, x, path);
    if t.value.Some? {
      UpdateKeepsCanonical(t.value.value, path, x);
    } else if path != [] {
      PutKeepsPlain(t.ChildOrEmpty(path[0]), x, path[1..]);
    }
  }

  lemma {:induction false} ChildKeepsPlain(t: WriteTree, path: Path)
    requires PlainTree(t) && PlainPath(path)
    ensures PlainTree(ChildAt(t, path))
    decreases path
  {
    ChildKeepsWf(t, path);
    if t.value.Some? {
      GetKeepsCanonical(t.value.value, path);
    } else if path != [] && path[0] in t.kids {
      ChildKeepsPlain(t.kids[path[0]], path[1..]);
    }
  }

  lemma {:induction false} ApplyKeepsPlain(t: WriteTree, path: Path, node: Node)
    requires PlainTree(t) && Plain(node) && PlainPath(path)
    ensures Plain(ApplyAt(t, path, node))
    decreases t, 1
  {
    PlainIsCanonical(node);
    if t.value.Some? {
      UpdateKeepsCanonical(node, path, t.value.value);
    } else {
      ApplyKidsKeepsPlain(t, Sorted(ByString, t.kids.Keys), path, node);
    }
  }

  lemma {:induction false} ApplyKidsKeepsPlain(t: WriteTree, keys: seq<Key>, path: Path, node: Node)
    requires PlainTree(t) && Plain(node) && PlainPath(path) && forall k :: k in keys ==> k in t.kids
    ensures Plain(ApplyKids(t, keys, path, node))
    decreases t, 0, |keys|
  {
    if keys != [] {
      ApplyKeepsPlain(t.kids[keys[0]], path + [keys[0]], node);
      ApplyKidsKeepsPlain(t, keys[1..], path, ApplyAt(t.kids[keys[0]], path + [keys[0]], node));
    }
  }

  /* ---------- what a compound write does, leaf by leaf ---------- */

  /** Some value in the tree is not a deletion. */
  ghost predicate HasData(t: WriteTree) {
    if t.value.Some? then t.value.value != Empty
    else exists k :: k in t.kids && HasData(t.kids[k])
  }

  /** Strictly above the writes, a leaf survives exactly when they are all deletions. */
  lemma {:induction false} LeafAbove(t: WriteTree, path: Path, node: Node, p: Path)
    requires PlainTree(t) && Plain(node) && PlainPath(path) && StrictlyAbove(p, path)
    ensures LeafAt(ApplyAt(t, path, node), p) == if HasData(t) then None else LeafAt(node, p)
    decreases t, 1
  {
    if t.value.Some? {
      LeafAtUpdate(node, path, t.value.value, p);
    } else {
      var keys := Sorted(ByString, t.kids.Keys);
      LeafAboveKids(t, keys, path, node, p);
      assert HasData(t) <==> exists k :: k in keys && HasData(t.kids[k]);
    }
  }

  lemma {:induction false} LeafAboveKids(t: WriteTree, keys: seq<Key>, path: Path, node: Node, p: Path)
    requires PlainTree(t) && Plain(node) && PlainPath(path) && Contains(p, path)
    requires forall k :: k in keys ==> k in t.kids
    ensures LeafAt(ApplyKids(t, keys, path, node), p)
            == if exists k :: k in keys && HasData(t.kids[k]) then None else LeafAt(node, p)
    decreases t, 0, |keys|
  {
    if keys != [] {
      var k := keys[0];
      assert forall i :: 0 <= i < |path| ==> (path + [k])[i] == path[i];
      LeafAbove(t.kids[k], path + [k], node, p);
      ApplyKeepsPlain(t.kids[k], path + [k], node);
      LeafAboveKids(t, keys[1..], path, ApplyAt(t.kids[k], path + [k], node), p);
    }
  }

  ghost function RootLeaf(n: Node): Option<LeafValue> {
    LeafAt(n, [])
  }

  /** At the root: the written leaf, or none if something is written below, or the old one. */
  lemma RootOfApplied(t: WriteTree, node: Node)
    requires PlainTree(t) && Plain(node)
    ensures RootLeaf(ApplyToNode(t, node))
            == if t.value.Some? then RootLeaf(t.value.value) else if HasData(t) then None else RootLeaf(node)
  {
    if t.value.None? {
      var keys := Sorted(ByString, t.kids.Keys);
      LeafAboveKids(t, keys, [], node, []);
      assert HasData(t) <==> exists k :: k in keys && HasData(t.kids[k]);
    }
  }

  /** The leaf of the event tree at `q`. */
  ghost function AppliedLeaf(t: WriteTree, node: Node, q: Path): Option<LeafValue> {
    var below := ChildAt(t, q);
    if below.value.Some? then RootLeaf(below.value.value)
    else if HasData(below) then None
    else LeafAt(node, q)
  }

  lemma LeafOfApplied(t: WriteTree, node: Node, q: Path)
    requires PlainTree(t) && Plain(node) && PlainPath(q)
    ensures LeafAt(ApplyToNode(t, node), q) == AppliedLeaf(t, node, q)
  {
    PlainIsCanonical(node);
    Localisation(t, q, node);
    ApplyKeepsPlain(t, [], node);
    assert q + [] == q;
    LeafAtGet(ApplyToNode(t, node), q, []);
    LeafAtGet(node, q, []);
    ChildKeepsPlain(t, q);
    GetKeepsCanonical(node, q);
    RootOfApplied(ChildAt(t, q), node.GetChild(q));
  }

  /* ---------- the data of a compound write ---------- */

  /** The compound write puts a leaf at `d`. */
  ghost predicate WritesLeaf(t: WriteTree, d: Path) {
    Complete(t, d).Some? && RootLeaf(Complete(t, d).value).Some?
  }

  lemma {:induction false} DataIsALeaf(t: WriteTree) returns (d: Path)
    requires PlainTree(t) && HasData(t)
    ensures PlainPath(d) && WritesLeaf(t, d)
    decreases t
  {
    if t.value.Some? {
      d := SomeLeaf(t.value.value);
      assert d + [] == d;
      LeafAtGet(t.value.value, d, []);
    } else {
      var k :| k in t.kids && HasData(t.kids[k]);
      var rest := DataIsALeaf(t.kids[k]);
      d := [k] + rest;
      assert d[1..] == rest;
    }
  }

  lemma {:induction false} LeafIsData(t: WriteTree, d: Path)
    requires PlainTree(t) && PlainPath(d) && WritesLeaf(t, d)
    ensures HasData(t)
    decreases d
  {
    if t.value.Some? {
      EmptyStaysEmpty(d);
    } else {
      LeafIsData(t.kids[d[0]], d[1..]);
    }
  }

  lemma WritesBelow(t: WriteTree, q: Path, d: Path)
    requires PlainTree(t) && PlainPath(q)
    ensures WritesLeaf(ChildAt(t, q), d) <==> WritesLeaf(t, q + d)
  {
    ChildInSteps(t, q, d);
    ChildKeepsWf(t, q);
    ChildAtByCases(t, q + d);
    ChildAtByCases(ChildAt(t, q), d);
  }

  /** After adding a deletion at `p`, the written leaves are those not below `p`. */
  lemma WritesAfterDelete(t: WriteTree, p: Path, d: Path)
    requires PlainTree(t) && PlainPath(p) && PlainPath(d)
    ensures WritesLeaf(Put(t, Empty, p), d) <==> WritesLeaf(t, d) && !Contains(p, d)
  {
    PutKeepsWf(t, Empty, p);
    ChildAtByCases(Put(t, Empty, p), d);
    ChildAtByCases(t, d);
    if Contains(p, d) {
      var s := d[|p|..];
      assert p + s == d;
      ChildOfPutAbove(t, Empty, p, s);
      EmptyStaysEmpty(s);
    } else if Contains(d, p) {
      var s := p[|d|..];
      assert d + s == p && s != [];
      ChildOfPutBelow(t, Empty, d, s);
      ChildKeepsPlain(t, d);
      var below := ChildAt(t, d);
      if below.value.Some? {
        LeafAtUpdate(below.value.value, s, Empty, []);
      }
    } else {
      ChildOfPutBeside(t, Empty, p, d);
    }
  }

  /* ---------- overlay equals replay ---------- */

  /**
   The deletion `x` at `p` takes back the writes that displaced the base's leaf at `q`: nothing covers
   `q`, leaves are written below it, and all of them lie at or below `p`.
   */
  ghost predicate TakesBack(t: WriteTree, base: Node, p: Path, q: Path) {
    && StrictlyAbove(q, p) && IsLeafPath(base, q) && Complete(t, q).None?
    && (exists d: Path :: PlainPath(d) && WritesLeaf(t, d) && Contains(q, d))
    && (forall d: Path :: PlainPath(d) && WritesLeaf(t, d) && Contains(q, d) ==> Contains(p, d))
  }

  ghost predicate Diverges(t: WriteTree, base: Node, x: Node, p: Path) {
    x == Empty && exists q: Path :: TakesBack(t, base, p, q)
  }

  lemma DataBelow(t: WriteTree, q: Path)
    requires PlainTree(t) && PlainPath(q)
    ensures HasData(ChildAt(t, q)) <==> exists d: Path :: PlainPath(d) && WritesLeaf(t, d) && Contains(q, d)
  {
    ChildKeepsPlain(t, q);
    if HasData(ChildAt(t, q)) {
      var d := DataIsALeaf(ChildAt(t, q));
      WritesBelow(t, q, d);
      assert PlainPath(q + d) && Contains(q, q + d);
    }
    if exists d: Path :: PlainPath(d) && WritesLeaf(t, d) && Contains(q, d) {
      var d: Path :| PlainPath(d) && WritesLeaf(t, d) && Contains(q, d);
      assert q + d[|q|..] == d;
      WritesBelow(t, q, d[|q|..]);
      LeafIsData(ChildAt(t, q), d[|q|..]);
    }
  }

  /** Below a base leaf, taking back all data is what makes the two orders differ. */
  lemma DataTakenBack(t: WriteTree, base: Node, p: Path, q: Path)
    requires PlainTree(t) && Plain(base) && PlainPath(p) && PlainPath(q)
    requires StrictlyAbove(q, p) && IsLeafPath(base, q) && Complete(t, q).None?
    ensures TakesBack(t, base, p, q) <==> HasData(ChildAt(t, q)) && !HasData(ChildAt(Put(t, Empty, p), q))
  {
    var t' := Put(t, Empty, p);
    PutKeepsPlain(t, Empty, p);
    DataBelow(t, q);
    DataBelow(t', q);
    forall d: Path | PlainPath(d) ensures WritesLeaf(t', d) <==> WritesLeaf(t, d) && !Contains(p, d) {
      WritesAfterDelete(t, p, d);
    }
  }

  /** Adding a write only adds data, or nothing if it is a deletion. */
  lemma {:induction false} PutData(t: WriteTree, x: Node, p: Path)
    requires PlainTree(t) && Plain(x) && PlainPath(p)
    ensures x != Empty ==> HasData(Put(t, x, p))
    ensures x == Empty && HasData(Put(t, x, p)) ==> HasData(t)
    decreases p
  {
    if t.value.Some? {
      UpdateEmptiness(t.value.value, p, x);
    } else if p != [] {
      PutData(t.ChildOrEmpty(p[0]), x, p[1..]);
      var t' := Put(t, x, p);
      assert p[0] in t'.kids;
      if x == Empty && HasData(t') {
        var k :| k in t'.kids && HasData(t'.kids[k]);
        assert HasData(t.ChildOrEmpty(k));
        assert k in t.kids;
      }
    }
  }

  lemma AgreeAtLeaf(t: WriteTree, base: Node, x: Node, p: Path, q: Path)
    requires PlainTree(t) && Plain(base) && Plain(x) && PlainPath(p) && PlainPath(q)
    ensures LeafAt(ApplyToNode(Put(t, x, p), base), q) == LeafAt(ApplyToNode(t, base).UpdateChild(p, x), q)
            <==> !(x == Empty && TakesBack(t, base, p, q))
  {
    PutKeepsPlain(t, x, p);
    ApplyKeepsPlain(t, [], base);
    LeafOfApplied(Put(t, x, p), base, q);
    LeafOfApplied(t, base, q);
    LeafAtUpdate(ApplyToNode(t, base), p, x, q);
    AppliedAfterPut(t, base, x, p, q);
  }

  lemma AppliedAfterPut(t: WriteTree, base: Node, x: Node, p: Path, q: Path)
    requires PlainTree(t) && Plain(base) && Plain(x) && PlainPath(p) && PlainPath(q)
    ensures AppliedLeaf(Put(t, x, p), base, q)
            == (if Contains(p, q) then LeafAt(x, q[|p|..])
                else if Contains(q, p) && x != Empty then None
                else AppliedLeaf(t, base, q))
            <==> !(x == Empty && TakesBack(t, base, p, q))
  {
    if Contains(p, q) {
      assert p + q[|p|..] == q;
      AgreeBelow(t, base, x, p, q[|p|..]);
    } else if Contains(q, p) {
      AgreeAbove(t, base, x, p, q);
    } else {
      PlainIsCanonical(x);
      ChildOfPutBeside(t, x, p, q);
    }
  }

  lemma AgreeBelow(t: WriteTree, base: Node, x: Node, p: Path, s: Path)
    requires PlainTree(t) && Plain(base) && Plain(x) && PlainPath(p) && PlainPath(s)
    ensures AppliedLeaf(Put(t, x, p), base, p + s) == LeafAt(x, s)
  {
    PlainIsCanonical(x);
    PutKeepsPlain(t, x, p);
    ChildOfPutAbove(t, x, p, s);
    ChildAtByCases(Put(t, x, p), p + s);
    LeafPathCheck(x, s);
  }

  lemma LeafPathCheck(x: Node, s: Path)
    requires Plain(x) && PlainPath(s)
    ensures RootLeaf(x.GetChild(s)) == LeafAt(x, s)
  {
    assert s + [] == s;
    LeafAtGet(x, s, []);
  }

  lemma AgreeAbove(t: WriteTree, base: Node, x: Node, p: Path, q: Path)
    requires PlainTree(t) && Plain(base) && Plain(x) && PlainPath(p) && StrictlyAbove(q, p)
    ensures AppliedLeaf(Put(t, x, p), base, q)
            == (if x != Empty then None else AppliedLeaf(t, base, q))
            <==> !(x == Empty && TakesBack(t, base, p, q))
  {
    PlainIsCanonical(x);
    assert PlainPath(q);
    var s := p[|q|..];
    assert q + s == p && s != [];
    ChildOfPutBelow(t, x, q, s);
    ChildKeepsPlain(t, q);
    ChildAtByCases(t, q);
    var below := ChildAt(t, q);
    if below.value.Some? {
      LeafAtUpdate(below.value.value, s, x, []);
    } else {
      PutData(below, x, s);
      if IsLeafPath(base, q) && x == Empty {
        DataTakenBack(t, base, p, q);
      }
    }
  }

  /** Overlay equals replay, exactly when no deletion takes back what displaced a leaf. */
  lemma OverlayEqualsReplay(w: CompoundWrite, base: Node, x: Node, p: Path)
    requires PlainTree(w.writeTree) && Plain(base) && Plain(x) && PlainPath(p)
    ensures ApplyToNode(w.AddWrite(x, p).writeTree, base) == ApplyToNode(w.writeTree, base).UpdateChild(p, x)
            <==> !Diverges(w.writeTree, base, x, p)
  {
    var t := w.writeTree;
    AddWriteIsPut(t, x, p);
    PutKeepsPlain(t, x, p);
    var overlay, replay := ApplyToNode(Put(t, x, p), base), ApplyToNode(t, base).UpdateChild(p, x);
    ApplyKeepsPlain(Put(t, x, p), [], base);
    ApplyKeepsPlain(t, [], base);
    PlainIsCanonical(ApplyToNode(t, base));
    PlainIsCanonical(x);
    UpdateKeepsCanonical(ApplyToNode(t, base), p, x);
    if !Diverges(t, base, x, p) {
      forall q: Path ensures LeafAt(overlay, q) == LeafAt(replay, q) {
        if PlainPath(q) {
          AgreeAtLeaf(t, base, x, p, q);
        } else {
          if IsLeafPath(overlay, q) {
            LeafPathIsPlain(overlay, q);
          }
          if IsLeafPath(replay, q) {
            LeafPathIsPlain(replay, q);
          }
        }
      }
      SameLeavesSameTree(overlay, replay);
    } else {
      var q: Path :| TakesBack(t, base, p, q);
      LeafPathIsPlain(base, q);
      AgreeAtLeaf(t, base, x, p, q);
    }
  }

  /** The case that differs: over a leaf, set "k" below it and delete it again. The overlay brings the leaf back. */
  lemma DeletionBringsLeafBack(k: Key, v: LeafValue, u: LeafValue)
    requires k != PRIORITY
    ensures var t := Put(EmptyTree(), Leaf(u, Empty), [k]);
            && Diverges(t, Leaf(v, Empty), Empty, [k])
            && ApplyToNode(Put(t, Empty, [k]), Leaf(v, Empty)) == Leaf(v, Empty)
            && ApplyToNode(t, Leaf(v, Empty)).UpdateChild([k], Empty) == Empty
  {
    var t, base, x := Put(EmptyTree(), Leaf(u, Empty), [k]), Leaf(v, Empty), Leaf(u, Empty);
    EmptyIsWf();
    PutKeepsPlain(EmptyTree(), x, [k]);
    PutAtKey(EmptyTree(), k, x);
    PutAtKey(t, k, Empty);
    assert t == Tree(None, map[k := ValueTree(x)]);
    assert Put(t, Empty, [k]) == Tree(None, map[k := ValueTree(Empty)]);
    ApplyOne(k, x, base);
    ApplyOne(k, Empty, base);
    ChildOfLeaf(v, k, x);
    LastChildDeleted(k, x, Empty);
    assert base.UpdateChild([k], Empty) == base;
    AddWriteIsPut(t, Empty, [k]);
    OverlayEqualsReplay(CompoundWrite(t), base, Empty, [k]);
  }

  lemma PutAtKey(t: WriteTree, k: Key, x: Node)
    requires t.value.None? && (k in t.kids ==> t.kids[k].kids == map[])
    ensures Put(t, x, [k]) == Tree(None, t.kids[k := ValueTree(x)])
  {
    assert [k][1..] == [];
    assert Put(t.ChildOrEmpty(k), x, []) == ValueTree(x);
  }
}
