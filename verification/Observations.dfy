/**
 What can be seen of a priority-free compound write: at each path nothing complete, or complete with or
 without a leaf. It determines the compound write, and a list of writes tells it directly.
 */
module Observations {
  import opened Options
  import opened Keys
  import opened Paths
  import opened Nodes
  import opened LeafViews
  import opened ImmutableTrees
  import opened CompoundWrites
  import opened Overlays
  import opened Replays
  import opened Layering
  import opened Removals

  /* ---------- what can be observed of a compound write ---------- */

  /** At each path: nothing complete, or complete with or without a leaf there. */
  ghost function Observe(t: WriteTree, z: Path): Option<Option<LeafValue>> {
    match Complete(t, z)
    case None => None
    case Some(n) => Some(RootLeaf(n))
  }

  ghost function ObserveAfterPut(t: WriteTree, x: Node, q: Path, z: Path): Option<Option<LeafValue>> {
    if Contains(q, z) then Some(LeafAt(x, z[|q|..]))
    else if Contains(z, q) && Observe(t, z).Some? && x != Empty then Some(None)
    else Observe(t, z)
  }

  lemma ObservePut(t: WriteTree, x: Node, q: Path, z: Path)
    requires PlainTree(t) && Plain(x) && PlainPath(q) && PlainPath(z)
    ensures Observe(Put(t, x, q), z) == ObserveAfterPut(t, x, q, z)
  {
    PlainIsCanonical(x);
    PutKeepsPlain(t, x, q);
    ChildAtByCases(Put(t, x, q), z);
    ChildAtByCases(t, z);
    if Contains(q, z) {
      assert q + z[|q|..] == z;
      ChildOfPutAbove(t, x, q, z[|q|..]);
      LeafPathCheck(x, z[|q|..]);
    } else if Contains(z, q) {
      assert z + q[|z|..] == q;
      ObservePutBelow(t, x, z, q[|z|..]);
    } else {
      ChildOfPutBeside(t, x, q, z);
    }
  }

  /** A write strictly below turns a leaf into an object, unless it deletes. */
  lemma ObservePutBelow(t: WriteTree, x: Node, z: Path, s: Path)
    requires PlainTree(t) && Plain(x) && PlainPath(z) && PlainPath(s) && s != []
    ensures Observe(Put(t, x, z + s), z) == if Observe(t, z).Some? && x != Empty then Some(None) else Observe(t, z)
  {
    PlainIsCanonical(x);
    PutKeepsPlain(t, x, z + s);
    ChildAtByCases(Put(t, x, z + s), z);
    ChildAtByCases(t, z);
    ChildOfPutBelow(t, x, z, s);
    if ChildAt(t, z).value.Some? {
      ChildKeepsPlain(t, z);
      LeafAtUpdate(ChildAt(t, z).value.value, s, x, []);
    }
  }

  /** A non-empty well-formed tree is complete somewhere. */
  lemma {:induction false} SomeComplete(t: WriteTree) returns (z: Path)
    requires PlainTree(t) && !t.IsEmpty()
    ensures PlainPath(z) && Complete(t, z).Some?
    decreases t
  {
    if t.value.Some? {
      z := [];
    } else {
      var k :| k in t.kids;
      var rest := SomeComplete(t.kids[k]);
      z := [k] + rest;
      assert z[1..] == rest;
    }
  }

  /** Compound writes that look the same are the same. */
  lemma {:induction false} SameObservationsSameTree(a: WriteTree, b: WriteTree)
    requires PlainTree(a) && PlainTree(b)
    requires LooksLike(a, b)
    ensures a == b
    decreases a
  {
    assert Observe(a, []) == Observe(b, []);
    if a.value.Some? {
      var va, vb := a.value.value, b.value.value;
      forall z: Path ensures LeafAt(va, z) == LeafAt(vb, z) {
        if PlainPath(z) {
          LeafPathCheck(va, z);
          LeafPathCheck(vb, z);
          assert Observe(a, z) == Observe(b, z);
        } else {
          if IsLeafPath(va, z) {
            LeafPathIsPlain(va, z);
          }
          if IsLeafPath(vb, z) {
            LeafPathIsPlain(vb, z);
          }
        }
      }
      SameLeavesSameTree(va, vb);
    } else {
      forall k: Key | k in a.kids || k in b.kids
        ensures k in a.kids && k in b.kids && a.kids[k] == b.kids[k]
      {
        if k in a.kids {
          SameKeys(a, b, k);
        } else {
          SameKeys(b, a, k);
        }
        SameBelow(a, b, k);
        SameObservationsSameTree(a.kids[k], b.kids[k]);
      }
      assert a.kids == b.kids;
    }
  }

  ghost predicate LooksLike(a: WriteTree, b: WriteTree) {
    forall z: Path :: PlainPath(z) ==> Observe(a, z) == Observe(b, z)
  }

  lemma ObserveKey(t: WriteTree, k: Key, z: Path)
    requires t.value.None?
    ensures Observe(t, [k] + z) == if k in t.kids then Observe(t.kids[k], z) else None
  {
    assert ([k] + z)[1..] == z;
  }

  lemma SameKeys(a: WriteTree, b: WriteTree, k: Key)
    requires PlainTree(a) && a.value.None? && b.value.None? && LooksLike(a, b) && k in a.kids
    ensures k in b.kids
  {
    var z := SomeComplete(a.kids[k]);
    ObserveKey(a, k, z);
    ObserveKey(b, k, z);
    assert Observe(a, [k] + z) == Observe(b, [k] + z);
  }

  lemma SameBelow(a: WriteTree, b: WriteTree, k: Key)
    requires PlainTree(a) && PlainTree(b) && a.value.None? && b.value.None? && LooksLike(a, b)
    requires k in a.kids && k in b.kids
    ensures LooksLike(a.kids[k], b.kids[k])
  {
    forall z: Path | PlainPath(z) ensures Observe(a.kids[k], z) == Observe(b.kids[k], z) {
      ObserveKey(a, k, z);
      ObserveKey(b, k, z);
      assert Observe(a, [k] + z) == Observe(b, [k] + z);
    }
  }

  ghost predicate PlainWrites(writes: seq<(Path, Node)>) {
    forall i :: 0 <= i < |writes| ==> PlainPath(writes[i].0) && Plain(writes[i].1)
  }

  lemma PlainWritesAreValid(writes: seq<(Path, Node)>)
    requires PlainWrites(writes)
    ensures ValidWrites(writes)
  {
    forall i | 0 <= i < |writes| ensures Canonical(writes[i].1) {
      PlainIsCanonical(writes[i].1);
    }
  }

  lemma {:induction false} PutAllKeepsPlain(t: WriteTree, writes: seq<(Path, Node)>)
    requires PlainTree(t) && PlainWrites(writes)
    ensures PlainTree(PutAll(t, writes))
    decreases writes
  {
    if writes != [] {
      AddWriteIsPut(t, writes[0].1, writes[0].0);
      PutKeepsPlain(t, writes[0].1, writes[0].0);
      PutAllKeepsPlain(Put(t, writes[0].1, writes[0].0), writes[1..]);
    }
  }

  /* ---------- what a list of writes shows ---------- */

  /** The last write of the list at or above `z`. */
  ghost predicate IsLastCover(writes: seq<(Path, Node)>, z: Path, c: nat) {
    c < |writes| && Contains(writes[c].0, z) && forall i :: c < i < |writes| ==> !Contains(writes[i].0, z)
  }

  /** A write after the c-th puts data strictly below `z`. */
  ghost predicate DataAfter(writes: seq<(Path, Node)>, z: Path, c: nat) {
    exists i :: c < i < |writes| && StrictlyAbove(z, writes[i].0) && writes[i].1 != Empty
  }

  /** What the writes show at `z`: the leaf the last write covering it puts there, unless data followed below. */
  ghost function Shown(writes: seq<(Path, Node)>, z: Path): Option<Option<LeafValue>> {
    if exists c: nat :: IsLastCover(writes, z, c) then
      var c: nat :| IsLastCover(writes, z, c);
      Some(if DataAfter(writes, z, c) then None else LeafAt(writes[c].1, z[|writes[c].0|..]))
    else None
  }

  lemma ShownBy(writes: seq<(Path, Node)>, z: Path, c: nat)
    requires IsLastCover(writes, z, c)
    ensures Shown(writes, z) == Some(if DataAfter(writes, z, c) then None else LeafAt(writes[c].1, z[|writes[c].0|..]))
  {
    forall d: nat | IsLastCover(writes, z, d) ensures d == c {
    }
  }

  /** One more write that covers `z` is what is shown. */
  lemma ShownCovering(front: seq<(Path, Node)>, q: Path, x: Node, z: Path)
    requires Contains(q, z)
    ensures Shown(front + [(q, x)], z) == Some(LeafAt(x, z[|q|..]))
  {
    var writes := front + [(q, x)];
    ShownBy(writes, z, |front|);
  }

  /** One more write that does not cover `z` hides the leaf there if it puts data strictly below. */
  lemma ShownOther(front: seq<(Path, Node)>, q: Path, x: Node, z: Path)
    requires !Contains(q, z)
    ensures Shown(front + [(q, x)], z)
            == if StrictlyAbove(z, q) && x != Empty && Shown(front, z).Some? then Some(None) else Shown(front, z)
  {
    var writes := front + [(q, x)];
    forall c: nat ensures IsLastCover(writes, z, c) <==> IsLastCover(front, z, c) {
      LastCoverStays(front, q, x, z, c);
    }
    if c: nat :| IsLastCover(front, z, c) {
      ShownBy(front, z, c);
      ShownBy(writes, z, c);
      DataAfterOneMore(front, q, x, z, c);
    }
  }

  lemma LastCoverStays(front: seq<(Path, Node)>, q: Path, x: Node, z: Path, c: nat)
    requires !Contains(q, z)
    ensures IsLastCover(front + [(q, x)], z, c) <==> IsLastCover(front, z, c)
  {
    var writes := front + [(q, x)];
    assert writes[|front|] == (q, x);
    assert forall i :: 0 <= i < |front| ==> writes[i] == front[i];
  }

  lemma DataAfterOneMore(front: seq<(Path, Node)>, q: Path, x: Node, z: Path, c: nat)
    requires c < |front|
    ensures DataAfter(front + [(q, x)], z, c) <==> DataAfter(front, z, c) || (StrictlyAbove(z, q) && x != Empty)
  {
    var writes := front + [(q, x)];
    assert writes[|front|] == (q, x);
    assert forall i :: 0 <= i < |front| ==> writes[i] == front[i];
  }

  /** The list tells what its compound write shows. */
  lemma {:induction false} ShownIsObserved(writes: seq<(Path, Node)>, z: Path)
    requires PlainWrites(writes) && PlainPath(z)
    ensures Observe(PutAll(EmptyTree(), writes), z) == Shown(writes, z)
    decreases |writes|
  {
    if writes != [] {
      var n := |writes| - 1;
      var front := writes[..n];
      var (q, x) := writes[n];
      assert writes == front + [(q, x)];
      ShownIsObserved(front, z);
      var t := PutAll(EmptyTree(), front);
      PutAllKeepsPlain(EmptyTree(), front);
      PutLast(EmptyTree(), writes);
      AddWriteIsPut(t, x, q);
      ObservePut(t, x, q, z);
      if Contains(q, z) {
        ShownCovering(front, q, x, z);
      } else {
        ShownOther(front, q, x, z);
      }
    }
  }

  /* ---------- what is left after erasing ---------- */

  lemma {:induction false} EraseKeepsPlain(t: WriteTree, p: Path)
    requires PlainTree(t) && PlainPath(p)
    ensures PlainTree(Erase(t, p))
    decreases p
  {
    RemoveKeepsWf(t, p);
    if p != [] {
      EraseKeepsPlain(t.ChildOrEmpty(p[0]), p[1..]);
    }
  }

  /** Erasing takes away everything at and below the path, unless a value lies above it. */
  lemma {:induction false} ObserveErase(t: WriteTree, p: Path, z: Path)
    requires Wf(t)
    ensures Observe(Erase(t, p), z) == if Contains(p, z) && !ValueAbove(t, p) then None else Observe(t, z)
    decreases p
  {
    if p != [] {
      if t.value.Some? {
        EraseInValue(t, p);
      } else if z != [] && z[0] == p[0] {
        ContainsBelow(p, z);
        ObserveErase(t.ChildOrEmpty(p[0]), p[1..], z[1..]);
      }
    }
  }

  lemma {:induction false} ValueAboveAfterErase(t: WriteTree, p: Path, q: Path)
    requires Incomparable(p, q)
    ensures ValueAbove(Erase(t, p), q) <==> ValueAbove(t, q)
    decreases p
  {
    if t.value.None? && p[0] == q[0] {
      assert p == [p[0]] + p[1..] && q == [q[0]] + q[1..];
      ValueAboveAfterErase(t.ChildOrEmpty(p[0]), p[1..], q[1..]);
    }
  }

  /** One of the erased paths covers `z`, and no value lies above it. */
  ghost predicate IsErased(t: WriteTree, removed: seq<(Path, Node)>, z: Path) {
    exists i :: 0 <= i < |removed| && Contains(removed[i].0, z) && !ValueAbove(t, removed[i].0)
  }

  lemma {:induction false} ObserveEraseAll(t: WriteTree, removed: seq<(Path, Node)>, z: Path)
    requires PlainTree(t) && PlainWrites(removed) && Apart(removed)
    ensures PlainTree(EraseAll(t, removed))
    ensures Observe(EraseAll(t, removed), z) == if IsErased(t, removed, z) then None else Observe(t, z)
    decreases removed
  {
    if removed != [] {
      var p, rest := removed[0].0, removed[1..];
      EraseKeepsPlain(t, p);
      ObserveErase(t, p, z);
      ObserveEraseAll(Erase(t, p), rest, z);
      forall i | 0 <= i < |rest| ensures ValueAbove(Erase(t, p), rest[i].0) <==> ValueAbove(t, rest[i].0) {
        assert rest[i] == removed[i + 1];
        ValueAboveAfterErase(t, p, rest[i].0);
      }
      ErasedInSteps(t, Erase(t, p), removed, z);
    }
  }

  lemma ErasedInSteps(t: WriteTree, t': WriteTree, removed: seq<(Path, Node)>, z: Path)
    requires removed != []
    requires forall i :: 0 <= i < |removed[1..]| ==> (ValueAbove(t', removed[1..][i].0) <==> ValueAbove(t, removed[1..][i].0))
    ensures IsErased(t, removed, z)
            <==> (Contains(removed[0].0, z) && !ValueAbove(t, removed[0].0)) || IsErased(t', removed[1..], z)
  {
    assert forall i :: 0 < i < |removed| ==> removed[i] == removed[1..][i - 1];
    if IsErased(t', removed[1..], z) {
      var i :| 0 <= i < |removed[1..]| && Contains(removed[1..][i].0, z) && !ValueAbove(t', removed[1..][i].0);
      assert removed[i + 1] == removed[1..][i];
    }
  }

  /** The same on lists: one of the removed writes covers `z`, and no write lies strictly above it. */
  ghost predicate IsTakenAway(writes: seq<(Path, Node)>, removed: seq<(Path, Node)>, z: Path) {
    exists i :: 0 <= i < |removed| && Contains(removed[i].0, z) && NoneAbove(writes, removed[i].0)
  }

  lemma ValueAboveOnLists(writes: seq<(Path, Node)>, p: Path)
    requires ValidWrites(writes)
    ensures ValueAbove(PutAll(EmptyTree(), writes), p) <==> !NoneAbove(writes, p)
  {
    if NoneAbove(writes, p) {
      NoneAboveNoValue(EmptyTree(), p, writes);
    } else {
      var i :| 0 <= i < |writes| && StrictlyAbove(writes[i].0, p);
      SomeAboveIsValue(EmptyTree(), p, writes, i);
    }
  }

  lemma ShownAfterErasing(writes: seq<(Path, Node)>, removed: seq<(Path, Node)>, z: Path)
    requires PlainWrites(writes) && PlainWrites(removed) && Apart(removed) && PlainPath(z)
    ensures PlainTree(EraseAll(PutAll(EmptyTree(), writes), removed))
    ensures Observe(EraseAll(PutAll(EmptyTree(), writes), removed), z)
            == if IsTakenAway(writes, removed, z) then None else Shown(writes, z)
  {
    var t := PutAll(EmptyTree(), writes);
    PutAllKeepsPlain(EmptyTree(), writes);
    PlainWritesAreValid(writes);
    ObserveEraseAll(t, removed, z);
    ShownIsObserved(writes, z);
    forall i | 0 <= i < |removed| ensures ValueAbove(t, removed[i].0) <==> !NoneAbove(writes, removed[i].0) {
      ValueAboveOnLists(writes, removed[i].0);
    }
  }
}
