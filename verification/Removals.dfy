/**
 Taking a write back. Erasing the removed write from the cached overlay refines re-layering the
 remaining log, under a condition on the other writes; for overwrites the exact condition is proved.
 The laws are about write trees and hold with priorities.
 */
module Removals {
  import opened Options
  import opened Paths
  import opened Nodes
  import opened ImmutableTrees
  import opened CompoundWrites
  import opened Overlays
  import opened Layering

  function Erase(t: WriteTree, p: Path): WriteTree {
    t.SetTree(EmptyTree(), p)
  }

  ghost function EraseAll(t: WriteTree, writes: seq<(Path, Node)>): WriteTree
    decreases writes
  {
    if writes == [] then t
    else EraseAll(CompoundWrite(t).RemoveWriteAtPath(writes[0].0).writeTree, writes[1..])
  }

  /** A value strictly above `p`. */
  predicate ValueAbove(t: WriteTree, p: Path)
    decreases p
  {
    p != [] && (t.value.Some? || (p[0] in t.kids && ValueAbove(t.kids[p[0]], p[1..])))
  }

  /* ---------- erasing and putting ---------- */

  /** Writes beside the erased path commute with erasing. */
  lemma {:induction false} EraseBesidePut(t: WriteTree, p: Path, q: Path, x: Node)
    requires Wf(t) && Incomparable(p, q)
    ensures Erase(Put(t, x, q), p) == Put(Erase(t, p), x, q)
    decreases p
  {
    var k, j := p[0], q[0];
    if t.value.Some? {
      EraseInValue(t, p);
      EraseInEmpty(p[1..]);
      assert t.kids - {k} == t.kids;
    } else if k != j {
      WithKidThere(t, k, Erase(t.ChildOrEmpty(k), p[1..]));
      WithKidsCommute(t.kids, k, Erase(t.ChildOrEmpty(k), p[1..]), j, Put(t.ChildOrEmpty(j), x, q[1..]));
    } else {
      var child := t.ChildOrEmpty(k);
      assert p == [k] + p[1..] && q == [k] + q[1..];
      ContainsThroughKey(k, p[1..], q[1..]);
      ContainsThroughKey(k, q[1..], p[1..]);
      EraseBesidePut(child, p[1..], q[1..], x);
      var put := Put(Erase(child, p[1..]), x, q[1..]);
      PutIsNotEmpty(Erase(child, p[1..]), x, q[1..]);
      WithKidThere(t, k, Erase(child, p[1..]));
      WithKidTwice(t.kids, k, Put(child, x, q[1..]), put);
      WithKidTwice(t.kids, k, Erase(child, p[1..]), put);
    }
  }

  /** A write at or below the erased path leaves no trace, unless it lands in a value above. */
  lemma {:induction false} EraseAfterPut(t: WriteTree, g: Path, p: Path, x: Node)
    requires Contains(g, p) && !ValueAbove(t, g)
    ensures Erase(Put(t, x, p), g) == Erase(t, g)
    decreases g
  {
    if g != [] {
      var k, child := g[0], t.ChildOrEmpty(g[0]);
      EraseAfterPut(child, g[1..], p[1..], x);
      WithKidTwice(t.kids, k, Put(child, x, p[1..]), Erase(child, g[1..]));
    }
  }

  /** Erasing where nothing is written changes nothing. */
  lemma {:induction false} EraseNothing(t: WriteTree, p: Path)
    requires Wf(t) && t.Subtree(p).IsEmpty()
    ensures Erase(t, p) == t
    decreases p
  {
    if p != [] {
      WithKidSame(t, p[0]);
      if p[0] in t.kids {
        EraseNothing(t.kids[p[0]], p[1..]);
      } else {
        EraseInEmpty(p[1..]);
      }
    }
  }

  /** Erasing below a value changes nothing. */
  lemma {:induction false} EraseInValue(t: WriteTree, p: Path)
    requires Wf(t) && ValueAbove(t, p)
    ensures Erase(t, p) == t
    decreases p
  {
    if t.value.Some? {
      RemoveKeepsWf(t, p);
    } else {
      EraseInValue(t.kids[p[0]], p[1..]);
      WithKidSame(t, p[0]);
    }
  }

  lemma {:induction false} EraseTwice(t: WriteTree, q: Path, g: Path)
    requires Contains(q, g)
    ensures Erase(Erase(t, g), q) == Erase(t, q)
    decreases q
  {
    if q != [] {
      var k, child := q[0], t.ChildOrEmpty(q[0]);
      EraseTwice(child, q[1..], g[1..]);
      WithKidThere(t, k, Erase(child, g[1..]));
      WithKidTwice(t.kids, k, Erase(child, g[1..]), Erase(child, q[1..]));
    }
  }

  /** A write forgets what was below it, unless it lands in a value above. */
  lemma {:induction false} PutForgets(t: WriteTree, q: Path, x: Node)
    requires Wf(t) && !ValueAbove(t, q)
    ensures Put(t, x, q) == Put(Erase(t, q), x, q)
    decreases q
  {
    if q != [] {
      var k, child := q[0], t.ChildOrEmpty(q[0]);
      PutForgets(child, q[1..], x);
      PutIsNotEmpty(child, x, q[1..]);
      WithKidThere(t, k, Erase(child, q[1..]));
      WithKidTwice(t.kids, k, Erase(child, q[1..]), Put(child, x, q[1..]));
    }
  }

  /** Which writes put a value strictly above a path. */
  lemma {:induction false} ValueAboveAfterPut(t: WriteTree, p: Path, q: Path, x: Node)
    requires !StrictlyAbove(q, p) || ValueAbove(t, p)
    ensures ValueAbove(Put(t, x, q), p) <==> ValueAbove(t, p)
    decreases q
  {
    if p != [] && q != [] && t.value.None? && p[0] == q[0] {
      assert p == [p[0]] + p[1..] && q == [q[0]] + q[1..];
      ContainsThroughKey(p[0], q[1..], p[1..]);
      ValueAboveAfterPut(t.ChildOrEmpty(p[0]), p[1..], q[1..], x);
    }
  }

  lemma {:induction false} ValueAboveAfterOwnPut(t: WriteTree, p: Path, q: Path, x: Node)
    requires StrictlyAbove(q, p)
    ensures ValueAbove(Put(t, x, q), p)
    decreases q
  {
    if q != [] {
      assert p == [p[0]] + p[1..] && q == [q[0]] + q[1..];
      ValueAboveAfterOwnPut(t.ChildOrEmpty(p[0]), p[1..], q[1..], x);
    }
  }

  lemma {:induction false} ValueAboveLower(t: WriteTree, q: Path, p: Path)
    requires Contains(q, p) && ValueAbove(t, q)
    ensures ValueAbove(t, p)
    decreases q
  {
    if t.value.None? {
      ValueAboveLower(t.kids[q[0]], q[1..], p[1..]);
    }
  }

  /* ---------- lists of writes ---------- */

  ghost predicate AllBeside(writes: seq<(Path, Node)>, p: Path) {
    forall i :: 0 <= i < |writes| ==> Incomparable(p, writes[i].0)
  }

  ghost predicate NoneAbove(writes: seq<(Path, Node)>, p: Path) {
    forall i :: 0 <= i < |writes| ==> !StrictlyAbove(writes[i].0, p)
  }

  ghost predicate AllWithin(writes: seq<(Path, Node)>, p: Path) {
    forall i :: 0 <= i < |writes| ==> Contains(p, writes[i].0)
  }

  /** Nothing is written at, below or above `p`. */
  ghost predicate Vacant(t: WriteTree, p: Path) {
    t.Subtree(p).IsEmpty() && !ValueAbove(t, p)
  }

  lemma {:induction false} VacantBeside(t: WriteTree, p: Path, q: Path, x: Node)
    requires Vacant(t, p) && Incomparable(p, q)
    ensures Vacant(Put(t, x, q), p)
    decreases p
  {
    ValueAboveAfterPut(t, p, q, x);
    if p[0] == q[0] {
      assert p == [p[0]] + p[1..] && q == [q[0]] + q[1..];
      ContainsThroughKey(p[0], q[1..], p[1..]);
      ContainsThroughKey(p[0], p[1..], q[1..]);
      VacantBeside(t.ChildOrEmpty(p[0]), p[1..], q[1..], x);
    }
  }

  lemma {:induction false} VacantBesideAll(t: WriteTree, p: Path, writes: seq<(Path, Node)>)
    requires Wf(t) && ValidWrites(writes) && Vacant(t, p) && AllBeside(writes, p)
    ensures Vacant(PutAll(t, writes), p)
    decreases writes
  {
    if writes != [] {
      var (q, x) := writes[0];
      AddWriteIsPut(t, x, q);
      PutKeepsWf(t, x, q);
      VacantBeside(t, p, q, x);
      VacantBesideAll(Put(t, x, q), p, writes[1..]);
    }
  }

  lemma {:induction false} EraseBesideAll(t: WriteTree, p: Path, writes: seq<(Path, Node)>)
    requires Wf(t) && ValidWrites(writes) && AllBeside(writes, p)
    ensures Erase(PutAll(t, writes), p) == PutAll(Erase(t, p), writes)
    decreases writes
  {
    if writes != [] {
      var (q, x) := writes[0];
      AddWriteIsPut(t, x, q);
      PutKeepsWf(t, x, q);
      EraseBesidePut(t, p, q, x);
      RemoveKeepsWf(t, p);
      AddWriteIsPut(Erase(t, p), x, q);
      EraseBesideAll(Put(t, x, q), p, writes[1..]);
    }
  }

  lemma {:induction false} EraseAllBeside(t: WriteTree, removed: seq<(Path, Node)>, writes: seq<(Path, Node)>)
    requires Wf(t) && ValidWrites(writes)
    requires forall i :: 0 <= i < |removed| ==> AllBeside(writes, removed[i].0)
    ensures EraseAll(PutAll(t, writes), removed) == PutAll(EraseAll(t, removed), writes)
    decreases removed
  {
    if removed != [] {
      var p := removed[0].0;
      EraseBesideAll(t, p, writes);
      RemoveKeepsWf(t, p);
      EraseAllBeside(Erase(t, p), removed[1..], writes);
    }
  }

  /** Erasing writes that lie apart, onto vacant places, undoes them. */
  lemma {:induction false} EraseUndoes(t: WriteTree, writes: seq<(Path, Node)>)
    requires Wf(t) && ValidWrites(writes) && Apart(writes)
    requires forall i :: 0 <= i < |writes| ==> Vacant(t, writes[i].0)
    ensures EraseAll(PutAll(t, writes), writes) == t
    decreases writes
  {
    if writes != [] {
      var (p, x) := writes[0];
      AddWriteIsPut(t, x, p);
      PutKeepsWf(t, x, p);
      EraseBesideAll(Put(t, x, p), p, writes[1..]);
      EraseAfterPut(t, p, p, x);
      EraseNothing(t, p);
      EraseUndoes(t, writes[1..]);
    }
  }

  /** The plain removal: all other writes lie beside the removed ones. */
  lemma SeparateRemoval(before: seq<(Path, Node)>, removed: seq<(Path, Node)>, after: seq<(Path, Node)>)
    requires ValidWrites(before) && ValidWrites(removed) && ValidWrites(after) && Apart(removed)
    requires forall i :: 0 <= i < |removed| ==> AllBeside(before, removed[i].0) && AllBeside(after, removed[i].0)
    ensures EraseAll(PutAll(EmptyTree(), before + removed + after), removed) == PutAll(EmptyTree(), before + after)
  {
    var t := PutAll(EmptyTree(), before);
    PutAllKeepsWf(EmptyTree(), before);
    PutAllKeepsWf(t, removed);
    PutAllInSteps(EmptyTree(), before + removed, after);
    PutAllInSteps(EmptyTree(), before, removed);
    PutAllInSteps(EmptyTree(), before, after);
    forall i | 0 <= i < |removed| ensures Vacant(t, removed[i].0) {
      VacantInEmpty(removed[i].0);
      VacantBesideAll(EmptyTree(), removed[i].0, before);
    }
    EraseAllBeside(PutAll(t, removed), removed, after);
    EraseUndoes(t, removed);
  }

  lemma VacantInEmpty(p: Path)
    ensures Vacant(EmptyTree(), p)
  {
  }

  /** Two overlays that differ at most at and below `root`. */
  ghost predicate SameOutside(a: WriteTree, b: WriteTree, root: Path) {
    Wf(a) && Wf(b) && !ValueAbove(a, root) && !ValueAbove(b, root) && Erase(a, root) == Erase(b, root)
  }

  lemma {:induction false} WithinIsOutside(t: WriteTree, root: Path, writes: seq<(Path, Node)>)
    requires Wf(t) && ValidWrites(writes) && AllWithin(writes, root) && !ValueAbove(t, root)
    ensures SameOutside(PutAll(t, writes), t, root)
    decreases writes
  {
    if writes != [] {
      var (q, x) := writes[0];
      AddWriteIsPut(t, x, q);
      PutKeepsWf(t, x, q);
      assert !StrictlyAbove(q, root);
      ValueAboveAfterPut(t, root, q, x);
      EraseAfterPut(t, root, q, x);
      WithinIsOutside(Put(t, x, q), root, writes[1..]);
    }
  }

  /** A later write covering `root` makes such overlays equal. */
  lemma {:induction false} CoverMakesEqual(a: WriteTree, b: WriteTree, root: Path, writes: seq<(Path, Node)>, c: nat)
    requires SameOutside(a, b, root) && ValidWrites(writes) && c < |writes| && Contains(writes[c].0, root)
    ensures PutAll(a, writes) == PutAll(b, writes)
    decreases writes
  {
    var (q, x) := writes[0];
    AddWriteIsPut(a, x, q);
    AddWriteIsPut(b, x, q);
    PutKeepsWf(a, x, q);
    PutKeepsWf(b, x, q);
    if Contains(q, root) {
      if ValueAbove(a, q) {
        ValueAboveLower(a, q, root);
      }
      if ValueAbove(b, q) {
        ValueAboveLower(b, q, root);
      }
      PutForgets(a, q, x);
      PutForgets(b, q, x);
      EraseTwice(a, q, root);
      EraseTwice(b, q, root);
    } else {
      ValueAboveAfterPut(a, root, q, x);
      ValueAboveAfterPut(b, root, q, x);
      if Contains(root, q) {
        EraseAfterPut(a, root, q, x);
        EraseAfterPut(b, root, q, x);
      } else {
        EraseBesidePut(a, root, q, x);
        EraseBesidePut(b, root, q, x);
      }
      CoverMakesEqual(Put(a, x, q), Put(b, x, q), root, writes[1..], c - 1);
    }
  }

  /** The shadowed removal: a later write covers the removed ones, and no earlier one lies above them. */
  lemma ShadowedRemoval(before: seq<(Path, Node)>, removed: seq<(Path, Node)>, after: seq<(Path, Node)>, root: Path, c: nat)
    requires ValidWrites(before) && ValidWrites(removed) && ValidWrites(after)
    requires NoneAbove(before, root) && AllWithin(removed, root)
    requires c < |after| && Contains(after[c].0, root)
    ensures PutAll(EmptyTree(), before + removed + after) == PutAll(EmptyTree(), before + after)
  {
    var t := PutAll(EmptyTree(), before);
    PutAllKeepsWf(EmptyTree(), before);
    NoneAboveNoValue(EmptyTree(), root, before);
    WithinIsOutside(t, root, removed);
    CoverMakesEqual(PutAll(t, removed), t, root, after, c);
    PutAllInSteps(EmptyTree(), before + removed, after);
    PutAllInSteps(EmptyTree(), before, removed);
    PutAllInSteps(EmptyTree(), before, after);
  }

  lemma {:induction false} NoneAboveNoValue(t: WriteTree, root: Path, writes: seq<(Path, Node)>)
    requires Wf(t) && ValidWrites(writes) && NoneAbove(writes, root) && !ValueAbove(t, root)
    ensures !ValueAbove(PutAll(t, writes), root)
    decreases writes
  {
    if writes != [] {
      var (q, x) := writes[0];
      AddWriteIsPut(t, x, q);
      PutKeepsWf(t, x, q);
      ValueAboveAfterPut(t, root, q, x);
      NoneAboveNoValue(Put(t, x, q), root, writes[1..]);
    }
  }

  /* ---------- one overwrite among overwrites ---------- */

  lemma {:induction false} ValueAboveStays(t: WriteTree, p: Path, writes: seq<(Path, Node)>)
    requires Wf(t) && ValidWrites(writes) && ValueAbove(t, p)
    ensures ValueAbove(PutAll(t, writes), p)
    decreases writes
  {
    if writes != [] {
      AddWriteIsPut(t, writes[0].1, writes[0].0);
      PutKeepsWf(t, writes[0].1, writes[0].0);
      ValueAboveAfterPut(t, p, writes[0].0, writes[0].1);
      ValueAboveStays(Put(t, writes[0].1, writes[0].0), p, writes[1..]);
    }
  }

  lemma {:induction false} SomeAboveIsValue(t: WriteTree, p: Path, writes: seq<(Path, Node)>, i: nat)
    requires Wf(t) && ValidWrites(writes) && i < |writes| && StrictlyAbove(writes[i].0, p)
    ensures ValueAbove(PutAll(t, writes), p)
    decreases writes
  {
    var (q, x) := writes[0];
    AddWriteIsPut(t, x, q);
    PutKeepsWf(t, x, q);
    if i == 0 {
      ValueAboveAfterOwnPut(t, p, q, x);
      ValueAboveStays(Put(t, x, q), p, writes[1..]);
    } else {
      SomeAboveIsValue(Put(t, x, q), p, writes[1..], i - 1);
    }
  }

  lemma {:induction false} ValueAboveIsComplete(t: WriteTree, p: Path)
    requires Wf(t)
    ensures ValueAbove(t, p) ==> Complete(t, p).Some?
    ensures !ValueAbove(t, p) && t.Subtree(p).IsEmpty() ==> Complete(t, p).None?
    decreases p
  {
    if p != [] && t.value.None? && p[0] in t.kids {
      ValueAboveIsComplete(t.kids[p[0]], p[1..]);
    }
  }

  /**
   The plain removal of one overwrite, when no other write lies at or below it and no later one above
   it: it gives the re-layered overlay exactly when the write landed in no earlier value, or put there
   what the value already had.
   */
  lemma OverwriteRemovalExact(before: seq<(Path, Node)>, p: Path, x: Node, after: seq<(Path, Node)>)
    requires ValidWrites(before) && ValidWrites(after) && PlainPath(p) && Canonical(x)
    requires forall i :: 0 <= i < |before| ==> !Contains(p, before[i].0)
    requires AllBeside(after, p)
    ensures Erase(PutAll(EmptyTree(), before + [(p, x)] + after), p) == PutAll(EmptyTree(), before + after)
            <==> Complete(PutAll(EmptyTree(), before), p).None? || Complete(PutAll(EmptyTree(), before), p) == Some(x)
  {
    var t := PutAll(EmptyTree(), before);
    PutAllKeepsWf(EmptyTree(), before);
    AddWriteIsPut(t, x, p);
    PutKeepsWf(t, x, p);
    PutAllInSteps(EmptyTree(), before + [(p, x)], after);
    PutAllInSteps(EmptyTree(), before, [(p, x)]);
    PutAllInSteps(EmptyTree(), before, after);
    assert PutAll(t, [(p, x)]) == PutAll(Put(t, x, p), []);
    var cached, rebuilt := PutAll(Put(t, x, p), after), PutAll(t, after);
    if AllBeside(before, p) {
      assert Apart([(p, x)]);
      SeparateRemoval(before, [(p, x)], after);
      assert EraseAll(cached, [(p, x)]) == Erase(cached, p);
      VacantInEmpty(p);
      VacantBesideAll(EmptyTree(), p, before);
      ValueAboveIsComplete(t, p);
    } else {
      var i :| 0 <= i < |before| && !Incomparable(p, before[i].0);
      SomeAboveIsValue(EmptyTree(), p, before, i);
      ValueAboveAfterPut(t, p, p, x);
      ValueAboveStays(Put(t, x, p), p, after);
      PutAllKeepsWf(Put(t, x, p), after);
      PutAllKeepsWf(t, after);
      EraseInValue(cached, p);
      ValueAboveIsComplete(t, p);
      OverwriteInValue(t, p, x, after);
    }
  }

  /** A write into an earlier value shows, unless it put there what the value already had. */
  lemma OverwriteInValue(t: WriteTree, p: Path, x: Node, after: seq<(Path, Node)>)
    requires Wf(t) && ValidWrites(after) && PlainPath(p) && Canonical(x) && AllBeside(after, p)
    requires ValueAbove(t, p) && Complete(t, p).Some?
    ensures PutAll(Put(t, x, p), after) == PutAll(t, after) <==> Complete(t, p) == Some(x)
  {
    PutKeepsWf(t, x, p);
    if Complete(t, p) == Some(x) {
      PutOwnChild(t, p, x);
    } else {
      PutAllBeside(Put(t, x, p), p, after);
      PutAllBeside(t, p, after);
      ChildOfPutAbove(t, x, p, []);
      assert p + [] == p && x.GetChild([]) == x;
      ChildAtByCases(t, p);
    }
  }
}
