/**
 What is left of the data under an overlay, and whether nothing was left in between. The writes of an overlay
 lie apart, so data that was put stays; both are therefore told by which leaves the deletions reach.
 */
module Survivals {
  import opened Options
  import opened Keys
  import opened Paths
  import opened Nodes
  import opened LeafViews
  import opened DataViews
  import opened Enumerations
  import opened ImmutableTrees
  import opened CompoundWrites
  import opened Overlays
  import opened VisitOrders

  /* ---------- overlays that put data ---------- */

  /** Some write that is not to a priority puts data. */
  ghost predicate Fills(t: WriteTree) {
    if t.value.Some? then t.value.value != Empty
    else exists k :: k in t.kids && k != PRIORITY && Fills(t.kids[k])
  }

  lemma {:induction false} FilledPath(t: WriteTree) returns (e: Path)
    requires Wf(t) && Fills(t)
    ensures PlainPath(e) && Complete(t, e).Some? && Complete(t, e).value != Empty
    decreases t
  {
    if t.value.Some? {
      e := [];
    } else {
      var k :| k in t.kids && k != PRIORITY && Fills(t.kids[k]);
      var rest := FilledPath(t.kids[k]);
      e := [k] + rest;
      assert e[1..] == rest;
    }
  }

  lemma {:induction false} ApplyToNothing(t: WriteTree, path: Path)
    requires Wf(t) && !Fills(t) && PlainPath(path)
    ensures ApplyAt(t, path, Empty) == Empty
    decreases t, 1
  {
    EmptyStaysEmpty(path);
    if t.value.None? {
      ApplyKidsToNothing(t, Sorted(ByString, t.kids.Keys), path);
    }
  }

  lemma {:induction false} ApplyKidsToNothing(t: WriteTree, keys: seq<Key>, path: Path)
    requires Wf(t) && t.value.None? && !Fills(t) && PlainPath(path) && forall k :: k in keys ==> k in t.kids
    ensures ApplyKids(t, keys, path, Empty) == Empty
    decreases t, 0, |keys|
  {
    if keys != [] {
      if keys[0] != PRIORITY {
        ApplyToNothing(t.kids[keys[0]], path + [keys[0]]);
      }
      ApplyKidsToNothing(t, keys[1..], path);
    }
  }

  lemma NoFillNoData(t: WriteTree)
    requires Wf(t) && !Fills(t)
    ensures ApplyToNode(t, Empty) == Empty
  {
    ApplyToNothing(t, []);
  }

  /** An overlay leaves something of nothing exactly when it puts data; then it leaves something of everything. */
  lemma FillsExactly(t: WriteTree, base: Node)
    requires Wf(t) && Canonical(base)
    ensures ApplyToNode(t, Empty) != Empty <==> Fills(t)
    ensures Fills(t) ==> ApplyToNode(t, base) != Empty
  {
    if Fills(t) {
      var e := FilledPath(t);
      ShadowedMeansIndependent(t, e, base);
      ShadowedMeansIndependent(t, e, Empty);
      EmptyStaysEmpty(e);
    } else {
      NoFillNoData(t);
    }
  }

  /* ---------- leaves under deletions ---------- */

  predicate PutsData(w: (Path, Node)) {
    PlainPath(w.0) && w.1 != Empty
  }

  ghost predicate PutNoData(writes: seq<(Path, Node)>) {
    forall i :: 0 <= i < |writes| ==> !PutsData(writes[i])
  }

  /** The write is at or above the path, and not to a priority. */
  predicate Reaches(w: (Path, Node), q: Path) {
    PlainPath(w.0) && Contains(w.0, q)
  }

  ghost predicate Reached(writes: seq<(Path, Node)>, q: Path) {
    exists j :: 0 <= j < |writes| && Reaches(writes[j], q)
  }

  lemma {:induction false} DataOfPriorityWrite(n: Node, t: Path, x: Node)
    requires Canonical(n) && Canonical(x) && PlainPath(t)
    ensures Data(n.UpdateChild(t + [PRIORITY], x)) == Data(n)
    decreases t
  {
    if t == [] {
      assert [] + [PRIORITY] == [PRIORITY];
      PutPriority(n, x);
      DataOfPriority(n, x);
    } else {
      assert (t + [PRIORITY])[0] == t[0] && (t + [PRIORITY])[1..] == t[1..] + [PRIORITY];
      var base := if n.Leaf? then Empty else n.GetImmediateChild(t[0]);
      DataOfPriorityWrite(base, t[1..], x);
      UpdateKeepsCanonical(base, t[1..] + [PRIORITY], x);
      DataOfUpdateImmediate(n, t[0], base.UpdateChild(t[1..] + [PRIORITY], x));
      DataOfUpdateImmediate(n, t[0], base);
      OwnChildStays(n, t[0]);
    }
  }

  lemma LeafAfterVisit(n: Node, w: (Path, Node), q: Path)
    requires Canonical(n) && IsVisit(w) && !PutsData(w)
    ensures Canonical(n.UpdateChild(w.0, w.1))
    ensures LeafAt(n.UpdateChild(w.0, w.1), q) == if Reaches(w, q) then None else LeafAt(n, q)
  {
    var r := n.UpdateChild(w.0, w.1);
    UpdateKeepsCanonical(n, w.0, w.1);
    LeafAtData(n, q);
    LeafAtData(r, q);
    if PlainPath(w.0) {
      DataIsPlain(n);
      DataOfUpdate(n, w.0, w.1);
      LeafAtUpdate(Data(n), w.0, Empty, q);
    } else {
      assert w.0 == w.0[..|w.0| - 1] + [PRIORITY];
      DataOfPriorityWrite(n, w.0[..|w.0| - 1], w.1);
    }
  }

  /** Without data, exactly the leaves that no deletion reaches are left. */
  lemma {:induction false} LeafAfterDeletions(base: Node, writes: seq<(Path, Node)>, q: Path)
    requires Canonical(base) && AreVisits(writes) && PutNoData(writes)
    ensures Canonical(Replay(base, writes))
    ensures LeafAt(Replay(base, writes), q) == if Reached(writes, q) then None else LeafAt(base, q)
    decreases |writes|
  {
    if writes != [] {
      var n := |writes| - 1;
      LeafAfterDeletions(base, writes[..n], q);
      LeafAfterVisit(Replay(base, writes[..n]), writes[n], q);
      ReachedInSteps(writes, q);
    }
  }

  lemma ReachedInSteps(writes: seq<(Path, Node)>, q: Path)
    requires writes != []
    ensures Reached(writes, q) <==> Reached(writes[..|writes| - 1], q) || Reaches(writes[|writes| - 1], q)
  {
    var front := writes[..|writes| - 1];
    if Reached(front, q) {
      var j :| 0 <= j < |front| && Reaches(front[j], q);
      assert Reaches(writes[j], q);
    }
    if Reached(writes, q) {
      var j :| 0 <= j < |writes| && Reaches(writes[j], q);
      assert j < |front| ==> Reaches(front[j], q);
    }
  }

  /** Data that was put stays. */
  lemma {:induction false} DataStays(base: Node, writes: seq<(Path, Node)>, j: nat)
    requires Canonical(base) && AreVisits(writes) && Apart(writes) && j < |writes| && PutsData(writes[j])
    ensures Canonical(Replay(base, writes)) && Replay(base, writes).GetChild(writes[j].0) == writes[j].1
    ensures Replay(base, writes) != Empty
    decreases |writes|
  {
    var n := |writes| - 1;
    var before := Replay(base, writes[..n]);
    ReplayIsCanonical(base, writes[..n]);
    UpdateKeepsCanonical(before, writes[n].0, writes[n].1);
    if j == n {
      assert writes[j].0 + [] == writes[j].0;
      GetBelowUpdate(before, writes[j].0, [], writes[j].1);
    } else {
      DataStays(base, writes[..n], j);
      GetBesideUpdate(before, writes[j].0, writes[n].0, writes[n].1);
    }
    EmptyStaysEmpty(writes[j].0);
  }

  lemma {:induction false} ReplayIsCanonical(base: Node, writes: seq<(Path, Node)>)
    requires Canonical(base) && AreVisits(writes)
    ensures Canonical(Replay(base, writes))
    decreases |writes|
  {
    if writes != [] {
      var n := |writes| - 1;
      ReplayIsCanonical(base, writes[..n]);
      UpdateKeepsCanonical(Replay(base, writes[..n]), writes[n].0, writes[n].1);
    }
  }

  /* ---------- what is left in the end ---------- */

  /** Something is put, or some leaf lies at no written path and below none. */
  ghost predicate LeavesSomething(t: WriteTree, base: Node) {
    Fills(t) || exists q :: IsLeafPath(base, q) && !Reached(Visits(t), q)
  }

  lemma AppliedAtRoot(t: WriteTree, base: Node)
    requires Wf(t) && Canonical(base)
    ensures ApplyToNode(t, base) == Replay(base, Visits(t))
  {
    ApplyIsReplay(t, [], base);
    UnderRoot(Visits(t));
  }

  lemma FillsByVisits(t: WriteTree)
    requires Wf(t)
    ensures Fills(t) <==> !PutNoData(Visits(t))
  {
    VisitsAreVisits(t);
    FillsExactly(t, Empty);
    AppliedAtRoot(t, Empty);
    if PutNoData(Visits(t)) {
      NoLeafNoTree(Empty, Visits(t));
    } else {
      var j :| 0 <= j < |Visits(t)| && PutsData(Visits(t)[j]);
      DataStays(Empty, Visits(t), j);
    }
  }

  lemma NoLeafNoTree(base: Node, writes: seq<(Path, Node)>)
    requires Canonical(base) && AreVisits(writes) && PutNoData(writes)
    ensures Replay(base, writes) == Empty <==> forall q :: IsLeafPath(base, q) ==> Reached(writes, q)
  {
    var r := Replay(base, writes);
    ReplayIsCanonical(base, writes);
    DataIsPlain(r);
    forall q: Path ensures LeafAt(Data(r), q) == if Reached(writes, q) then None else LeafAt(base, q) {
      LeafAfterDeletions(base, writes, q);
      LeafAtData(r, q);
    }
    if forall q :: IsLeafPath(base, q) ==> Reached(writes, q) {
      LeaflessIsEmpty(Data(r));
    }
  }

  /** What an overlay leaves is nothing exactly when it puts nothing and reaches every leaf. */
  lemma LeftExactly(t: WriteTree, base: Node)
    requires Wf(t) && Canonical(base)
    ensures ApplyToNode(t, base) != Empty <==> LeavesSomething(t, base)
  {
    VisitsAreVisits(t);
    FillsExactly(t, base);
    FillsByVisits(t);
    AppliedAtRoot(t, base);
    if !Fills(t) {
      NoLeafNoTree(base, Visits(t));
    }
  }

  /* ---------- what was left in between ---------- */

  /** Some beginning of the writes leaves nothing. */
  ghost predicate EmptiedOnTheWay(node: Node, writes: seq<(Path, Node)>) {
    exists i :: 0 <= i <= |writes| && IsEmptyAfter(node, writes, i)
  }

  ghost predicate IsEmptyAfter(node: Node, writes: seq<(Path, Node)>, i: nat)
    requires i <= |writes|
  {
    Replay(node, writes[..i]) == Empty
  }

  lemma EmptiedInSteps(node: Node, writes: seq<(Path, Node)>)
    requires writes != []
    ensures EmptiedOnTheWay(node, writes)
            <==> EmptiedOnTheWay(node, writes[..|writes| - 1]) || Replay(node, writes) == Empty
  {
    var front := writes[..|writes| - 1];
    forall i | 0 <= i <= |front| ensures IsEmptyAfter(node, front, i) <==> IsEmptyAfter(node, writes, i) {
      assert front[..i] == writes[..i];
    }
    WholeReplay(node, writes);
  }

  lemma WholeReplay(node: Node, writes: seq<(Path, Node)>)
    ensures IsEmptyAfter(node, writes, |writes|) <==> Replay(node, writes) == Empty
  {
    assert writes[..|writes|] == writes;
  }


  /** The leaf is deleted before any data is put. */
  ghost predicate DeletedFirst(writes: seq<(Path, Node)>, q: Path) {
    exists j :: 0 <= j < |writes| && Reaches(writes[j], q) && PutNoData(writes[..j + 1])
  }

  /** Every leaf is. */
  ghost predicate Wiped(base: Node, writes: seq<(Path, Node)>) {
    forall q :: IsLeafPath(base, q) ==> DeletedFirst(writes, q)
  }

  lemma {:induction false} LeadingDeletions(writes: seq<(Path, Node)>) returns (n: nat)
    ensures n <= |writes| && PutNoData(writes[..n]) && (n < |writes| ==> PutsData(writes[n]))
    decreases |writes|
  {
    n := 0;
    while n < |writes| && !PutsData(writes[n])
      invariant n <= |writes| && PutNoData(writes[..n])
    {
      n := n + 1;
    }
  }

  lemma EmptiedIsWiped(base: Node, writes: seq<(Path, Node)>, i: nat)
    requires Canonical(base) && AreVisits(writes) && Apart(writes) && i <= |writes| && IsEmptyAfter(base, writes, i)
    ensures Wiped(base, writes)
  {
    var front := writes[..i];
    if !PutNoData(front) {
      var j :| 0 <= j < |front| && PutsData(front[j]);
      DataStays(base, front, j);
    }
    NoLeafNoTree(base, front);
    forall q | IsLeafPath(base, q) ensures DeletedFirst(writes, q) {
      var j :| 0 <= j < |front| && Reaches(front[j], q);
      assert writes[..j + 1] == front[..j + 1];
      assert Reaches(writes[j], q) && PutNoData(writes[..j + 1]);
    }
  }

  lemma WipedIsEmptied(base: Node, writes: seq<(Path, Node)>)
    requires Canonical(base) && AreVisits(writes) && Wiped(base, writes)
    ensures EmptiedOnTheWay(base, writes)
  {
    var n := LeadingDeletions(writes);
    forall q | IsLeafPath(base, q) ensures Reached(writes[..n], q) {
      assert DeletedFirst(writes, q);
      var j :| 0 <= j < |writes| && Reaches(writes[j], q) && PutNoData(writes[..j + 1]);
      forall k | 0 <= k <= j ensures !PutsData(writes[k]) {
        assert !PutsData(writes[..j + 1][k]);
      }
      assert Reaches(writes[..n][j], q);
    }
    NoLeafNoTree(base, writes[..n]);
    assert IsEmptyAfter(base, writes, n);
  }

  /** Nothing is left on the way exactly when every leaf is deleted before any data is put. */
  lemma EmptiedExactly(base: Node, t: WriteTree)
    requires Canonical(base) && Wf(t)
    ensures EmptiedOnTheWay(base, Visits(t)) <==> Wiped(base, Visits(t))
  {
    VisitsAreVisits(t);
    if EmptiedOnTheWay(base, Visits(t)) {
      var i :| 0 <= i <= |Visits(t)| && IsEmptyAfter(base, Visits(t), i);
      EmptiedIsWiped(base, Visits(t), i);
    } else if Wiped(base, Visits(t)) {
      WipedIsEmptied(base, Visits(t));
    }
  }
}
