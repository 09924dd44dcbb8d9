/**
 Event caches at a priority: the view processor recalculates the priority of its root after every change
 of the server's priority. The answer is right exactly under a condition on the writes and the data below.
 */
module PriorityCaches {
  import opened Options
  import opened Keys
  import opened Paths
  import opened Nodes
  import opened Enumerations
  import opened ImmutableTrees
  import opened CompoundWrites
  import opened Overlays
  import opened Layering
  import opened WriteLogs
  import opened EventCaches
  import opened VisitOrders
  import opened Survivals
  import opened Priorities

  /** The overlay of the visible writes below `q`. */
  ghost function OverlayBelow(s: LogState, q: Path): WriteTree {
    ChildAt(s.visibleWrites.writeTree, q)
  }

  /** The priority that is shown at `q` over a server tree. */
  ghost function ShownPriority(s: LogState, q: Path, server: Node): Node {
    EventTree(s.allWrites, IsVisible, server).GetChild(q + [PRIORITY])
  }

  lemma PriorityAnswer(s: LogState, treePath: Path, childPath: Path, server: Node)
    requires CacheAgrees(s) && ValidLog(s.allWrites) && PlainPath(treePath + childPath) && Canonical(server)
    ensures var q, w := treePath + childPath, s.visibleWrites.writeTree;
            AfterServerOverwrite(s, treePath, childPath + [PRIORITY], server.GetChild(treePath))
            == if Complete(w, q + [PRIORITY]).Some? then None
               else Some(ApplyToNode(ChildAt(w, q + [PRIORITY]), server.GetChild(q + [PRIORITY])))
  {
    var q, w := treePath + childPath, s.visibleWrites.writeTree;
    var path := q + [PRIORITY];
    assert treePath + (childPath + [PRIORITY]) == path;
    CacheIsWf(s);
    ChildWriteIsRecursive(w, path);
    CompleteIsRecursive(w, path);
    PartsArePlain(treePath, childPath);
    GetInSteps(server, treePath, childPath + [PRIORITY]);
    NothingApplied(ChildAt(w, path), server.GetChild(path));
  }

  /**
   An answer is the priority of the event tree exactly when the server has none there, or some leaf of the
   server's data there is not deleted before data is put.
   */
  lemma PriorityAnswerExact(s: LogState, treePath: Path, childPath: Path, server: Node)
    requires CacheAgrees(s) && ValidLog(s.allWrites) && PlainPath(treePath + childPath) && Canonical(server)
    requires AfterServerOverwrite(s, treePath, childPath + [PRIORITY], server.GetChild(treePath)).Some?
    ensures var q := treePath + childPath;
            var below, base := OverlayBelow(s, q), server.GetChild(q);
            AfterServerOverwrite(s, treePath, childPath + [PRIORITY], server.GetChild(treePath)).value
            == ShownPriority(s, q, server)
            <==> base.GetPriority() == Empty || !Wiped(base, Visits(below))
  {
    var q, w := treePath + childPath, s.visibleWrites.writeTree;
    CacheIsWf(s);
    PriorityAnswer(s, treePath, childPath, server);
    PriorityLocalisation(w, q, server);
    NotWritten(w, q);
  }

  /** Where a priority is not complete, no value lies at or above its node and the priority is not written. */
  lemma NotWritten(w: WriteTree, q: Path)
    requires Wf(w) && PlainPath(q)
    ensures Complete(w, q + [PRIORITY]).None? <==> ChildAt(w, q).value.None? && PRIORITY !in ChildAt(w, q).kids
  {
    ChildInSteps(w, q, [PRIORITY]);
    ChildAtByCases(w, q + [PRIORITY]);
    ChildKeepsWf(w, q);
    var below := ChildAt(w, q);
    assert [PRIORITY][1..] == [];
    if below.value.None? && PRIORITY in below.kids {
      ChildAtRoot(below.kids[PRIORITY]);
    }
  }

  /** The priority shown does not depend on the server's data. */
  ghost predicate IndependentPriority(below: WriteTree) {
    below.value.Some? || WrittenPriority(below) == Empty || Fills(below)
  }

  /**
   No answer is meant to say that the priority shown does not change. So it is, for all server trees, exactly
   when a value shadows the node, the written priority is none, or the overlay puts data there.
   */
  lemma NoPriorityAnswerExact(s: LogState, treePath: Path, childPath: Path)
    requires CacheAgrees(s) && ValidLog(s.allWrites) && PlainPath(treePath + childPath)
    requires AfterServerOverwrite(s, treePath, childPath + [PRIORITY], Empty.GetChild(treePath)) == None
    ensures var q := treePath + childPath;
            (forall a, b | Canonical(a) && Canonical(b) :: ShownPriority(s, q, a) == ShownPriority(s, q, b))
            <==> IndependentPriority(OverlayBelow(s, q))
  {
    var q, w := treePath + childPath, s.visibleWrites.writeTree;
    CacheIsWf(s);
    PriorityAnswer(s, treePath, childPath, Empty);
    NotWritten(w, q);
    forall a | Canonical(a) ensures ShownPriority(s, q, a) == ShownOver(OverlayBelow(s, q), a.GetChild(q)) {
      ShownByOverlay(w, q, a);
    }
    ChildKeepsWf(w, q);
    if IndependentPriority(OverlayBelow(s, q)) {
      forall a, b | Canonical(a) && Canonical(b) ensures ShownPriority(s, q, a) == ShownPriority(s, q, b) {
        ShownAlike(OverlayBelow(s, q), a.GetChild(q), b.GetChild(q), a, b, q);
      }
    } else {
      var server := ShownDifferently(OverlayBelow(s, q), q);
      EmptyStaysEmpty(q);
      assert ShownPriority(s, q, server) != ShownPriority(s, q, Empty);
    }
  }

  /** The priority over the data at a path. */
  ghost function ShownOver(below: WriteTree, base: Node): Node {
    if below.value.Some? then below.value.value.GetPriority()
    else if !LeavesSomething(below, base) then Empty
    else WrittenPriority(below)
  }

  lemma ShownByOverlay(w: WriteTree, q: Path, server: Node)
    requires Wf(w) && PlainPath(q) && Canonical(server)
    requires ChildAt(w, q).value.Some? || PRIORITY in ChildAt(w, q).kids
    ensures ApplyToNode(w, server).GetChild(q + [PRIORITY]) == ShownOver(ChildAt(w, q), server.GetChild(q))
  {
    GetPriorityToken(ApplyToNode(w, server), q);
    Localisation(w, q, server);
    ChildKeepsWf(w, q);
    GetKeepsCanonical(server, q);
    EventNodePriority(ChildAt(w, q), server.GetChild(q));
  }

  lemma ShownAlike(below: WriteTree, x: Node, y: Node, a: Node, b: Node, q: Path)
    requires Wf(below) && Canonical(a) && Canonical(b) && x == a.GetChild(q) && y == b.GetChild(q)
    requires IndependentPriority(below)
    ensures ShownOver(below, x) == ShownOver(below, y)
  {
    GetKeepsCanonical(a, q);
    GetKeepsCanonical(b, q);
    FillsExactly(below, x);
    FillsExactly(below, y);
  }

  /** Nothing of nothing is shown; over a child that the overlay does not mention, the written priority is. */
  lemma ShownDifferently(below: WriteTree, q: Path) returns (server: Node)
    requires Wf(below) && PlainPath(q) && !IndependentPriority(below)
    ensures Canonical(server) && ShownOver(below, server.GetChild(q)) != ShownOver(below, Empty)
  {
    var k;
    k, server := UnmentionedChild(below, q);
    FillsExactly(below, Empty);
    EmptyStaysEmpty([k]);
    LeftExactly(below, Empty);
    GetKeepsCanonical(server, q);
    LeftExactly(below, server.GetChild(q));
  }

  /**
   The case that fails: only the root's priority is written. There is no answer, and yet the priority shown
   is none over an empty server tree and the written one over a leaf.
   */
  lemma PendingPriorityShowsLate(id: int, p: LeafValue, v: LeafValue)
    ensures var log := [WriteRecord(Overwrite(Leaf(p, Empty)), id, [PRIORITY], true)];
            var s := LogState(CompoundWrite(VisibleLayer(log)), log, id);
            && CacheAgrees(s) && ValidLog(log)
            && AfterServerOverwrite(s, [], [PRIORITY], Empty) == None
            && ShownPriority(s, [], Empty) == Empty && ShownPriority(s, [], Leaf(v, Empty)) == Leaf(p, Empty)
  {
    var x := Leaf(p, Empty);
    var r := WriteRecord(Overwrite(x), id, [PRIORITY], true);
    var log := [r];
    var s := LogState(CompoundWrite(VisibleLayer(log)), log, id);
    var t := Put(EmptyTree(), x, [PRIORITY]);
    assert [] + [r] == log && RelativePath([], [PRIORITY]) == [PRIORITY] && [] + [PRIORITY] == [PRIORITY];
    LayerLastKept([], IsVisible, r, []);
    EmptyIsWf();
    AddWriteIsPut(EmptyTree(), x, [PRIORITY]);
    PutKeepsWf(EmptyTree(), x, [PRIORITY]);
    assert VisibleLayer(log) == t;
    PriorityOfPut(EmptyTree(), x, []);
    EmptyChildren([]);
    ChildAtByCases(t, [PRIORITY]);
    PriorityAnswer(s, [], [], Empty);
    var root: Path := [];
    assert root + root == root && Empty.GetChild(root) == Empty;
    PriorityOfNothingIsHidden(p);
    ChildAtRoot(t);
    assert [PRIORITY][1..] == [];
    assert PRIORITY in t.kids;
    ShownByOverlay(t, [], Leaf(v, Empty));
    LeafStays(t, Leaf(v, Empty));
    LeftExactly(t, Leaf(v, Empty));
  }

  /** Priority writes alone do not remove a leaf. */
  lemma LeafStays(t: WriteTree, n: Node)
    requires Wf(t) && t.value.None? && t.kids.Keys == {PRIORITY} && Canonical(n) && n != Empty
    ensures ApplyToNode(t, n) != Empty
  {
    OnlyPriorities(t, Sorted(ByString, t.kids.Keys), n);
    assert PRIORITY in t.kids.Keys;
    WrittenAtRoot(t, n);
  }

  lemma {:induction false} OnlyPriorities(t: WriteTree, keys: seq<Key>, n: Node)
    requires forall k :: k in keys ==> k == PRIORITY && k in t.kids
    ensures ApplyKids(t, keys, [], n) == n
  {
    if keys != [] {
      assert forall k :: k in keys[1..] ==> k in keys;
      assert keys[0] in keys;
      OnlyPriorities(t, keys[1..], n);
    }
  }
}
