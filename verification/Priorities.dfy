/**
 Priorities in overlays. Applying an overlay is putting its writes one by one, the priority of a node after
 everything below it. A priority is therefore lost as soon as its node is left with nothing, even if data
 follows; this decides when the event tree has the priority that the overlay at the priority's own path gives.
 */
module Priorities {
  import opened Options
  import opened Keys
  import opened Paths
  import opened Nodes
  import opened Enumerations
  import opened ImmutableTrees
  import opened CompoundWrites
  import opened Overlays
  import opened VisitOrders
  import opened Survivals

  /* ---------- when a priority survives ---------- */

  /** Writes below a node keep its priority exactly until they leave nothing of it. */
  lemma {:induction false} PriorityOverReplay(node: Node, writes: seq<(Path, Node)>)
    requires Canonical(node) && BelowRoot(writes)
    ensures Canonical(Replay(node, writes))
    ensures Replay(node, writes).GetPriority() == if EmptiedOnTheWay(node, writes) then Empty else node.GetPriority()
    decreases |writes|
  {
    if writes == [] {
      WholeReplay(node, writes);
    } else {
      var n := |writes| - 1;
      PriorityOverReplay(node, writes[..n]);
      UpdateKeepsCanonical(Replay(node, writes[..n]), writes[n].0, writes[n].1);
      PriorityOverUpdate(Replay(node, writes[..n]), writes[n].0, writes[n].1);
      EmptiedInSteps(node, writes);
    }
  }

  /** The event node at a path: its priority, from the overlay and the data below that path. */
  lemma EventNodePriority(below: WriteTree, base: Node)
    requires Wf(below) && Canonical(base)
    ensures ApplyToNode(below, base).GetPriority()
            == if below.value.Some? then below.value.value.GetPriority()
               else if !LeavesSomething(below, base) then Empty
               else if PRIORITY in below.kids then below.kids[PRIORITY].value.value
               else if Wiped(base, Visits(below)) then Empty
               else base.GetPriority()
  {
    LeftExactly(below, base);
    EmptiedExactly(base, below);
    if below.value.Some? {
      assert base.UpdateChild([], below.value.value) == below.value.value;
    } else if PRIORITY in below.kids {
      var keys := Sorted(ByString, below.kids.Keys);
      ApplyKidsKeepsCanonical(below, keys, [], base);
      WrittenAtRoot(below, ApplyKids(below, keys, [], base));
    } else {
      UnwrittenPriority(below, base);
    }
  }

  lemma UnwrittenPriority(below: WriteTree, base: Node)
    requires Wf(below) && Canonical(base) && below.value.None? && PRIORITY !in below.kids
    ensures ApplyToNode(below, base).GetPriority()
            == if EmptiedOnTheWay(base, Visits(below)) then Empty else base.GetPriority()
    ensures ApplyToNode(below, base) == Empty ==> EmptiedOnTheWay(base, Visits(below))
  {
    var keys := Sorted(ByString, below.kids.Keys);
    var writes := VisitKids(below, keys);
    ApplyKidsIsReplay(below, keys, [], base);
    UnderRoot(writes);
    VisitKidsAreBelowRoot(below, keys);
    PriorityOverReplay(base, writes);
    assert PriorityVisit(below) == [] && Visits(below) == writes;
    assert ApplyToNode(below, base) == ApplyKids(below, keys, [], base) == Replay(base, writes);
    WholeReplay(base, writes);
  }

  lemma WrittenAtRoot(t: WriteTree, block: Node)
    requires Wf(t) && Canonical(block) && PRIORITY in t.kids
    ensures AddPriority(t, [], block) == Empty <==> block == Empty
    ensures block != Empty ==> AddPriority(t, [], block).GetPriority() == t.kids[PRIORITY].value.value
  {
    assert [] + [PRIORITY] == [PRIORITY];
    PutPriority(block, t.kids[PRIORITY].value.value);
  }

  /* ---------- localisation of a priority ---------- */

  /**
   The overlay gives the priority of the event node: no condition on a value at or above the node; a written
   priority needs something that is left below; otherwise some leaf of the base must not be deleted before data
   is put.
   */
  ghost predicate PriorityShows(below: WriteTree, base: Node) {
    if below.value.Some? then true
    else if PRIORITY in below.kids then
      below.kids[PRIORITY].value == Some(Empty) || LeavesSomething(below, base)
    else base.GetPriority() == Empty || !Wiped(base, Visits(below))
  }

  /** The overlay seen from a priority, applied to the base's priority there. */
  lemma OverlayOfPriority(below: WriteTree, base: Node)
    requires Wf(below)
    ensures ApplyToNode(ChildAt(below, [PRIORITY]), base.GetPriority())
            == if below.value.Some? then below.value.value.GetPriority()
               else if PRIORITY in below.kids then below.kids[PRIORITY].value.value
               else base.GetPriority()
  {
    if below.value.None? {
      assert [PRIORITY][1..] == [];
      if PRIORITY in below.kids {
        ChildAtRoot(below.kids[PRIORITY]);
      } else {
        ApplyNothing(base.GetPriority());
      }
    }
  }

  /** Localisation at a priority holds exactly when the priority shows. */
  lemma PriorityLocalisation(t: WriteTree, q: Path, node: Node)
    requires Wf(t) && Canonical(node) && PlainPath(q)
    ensures ApplyToNode(t, node).GetChild(q + [PRIORITY])
            == ApplyToNode(ChildAt(t, q + [PRIORITY]), node.GetChild(q + [PRIORITY]))
            <==> PriorityShows(ChildAt(t, q), node.GetChild(q))
  {
    GetPriorityToken(ApplyToNode(t, node), q);
    GetPriorityToken(node, q);
    ChildInSteps(t, q, [PRIORITY]);
    Localisation(t, q, node);
    ChildKeepsWf(t, q);
    GetKeepsCanonical(node, q);
    PriorityAtRoot(ChildAt(t, q), node.GetChild(q));
  }

  lemma PriorityAtRoot(below: WriteTree, base: Node)
    requires Wf(below) && Canonical(base)
    ensures ApplyToNode(below, base).GetPriority() == ApplyToNode(ChildAt(below, [PRIORITY]), base.GetPriority())
            <==> PriorityShows(below, base)
  {
    EventNodePriority(below, base);
    OverlayOfPriority(below, base);
    if below.value.None? && PRIORITY !in below.kids {
      UnwrittenPriority(below, base);
      EmptiedExactly(base, below);
      LeftExactly(below, base);
    }
  }

  /** The case of nothing: a priority written where there is no data is not shown, although the overlay gives it. */
  lemma PriorityOfNothingIsHidden(p: LeafValue)
    ensures var t := Put(EmptyTree(), Leaf(p, Empty), [PRIORITY]);
            && ApplyToNode(t, Empty).GetChild([PRIORITY]) == Empty
            && ApplyToNode(ChildAt(t, [PRIORITY]), Empty.GetChild([PRIORITY])) == Leaf(p, Empty)
  {
    var t, x := Put(EmptyTree(), Leaf(p, Empty), [PRIORITY]), Leaf(p, Empty);
    EmptyIsWf();
    PutKeepsWf(EmptyTree(), x, [PRIORITY]);
    assert [PRIORITY][1..] == [];
    assert EmptyTree<Node>().ChildOrEmpty(PRIORITY) == EmptyTree();
    assert Put(EmptyTree(), x, []) == ValueTree(x);
    assert t.kids == map[PRIORITY := ValueTree(x)];
    NoFillNoData(t);
    OverlayOfPriority(t, Empty);
    GetPriorityToken(Empty, []);
    GetPriorityToken(ApplyToNode(t, Empty), []);
    assert [] + [PRIORITY] == [PRIORITY];
  }

  /**
   The case of data that follows too late: the parent of "a" has a priority, and "a" is deleted before "b" is
   set. The parent is not empty in the end, and has lost its priority.
   */
  lemma PriorityLostOnTheWay(a: Key, b: Key, v: LeafValue, p: LeafValue)
    requires a != PRIORITY && b != PRIORITY && LexLess(a, b)
    ensures var t := Tree(None, map[a := ValueTree(Empty), b := ValueTree(Leaf(v, Empty))]);
            var base := Children(map[a := Leaf(v, Empty)], Leaf(p, Empty));
            && Wf(t) && Canonical(base)
            && ApplyToNode(t, base) == Children(map[b := Leaf(v, Empty)], Empty)
            && ApplyToNode(ChildAt(t, [PRIORITY]), base.GetChild([PRIORITY])) == Leaf(p, Empty)
  {
    var t: WriteTree := Tree(None, map[a := ValueTree(Empty), b := ValueTree(Leaf(v, Empty))]);
    var base := Children(map[a := Leaf(v, Empty)], Leaf(p, Empty));
    TwoWritesAreWf(a, b, Empty, Leaf(v, Empty));
    LexTotal(a, b);
    assert t.kids.Keys == {a, b} && t.kids[a] == ValueTree(Empty) && t.kids[b] == ValueTree(Leaf(v, Empty));
    ApplyTwo(t, a, b, Empty, Leaf(v, Empty), base);
    LastChildDeleted(a, Leaf(v, Empty), Leaf(p, Empty));
    ChildOfNothing(b, Leaf(v, Empty));
    OverlayOfPriority(t, base);
    GetPriorityToken(base, []);
    assert [] + [PRIORITY] == [PRIORITY];
  }

  lemma TwoWritesAreWf(a: Key, b: Key, x: Node, y: Node)
    requires a != PRIORITY && b != PRIORITY && Canonical(x) && Canonical(y)
    ensures Wf(Tree(None, map[a := ValueTree(x), b := ValueTree(y)]))
  {
    assert Wf(ValueTree(x)) && Wf(ValueTree(y));
  }

  /* ---------- overlays seen from a priority ---------- */

  /** A priority write, seen from the priority: it is held, unless it landed in a value that is empty there. */
  lemma PriorityOfPut(t: WriteTree, x: Node, q: Path)
    requires Wf(t) && Canonical(x) && PlainPath(q)
    ensures ChildAt(Put(t, x, q + [PRIORITY]), q + [PRIORITY])
            == ValueTree(if ChildAt(t, q).value == Some(Empty) then Empty else x)
  {
    ChildOfPutBelow(t, x, q, [PRIORITY]);
    PutKeepsWf(t, x, q + [PRIORITY]);
    ChildInSteps(Put(t, x, q + [PRIORITY]), q, [PRIORITY]);
    ChildKeepsWf(t, q);
    PutAtPriority(ChildAt(t, q), x);
  }

  lemma PutAtPriority(t: WriteTree, x: Node)
    requires Wf(t)
    ensures ChildAt(Put(t, x, [PRIORITY]), [PRIORITY]) == ValueTree(if t.value == Some(Empty) then Empty else x)
  {
    assert [PRIORITY][1..] == [];
    if t.value.Some? {
      PutPriority(t.value.value, x);
    } else {
      var prior := t.ChildOrEmpty(PRIORITY);
      assert Put(prior, x, []) == ValueTree(x);
      assert Put(t, x, [PRIORITY]).kids[PRIORITY] == ValueTree(x);
      ChildAtRoot(ValueTree(x));
    }
  }

  /** Another write below the node, seen from the priority: kept, unless it leaves nothing of a value there. */
  lemma PriorityOverPut(t: WriteTree, x: Node, q: Path, r: Path)
    requires Wf(t) && Canonical(x) && PlainPath(q) && ValidPath(r) && r != [] && r[0] != PRIORITY
    ensures ChildAt(Put(t, x, q + r), q + [PRIORITY])
            == match ChildAt(t, q).value
               case Some(v) => ValueTree(if v.UpdateChild(r, x) == Empty then Empty else v.GetPriority())
               case None => ChildAt(t, q + [PRIORITY])
  {
    var below := ChildAt(t, q);
    ChildOfPutBelow(t, x, q, r);
    PlainThenValid(q, r);
    PutKeepsWf(t, x, q + r);
    ChildInSteps(Put(t, x, q + r), q, [PRIORITY]);
    ChildInSteps(t, q, [PRIORITY]);
    ChildKeepsWf(t, q);
    if below.value.Some? {
      PriorityOverUpdate(below.value.value, r, x);
    }
  }
}
