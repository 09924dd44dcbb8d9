/**
 The priorities that a range merge leaves, told like its leaves: by the interval and what the two trees have at a
 path. The one thing that depends on the order of the child set is whether a priority is lost, and it is told
 where.
 */
module RangePriorities {
  import opened Options
  import opened Keys
  import opened Paths
  import opened Nodes
  import opened LeafViews
  import opened DataViews
  import opened Ranges
  import opened RangeLoops
  import opened RangeOutcomes
  import opened RangeLaws
  import opened RangeSync

  /**
   The priority of what is left at `cur + p`: the update's, when the path of the priority lies in the interval,
   or when the update puts a leaf at a path of the interval; else the node's. Strictly above the end a priority,
   like a leaf, gives way only to another one.
   */
  function PatchedPriority(range: Range, cur: Path, node: Node, updates: Node, p: Path): Node {
    var path, put := cur + p + [PRIORITY], updates.GetChild(p);
    if range.Includes(path) && (!range.AboveEnd(path) || put.GetPriority() != Empty) then put.GetPriority()
    else if range.Includes(cur + p) && put.Leaf? then put.GetPriority()
    else node.GetChild(p).GetPriority()
  }

  /**
   At a path to a bound the node is an object with a priority that stays as it is, nothing is left of its
   children, and something else is there.
   */
  ghost predicate LosesPriority(range: Range, cur: Path, node: Node, updates: Node) {
    && (range.StartInNode(cur) || range.EndInNode(cur))
    && node.Children? && node.priority != Empty && PatchedPriority(range, cur, node, updates, []) == node.priority
    && (forall k, q :: k in node.kids ==> Patched(range, cur, node, updates, [k] + q) == None)
    && (exists q :: q != [] && Patched(range, cur, node, updates, q).Some?)
  }

  /* ---------- the priority of one node ---------- */

  /** The priority, patched like a child, is what the formula says. */
  lemma PriorityPatched(range: Range, cur: Path, node: Node, updates: Node)
    requires LeafPriorities(node) && LeafPriorities(updates) && IsPartial(range, cur, updates)
    ensures PatchedChild(range, cur, node, updates, PRIORITY) == PatchedPriority(range, cur, node, updates, [])
  {
    var c, n, u := cur + [PRIORITY], node.GetPriority(), updates.GetPriority();
    assert cur + [] + [PRIORITY] == c && cur + [] == cur;
    BoundFacts(range, c);
    BoundFacts(range, cur);
    StartIsNotAbove(range, cur);
    StartIsNotAbove(range, c);
    if IsPartial(range, c, u) {
      EmptyUpdate(range, c + [PRIORITY]);
      PartialForm(range, c, n, u);
    }
  }

  /** A path after the start does not contain the start. */
  lemma StartIsNotAbove(range: Range, p: Path)
    ensures !(range.AfterStart(p) && range.StartInNode(p))
    ensures range.EndInNode(p) ==> range.UpToEnd(p)
  {
    if range.start.Some? {
      PathTrichotomy(p, range.start.value);
      if Contains(p, range.start.value) && p != range.start.value {
        PrefixFirst(p, range.start.value);
      }
    }
    if range.end.Some? {
      PathTrichotomy(p, range.end.value);
      if Contains(p, range.end.value) && p != range.end.value {
        PrefixFirst(p, range.end.value);
      }
    }
  }

  lemma PriorityBelow(range: Range, cur: Path, node: Node, updates: Node, k: Key, p: Path)
    requires k != PRIORITY
    ensures PatchedPriority(range, cur, node, updates, [k] + p)
            == PatchedPriority(range, cur + [k], node.GetImmediateChild(k), updates.GetImmediateChild(k), p)
  {
    StepDown(node, k, p);
    StepDown(updates, k, p);
    assert cur + ([k] + p) == cur + [k] + p;
  }

  /** Outside the partial nodes. */
  lemma WholePriority(range: Range, cur: Path, node: Node, updates: Node, p: Path)
    requires !IsPartial(range, cur, updates) && PlainPath(p)
    requires UpdateRange(range, cur, node, updates).GetChild(p) != Empty
    ensures UpdateRange(range, cur, node, updates).GetChild(p).GetPriority()
            == PatchedPriority(range, cur, node, updates, p)
  {
    BoundFacts(range, cur);
    StartIsNotAbove(range, cur);
    var path := p + [PRIORITY];
    assert cur + p + [PRIORITY] == cur + path;
    if range.AfterStart(cur) && range.EndComparison(cur) == Ascending && !range.EndInNode(cur) {
      AfterStartBelow(range, cur, path);
      UpToEndBelow(range, cur, path);
    } else if range.AfterStart(cur) && range.EndInNode(cur) && updates.Leaf? {
      assert p == [];
      assert cur + p == cur;
    } else if range.AfterStart(cur) && range.EndComparison(cur) == Same {
      assert p == [] ==> cur + p == cur;
      PastEnd(range, cur, path);
      if p != [] {
        PastEnd(range, cur, p);
      }
    } else {
      OutsideBelow(range, cur, path);
      OutsideBelow(range, cur, p);
    }
  }

  lemma PastEnd(range: Range, cur: Path, p: Path)
    requires range.end == Some(cur) && p != []
    ensures !range.UpToEnd(cur + p)
  {
    PrefixFirst(cur, cur + p);
  }

  /* ---------- when the order matters, by leaves and priorities ---------- */

  lemma PatchedIsLeaf(range: Range, cur: Path, node: Node, updates: Node, q: Path)
    requires Canonical(node) && Canonical(updates)
    ensures Patched(range, cur, node, updates, q) == LeafAt(UpdateRange(range, cur, node, updates), q)
  {
    UpdateRangeIsOutcome(range, cur, node, updates);
    OutcomeLeaves(range, cur, node, updates, UpdateRange(range, cur, node, updates), q);
  }

  /** A canonical tree without leaves is empty. */
  lemma SomeLeafOf(n: Node) returns (q: Path)
    requires Canonical(n) && n != Empty
    ensures LeafAt(n, q).Some?
  {
    DataIsPlain(n);
    q := SomeLeaf(Data(n));
    LeafAtData(n, q);
  }

  lemma LeafBelow(range: Range, cur: Path, node: Node, updates: Node, k: Key, q: Path)
    requires Canonical(node) && Canonical(updates) && IsPartial(range, cur, updates)
    requires k in ChildKeys(node) + ChildKeys(updates)
    ensures Patched(range, cur, node, updates, [k] + q) == LeafAt(PatchedChild(range, cur, node, updates, k), q)
  {
    PatchedIsLeaf(range, cur, node, updates, [k] + q);
    PartialForm(range, cur, node, updates);
    var priority := PatchedChild(range, cur, node, updates, PRIORITY);
    LeafOfAssembled(node, PatchedKids(range, cur, node, updates), priority, k, q);
    NoLeaves(q);
  }

  lemma LeafOfAssembled(node: Node, kids: map<Key, Node>, priority: Node, k: Key, q: Path)
    ensures LeafAt(Assembled(node, kids, priority), [k] + q) == if k in kids then LeafAt(kids[k], q) else None
  {
    assert ([k] + q)[1..] == q;
  }

  lemma KidsPatchedToNothing(range: Range, cur: Path, node: Node, updates: Node, k: Key)
    requires Canonical(node) && Canonical(updates) && IsPartial(range, cur, updates)
    requires k in ChildKeys(node) + ChildKeys(updates)
    ensures PatchedChild(range, cur, node, updates, k) == Empty
            <==> forall q :: Patched(range, cur, node, updates, [k] + q) == None
  {
    var child := PatchedChild(range, cur, node, updates, k);
    PatchedIsCanonical(range, cur, node, updates, k);
    forall q ensures Patched(range, cur, node, updates, [k] + q) == LeafAt(child, q) {
      LeafBelow(range, cur, node, updates, k, q);
    }
    if child != Empty {
      var q := SomeLeafOf(child);
      assert Patched(range, cur, node, updates, [k] + q).Some?;
    }
  }

  lemma SomethingPatched(range: Range, cur: Path, node: Node, updates: Node)
    requires Canonical(node) && Canonical(updates) && IsPartial(range, cur, updates)
    ensures PatchedKids(range, cur, node, updates) != map[]
            <==> exists q :: q != [] && Patched(range, cur, node, updates, q).Some?
  {
    var r, kids := UpdateRange(range, cur, node, updates), PatchedKids(range, cur, node, updates);
    PartialForm(range, cur, node, updates);
    if kids != map[] {
      var k :| k in kids;
      PatchedIsCanonical(range, cur, node, updates, k);
      var q := SomeLeafOf(kids[k]);
      LeafBelow(range, cur, node, updates, k, q);
      assert [k] + q != [];
    }
    if q :| q != [] && Patched(range, cur, node, updates, q).Some? {
      PatchedIsLeaf(range, cur, node, updates, q);
    }
  }

  /** A node that loses its priority is taken apart. */
  lemma LosingIsPartial(range: Range, cur: Path, node: Node, updates: Node)
    requires Canonical(node) && Canonical(updates) && LosesPriority(range, cur, node, updates)
    ensures IsPartial(range, cur, updates)
  {
    BoundFacts(range, cur);
    StartIsNotAbove(range, cur);
    var q :| q != [] && Patched(range, cur, node, updates, q).Some?;
    PatchedIsLeaf(range, cur, node, updates, q);
    if range.AfterStart(cur) && range.EndComparison(cur) == Same && !updates.Leaf? {
      var k, rest := KeptAtEnd(range, cur, node, updates);
    }
  }

  /** At the end itself an object keeps its leaves. */
  lemma KeptAtEnd(range: Range, cur: Path, node: Node, updates: Node) returns (k: Key, rest: Path)
    requires Canonical(node) && Canonical(updates) && node.Children? && !updates.Leaf?
    requires range.AfterStart(cur) && range.EndComparison(cur) == Same
    ensures k in node.kids && Patched(range, cur, node, updates, [k] + rest).Some?
  {
    BoundFacts(range, cur);
    k :| k in node.kids;
    rest := SomeLeafOf(node.kids[k]);
    PatchedIsLeaf(range, cur, node, updates, [k] + rest);
    assert ([k] + rest)[1..] == rest;
  }

  /** The guard on the patched children, told by the interval, the leaves and the priorities. */
  lemma LosingIsOrderMatters(range: Range, cur: Path, node: Node, updates: Node)
    requires Canonical(node) && Canonical(updates) && LeafPriorities(node) && LeafPriorities(updates)
    ensures LosesPriority(range, cur, node, updates)
            <==> IsPartial(range, cur, updates) && OrderMatters(range, cur, node, updates)
  {
    if LosesPriority(range, cur, node, updates) {
      LosingIsPartial(range, cur, node, updates);
    }
    if IsPartial(range, cur, updates) {
      PriorityPatched(range, cur, node, updates);
      SomethingPatched(range, cur, node, updates);
      forall k | k in ChildKeys(node)
        ensures PatchedChild(range, cur, node, updates, k) == Empty
                <==> forall q :: Patched(range, cur, node, updates, [k] + q) == None
      {
        KidsPatchedToNothing(range, cur, node, updates, k);
      }
    }
  }

  /* ---------- the priorities of the outcomes ---------- */

  /** The recursion with the children patched side by side leaves every priority that the formula tells. */
  lemma {:induction false} UpdateRangePriorities(range: Range, cur: Path, node: Node, updates: Node, p: Path)
    requires Canonical(node) && Canonical(updates) && LeafPriorities(node) && LeafPriorities(updates) && PlainPath(p)
    requires UpdateRange(range, cur, node, updates).GetChild(p) != Empty
    ensures UpdateRange(range, cur, node, updates).GetChild(p).GetPriority()
            == PatchedPriority(range, cur, node, updates, p)
    decreases p
  {
    if !IsPartial(range, cur, updates) {
      WholePriority(range, cur, node, updates, p);
    } else {
      PartialForm(range, cur, node, updates);
      PriorityPatched(range, cur, node, updates);
      var kids, priority := PatchedKids(range, cur, node, updates), PatchedChild(range, cur, node, updates, PRIORITY);
      if p != [] {
        var k := p[0];
        assert p == [k] + p[1..];
        BelowAssembled(node, kids, priority, p);
        PriorityBelow(range, cur, node, updates, k, p[1..]);
        UpdateRangePriorities(range, cur + [k], node.GetImmediateChild(k), updates.GetImmediateChild(k), p[1..]);
      }
    }
  }

  lemma BelowAssembled(node: Node, kids: map<Key, Node>, priority: Node, p: Path)
    requires PlainPath(p) && p != [] && Assembled(node, kids, priority).GetChild(p) != Empty
    ensures p[0] in kids && Assembled(node, kids, priority).GetChild(p) == kids[p[0]].GetChild(p[1..])
  {
    EmptyStaysEmpty(p[1..]);
  }

  /** The priority is the one of the formula, or it is lost, and then the guard holds there. */
  ghost predicate IsTold(range: Range, cur: Path, node: Node, updates: Node, p: Path, priority: Node) {
    priority == PatchedPriority(range, cur, node, updates, p)
    || (priority == Empty && LosesPriority(range, cur + p, node.GetChild(p), updates.GetChild(p)))
  }

  lemma ToldBelow(range: Range, cur: Path, node: Node, updates: Node, k: Key, p: Path, priority: Node)
    requires k != PRIORITY
    requires IsTold(range, cur + [k], node.GetImmediateChild(k), updates.GetImmediateChild(k), p, priority)
    ensures IsTold(range, cur, node, updates, [k] + p, priority)
  {
    assert cur + [k] + p == cur + ([k] + p);
    StepDown(node, k, p);
    StepDown(updates, k, p);
    PriorityBelow(range, cur, node, updates, k, p);
  }

  /** A run leaves the priority that the formula tells, or none where the guard holds. */
  lemma RunPriority(range: Range, cur: Path, node: Node, updates: Node,
                    keys: seq<Key>, results: map<Key, Node>, priority: Node, r: Node)
    requires Canonical(node) && Canonical(updates) && LeafPriorities(node) && LeafPriorities(updates)
    requires IsPartial(range, cur, updates) && IsRun(range, cur, node, updates, keys, results, priority, r) && r != Empty
    ensures IsTold(range, cur, node, updates, [], r.GetPriority())
  {
    assert cur + [] == cur;
    PriorityIsDetermined(range, cur + [PRIORITY], node.GetPriority(), updates.GetPriority());
    DeterminedChildHasOne(range, cur, node, updates, PRIORITY, priority);
    PriorityPatched(range, cur, node, updates);
    RunsAreResults(range, cur, node, updates, results);
    RebuiltForm(node, results, keys, priority);
    if RangeLoops.Replaced(node, results, priority) {
      ReplacedMeans(range, cur, node, updates, results, priority);
      LosingIsOrderMatters(range, cur, node, updates);
    } else {
      OrderIrrelevant(node, results, keys, priority);
    }
  }

  lemma RunsAreResults(range: Range, cur: Path, node: Node, updates: Node, results: map<Key, Node>)
    requires Canonical(node) && Canonical(updates) && IsPartial(range, cur, updates)
    requires results.Keys == ChildKeys(node) + ChildKeys(updates)
    requires forall k :: k in results ==> IsChildOutcome(range, cur, node, updates, k, results[k])
    ensures AreResults(results)
    ensures forall k :: k in results ==>
              (results[k] == Empty <==> PatchedChild(range, cur, node, updates, k) == Empty)
  {
    forall k | k in results
      ensures Canonical(results[k]) && (results[k] == Empty <==> PatchedChild(range, cur, node, updates, k) == Empty)
    {
      ChildOutcomeSharesData(range, cur, node, updates, k, results[k]);
      PatchedIsCanonical(range, cur, node, updates, k);
      DataIsPlain(results[k]);
      DataIsPlain(PatchedChild(range, cur, node, updates, k));
    }
  }

  lemma ReplacedMeans(range: Range, cur: Path, node: Node, updates: Node, results: map<Key, Node>, priority: Node)
    requires Canonical(node) && IsPartial(range, cur, updates) && results.Keys == ChildKeys(node) + ChildKeys(updates)
    requires forall k :: k in results ==>
               (results[k] == Empty <==> PatchedChild(range, cur, node, updates, k) == Empty)
    requires priority == PatchedChild(range, cur, node, updates, PRIORITY) && RangeLoops.Replaced(node, results, priority)
    ensures OrderMatters(range, cur, node, updates)
  {
    var k :| k in NonEmpty(results);
    assert k in PatchedKids(range, cur, node, updates);
  }

  /** Below an outcome. */
  lemma ChildOf(range: Range, cur: Path, node: Node, updates: Node, r: Node, p: Path) returns (child: Node)
    requires Canonical(node) && Canonical(updates) && IsPartial(range, cur, updates)
    requires IsOutcome(range, cur, node, updates, r) && PlainPath(p) && p != [] && r.GetChild(p) != Empty
    ensures IsChildOutcome(range, cur, node, updates, p[0], child) && r.GetChild(p) == child.GetChild(p[1..])
  {
    var keys, results, priority := RunOf(range, cur, node, updates, r);
    RunsAreResults(range, cur, node, updates, results);
    RebuiltForm(node, results, keys, priority);
    var left := if priority == node.GetPriority() && EmptiedAlong(node, results, keys) then Empty else priority;
    BelowAssembled(node, NonEmpty(results), left, p);
    child := results[p[0]];
  }

  /** So it is for every outcome at every path where something is left. */
  lemma {:induction false} OutcomePriorities(range: Range, cur: Path, node: Node, updates: Node, r: Node, p: Path)
    requires Canonical(node) && Canonical(updates) && LeafPriorities(node) && LeafPriorities(updates) && PlainPath(p)
    requires IsOutcome(range, cur, node, updates, r) && r.GetChild(p) != Empty
    ensures IsTold(range, cur, node, updates, p, r.GetChild(p).GetPriority())
    decreases |p|, 0
  {
    if !IsPartial(range, cur, updates) {
      WholePriority(range, cur, node, updates, p);
    } else if p == [] {
      OwnPriority(range, cur, node, updates, r);
    } else {
      BelowPriorities(range, cur, node, updates, r, p);
    }
  }

  lemma OwnPriority(range: Range, cur: Path, node: Node, updates: Node, r: Node)
    requires Canonical(node) && Canonical(updates) && LeafPriorities(node) && LeafPriorities(updates)
    requires IsPartial(range, cur, updates) && IsOutcome(range, cur, node, updates, r) && r != Empty
    ensures IsTold(range, cur, node, updates, [], r.GetPriority())
  {
    var keys, results, priority := RunOf(range, cur, node, updates, r);
    RunPriority(range, cur, node, updates, keys, results, priority, r);
  }

  lemma {:induction false} BelowPriorities(range: Range, cur: Path, node: Node, updates: Node, r: Node, p: Path)
    requires Canonical(node) && Canonical(updates) && LeafPriorities(node) && LeafPriorities(updates)
    requires IsPartial(range, cur, updates) && PlainPath(p) && p != []
    requires IsOutcome(range, cur, node, updates, r) && r.GetChild(p) != Empty
    ensures IsTold(range, cur, node, updates, p, r.GetChild(p).GetPriority())
    decreases |p| - 1, 2
  {
    var child := ChildOf(range, cur, node, updates, r, p);
    assert p == [p[0]] + p[1..];
    ChildPriorities(range, cur, node, updates, p[0], child, p[1..]);
  }

  lemma {:induction false} ChildPriorities(range: Range, cur: Path, node: Node, updates: Node, k: Key, child: Node, p: Path)
    requires Canonical(node) && Canonical(updates) && LeafPriorities(node) && LeafPriorities(updates)
    requires IsPartial(range, cur, updates) && k != PRIORITY && PlainPath(p)
    requires IsChildOutcome(range, cur, node, updates, k, child) && child.GetChild(p) != Empty
    ensures IsTold(range, cur, node, updates, [k] + p, child.GetChild(p).GetPriority())
    decreases |p|, 1
  {
    OutcomePriorities(range, cur + [k], node.GetImmediateChild(k), updates.GetImmediateChild(k), child, p);
    ToldBelow(range, cur, node, updates, k, p, child.GetChild(p).GetPriority());
  }

  /** Where the guard holds, some outcome has lost the priority. */
  lemma {:induction false} LosingOutcome(range: Range, cur: Path, node: Node, updates: Node, p: Path) returns (r: Node)
    requires Canonical(node) && Canonical(updates) && OrderMattersAt(range, cur, node, updates, p)
    ensures IsOutcome(range, cur, node, updates, r) && r.GetChild(p) != Empty && r.GetChild(p).GetPriority() == Empty
    decreases |p|, 0
  {
    SomewhereIsUndetermined(range, cur, node, updates, p);
    PatchedChildrenAreOutcomes(range, cur, node, updates);
    if p == [] {
      assert cur + [] == cur;
      r := OtherOrder(range, cur, node, updates);
    } else {
      var k := p[0];
      assert p == [k] + p[1..];
      var child := LosingChild(range, cur, node, updates, k, p[1..]);
      r := WithOutcome(range, cur, node, updates, k, child);
      StepDown(r, k, p[1..]);
    }
  }

  lemma {:induction false} LosingChild(range: Range, cur: Path, node: Node, updates: Node, k: Key, p: Path)
      returns (child: Node)
    requires Canonical(node) && Canonical(updates) && IsPartial(range, cur, updates) && k != PRIORITY
    requires OrderMattersAt(range, cur, node, updates, [k] + p)
    ensures k in ChildKeys(node) + ChildKeys(updates) && IsChildOutcome(range, cur, node, updates, k, child)
    ensures child != Empty && child.GetChild(p) != Empty && child.GetChild(p).GetPriority() == Empty
    decreases |p|, 1
  {
    OrderMattersBelow(range, cur, node, updates, k, p);
    SomewhereIsUndetermined(range, cur + [k], node.GetImmediateChild(k), updates.GetImmediateChild(k), p);
    child := LosingOutcome(range, cur + [k], node.GetImmediateChild(k), updates.GetImmediateChild(k), p);
    EmptyStaysEmpty(p);
  }

  /** The outcome of a child is a child of some outcome. */
  lemma WithOutcome(range: Range, cur: Path, node: Node, updates: Node, k: Key, child: Node) returns (r: Node)
    requires Canonical(node) && Canonical(updates) && IsPartial(range, cur, updates)
    requires PatchedAreOutcomes(range, cur, node, updates) && k in ChildKeys(node) + ChildKeys(updates)
    requires IsChildOutcome(range, cur, node, updates, k, child) && child != Empty
    ensures IsOutcome(range, cur, node, updates, r) && r.GetImmediateChild(k) == child
  {
    PatchedAllAreResults(range, cur, node, updates);
    ChildOutcomeSharesData(range, cur, node, updates, k, child);
    var results := PatchedAll(range, cur, node, updates)[k := child];
    var priority := PatchedChild(range, cur, node, updates, PRIORITY);
    r := Assembled(node, NonEmpty(results), priority);
    KeepingRun(range, cur, node, updates, results, priority);
    assert k in NonEmpty(results) && NonEmpty(results)[k] == child;
  }

  /** Some outcome has another priority at the path. */
  ghost predicate CanLosePriority(range: Range, node: Node, updates: Node, p: Path) {
    exists r :: IsOutcome(range, [], node, updates, r) && r.GetChild(p) != Empty
                && r.GetChild(p).GetPriority() != PatchedPriority(range, [], node, updates, p)
  }

  lemma PartsOfTrees(node: Node, updates: Node, p: Path)
    requires Canonical(node) && Canonical(updates) && LeafPriorities(node) && LeafPriorities(updates) && PlainPath(p)
    ensures var n, u := node.GetChild(p), updates.GetChild(p);
            Canonical(n) && Canonical(u) && LeafPriorities(n) && LeafPriorities(u)
  {
    GetKeepsCanonical(node, p);
    GetKeepsCanonical(updates, p);
    GetKeepsLeafPriorities(node, p);
    GetKeepsLeafPriorities(updates, p);
  }

  lemma LossHappens(range: Range, node: Node, updates: Node, p: Path)
    requires Canonical(node) && Canonical(updates) && LeafPriorities(node) && LeafPriorities(updates) && PlainPath(p)
    requires LosesPriority(range, p, node.GetChild(p), updates.GetChild(p))
    ensures CanLosePriority(range, node, updates, p)
  {
    assert [] + p == p && p + [] == p;
    PartsOfTrees(node, updates, p);
    LosingIsOrderMatters(range, p, node.GetChild(p), updates.GetChild(p));
    var r := LosingOutcome(range, [], node, updates, p);
    assert PatchedPriority(range, [], node, updates, p) == node.GetChild(p).priority;
  }

  /** The exception exactly: some outcome has another priority at a path if and only if the guard holds there. */
  lemma PriorityLossExact(range: Range, node: Node, updates: Node, p: Path)
    requires Canonical(node) && Canonical(updates) && LeafPriorities(node) && LeafPriorities(updates) && PlainPath(p)
    ensures CanLosePriority(range, node, updates, p)
            <==> LosesPriority(range, p, node.GetChild(p), updates.GetChild(p))
  {
    if CanLosePriority(range, node, updates, p) {
      var r :| IsOutcome(range, [], node, updates, r) && r.GetChild(p) != Empty
               && r.GetChild(p).GetPriority() != PatchedPriority(range, [], node, updates, p);
      OutcomePriorities(range, [], node, updates, r, p);
      assert [] + p == p;
    } else if LosesPriority(range, p, node.GetChild(p), updates.GetChild(p)) {
      LossHappens(range, node, updates, p);
    }
  }

  lemma {:induction false} GetKeepsLeafPriorities(n: Node, p: Path)
    requires LeafPriorities(n) && PlainPath(p)
    ensures LeafPriorities(n.GetChild(p))
    decreases p
  {
    if p != [] && n.Children? {
      GetKeepsLeafPriorities(n.GetImmediateChild(p[0]), p[1..]);
    }
  }

  /** Leaves and priorities tell the whole tree. */
  lemma {:induction false} SameLeavesAndPriorities(a: Node, b: Node)
    requires Canonical(a) && Canonical(b)
    requires forall p: Path :: LeafAt(a, p) == LeafAt(b, p)
    requires forall p: Path :: PlainPath(p) ==> a.GetChild(p).GetPriority() == b.GetChild(p).GetPriority()
    ensures a == b
    decreases a
  {
    assert a.GetChild([]) == a && b.GetChild([]) == b;
    assert a.GetPriority() == b.GetPriority();
    SameShape(a, b);
    if a.Children? {
      forall k | k in a.kids ensures a.kids[k] == b.kids[k] {
        forall p: Path ensures LeafAt(a.kids[k], p) == LeafAt(b.kids[k], p) {
          assert ([k] + p)[1..] == p;
          assert LeafAt(a, [k] + p) == LeafAt(b, [k] + p);
        }
        forall p: Path | PlainPath(p) ensures a.kids[k].GetChild(p).GetPriority() == b.kids[k].GetChild(p).GetPriority() {
          StepDown(a, k, p);
          StepDown(b, k, p);
          assert PlainPath([k] + p);
        }
        SameLeavesAndPriorities(a.kids[k], b.kids[k]);
      }
      assert a.kids == b.kids;
    }
  }

  lemma SameShape(a: Node, b: Node)
    requires Canonical(a) && Canonical(b) && forall p: Path :: LeafAt(a, p) == LeafAt(b, p)
    ensures a.Empty? <==> b.Empty?
    ensures a.Leaf? <==> b.Leaf?
    ensures a.Leaf? ==> a.value == b.value
    ensures a.Children? && b.Children? ==> a.kids.Keys == b.kids.Keys
  {
    DataIsPlain(a);
    DataIsPlain(b);
    forall p: Path ensures LeafAt(Data(a), p) == LeafAt(Data(b), p) {
      LeafAtData(a, p);
      LeafAtData(b, p);
    }
    SameLeavesSameTree(Data(a), Data(b));
    assert a.Children? ==> Data(a).kids.Keys == a.kids.Keys;
    assert b.Children? ==> Data(b).kids.Keys == b.kids.Keys;
  }
}
