/**
 All that a range merge can make of a tree, and when it is only one thing (FRangeMerge.swift).
 */
module RangeOutcomes {
  import opened Keys
  import opened Paths
  import opened Nodes
  import opened Ranges
  import opened RangeLoops
  import opened DataViews

  /** `r` can come out of the recursion, for some order at every node. */
  ghost predicate IsOutcome(range: Range, cur: Path, node: Node, updates: Node, r: Node)
    decreases range.Reach() - |cur|, 2
  {
    if IsPartial(range, cur, updates) then
      exists keys, results, priority :: IsRun(range, cur, node, updates, keys, results, priority, r)
    else r == UpdateRange(range, cur, node, updates)
  }

  /** One run of the loop: an order of the children, what the recursion answers for them and for the priority. */
  ghost predicate IsRun(range: Range, cur: Path, node: Node, updates: Node,
                        keys: seq<Key>, results: map<Key, Node>, priority: Node, r: Node)
    requires IsPartial(range, cur, updates)
    decreases range.Reach() - |cur|, 1
  {
    && results.Keys == ChildKeys(node) + ChildKeys(updates)
    && Enumerates(keys, results.Keys)
    && (forall k :: k in results ==> IsChildOutcome(range, cur, node, updates, k, results[k]))
    && IsChildOutcome(range, cur, node, updates, PRIORITY, priority)
    && r == Rebuilt(node, results, keys, priority)
  }

  ghost predicate IsChildOutcome(range: Range, cur: Path, node: Node, updates: Node, k: Key, child: Node)
    requires IsPartial(range, cur, updates)
    decreases range.Reach() - |cur|, 0
  {
    IsOutcome(range, cur + [k], node.GetImmediateChild(k), updates.GetImmediateChild(k), child)
  }

  /** The answers of `UpdateRange` for the children. */
  function PatchedAll(range: Range, cur: Path, node: Node, updates: Node): map<Key, Node>
    requires IsPartial(range, cur, updates)
  {
    map k | k in ChildKeys(node) + ChildKeys(updates) :: PatchedChild(range, cur, node, updates, k)
  }

  lemma PatchedIsCanonical(range: Range, cur: Path, node: Node, updates: Node, k: Key)
    requires Canonical(node) && Canonical(updates) && IsPartial(range, cur, updates)
    ensures Canonical(PatchedChild(range, cur, node, updates, k))
  {
    UpdateRangeIsCanonical(range, cur + [k], node.GetImmediateChild(k), updates.GetImmediateChild(k));
  }

  lemma PatchedAllAreResults(range: Range, cur: Path, node: Node, updates: Node)
    requires Canonical(node) && Canonical(updates) && IsPartial(range, cur, updates)
    ensures AreResults(PatchedAll(range, cur, node, updates))
  {
    forall k: Key ensures Canonical(PatchedChild(range, cur, node, updates, k)) {
      PatchedIsCanonical(range, cur, node, updates, k);
    }
  }

  lemma NonEmptyPatched(range: Range, cur: Path, node: Node, updates: Node)
    requires IsPartial(range, cur, updates)
    ensures NonEmpty(PatchedAll(range, cur, node, updates)) == PatchedKids(range, cur, node, updates)
  {
  }

  /* ---------- one node ---------- */

  /**
   The guard under which the order of the visits decides: an object keeps its priority while the merge deletes
   all its children and adds another.
   */
  predicate OrderMatters(range: Range, cur: Path, node: Node, updates: Node)
    requires IsPartial(range, cur, updates)
  {
    && node.Children? && node.priority != Empty && PatchedChild(range, cur, node, updates, PRIORITY) == node.priority
    && (forall k :: k in node.kids ==> PatchedChild(range, cur, node, updates, k) == Empty)
    && PatchedKids(range, cur, node, updates) != map[]
  }

  lemma OrderMattersIsReplaced(range: Range, cur: Path, node: Node, updates: Node)
    requires Canonical(node) && Canonical(updates) && IsPartial(range, cur, updates)
    ensures OrderMatters(range, cur, node, updates)
            <==> Replaced(node, PatchedAll(range, cur, node, updates), PatchedChild(range, cur, node, updates, PRIORITY))
  {
    NonEmptyPatched(range, cur, node, updates);
  }

  /** Exactly then the orders of the children do not all leave the same node. */
  lemma OneNodeExact(range: Range, cur: Path, node: Node, updates: Node)
    requires Canonical(node) && Canonical(updates) && IsPartial(range, cur, updates)
    ensures AllOrdersLeave(node, PatchedAll(range, cur, node, updates), PatchedChild(range, cur, node, updates, PRIORITY),
                           UpdateRange(range, cur, node, updates))
            <==> !OrderMatters(range, cur, node, updates)
  {
    PatchedAllAreResults(range, cur, node, updates);
    NonEmptyPatched(range, cur, node, updates);
    OrderMattersIsReplaced(range, cur, node, updates);
    PartialForm(range, cur, node, updates);
    OrdersExact(node, PatchedAll(range, cur, node, updates), PatchedChild(range, cur, node, updates, PRIORITY));
  }

  /* ---------- the whole recursion ---------- */

  /** Some orders give what `UpdateRange` says. */
  lemma {:induction false} UpdateRangeIsOutcome(range: Range, cur: Path, node: Node, updates: Node)
    requires Canonical(node) && Canonical(updates)
    ensures IsOutcome(range, cur, node, updates, UpdateRange(range, cur, node, updates))
    decreases range.Reach() - |cur|
  {
    if IsPartial(range, cur, updates) {
      forall k: Key
        ensures IsChildOutcome(range, cur, node, updates, k, PatchedChild(range, cur, node, updates, k))
      {
        UpdateRangeIsOutcome(range, cur + [k], node.GetImmediateChild(k), updates.GetImmediateChild(k));
      }
      PatchedRun(range, cur, node, updates);
    }
  }

  lemma PatchedRun(range: Range, cur: Path, node: Node, updates: Node)
    requires Canonical(node) && Canonical(updates) && IsPartial(range, cur, updates)
    requires forall k: Key :: IsChildOutcome(range, cur, node, updates, k, PatchedChild(range, cur, node, updates, k))
    ensures IsOutcome(range, cur, node, updates, UpdateRange(range, cur, node, updates))
  {
    PatchedAllAreResults(range, cur, node, updates);
    NonEmptyPatched(range, cur, node, updates);
    PartialForm(range, cur, node, updates);
    var priority := PatchedChild(range, cur, node, updates, PRIORITY);
    KeepingRun(range, cur, node, updates, PatchedAll(range, cur, node, updates), priority);
  }

  /** For given outcomes of the children there is one with their priority. */
  lemma KeepingRun(range: Range, cur: Path, node: Node, updates: Node, results: map<Key, Node>, priority: Node)
    requires Canonical(node) && IsPartial(range, cur, updates) && AreResults(results)
    requires results.Keys == ChildKeys(node) + ChildKeys(updates)
    requires forall k :: k in results ==> IsChildOutcome(range, cur, node, updates, k, results[k])
    requires IsChildOutcome(range, cur, node, updates, PRIORITY, priority)
    ensures IsOutcome(range, cur, node, updates, Assembled(node, NonEmpty(results), priority))
  {
    var keys := SomeOrderKeeps(node, results, priority);
    assert IsRun(range, cur, node, updates, keys, results, priority, Assembled(node, NonEmpty(results), priority));
  }

  lemma LosingRun(range: Range, cur: Path, node: Node, updates: Node, results: map<Key, Node>, priority: Node)
    requires Canonical(node) && IsPartial(range, cur, updates) && AreResults(results)
    requires results.Keys == ChildKeys(node) + ChildKeys(updates)
    requires forall k :: k in results ==> IsChildOutcome(range, cur, node, updates, k, results[k])
    requires IsChildOutcome(range, cur, node, updates, PRIORITY, priority)
    requires Replaced(node, results, priority)
    ensures IsOutcome(range, cur, node, updates, Children(NonEmpty(results), Empty))
  {
    var keys := SomeOrderLoses(node, results, priority);
    assert IsRun(range, cur, node, updates, keys, results, priority, Children(NonEmpty(results), Empty));
  }

  /** The run behind an outcome. */
  lemma RunOf(range: Range, cur: Path, node: Node, updates: Node, r: Node)
      returns (keys: seq<Key>, results: map<Key, Node>, priority: Node)
    requires IsPartial(range, cur, updates) && IsOutcome(range, cur, node, updates, r)
    ensures IsRun(range, cur, node, updates, keys, results, priority, r)
  {
    keys, results, priority :| IsRun(range, cur, node, updates, keys, results, priority, r);
  }

  /* ---------- what all outcomes share ---------- */

  ghost predicate SameData(range: Range, cur: Path, node: Node, updates: Node, k: Key, child: Node)
    requires IsPartial(range, cur, updates)
  {
    Canonical(child) && Data(child) == Data(PatchedChild(range, cur, node, updates, k))
  }

  /** Priorities apart, the order never matters. */
  lemma {:induction false} OutcomesShareData(range: Range, cur: Path, node: Node, updates: Node, r: Node)
    requires Canonical(node) && Canonical(updates) && IsOutcome(range, cur, node, updates, r)
    ensures Canonical(r) && Data(r) == Data(UpdateRange(range, cur, node, updates))
    decreases range.Reach() - |cur|, 1
  {
    if IsPartial(range, cur, updates) {
      forall k, child | IsChildOutcome(range, cur, node, updates, k, child)
        ensures SameData(range, cur, node, updates, k, child)
      {
        ChildOutcomeSharesData(range, cur, node, updates, k, child);
      }
      RunsShareData(range, cur, node, updates, r);
    } else {
      UpdateRangeIsCanonical(range, cur, node, updates);
    }
  }

  lemma {:induction false} ChildOutcomeSharesData(range: Range, cur: Path, node: Node, updates: Node, k: Key, child: Node)
    requires Canonical(node) && Canonical(updates) && IsPartial(range, cur, updates)
    requires IsChildOutcome(range, cur, node, updates, k, child)
    ensures SameData(range, cur, node, updates, k, child)
    decreases range.Reach() - |cur|, 0
  {
    OutcomesShareData(range, cur + [k], node.GetImmediateChild(k), updates.GetImmediateChild(k), child);
  }

  ghost predicate ChildrenShareData(range: Range, cur: Path, node: Node, updates: Node)
    requires IsPartial(range, cur, updates)
  {
    forall k, child :: IsChildOutcome(range, cur, node, updates, k, child) ==> SameData(range, cur, node, updates, k, child)
  }

  lemma RunsShareData(range: Range, cur: Path, node: Node, updates: Node, r: Node)
    requires Canonical(node) && Canonical(updates) && IsPartial(range, cur, updates)
    requires ChildrenShareData(range, cur, node, updates) && IsOutcome(range, cur, node, updates, r)
    ensures Canonical(r) && Data(r) == Data(UpdateRange(range, cur, node, updates))
  {
    var keys, results, priority := RunOf(range, cur, node, updates, r);
    RunSharesData(range, cur, node, updates, keys, results, priority);
  }

  lemma RunSharesData(range: Range, cur: Path, node: Node, updates: Node,
                      keys: seq<Key>, results: map<Key, Node>, priority: Node)
    requires Canonical(node) && Canonical(updates) && IsPartial(range, cur, updates)
    requires results.Keys == ChildKeys(node) + ChildKeys(updates) && Enumerates(keys, results.Keys)
    requires forall k :: k in results ==> SameData(range, cur, node, updates, k, results[k])
    requires SameData(range, cur, node, updates, PRIORITY, priority)
    ensures var r := Rebuilt(node, results, keys, priority);
            Canonical(r) && Data(r) == Data(UpdateRange(range, cur, node, updates))
  {
    RebuiltForm(node, results, keys, priority);
    var p := if priority == node.GetPriority() && EmptiedAlong(node, results, keys) then Empty else priority;
    AssembledIsCanonical(node, NonEmpty(results), p);
    DataOfAssembled(node, NonEmpty(results), p);
    PartialForm(range, cur, node, updates);
    DataOfAssembled(node, PatchedKids(range, cur, node, updates), PatchedChild(range, cur, node, updates, PRIORITY));
    SameDataKids(range, cur, node, updates, results);
  }

  lemma SameDataKids(range: Range, cur: Path, node: Node, updates: Node, results: map<Key, Node>)
    requires Canonical(node) && Canonical(updates) && IsPartial(range, cur, updates)
    requires results.Keys == ChildKeys(node) + ChildKeys(updates)
    requires forall k :: k in results ==> SameData(range, cur, node, updates, k, results[k])
    ensures DataKids(NonEmpty(results)) == DataKids(PatchedKids(range, cur, node, updates))
  {
    forall k | k in results ensures Alike(results[k], PatchedChild(range, cur, node, updates, k)) {
      assert SameData(range, cur, node, updates, k, results[k]);
      PatchedIsCanonical(range, cur, node, updates, k);
      DataIsPlain(results[k]);
      DataIsPlain(PatchedChild(range, cur, node, updates, k));
    }
    AlikeKids(results, PatchedAll(range, cur, node, updates));
    NonEmptyPatched(range, cur, node, updates);
  }

  predicate Alike(a: Node, b: Node) {
    Data(a) == Data(b) && (a == Empty <==> b == Empty)
  }

  lemma AlikeKids(a: map<Key, Node>, b: map<Key, Node>)
    requires a.Keys == b.Keys && forall k :: k in a ==> Alike(a[k], b[k])
    ensures DataKids(NonEmpty(a)) == DataKids(NonEmpty(b))
  {
    forall k | k in a
      ensures k in NonEmpty(a) <==> k in NonEmpty(b)
      ensures k in NonEmpty(a) ==> Data(NonEmpty(a)[k]) == Data(NonEmpty(b)[k])
    {
      assert Alike(a[k], b[k]);
    }
  }

  /* ---------- when there is only one outcome ---------- */

  /** The order matters nowhere on the way to the two bounds, as far as something is left there. */
  predicate Determined(range: Range, cur: Path, node: Node, updates: Node)
    decreases range.Reach() - |cur|, 1
  {
    IsPartial(range, cur, updates) && UpdateRange(range, cur, node, updates) != Empty ==>
      && !OrderMatters(range, cur, node, updates)
      && DeterminedChild(range, cur, node, updates, PRIORITY)
      && forall k :: k in ChildKeys(node) + ChildKeys(updates) ==> DeterminedChild(range, cur, node, updates, k)
  }

  predicate DeterminedChild(range: Range, cur: Path, node: Node, updates: Node, k: Key)
    requires IsPartial(range, cur, updates)
    decreases range.Reach() - |cur|, 0
  {
    Determined(range, cur + [k], node.GetImmediateChild(k), updates.GetImmediateChild(k))
  }

  ghost predicate OnlyChildOutcome(range: Range, cur: Path, node: Node, updates: Node, k: Key, child: Node)
    requires IsPartial(range, cur, updates)
  {
    child == PatchedChild(range, cur, node, updates, k)
  }

  lemma {:induction false} DeterminedHasOne(range: Range, cur: Path, node: Node, updates: Node, r: Node)
    requires Canonical(node) && Canonical(updates) && Determined(range, cur, node, updates)
    requires IsOutcome(range, cur, node, updates, r)
    ensures r == UpdateRange(range, cur, node, updates)
    decreases range.Reach() - |cur|, 1
  {
    if IsPartial(range, cur, updates) {
      if UpdateRange(range, cur, node, updates) == Empty {
        OutcomesShareData(range, cur, node, updates, r);
        DataIsPlain(r);
      } else {
        forall k, child
          | IsChildOutcome(range, cur, node, updates, k, child) && DeterminedChild(range, cur, node, updates, k)
          ensures OnlyChildOutcome(range, cur, node, updates, k, child)
        {
          DeterminedChildHasOne(range, cur, node, updates, k, child);
        }
        OnlyRuns(range, cur, node, updates, r);
      }
    }
  }

  lemma {:induction false} DeterminedChildHasOne(range: Range, cur: Path, node: Node, updates: Node, k: Key, child: Node)
    requires Canonical(node) && Canonical(updates) && IsPartial(range, cur, updates)
    requires IsChildOutcome(range, cur, node, updates, k, child) && DeterminedChild(range, cur, node, updates, k)
    ensures OnlyChildOutcome(range, cur, node, updates, k, child)
    decreases range.Reach() - |cur|, 0
  {
    DeterminedHasOne(range, cur + [k], node.GetImmediateChild(k), updates.GetImmediateChild(k), child);
  }

  ghost predicate OnlyChildOutcomes(range: Range, cur: Path, node: Node, updates: Node)
    requires IsPartial(range, cur, updates)
  {
    forall k, child ::
      IsChildOutcome(range, cur, node, updates, k, child) && DeterminedChild(range, cur, node, updates, k)
      ==> OnlyChildOutcome(range, cur, node, updates, k, child)
  }

  lemma OnlyRuns(range: Range, cur: Path, node: Node, updates: Node, r: Node)
    requires Canonical(node) && Canonical(updates) && IsPartial(range, cur, updates)
    requires UpdateRange(range, cur, node, updates) != Empty && Determined(range, cur, node, updates)
    requires OnlyChildOutcomes(range, cur, node, updates) && IsOutcome(range, cur, node, updates, r)
    ensures r == UpdateRange(range, cur, node, updates)
  {
    var keys, results, priority := RunOf(range, cur, node, updates, r);
    OnlyRun(range, cur, node, updates, keys, results, priority);
  }

  lemma OnlyRun(range: Range, cur: Path, node: Node, updates: Node,
                keys: seq<Key>, results: map<Key, Node>, priority: Node)
    requires Canonical(node) && Canonical(updates) && IsPartial(range, cur, updates)
    requires !OrderMatters(range, cur, node, updates)
    requires results.Keys == ChildKeys(node) + ChildKeys(updates) && Enumerates(keys, results.Keys)
    requires forall k :: k in results ==> OnlyChildOutcome(range, cur, node, updates, k, results[k])
    requires OnlyChildOutcome(range, cur, node, updates, PRIORITY, priority)
    ensures Rebuilt(node, results, keys, priority) == UpdateRange(range, cur, node, updates)
  {
    forall k | k in results ensures results[k] == PatchedChild(range, cur, node, updates, k) {
      assert OnlyChildOutcome(range, cur, node, updates, k, results[k]);
    }
    assert results == PatchedAll(range, cur, node, updates);
    OneNodeExact(range, cur, node, updates);
  }

  /** Where the order matters, another outcome than `UpdateRange`. */
  lemma {:induction false} OtherOutcome(range: Range, cur: Path, node: Node, updates: Node) returns (r: Node)
    requires Canonical(node) && Canonical(updates) && !Determined(range, cur, node, updates)
    ensures IsOutcome(range, cur, node, updates, r) && r != UpdateRange(range, cur, node, updates)
    decreases range.Reach() - |cur|, 1
  {
    PatchedChildrenAreOutcomes(range, cur, node, updates);
    if OrderMatters(range, cur, node, updates) {
      r := OtherOrder(range, cur, node, updates);
    } else if !DeterminedChild(range, cur, node, updates, PRIORITY) {
      var priority := OtherChildOutcome(range, cur, node, updates, PRIORITY);
      r := OtherPriority(range, cur, node, updates, priority);
    } else {
      var k :| k in ChildKeys(node) + ChildKeys(updates) && !DeterminedChild(range, cur, node, updates, k);
      var child := OtherChildOutcome(range, cur, node, updates, k);
      r := OtherChild(range, cur, node, updates, k, child);
    }
  }

  lemma {:induction false} OtherChildOutcome(range: Range, cur: Path, node: Node, updates: Node, k: Key)
      returns (child: Node)
    requires Canonical(node) && Canonical(updates) && IsPartial(range, cur, updates)
    requires !DeterminedChild(range, cur, node, updates, k)
    ensures IsChildOutcome(range, cur, node, updates, k, child) && child != PatchedChild(range, cur, node, updates, k)
    decreases range.Reach() - |cur|, 0
  {
    child := OtherOutcome(range, cur + [k], node.GetImmediateChild(k), updates.GetImmediateChild(k));
  }

  ghost predicate PatchedAreOutcomes(range: Range, cur: Path, node: Node, updates: Node)
    requires IsPartial(range, cur, updates)
  {
    forall k: Key :: IsChildOutcome(range, cur, node, updates, k, PatchedChild(range, cur, node, updates, k))
  }

  lemma PatchedChildrenAreOutcomes(range: Range, cur: Path, node: Node, updates: Node)
    requires Canonical(node) && Canonical(updates) && IsPartial(range, cur, updates)
    ensures PatchedAreOutcomes(range, cur, node, updates)
  {
    forall k: Key
      ensures IsChildOutcome(range, cur, node, updates, k, PatchedChild(range, cur, node, updates, k))
    {
      UpdateRangeIsOutcome(range, cur + [k], node.GetImmediateChild(k), updates.GetImmediateChild(k));
    }
  }

  lemma OtherOrder(range: Range, cur: Path, node: Node, updates: Node) returns (r: Node)
    requires Canonical(node) && Canonical(updates) && IsPartial(range, cur, updates)
    requires PatchedAreOutcomes(range, cur, node, updates) && OrderMatters(range, cur, node, updates)
    ensures IsOutcome(range, cur, node, updates, r) && r != UpdateRange(range, cur, node, updates)
    ensures r == Children(PatchedKids(range, cur, node, updates), Empty)
  {
    PatchedAllAreResults(range, cur, node, updates);
    NonEmptyPatched(range, cur, node, updates);
    OrderMattersIsReplaced(range, cur, node, updates);
    PartialForm(range, cur, node, updates);
    r := Children(PatchedKids(range, cur, node, updates), Empty);
    var priority := PatchedChild(range, cur, node, updates, PRIORITY);
    LosingRun(range, cur, node, updates, PatchedAll(range, cur, node, updates), priority);
  }

  lemma OtherPriority(range: Range, cur: Path, node: Node, updates: Node, priority: Node) returns (r: Node)
    requires Canonical(node) && Canonical(updates) && IsPartial(range, cur, updates)
    requires PatchedAreOutcomes(range, cur, node, updates) && UpdateRange(range, cur, node, updates) != Empty
    requires IsChildOutcome(range, cur, node, updates, PRIORITY, priority)
    requires priority != PatchedChild(range, cur, node, updates, PRIORITY)
    ensures IsOutcome(range, cur, node, updates, r) && r != UpdateRange(range, cur, node, updates)
  {
    PatchedAllAreResults(range, cur, node, updates);
    NonEmptyPatched(range, cur, node, updates);
    PartialForm(range, cur, node, updates);
    r := Assembled(node, PatchedKids(range, cur, node, updates), priority);
    KeepingRun(range, cur, node, updates, PatchedAll(range, cur, node, updates), priority);
  }

  lemma OtherChild(range: Range, cur: Path, node: Node, updates: Node, k: Key, child: Node) returns (r: Node)
    requires Canonical(node) && Canonical(updates) && IsPartial(range, cur, updates)
    requires PatchedAreOutcomes(range, cur, node, updates) && k in ChildKeys(node) + ChildKeys(updates)
    requires IsChildOutcome(range, cur, node, updates, k, child)
    requires child != PatchedChild(range, cur, node, updates, k)
    ensures IsOutcome(range, cur, node, updates, r) && r != UpdateRange(range, cur, node, updates)
  {
    PatchedAllAreResults(range, cur, node, updates);
    NonEmptyPatched(range, cur, node, updates);
    PartialForm(range, cur, node, updates);
    ChildOutcomeSharesData(range, cur, node, updates, k, child);
    var results := PatchedAll(range, cur, node, updates)[k := child];
    var priority := PatchedChild(range, cur, node, updates, PRIORITY);
    r := Assembled(node, NonEmpty(results), priority);
    KeepingRun(range, cur, node, updates, results, priority);
    DataIsPlain(child);
    PatchedIsCanonical(range, cur, node, updates, k);
    DataIsPlain(PatchedChild(range, cur, node, updates, k));
    assert k in NonEmpty(results) && NonEmpty(results)[k] == child;
  }

  /** Where the order matters the priority is kept or lost. */
  lemma KeptOrLost(range: Range, cur: Path, node: Node, updates: Node)
    requires Canonical(node) && Canonical(updates) && IsPartial(range, cur, updates)
    requires OrderMatters(range, cur, node, updates)
    ensures UpdateRange(range, cur, node, updates) == Children(PatchedKids(range, cur, node, updates), node.priority)
    ensures IsOutcome(range, cur, node, updates, Children(PatchedKids(range, cur, node, updates), node.priority))
    ensures IsOutcome(range, cur, node, updates, Children(PatchedKids(range, cur, node, updates), Empty))
  {
    PartialForm(range, cur, node, updates);
    UpdateRangeIsOutcome(range, cur, node, updates);
    PatchedChildrenAreOutcomes(range, cur, node, updates);
    var r := OtherOrder(range, cur, node, updates);
  }

  ghost predicate HasOneOutcome(range: Range, cur: Path, node: Node, updates: Node) {
    forall r :: IsOutcome(range, cur, node, updates, r) ==> r == UpdateRange(range, cur, node, updates)
  }

  /** The merge has one outcome, whatever the orders, exactly when the order matters nowhere on the way. */
  lemma OneOutcomeExact(range: Range, cur: Path, node: Node, updates: Node)
    requires Canonical(node) && Canonical(updates)
    ensures HasOneOutcome(range, cur, node, updates) <==> Determined(range, cur, node, updates)
  {
    if Determined(range, cur, node, updates) {
      forall r | IsOutcome(range, cur, node, updates, r) ensures r == UpdateRange(range, cur, node, updates) {
        DeterminedHasOne(range, cur, node, updates, r);
      }
    } else {
      var r := OtherOutcome(range, cur, node, updates);
    }
  }

  /* ---------- along the paths to the bounds ---------- */

  /** At a path to a bound an object keeps its priority and all its children are replaced. */
  predicate OrderMattersAt(range: Range, cur: Path, node: Node, updates: Node, p: Path) {
    && PlainPath(p) && IsPartial(range, cur + p, updates.GetChild(p))
    && OrderMatters(range, cur + p, node.GetChild(p), updates.GetChild(p))
  }

  ghost predicate OrderMattersSomewhere(range: Range, cur: Path, node: Node, updates: Node) {
    exists p :: OrderMattersAt(range, cur, node, updates, p)
  }

  lemma OrderMattersBelow(range: Range, cur: Path, node: Node, updates: Node, k: Key, p: Path)
    requires k != PRIORITY
    ensures OrderMattersAt(range, cur + [k], node.GetImmediateChild(k), updates.GetImmediateChild(k), p)
            <==> OrderMattersAt(range, cur, node, updates, [k] + p)
  {
    StepDown(node, k, p);
    StepDown(updates, k, p);
    assert cur + [k] + p == cur + ([k] + p);
    assert PlainPath([k] + p) <==> PlainPath(p);
  }

  /** The priority itself is a leaf or nothing, so no order matters in it. */
  lemma PriorityIsDetermined(range: Range, cur: Path, node: Node, updates: Node)
    requires IsPriority(node) && IsPriority(updates)
    ensures Determined(range, cur, node, updates)
  {
    if IsPartial(range, cur, updates) {
      EmptyUpdate(range, cur + [PRIORITY]);
      EmptyUpdate(range, cur + [PRIORITY] + [PRIORITY]);
    }
  }

  lemma {:induction false} NowhereIsDetermined(range: Range, cur: Path, node: Node, updates: Node)
    requires Canonical(node) && Canonical(updates) && LeafPriorities(node) && LeafPriorities(updates)
    requires !OrderMattersSomewhere(range, cur, node, updates)
    ensures Determined(range, cur, node, updates)
    decreases range.Reach() - |cur|
  {
    if IsPartial(range, cur, updates) {
      assert cur + [] == cur;
      assert !OrderMattersAt(range, cur, node, updates, []);
      forall k | k in ChildKeys(node) + ChildKeys(updates) ensures DeterminedChild(range, cur, node, updates, k) {
        forall p ensures !OrderMattersAt(range, cur + [k], node.GetImmediateChild(k), updates.GetImmediateChild(k), p) {
          OrderMattersBelow(range, cur, node, updates, k, p);
        }
        NowhereIsDetermined(range, cur + [k], node.GetImmediateChild(k), updates.GetImmediateChild(k));
      }
      PriorityIsDetermined(range, cur + [PRIORITY], node.GetPriority(), updates.GetPriority());
    }
  }

  lemma PartialAbove(range: Range, cur: Path, q: Path, updates: Node)
    requires (range.StartInNode(cur + q) || range.EndInNode(cur + q)) && q != [] && !updates.Leaf?
    ensures IsPartial(range, cur, updates)
  {
    BoundFacts(range, cur);
    if range.StartInNode(cur + q) {
      PrefixFirst(cur, range.start.value);
      PathTrichotomy(cur, range.start.value);
    } else {
      PrefixFirst(cur, range.end.value);
      PathTrichotomy(cur, range.end.value);
    }
  }

  lemma OrderMattersHere(range: Range, cur: Path, node: Node, updates: Node)
    requires Canonical(node) && IsPartial(range, cur, updates) && OrderMatters(range, cur, node, updates)
    ensures UpdateRange(range, cur, node, updates) != Empty && updates.Children?
  {
    PartialForm(range, cur, node, updates);
    var k :| k in PatchedKids(range, cur, node, updates);
    assert k in ChildKeys(updates);
  }

  lemma {:induction false} SomewhereIsUndetermined(range: Range, cur: Path, node: Node, updates: Node, p: Path)
    requires Canonical(node) && Canonical(updates) && OrderMattersAt(range, cur, node, updates, p)
    ensures IsPartial(range, cur, updates) && UpdateRange(range, cur, node, updates) != Empty && updates.Children?
    ensures !Determined(range, cur, node, updates)
    decreases p
  {
    if p == [] {
      assert cur + [] == cur;
      OrderMattersHere(range, cur, node, updates);
    } else {
      var k := p[0];
      assert p == [k] + p[1..] && k != PRIORITY;
      OrderMattersBelow(range, cur, node, updates, k, p[1..]);
      SomewhereIsUndetermined(range, cur + [k], node.GetImmediateChild(k), updates.GetImmediateChild(k), p[1..]);
      PartialAbove(range, cur, [k], updates);
      PartialForm(range, cur, node, updates);
      assert k in PatchedKids(range, cur, node, updates);
      assert !DeterminedChild(range, cur, node, updates, k);
    }
  }

  /**
   For trees whose priorities are leaves: a range merge has one outcome exactly when at no path to a bound an
   object keeps its priority while all its children are replaced.
   */
  lemma OneOutcomeAlongBounds(range: Range, node: Node, updates: Node)
    requires Canonical(node) && Canonical(updates) && LeafPriorities(node) && LeafPriorities(updates)
    ensures HasOneOutcome(range, [], node, updates) <==> forall p :: !OrderMattersAt(range, [], node, updates, p)
  {
    OneOutcomeExact(range, [], node, updates);
    if OrderMattersSomewhere(range, [], node, updates) {
      var p :| OrderMattersAt(range, [], node, updates, p);
      SomewhereIsUndetermined(range, [], node, updates, p);
    } else {
      NowhereIsDetermined(range, [], node, updates);
    }
  }

  /** Without priorities there is only one outcome. */
  lemma {:induction false} PlainHasOneOutcome(range: Range, cur: Path, node: Node, updates: Node, r: Node)
    requires Plain(node) && Plain(updates) && IsOutcome(range, cur, node, updates, r)
    ensures r == UpdateRange(range, cur, node, updates)
  {
    forall p ensures !OrderMattersAt(range, cur, node, updates, p) {
      PlainIsCanonical(node);
      GetKeepsCanonical(node, p);
    }
    PlainIsCanonical(node);
    PlainIsCanonical(updates);
    PlainHasLeafPriorities(node);
    PlainHasLeafPriorities(updates);
    NowhereIsDetermined(range, cur, node, updates);
    DeterminedHasOne(range, cur, node, updates, r);
  }

  lemma {:induction false} PlainHasLeafPriorities(n: Node)
    requires Plain(n)
    ensures LeafPriorities(n)
  {
    if n.Children? {
      forall k | k in n.kids ensures LeafPriorities(n.kids[k]) {
        PlainHasLeafPriorities(n.kids[k]);
      }
    }
  }
}
