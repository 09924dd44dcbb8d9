/**
 Range merges (FRangeMerge.swift): replace the content of an interval of paths of a tree. The recursion as
 written, with its loop over the children in any order, leaves one of the outcomes that are told beforehand.
 */
module RangeMerges {
  import opened Options
  import opened Keys
  import opened Paths
  import opened Nodes
  import opened Ranges
  import opened RangeLoops
  import opened RangeOutcomes

  datatype RangeMerge = RangeMerge(range: Range, updates: Node)

  /** The recursion: the child keys are visited in any order and the node is rebuilt one child at a time. */
  method UpdateRangeInNode(range: Range, cur: Path, node: Node, updates: Node) returns (r: Node)
    ensures IsAnswer(range, cur, node, updates, r)
    ensures Plain(node) && Plain(updates) ==> r == UpdateRange(range, cur, node, updates)
    decreases range.Reach() - |cur|, 1
  {
    var startComparison, endComparison := range.StartComparison(cur), range.EndComparison(cur);
    var startInNode, endInNode := range.StartInNode(cur), range.EndInNode(cur);
    BoundFacts(range, cur);
    if startComparison == Descending && endComparison == Ascending && !endInNode {
      // every path below lies in the interval
      return updates;
    } else if startComparison == Descending && endInNode && updates.Leaf? {
      return updates;
    } else if startComparison == Descending && endComparison == Same {
      assert endInNode;
      assert !updates.Leaf?;
      return if node.Leaf? then Empty else node;
    } else if startInNode || endInNode {
      r := UpdateChildren(range, cur, node, updates);
      PlainAnswer(range, cur, node, updates, r);
    } else {
      assert endComparison == Descending || startComparison != Descending;
      return node;
    }
  }

  /** The loop at a partial node; the priority is patched after the children, while there still is a node. */
  method UpdateChildren(range: Range, cur: Path, node: Node, updates: Node) returns (newNode: Node)
    requires IsPartial(range, cur, updates)
    ensures IsAnswer(range, cur, node, updates, newNode)
    decreases range.Reach() - |cur|, 0
  {
    var allChildren := ChildKeys(node) + ChildKeys(updates);
    newNode := node;
    var todo := allChildren;
    ghost var keys: seq<Key>, results: map<Key, Node> := [], map[];
    while todo != {}
      invariant todo <= allChildren
      invariant IsVisited(range, cur, node, updates, allChildren - todo, keys, results)
      invariant newNode == PatchKids(node, results, keys)
    {
      var key :| key in todo;
      var currentChild := node.GetImmediateChild(key);
      var updatedChild := UpdateRangeInNode(range, cur + [key], currentChild, updates.GetImmediateChild(key));
      OneMoreVisit(range, cur, node, updates, allChildren - todo, keys, results, key, updatedChild);
      OneMorePatch(node, results, keys, key, updatedChild);
      assert allChildren - todo + {key} == allChildren - (todo - {key});
      if updatedChild != currentChild {
        newNode := newNode.UpdateImmediateChild(key, updatedChild);
      }
      todo, keys, results := todo - {key}, keys + [key], results[key := updatedChild];
    }
    assert allChildren - todo == allChildren;
    ghost var priority := node.GetPriority();
    if !updates.GetPriority().IsEmpty() || !node.GetPriority().IsEmpty() {
      var currentChild := node.GetImmediateChild(PRIORITY);
      var updatedChild := UpdateRangeInNode(range, cur + [PRIORITY], currentChild, updates.GetImmediateChild(PRIORITY));
      if updatedChild != currentChild {
        newNode := newNode.UpdateImmediateChild(PRIORITY, updatedChild);
      }
      priority := updatedChild;
    } else {
      NoPriority(range, cur, node, updates);
    }
    LoopLeavesOutcome(range, cur, node, updates, keys, results, priority);
  }

  /** Of canonical trees, an outcome. */
  ghost predicate IsAnswer(range: Range, cur: Path, node: Node, updates: Node, child: Node) {
    Canonical(node) && Canonical(updates) ==> Canonical(child) && IsOutcome(range, cur, node, updates, child)
  }

  lemma PlainAnswer(range: Range, cur: Path, node: Node, updates: Node, r: Node)
    requires IsAnswer(range, cur, node, updates, r)
    ensures Plain(node) && Plain(updates) ==> r == UpdateRange(range, cur, node, updates)
  {
    if Plain(node) && Plain(updates) {
      PlainIsCanonical(node);
      PlainIsCanonical(updates);
      PlainHasOneOutcome(range, cur, node, updates, r);
    }
  }

  /** The children in `done` were visited in the order of `keys`, and the recursion has answered `results`. */
  ghost predicate IsVisited(range: Range, cur: Path, node: Node, updates: Node,
                            done: set<Key>, keys: seq<Key>, results: map<Key, Node>)
    requires IsPartial(range, cur, updates)
  {
    && results.Keys == done && Enumerates(keys, done)
    && (Canonical(node) && Canonical(updates) ==>
          AreResults(results) && forall k :: k in results ==> IsChildOutcome(range, cur, node, updates, k, results[k]))
  }

  lemma OneMoreVisit(range: Range, cur: Path, node: Node, updates: Node,
                     done: set<Key>, keys: seq<Key>, results: map<Key, Node>, key: Key, child: Node)
    requires IsPartial(range, cur, updates) && IsVisited(range, cur, node, updates, done, keys, results)
    requires key in ChildKeys(node) + ChildKeys(updates) && key !in done
    requires IsAnswer(range, cur + [key], node.GetImmediateChild(key), updates.GetImmediateChild(key), child)
    ensures IsVisited(range, cur, node, updates, done + {key}, keys + [key], results[key := child])
  {
    if Canonical(node) && Canonical(updates) {
      assert IsChildOutcome(range, cur, node, updates, key, child);
    }
  }

  lemma OneMorePatch(node: Node, results: map<Key, Node>, keys: seq<Key>, key: Key, child: Node)
    requires key !in results && Enumerates(keys, results.Keys)
    ensures Enumerates(keys + [key], results[key := child].Keys)
    ensures PatchKids(node, results[key := child], keys + [key])
            == PatchStep(node, PatchKids(node, results, keys), key, child)
  {
    assert (keys + [key])[..|keys + [key]| - 1] == keys;
    OtherResult(node, results, keys, key, child);
  }

  /** The answer for a key that is not visited plays no role. */
  lemma {:induction false} OtherResult(node: Node, results: map<Key, Node>, keys: seq<Key>, key: Key, child: Node)
    requires key !in keys && forall k :: k in keys ==> k in results
    ensures PatchKids(node, results[key := child], keys) == PatchKids(node, results, keys)
    decreases keys
  {
    if keys != [] {
      OtherResult(node, results, keys[..|keys| - 1], key, child);
    }
  }

  /** A priority that neither tree has needs no visit. */
  lemma NoPriority(range: Range, cur: Path, node: Node, updates: Node)
    requires updates.GetPriority().IsEmpty() && node.GetPriority().IsEmpty()
    ensures IsAnswer(range, cur + [PRIORITY], node.GetPriority(), updates.GetPriority(), node.GetPriority())
  {
    UpdateRangeIsOutcome(range, cur + [PRIORITY], Empty, Empty);
    EmptyUpdate(range, cur + [PRIORITY]);
  }

  lemma LoopLeavesOutcome(range: Range, cur: Path, node: Node, updates: Node,
                          keys: seq<Key>, results: map<Key, Node>, priority: Node)
    requires IsPartial(range, cur, updates)
    requires IsVisited(range, cur, node, updates, ChildKeys(node) + ChildKeys(updates), keys, results)
    requires IsAnswer(range, cur + [PRIORITY], node.GetPriority(), updates.GetPriority(), priority)
    ensures IsAnswer(range, cur, node, updates, Rebuilt(node, results, keys, priority))
  {
    if Canonical(node) && Canonical(updates) {
      var r := Rebuilt(node, results, keys, priority);
      assert IsChildOutcome(range, cur, node, updates, PRIORITY, priority);
      assert IsRun(range, cur, node, updates, keys, results, priority, r);
      OutcomesShareData(range, cur, node, updates, r);
    }
  }

  /* ---------- an order that loses the priority ---------- */

  /** Up to an end beside it, a child is replaced by the update's. */
  lemma ReplacedBeforeEnd(range: Range, cur: Path, node: Node, updates: Node, k: Key, z: Key)
    requires range == Range(None, Some([z])) && cur == [] && KeyLess(k, z)
    requires IsPartial(range, cur, updates)
    ensures PatchedChild(range, cur, node, updates, k) == updates.GetImmediateChild(k)
  {
    KeyOrderTotal(k, z);
    assert (cur + [k])[0] != [z][0];
  }

  lemma ChildrenReplaced(range: Range, cur: Path, node: Node, updates: Node, a: Key, b: Key)
    requires IsPartial(range, cur, updates) && a != b && node.Children? && updates.Children? && node.priority != Empty
    requires node.kids.Keys == {a} && updates.kids.Keys == {b} && updates.kids[b] != Empty
    requires PatchedChild(range, cur, node, updates, a) == Empty
    requires PatchedChild(range, cur, node, updates, b) == updates.kids[b]
    requires PatchedChild(range, cur, node, updates, PRIORITY) == node.priority
    ensures PatchedKids(range, cur, node, updates) == updates.kids
    ensures OrderMatters(range, cur, node, updates)
  {
    assert b in PatchedKids(range, cur, node, updates);
  }

  /**
   With priorities the order of the child set can decide the result: a merge deletes "a" and adds "b" and leaves
   the priority as it is. Deleting first loses the priority, adding first keeps it.
   */
  lemma OrderDecidesPriority(a: Key, b: Key, z: Key, x: LeafValue, p: LeafValue)
    requires a != b && a != PRIORITY && b != PRIORITY && KeyLess(a, z) && KeyLess(b, z) && KeyLess(PRIORITY, z)
    ensures var range, leaf, prio := Range(None, Some([z])), Leaf(x, Empty), Leaf(p, Empty);
            var node, updates := Children(map[a := leaf], prio), Children(map[b := leaf], prio);
            && OrderMattersAt(range, [], node, updates, [])
            && UpdateRange(range, [], node, updates) == Children(map[b := leaf], prio)
            && IsOutcome(range, [], node, updates, Children(map[b := leaf], prio))
            && IsOutcome(range, [], node, updates, Children(map[b := leaf], Empty))
  {
    var leaf, prio := Leaf(x, Empty), Leaf(p, Empty);
    var node, updates := Children(map[a := leaf], prio), Children(map[b := leaf], prio);
    assert node.kids.Keys == {a} && updates.kids.Keys == {b};
    BothOutcomes(Range(None, Some([z])), [], node, updates, a, b, z);
  }

  lemma BothOutcomes(range: Range, cur: Path, node: Node, updates: Node, a: Key, b: Key, z: Key)
    requires range == Range(None, Some([z])) && cur == []
    requires a != b && KeyLess(a, z) && KeyLess(b, z) && KeyLess(PRIORITY, z)
    requires Canonical(node) && Canonical(updates) && node.Children? && updates.Children?
    requires node.kids.Keys == {a} && updates.kids.Keys == {b} && node.priority == updates.priority != Empty
    ensures OrderMattersAt(range, cur, node, updates, [])
    ensures UpdateRange(range, cur, node, updates) == updates
    ensures IsOutcome(range, cur, node, updates, updates)
    ensures IsOutcome(range, cur, node, updates, Children(updates.kids, Empty))
  {
    assert IsPartial(range, cur, updates) && cur + [] == cur;
    ReplacedBeforeEnd(range, cur, node, updates, a, z);
    ReplacedBeforeEnd(range, cur, node, updates, b, z);
    ReplacedBeforeEnd(range, cur, node, updates, PRIORITY, z);
    ChildrenReplaced(range, cur, node, updates, a, b);
    KeptOrLost(range, cur, node, updates);
  }
}
