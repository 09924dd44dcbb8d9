/**
 The loop of a range merge at one node (FRangeMerge.swift): the child set is visited in any order, the node is
 rebuilt one child at a time and the priority comes last. A node that is emptied on the way has lost its
 priority, so the order can matter; it is told exactly when.
 */
module RangeLoops {
  import opened Keys
  import opened Nodes
  import opened Ranges

  /** One visit: the node being rebuilt is written only when the child changed. */
  function PatchStep(node: Node, newNode: Node, k: Key, child: Node): Node {
    if child != node.GetImmediateChild(k) then newNode.UpdateImmediateChild(k, child) else newNode
  }

  /** The visits of `keys`, where the recursion has answered `results`. */
  function PatchKids(node: Node, results: map<Key, Node>, keys: seq<Key>): Node
    requires forall k :: k in keys ==> k in results
  {
    if keys == [] then node
    else
      var k := keys[|keys| - 1];
      PatchStep(node, PatchKids(node, results, keys[..|keys| - 1]), k, results[k])
  }

  ghost predicate Enumerates(keys: seq<Key>, s: set<Key>) {
    && (forall k :: k in keys <==> k in s)
    && (forall i, j :: 0 <= i < j < |keys| ==> keys[i] != keys[j])
  }

  /** The answers of the recursion for the children of a canonical node. */
  ghost predicate AreResults(results: map<Key, Node>) {
    PRIORITY !in results && forall k :: k in results ==> Canonical(results[k])
  }

  lemma PriorityAfterUpdate(n: Node, k: Key, child: Node)
    requires Canonical(n) && Canonical(child) && k != PRIORITY
    ensures var r := n.UpdateImmediateChild(k, child);
            r.GetPriority() == if r == Empty then Empty else n.GetPriority()
  {
  }

  ghost predicate Visited(node: Node, results: map<Key, Node>, keys: seq<Key>, newNode: Node, k: Key)
    requires forall k :: k in keys ==> k in results
  {
    newNode.GetImmediateChild(k) == if k in keys then results[k] else node.GetImmediateChild(k)
  }

  /** Visited children are patched, the others are still those of the node; a leaf stays or becomes an object. */
  lemma {:induction false} AfterVisits(node: Node, results: map<Key, Node>, keys: seq<Key>)
    requires Canonical(node) && AreResults(results) && forall k :: k in keys ==> k in results
    ensures var newNode := PatchKids(node, results, keys);
            && Canonical(newNode)
            && (forall k: Key | k != PRIORITY :: Visited(node, results, keys, newNode, k))
            && (newNode.Leaf? ==> newNode == node)
            && (node.Leaf? && !newNode.Leaf? ==> newNode.Children?)
    decreases keys
  {
    if keys != [] {
      var init, k := keys[..|keys| - 1], keys[|keys| - 1];
      assert keys == init + [k];
      AfterVisits(node, results, init);
      var before := PatchKids(node, results, init);
      WithChildShape(before, k, results[k]);
      forall j: Key | j != PRIORITY ensures Visited(node, results, keys, PatchKids(node, results, keys), j) {
        assert Visited(node, results, init, before, j) && Visited(node, results, init, before, k);
        ChildAfterUpdate(before, k, results[k], j);
      }
    }
  }

  /** The node was nothing before, between or after the visits. */
  predicate EmptiedAlong(node: Node, results: map<Key, Node>, keys: seq<Key>)
    requires forall k :: k in keys ==> k in results
  {
    PatchKids(node, results, keys) == Empty || (keys != [] && EmptiedAlong(node, results, keys[..|keys| - 1]))
  }

  /** The priority is lost exactly when the node was nothing in between. */
  lemma {:induction false} PriorityAfterVisits(node: Node, results: map<Key, Node>, keys: seq<Key>)
    requires Canonical(node) && AreResults(results) && forall k :: k in keys ==> k in results
    ensures PatchKids(node, results, keys).GetPriority()
            == if EmptiedAlong(node, results, keys) then Empty else node.GetPriority()
    decreases keys
  {
    if keys != [] {
      var init, k := keys[..|keys| - 1], keys[|keys| - 1];
      PriorityAfterVisits(node, results, init);
      AfterVisits(node, results, init);
      PriorityAfterUpdate(PatchKids(node, results, init), k, results[k]);
    }
  }

  function NonEmpty(results: map<Key, Node>): map<Key, Node> {
    map k | k in results && results[k] != Empty :: results[k]
  }

  /** The whole loop: the children, then the priority. */
  function Rebuilt(node: Node, results: map<Key, Node>, keys: seq<Key>, priority: Node): Node
    requires forall k :: k in keys ==> k in results
  {
    PatchStep(node, PatchKids(node, results, keys), PRIORITY, priority)
  }

  /** What is left in the end: the children never depend on the order, the priority may. */
  lemma RebuiltForm(node: Node, results: map<Key, Node>, keys: seq<Key>, priority: Node)
    requires Canonical(node) && AreResults(results) && ChildKeys(node) <= results.Keys && Enumerates(keys, results.Keys)
    ensures Rebuilt(node, results, keys, priority)
            == Assembled(node, NonEmpty(results),
                 if priority == node.GetPriority() && EmptiedAlong(node, results, keys) then Empty else priority)
  {
    var newNode := PatchKids(node, results, keys);
    AfterVisits(node, results, keys);
    PriorityAfterVisits(node, results, keys);
    ChildrenLeft(node, results, keys);
    if newNode.Leaf? && EmptiedAlong(node, results, keys) {
      LeafIsNeverEmptied(node, results, keys);
    }
  }

  lemma ChildrenLeft(node: Node, results: map<Key, Node>, keys: seq<Key>)
    requires Canonical(node) && AreResults(results) && ChildKeys(node) <= results.Keys && Enumerates(keys, results.Keys)
    ensures var newNode := PatchKids(node, results, keys);
            if newNode.Children? then newNode.kids == NonEmpty(results) else NonEmpty(results) == map[]
  {
    var newNode, kids := PatchKids(node, results, keys), NonEmpty(results);
    AfterVisits(node, results, keys);
    forall k: Key
      ensures k in ChildKeys(newNode) <==> k in kids
      ensures k in kids ==> newNode.GetImmediateChild(k) == kids[k]
    {
      assert k == PRIORITY || Visited(node, results, keys, newNode, k);
    }
  }

  lemma {:induction false} LeafIsNeverEmptied(node: Node, results: map<Key, Node>, keys: seq<Key>)
    requires Canonical(node) && node.Leaf? && AreResults(results) && forall k :: k in keys ==> k in results
    ensures !EmptiedAlong(node, results, keys)
    decreases keys
  {
    AfterVisits(node, results, keys);
    if keys != [] {
      LeafIsNeverEmptied(node, results, keys[..|keys| - 1]);
    }
  }

  /* ---------- when the node is emptied along an order ---------- */

  /** Only a node that loses all its children can be emptied. */
  lemma {:induction false} EmptiedLosesAll(node: Node, results: map<Key, Node>, keys: seq<Key>, k: Key)
    requires Canonical(node) && AreResults(results) && forall k :: k in keys ==> k in results
    requires EmptiedAlong(node, results, keys) && k in ChildKeys(node)
    ensures k in results && results[k] == Empty
    decreases keys
  {
    if PatchKids(node, results, keys) == Empty {
      AfterVisits(node, results, keys);
      assert Visited(node, results, keys, Empty, k);
    } else {
      EmptiedLosesAll(node, results, keys[..|keys| - 1], k);
    }
  }

  /** A survivor visited first keeps the node from being emptied. */
  lemma {:induction false} SurvivorFirst(node: Node, results: map<Key, Node>, keys: seq<Key>)
    requires Canonical(node) && AreResults(results) && forall k :: k in keys ==> k in results
    requires node != Empty && (keys != [] ==> results[keys[0]] != Empty)
    ensures !EmptiedAlong(node, results, keys)
    decreases keys
  {
    if keys != [] {
      SurvivorFirst(node, results, keys[..|keys| - 1]);
      AfterVisits(node, results, keys);
      assert Visited(node, results, keys, PatchKids(node, results, keys), keys[0]);
    }
  }

  lemma AllGone(node: Node, results: map<Key, Node>, gone: seq<Key>)
    requires Canonical(node) && node.Children? && AreResults(results) && forall k :: k in gone ==> k in results
    requires Enumerates(gone, ChildKeys(node)) && forall k :: k in gone ==> results[k] == Empty
    ensures PatchKids(node, results, gone) == Empty
  {
    var k :| k in node.kids;
    GoneAtKey(node, results, gone, k);
    forall j: Key ensures j !in ChildKeys(PatchKids(node, results, gone)) {
      GoneAtKey(node, results, gone, j);
    }
    AfterVisits(node, results, gone);
  }

  lemma GoneAtKey(node: Node, results: map<Key, Node>, gone: seq<Key>, k: Key)
    requires Canonical(node) && AreResults(results) && forall k :: k in gone ==> k in results
    requires Enumerates(gone, ChildKeys(node)) && forall k :: k in gone ==> results[k] == Empty
    ensures PatchKids(node, results, gone) != node || k !in ChildKeys(node)
    ensures k !in ChildKeys(PatchKids(node, results, gone))
  {
    var newNode := PatchKids(node, results, gone);
    AfterVisits(node, results, gone);
    assert k == PRIORITY || Visited(node, results, gone, newNode, k);
  }

  /** Visiting all children of the node first, when none is kept, empties it. */
  lemma DeletionsFirst(node: Node, results: map<Key, Node>, gone: seq<Key>, rest: seq<Key>)
    requires Canonical(node) && node.Children? && AreResults(results)
    requires forall k :: k in gone + rest ==> k in results
    requires Enumerates(gone, ChildKeys(node)) && forall k :: k in gone ==> results[k] == Empty
    ensures EmptiedAlong(node, results, gone + rest)
  {
    forall k | k in gone ensures k in results {
      assert k in gone + rest;
    }
    AllGone(node, results, gone);
    EmptiedEarlier(node, results, gone, rest);
  }

  lemma {:induction false} EmptiedEarlier(node: Node, results: map<Key, Node>, keys: seq<Key>, rest: seq<Key>)
    requires (forall k :: k in keys ==> k in results) && (forall k :: k in keys + rest ==> k in results)
    requires EmptiedAlong(node, results, keys)
    ensures EmptiedAlong(node, results, keys + rest)
    decreases rest
  {
    if rest == [] {
      assert keys + rest == keys;
    } else {
      var init := rest[..|rest| - 1];
      assert (keys + rest)[..|keys + rest| - 1] == keys + init;
      EmptiedEarlier(node, results, keys, init);
    }
  }

  /* ---------- orders of a set ---------- */

  lemma {:induction false} SomeOrder(s: set<Key>) returns (keys: seq<Key>)
    ensures Enumerates(keys, s)
    decreases s
  {
    if s == {} {
      keys := [];
    } else {
      var k :| k in s;
      var rest := SomeOrder(s - {k});
      keys := [k] + rest;
    }
  }

  /** The keys of `first` before the others. */
  lemma OrderStarting(first: set<Key>, s: set<Key>) returns (keys: seq<Key>, rest: seq<Key>)
    requires first <= s
    ensures Enumerates(keys, first) && Enumerates(keys + rest, s)
  {
    keys := SomeOrder(first);
    rest := SomeOrder(s - first);
    forall i, j | 0 <= i < j < |keys + rest| ensures (keys + rest)[i] != (keys + rest)[j] {
      if i < |keys| <= j {
        assert keys[i] in keys && rest[j - |keys|] in rest;
      }
    }
  }

  /** An order that does not lose the priority of a node of which something is left. */
  lemma KeepingOrder(node: Node, results: map<Key, Node>) returns (keys: seq<Key>)
    requires Canonical(node) && AreResults(results)
    requires node != Empty && (node.Leaf? || NonEmpty(results) != map[])
    ensures Enumerates(keys, results.Keys) && !EmptiedAlong(node, results, keys)
  {
    var first, rest := OrderStarting(NonEmpty(results).Keys, results.Keys);
    keys := first + rest;
    if node.Leaf? {
      LeafIsNeverEmptied(node, results, keys);
    } else {
      var k :| k in NonEmpty(results);
      assert k in first && first[0] in first && keys[0] == first[0];
      SurvivorFirst(node, results, keys);
    }
  }

  /* ---------- when the order matters ---------- */

  /** The node keeps its priority and none of its children, and gets new ones. */
  predicate Replaced(node: Node, results: map<Key, Node>, priority: Node) {
    && node.Children? && node.priority != Empty && priority == node.priority
    && (forall k :: k in node.kids && k in results ==> results[k] == Empty)
    && NonEmpty(results) != map[]
  }

  lemma OrderIrrelevant(node: Node, results: map<Key, Node>, keys: seq<Key>, priority: Node)
    requires Canonical(node) && AreResults(results) && ChildKeys(node) <= results.Keys && Enumerates(keys, results.Keys)
    requires !Replaced(node, results, priority)
    ensures Rebuilt(node, results, keys, priority) == Assembled(node, NonEmpty(results), priority)
  {
    RebuiltForm(node, results, keys, priority);
    if priority == node.GetPriority() && EmptiedAlong(node, results, keys) {
      if node.Leaf? {
        LeafIsNeverEmptied(node, results, keys);
      }
      forall k | k in ChildKeys(node) ensures results[k] == Empty {
        EmptiedLosesAll(node, results, keys, k);
      }
    }
  }

  /** Some order keeps the priority. */
  lemma SomeOrderKeeps(node: Node, results: map<Key, Node>, priority: Node) returns (keys: seq<Key>)
    requires Canonical(node) && AreResults(results) && ChildKeys(node) <= results.Keys
    ensures Enumerates(keys, results.Keys)
    ensures Rebuilt(node, results, keys, priority) == Assembled(node, NonEmpty(results), priority)
  {
    if node != Empty && (node.Leaf? || NonEmpty(results) != map[]) {
      keys := KeepingOrder(node, results);
    } else {
      keys := SomeOrder(results.Keys);
    }
    RebuiltForm(node, results, keys, priority);
  }

  /** Some order loses the priority of a node whose children are all replaced. */
  lemma SomeOrderLoses(node: Node, results: map<Key, Node>, priority: Node) returns (keys: seq<Key>)
    requires Canonical(node) && AreResults(results) && ChildKeys(node) <= results.Keys
    requires Replaced(node, results, priority)
    ensures Enumerates(keys, results.Keys)
    ensures Rebuilt(node, results, keys, priority) == Children(NonEmpty(results), Empty)
  {
    var gone, rest := OrderStarting(ChildKeys(node), results.Keys);
    keys := gone + rest;
    DeletionsFirst(node, results, gone, rest);
    RebuiltForm(node, results, keys, priority);
  }

  /** Every order of the visits leaves `r`. */
  ghost predicate AllOrdersLeave(node: Node, results: map<Key, Node>, priority: Node, r: Node) {
    forall keys | Enumerates(keys, results.Keys) :: Rebuilt(node, results, keys, priority) == r
  }

  lemma OrdersExact(node: Node, results: map<Key, Node>, priority: Node)
    requires Canonical(node) && AreResults(results) && ChildKeys(node) <= results.Keys
    ensures AllOrdersLeave(node, results, priority, Assembled(node, NonEmpty(results), priority))
            <==> !Replaced(node, results, priority)
  {
    if Replaced(node, results, priority) {
      var keys := SomeOrderLoses(node, results, priority);
    } else {
      forall keys | Enumerates(keys, results.Keys)
        ensures Rebuilt(node, results, keys, priority) == Assembled(node, NonEmpty(results), priority)
      {
        OrderIrrelevant(node, results, keys, priority);
      }
    }
  }
}
