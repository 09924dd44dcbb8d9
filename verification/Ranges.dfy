/**
 Intervals of paths, and what a range merge makes of a tree when no priority is lost on the way
 (FRangeMerge.swift): the recursion as a function, with the children patched side by side.
 */
module Ranges {
  import opened Options
  import opened Keys
  import opened Paths
  import opened Nodes

  /** An interval of paths, without its start and with its end; `None` is unbounded. */
  datatype Range = Range(start: Option<Path>, end: Option<Path>) {
    predicate AfterStart(p: Path) {
      start.Some? ==> PathLess(start.value, p)
    }

    predicate UpToEnd(p: Path) {
      end.Some? ==> !PathLess(end.value, p)
    }

    predicate Includes(p: Path) {
      AfterStart(p) && UpToEnd(p)
    }

    predicate AboveEnd(p: Path) {
      end.Some? && StrictlyAbove(p, end.value)
    }

    /** A bound on the depth at which a bound of the interval lies below the current path. */
    function Reach(): nat {
      var s := if start.Some? then |start.value| else 0;
      var e := if end.Some? then |end.value| else 0;
      if s < e then e else s
    }

    function StartComparison(p: Path): Comparison {
      if start.Some? then ComparePath(p, start.value) else Descending
    }

    function EndComparison(p: Path): Comparison {
      if end.Some? then ComparePath(p, end.value) else Ascending
    }

    predicate StartInNode(p: Path) {
      start.Some? && Contains(p, start.value)
    }

    predicate EndInNode(p: Path) {
      end.Some? && Contains(p, end.value)
    }
  }

  lemma BoundFacts(range: Range, p: Path)
    ensures range.StartComparison(p) == Descending <==> range.AfterStart(p)
    ensures range.EndComparison(p) != Descending <==> range.UpToEnd(p)
    ensures range.EndComparison(p) == Same ==> range.end == Some(p)
    ensures range.StartComparison(p) == Same ==> range.start == Some(p)
    ensures range.EndInNode(p) <==> range.AboveEnd(p) || range.end == Some(p)
  {
    if range.start.Some? {
      ComparePathAntisymmetric(p, range.start.value);
      ComparePathTotal(p, range.start.value);
    }
    if range.end.Some? {
      ComparePathAntisymmetric(p, range.end.value);
      ComparePathTotal(p, range.end.value);
    }
  }

  /* ---------- the recursion ---------- */

  function ChildKeys(n: Node): set<Key> {
    if n.Children? then n.kids.Keys else {}
  }

  function UpdateRange(range: Range, cur: Path, node: Node, updates: Node): Node
    decreases range.Reach() - |cur|, 2
  {
    var s, e := range.StartComparison(cur), range.EndComparison(cur);
    if s == Descending && e == Ascending && !range.EndInNode(cur) then updates
    else if s == Descending && range.EndInNode(cur) && updates.Leaf? then updates
    else if s == Descending && e == Same then (if node.Leaf? then Empty else node)
    else if range.StartInNode(cur) || range.EndInNode(cur) then
      Assembled(node, PatchedKids(range, cur, node, updates), PatchedChild(range, cur, node, updates, PRIORITY))
    else node
  }

  /** The patched child at a key; the priority is patched like a child. */
  function PatchedChild(range: Range, cur: Path, node: Node, updates: Node, k: Key): Node
    requires range.StartInNode(cur) || range.EndInNode(cur)
    decreases range.Reach() - |cur|, 0
  {
    UpdateRange(range, cur + [k], node.GetImmediateChild(k), updates.GetImmediateChild(k))
  }

  function PatchedKids(range: Range, cur: Path, node: Node, updates: Node): map<Key, Node>
    requires range.StartInNode(cur) || range.EndInNode(cur)
    decreases range.Reach() - |cur|, 1
  {
    map k | k in ChildKeys(node) + ChildKeys(updates) && PatchedChild(range, cur, node, updates, k) != Empty
    :: PatchedChild(range, cur, node, updates, k)
  }

  /** The children that are left of a node; a leaf without children stays a leaf. */
  function Assembled(node: Node, kids: map<Key, Node>, priority: Node): Node {
    if kids != map[] then Children(kids, priority) else if node.Leaf? then Leaf(node.value, priority) else Empty
  }

  /** The guard of the branch that patches the children one by one. */
  predicate IsPartial(range: Range, cur: Path, updates: Node) {
    && (range.StartInNode(cur) || range.EndInNode(cur))
    && !(range.StartComparison(cur) == Descending && range.EndComparison(cur) == Ascending && !range.EndInNode(cur))
    && !(range.StartComparison(cur) == Descending && range.EndInNode(cur) && updates.Leaf?)
    && !(range.StartComparison(cur) == Descending && range.EndComparison(cur) == Same)
  }

  lemma PartialForm(range: Range, cur: Path, node: Node, updates: Node)
    requires IsPartial(range, cur, updates)
    ensures UpdateRange(range, cur, node, updates)
            == Assembled(node, PatchedKids(range, cur, node, updates), PatchedChild(range, cur, node, updates, PRIORITY))
  {
  }

  lemma EmptyUpdate(range: Range, cur: Path)
    ensures UpdateRange(range, cur, Empty, Empty) == Empty
  {
  }

  lemma AssembledIsCanonical(node: Node, kids: map<Key, Node>, priority: Node)
    requires Canonical(priority) && PRIORITY !in kids && forall k :: k in kids ==> kids[k] != Empty && Canonical(kids[k])
    ensures Canonical(Assembled(node, kids, priority))
  {
  }

  lemma {:induction false} UpdateRangeIsCanonical(range: Range, cur: Path, node: Node, updates: Node)
    requires Canonical(node) && Canonical(updates)
    ensures Canonical(UpdateRange(range, cur, node, updates))
    decreases range.Reach() - |cur|
  {
    if IsPartial(range, cur, updates) {
      forall k: Key ensures Canonical(PatchedChild(range, cur, node, updates, k)) {
        UpdateRangeIsCanonical(range, cur + [k], node.GetImmediateChild(k), updates.GetImmediateChild(k));
      }
      PartialForm(range, cur, node, updates);
      AssembledIsCanonical(node, PatchedKids(range, cur, node, updates), PatchedChild(range, cur, node, updates, PRIORITY));
    }
  }
}
