/**
 What a range merge does, leaf by leaf, and what follows: when it meets its documented meaning, how
 adjacent merges compose, and that a server's reply to a list of posts turns a stale tree into its own.
 */
module RangeLaws {
  import opened Options
  import opened Keys
  import opened Paths
  import opened Nodes
  import opened LeafViews
  import opened Ranges

  predicate Comparable(p: Path, q: Path) {
    Contains(p, q) || Contains(q, p)
  }

  /** Some leaf of the update lies inside the range, above, at or below `p`. */
  ghost predicate Overruled(range: Range, cur: Path, updates: Node, p: Path) {
    exists u: Path :: IsLeafPath(updates, u) && range.Includes(cur + u) && Comparable(u, p)
  }

  /**
   The leaf of the result at `cur + p`: the update's leaves inside the range win over everything
   comparable to them; a leaf of the node inside the range goes, unless it lies strictly above the
   end of the range; every other leaf of the node stays.
   */
  ghost function Patched(range: Range, cur: Path, node: Node, updates: Node, p: Path): Option<LeafValue> {
    if range.Includes(cur + p) && IsLeafPath(updates, p) then LeafAt(updates, p)
    else if Overruled(range, cur, updates, p) then None
    else if range.Includes(cur + p) && !range.AboveEnd(cur + p) then None
    else LeafAt(node, p)
  }

  /* ---------- the geometry of a range ---------- */

  /** Everything below a path after the start is after the start. */
  lemma AfterStartBelow(range: Range, cur: Path, p: Path)
    requires range.AfterStart(cur)
    ensures range.AfterStart(cur + p)
  {
    assert p == [] ==> cur + p == cur;
    if range.start.Some? && p != [] {
      PrefixFirst(cur, cur + p);
      PathLessTransitive(range.start.value, cur, cur + p);
    }
  }

  /** Below a path before the end that does not contain the end, everything is before the end. */
  lemma UpToEndBelow(range: Range, cur: Path, p: Path)
    requires range.UpToEnd(cur) && !range.EndInNode(cur)
    ensures range.UpToEnd(cur + p) && !range.AboveEnd(cur + p)
  {
    if range.end.Some? {
      var e := range.end.value;
      PathTrichotomy(cur, e);
      if Contains(e, cur) {
        PrefixFirst(e, cur);
      }
      OrderSurvivesExtension(cur, e, p, []);
      assert e + [] == e;
      PathTrichotomy(cur + p, e);
      if Contains(cur + p, e) {
        assert Contains(cur, e);
      }
    }
  }

  /** Below a path that neither lies in the range nor contains one of its bounds, nothing is in the range. */
  lemma OutsideBelow(range: Range, cur: Path, p: Path)
    requires (!range.AfterStart(cur) && !range.StartInNode(cur))
             || !range.UpToEnd(cur)
    ensures !range.Includes(cur + p)
  {
    assert p == [] ==> cur + p == cur;
    if !range.UpToEnd(cur) {
      var e := range.end.value;
      PathTrichotomy(e, cur);
      if p != [] {
        PrefixFirst(cur, cur + p);
        PathLessTransitive(e, cur, cur + p);
      }
    } else {
      var s := range.start.value;
      PathTrichotomy(cur, s);
      if Contains(s, cur) {
        PrefixFirst(s, cur);
      }
      OrderSurvivesExtension(cur, s, p, []);
      assert s + [] == s;
      PathTrichotomy(cur + p, s);
    }
  }

  lemma UpToOwnEnd(range: Range, cur: Path)
    requires range.EndInNode(cur)
    ensures range.UpToEnd(cur)
  {
    if cur != range.end.value {
      PrefixFirst(cur, range.end.value);
    }
    PathTrichotomy(cur, range.end.value);
  }

  lemma BelowOwnEnd(range: Range, cur: Path, p: Path)
    requires range.end == Some(cur)
    ensures range.UpToEnd(cur + p) <==> p == []
  {
    if p != [] {
      PrefixFirst(cur, cur + p);
    } else {
      assert cur + p == cur;
      PathTrichotomy(cur, cur);
    }
  }

  /* ---------- the recursion, leaf by leaf ---------- */

  lemma {:induction false} UpdateRangeIsPlain(range: Range, cur: Path, node: Node, updates: Node)
    requires Plain(node) && Plain(updates)
    ensures Plain(UpdateRange(range, cur, node, updates))
    decreases range.Reach() - |cur|
  {
    if range.StartInNode(cur) || range.EndInNode(cur) {
      forall k | k in ChildKeys(node) + ChildKeys(updates)
        ensures Plain(PatchedChild(range, cur, node, updates, k))
      {
        UpdateRangeIsPlain(range, cur + [k], node.GetImmediateChild(k), updates.GetImmediateChild(k));
      }
      EmptyUpdate(range, cur + [PRIORITY]);
    }
  }

  lemma OverruledDown(range: Range, cur: Path, updates: Node, k: Key, p: Path)
    requires Plain(updates) && k != PRIORITY
    requires !(updates.Leaf? && range.Includes(cur))
    requires Overruled(range, cur, updates, [k] + p)
    ensures Overruled(range, cur + [k], updates.GetImmediateChild(k), p)
  {
    var u: Path :| IsLeafPath(updates, u) && range.Includes(cur + u) && Comparable(u, [k] + p);
    assert u == [] ==> cur + u == cur;
    assert u[0] == ([k] + p)[0];
    assert u == [k] + u[1..];
    LeafAtKey(updates, k, u[1..]);
    assert cur + u == cur + [k] + u[1..];
    assert ([k] + p)[1..] == p;
    assert Comparable(u[1..], p);
  }

  lemma ComparableThroughKey(k: Key, p: Path, q: Path)
    ensures Comparable([k] + p, [k] + q) <==> Comparable(p, q)
  {
    ContainsThroughKey(k, p, q);
    ContainsThroughKey(k, q, p);
  }

  lemma OverruledUp(range: Range, cur: Path, updates: Node, k: Key, p: Path)
    requires Plain(updates) && k != PRIORITY
    requires Overruled(range, cur + [k], updates.GetImmediateChild(k), p)
    ensures Overruled(range, cur, updates, [k] + p)
  {
    var u: Path :| IsLeafPath(updates.GetImmediateChild(k), u) && range.Includes(cur + [k] + u) && Comparable(u, p);
    LeafAtKey(updates, k, u);
    assert cur + ([k] + u) == cur + [k] + u;
    ComparableThroughKey(k, u, p);
  }

  /** A step down: the formula at `[k] + p` is the formula of the child `k` at `p`. */
  lemma PatchedStep(range: Range, cur: Path, node: Node, updates: Node, k: Key, p: Path)
    requires Plain(node) && Plain(updates) && k != PRIORITY
    requires !(updates.Leaf? && range.Includes(cur))
    ensures Patched(range, cur, node, updates, [k] + p)
            == Patched(range, cur + [k], node.GetImmediateChild(k), updates.GetImmediateChild(k), p)
  {
    assert cur + ([k] + p) == cur + [k] + p;
    LeafAtKey(node, k, p);
    LeafAtKey(updates, k, p);
    if Overruled(range, cur, updates, [k] + p) {
      OverruledDown(range, cur, updates, k, p);
    }
    if Overruled(range, cur + [k], updates.GetImmediateChild(k), p) {
      OverruledUp(range, cur, updates, k, p);
    }
  }

  /** The main theorem: the result of the recursion is `Patched`, for all trees, ranges and paths. */
  lemma {:induction false} UpdateRangeLeaves(range: Range, cur: Path, node: Node, updates: Node, p: Path)
    requires Plain(node) && Plain(updates)
    ensures LeafAt(UpdateRange(range, cur, node, updates), p) == Patched(range, cur, node, updates, p)
    decreases range.Reach() - |cur|, 3
  {
    BoundFacts(range, cur);
    if range.AfterStart(cur) && range.EndComparison(cur) == Ascending && !range.EndInNode(cur) {
      InsideLeaves(range, cur, node, updates, p);
    } else if range.AfterStart(cur) && range.EndInNode(cur) && updates.Leaf? {
      LeafUpdateLeaves(range, cur, node, updates, p);
    } else if range.AfterStart(cur) && range.EndComparison(cur) == Same {
      AtEndLeaves(range, cur, node, updates, p);
    } else if range.StartInNode(cur) || range.EndInNode(cur) {
      PartialLeaves(range, cur, node, updates, p);
    } else {
      forall u: Path ensures !range.Includes(cur + u) {
        OutsideBelow(range, cur, u);
      }
    }
  }

  lemma InsideLeaves(range: Range, cur: Path, node: Node, updates: Node, p: Path)
    requires range.AfterStart(cur) && range.UpToEnd(cur) && !range.EndInNode(cur)
    ensures LeafAt(updates, p) == Patched(range, cur, node, updates, p)
  {
    AfterStartBelow(range, cur, p);
    UpToEndBelow(range, cur, p);
  }

  lemma LeafUpdateLeaves(range: Range, cur: Path, node: Node, updates: Node, p: Path)
    requires range.AfterStart(cur) && range.EndInNode(cur) && updates.Leaf?
    ensures LeafAt(updates, p) == Patched(range, cur, node, updates, p)
  {
    UpToOwnEnd(range, cur);
    assert cur + [] == cur;
    assert IsLeafPath(updates, []) && Comparable([], p);
    assert Overruled(range, cur, updates, p);
    if p == [] {
      assert cur + p == cur;
    }
  }

  lemma AtEndLeaves(range: Range, cur: Path, node: Node, updates: Node, p: Path)
    requires Plain(node)
    requires range.AfterStart(cur) && range.end == Some(cur) && !updates.Leaf?
    ensures LeafAt(if node.Leaf? then Empty else node, p) == Patched(range, cur, node, updates, p)
  {
    forall u: Path ensures range.Includes(cur + u) <==> u == [] {
      BelowOwnEnd(range, cur, u);
      assert cur + [] == cur;
    }
    assert !Overruled(range, cur, updates, p);
    if p == [] {
      assert cur + p == cur;
    }
  }

  lemma {:induction false} PartialLeaves(range: Range, cur: Path, node: Node, updates: Node, p: Path)
    requires Plain(node) && Plain(updates) && IsPartial(range, cur, updates)
    ensures LeafAt(UpdateRange(range, cur, node, updates), p) == Patched(range, cur, node, updates, p)
    decreases range.Reach() - |cur|, 2
  {
    BoundFacts(range, cur);
    assert !(updates.Leaf? && range.Includes(cur));
    UpdateRangeIsPlain(range, cur, node, updates);
    var r := UpdateRange(range, cur, node, updates);
    if p == [] {
      PartialRoot(range, cur, node, updates);
    } else if p[0] != PRIORITY {
      var k := p[0];
      assert p == [k] + p[1..];
      PatchedStep(range, cur, node, updates, k, p[1..]);
      LeafAtKey(r, k, p[1..]);
      UpdateRangeLeaves(range, cur + [k], node.GetImmediateChild(k), updates.GetImmediateChild(k), p[1..]);
      PartialChild(range, cur, node, updates, k);
    } else {
      assert p == [PRIORITY] + p[1..];
      LeafAtKey(r, PRIORITY, p[1..]);
      LeafAtKey(node, PRIORITY, p[1..]);
      LeafAtKey(updates, PRIORITY, p[1..]);
    }
  }

  /** The children of the patched node are the patched children. */
  lemma PartialChild(range: Range, cur: Path, node: Node, updates: Node, k: Key)
    requires Plain(node) && Plain(updates) && IsPartial(range, cur, updates) && k != PRIORITY
    ensures UpdateRange(range, cur, node, updates).GetImmediateChild(k) == PatchedChild(range, cur, node, updates, k)
  {
    var kids := PatchedKids(range, cur, node, updates);
    PartialForm(range, cur, node, updates);
    if k !in ChildKeys(node) + ChildKeys(updates) {
      EmptyUpdate(range, cur + [k]);
      assert PatchedChild(range, cur, node, updates, k) == Empty;
    } else {
      assert k in kids <==> PatchedChild(range, cur, node, updates, k) != Empty;
    }
  }

  /** Patching a leaf: a child appears exactly when the update has a leaf inside the range. */
  lemma {:induction false} ChildAppears(range: Range, cur: Path, node: Node, updates: Node, k: Key)
    requires Plain(node) && Plain(updates) && IsPartial(range, cur, updates) && node.Leaf?
    requires k in PatchedKids(range, cur, node, updates)
    ensures Overruled(range, cur, updates, [])
    decreases range.Reach() - |cur|, 0
  {
    var update := updates.GetImmediateChild(k);
    assert PatchedChild(range, cur, node, updates, k) == UpdateRange(range, cur + [k], Empty, update);
    UpdateRangeIsPlain(range, cur + [k], Empty, update);
    var q := SomeLeaf(UpdateRange(range, cur + [k], Empty, update));
    UpdateRangeLeaves(range, cur + [k], Empty, update, q);
    OnlyUpdatesAppear(range, cur, updates, k, q);
  }

  /** Whatever is patched into an empty child comes from the update. */
  lemma OnlyUpdatesAppear(range: Range, cur: Path, updates: Node, k: Key, q: Path)
    requires Plain(updates) && k != PRIORITY
    requires Patched(range, cur + [k], Empty, updates.GetImmediateChild(k), q).Some?
    ensures Overruled(range, cur, updates, [])
  {
    NoLeaves(q);
    LeafAtKey(updates, k, q);
    assert cur + ([k] + q) == cur + [k] + q;
    assert Comparable([k] + q, []);
  }

  lemma {:induction false} ChildNeeded(range: Range, cur: Path, node: Node, updates: Node)
    requires Plain(node) && Plain(updates) && IsPartial(range, cur, updates) && node.Leaf?
    requires !(updates.Leaf? && range.Includes(cur))
    requires Overruled(range, cur, updates, [])
    ensures PatchedKids(range, cur, node, updates) != map[]
    decreases range.Reach() - |cur|, 0
  {
    var u: Path :| IsLeafPath(updates, u) && range.Includes(cur + u) && Comparable(u, []);
    assert u == [] ==> cur + u == cur;
    var k, rest := u[0], u[1..];
    assert u == [k] + rest && cur + u == cur + [k] + rest;
    LeafPathIsPlain(updates, u);
    LeafAtKey(updates, k, rest);
    UpdateRangeLeaves(range, cur + [k], Empty, updates.GetImmediateChild(k), rest);
    assert node.GetImmediateChild(k) == Empty;
    NoLeaves(rest);
    assert PatchedChild(range, cur, node, updates, k) != Empty;
    assert k in PatchedKids(range, cur, node, updates);
  }

  /** At the node itself: a leaf stays a leaf unless the update writes below it. */
  lemma {:induction false} PartialRoot(range: Range, cur: Path, node: Node, updates: Node)
    requires Plain(node) && Plain(updates) && IsPartial(range, cur, updates)
    ensures LeafAt(UpdateRange(range, cur, node, updates), []) == Patched(range, cur, node, updates, [])
    decreases range.Reach() - |cur|, 1
  {
    BoundFacts(range, cur);
    assert cur + [] == cur;
    assert !(range.Includes(cur) && updates.Leaf?);
    assert range.Includes(cur) ==> range.AboveEnd(cur);
    var kids := PatchedKids(range, cur, node, updates);
    if node.Leaf? {
      if k :| k in kids {
        ChildAppears(range, cur, node, updates, k);
      } else if Overruled(range, cur, updates, []) {
        ChildNeeded(range, cur, node, updates);
      }
    }
  }
}
