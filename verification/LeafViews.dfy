/**
 The leaves of a priority-free tree. A canonical tree is determined by the values at its leaf paths,
 so the laws of the sync engine are stated leaf by leaf.
 */
module LeafViews {
  import opened Options
  import opened Keys
  import opened Paths
  import opened Nodes

  /** The value stored at `p`, if the tree has a leaf there. */
  function LeafAt(n: Node, p: Path): Option<LeafValue>
    decreases p
  {
    if p == [] then
      if n.Leaf? then Some(n.value) else None
    else if n.Children? && p[0] in n.kids then LeafAt(n.kids[p[0]], p[1..])
    else None
  }

  ghost predicate IsLeafPath(n: Node, p: Path) {
    LeafAt(n, p).Some?
  }

  lemma LeafAtKey(n: Node, k: Key, rest: Path)
    requires Plain(n)
    ensures LeafAt(n, [k] + rest) == if k == PRIORITY then None else LeafAt(n.GetImmediateChild(k), rest)
  {
    assert ([k] + rest)[1..] == rest;
    NoLeaves(rest);
  }

  lemma NoLeaves(p: Path)
    ensures LeafAt(Empty, p) == None
  {
  }

  /** A non-empty tree has a leaf. */
  lemma {:induction false} SomeLeaf(n: Node) returns (p: Path)
    requires Plain(n) && n != Empty
    ensures IsLeafPath(n, p) && PlainPath(p)
  {
    if n.Leaf? {
      p := [];
    } else {
      var k :| k in n.kids;
      var q := SomeLeaf(n.kids[k]);
      p := [k] + q;
      assert p[1..] == q;
    }
  }

  /** A tree without leaves is empty. */
  lemma LeaflessIsEmpty(n: Node)
    requires Plain(n) && forall p: Path :: LeafAt(n, p) == None
    ensures n == Empty
  {
    if n != Empty {
      var p := SomeLeaf(n);
    }
  }

  /** Trees with the same leaves are the same tree. */
  lemma {:induction false} SameLeavesSameTree(a: Node, b: Node)
    requires Plain(a) && Plain(b) && forall p: Path :: LeafAt(a, p) == LeafAt(b, p)
    ensures a == b
  {
    assert LeafAt(a, []) == LeafAt(b, []);
    if a == Empty {
      LeaflessIsEmpty(b);
    } else if b == Empty {
      LeaflessIsEmpty(a);
    } else if a.Children? && b.Children? {
      forall k: Key | k in a.kids || k in b.kids
        ensures k in a.kids && k in b.kids && a.kids[k] == b.kids[k]
      {
        var ca, cb := a.GetImmediateChild(k), b.GetImmediateChild(k);
        forall q: Path ensures LeafAt(ca, q) == LeafAt(cb, q) {
          LeafAtKey(a, k, q);
          LeafAtKey(b, k, q);
          assert LeafAt(a, [k] + q) == LeafAt(b, [k] + q);
        }
        SameLeavesSameTree(ca, cb);
      }
      assert a.kids == b.kids;
    }
  }

  /** No leaf lies above another. */
  lemma {:induction false} LeavesArePrefixFree(n: Node, p: Path, q: Path)
    requires IsLeafPath(n, p) && IsLeafPath(n, q) && Contains(p, q)
    ensures p == q
    decreases p
  {
    if p != [] {
      LeavesArePrefixFree(n.kids[p[0]], p[1..], q[1..]);
      assert p == [p[0]] + p[1..] && q == [q[0]] + q[1..];
    }
  }

  lemma {:induction false} LeafPathIsPlain(n: Node, p: Path)
    requires Plain(n) && IsLeafPath(n, p)
    ensures PlainPath(p)
    decreases p
  {
    if p != [] {
      LeafPathIsPlain(n.kids[p[0]], p[1..]);
    }
  }

  /** The leaves of a subtree. */
  lemma {:induction false} LeafAtGet(n: Node, p: Path, q: Path)
    requires Plain(n) && PlainPath(p)
    ensures LeafAt(n.GetChild(p), q) == LeafAt(n, p + q)
    decreases p
  {
    if p == [] {
      assert p + q == q;
    } else {
      assert (p + q)[1..] == p[1..] + q;
      if n.Children? && p[0] in n.kids {
        LeafAtGet(n.kids[p[0]], p[1..], q);
      } else {
        EmptyStaysEmpty(p[1..]);
      }
    }
  }

  /**
   The leaves after a put: below the path those of the new child; strictly above it, a leaf gives way
   to a non-empty child; everything else stays.
   */
  ghost function LeafAfterPut(n: Node, p: Path, x: Node, q: Path): Option<LeafValue> {
    if Contains(p, q) then LeafAt(x, q[|p|..])
    else if Contains(q, p) && x != Empty then None
    else LeafAt(n, q)
  }

  lemma LeafAtThroughKey(n: Node, k: Key, c: Node, rest: Path)
    requires Plain(n) && Plain(c) && k != PRIORITY
    ensures LeafAt(n.UpdateImmediateChild(k, c), [k] + rest) == LeafAt(c, rest)
  {
    PlainIsCanonical(n);
    PlainIsCanonical(c);
    WithChildShape(n, k, c);
    LeafAtKey(n.UpdateImmediateChild(k, c), k, rest);
  }

  /** A step down leaves the formula alone. */
  lemma LeafAfterPutBelow(n: Node, p: Path, x: Node, q: Path)
    requires Plain(n) && PlainPath(p) && p != [] && q != [] && q[0] == p[0]
    ensures LeafAfterPut(n, p, x, q)
            == LeafAfterPut(if n.Leaf? then Empty else n.GetImmediateChild(p[0]), p[1..], x, q[1..])
  {
    ContainsBelow(p, q);
    ContainsBelow(q, p);
    NoLeaves(q[1..]);
  }

  lemma {:induction false} LeafAtUpdate(n: Node, p: Path, x: Node, q: Path)
    requires Plain(n) && Plain(x) && PlainPath(p)
    ensures LeafAt(n.UpdateChild(p, x), q) == LeafAfterPut(n, p, x, q)
    decreases p
  {
    if p == [] {
      assert q[|p|..] == q;
    } else {
      var base := if n.Leaf? then Empty else n.GetImmediateChild(p[0]);
      PlainIsCanonical(base);
      PlainIsCanonical(x);
      UpdateKeepsCanonical(base, p[1..], x);
      UpdateEmptiness(base, p[1..], x);
      if q != [] && q[0] == p[0] {
        LeafAtUpdate(base, p[1..], x, q[1..]);
        LeafAfterPutBelow(n, p, x, q);
        assert q == [q[0]] + q[1..];
        LeafAtThroughKey(n, p[0], base.UpdateChild(p[1..], x), q[1..]);
      } else {
        LeafAtBesideKey(n, p[0], base.UpdateChild(p[1..], x), q);
      }
    }
  }

  /** Away from the updated child, leaves stay; a leaf at the node itself goes when the child is not empty. */
  lemma LeafAtBesideKey(n: Node, k: Key, c: Node, q: Path)
    requires Plain(n) && Plain(c) && k != PRIORITY && (q != [] ==> q[0] != k)
    ensures LeafAt(n.UpdateImmediateChild(k, c), q) == if q == [] && c != Empty then None else LeafAt(n, q)
  {
  }

  /** A put of a non-empty child leaves a non-empty tree; deleting from an empty tree leaves it empty. */
  lemma {:induction false} UpdateEmptiness(n: Node, p: Path, x: Node)
    requires Plain(n) && Plain(x) && PlainPath(p)
    ensures x != Empty ==> n.UpdateChild(p, x) != Empty
    ensures x == Empty && n == Empty ==> n.UpdateChild(p, x) == Empty
    decreases p
  {
    if p != [] {
      var base := if n.Leaf? then Empty else n.GetImmediateChild(p[0]);
      PlainIsCanonical(base);
      PlainIsCanonical(x);
      UpdateKeepsCanonical(base, p[1..], x);
      UpdateEmptiness(base, p[1..], x);
    }
  }
}
