/**
 The data tree (FNode.swift): a leaf can turn into an object, and a node without children vanishes,
 taking its priority with it.

 Numbers are modelled by their exact value, as the source compares them (`1` equals `1.0`).
 */
module Nodes {
  import opened Keys
  import opened Paths

  datatype ServerOp = Timestamp | Increment(delta: real)

  datatype LeafValue = Boolean(b: bool) | Number(r: real) | Text(s: Units) | Deferred(op: ServerOp)

  datatype Node =
    | Empty
    | Leaf(value: LeafValue, priority: Node)
    | Children(kids: map<Key, Node>, priority: Node)
  {
    predicate IsEmpty() {
      Empty? || (Children? && kids == map[])
    }

    function GetPriority(): Node {
      if Empty? then Empty else priority
    }

    function UpdatePriority(p: Node): Node {
      match this
      case Empty => Empty
      case Leaf(v, _) => Leaf(v, p)
      case Children(kids, _) => Children(kids, p)
    }

    function GetImmediateChild(k: Key): Node {
      if k == PRIORITY then GetPriority()
      else if Children? && k in kids then kids[k]
      else Empty
    }

    function GetChild(path: Path): Node
      decreases path
    {
      if path == [] then this
      else if path[0] == PRIORITY then GetPriority()
      else if !Children? then Empty
      else GetImmediateChild(path[0]).GetChild(path[1..])
    }

    function UpdateImmediateChild(k: Key, child: Node): Node {
      if k == PRIORITY then UpdatePriority(child)
      else
        match this
        case Empty => WithChild(map[], k, child, Empty)
        case Children(kids, p) => WithChild(kids, k, child, p)
        case Leaf(_, p) =>
          if child.IsEmpty() then this
          else WithChild(map[], k, child, Empty).UpdatePriority(p)
    }

    function UpdateChild(path: Path, child: Node): Node
      decreases path
    {
      if path == [] then child
      else if Leaf? then
        if child.IsEmpty() && path[0] != PRIORITY then this
        else UpdateImmediateChild(path[0], Empty.UpdateChild(path[1..], child))
      else UpdateImmediateChild(path[0], GetImmediateChild(path[0]).UpdateChild(path[1..], child))
    }
  }

  /** The child dictionary with one entry written or removed; without entries the node is empty. */
  function WithChild(kids: map<Key, Node>, k: Key, child: Node, priority: Node): (r: Node)
    ensures !child.IsEmpty() ==> r.Children? && k in r.kids
  {
    var newKids := if child.IsEmpty() then kids - {k} else kids[k := child];
    assert !child.IsEmpty() ==> k in newKids;
    if newKids == map[] then Empty else Children(newKids, priority)
  }

  /** Canonical nodes: no hollow node is stored, and priorities are not children. */
  ghost predicate Canonical(n: Node) {
    match n
    case Empty => true
    case Leaf(_, p) => Canonical(p)
    case Children(kids, p) =>
      && kids != map[] && PRIORITY !in kids && Canonical(p)
      && forall k :: k in kids ==> kids[k] != Empty && Canonical(kids[k])
  }

  /** Canonical nodes that carry no priority anywhere. */
  ghost predicate Plain(n: Node) {
    match n
    case Empty => true
    case Leaf(_, p) => p == Empty
    case Children(kids, p) =>
      && kids != map[] && PRIORITY !in kids && p == Empty
      && forall k :: k in kids ==> kids[k] != Empty && Plain(kids[k])
  }

  /** Priorities are leaves without a priority. */
  predicate IsPriority(p: Node) {
    p.Empty? || (p.Leaf? && p.priority.Empty?)
  }

  ghost predicate LeafPriorities(n: Node) {
    match n
    case Empty => true
    case Leaf(_, p) => IsPriority(p)
    case Children(kids, p) => IsPriority(p) && forall k :: k in kids ==> LeafPriorities(kids[k])
  }

  predicate PlainPath(p: Path) {
    PRIORITY !in p
  }

  /** ".priority" may only be the last token of a path. */
  predicate ValidPath(p: Path) {
    forall i :: 0 <= i < |p| - 1 ==> p[i] != PRIORITY
  }

  lemma PlainThenValid(path: Path, e: Path)
    requires PlainPath(path) && ValidPath(e)
    ensures ValidPath(path + e)
  {
  }

  lemma {:induction false} PlainIsCanonical(n: Node)
    requires Plain(n)
    ensures Canonical(n)
  {
    if n.Children? {
      forall k | k in n.kids ensures Canonical(n.kids[k]) {
        PlainIsCanonical(n.kids[k]);
      }
    }
  }

  /* ---------- updates keep nodes canonical ---------- */

  lemma WithChildShape(n: Node, k: Key, c: Node)
    requires Canonical(n) && Canonical(c)
    ensures Canonical(n.UpdateImmediateChild(k, c))
    ensures Plain(n) && Plain(c) && k != PRIORITY ==> Plain(n.UpdateImmediateChild(k, c))
  {
  }

  lemma {:induction false} UpdateKeepsCanonical(n: Node, p: Path, x: Node)
    requires Canonical(n) && Canonical(x)
    ensures Canonical(n.UpdateChild(p, x))
    ensures Plain(n) && Plain(x) && PlainPath(p) ==> Plain(n.UpdateChild(p, x))
    decreases p
  {
    if p != [] {
      var base := if n.Leaf? then Empty else n.GetImmediateChild(p[0]);
      UpdateKeepsCanonical(base, p[1..], x);
      WithChildShape(n, p[0], base.UpdateChild(p[1..], x));
    }
  }

  lemma {:induction false} GetKeepsCanonical(n: Node, p: Path)
    requires Canonical(n)
    ensures Canonical(n.GetChild(p))
    ensures Plain(n) ==> Plain(n.GetChild(p))
    decreases p
  {
    if p != [] && n.Children? && p[0] != PRIORITY {
      GetKeepsCanonical(n.GetImmediateChild(p[0]), p[1..]);
    }
  }

  /* ---------- get after put, priorities included ---------- */

  lemma {:induction false} EmptyStaysEmpty(p: Path)
    ensures Empty.UpdateChild(p, Empty) == Empty
    ensures Empty.GetChild(p) == Empty
  {
    if p != [] {
      EmptyStaysEmpty(p[1..]);
    }
  }

  lemma StepDown(n: Node, k: Key, p: Path)
    requires k != PRIORITY
    ensures n.GetChild([k] + p) == n.GetImmediateChild(k).GetChild(p)
  {
    EmptyStaysEmpty(p);
    assert ([k] + p)[1..] == p;
  }

  lemma ChildAfterUpdate(n: Node, k: Key, child: Node, j: Key)
    requires Canonical(n) && Canonical(child) && k != PRIORITY && j != PRIORITY
    ensures n.UpdateImmediateChild(k, child).GetImmediateChild(j) == if j == k then child else n.GetImmediateChild(j)
  {
    assert child != Empty ==> !child.IsEmpty();
  }

  lemma GetThroughKey(n: Node, k: Key, c: Node, rest: Path)
    requires Canonical(n) && Canonical(c) && k != PRIORITY
    ensures n.UpdateImmediateChild(k, c).GetChild([k] + rest) == c.GetChild(rest)
    ensures forall j :: j != PRIORITY && j != k ==>
              n.UpdateImmediateChild(k, c).GetChild([j] + rest) == n.GetChild([j] + rest)
  {
    var r := n.UpdateImmediateChild(k, c);
    forall j: Key | j != PRIORITY
      ensures r.GetChild([j] + rest) == if j == k then c.GetChild(rest) else n.GetChild([j] + rest)
    {
      ChildAfterUpdate(n, k, c, j);
      StepDown(r, j, rest);
      StepDown(n, j, rest);
    }
  }

  /** Reading at or above the written path. */
  lemma {:induction false} GetAboveUpdate(n: Node, t: Path, q: Path, x: Node)
    requires Canonical(n) && Canonical(x) && PlainPath(t)
    ensures n.UpdateChild(t + q, x).GetChild(t) == n.GetChild(t).UpdateChild(q, x)
    decreases t
  {
    if t == [] {
      assert t + q == q;
    } else {
      assert (t + q)[1..] == t[1..] + q;
      var base := if n.Leaf? then Empty else n.GetImmediateChild(t[0]);
      GetAboveUpdate(base, t[1..], q, x);
      UpdateKeepsCanonical(base, t[1..] + q, x);
      EmptyStaysEmpty(q);
      EmptyStaysEmpty(t[1..]);
      EmptyStaysEmpty(t[1..] + q);
      GetThroughKey(n, t[0], base.UpdateChild(t[1..] + q, x), t[1..]);
    }
  }

  /** Reading below the written path. */
  lemma {:induction false} GetBelowUpdate(n: Node, p: Path, q: Path, x: Node)
    requires Canonical(n) && Canonical(x) && PlainPath(p)
    ensures n.UpdateChild(p, x).GetChild(p + q) == x.GetChild(q)
  {
    GetAboveUpdate(n, p, [], x);
    assert p + [] == p;
    GetInSteps(n.UpdateChild(p, x), p, q);
  }

  lemma {:induction false} GetInSteps(n: Node, p: Path, q: Path)
    requires PlainPath(p)
    ensures n.GetChild(p + q) == n.GetChild(p).GetChild(q)
    decreases p
  {
    if p == [] {
      assert p + q == q;
    } else {
      assert (p + q)[1..] == p[1..] + q;
      EmptyStaysEmpty(q);
      if n.Children? {
        GetInSteps(n.GetImmediateChild(p[0]), p[1..], q);
      }
    }
  }

  /** Reading beside the written path. */
  lemma {:induction false} GetBesideUpdate(n: Node, t: Path, q: Path, x: Node)
    requires Canonical(n) && Canonical(x) && PlainPath(t) && Incomparable(t, q)
    ensures n.UpdateChild(q, x).GetChild(t) == n.GetChild(t)
    decreases t
  {
    var base := if n.Leaf? then Empty else n.GetImmediateChild(q[0]);
    UpdateKeepsCanonical(base, q[1..], x);
    EmptyStaysEmpty(t[1..]);
    assert t == [t[0]] + t[1..] && q == [q[0]] + q[1..];
    if t[0] == q[0] {
      GetBesideUpdate(base, t[1..], q[1..], x);
    }
    if q[0] != PRIORITY {
      GetThroughKey(n, q[0], base.UpdateChild(q[1..], x), t[1..]);
    }
  }

  /** Putting back what is there changes nothing. */
  lemma {:induction false} UpdateWithOwnChild(n: Node, p: Path)
    requires Canonical(n) && PlainPath(p)
    ensures n.UpdateChild(p, n.GetChild(p)) == n
    decreases p
  {
    if p != [] {
      if n.Children? {
        UpdateWithOwnChild(n.GetImmediateChild(p[0]), p[1..]);
        if p[0] in n.kids {
          assert n.kids[p[0] := n.kids[p[0]]] == n.kids;
        } else {
          assert n.kids - {p[0]} == n.kids;
        }
      } else {
        EmptyStaysEmpty(p);
      }
    }
  }

  /* ---------- single children ---------- */

  lemma LastChildDeleted(a: Key, x: Node, p: Node)
    requires a != PRIORITY && x != Empty
    ensures Children(map[a := x], p).UpdateChild([a], Empty) == Empty
  {
    var n := Children(map[a := x], p);
    assert [a][1..] == [] && n.kids - {a} == map[];
    assert n.GetImmediateChild(a).UpdateChild([], Empty) == Empty;
  }

  lemma ChildOfNothing(b: Key, x: Node)
    requires b != PRIORITY && !x.IsEmpty()
    ensures Empty.UpdateChild([b], x) == Children(map[b := x], Empty)
  {
    assert [b][1..] == [];
    assert Empty.GetImmediateChild(b).UpdateChild([], x) == x;
  }

  lemma ChildOfLeaf(v: LeafValue, b: Key, x: Node)
    requires b != PRIORITY && !x.IsEmpty()
    ensures Leaf(v, Empty).UpdateChild([b], x) == Children(map[b := x], Empty)
  {
    assert [b][1..] == [];
    assert Empty.UpdateChild([], x) == x;
  }

  /* ---------- priorities as the last token of a path ---------- */

  lemma GetPriorityToken(n: Node, t: Path)
    requires PlainPath(t)
    ensures n.GetChild(t + [PRIORITY]) == n.GetChild(t).GetPriority()
  {
    GetInSteps(n, t, [PRIORITY]);
  }

  lemma PutPriority(n: Node, x: Node)
    ensures n.UpdateChild([PRIORITY], x) == n.UpdatePriority(x)
  {
    var rest: Path := [PRIORITY][1..];
    assert rest == [];
    assert Empty.UpdateChild(rest, x) == x && n.GetImmediateChild(PRIORITY).UpdateChild(rest, x) == x;
  }

  /** A priority that is written is read back, unless there is nothing at its path. */
  lemma GetWrittenPriority(n: Node, t: Path, x: Node)
    requires Canonical(n) && Canonical(x) && PlainPath(t)
    ensures n.UpdateChild(t + [PRIORITY], x).GetChild(t + [PRIORITY]) == if n.GetChild(t) == Empty then Empty else x
  {
    GetAboveUpdate(n, t, [PRIORITY], x);
    GetPriorityToken(n.UpdateChild(t + [PRIORITY], x), t);
    assert [PRIORITY][1..] == [];
  }

  /** A write below a node keeps the node's priority, unless it leaves nothing there. */
  lemma PriorityOverUpdate(m: Node, r: Path, x: Node)
    requires Canonical(m) && Canonical(x) && r != [] && r[0] != PRIORITY
    ensures m.UpdateChild(r, x).GetPriority() == if m.UpdateChild(r, x) == Empty then Empty else m.GetPriority()
  {
    var base := if m.Leaf? then Empty else m.GetImmediateChild(r[0]);
    UpdateKeepsCanonical(base, r[1..], x);
  }

  lemma GetPriorityOverUpdate(n: Node, t: Path, r: Path, x: Node)
    requires Canonical(n) && Canonical(x) && PlainPath(t) && r != [] && r[0] != PRIORITY
    ensures n.UpdateChild(t + r, x).GetChild(t + [PRIORITY])
            == if n.UpdateChild(t + r, x).GetChild(t) == Empty then Empty else n.GetChild(t + [PRIORITY])
  {
    GetAboveUpdate(n, t, r, x);
    GetPriorityToken(n.UpdateChild(t + r, x), t);
    GetPriorityToken(n, t);
    GetKeepsCanonical(n, t);
    PriorityOverUpdate(n.GetChild(t), r, x);
  }

  /** The priority of nothing cannot be written. */
  lemma {:induction false} PriorityOfNothing(n: Node, t: Path, x: Node)
    requires Canonical(n) && PlainPath(t) && n.GetChild(t) == Empty
    ensures n.UpdateChild(t + [PRIORITY], x) == n
    decreases t
  {
    if t == [] {
      assert [] + [PRIORITY] == [PRIORITY];
    } else {
      assert (t + [PRIORITY])[0] == t[0] && (t + [PRIORITY])[1..] == t[1..] + [PRIORITY];
      var base := if n.Leaf? then Empty else n.GetImmediateChild(t[0]);
      EmptyStaysEmpty(t[1..]);
      PriorityOfNothing(base, t[1..], x);
      OwnChildStays(n, t[0]);
    }
  }

  lemma OwnChildStays(n: Node, k: Key)
    requires Canonical(n) && k != PRIORITY
    ensures n.Children? ==> n.UpdateImmediateChild(k, n.GetImmediateChild(k)) == n
    ensures !n.Children? ==> n.UpdateImmediateChild(k, Empty) == n
  {
    if n.Children? {
      if k in n.kids {
        assert n.kids[k := n.kids[k]] == n.kids;
      } else {
        assert n.kids - {k} == n.kids;
      }
    }
  }
}
