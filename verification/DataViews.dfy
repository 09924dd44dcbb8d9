/**
 The data of a tree: the tree without its priorities. Putting, reading and range merges commute with leaving
 the priorities away, so the laws of priority-free trees are laws about the data of all trees.
 */
module DataViews {
  import opened Keys
  import opened Paths
  import opened Nodes
  import opened LeafViews
  import opened Ranges

  function Data(n: Node): Node {
    match n
    case Empty => Empty
    case Leaf(v, _) => Leaf(v, Empty)
    case Children(kids, _) => Children(map k | k in kids :: Data(kids[k]), Empty)
  }

  function DataKids(kids: map<Key, Node>): map<Key, Node> {
    map k | k in kids :: Data(kids[k])
  }

  lemma DataOfChildren(kids: map<Key, Node>, p: Node)
    ensures Data(Children(kids, p)) == Children(DataKids(kids), Empty)
    ensures DataKids(kids) == map[] <==> kids == map[]
  {
    assert DataKids(kids).Keys == kids.Keys;
  }

  lemma {:induction false} DataIsPlain(n: Node)
    requires Canonical(n)
    ensures Plain(Data(n)) && (Data(n) == Empty <==> n == Empty)
  {
    if n.Children? {
      forall k | k in n.kids ensures Plain(Data(n.kids[k])) && Data(n.kids[k]) != Empty {
        DataIsPlain(n.kids[k]);
      }
      var k :| k in n.kids;
      assert k in Data(n).kids;
    }
  }

  lemma DataOfChild(n: Node, k: Key)
    requires Canonical(n) && k != PRIORITY
    ensures Data(n).GetImmediateChild(k) == Data(n.GetImmediateChild(k))
  {
  }

  /** Leaves are where they were. */
  lemma {:induction false} LeafAtData(n: Node, p: Path)
    ensures LeafAt(Data(n), p) == LeafAt(n, p)
    decreases p
  {
    if p != [] && n.Children? && p[0] in n.kids {
      LeafAtData(n.kids[p[0]], p[1..]);
    }
  }

  lemma DataOfWithChild(kids: map<Key, Node>, k: Key, c: Node, p: Node)
    requires Canonical(c)
    ensures Data(WithChild(kids, k, c, p)) == WithChild(DataKids(kids), k, Data(c), Empty)
  {
    DataIsPlain(c);
    var newKids := if c.IsEmpty() then kids - {k} else kids[k := c];
    assert DataKids(newKids) == if c.IsEmpty() then DataKids(kids) - {k} else DataKids(kids)[k := Data(c)];
    DataOfChildren(newKids, p);
    PlainIsCanonical(Data(c));
    CanonicalIsEmpty(c);
    CanonicalIsEmpty(Data(c));
  }

  lemma CanonicalIsEmpty(n: Node)
    requires Canonical(n)
    ensures n.IsEmpty() <==> n == Empty
  {
  }

  lemma DataOfUpdateImmediate(n: Node, k: Key, c: Node)
    requires Canonical(n) && Canonical(c) && k != PRIORITY
    ensures Data(n.UpdateImmediateChild(k, c)) == Data(n).UpdateImmediateChild(k, Data(c))
  {
    DataIsPlain(c);
    PlainIsCanonical(Data(c));
    CanonicalIsEmpty(c);
    CanonicalIsEmpty(Data(c));
    match n {
      case Empty =>
        DataOfWithChild(map[], k, c, Empty);
        assert DataKids(map[]) == map[];
      case Children(kids, p) =>
        DataOfWithChild(kids, k, c, p);
        DataOfChildren(kids, p);
      case Leaf(_, p) =>
        DataOfWithChild(map[], k, c, Empty);
        assert DataKids(map[]) == map[];
        DataOfPriority(WithChild(map[], k, c, Empty), p);
        DataOfPriority(WithChild(map[], k, Data(c), Empty), Empty);
        assert WithChild(map[], k, Data(c), Empty).UpdatePriority(Empty) == WithChild(map[], k, Data(c), Empty);
    }
  }

  lemma DataOfPriority(n: Node, p: Node)
    ensures Data(n.UpdatePriority(p)) == Data(n)
  {
  }

  /** A put, without priorities. */
  lemma {:induction false} DataOfUpdate(n: Node, p: Path, x: Node)
    requires Canonical(n) && Canonical(x) && PlainPath(p)
    ensures Data(n.UpdateChild(p, x)) == Data(n).UpdateChild(p, Data(x))
    decreases p
  {
    if p != [] {
      DataIsPlain(n);
      DataIsPlain(x);
      var base := if n.Leaf? then Empty else n.GetImmediateChild(p[0]);
      DataOfUpdate(base, p[1..], x);
      UpdateKeepsCanonical(base, p[1..], x);
      DataOfUpdateImmediate(n, p[0], base.UpdateChild(p[1..], x));
      DataOfChild(n, p[0]);
    }
  }

  /* ---------- range merges ---------- */

  /** The data of a merged tree is the merged data. */
  lemma {:induction false} DataOfRange(range: Range, cur: Path, node: Node, updates: Node)
    requires Canonical(node) && Canonical(updates)
    ensures Data(UpdateRange(range, cur, node, updates)) == UpdateRange(range, cur, Data(node), Data(updates))
    decreases range.Reach() - |cur|
  {
    if IsPartial(range, cur, updates) {
      forall k: Key | k != PRIORITY
        ensures DataMatches(range, cur, node, updates, k)
      {
        DataOfRange(range, cur + [k], node.GetImmediateChild(k), updates.GetImmediateChild(k));
        UpdateRangeIsCanonical(range, cur + [k], node.GetImmediateChild(k), updates.GetImmediateChild(k));
        DataIsPlain(PatchedChild(range, cur, node, updates, k));
        DataOfChild(node, k);
        DataOfChild(updates, k);
      }
      DataOfKids(range, cur, node, updates);
      EmptyUpdate(range, cur + [PRIORITY]);
      PartialForm(range, cur, node, updates);
      PartialForm(range, cur, Data(node), Data(updates));
      DataOfAssembled(node, PatchedKids(range, cur, node, updates), PatchedChild(range, cur, node, updates, PRIORITY));
    }
  }

  lemma DataOfAssembled(node: Node, kids: map<Key, Node>, priority: Node)
    ensures Data(Assembled(node, kids, priority)) == Assembled(Data(node), DataKids(kids), Empty)
  {
    DataOfChildren(kids, priority);
  }

  ghost predicate DataMatches(range: Range, cur: Path, node: Node, updates: Node, k: Key)
    requires range.StartInNode(cur) || range.EndInNode(cur)
  {
    var child, data := PatchedChild(range, cur, node, updates, k), PatchedChild(range, cur, Data(node), Data(updates), k);
    Data(child) == data && (child == Empty <==> data == Empty)
  }

  lemma DataOfKids(range: Range, cur: Path, node: Node, updates: Node)
    requires range.StartInNode(cur) || range.EndInNode(cur)
    requires Canonical(node) && Canonical(updates)
    requires forall k: Key :: k != PRIORITY ==> DataMatches(range, cur, node, updates, k)
    ensures PatchedKids(range, cur, Data(node), Data(updates)) == DataKids(PatchedKids(range, cur, node, updates))
  {
    forall k: Key
      ensures DataAtKey(PatchedKids(range, cur, node, updates), PatchedKids(range, cur, Data(node), Data(updates)), k)
    {
      DataOfKid(range, cur, node, updates, k);
    }
    DataAtAllKeys(PatchedKids(range, cur, node, updates), PatchedKids(range, cur, Data(node), Data(updates)));
  }

  lemma DataAtAllKeys(kids: map<Key, Node>, data: map<Key, Node>)
    requires forall k: Key :: DataAtKey(kids, data, k)
    ensures data == DataKids(kids)
  {
    forall k: Key ensures k in data <==> k in kids {
      assert DataAtKey(kids, data, k);
    }
    forall k | k in kids ensures data[k] == Data(kids[k]) {
      assert DataAtKey(kids, data, k);
    }
  }

  predicate DataAtKey(kids: map<Key, Node>, data: map<Key, Node>, k: Key) {
    (k in data <==> k in kids) && (k in kids && k in data ==> data[k] == Data(kids[k]))
  }

  lemma DataOfKid(range: Range, cur: Path, node: Node, updates: Node, k: Key)
    requires range.StartInNode(cur) || range.EndInNode(cur)
    requires Canonical(node) && Canonical(updates) && (k != PRIORITY ==> DataMatches(range, cur, node, updates, k))
    ensures DataAtKey(PatchedKids(range, cur, node, updates), PatchedKids(range, cur, Data(node), Data(updates)), k)
  {
    SameChildKeys(node);
    SameChildKeys(updates);
  }

  lemma SameChildKeys(n: Node)
    requires Canonical(n)
    ensures ChildKeys(Data(n)) == ChildKeys(n) && PRIORITY !in ChildKeys(n)
  {
  }
}
