/**
 The orders a query can ask for (FIndex.swift, `compare` and `isDefined`; FNode.swift, `compare`): by
 key, by priority, by value, or by a descendant. Ties are broken by key.
 */
module Indexes {
  import opened Keys
  import opened Paths
  import opened Nodes

  /* ---------- the order of nodes ---------- */

  function TypeOrder(v: LeafValue): int {
    match v
    case Deferred(_) => 0
    case Boolean(_) => 1
    case Number(_) => 2
    case Text(_) => 3
  }

  function CompareLeaves(a: LeafValue, b: LeafValue): Comparison {
    match (a, b)
    case (Boolean(x), Boolean(y)) => if x == y then Same else if x then Descending else Ascending
    case (Number(x), Number(y)) => if x < y then Ascending else if y < x then Descending else Same
    case (Text(x), Text(y)) => if LexLess(x, y) then Ascending else if LexLess(y, x) then Descending else Same
    case (Deferred(_), Deferred(_)) => Same
    case _ => if TypeOrder(a) < TypeOrder(b) then Ascending else Descending
  }

  /** Nothing comes before leaves, leaves before objects; objects all tie. */
  function CompareNodes(a: Node, b: Node): Comparison {
    match (a, b)
    case (Leaf(v, _), Leaf(w, _)) => CompareLeaves(v, w)
    case (Leaf(_, _), Empty) => Descending
    case (Empty, Leaf(_, _)) => Ascending
    case (Leaf(_, _), Children(_, _)) => Ascending
    case (Children(_, _), Leaf(_, _)) => Descending
    case (Empty, Children(_, _)) => Ascending
    case (Children(_, _), Empty) => Descending
    case (Empty, Empty) => Same
    case (Children(_, _), Children(_, _)) => Same
  }

  lemma CompareLeavesOrder(a: LeafValue, b: LeafValue, c: LeafValue)
    ensures CompareLeaves(a, a) == Same && CompareLeaves(b, a) == Flip(CompareLeaves(a, b))
    ensures CompareLeaves(a, b) != Descending && CompareLeaves(b, c) != Descending ==>
              && CompareLeaves(a, c) != Descending
              && (CompareLeaves(a, c) == Same <==> CompareLeaves(a, b) == Same && CompareLeaves(b, c) == Same)
  {
    if a.Text? {
      LexTotal(a.s, a.s);
      if b.Text? {
        LexTotal(a.s, b.s);
        if c.Text? {
          LexTotal(b.s, c.s);
          LexTotal(a.s, c.s);
          if LexLess(a.s, b.s) && LexLess(b.s, c.s) {
            LexTransitive(a.s, b.s, c.s);
          }
        }
      }
    }
  }

  /** Nodes are totally preordered. */
  lemma CompareNodesOrder(a: Node, b: Node, c: Node)
    ensures CompareNodes(a, a) == Same && CompareNodes(b, a) == Flip(CompareNodes(a, b))
    ensures CompareNodes(a, b) != Descending && CompareNodes(b, c) != Descending ==>
              && CompareNodes(a, c) != Descending
              && (CompareNodes(a, c) == Same <==> CompareNodes(a, b) == Same && CompareNodes(b, c) == Same)
  {
    if a.Leaf? {
      CompareLeavesOrder(a.value, a.value, a.value);
      if b.Leaf? {
        CompareLeavesOrder(a.value, b.value, b.value);
        if c.Leaf? {
          CompareLeavesOrder(a.value, b.value, c.value);
        }
      }
    }
  }

  /* ---------- the order of children ---------- */

  datatype Index = KeyIndex | PriorityIndex | ValueIndex | PathIndex(path: Path)

  datatype Entry = Entry(key: Key, node: Node)

  /** What the index looks at. */
  function Sample(index: Index, node: Node): Node {
    match index
    case KeyIndex => Empty
    case PriorityIndex => node.GetPriority()
    case ValueIndex => node
    case PathIndex(path) => node.GetChild(path)
  }

  function Compare(index: Index, a: Entry, b: Entry): Comparison {
    if index.KeyIndex? then CompareKey(a.key, b.key)
    else
      var c := CompareNodes(Sample(index, a.node), Sample(index, b.node));
      if c == Same then CompareKey(a.key, b.key) else c
  }

  predicate Before(index: Index, a: Entry, b: Entry) {
    Compare(index, a, b) == Ascending
  }

  function IsDefinedOn(index: Index, node: Node): bool {
    match index
    case KeyIndex => true
    case ValueIndex => true
    case PriorityIndex => !node.GetPriority().IsEmpty()
    case PathIndex(path) => !node.GetChild(path).IsEmpty()
  }

  /** Children with different keys are ordered one way. */
  lemma CompareTotal(index: Index, a: Entry, b: Entry)
    ensures Compare(index, b, a) == Flip(Compare(index, a, b))
    ensures Compare(index, a, b) == Same <==>
              a.key == b.key && CompareNodes(Sample(index, a.node), Sample(index, b.node)) == Same
  {
    CompareKeyAntisymmetric(a.key, b.key);
    KeyOrderTotal(a.key, b.key);
    CompareNodesOrder(Sample(index, a.node), Sample(index, b.node), Empty);
  }

  lemma BeforeTransitive(index: Index, a: Entry, b: Entry, c: Entry)
    requires Before(index, a, b) && Before(index, b, c)
    ensures Before(index, a, c)
  {
    CompareNodesOrder(Sample(index, a.node), Sample(index, b.node), Sample(index, c.node));
    if CompareKey(a.key, b.key) == Ascending && CompareKey(b.key, c.key) == Ascending {
      CompareKeyTransitive(a.key, b.key, c.key);
    }
  }

  /** Where the index is defined on neither child, it orders them by key. */
  lemma UndefinedByKey(index: Index, a: Entry, b: Entry)
    requires Canonical(a.node) && Canonical(b.node)
    requires index.KeyIndex? || (!IsDefinedOn(index, a.node) && !IsDefinedOn(index, b.node))
    ensures Compare(index, a, b) == CompareKey(a.key, b.key)
  {
    if index.PathIndex? {
      GetKeepsCanonical(a.node, index.path);
      GetKeepsCanonical(b.node, index.path);
    }
  }
}
