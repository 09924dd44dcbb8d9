/** A persistent tree of optional values (FImmutableTree.swift). */
module ImmutableTrees {
  import opened Options
  import opened Keys
  import opened Paths
  import opened Enumerations

  datatype Tree<V> = Tree(value: Option<V>, kids: map<Key, Tree<V>>) {
    predicate IsEmpty() {
      value.None? && kids == map[]
    }

    /** The child at `key`, or an empty tree. */
    function ChildOrEmpty(key: Key): Tree<V> {
      if key in kids then kids[key] else EmptyTree()
    }

    /** The value closest to the root on the way along `path`, with its position. */
    function FindRootMost(path: Path): Option<(Path, V)>
      decreases path
    {
      if value.Some? then Some(([], value.value))
      else if path == [] || path[0] !in kids then None
      else
        match kids[path[0]].FindRootMost(path[1..])
        case None => None
        case Some((p, v)) => Some(([path[0]] + p, v))
    }

    function Subtree(path: Path): Tree<V>
      decreases path
    {
      if path == [] then this
      else if path[0] !in kids then EmptyTree()
      else kids[path[0]].Subtree(path[1..])
    }

    function SetValue(newValue: Option<V>, path: Path): Tree<V>
      decreases path
    {
      if path == [] then Tree(newValue, kids)
      else Tree(value, kids[path[0] := ChildOrEmpty(path[0]).SetValue(newValue, path[1..])])
    }

    function SetTree(newTree: Tree<V>, path: Path): Tree<V>
      decreases path
    {
      if path == [] then newTree
      else
        Tree(value, WithKid(kids, path[0], ChildOrEmpty(path[0]).SetTree(newTree, path[1..])))
    }
  }

  lemma HasKid<V>(t: Tree<V>, k: Key)
    requires k in t.kids
    ensures !t.IsEmpty()
  {
  }

  /** The children with one subtree replaced; an empty subtree is removed. */
  function WithKid<V>(kids: map<Key, Tree<V>>, k: Key, kid: Tree<V>): map<Key, Tree<V>> {
    if kid.IsEmpty() then kids - {k} else kids[k := kid]
  }

  lemma WithKidTwice<V>(kids: map<Key, Tree<V>>, k: Key, a: Tree<V>, b: Tree<V>)
    ensures WithKid(WithKid(kids, k, a), k, b) == WithKid(kids, k, b)
    ensures WithKid(kids[k := a], k, b) == WithKid(kids, k, b)
    ensures !b.IsEmpty() ==> WithKid(kids, k, a)[k := b] == kids[k := b]
  {
    assert kids - {k} - {k} == kids - {k};
    assert kids[k := a] - {k} == kids - {k};
    assert (kids - {k})[k := b] == kids[k := b];
    assert kids[k := a][k := b] == kids[k := b];
  }

  lemma WithKidsCommute<V>(kids: map<Key, Tree<V>>, k: Key, a: Tree<V>, j: Key, b: Tree<V>)
    requires k != j
    ensures WithKid(kids[j := b], k, a) == WithKid(kids, k, a)[j := b]
  {
    assert kids[j := b] - {k} == (kids - {k})[j := b];
    assert kids[j := b][k := a] == kids[k := a][j := b];
  }

  /** The child just written, or an empty tree if it was removed. */
  lemma WithKidThere<V>(t: Tree<V>, k: Key, kid: Tree<V>)
    ensures Tree(t.value, WithKid(t.kids, k, kid)).ChildOrEmpty(k) == kid
    ensures forall j :: j != k ==> Tree(t.value, WithKid(t.kids, k, kid)).ChildOrEmpty(j) == t.ChildOrEmpty(j)
  {
  }

  lemma WithKidSame<V>(t: Tree<V>, k: Key)
    requires k in t.kids ==> !t.kids[k].IsEmpty()
    ensures WithKid(t.kids, k, t.ChildOrEmpty(k)) == t.kids
  {
    if k in t.kids {
      assert t.kids[k := t.kids[k]] == t.kids;
    } else {
      assert t.kids - {k} == t.kids;
    }
  }

  function EmptyTree<V>(): Tree<V> {
    Tree(None, map[])
  }

  function ValueTree<V>(v: V): Tree<V> {
    Tree(Some(v), map[])
  }

  /** All values with their paths, in the order in which `forEach` visits them: children before the node itself. */
  ghost function Entries<V>(t: Tree<V>): seq<(Path, V)>
    decreases t, 1
  {
    KidEntries(t, Sorted(ByString, t.kids.Keys)) + (if t.value.Some? then [([], t.value.value)] else [])
  }

  ghost function KidEntries<V>(t: Tree<V>, keys: seq<Key>): seq<(Path, V)>
    requires forall k :: k in keys ==> k in t.kids
    decreases t, 0, |keys|
  {
    if keys == [] then []
    else Below(keys[0], Entries(t.kids[keys[0]])) + KidEntries(t, keys[1..])
  }

  ghost function Below<V>(k: Key, entries: seq<(Path, V)>): seq<(Path, V)> {
    seq(|entries|, i requires 0 <= i < |entries| => ([k] + entries[i].0, entries[i].1))
  }

  /** Entries moved below a path. */
  ghost function Under<V>(path: Path, entries: seq<(Path, V)>): seq<(Path, V)> {
    seq(|entries|, i requires 0 <= i < |entries| => (path + entries[i].0, entries[i].1))
  }

  /** No entry lies above another. */
  ghost predicate Apart<V>(entries: seq<(Path, V)>) {
    forall i, j :: 0 <= i < j < |entries| ==> Incomparable(entries[i].0, entries[j].0)
  }

  lemma UnderJoin<V>(path: Path, a: seq<(Path, V)>, b: seq<(Path, V)>)
    ensures Under(path, a + b) == Under(path, a) + Under(path, b)
  {
  }
}
