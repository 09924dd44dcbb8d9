/**
 Compound writes (FCompoundWrite.swift): a set of writes applied in unison, kept as a tree whose valued
 nodes have no children. `Put`, `Complete` and `ChildAt` restate the operations by plain recursion on
 the tree; the laws below hold with priorities.
 */
module CompoundWrites {
  import opened Options
  import opened Keys
  import opened Paths
  import opened Nodes
  import opened ImmutableTrees

  type WriteTree = Tree<Node>

  datatype CompoundWrite = CompoundWrite(writeTree: WriteTree) {
    function AddWrite(node: Node, path: Path): CompoundWrite {
      if path == [] then CompoundWrite(ValueTree(node))
      else
        RootMostIsPrefix(writeTree, path);
        match writeTree.FindRootMost(path)
        case Some((p, v)) =>
          var value := v.UpdateChild(RelativePath(p, path), node);
          CompoundWrite(writeTree.SetValue(Some(value), p))
        case None =>
          CompoundWrite(writeTree.SetTree(ValueTree(node), path))
    }

    function RemoveWriteAtPath(path: Path): CompoundWrite {
      if path == [] then EmptyWrite() else CompoundWrite(writeTree.SetTree(EmptyTree(), path))
    }

    function CompleteNodeAtPath(path: Path): Option<Node> {
      RootMostIsPrefix(writeTree, path);
      match writeTree.FindRootMost(path)
      case None => None
      case Some((p, v)) => Some(v.GetChild(RelativePath(p, path)))
    }

    predicate HasCompleteWriteAtPath(path: Path) {
      CompleteNodeAtPath(path).Some?
    }

    function ChildCompoundWriteAtPath(path: Path): CompoundWrite {
      if path == [] then this
      else
        match CompleteNodeAtPath(path)
        case Some(shadowing) => CompoundWrite(ValueTree(shadowing))
        case None => CompoundWrite(writeTree.Subtree(path))
    }

    predicate IsEmpty() {
      writeTree.IsEmpty()
    }
  }

  function EmptyWrite(): CompoundWrite {
    CompoundWrite(EmptyTree())
  }

  lemma {:induction false} RootMostIsPrefix(t: WriteTree, path: Path)
    ensures t.FindRootMost(path).Some? ==> Contains(t.FindRootMost(path).value.0, path)
    decreases path
  {
    if t.value.None? && path != [] && path[0] in t.kids {
      RootMostIsPrefix(t.kids[path[0]], path[1..]);
    }
  }

  /* ---------- the invariant ---------- */

  /**
   Prefix-free and pruned: a node with a value has no children, no subtree is empty, a priority write
   is a leaf, and the values are canonical.
   */
  ghost predicate Wf(t: WriteTree) {
    && (t.value.Some? ==> t.kids == map[] && Canonical(t.value.value))
    && (PRIORITY in t.kids ==> t.kids[PRIORITY].value.Some?)
    && forall k :: k in t.kids ==> !t.kids[k].IsEmpty() && Wf(t.kids[k])
  }

  /* ---------- the operations by recursion on the tree ---------- */

  function Put(t: WriteTree, node: Node, path: Path): WriteTree
    decreases path
  {
    if t.value.Some? then Tree(Some(t.value.value.UpdateChild(path, node)), t.kids)
    else if path == [] then ValueTree(node)
    else Tree(None, t.kids[path[0] := Put(t.ChildOrEmpty(path[0]), node, path[1..])])
  }

  function Complete(t: WriteTree, path: Path): Option<Node>
    decreases path
  {
    if t.value.Some? then Some(t.value.value.GetChild(path))
    else if path == [] || path[0] !in t.kids then None
    else Complete(t.kids[path[0]], path[1..])
  }

  function ChildAt(t: WriteTree, path: Path): WriteTree
    decreases path
  {
    if t.value.Some? then ValueTree(t.value.value.GetChild(path))
    else if path == [] then t
    else if path[0] !in t.kids then EmptyTree()
    else ChildAt(t.kids[path[0]], path[1..])
  }

  lemma {:induction false} AddWriteIsPut(t: WriteTree, node: Node, path: Path)
    requires Wf(t)
    ensures CompoundWrite(t).AddWrite(node, path).writeTree == Put(t, node, path)
  {
    RootMostIsPrefix(t, path);
    if path == [] {
      assert t.value.Some? ==> t.value.value.UpdateChild([], node) == node;
    } else if t.FindRootMost(path).Some? {
      PutIntoValue(t, node, path);
    } else {
      PutIntoTree(t, node, path);
    }
  }

  /** A write at or below a value changes that value. */
  lemma {:induction false} PutIntoValue(t: WriteTree, node: Node, path: Path)
    requires t.FindRootMost(path).Some? && Contains(t.FindRootMost(path).value.0, path)
    ensures var (p, v) := t.FindRootMost(path).value;
            Put(t, node, path) == t.SetValue(Some(v.UpdateChild(RelativePath(p, path), node)), p)
    decreases path
  {
    if t.value.None? {
      var child := t.kids[path[0]];
      RootMostIsPrefix(child, path[1..]);
      PutIntoValue(child, node, path[1..]);
      var (p, v) := child.FindRootMost(path[1..]).value;
      assert ([path[0]] + p)[1..] == p;
      RelativeBelow(path[0], p, path);
    }
  }

  /** Any other write replaces a subtree. */
  lemma {:induction false} PutIntoTree(t: WriteTree, node: Node, path: Path)
    requires t.FindRootMost(path).None?
    ensures Put(t, node, path) == t.SetTree(ValueTree(node), path)
    decreases path
  {
    if path != [] {
      var child := t.ChildOrEmpty(path[0]);
      assert child.FindRootMost(path[1..]).None?;
      PutIntoTree(child, node, path[1..]);
      PutIsNotEmpty(child, node, path[1..]);
    }
  }

  lemma {:induction false} PutIsNotEmpty(t: WriteTree, node: Node, path: Path)
    ensures !Put(t, node, path).IsEmpty()
  {
    var r := Put(t, node, path);
    if t.value.Some? || path == [] {
      assert r.value.Some?;
    } else {
      HasKid(r, path[0]);
    }
  }

  lemma RelativeBelow(k: Key, p: Path, path: Path)
    requires path != [] && path[0] == k && Contains(p, path[1..])
    ensures Contains([k] + p, path)
    ensures RelativePath([k] + p, path) == RelativePath(p, path[1..])
  {
    assert ([k] + p)[1..] == p;
  }

  lemma {:induction false} CompleteIsRecursive(t: WriteTree, path: Path)
    requires Wf(t)
    ensures CompoundWrite(t).CompleteNodeAtPath(path) == Complete(t, path)
    decreases path
  {
    if t.value.None? && path != [] && path[0] in t.kids {
      var child := t.kids[path[0]];
      CompleteIsRecursive(child, path[1..]);
      RootMostIsPrefix(child, path[1..]);
      if child.FindRootMost(path[1..]).Some? {
        RelativeBelow(path[0], child.FindRootMost(path[1..]).value.0, path);
      }
    }
  }

  lemma {:induction false} ChildAtByCases(t: WriteTree, path: Path)
    requires Wf(t)
    ensures Complete(t, path).Some? ==> ChildAt(t, path) == ValueTree(Complete(t, path).value)
    ensures Complete(t, path).None? ==> ChildAt(t, path) == t.Subtree(path) && ChildAt(t, path).value.None?
    decreases path
  {
    if t.value.None? && path != [] && path[0] in t.kids {
      ChildAtByCases(t.kids[path[0]], path[1..]);
    }
  }

  lemma ChildWriteIsRecursive(t: WriteTree, path: Path)
    requires Wf(t)
    ensures CompoundWrite(t).ChildCompoundWriteAtPath(path).writeTree == ChildAt(t, path)
  {
    CompleteIsRecursive(t, path);
    ChildAtByCases(t, path);
  }

  /* ---------- every operation keeps the invariant ---------- */

  lemma EmptyIsWf()
    ensures Wf(EmptyTree())
  {
  }

  lemma {:induction false} PutKeepsWf(t: WriteTree, node: Node, path: Path)
    requires Wf(t) && Canonical(node) && ValidPath(path)
    ensures Wf(Put(t, node, path))
    decreases path
  {
    if t.value.Some? {
      UpdateKeepsCanonical(t.value.value, path, node);
    } else if path != [] {
      var child := t.ChildOrEmpty(path[0]);
      PutKeepsWf(child, node, path[1..]);
      PutIsNotEmpty(child, node, path[1..]);
      assert path[0] == PRIORITY ==> path[1..] == [];
      var r := Put(t, node, path);
      forall k | k in r.kids ensures !r.kids[k].IsEmpty() && Wf(r.kids[k]) {
        assert k != path[0] ==> r.kids[k] == t.kids[k];
      }
    }
  }

  lemma {:induction false} RemoveKeepsWf(t: WriteTree, path: Path)
    requires Wf(t)
    ensures Wf(t.SetTree(EmptyTree(), path))
    ensures t.value.Some? && path != [] ==> t.SetTree(EmptyTree(), path) == t
    decreases path
  {
    if path != [] {
      var child := t.ChildOrEmpty(path[0]);
      RemoveKeepsWf(child, path[1..]);
      EraseInEmpty(path[1..]);
      if t.value.Some? {
        assert t.kids - {path[0]} == t.kids;
      }
    }
  }

  lemma {:induction false} EraseInEmpty(path: Path)
    ensures EmptyTree<Node>().SetTree(EmptyTree(), path) == EmptyTree()
    decreases path
  {
    if path != [] {
      EraseInEmpty(path[1..]);
      assert EmptyTree<Node>().ChildOrEmpty(path[0]) == EmptyTree();
    }
  }

  lemma {:induction false} ChildKeepsWf(t: WriteTree, path: Path)
    requires Wf(t)
    ensures Wf(ChildAt(t, path))
    decreases path
  {
    if t.value.Some? {
      GetKeepsCanonical(t.value.value, path);
    } else if path != [] && path[0] in t.kids {
      ChildKeepsWf(t.kids[path[0]], path[1..]);
    }
  }

  /* ---------- writes seen from another path ---------- */

  /** A write at or below `s`, seen from `s`. */
  lemma {:induction false} ChildOfPutBelow(t: WriteTree, x: Node, s: Path, q: Path)
    requires Wf(t) && Canonical(x) && PlainPath(s)
    ensures ChildAt(Put(t, x, s + q), s) == Put(ChildAt(t, s), x, q)
    decreases s
  {
    if s == [] {
      assert s + q == q;
    }
    if t.value.Some? {
      GetAboveUpdate(t.value.value, s, q, x);
    } else if s == [] {
      if q == [] {
        assert x.GetChild([]) == x;
      }
      ChildAtRoot(Put(t, x, q));
    } else {
      assert (s + q)[1..] == s[1..] + q;
      ChildOfPutBelow(t.ChildOrEmpty(s[0]), x, s[1..], q);
    }
  }

  lemma ChildAtRoot(t: WriteTree)
    requires t.value.Some? ==> t.kids == map[]
    ensures ChildAt(t, []) == t
  {
  }

  /** A write at or above the path it is seen from. */
  lemma {:induction false} ChildOfPutAbove(t: WriteTree, x: Node, q: Path, s: Path)
    requires Wf(t) && Canonical(x) && PlainPath(q)
    ensures ChildAt(Put(t, x, q), q + s) == ValueTree(x.GetChild(s))
    decreases q
  {
    if t.value.Some? {
      GetBelowUpdate(t.value.value, q, s, x);
    } else if q == [] {
      assert q + s == s;
    } else {
      assert (q + s)[1..] == q[1..] + s;
      ChildOfPutAbove(t.ChildOrEmpty(q[0]), x, q[1..], s);
    }
  }

  /** A write beside the path it is seen from. */
  lemma {:induction false} ChildOfPutBeside(t: WriteTree, x: Node, q: Path, s: Path)
    requires Wf(t) && Canonical(x) && PlainPath(s) && Incomparable(q, s)
    ensures ChildAt(Put(t, x, q), s) == ChildAt(t, s)
    decreases s
  {
    if t.value.Some? {
      GetBesideUpdate(t.value.value, s, q, x);
    } else if s[0] == q[0] {
      assert s == [s[0]] + s[1..] && q == [q[0]] + q[1..];
      ChildOfPutBeside(t.ChildOrEmpty(s[0]), x, q[1..], s[1..]);
      EmptyChildren(s[1..]);
    }
  }

  lemma EmptyChildren(s: Path)
    ensures ChildAt(EmptyTree(), s) == EmptyTree()
  {
  }

  /** Looking down in two steps. */
  lemma {:induction false} ChildInSteps(t: WriteTree, s: Path, q: Path)
    requires Wf(t) && PlainPath(s)
    ensures ChildAt(t, s + q) == ChildAt(ChildAt(t, s), q)
    decreases s
  {
    if s == [] {
      assert s + q == q;
      ChildAtRoot(t);
    } else if t.value.Some? {
      GetInSteps(t.value.value, s, q);
    } else {
      assert (s + q)[1..] == s[1..] + q;
      if s[0] in t.kids {
        ChildInSteps(t.kids[s[0]], s[1..], q);
      } else {
        EmptyChildren(q);
      }
    }
  }

  /** Writing what is already there changes nothing. */
  lemma {:induction false} PutOwnChild(t: WriteTree, p: Path, x: Node)
    requires Wf(t) && PlainPath(p) && Complete(t, p) == Some(x)
    ensures Put(t, x, p) == t
    decreases p
  {
    if t.value.Some? {
      UpdateWithOwnChild(t.value.value, p);
    } else {
      PutOwnChild(t.kids[p[0]], p[1..], x);
      assert t.kids[p[0] := t.kids[p[0]]] == t.kids;
    }
  }
}
