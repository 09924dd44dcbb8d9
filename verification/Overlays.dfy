/**
 Applying a compound write to a tree (FCompoundWrite.swift, `applySubtreeWrite`), and adding one
 compound write to another. Localisation holds with priorities: the part of the result below a path
 depends only on the writes and the data below that path.
 */
module Overlays {
  import opened Options
  import opened Keys
  import opened Paths
  import opened Nodes
  import opened Enumerations
  import opened ImmutableTrees
  import opened CompoundWrites

  /* ---------- the algorithm ---------- */

  /** Values are put in the order of the children; a priority comes last and only onto a non-empty node. */
  ghost function ApplyAt(t: WriteTree, path: Path, node: Node): Node
    decreases t, 1
  {
    if t.value.Some? then node.UpdateChild(path, t.value.value)
    else
      AddPriority(t, path, ApplyKids(t, Sorted(ByString, t.kids.Keys), path, node))
  }

  function AddPriority(t: WriteTree, path: Path, block: Node): Node {
    if PRIORITY in t.kids && t.kids[PRIORITY].value.Some? && !block.GetChild(path).IsEmpty() then
      block.UpdateChild(path + [PRIORITY], t.kids[PRIORITY].value.value)
    else block
  }

  ghost function ApplyKids(t: WriteTree, keys: seq<Key>, path: Path, node: Node): Node
    requires forall k :: k in keys ==> k in t.kids
    decreases t, 0, |keys|
  {
    if keys == [] then node
    else
      var next := if keys[0] == PRIORITY then node else ApplyAt(t.kids[keys[0]], path + [keys[0]], node);
      ApplyKids(t, keys[1..], path, next)
  }

  ghost function ApplyToNode(t: WriteTree, node: Node): Node {
    ApplyAt(t, [], node)
  }

  method ApplySubtreeWrite(subtreeWrite: WriteTree, relativePath: Path, node: Node) returns (blockNode: Node)
    ensures blockNode == ApplyAt(subtreeWrite, relativePath, node)
    decreases subtreeWrite
  {
    if subtreeWrite.value.Some? {
      return node.UpdateChild(relativePath, subtreeWrite.value.value);
    }
    var priorityWrite: Option<Node> := None;
    blockNode := node;
    var todo := subtreeWrite.kids.Keys;
    while todo != {}
      invariant todo <= subtreeWrite.kids.Keys
      invariant ApplyKids(subtreeWrite, Sorted(ByString, todo), relativePath, blockNode)
                == ApplyKids(subtreeWrite, Sorted(ByString, subtreeWrite.kids.Keys), relativePath, node)
      invariant priorityWrite
                == if PRIORITY in subtreeWrite.kids && PRIORITY !in todo then subtreeWrite.kids[PRIORITY].value else None
    {
      var childKey := First(ByString, todo);
      assert ([childKey] + Sorted(ByString, todo - {childKey}))[1..] == Sorted(ByString, todo - {childKey});
      var childTree := subtreeWrite.kids[childKey];
      if childKey == PRIORITY {
        assert Wf(subtreeWrite) ==> childTree.value.Some?;
        priorityWrite := childTree.value;
      } else {
        blockNode := ApplySubtreeWrite(childTree, relativePath + [childKey], blockNode);
      }
      todo := todo - {childKey};
    }
    if priorityWrite.Some? && !blockNode.GetChild(relativePath).IsEmpty() {
      blockNode := blockNode.UpdateChild(relativePath + [PRIORITY], priorityWrite.value);
    }
  }

  /** Writes added one after the other. */
  ghost function PutAll(t: WriteTree, writes: seq<(Path, Node)>): WriteTree
    decreases writes
  {
    if writes == [] then t
    else PutAll(CompoundWrite(t).AddWrite(writes[0].1, writes[0].0).writeTree, writes[1..])
  }

  lemma {:induction false} PutAllInSteps(t: WriteTree, a: seq<(Path, Node)>, b: seq<(Path, Node)>)
    ensures PutAll(t, a + b) == PutAll(PutAll(t, a), b)
    decreases a
  {
    if a == [] {
      assert a + b == b;
    } else {
      assert (a + b)[1..] == a[1..] + b;
      PutAllInSteps(CompoundWrite(t).AddWrite(a[0].1, a[0].0).writeTree, a[1..], b);
    }
  }

  /** The first write is put first. */
  lemma PutFirst(t: WriteTree, writes: seq<(Path, Node)>)
    requires Wf(t) && writes != []
    ensures PutAll(t, writes) == PutAll(Put(t, writes[0].1, writes[0].0), writes[1..])
  {
    AddWriteIsPut(t, writes[0].1, writes[0].0);
  }

  lemma PutLast(t: WriteTree, writes: seq<(Path, Node)>)
    requires writes != []
    ensures var n := |writes| - 1;
            PutAll(t, writes) == CompoundWrite(PutAll(t, writes[..n])).AddWrite(writes[n].1, writes[n].0).writeTree
  {
    var n := |writes| - 1;
    assert writes == writes[..n] + [writes[n]];
    PutAllInSteps(t, writes[..n], [writes[n]]);
    var t' := PutAll(t, writes[..n]);
    assert PutAll(t', [writes[n]]) == CompoundWrite(t').AddWrite(writes[n].1, writes[n].0).writeTree;
  }

  /** A tree with the writes put one after the other. */
  ghost function Replay(node: Node, writes: seq<(Path, Node)>): Node {
    if writes == [] then node
    else Replay(node, writes[..|writes| - 1]).UpdateChild(writes[|writes| - 1].0, writes[|writes| - 1].1)
  }

  lemma {:induction false} ReplayInSteps(node: Node, a: seq<(Path, Node)>, b: seq<(Path, Node)>)
    ensures Replay(node, a + b) == Replay(Replay(node, a), b)
    decreases b
  {
    if b == [] {
      assert a + b == a;
    } else {
      var n := |b| - 1;
      assert (a + b)[..|a + b| - 1] == a + b[..n];
      ReplayInSteps(node, a, b[..n]);
    }
  }

  lemma ReplayOne(node: Node, w: (Path, Node))
    ensures Replay(node, [w]) == node.UpdateChild(w.0, w.1)
  {
    assert [w][..0] == [];
  }

  /** The visit of `forEach`, adding every value below `path`. */
  method ForEachAddWrite(tree: WriteTree, pathSoFar: Path, into: CompoundWrite) returns (newWrite: CompoundWrite)
    ensures newWrite.writeTree == PutAll(into.writeTree, Under(pathSoFar, Entries(tree)))
    decreases tree
  {
    newWrite := into;
    var todo := tree.kids.Keys;
    while todo != {}
      invariant todo <= tree.kids.Keys
      invariant PutAll(newWrite.writeTree, Under(pathSoFar, KidEntries(tree, Sorted(ByString, todo))))
                == PutAll(into.writeTree, Under(pathSoFar, KidEntries(tree, Sorted(ByString, tree.kids.Keys))))
    {
      var childKey := First(ByString, todo);
      var child := tree.kids[childKey];
      ghost var rest := KidEntries(tree, Sorted(ByString, todo - {childKey}));
      assert ([childKey] + Sorted(ByString, todo - {childKey}))[1..] == Sorted(ByString, todo - {childKey});
      UnderStep(pathSoFar, childKey, Entries(child), rest);
      PutAllInSteps(newWrite.writeTree, Under(pathSoFar + [childKey], Entries(child)), Under(pathSoFar, rest));
      newWrite := ForEachAddWrite(child, pathSoFar + [childKey], newWrite);
      todo := todo - {childKey};
    }
    ghost var kids := KidEntries(tree, Sorted(ByString, tree.kids.Keys));
    if tree.value.Some? {
      UnderLast(pathSoFar, kids, tree.value.value);
      PutAllInSteps(into.writeTree, Under(pathSoFar, kids), [(pathSoFar, tree.value.value)]);
      newWrite := newWrite.AddWrite(tree.value.value, pathSoFar);
      assert PutAll(PutAll(into.writeTree, Under(pathSoFar, kids)), [(pathSoFar, tree.value.value)]) == newWrite.writeTree;
    } else {
      assert kids + [] == kids;
    }
  }

  lemma UnderStep(path: Path, k: Key, entries: seq<(Path, Node)>, rest: seq<(Path, Node)>)
    ensures Under(path, Below(k, entries) + rest) == Under(path + [k], entries) + Under(path, rest)
  {
    assert forall i :: 0 <= i < |entries| ==> path + ([k] + entries[i].0) == path + [k] + entries[i].0;
  }

  lemma UnderLast(path: Path, entries: seq<(Path, Node)>, v: Node)
    ensures Under(path, entries + [([], v)]) == Under(path, entries) + [(path, v)]
  {
    assert path + [] == path;
  }

  method AddCompoundWrite(self: CompoundWrite, compoundWrite: CompoundWrite, path: Path) returns (newWrite: CompoundWrite)
    ensures newWrite.writeTree == PutAll(self.writeTree, Under(path, Entries(compoundWrite.writeTree)))
  {
    newWrite := ForEachAddWrite(compoundWrite.writeTree, path, self);
  }

  /* ---------- localisation ---------- */

  lemma {:induction false} ApplyKeepsCanonical(t: WriteTree, path: Path, node: Node)
    requires Wf(t) && Canonical(node)
    ensures Canonical(ApplyAt(t, path, node))
    decreases t, 1
  {
    if t.value.Some? {
      UpdateKeepsCanonical(node, path, t.value.value);
    } else {
      var keys := Sorted(ByString, t.kids.Keys);
      ApplyKidsKeepsCanonical(t, keys, path, node);
      AddPriorityKeepsCanonical(t, path, ApplyKids(t, keys, path, node));
    }
  }

  lemma AddPriorityKeepsCanonical(t: WriteTree, path: Path, block: Node)
    requires Wf(t) && Canonical(block)
    ensures Canonical(AddPriority(t, path, block))
  {
    if PRIORITY in t.kids && t.kids[PRIORITY].value.Some? {
      UpdateKeepsCanonical(block, path + [PRIORITY], t.kids[PRIORITY].value.value);
    }
  }

  lemma {:induction false} ApplyKidsKeepsCanonical(t: WriteTree, keys: seq<Key>, path: Path, node: Node)
    requires Wf(t) && Canonical(node) && forall k :: k in keys ==> k in t.kids
    ensures Canonical(ApplyKids(t, keys, path, node))
    decreases t, 0, |keys|
  {
    if keys != [] {
      ApplyKeepsCanonical(t.kids[keys[0]], path + [keys[0]], node);
      var next := if keys[0] == PRIORITY then node else ApplyAt(t.kids[keys[0]], path + [keys[0]], node);
      ApplyKidsKeepsCanonical(t, keys[1..], path, next);
    }
  }

  /** Writes at or below `r`, seen from `r`. */
  lemma {:induction false} ApplySeenFrom(t: WriteTree, r: Path, u: Path, node: Node)
    requires Wf(t) && Canonical(node) && PlainPath(r)
    ensures ApplyAt(t, r + u, node).GetChild(r) == ApplyAt(t, u, node.GetChild(r))
    decreases t, 1
  {
    GetKeepsCanonical(node, r);
    if t.value.Some? {
      GetAboveUpdate(node, r, u, t.value.value);
    } else {
      var keys := Sorted(ByString, t.kids.Keys);
      ApplyKidsSeenFrom(t, keys, r, u, node);
      ApplyKidsKeepsCanonical(t, keys, r + u, node);
      AddPrioritySeenFrom(t, r, u, ApplyKids(t, keys, r + u, node));
    }
  }

  lemma AddPrioritySeenFrom(t: WriteTree, r: Path, u: Path, block: Node)
    requires Wf(t) && Canonical(block) && PlainPath(r)
    ensures AddPriority(t, r + u, block).GetChild(r) == AddPriority(t, u, block.GetChild(r))
  {
    GetInSteps(block, r, u);
    if PRIORITY in t.kids && t.kids[PRIORITY].value.Some? {
      assert r + u + [PRIORITY] == r + (u + [PRIORITY]);
      GetAboveUpdate(block, r, u + [PRIORITY], t.kids[PRIORITY].value.value);
    }
  }

  lemma {:induction false} ApplyKidsSeenFrom(t: WriteTree, keys: seq<Key>, r: Path, u: Path, node: Node)
    requires Wf(t) && Canonical(node) && PlainPath(r) && forall k :: k in keys ==> k in t.kids
    ensures ApplyKids(t, keys, r + u, node).GetChild(r) == ApplyKids(t, keys, u, node.GetChild(r))
    decreases t, 0, |keys|
  {
    if keys != [] {
      var k := keys[0];
      assert r + u + [k] == r + (u + [k]);
      ApplySeenFrom(t.kids[k], r, u + [k], node);
      ApplyKeepsCanonical(t.kids[k], r + u + [k], node);
      var next := if k == PRIORITY then node else ApplyAt(t.kids[k], r + u + [k], node);
      ApplyKidsSeenFrom(t, keys[1..], r, u, next);
    }
  }

  /** Writes at `path` or below it leave everything beside it alone. */
  lemma {:induction false} ApplyBeside(t: WriteTree, path: Path, s: Path, node: Node)
    requires Wf(t) && Canonical(node) && PlainPath(s) && Incomparable(path, s)
    ensures ApplyAt(t, path, node).GetChild(s) == node.GetChild(s)
    decreases t, 1
  {
    if t.value.Some? {
      GetBesideUpdate(node, s, path, t.value.value);
    } else {
      var keys := Sorted(ByString, t.kids.Keys);
      ApplyKidsBeside(t, keys, path, s, node);
      ApplyKidsKeepsCanonical(t, keys, path, node);
      StaysIncomparable(path, s, PRIORITY);
      AddPriorityBeside(t, path, s, ApplyKids(t, keys, path, node));
    }
  }

  lemma AddPriorityBeside(t: WriteTree, path: Path, s: Path, block: Node)
    requires Wf(t) && Canonical(block) && PlainPath(s) && Incomparable(path + [PRIORITY], s)
    ensures AddPriority(t, path, block).GetChild(s) == block.GetChild(s)
  {
    if PRIORITY in t.kids && t.kids[PRIORITY].value.Some? {
      GetBesideUpdate(block, s, path + [PRIORITY], t.kids[PRIORITY].value.value);
    }
  }

  lemma {:induction false} ApplyKidsBeside(t: WriteTree, keys: seq<Key>, path: Path, s: Path, node: Node)
    requires Wf(t) && Canonical(node) && PlainPath(s) && Incomparable(path, s)
    requires forall k :: k in keys ==> k in t.kids
    ensures ApplyKids(t, keys, path, node).GetChild(s) == node.GetChild(s)
    decreases t, 0, |keys|
  {
    if keys != [] {
      var k := keys[0];
      StaysIncomparable(path, s, k);
      ApplyBeside(t.kids[k], path + [k], s, node);
      ApplyKeepsCanonical(t.kids[k], path + [k], node);
      var next := if k == PRIORITY then node else ApplyAt(t.kids[k], path + [k], node);
      ApplyKidsBeside(t, keys[1..], path, s, next);
    }
  }

  lemma StaysIncomparable(path: Path, s: Path, k: Key)
    requires Incomparable(path, s)
    ensures Incomparable(path + [k], s)
  {
    assert forall i :: 0 <= i < |path| ==> (path + [k])[i] == path[i];
  }

  /** Of the writes below the root, the child `j` only feels its own. */
  lemma {:induction false} ApplyKidsAtKey(t: WriteTree, keys: seq<Key>, j: Key, node: Node)
    requires Wf(t) && Canonical(node) && j != PRIORITY && (forall k :: k in keys ==> k in t.kids) && Distinct(keys)
    ensures ApplyKids(t, keys, [], node).GetChild([j]) == KidOrNode(t, keys, j, node)
    decreases |keys|
  {
    if keys != [] {
      var k := keys[0];
      assert [] + [k] == [k];
      ApplyKeepsCanonical(t.kids[k], [k], node);
      KidAtKey(t.kids[k], k, j, node);
      DistinctRest(keys);
      var next := if k == PRIORITY then node else ApplyAt(t.kids[k], [k], node);
      ApplyKidsAtKey(t, keys[1..], j, next);
      assert j in keys <==> j == k || j in keys[1..];
    }
  }

  ghost function KidOrNode(t: WriteTree, keys: seq<Key>, j: Key, node: Node): Node {
    if j in keys && j in t.kids then ApplyAt(t.kids[j], [], node.GetChild([j])) else node.GetChild([j])
  }

  lemma KidAtKey(kid: WriteTree, k: Key, j: Key, node: Node)
    requires Wf(kid) && Canonical(node) && j != PRIORITY
    ensures ApplyAt(kid, [k], node).GetChild([j])
            == if j == k then ApplyAt(kid, [], node.GetChild([j])) else node.GetChild([j])
  {
    if k == j {
      assert [j] + [] == [j];
      ApplySeenFrom(kid, [j], [], node);
    } else {
      assert [k][0] != [j][0];
      ApplyBeside(kid, [k], [j], node);
    }
  }

  lemma ApplyAtKey(t: WriteTree, j: Key, node: Node)
    requires Wf(t) && Canonical(node) && j != PRIORITY && t.value.None?
    ensures ApplyToNode(t, node).GetChild([j]) == ApplyToNode(t.ChildOrEmpty(j), node.GetChild([j]))
  {
    var keys := Sorted(ByString, t.kids.Keys);
    SortedDistinct(ByString, t.kids.Keys);
    ApplyKidsAtKey(t, keys, j, node);
    ApplyKidsKeepsCanonical(t, keys, [], node);
    assert ([] + [PRIORITY])[0] != [j][0];
    AddPriorityBeside(t, [], [j], ApplyKids(t, keys, [], node));
    ApplyNothing(node.GetChild([j]));
  }

  lemma ApplyFirst(t: WriteTree, k: Key, rest: seq<Key>, node: Node)
    requires k in t.kids && k != PRIORITY && forall j :: j in rest ==> j in t.kids
    ensures ApplyKids(t, [k] + rest, [], node) == ApplyKids(t, rest, [], ApplyAt(t.kids[k], [k], node))
  {
    assert ([k] + rest)[1..] == rest && [] + [k] == [k];
  }

  /** A single write below the root. */
  lemma ApplyOne(k: Key, x: Node, base: Node)
    requires k != PRIORITY
    ensures ApplyToNode(Tree(None, map[k := ValueTree(x)]), base) == base.UpdateChild([k], x)
  {
    var t: WriteTree := Tree(None, map[k := ValueTree(x)]);
    assert t.kids.Keys == {k} && t.kids[k] == ValueTree(x);
    OneSorted(ByString, k);
    ApplyFirst(t, k, [], base);
    assert [k] + [] == [k];
    assert ApplyAt(t.kids[k], [k], base) == base.UpdateChild([k], x);
  }

  /** Two writes below the root, in the order of their keys. */
  lemma ApplyTwo(t: WriteTree, a: Key, b: Key, x: Node, y: Node, base: Node)
    requires a != PRIORITY && b != PRIORITY && LexLess(a, b)
    requires t.value.None? && t.kids.Keys == {a, b} && t.kids[a] == ValueTree(x) && t.kids[b] == ValueTree(y)
    ensures ApplyToNode(t, base) == base.UpdateChild([a], x).UpdateChild([b], y)
  {
    TwoSorted(ByString, a, b);
    ApplyKidsTwo(t, a, b, base);
    ApplyValue(x, a, base);
    ApplyValue(y, b, base.UpdateChild([a], x));
    assert PRIORITY !in t.kids.Keys;
  }

  lemma ApplyKidsTwo(t: WriteTree, a: Key, b: Key, base: Node)
    requires a != PRIORITY && b != PRIORITY && a in t.kids && b in t.kids
    ensures ApplyKids(t, [a, b], [], base) == ApplyAt(t.kids[b], [b], ApplyAt(t.kids[a], [a], base))
  {
    assert [a] + [b] == [a, b] && [b] + [] == [b];
    ApplyFirst(t, a, [b], base);
    ApplyFirst(t, b, [], ApplyAt(t.kids[a], [a], base));
  }

  lemma ApplyValue(x: Node, k: Key, base: Node)
    ensures ApplyAt(ValueTree(x), [k], base) == base.UpdateChild([k], x)
  {
  }

  lemma ApplyNothing(node: Node)
    ensures ApplyToNode(EmptyTree(), node) == node
  {
  }

  /** The event tree below a path is the compound write below it applied to the data below it. */
  lemma {:induction false} Localisation(t: WriteTree, path: Path, node: Node)
    requires Wf(t) && Canonical(node) && PlainPath(path)
    ensures ApplyToNode(t, node).GetChild(path) == ApplyToNode(ChildAt(t, path), node.GetChild(path))
    decreases path
  {
    if path == [] {
      ChildAtRoot(t);
    } else if t.value.None? {
      var j := path[0];
      assert [j] + path[1..] == path;
      ApplyKeepsCanonical(t, [], node);
      GetKeepsCanonical(node, [j]);
      ApplyAtKey(t, j, node);
      GetInSteps(ApplyToNode(t, node), [j], path[1..]);
      GetInSteps(node, [j], path[1..]);
      Localisation(t.ChildOrEmpty(j), path[1..], node.GetChild([j]));
      EmptyChildren(path[1..]);
    }
  }

  /** Where a complete write shadows a path, the event tree there does not depend on the server's data. */
  lemma ShadowedMeansIndependent(t: WriteTree, path: Path, node: Node)
    requires Wf(t) && Canonical(node) && PlainPath(path) && Complete(t, path).Some?
    ensures ApplyToNode(t, node).GetChild(path) == Complete(t, path).value
  {
    Localisation(t, path, node);
    ChildAtByCases(t, path);
  }
}
