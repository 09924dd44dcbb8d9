/** The write tree (FWriteTree.swift): the pending writes of a client with their cached overlay. */
module WriteTrees {
  import opened Options
  import opened Keys
  import opened Paths
  import opened Nodes
  import opened Enumerations
  import opened ImmutableTrees
  import opened CompoundWrites
  import opened Overlays
  import opened Layering
  import opened Removals
  import opened WriteLogs
  import opened EventCaches

  class WriteTree {
    var visibleWrites: CompoundWrite
    var allWrites: seq<WriteRecord>
    var lastWriteId: int

    constructor ()
      ensures State() == EmptyLog()
    {
      visibleWrites := EmptyWrite();
      allWrites := [];
      lastWriteId := -1;
    }

    function State(): LogState
      reads this
    {
      LogState(visibleWrites, allWrites, lastWriteId)
    }

    method AddOverwriteAtPath(path: Path, newData: Node, writeId: int, isVisible: bool)
      requires writeId > lastWriteId
      modifies this
      ensures State() == AfterAdd(old(State()), WriteRecord(Overwrite(newData), writeId, path, isVisible))
    {
      var record := WriteRecord(Overwrite(newData), writeId, path, isVisible);
      allWrites := allWrites + [record];
      if isVisible {
        visibleWrites := visibleWrites.AddWrite(newData, path);
        assert PutAll(old(visibleWrites).writeTree, [(path, newData)]) == visibleWrites.writeTree;
      }
      lastWriteId := writeId;
    }

    method AddMergeAtPath(path: Path, changedChildren: CompoundWrite, writeId: int)
      requires writeId > lastWriteId
      modifies this
      ensures State() == AfterAdd(old(State()), WriteRecord(Merge(changedChildren), writeId, path, true))
    {
      var record := WriteRecord(Merge(changedChildren), writeId, path, true);
      allWrites := allWrites + [record];
      visibleWrites := AddCompoundWrite(visibleWrites, changedChildren, path);
      lastWriteId := writeId;
    }

    /** Takes a write back; the result says whether views have to be reevaluated. */
    method RemoveWriteId(writeId: int) returns (mayHaveBeenVisible: bool)
      modifies this
      ensures State() == AfterRemove(old(State()), writeId)
      ensures var index := IndexOf(old(allWrites), writeId);
              mayHaveBeenVisible <==>
              index < |old(allWrites)| && OutcomeOf(old(allWrites), index) in {Overlapping, Separate}
    {
      var index := IndexOf(allWrites, writeId);
      if index == |allWrites| {
        return false;
      }
      var writeToRemove := allWrites[index];
      allWrites := RemoveAt(allWrites, index);
      var removedWriteWasVisible, removedWriteOverlapsWithOtherWrites := ScanOtherWrites(allWrites, index, writeToRemove);
      if !removedWriteWasVisible {
        return false;
      } else if removedWriteOverlapsWithOtherWrites {
        ResetTree();
        return true;
      } else {
        match writeToRemove.record {
          case Merge(merge) =>
            visibleWrites := ForEachRemoveWrite(merge.writeTree, writeToRemove.path, visibleWrites);
          case Overwrite(node) =>
            visibleWrites := visibleWrites.RemoveWriteAtPath(writeToRemove.path);
            assert EraseAll(visibleWrites.writeTree, [(writeToRemove.path, node)][1..]) == visibleWrites.writeTree;
        }
        return true;
      }
    }

    method RemoveAllWrites() returns (writes: seq<WriteRecord>)
      modifies this
      ensures writes == old(allWrites)
      ensures State() == Step(old(State()), RemoveAll)
    {
      writes := allWrites;
      visibleWrites := EmptyWrite();
      allWrites := [];
    }

    /** Re-layers every record; the filter that is passed accepts hidden ones too. */
    method ResetTree()
      modifies this
      ensures State() == LogState(CompoundWrite(Layer(allWrites, [])), old(allWrites), LastId(old(allWrites)))
    {
      visibleWrites := LayerTreeFromWrites(allWrites, Everything, []);
      FilterEverything(allWrites);
      lastWriteId := LastId(allWrites);
    }

    method CalculateCompleteEventCacheAtPath(treePath: Path, completeServerCache: Option<Node>,
                                             excludeWriteIds: Option<seq<int>>, includeHiddenWrites: bool)
      returns (node: Option<Node>)
      ensures node == EventCache(State(), treePath, completeServerCache, excludeWriteIds, includeHiddenWrites)
    {
      if excludeWriteIds.None? && !includeHiddenWrites {
        var shadowingNode := visibleWrites.CompleteNodeAtPath(treePath);
        if shadowingNode.Some? {
          return shadowingNode;
        }
        var subMerge := visibleWrites.ChildCompoundWriteAtPath(treePath);
        if subMerge.IsEmpty() {
          return completeServerCache;
        } else if completeServerCache.None? && !subMerge.HasCompleteWriteAtPath([]) {
          return None;
        } else {
          var event := ApplySubtreeWrite(subMerge.writeTree, [], Or(completeServerCache, Empty));
          return Some(event);
        }
      }
      var merge := visibleWrites.ChildCompoundWriteAtPath(treePath);
      if !includeHiddenWrites && merge.IsEmpty() {
        return completeServerCache;
      } else if !includeHiddenWrites && completeServerCache.None? && !merge.HasCompleteWriteAtPath([]) {
        return None;
      } else {
        var filter := KeptOverlapping(excludeWriteIds, includeHiddenWrites, treePath);
        var mergeAtPath := LayerTreeFromWrites(allWrites, filter, treePath);
        var event := ApplySubtreeWrite(mergeAtPath.writeTree, [], Or(completeServerCache, Empty));
        return Some(event);
      }
    }

    method CalculateEventCacheAfterServerOverwriteAtPath(treePath: Path, childPath: Path, existingServerSnap: Node)
      returns (node: Option<Node>)
      ensures node == AfterServerOverwrite(State(), treePath, childPath, existingServerSnap)
    {
      var path := treePath + childPath;
      if visibleWrites.HasCompleteWriteAtPath(path) {
        return None;
      }
      var childMerge := visibleWrites.ChildCompoundWriteAtPath(path);
      if childMerge.IsEmpty() {
        return Some(existingServerSnap.GetChild(childPath));
      } else {
        var event := ApplySubtreeWrite(childMerge.writeTree, [], existingServerSnap.GetChild(childPath));
        return Some(event);
      }
    }

    method CalculateCompleteChildAtPath(treePath: Path, childKey: Key, existingServerCache: CacheNode)
      returns (node: Option<Node>)
      ensures node == CompleteChild(State(), treePath, childKey, existingServerCache)
    {
      var path := treePath + [childKey];
      var shadowingNode := visibleWrites.CompleteNodeAtPath(path);
      if shadowingNode.Some? {
        return shadowingNode;
      } else if existingServerCache.IsCompleteForChild(childKey) {
        var childMerge := visibleWrites.ChildCompoundWriteAtPath(path);
        var event := ApplySubtreeWrite(childMerge.writeTree, [], existingServerCache.node.GetImmediateChild(childKey));
        return Some(event);
      } else {
        return None;
      }
    }
  }

  /** The loop of `removeWriteId` over the remaining records, from the last one down. */
  method ScanOtherWrites(allWrites: seq<WriteRecord>, index: nat, writeToRemove: WriteRecord)
    returns (removedWriteWasVisible: bool, removedWriteOverlapsWithOtherWrites: bool)
    ensures removedWriteWasVisible <==> writeToRemove.visible && !IsShadowed(allWrites, index, writeToRemove.path)
    ensures removedWriteWasVisible ==>
              (removedWriteOverlapsWithOtherWrites <==> IsOverlapping(allWrites, writeToRemove.path))
  {
    removedWriteWasVisible := writeToRemove.visible;
    removedWriteOverlapsWithOtherWrites := false;
    var i := |allWrites| - 1;
    while removedWriteWasVisible && i >= 0
      invariant -1 <= i < |allWrites|
      invariant removedWriteWasVisible ==> writeToRemove.visible
      invariant removedWriteWasVisible ==>
        forall j :: i < j < |allWrites| && j >= index && allWrites[j].visible ==> !Shadows(allWrites[j], writeToRemove.path)
      invariant !removedWriteWasVisible && writeToRemove.visible ==> IsShadowed(allWrites, index, writeToRemove.path)
      invariant removedWriteWasVisible ==>
        (removedWriteOverlapsWithOtherWrites <==>
          exists j :: i < j < |allWrites| && allWrites[j].visible && Contains(writeToRemove.path, allWrites[j].path))
    {
      var currentWrite := allWrites[i];
      if currentWrite.visible {
        var contains := false;
        if i >= index {
          contains := RecordContainsPath(currentWrite, writeToRemove.path);
        }
        if contains {
          // a later record covers the removed one
          removedWriteWasVisible := false;
        } else if Contains(writeToRemove.path, currentWrite.path) {
          removedWriteOverlapsWithOtherWrites := true;
        }
      }
      i := i - 1;
    }
  }

  predicate Everything(r: WriteRecord) {
    true
  }

  lemma {:induction false} FilterEverything(log: seq<WriteRecord>)
    ensures Filter(log, Everything) == log
  {
    if log != [] {
      FilterEverything(log[..|log| - 1]);
    }
  }

  /** Some write of the list covers the path. */
  ghost predicate AnyCovers(writes: seq<(Path, Node)>, path: Path) {
    exists i :: 0 <= i < |writes| && Contains(writes[i].0, path)
  }

  lemma AnyCoversInSteps(a: seq<(Path, Node)>, b: seq<(Path, Node)>, path: Path)
    ensures AnyCovers(a + b, path) <==> AnyCovers(a, path) || AnyCovers(b, path)
  {
    assert forall i :: 0 <= i < |a| ==> (a + b)[i] == a[i];
    assert forall i :: 0 <= i < |b| ==> (a + b)[|a| + i] == b[i];
  }

  /** `record(_:containsPath:)`: a merge is searched write by write until one covers the path. */
  method RecordContainsPath(record: WriteRecord, path: Path) returns (contains: bool)
    ensures contains <==> Shadows(record, path)
  {
    assert Shadows(record, path) <==> AnyCovers(Writes(record), path);
    match record.record {
      case Merge(merge) =>
        contains := EnumerateContains(merge.writeTree, record.path, path);
      case Overwrite(node) =>
        contains := Contains(record.path, path);
        assert Writes(record)[0].0 == record.path;
    }
  }

  method EnumerateContains(tree: WriteTreeOfNodes, pathSoFar: Path, path: Path) returns (contains: bool)
    ensures contains <==> AnyCovers(Under(pathSoFar, Entries(tree)), path)
    decreases tree
  {
    contains := false;
    var todo := tree.kids.Keys;
    ghost var kids := KidEntries(tree, Sorted(ByString, tree.kids.Keys));
    while todo != {} && !contains
      invariant todo <= tree.kids.Keys
      invariant AnyCovers(Under(pathSoFar, kids), path)
                <==> contains || AnyCovers(Under(pathSoFar, KidEntries(tree, Sorted(ByString, todo))), path)
    {
      var childKey := First(ByString, todo);
      var child := tree.kids[childKey];
      ghost var rest := KidEntries(tree, Sorted(ByString, todo - {childKey}));
      assert ([childKey] + Sorted(ByString, todo - {childKey}))[1..] == Sorted(ByString, todo - {childKey});
      UnderStep(pathSoFar, childKey, Entries(child), rest);
      AnyCoversInSteps(Under(pathSoFar + [childKey], Entries(child)), Under(pathSoFar, rest), path);
      contains := EnumerateContains(child, pathSoFar + [childKey], path);
      todo := todo - {childKey};
    }
    if tree.value.Some? {
      UnderLast(pathSoFar, kids, tree.value.value);
      AnyCoversInSteps(Under(pathSoFar, kids), [(pathSoFar, tree.value.value)], path);
      assert [(pathSoFar, tree.value.value)][0].0 == pathSoFar;
      contains := contains || Contains(pathSoFar, path);
    } else {
      assert kids + [] == kids;
    }
  }

  type WriteTreeOfNodes = Tree<Node>

  /** The visit of `enumerateWrites`, removing every write below `path`. */
  method ForEachRemoveWrite(tree: WriteTreeOfNodes, pathSoFar: Path, from: CompoundWrite) returns (newWrite: CompoundWrite)
    ensures newWrite.writeTree == EraseAll(from.writeTree, Under(pathSoFar, Entries(tree)))
    decreases tree
  {
    newWrite := from;
    var todo := tree.kids.Keys;
    while todo != {}
      invariant todo <= tree.kids.Keys
      invariant EraseAll(newWrite.writeTree, Under(pathSoFar, KidEntries(tree, Sorted(ByString, todo))))
                == EraseAll(from.writeTree, Under(pathSoFar, KidEntries(tree, Sorted(ByString, tree.kids.Keys))))
    {
      var childKey := First(ByString, todo);
      var child := tree.kids[childKey];
      ghost var rest := KidEntries(tree, Sorted(ByString, todo - {childKey}));
      assert ([childKey] + Sorted(ByString, todo - {childKey}))[1..] == Sorted(ByString, todo - {childKey});
      UnderStep(pathSoFar, childKey, Entries(child), rest);
      EraseAllInSteps(newWrite.writeTree, Under(pathSoFar + [childKey], Entries(child)), Under(pathSoFar, rest));
      newWrite := ForEachRemoveWrite(child, pathSoFar + [childKey], newWrite);
      todo := todo - {childKey};
    }
    ghost var kids := KidEntries(tree, Sorted(ByString, tree.kids.Keys));
    if tree.value.Some? {
      UnderLast(pathSoFar, kids, tree.value.value);
      EraseAllInSteps(from.writeTree, Under(pathSoFar, kids), [(pathSoFar, tree.value.value)]);
      newWrite := newWrite.RemoveWriteAtPath(pathSoFar);
      assert EraseAll(newWrite.writeTree, [(pathSoFar, tree.value.value)][1..]) == newWrite.writeTree;
    } else {
      assert kids + [] == kids;
    }
  }

  lemma {:induction false} EraseAllInSteps(t: WriteTreeOfNodes, a: seq<(Path, Node)>, b: seq<(Path, Node)>)
    ensures EraseAll(t, a + b) == EraseAll(EraseAll(t, a), b)
    decreases a
  {
    if a == [] {
      assert a + b == b;
    } else {
      assert (a + b)[1..] == a[1..] + b;
      EraseAllInSteps(CompoundWrite(t).RemoveWriteAtPath(a[0].0).writeTree, a[1..], b);
    }
  }
}
