/**
 When there is a complete child (FWriteTree.swift, `calculateCompleteChildAtPath`): exactly when all server trees
 that a cache may stand for give the child the same event subtree, which is then the answer.
 */
module ChildAnswers {
  import opened Keys
  import opened Paths
  import opened Nodes
  import opened CompoundWrites
  import opened Overlays
  import opened WriteLogs
  import opened EventCaches

  /**
   The cache may stand for the server's data: every child it holds is the server's, and a cache that is fully
   initialised and unfiltered lacks none.
   */
  ghost predicate MayStandFor(cache: CacheNode, data: Node) {
    forall k :: k != PRIORITY && (cache.node.GetImmediateChild(k) != Empty || (cache.isFullyInitialized && !cache.isFiltered))
      ==> data.GetImmediateChild(k) == cache.node.GetImmediateChild(k)
  }

  /** A server tree that the cache may stand for at the path. */
  ghost predicate IsPossible(cache: CacheNode, treePath: Path, server: Node) {
    Canonical(server) && MayStandFor(cache, server.GetChild(treePath))
  }

  ghost function EventChild(s: LogState, treePath: Path, key: Key, server: Node): Node {
    EventTree(s.allWrites, IsVisible, server).GetChild(treePath + [key])
  }

  /** The event subtree of the child is the same for all of them. */
  ghost predicate ChildIsSettled(s: LogState, treePath: Path, key: Key, cache: CacheNode) {
    forall a, b :: IsPossible(cache, treePath, a) && IsPossible(cache, treePath, b) ==>
      EventChild(s, treePath, key, a) == EventChild(s, treePath, key, b)
  }

  lemma PossibleReflects(cache: CacheNode, data: Node)
    requires Canonical(cache.node) && MayStandFor(cache, data)
    ensures ReflectsServer(cache, data)
  {
    forall k | k != PRIORITY && cache.IsCompleteForChild(k)
      ensures cache.node.GetImmediateChild(k) == data.GetImmediateChild(k)
    {
      assert cache.node.GetImmediateChild(k) != Empty || (cache.isFullyInitialized && !cache.isFiltered);
    }
  }

  lemma ResultIsEventChild(s: LogState, treePath: Path, key: Key, cache: CacheNode, server: Node)
    requires CacheAgrees(s) && ValidLog(s.allWrites) && PlainPath(treePath + [key]) && Canonical(cache.node)
    requires IsPossible(cache, treePath, server) && CompleteChild(s, treePath, key, cache).Some?
    ensures CompleteChild(s, treePath, key, cache).value == EventChild(s, treePath, key, server)
  {
    PossibleReflects(cache, server.GetChild(treePath));
    CompleteChildIsExact(s, treePath, key, cache, server);
  }

  /** A server tree with given data at a path. */
  lemma ServerWith(treePath: Path, data: Node) returns (server: Node)
    requires Canonical(data) && PlainPath(treePath)
    ensures Canonical(server) && server.GetChild(treePath) == data
  {
    server := Empty.UpdateChild(treePath, data);
    UpdateKeepsCanonical(Empty, treePath, data);
    GetBelowUpdate(Empty, treePath, [], data);
    assert treePath + [] == treePath;
  }

  /** What the cache does not hold may be anything. */
  lemma AnyChildIsPossible(cache: CacheNode, key: Key, x: Node)
    requires Canonical(cache.node) && Canonical(x) && key != PRIORITY
    requires cache.node.GetImmediateChild(key) == Empty && !(cache.isFullyInitialized && !cache.isFiltered)
    ensures var data := cache.node.UpdateImmediateChild(key, x);
            Canonical(data) && MayStandFor(cache, data) && data.GetImmediateChild(key) == x
  {
    WithChildShape(cache.node, key, x);
    forall k | k != PRIORITY
      ensures cache.node.UpdateImmediateChild(key, x).GetImmediateChild(k)
              == if k == key then x else cache.node.GetImmediateChild(k)
    {
      ChildAfterUpdate(cache.node, key, x, k);
    }
  }

  /** The event child over a server tree. */
  lemma EventChildOver(s: LogState, treePath: Path, key: Key, server: Node)
    requires CacheAgrees(s) && ValidLog(s.allWrites) && PlainPath(treePath + [key]) && Canonical(server)
    ensures EventChild(s, treePath, key, server)
            == ApplyToNode(ChildAt(s.visibleWrites.writeTree, treePath + [key]),
                           server.GetChild(treePath).GetImmediateChild(key))
  {
    assert PlainPath(treePath) && key != PRIORITY by {
      assert forall i :: 0 <= i < |treePath| ==> treePath[i] == (treePath + [key])[i];
      assert (treePath + [key])[|treePath|] == key;
    }
    CacheIsWf(s);
    Localisation(s.visibleWrites.writeTree, treePath + [key], server);
    GetInSteps(server, treePath, [key]);
    GetOneKey(server.GetChild(treePath), key);
  }

  /** Without a result two possible server trees differ. */
  lemma NoResultNotSettled(s: LogState, treePath: Path, key: Key, cache: CacheNode)
    requires CacheAgrees(s) && ValidLog(s.allWrites) && PlainPath(treePath + [key]) && Canonical(cache.node)
    requires CompleteChild(s, treePath, key, cache).None?
    ensures !ChildIsSettled(s, treePath, key, cache)
  {
    var path, w := treePath + [key], s.visibleWrites.writeTree;
    assert PlainPath(treePath) && key != PRIORITY by {
      assert forall i :: 0 <= i < |treePath| ==> treePath[i] == path[i];
      assert path[|treePath|] == key;
    }
    CacheIsWf(s);
    CompleteIsRecursive(w, path);
    ChildAtByCases(w, path);
    ChildKeepsWf(w, path);
    var below := ChildAt(w, path);
    var j, x := UnmentionedChild(below, []);
    assert x.GetChild([]) == x;
    AnyChildIsPossible(cache, key, x);
    AnyChildIsPossible(cache, key, Empty);
    var a := ServerWith(treePath, cache.node.UpdateImmediateChild(key, x));
    var b := ServerWith(treePath, cache.node.UpdateImmediateChild(key, Empty));
    EventChildOver(s, treePath, key, a);
    EventChildOver(s, treePath, key, b);
    assert IsPossible(cache, treePath, a) && IsPossible(cache, treePath, b);
    assert EventChild(s, treePath, key, a).GetChild([j]) != EventChild(s, treePath, key, b).GetChild([j]);
  }

  /**
   There is a result exactly when the event subtree of the child is the same for all server trees the cache may
   stand for, and then the result is that subtree.
   */
  lemma CompleteChildExact(s: LogState, treePath: Path, key: Key, cache: CacheNode)
    requires CacheAgrees(s) && ValidLog(s.allWrites) && PlainPath(treePath + [key]) && Canonical(cache.node)
    ensures CompleteChild(s, treePath, key, cache).Some? <==> ChildIsSettled(s, treePath, key, cache)
    ensures forall server :: IsPossible(cache, treePath, server) && CompleteChild(s, treePath, key, cache).Some? ==>
              CompleteChild(s, treePath, key, cache).value == EventChild(s, treePath, key, server)
  {
    if CompleteChild(s, treePath, key, cache).Some? {
      forall server | IsPossible(cache, treePath, server)
        ensures CompleteChild(s, treePath, key, cache).value == EventChild(s, treePath, key, server)
      {
        ResultIsEventChild(s, treePath, key, cache, server);
      }
    } else {
      NoResultNotSettled(s, treePath, key, cache);
    }
  }
}
