/**
 Event caches (FWriteTree.swift): the data a client shows, computed from the server's data and the
 pending writes. Whatever is excluded or included, the result is the subtree of the full event tree.
 */
module EventCaches {
  import opened Options
  import opened Keys
  import opened Paths
  import opened Nodes
  import opened LeafViews
  import opened ImmutableTrees
  import opened CompoundWrites
  import opened Overlays
  import opened Replays
  import opened Layering
  import opened WriteLogs

  /* ---------- the calculations ---------- */

  predicate IsKept(r: WriteRecord, exclude: Option<seq<int>>, includeHidden: bool) {
    (r.visible || includeHidden) && !(exclude.Some? && r.writeId in exclude.value)
  }

  function Kept(exclude: Option<seq<int>>, includeHidden: bool): WriteRecord -> bool {
    (r: WriteRecord) => IsKept(r, exclude, includeHidden)
  }

  function KeptOverlapping(exclude: Option<seq<int>>, includeHidden: bool, treePath: Path): WriteRecord -> bool {
    (r: WriteRecord) =>
      IsKept(r, exclude, includeHidden) && (Contains(r.path, treePath) || Contains(treePath, r.path))
  }

  function Or(n: Option<Node>, default: Node): Node {
    if n.Some? then n.value else default
  }

  /** `calculateCompleteEventCacheAtPath`. */
  ghost function EventCache(s: LogState, treePath: Path, server: Option<Node>, exclude: Option<seq<int>>, includeHidden: bool)
    : Option<Node>
  {
    var merge := s.visibleWrites.ChildCompoundWriteAtPath(treePath);
    if exclude.None? && !includeHidden then
      match s.visibleWrites.CompleteNodeAtPath(treePath)
      case Some(shadowing) => Some(shadowing)
      case None =>
        if merge.IsEmpty() then server
        else if server.None? && !merge.HasCompleteWriteAtPath([]) then None
        else Some(ApplyToNode(merge.writeTree, Or(server, Empty)))
    else if !includeHidden && merge.IsEmpty() then server
    else if !includeHidden && server.None? && !merge.HasCompleteWriteAtPath([]) then None
    else
      var mergeAtPath := Layer(Filter(s.allWrites, KeptOverlapping(exclude, includeHidden, treePath)), treePath);
      Some(ApplyToNode(mergeAtPath, Or(server, Empty)))
  }

  /** `calculateEventCacheAfterServerOverwriteAtPath`. */
  ghost function AfterServerOverwrite(s: LogState, treePath: Path, childPath: Path, existingServerSnap: Node): Option<Node> {
    var path := treePath + childPath;
    if s.visibleWrites.HasCompleteWriteAtPath(path) then None
    else
      var childMerge := s.visibleWrites.ChildCompoundWriteAtPath(path);
      if childMerge.IsEmpty() then Some(existingServerSnap.GetChild(childPath))
      else Some(ApplyToNode(childMerge.writeTree, existingServerSnap.GetChild(childPath)))
  }

  /** A server cache node: the data with what is known about its completeness (FCacheNode.swift). */
  datatype CacheNode = CacheNode(node: Node, isFullyInitialized: bool, isFiltered: bool) {
    predicate IsCompleteForChild(key: Key) {
      (isFullyInitialized && !isFiltered) || !node.GetImmediateChild(key).IsEmpty()
    }
  }

  /** `calculateCompleteChildAtPath`. */
  ghost function CompleteChild(s: LogState, treePath: Path, key: Key, cache: CacheNode): Option<Node> {
    var path := treePath + [key];
    match s.visibleWrites.CompleteNodeAtPath(path)
    case Some(shadowing) => Some(shadowing)
    case None =>
      if cache.IsCompleteForChild(key) then
        Some(ApplyToNode(s.visibleWrites.ChildCompoundWriteAtPath(path).writeTree, cache.node.GetImmediateChild(key)))
      else None
  }

  /* ---------- what they mean ---------- */

  /** The event tree: the records kept, layered over a server tree. */
  ghost function EventTree(log: seq<WriteRecord>, keep: WriteRecord -> bool, server: Node): Node {
    ApplyToNode(Layer(Filter(log, keep), []), server)
  }

  /** Records beside the path do not matter when layering at it. */
  lemma {:induction false} OnlyOverlappingMatter(log: seq<WriteRecord>, exclude: Option<seq<int>>, includeHidden: bool, path: Path)
    ensures Layer(Filter(log, KeptOverlapping(exclude, includeHidden, path)), path)
            == Layer(Filter(log, Kept(exclude, includeHidden)), path)
  {
    if log != [] {
      var front, last := log[..|log| - 1], log[|log| - 1];
      OnlyOverlappingMatter(front, exclude, includeHidden, path);
      LayerLastKept(front, KeptOverlapping(exclude, includeHidden, path), last, path);
      LayerLastKept(front, Kept(exclude, includeHidden), last, path);
      assert log == front + [last];
      BesideAddsNothing(Layer(Filter(front, Kept(exclude, includeHidden)), path), last, path);
      KeptMeans(exclude, includeHidden, path, last);
    }
  }

  lemma KeptMeans(exclude: Option<seq<int>>, includeHidden: bool, path: Path, r: WriteRecord)
    ensures KeptOverlapping(exclude, includeHidden, path)(r)
            <==> Kept(exclude, includeHidden)(r) && (Contains(r.path, path) || Contains(path, r.path))
  {
  }

  lemma BesideAddsNothing(t: WriteTree, r: WriteRecord, path: Path)
    ensures Incomparable(r.path, path) ==> LayerRecord(t, r, path) == t
  {
  }

  lemma {:induction false} FilterIsPart(log: seq<WriteRecord>, keep: WriteRecord -> bool)
    ensures forall r :: r in Filter(log, keep) ==> r in log && keep(r)
  {
    if log != [] {
      FilterIsPart(log[..|log| - 1], keep);
    }
  }

  lemma {:induction false} PutAllStaysNonEmpty(t: WriteTree, writes: seq<(Path, Node)>)
    requires !t.IsEmpty() && Wf(t) && ValidWrites(writes)
    ensures !PutAll(t, writes).IsEmpty()
    decreases writes
  {
    if writes != [] {
      var (q, x) := writes[0];
      AddWriteIsPut(t, x, q);
      PutKeepsWf(t, x, q);
      PutIsNotEmpty(t, x, q);
      PutAllStaysNonEmpty(Put(t, x, q), writes[1..]);
    }
  }

  /** Layering on top of something leaves something. */
  lemma LayerRecordGrows(t: WriteTree, r: WriteRecord, root: Path)
    requires Wf(t) && ValidRecord(r) && PlainPath(root) && !t.IsEmpty()
    ensures !LayerRecord(t, r, root).IsEmpty()
  {
    if r.record.Overwrite? {
      if Contains(root, r.path) {
        AddWriteIsPut(t, r.record.node, RelativePath(root, r.path));
        PutIsNotEmpty(t, r.record.node, RelativePath(root, r.path));
      }
    } else if Contains(root, r.path) {
      var relative := RelativePath(root, r.path);
      EntriesAreValid(r.record.merge.writeTree, relative);
      PutAllStaysNonEmpty(t, Under(relative, Entries(r.record.merge.writeTree)));
    }
  }

  lemma LayerRecordKeepsWf(t: WriteTree, r: WriteRecord, root: Path)
    requires Wf(t) && ValidRecord(r) && PlainPath(root)
    ensures Wf(LayerRecord(t, r, root))
  {
    match r.record {
      case Overwrite(node) =>
        if Contains(root, r.path) {
          var relative := RelativePath(root, r.path);
          assert forall i :: 0 <= i < |relative| ==> relative[i] == r.path[|root| + i];
          AddWriteIsPut(t, node, relative);
          PutKeepsWf(t, node, relative);
        } else if Contains(r.path, root) {
          GetKeepsCanonical(node, RelativePath(r.path, root));
        }
      case Merge(merge) =>
        if Contains(root, r.path) {
          var relative := RelativePath(root, r.path);
          assert forall i :: 0 <= i < |relative| ==> relative[i] == r.path[|root| + i];
          EntriesAreValid(merge.writeTree, relative);
          PutAllKeepsWf(t, Under(relative, Entries(merge.writeTree)));
        } else if Contains(r.path, root) {
          var relative := RelativePath(r.path, root);
          CompleteIsRecursive(merge.writeTree, relative);
          ChildAtByCases(merge.writeTree, relative);
          ChildKeepsWf(merge.writeTree, relative);
          if Complete(merge.writeTree, relative).Some? {
            GetKeepsCanonical(Complete(merge.writeTree, relative).value, relative[1..]);
          }
        }
    }
  }

  lemma {:induction false} LayerAtKeepsWf(log: seq<WriteRecord>, root: Path)
    requires PlainPath(root) && forall r :: r in log ==> ValidRecord(r)
    ensures Wf(Layer(log, root))
  {
    if log == [] {
      EmptyIsWf();
    } else {
      LayerAtKeepsWf(log[..|log| - 1], root);
      LayerRecordKeepsWf(Layer(log[..|log| - 1], root), log[|log| - 1], root);
    }
  }

  /** If the visible writes leave nothing at the path, neither does any part of them. */
  lemma {:induction false} EmptyForAllParts(log: seq<WriteRecord>, keep: WriteRecord -> bool, root: Path)
    requires ValidLog(log) && PlainPath(root)
    requires forall i :: 0 <= i < |log| && keep(log[i]) ==> log[i].visible
    requires Layer(Filter(log, IsVisible), root).IsEmpty()
    ensures Layer(Filter(log, keep), root).IsEmpty()
  {
    if log != [] {
      var front, last := log[..|log| - 1], log[|log| - 1];
      var visible := Filter(front, IsVisible);
      assert log == front + [last];
      LayerLastKept(front, IsVisible, last, root);
      LayerLastKept(front, keep, last, root);
      FilterIsPart(front, IsVisible);
      LayerAtKeepsWf(visible, root);
      if last.visible && !Layer(visible, root).IsEmpty() {
        LayerRecordGrows(Layer(visible, root), last, root);
      }
      EmptyForAllParts(front, keep, root);
      assert Layer(visible, root) == EmptyTree() == Layer(Filter(front, keep), root);
    }
  }

  /** Layering at the path takes over every merge rooted above it, among the kept records and the visible ones. */
  ghost predicate KeptFit(log: seq<WriteRecord>, exclude: Option<seq<int>>, includeHidden: bool, root: Path) {
    FitsThroughout(Filter(log, Kept(exclude, includeHidden)), root) && FitsThroughout(Filter(log, IsVisible), root)
  }

  /** So it is in a log without merges rooted above, or with merges that each fit by themselves. */
  lemma EachKeptFits(log: seq<WriteRecord>, exclude: Option<seq<int>>, includeHidden: bool, root: Path)
    requires forall r :: r in log ==> FitsAt(r, root)
    ensures KeptFit(log, exclude, includeHidden, root)
  {
    FilterIsPart(log, Kept(exclude, includeHidden));
    FilterIsPart(log, IsVisible);
    EachFits(Filter(log, Kept(exclude, includeHidden)), root);
    EachFits(Filter(log, IsVisible), root);
  }

  /** The kept records layered at the path are those of the full layering below it. */
  lemma KeptSeenFrom(log: seq<WriteRecord>, exclude: Option<seq<int>>, includeHidden: bool, path: Path)
    requires ValidLog(log) && KeptFit(log, exclude, includeHidden, path) && PlainPath(path)
    ensures Layer(Filter(log, KeptOverlapping(exclude, includeHidden, path)), path)
            == ChildAt(Layer(Filter(log, Kept(exclude, includeHidden)), []), path)
    ensures Wf(Layer(Filter(log, Kept(exclude, includeHidden)), []))
  {
    OnlyOverlappingMatter(log, exclude, includeHidden, path);
    FilterIsPart(log, Kept(exclude, includeHidden));
    LayerSeenFrom(Filter(log, Kept(exclude, includeHidden)), path);
    LayerKeepsWf(Filter(log, Kept(exclude, includeHidden)));
  }

  lemma {:induction false} KeptByDefault(log: seq<WriteRecord>, exclude: Option<seq<int>>)
    requires exclude == None || exclude == Some([])
    ensures Filter(log, Kept(exclude, false)) == Filter(log, IsVisible)
  {
    if log != [] {
      KeptByDefault(log[..|log| - 1], exclude);
    }
  }

  lemma CacheIsWf(s: LogState)
    requires CacheAgrees(s) && ValidLog(s.allWrites)
    ensures Wf(s.visibleWrites.writeTree)
  {
    FilterIsPart(s.allWrites, IsVisible);
    LayerKeepsWf(Filter(s.allWrites, IsVisible));
  }

  /** With the server's data at the path, the event cache is the event tree there, whatever is excluded. */
  lemma EventCacheIsEventTree(s: LogState, path: Path, server: Node, exclude: Option<seq<int>>, includeHidden: bool)
    requires CacheAgrees(s) && ValidLog(s.allWrites) && KeptFit(s.allWrites, exclude, includeHidden, path)
    requires PlainPath(path) && Canonical(server)
    ensures EventCache(s, path, Some(server.GetChild(path)), exclude, includeHidden)
            == Some(EventTree(s.allWrites, Kept(exclude, includeHidden), server).GetChild(path))
  {
    var kept := Layer(Filter(s.allWrites, Kept(exclude, includeHidden)), []);
    var w := s.visibleWrites.writeTree;
    CacheIsWf(s);
    KeptSeenFrom(s.allWrites, exclude, includeHidden, path);
    Localisation(kept, path, server);
    if exclude.None? && !includeHidden {
      KeptByDefault(s.allWrites, exclude);
      CachedForm(s, path, Some(server.GetChild(path)));
      NothingApplied(ChildAt(w, path), server.GetChild(path));
    } else {
      ChildWriteIsRecursive(w, path);
      if !includeHidden && ChildAt(w, path).IsEmpty() {
        NothingKept(s, path, exclude);
        NothingApplied(ChildAt(kept, path), server.GetChild(path));
      }
    }
  }

  /** Where the visible records write nothing, no part of them does. */
  lemma NothingKept(s: LogState, path: Path, exclude: Option<seq<int>>)
    requires CacheAgrees(s) && ValidLog(s.allWrites) && KeptFit(s.allWrites, exclude, false, path) && PlainPath(path)
    requires ChildAt(s.visibleWrites.writeTree, path).IsEmpty()
    ensures ChildAt(Layer(Filter(s.allWrites, Kept(exclude, false)), []), path).IsEmpty()
  {
    FilterIsPart(s.allWrites, IsVisible);
    LayerSeenFrom(Filter(s.allWrites, IsVisible), path);
    EmptyForAllParts(s.allWrites, Kept(exclude, false), path);
    FilterIsPart(s.allWrites, Kept(exclude, false));
    LayerSeenFrom(Filter(s.allWrites, Kept(exclude, false)), path);
  }

  lemma NothingApplied(t: WriteTree, node: Node)
    ensures t.IsEmpty() ==> ApplyToNode(t, node) == node
  {
    ApplyNothing(node);
  }

  /** Both calculations in terms of the writes below the path. */
  ghost function OverlayAt(below: WriteTree, server: Option<Node>): Option<Node> {
    if below.IsEmpty() then server
    else if server.None? && below.value.None? then None
    else Some(ApplyToNode(below, Or(server, Empty)))
  }

  lemma CachedForm(s: LogState, path: Path, server: Option<Node>)
    requires Wf(s.visibleWrites.writeTree)
    ensures EventCache(s, path, server, None, false) == OverlayAt(ChildAt(s.visibleWrites.writeTree, path), server)
  {
    var w := s.visibleWrites.writeTree;
    ChildWriteIsRecursive(w, path);
    CompleteIsRecursive(w, path);
    ChildAtByCases(w, path);
    ChildKeepsWf(w, path);
    CompleteIsRecursive(ChildAt(w, path), []);
    if Complete(w, path).Some? {
      assert Or(server, Empty).UpdateChild([], Complete(w, path).value) == Complete(w, path).value;
    }
  }

  lemma RelayeredForm(s: LogState, path: Path, server: Option<Node>)
    requires Wf(s.visibleWrites.writeTree)
    requires Layer(Filter(s.allWrites, KeptOverlapping(Some([]), false, path)), path)
             == ChildAt(s.visibleWrites.writeTree, path)
    ensures EventCache(s, path, server, Some([]), false) == OverlayAt(ChildAt(s.visibleWrites.writeTree, path), server)
  {
    var w := s.visibleWrites.writeTree;
    ChildWriteIsRecursive(w, path);
    ChildKeepsWf(w, path);
    CompleteIsRecursive(ChildAt(w, path), []);
  }

  /** Without exclusions, the cached and the re-layered event cache are the same. */
  lemma CachedEqualsRelayered(s: LogState, path: Path, server: Option<Node>)
    requires CacheAgrees(s) && ValidLog(s.allWrites) && KeptFit(s.allWrites, Some([]), false, path) && PlainPath(path)
    ensures EventCache(s, path, server, None, false) == EventCache(s, path, server, Some([]), false)
  {
    CacheIsWf(s);
    KeptByDefault(s.allWrites, Some([]));
    KeptSeenFrom(s.allWrites, Some([]), false, path);
    CachedForm(s, path, server);
    RelayeredForm(s, path, server);
  }

  /* ---------- answers without server data ---------- */

  /** Two server trees: one without data at the path, one with a child there that the overlay does not mention. */
  lemma UnmentionedChild(below: WriteTree, path: Path) returns (k: Key, server: Node)
    requires Wf(below) && below.value.None? && PlainPath(path)
    ensures k != PRIORITY && Canonical(server)
    ensures ApplyToNode(below, server.GetChild(path)).GetChild([k]) != Empty
    ensures ApplyToNode(below, Empty).GetChild([k]) == Empty
  {
    k := FreshKey(below.kids.Keys);
    var leaf := Leaf(Boolean(true), Empty);
    server := Empty.UpdateChild(path + [k], leaf);
    UpdateKeepsCanonical(Empty, path + [k], leaf);
    GetAboveUpdate(Empty, path, [k], leaf);
    EmptyStaysEmpty(path);
    var base := server.GetChild(path);
    GetBelowUpdate(Empty, [k], [], leaf);
    assert [k] + [] == [k] && leaf.GetChild([]) == leaf;
    GetKeepsCanonical(server, path);
    ApplyAtKey(below, k, base);
    ApplyAtKey(below, k, Empty);
    ApplyNothing(base.GetChild([k]));
    ApplyNothing(Empty);
  }

  /**
   A result without server data is the event subtree of every server tree exactly when the kept records
   are complete at the path.
   */
  lemma ResultWithoutServer(s: LogState, path: Path, exclude: Option<seq<int>>, includeHidden: bool)
    requires CacheAgrees(s) && ValidLog(s.allWrites) && PlainPath(path)
    requires exclude.Some? || includeHidden ==> KeptFit(s.allWrites, exclude, includeHidden, path)
    requires EventCache(s, path, None, exclude, includeHidden).Some?
    ensures (forall server | Canonical(server) ::
               EventTree(s.allWrites, Kept(exclude, includeHidden), server).GetChild(path)
               == EventCache(s, path, None, exclude, includeHidden).value)
            <==> Complete(Layer(Filter(s.allWrites, Kept(exclude, includeHidden)), []), path).Some?
  {
    var kept := Layer(Filter(s.allWrites, Kept(exclude, includeHidden)), []);
    var below := ChildAt(kept, path);
    FilterIsPart(s.allWrites, Kept(exclude, includeHidden));
    LayerKeepsWf(Filter(s.allWrites, Kept(exclude, includeHidden)));
    ResultFromNothing(s, path, exclude, includeHidden);
    ChildAtByCases(kept, path);
    ChildKeepsWf(kept, path);
    forall server | Canonical(server)
      ensures EventTree(s.allWrites, Kept(exclude, includeHidden), server).GetChild(path)
              == ApplyToNode(below, server.GetChild(path))
    {
      Localisation(kept, path, server);
    }
    if Complete(kept, path).None? {
      var k, server := UnmentionedChild(below, path);
      assert EventTree(s.allWrites, Kept(exclude, includeHidden), server).GetChild(path)
          != EventCache(s, path, None, exclude, includeHidden).value;
    }
  }

  /** Such a result is the kept overlay applied to nothing. */
  lemma ResultFromNothing(s: LogState, path: Path, exclude: Option<seq<int>>, includeHidden: bool)
    requires CacheAgrees(s) && ValidLog(s.allWrites) && PlainPath(path)
    requires exclude.Some? || includeHidden ==> KeptFit(s.allWrites, exclude, includeHidden, path)
    requires EventCache(s, path, None, exclude, includeHidden).Some?
    ensures EventCache(s, path, None, exclude, includeHidden).value
            == ApplyToNode(ChildAt(Layer(Filter(s.allWrites, Kept(exclude, includeHidden)), []), path), Empty)
  {
    if exclude.None? && !includeHidden {
      CacheIsWf(s);
      KeptByDefault(s.allWrites, exclude);
      CachedForm(s, path, None);
    } else {
      KeptSeenFrom(s.allWrites, exclude, includeHidden, path);
    }
  }

  /** The calculation that transactions do not use: without exclusions such a result is always right. */
  lemma DefaultResultIsRight(s: LogState, path: Path, server: Node)
    requires CacheAgrees(s) && ValidLog(s.allWrites) && PlainPath(path) && Canonical(server)
    requires EventCache(s, path, None, None, false).Some?
    ensures EventTree(s.allWrites, IsVisible, server).GetChild(path) == EventCache(s, path, None, None, false).value
  {
    var w := s.visibleWrites.writeTree;
    CacheIsWf(s);
    CachedForm(s, path, None);
    ChildAtByCases(w, path);
    ShadowedMeansIndependent(w, path, server);
  }

  /** The case that fails: a pending set of "k", excluded, and no server data. The answer is that there is nothing. */
  lemma ExcludedLooksEmpty(id: int, k: Key, v: LeafValue, u: LeafValue)
    requires k != PRIORITY
    ensures var log := [WriteRecord(Overwrite(Leaf(v, Empty)), id, [k], true)];
            var s := LogState(CompoundWrite(VisibleLayer(log)), log, id);
            var server := Children(map[k := Leaf(u, Empty)], Empty);
            && CacheAgrees(s)
            && EventCache(s, [k], None, Some([id]), false) == Some(Empty)
            && EventTree(log, Kept(Some([id]), false), server).GetChild([k]) == Leaf(u, Empty)
  {
    var r := WriteRecord(Overwrite(Leaf(v, Empty)), id, [k], true);
    var log := [r];
    var s := LogState(CompoundWrite(VisibleLayer(log)), log, id);
    var server := Children(map[k := Leaf(u, Empty)], Empty);
    assert [] + [r] == log && RelativePath([], [k]) == [k];
    assert !Kept(Some([id]), false)(r) && !KeptOverlapping(Some([id]), false, [k])(r) && IsVisible(r);
    LayerLastKept([], Kept(Some([id]), false), r, []);
    LayerLastKept([], KeptOverlapping(Some([id]), false, [k]), r, [k]);
    LayerLastKept([], IsVisible, r, []);
    EmptyIsWf();
    AddWriteIsPut(EmptyTree(), Leaf(v, Empty), [k]);
    assert VisibleLayer(log) == Put(EmptyTree(), Leaf(v, Empty), [k]);
    CompleteAtKey(k, Leaf(v, Empty));
    var w := VisibleLayer(log);
    PutKeepsWf(EmptyTree(), Leaf(v, Empty), [k]);
    ChildWriteIsRecursive(w, [k]);
    ChildAtByCases(w, [k]);
    CompleteIsRecursive(ChildAt(w, [k]), []);
    ApplyNothing(Empty);
    ApplyNothing(server);
    GetOneKey(server, k);
  }

  lemma CompleteAtKey(k: Key, x: Node)
    ensures Complete(Put(EmptyTree(), x, [k]), [k]) == Some(x)
  {
    assert [k][1..] == [];
    assert EmptyTree<Node>().ChildOrEmpty(k) == EmptyTree();
    assert Put(EmptyTree(), x, [k]).kids[k] == ValueTree(x);
    assert x.GetChild([]) == x;
  }

  /** No result: the event subtree is the same for every server tree. A result: it is the event subtree. */
  lemma ServerOverwriteIsExact(s: LogState, treePath: Path, childPath: Path, server: Node, other: Node)
    requires CacheAgrees(s) && ValidLog(s.allWrites)
    requires PlainPath(treePath + childPath) && Canonical(server) && Canonical(other)
    ensures var path := treePath + childPath;
            match AfterServerOverwrite(s, treePath, childPath, server.GetChild(treePath))
            case None => EventTree(s.allWrites, IsVisible, server).GetChild(path)
                         == EventTree(s.allWrites, IsVisible, other).GetChild(path)
            case Some(n) => n == EventTree(s.allWrites, IsVisible, server).GetChild(path)
  {
    var path, w := treePath + childPath, s.visibleWrites.writeTree;
    CacheIsWf(s);
    ChildWriteIsRecursive(w, path);
    CompleteIsRecursive(w, path);
    ChildAtByCases(w, path);
    assert PlainPath(treePath) by {
      assert forall i :: 0 <= i < |treePath| ==> treePath[i] == path[i];
    }
    GetInSteps(server, treePath, childPath);
    Localisation(w, path, server);
    Localisation(w, path, other);
    NothingApplied(ChildAt(w, path), server.GetChild(path));
  }

  /** The cache agrees with the server tree at every child it claims to have. */
  ghost predicate ReflectsServer(cache: CacheNode, server: Node) {
    forall k :: k != PRIORITY && cache.IsCompleteForChild(k) ==> cache.node.GetImmediateChild(k) == server.GetImmediateChild(k)
  }

  /** A complete child is the event subtree of every server tree the cache may stand for. */
  lemma CompleteChildIsExact(s: LogState, treePath: Path, key: Key, cache: CacheNode, server: Node)
    requires CacheAgrees(s) && ValidLog(s.allWrites) && PlainPath(treePath + [key]) && Canonical(server)
    requires ReflectsServer(cache, server.GetChild(treePath))
    ensures CompleteChild(s, treePath, key, cache).Some? ==>
              CompleteChild(s, treePath, key, cache).value
              == EventTree(s.allWrites, IsVisible, server).GetChild(treePath + [key])
  {
    var path, w := treePath + [key], s.visibleWrites.writeTree;
    CacheIsWf(s);
    ChildWriteIsRecursive(w, path);
    CompleteIsRecursive(w, path);
    ChildAtByCases(w, path);
    assert PlainPath(treePath) && key != PRIORITY by {
      assert forall i :: 0 <= i < |treePath| ==> treePath[i] == path[i];
      assert path[|treePath|] == key;
    }
    GetInSteps(server, treePath, [key]);
    GetOneKey(server.GetChild(treePath), key);
    Localisation(w, path, server);
    ShadowedByValue(w, path, server);
  }

  lemma GetOneKey(n: Node, k: Key)
    ensures n.GetChild([k]) == n.GetImmediateChild(k)
  {
  }

  lemma ShadowedByValue(t: WriteTree, path: Path, server: Node)
    requires Wf(t) && PlainPath(path) && Canonical(server)
    ensures Complete(t, path).Some? ==> ApplyToNode(t, server).GetChild(path) == Complete(t, path).value
  {
    if Complete(t, path).Some? {
      ShadowedMeansIndependent(t, path, server);
    }
  }

  /* ---------- the event tree is the replay of the log ---------- */

  /** No write of the list is a deletion that takes back what displaced a leaf of the server's tree. */
  ghost predicate NoneDiverges(server: Node, writes: seq<(Path, Node)>) {
    forall i :: 0 <= i < |writes| ==>
      !Diverges(PutAll(EmptyTree(), writes[..i]), server, writes[i].1, writes[i].0)
  }

  /** Every write puts data, or no leaf of the server's tree lies above it. */
  ghost predicate PutsDataOrNoLeafAbove(server: Node, writes: seq<(Path, Node)>) {
    forall i :: 0 <= i < |writes| ==>
      writes[i].1 != Empty || forall q: Path :: StrictlyAbove(q, writes[i].0) ==> !IsLeafPath(server, q)
  }

  lemma {:induction false} OverlayIsReplay(server: Node, writes: seq<(Path, Node)>)
    requires Plain(server) && NoneDiverges(server, writes)
    requires forall i :: 0 <= i < |writes| ==> PlainPath(writes[i].0) && Plain(writes[i].1)
    ensures PlainTree(PutAll(EmptyTree(), writes))
    ensures ApplyToNode(PutAll(EmptyTree(), writes), server) == Replay(server, writes)
  {
    if writes == [] {
      ApplyNothing(server);
    } else {
      var n := |writes| - 1;
      var (p, x) := writes[n];
      NoneDivergesBefore(server, writes);
      OverlayIsReplay(server, writes[..n]);
      var t := PutAll(EmptyTree(), writes[..n]);
      PutLast(EmptyTree(), writes);
      OverlayEqualsReplay(CompoundWrite(t), server, x, p);
      AddWriteIsPut(t, x, p);
      PutKeepsPlain(t, x, p);
    }
  }

  lemma NoneDivergesBefore(server: Node, writes: seq<(Path, Node)>)
    requires NoneDiverges(server, writes) && writes != []
    ensures NoneDiverges(server, writes[..|writes| - 1])
  {
    var front := writes[..|writes| - 1];
    forall i | 0 <= i < |front| ensures front[i] == writes[i] && front[..i] == writes[..i] {
    }
  }

  lemma PuttingDataNeverDiverges(server: Node, writes: seq<(Path, Node)>)
    requires PutsDataOrNoLeafAbove(server, writes)
    ensures NoneDiverges(server, writes)
  {
  }

  /** The root event cache is the server's tree with the visible writes replayed in order. */
  lemma RootEventCacheIsReplay(s: LogState, server: Node)
    requires CacheAgrees(s) && ValidLog(s.allWrites) && Plain(server)
    requires forall i :: 0 <= i < |Visible(s.allWrites)| ==>
               PlainPath(Visible(s.allWrites)[i].0) && Plain(Visible(s.allWrites)[i].1)
    requires NoneDiverges(server, Visible(s.allWrites))
    ensures EventCache(s, [], Some(server), None, false) == Some(Replay(server, Visible(s.allWrites)))
  {
    OverlayIsReplay(server, Visible(s.allWrites));
    VisibleLayerIsPutAll(s.allWrites);
    CacheIsWf(s);
    CachedForm(s, [], Some(server));
    ChildAtRoot(s.visibleWrites.writeTree);
    NothingApplied(s.visibleWrites.writeTree, server);
  }
}
