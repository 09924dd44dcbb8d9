/**
 Exactly when taking back a write keeps the cache right, in a log of priority-free records, hidden ones included,
 exit by exit: a hidden record always; behind a shadow when no entry left a trace, that is, displaced a leaf that
 only deletions followed; after a rebuild when every hidden write is covered up; after a plain removal when every
 entry goes: where its path is erased all other writes lie beside it, else it leaves no mark in the value above.
 */
module RemovalVerdicts {
  import opened Options
  import opened Keys
  import opened Paths
  import opened Nodes
  import opened Enumerations
  import opened ImmutableTrees
  import opened CompoundWrites
  import opened Overlays
  import opened Replays
  import opened Layering
  import opened Removals
  import opened Observations
  import opened RemovalMarks
  import opened HiddenWrites
  import opened WriteLogs

  /* ---------- the verdict on any log ---------- */

  lemma PlainRest(log: seq<WriteRecord>, index: nat)
    requires PlainLog(log) && index < |log|
    ensures PlainLog(RemoveAt(log, index)) && PlainLog(log[..index]) && PlainLog(log[index + 1..])
  {
  }

  /** The guard, exit by exit; everything in it can be computed before the removal. */
  ghost predicate RemovalIsRight(log: seq<WriteRecord>, index: nat)
    requires index < |log|
  {
    var before, own, after := Visible(log[..index]), Writes(log[index]), Visible(log[index + 1..]);
    match OutcomeOf(log, index)
    case Hidden => true
    case Shadowed =>
      forall e :: 0 <= e < |own| ==> !LeavesTrace(VisibleLayer(log[..index]), own[e].0, own[e].1, after)
    case Overlapping => HiddenCoveredUp(RemoveAt(log, index))
    case Separate => forall e :: 0 <= e < |own| ==> EntryGoes(before, own[e], after)
  }

  lemma PlainParts(log: seq<WriteRecord>, index: nat)
    requires PlainLog(log) && index < |log|
    ensures PlainWrites(Visible(log[..index])) && PlainWrites(Visible(log[index + 1..]))
    ensures PlainWrites(Writes(log[index])) && Apart(Writes(log[index]))
  {
    PlainRest(log, index);
    PlainVisible(log[..index]);
    PlainVisible(log[index + 1..]);
    WritesAreApart(log[index]);
  }

  lemma ShadowedVerdict(log: seq<WriteRecord>, index: nat)
    requires PlainLog(log) && index < |log| && OutcomeOf(log, index) == Shadowed
    ensures VisibleLayer(log) == VisibleLayer(RemoveAt(log, index)) <==> RemovalIsRight(log, index)
  {
    PlainParts(log, index);
    var c := ShadowingWrite(log, index);
    LayersAround(log, index);
    WritesAreWithin(log[index]);
    ShadowedExact(Visible(log[..index]), Writes(log[index]), Visible(log[index + 1..]), log[index].path, c);
  }

  lemma SeparateVerdict(log: seq<WriteRecord>, index: nat)
    requires PlainLog(log) && index < |log| && OutcomeOf(log, index) == Separate
    ensures EraseAll(VisibleLayer(log), Writes(log[index])) == VisibleLayer(RemoveAt(log, index))
            <==> RemovalIsRight(log, index)
  {
    PlainParts(log, index);
    LayersAround(log, index);
    SeparateExact(Visible(log[..index]), Writes(log[index]), Visible(log[index + 1..]));
  }

  lemma RebuildVerdict(rest: seq<WriteRecord>)
    requires PlainLog(rest)
    ensures Layer(rest, []) == VisibleLayer(rest) <==> HiddenCoveredUp(rest)
  {
    var rebuilt, wanted := Layer(rest, []), VisibleLayer(rest);
    PlainFlatten(rest);
    PlainVisible(rest);
    LayerIsPutAll(rest);
    VisibleLayerIsPutAll(rest);
    PutAllKeepsPlain(EmptyTree(), Flatten(rest));
    PutAllKeepsPlain(EmptyTree(), Visible(rest));
    HiddenExact(rest);
    forall z: Path | PlainPath(z) ensures Observe(rebuilt, z) == Observe(wanted, z) <==> HiddenDoNotShow(rest, z) {
      ShownIsObserved(Flatten(rest), z);
      ShownIsObserved(Visible(rest), z);
    }
    if HiddenCoveredUp(rest) {
      SameObservationsSameTree(rebuilt, wanted);
    }
  }

  /** Taking back any priority-free record keeps the cache right exactly when the guard of its exit holds. */
  lemma RemovalVerdict(s: LogState, id: int)
    requires CacheAgrees(s) && PlainLog(s.allWrites) && IndexOf(s.allWrites, id) < |s.allWrites|
    ensures CacheAgrees(AfterRemove(s, id)) <==> RemovalIsRight(s.allWrites, IndexOf(s.allWrites, id))
  {
    var log, index := s.allWrites, IndexOf(s.allWrites, id);
    match OutcomeOf(log, index) {
      case Hidden => HiddenKeepsCache(log, index);
      case Shadowed => ShadowedVerdict(log, index);
      case Overlapping =>
        PlainRest(log, index);
        RebuildVerdict(RemoveAt(log, index));
      case Separate => SeparateVerdict(log, index);
    }
  }

  /* ---------- the verdict on a run ---------- */

  ghost predicate PlainOperation(op: Operation) {
    op.Add? ==> PlainRecord(op.record)
  }

  /** The cache is right after every operation. */
  ghost predicate AgreesThroughout(s: LogState, ops: seq<Operation>)
    decreases ops
  {
    ops != [] ==> CacheAgrees(Step(s, ops[0])) && AgreesThroughout(Step(s, ops[0]), ops[1..])
  }

  /** The guard of every removal holds for the log of that moment. */
  ghost predicate RemovalsAreRight(s: LogState, ops: seq<Operation>)
    decreases ops
  {
    ops != [] ==>
      && (ops[0].Remove? && IndexOf(s.allWrites, ops[0].writeId) < |s.allWrites| ==>
            RemovalIsRight(s.allWrites, IndexOf(s.allWrites, ops[0].writeId)))
      && RemovalsAreRight(Step(s, ops[0]), ops[1..])
  }

  lemma StepKeepsPlain(s: LogState, op: Operation)
    requires PlainLog(s.allWrites) && PlainOperation(op)
    ensures PlainLog(Step(s, op).allWrites)
  {
    match op {
      case Add(r) =>
      case Remove(id) =>
        var index := IndexOf(s.allWrites, id);
        if index < |s.allWrites| {
          PlainRest(s.allWrites, index);
          assert AfterRemove(s, id).allWrites == RemoveAt(s.allWrites, index);
        }
      case RemoveAll =>
    }
  }

  lemma StepVerdict(s: LogState, op: Operation)
    requires CacheAgrees(s) && PlainLog(s.allWrites) && PlainOperation(op)
    ensures CacheAgrees(Step(s, op))
            <==> (op.Remove? && IndexOf(s.allWrites, op.writeId) < |s.allWrites| ==>
                    RemovalIsRight(s.allWrites, IndexOf(s.allWrites, op.writeId)))
  {
    match op {
      case Add(r) => AddKeepsCache(s, r);
      case Remove(id) =>
        if IndexOf(s.allWrites, id) < |s.allWrites| {
          RemovalVerdict(s, id);
        }
      case RemoveAll =>
    }
  }

  /** Over a whole run the cache is right throughout exactly when the guard of every removal holds. */
  lemma {:induction false} RunVerdict(s: LogState, ops: seq<Operation>)
    requires CacheAgrees(s) && PlainLog(s.allWrites) && forall i :: 0 <= i < |ops| ==> PlainOperation(ops[i])
    ensures AgreesThroughout(s, ops) <==> RemovalsAreRight(s, ops)
    decreases ops
  {
    if ops != [] {
      StepVerdict(s, ops[0]);
      if CacheAgrees(Step(s, ops[0])) {
        StepKeepsPlain(s, ops[0]);
        RunVerdict(Step(s, ops[0]), ops[1..]);
      }
    }
  }

  /* ---------- the guards of a log of overwrites ---------- */

  /** An overwrite without priorities, visible or hidden. */
  ghost predicate PlainOverwrite(r: WriteRecord) {
    r.record.Overwrite? && Plain(r.record.node) && PlainPath(r.path)
  }

  ghost predicate PlainOverwrites(log: seq<WriteRecord>) {
    forall i :: 0 <= i < |log| ==> PlainOverwrite(log[i])
  }

  /** The guard of an overwrite among overwrites. */
  ghost predicate OverwriteRemovalIsRight(log: seq<WriteRecord>, index: nat)
    requires index < |log| && log[index].record.Overwrite?
  {
    var earlier, p, x := VisibleLayer(log[..index]), log[index].path, log[index].record.node;
    match OutcomeOf(log, index)
    case Hidden => true
    case Shadowed => !LeavesTrace(earlier, p, x, Visible(log[index + 1..]))
    case Overlapping => HiddenCoveredUp(RemoveAt(log, index))
    case Separate => Complete(earlier, p).None? || Complete(earlier, p) == Some(x)
  }

  lemma WritesOfOverwrite(r: WriteRecord)
    requires PlainOverwrite(r)
    ensures Writes(r) == [(r.path, r.record.node)] && PlainRecord(r)
  {
    PlainIsCanonical(r.record.node);
  }

  lemma OverwritesArePlain(log: seq<WriteRecord>)
    requires PlainOverwrites(log)
    ensures PlainLog(log)
  {
    forall i | 0 <= i < |log| ensures PlainRecord(log[i]) {
      WritesOfOverwrite(log[i]);
    }
  }

  /** The visible writes of such a log are the paths and nodes of its visible records. */
  lemma FromRecord(log: seq<WriteRecord>, i: nat) returns (j: nat)
    requires PlainOverwrites(log) && i < |Visible(log)|
    ensures j < |log| && log[j].visible && Visible(log)[i] == (log[j].path, log[j].record.node)
  {
    j := VisibleFrom(log, Visible(log)[i]);
    WritesOfOverwrite(log[j]);
  }

  lemma ShadowsOfOverwrite(r: WriteRecord, p: Path)
    requires PlainOverwrite(r)
    ensures Shadows(r, p) <==> Contains(r.path, p)
  {
    WritesOfOverwrite(r);
    assert Writes(r)[0].0 == r.path;
  }

  /** In a plain removal, no other visible record lies at or below the removed one and no later one above it. */
  lemma SeparateMeans(log: seq<WriteRecord>, index: nat, j: nat)
    requires PlainOverwrites(log) && index < |log| && OutcomeOf(log, index) == Separate
    requires j < |log| && j != index && log[j].visible
    ensures !Contains(log[index].path, log[j].path)
    ensures j > index ==> !Contains(log[j].path, log[index].path)
  {
    var rest, at := RemoveAt(log, index), if j < index then j else j - 1;
    RestAt(log, index, j);
    assert rest[at] == log[j];
    ShadowsOfOverwrite(log[j], log[index].path);
  }

  lemma SeparateOverwrite(log: seq<WriteRecord>, index: nat)
    requires PlainOverwrites(log) && index < |log| && OutcomeOf(log, index) == Separate
    ensures EraseAll(VisibleLayer(log), Writes(log[index])) == VisibleLayer(RemoveAt(log, index))
            <==> OverwriteRemovalIsRight(log, index)
  {
    var p, x := log[index].path, log[index].record.node;
    var before, after := Visible(log[..index]), Visible(log[index + 1..]);
    OverwritesArePlain(log);
    PlainRest(log, index);
    PlainVisible(log[..index]);
    PlainVisible(log[index + 1..]);
    PlainIsCanonical(x);
    forall i | 0 <= i < |before| ensures !Contains(p, before[i].0) {
      var j := FromRecord(log[..index], i);
      SeparateMeans(log, index, j);
    }
    forall i | 0 <= i < |after| ensures Incomparable(p, after[i].0) {
      var j := FromRecord(log[index + 1..], i);
      SeparateMeans(log, index, index + 1 + j);
    }
    OverwriteRemovalExact(before, p, x, after);
    OneErased(VisibleLayer(log), p, x);
    WritesOfOverwrite(log[index]);
    LayersAround(log, index);
  }

  lemma OneErased(t: WriteTree, p: Path, x: Node)
    ensures EraseAll(t, [(p, x)]) == Erase(t, p)
  {
    assert EraseAll(Erase(t, p), [(p, x)][1..]) == Erase(t, p);
  }

  /** Taking back an overwrite keeps the cache right exactly when the guard of its exit holds. */
  lemma OverwriteRemovalVerdict(s: LogState, id: int)
    requires CacheAgrees(s) && PlainOverwrites(s.allWrites)
    requires IndexOf(s.allWrites, id) < |s.allWrites|
    ensures CacheAgrees(AfterRemove(s, id)) <==> OverwriteRemovalIsRight(s.allWrites, IndexOf(s.allWrites, id))
  {
    var log, index := s.allWrites, IndexOf(s.allWrites, id);
    OverwritesArePlain(log);
    RemovalVerdict(s, id);
    OverwriteGuard(log, index);
  }

  lemma OverwriteGuard(log: seq<WriteRecord>, index: nat)
    requires PlainOverwrites(log) && index < |log|
    ensures OverwriteRemovalIsRight(log, index) <==> RemovalIsRight(log, index)
  {
    OverwritesArePlain(log);
    if OutcomeOf(log, index) == Separate {
      SeparateOverwrite(log, index);
      SeparateVerdict(log, index);
    } else if OutcomeOf(log, index) == Shadowed {
      WritesOfOverwrite(log[index]);
      OneTrace(VisibleLayer(log[..index]), log[index].path, log[index].record.node, Visible(log[index + 1..]));
    }
  }

  lemma OneTrace(earlier: WriteTree, p: Path, x: Node, after: seq<(Path, Node)>)
    ensures var own := [(p, x)];
            (forall e :: 0 <= e < |own| ==> !LeavesTrace(earlier, own[e].0, own[e].1, after))
            <==> !LeavesTrace(earlier, p, x, after)
  {
    var own := [(p, x)];
    assert own[0].0 == p && own[0].1 == x;
  }

  /* ---------- cases where the removal is wrong ---------- */

  function Set(id: int, path: Path, node: Node, visible: bool): WriteRecord {
    WriteRecord(Overwrite(node), id, path, visible)
  }

  /** A log with its cache. */
  ghost function Cached(log: seq<WriteRecord>): LogState {
    LogState(CompoundWrite(VisibleLayer(log)), log, LastId(log))
  }

  lemma LeafIsPlain(v: LeafValue)
    ensures Plain(Leaf(v, Empty)) && Plain(Empty)
  {
  }

  /** Set "a", set "a/a", take the latter back: "a" keeps what the second write made of it. */
  lemma PlainRemovalForgetsNothing(i: int, j: int, k: Key, v: LeafValue, u: LeafValue)
    requires i < j && k != PRIORITY
    ensures var s := Cached([Set(i, [k], Leaf(v, Empty), true), Set(j, [k, k], Leaf(u, Empty), true)]);
            !CacheAgrees(AfterRemove(s, j))
  {
    var a, r := Set(i, [k], Leaf(v, Empty), true), Set(j, [k, k], Leaf(u, Empty), true);
    var log := [a, r];
    LeafIsPlain(v);
    LeafIsPlain(u);
    assert IndexOf(log, j) == 1 by {
      assert log[1..] == [r];
    }
    SecondIsSeparate(a, r);
    assert log[..1] == [a];
    OneWriteHeld(a, [k, k]);
    OverwriteRemovalVerdict(Cached(log), j);
  }

  lemma SecondIsSeparate(a: WriteRecord, r: WriteRecord)
    requires r.visible && !Contains(r.path, a.path)
    ensures OutcomeOf([a, r], 1) == Separate
  {
    assert RemoveAt([a, r], 1) == [a];
  }

  lemma OneWriteLayer(r: WriteRecord)
    requires PlainOverwrite(r) && r.visible
    ensures VisibleLayer([r]) == Put(EmptyTree(), r.record.node, r.path) && PlainTree(VisibleLayer([r]))
  {
    WritesOfOverwrite(r);
    VisibleOne(r);
    VisibleLayerIsPutAll([r]);
    OnePut(EmptyTree(), r.record.node, r.path);
    PutKeepsPlain(EmptyTree(), r.record.node, r.path);
  }

  lemma OnePut(t: WriteTree, x: Node, path: Path)
    requires Wf(t)
    ensures PutAll(t, [(path, x)]) == Put(t, x, path)
  {
    AddWriteIsPut(t, x, path);
    assert PutAll(t, [(path, x)]) == PutAll(Put(t, x, path), []);
  }

  lemma {:induction false} CompleteInPut(x: Node, path: Path, rest: Path)
    ensures Complete(Put(EmptyTree(), x, path), path + rest) == Some(x.GetChild(rest))
    decreases path
  {
    if path == [] {
      assert path + rest == rest;
    } else {
      assert (path + rest)[1..] == path[1..] + rest;
      CompleteInPut(x, path[1..], rest);
    }
  }

  /** The layer of one write, looked up below it. */
  lemma OneWriteHeld(r: WriteRecord, p: Path)
    requires PlainOverwrite(r) && r.visible && Contains(r.path, p)
    ensures PlainTree(VisibleLayer([r])) && Complete(VisibleLayer([r]), p) == Some(r.record.node.GetChild(p[|r.path|..]))
  {
    OneWriteLayer(r);
    assert r.path + p[|r.path|..] == p;
    CompleteInPut(r.record.node, r.path, p[|r.path|..]);
  }

  /** Set "a", set "a/a", delete "a/a", take the second back: "a" stays deleted although it is still set. */
  lemma ShadowedRemovalLeavesTrace(i: int, j: int, m: int, k: Key, v: LeafValue, u: LeafValue)
    requires i < j < m && k != PRIORITY
    ensures var s := Cached([Set(i, [k], Leaf(v, Empty), true), Set(j, [k, k], Leaf(u, Empty), true),
                             Set(m, [k, k], Empty, true)]);
            OutcomeOf(s.allWrites, 1) == Shadowed && !CacheAgrees(AfterRemove(s, j))
  {
    var a, r, d := Set(i, [k], Leaf(v, Empty), true), Set(j, [k, k], Leaf(u, Empty), true), Set(m, [k, k], Empty, true);
    LeafIsPlain(v);
    LeafIsPlain(u);
    var log := [a, r, d];
    assert IndexOf(log, j) == 1 by {
      assert log[1..] == [r, d];
    }
    SecondIsShadowed(a, r, d);
    TraceIsLeft(k, a, d);
    assert log[..1] == [a] && log[2..] == [d];
    OverwriteRemovalVerdict(Cached(log), j);
  }

  lemma SecondIsShadowed(a: WriteRecord, r: WriteRecord, d: WriteRecord)
    requires r.visible && PlainOverwrite(d) && d.visible && Contains(d.path, r.path)
    ensures OutcomeOf([a, r, d], 1) == Shadowed
  {
    var rest := RemoveAt([a, r, d], 1);
    assert rest == [a, d] && rest[1] == d;
    ShadowsOfOverwrite(d, r.path);
  }

  lemma TraceIsLeft(k: Key, a: WriteRecord, d: WriteRecord)
    requires PlainOverwrite(a) && a.visible && a.path == [k] && a.record.node.Leaf?
    requires PlainOverwrite(d) && d.visible && d.path == [k, k] && d.record.node == Empty
    ensures forall x: Node :: x != Empty ==> LeavesTrace(VisibleLayer([a]), [k, k], x, Visible([d]))
  {
    OneWriteHeld(a, [k]);
    assert a.record.node.GetChild([k][1..]) == a.record.node;
    assert WritesLeaf(VisibleLayer([a]), [k]);
    VisibleOne(d);
    WritesOfOverwrite(d);
    assert StrictlyAbove([k], [k, k]);
    assert OnlyDeletionsBelow(Visible([d]), [k]);
  }

  lemma ResetHasHidden(h: WriteRecord, c: WriteRecord)
    requires h.record.Overwrite? && c.record.Overwrite? && Incomparable(h.path, c.path) && PlainPath(h.path) && ValidPath(c.path)
    requires Plain(h.record.node) && Plain(c.record.node)
    ensures ChildAt(Layer([h, c], []), h.path) == ValueTree(h.record.node)
  {
    var x, y := h.record.node, c.record.node;
    PlainIsCanonical(x);
    PlainIsCanonical(y);
    assert [] + [h] == [h] && [h] + [c] == [h, c];
    LayerLast([], h, []);
    LayerLast([h], c, []);
    assert RelativePath([], h.path) == h.path && RelativePath([], c.path) == c.path;
    var t := Put(EmptyTree(), x, h.path);
    AddWriteIsPut(EmptyTree(), x, h.path);
    PutKeepsWf(EmptyTree(), x, h.path);
    AddWriteIsPut(t, y, c.path);
    ChildOfPutBeside(t, y, c.path, h.path);
    ChildOfPutAbove(EmptyTree(), x, h.path, []);
    assert h.path + [] == h.path;
  }

  lemma CacheLacksHidden(h: WriteRecord, c: WriteRecord)
    requires !h.visible && PlainOverwrite(c) && c.visible && Incomparable(h.path, c.path) && PlainPath(h.path)
    ensures ChildAt(VisibleLayer([h, c]), h.path) == EmptyTree()
  {
    VisibleInSteps([h], [c]);
    VisibleOne(h);
    VisibleOne(c);
    WritesOfOverwrite(c);
    assert [h] + [c] == [h, c];
    VisibleLayerIsPutAll([h, c]);
    PutAllBeside(EmptyTree(), h.path, [(c.path, c.record.node)]);
    EmptyChildren(h.path);
  }

  /** A reset layers hidden records too, contrary to the filter's own comment. */
  lemma ResetShowsHidden(i: int, j: int, m: int, g: Key, k: Key, v: LeafValue)
    requires i < j < m && g != k && g != PRIORITY && k != PRIORITY
    ensures var s := Cached([Set(i, [g], Leaf(v, Empty), false), Set(j, [k], Leaf(v, Empty), true),
                             Set(m, [k, k], Leaf(v, Empty), true)]);
            OutcomeOf(s.allWrites, 1) == Overlapping && !CacheAgrees(AfterRemove(s, j))
  {
    var h, r, c := Set(i, [g], Leaf(v, Empty), false), Set(j, [k], Leaf(v, Empty), true), Set(m, [k, k], Leaf(v, Empty), true);
    var log := [h, r, c];
    LeafIsPlain(v);
    assert IndexOf(log, j) == 1 by {
      assert log[1..] == [r, c];
    }
    assert RemoveAt(log, 1) == [h, c];
    ShadowsOfOverwrite(c, [k]);
    assert Contains([k], [h, c][1].path);
    assert !IsShadowed([h, c], 1, [k]);
    assert [g][0] != [k, k][0];
    ResetHasHidden(h, c);
    CacheLacksHidden(h, c);
  }

  lemma {:induction false} EntriesOfPut(x: Node, path: Path)
    ensures Entries(Put(EmptyTree(), x, path)) == [(path, x)]
    decreases path
  {
    if path != [] {
      var k, rest := path[0], Put(EmptyTree(), x, path[1..]);
      var t := Put(EmptyTree(), x, path);
      EntriesOfPut(x, path[1..]);
      assert t.kids == map[k := rest] && t.kids.Keys == {k};
      OneSorted(ByString, k);
      assert KidEntries(t, [k]) == Below(k, Entries(rest)) + KidEntries(t, [k][1..]);
      assert [k] + path[1..] == path;
    }
  }

  /** Merge "a/b" at the root, set "a", take the latter back: the merge's write below "a" is erased with it. */
  lemma PlainRemovalTakesMergeAlong(i: int, j: int, a: Key, b: Key, v: LeafValue, u: LeafValue)
    requires i < j && a != PRIORITY && b != PRIORITY
    ensures var merge := WriteRecord(Merge(CompoundWrite(Put(EmptyTree(), Leaf(v, Empty), [a, b]))), i, [], true);
            var s := Cached([merge, Set(j, [a], Leaf(u, Empty), true)]);
            OutcomeOf(s.allWrites, 1) == Separate && !CacheAgrees(AfterRemove(s, j))
  {
    var x := Leaf(v, Empty);
    var merge := WriteRecord(Merge(CompoundWrite(Put(EmptyTree(), x, [a, b]))), i, [], true);
    var r := Set(j, [a], Leaf(u, Empty), true);
    var log := [merge, r];
    LeafIsPlain(v);
    LeafIsPlain(u);
    assert IndexOf(log, j) == 1 by {
      assert log[1..] == [r];
    }
    WritesOfOneMerge(merge, x, [a, b]);
    SecondTakesAlong(merge, r, x, [a, b]);
    WritesOfOverwrite(r);
    RemovalVerdict(Cached(log), j);
  }

  lemma SecondTakesAlong(merge: WriteRecord, r: WriteRecord, x: Node, q: Path)
    requires merge.visible && r.visible && Writes(merge) == [(q, x)] && PlainOverwrite(r)
    requires StrictlyAbove(r.path, q) && !Contains(r.path, merge.path)
    ensures OutcomeOf([merge, r], 1) == Separate && !RemovalIsRight([merge, r], 1)
  {
    var log := [merge, r];
    SecondIsSeparate(merge, r);
    WritesOfOverwrite(r);
    assert log[..1] == [merge] && log[2..] == [];
    VisibleOne(merge);
    MergeStaysBelow(r.path, q, x, r.record.node);
    assert Writes(r)[0] == (r.path, r.record.node);
  }

  lemma WritesOfOneMerge(r: WriteRecord, x: Node, path: Path)
    requires Plain(x) && PlainPath(path)
    requires r.path == [] && r.visible && r.record == Merge(CompoundWrite(Put(EmptyTree(), x, path)))
    ensures Writes(r) == [(path, x)] && PlainRecord(r)
  {
    EntriesOfPut(x, path);
    PlainIsCanonical(x);
    EmptyIsWf();
    PutKeepsWf(EmptyTree(), x, path);
    assert [] + path == path;
    assert Under([], [(path, x)]) == [(path, x)];
  }

  lemma MergeStaysBelow(p: Path, q: Path, x: Node, y: Node)
    requires StrictlyAbove(p, q)
    ensures !EntryGoes([(q, x)], (p, y), Visible([]))
  {
    assert WriteLists([]) == [];
    var all := [(q, x)] + Visible([]);
    assert all == [(q, x)];
    assert all[0].0 == q;
  }
}
