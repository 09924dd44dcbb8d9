/**
 Layering a log of writes (FWriteTree.swift, `layerTreeFromWrites`; FWriteRecord.swift). The log layered
 at a path is the part of the full layering below that path, with one exception: a merge rooted above the
 path is only taken over when `MergeFits`.
 */
module Layering {
  import opened Options
  import opened Keys
  import opened Paths
  import opened Nodes
  import opened Enumerations
  import opened ImmutableTrees
  import opened CompoundWrites
  import opened Overlays

  datatype Write = Overwrite(node: Node) | Merge(merge: CompoundWrite)

  datatype WriteRecord = WriteRecord(record: Write, writeId: int, path: Path, visible: bool)

  ghost predicate ValidRecord(r: WriteRecord) {
    && ValidPath(r.path)
    && match r.record
       case Overwrite(node) => Canonical(node)
       case Merge(merge) => Wf(merge.writeTree) && PlainPath(r.path) && r.visible
  }

  /** The single writes of a record, in the order in which they are added. */
  ghost function Writes(r: WriteRecord): seq<(Path, Node)> {
    match r.record
    case Overwrite(node) => [(r.path, node)]
    case Merge(merge) => Under(r.path, Entries(merge.writeTree))
  }

  /* ---------- the algorithm ---------- */

  ghost function LayerRecord(t: WriteTree, r: WriteRecord, treeRoot: Path): WriteTree {
    match r.record
    case Overwrite(node) =>
      if Contains(treeRoot, r.path) then CompoundWrite(t).AddWrite(node, RelativePath(treeRoot, r.path)).writeTree
      else if Contains(r.path, treeRoot) then
        CompoundWrite(t).AddWrite(node.GetChild(RelativePath(r.path, treeRoot)), []).writeTree
      else t
    case Merge(merge) =>
      if Contains(treeRoot, r.path) then PutAll(t, Under(RelativePath(treeRoot, r.path), Entries(merge.writeTree)))
      else if Contains(r.path, treeRoot) then
        var relative := RelativePath(r.path, treeRoot);
        match merge.CompleteNodeAtPath(relative)
        case Some(child) => CompoundWrite(t).AddWrite(child.GetChild(relative[1..]), []).writeTree
        case None => t
      else t
  }

  ghost function Layer(log: seq<WriteRecord>, treeRoot: Path): WriteTree {
    if log == [] then EmptyTree()
    else LayerRecord(Layer(log[..|log| - 1], treeRoot), log[|log| - 1], treeRoot)
  }

  function Filter(log: seq<WriteRecord>, keep: WriteRecord -> bool): seq<WriteRecord> {
    if log == [] then []
    else
      var rest := Filter(log[..|log| - 1], keep);
      if keep(log[|log| - 1]) then rest + [log[|log| - 1]] else rest
  }

  lemma LayerLastKept(log: seq<WriteRecord>, keep: WriteRecord -> bool, r: WriteRecord, root: Path)
    ensures Layer(Filter(log + [r], keep), root)
            == if keep(r) then LayerRecord(Layer(Filter(log, keep), root), r, root) else Layer(Filter(log, keep), root)
  {
    assert (log + [r])[..|log|] == log;
    LayerLast(Filter(log, keep), r, root);
  }

  lemma LayerLast(log: seq<WriteRecord>, r: WriteRecord, root: Path)
    ensures Layer(log + [r], root) == LayerRecord(Layer(log, root), r, root)
  {
    assert (log + [r])[..|log + [r]| - 1] == log;
  }

  /** The loop; a merge rooted above the tree root contributes only what it writes at the root itself. */
  method LayerTreeFromWrites(writes: seq<WriteRecord>, filter: WriteRecord -> bool, treeRoot: Path)
    returns (compoundWrite: CompoundWrite)
    ensures compoundWrite.writeTree == Layer(Filter(writes, filter), treeRoot)
  {
    compoundWrite := EmptyWrite();
    for i := 0 to |writes|
      invariant compoundWrite.writeTree == Layer(Filter(writes[..i], filter), treeRoot)
    {
      var record := writes[i];
      assert writes[..i + 1] == writes[..i] + [record];
      LayerLastKept(writes[..i], filter, record, treeRoot);
      if filter(record) {
        match record.record {
          case Overwrite(overwrite) =>
            if Contains(treeRoot, record.path) {
              compoundWrite := compoundWrite.AddWrite(overwrite, RelativePath(treeRoot, record.path));
            } else if Contains(record.path, treeRoot) {
              var child := overwrite.GetChild(RelativePath(record.path, treeRoot));
              compoundWrite := compoundWrite.AddWrite(child, []);
            }
          case Merge(merge) =>
            if Contains(treeRoot, record.path) {
              compoundWrite := AddCompoundWrite(compoundWrite, merge, RelativePath(treeRoot, record.path));
            } else if Contains(record.path, treeRoot) {
              var relativePath := RelativePath(record.path, treeRoot);
              var child := merge.CompleteNodeAtPath(relativePath);
              if child.Some? {
                compoundWrite := compoundWrite.AddWrite(child.value.GetChild(relativePath[1..]), []);
              }
            }
        }
      }
    }
    assert writes[..|writes|] == writes;
  }

  /* ---------- the entries of a compound write ---------- */

  ghost predicate IsEntry(t: WriteTree, e: Path, v: Node) {
    t.Subtree(e).value == Some(v)
  }

  ghost predicate Sound(t: WriteTree, entries: seq<(Path, Node)>) {
    forall i :: 0 <= i < |entries| ==> IsEntry(t, entries[i].0, entries[i].1)
  }

  lemma {:induction false} EntriesAreSound(t: WriteTree)
    ensures Sound(t, Entries(t))
    decreases t, 1
  {
    KidEntriesAreSound(t, Sorted(ByString, t.kids.Keys));
  }

  lemma {:induction false} KidEntriesAreSound(t: WriteTree, keys: seq<Key>)
    requires forall k :: k in keys ==> k in t.kids
    ensures Sound(t, KidEntries(t, keys))
    ensures forall i :: 0 <= i < |KidEntries(t, keys)| ==>
              KidEntries(t, keys)[i].0 != [] && KidEntries(t, keys)[i].0[0] in keys
    decreases t, 0, |keys|
  {
    if keys != [] {
      var k := keys[0];
      EntriesAreSound(t.kids[k]);
      KidEntriesAreSound(t, keys[1..]);
      var head := Below(k, Entries(t.kids[k]));
      forall i | 0 <= i < |head| ensures IsEntry(t, head[i].0, head[i].1) {
        assert head[i].0[1..] == Entries(t.kids[k])[i].0;
        assert IsEntry(t.kids[k], Entries(t.kids[k])[i].0, Entries(t.kids[k])[i].1);
      }
    }
  }

  lemma {:induction false} EntriesAreApart(t: WriteTree)
    requires Wf(t)
    ensures Apart(Entries(t))
    decreases t, 1
  {
    SortedDistinct(ByString, t.kids.Keys);
    KidEntriesAreApart(t, Sorted(ByString, t.kids.Keys));
  }

  lemma {:induction false} KidEntriesAreApart(t: WriteTree, keys: seq<Key>)
    requires Wf(t) && Distinct(keys) && forall k :: k in keys ==> k in t.kids
    ensures Apart(KidEntries(t, keys))
    decreases t, 0, |keys|
  {
    if keys != [] {
      var k := keys[0];
      EntriesAreApart(t.kids[k]);
      KidEntriesAreApart(t, keys[1..]);
      KidEntriesAreSound(t, keys[1..]);
      var own, head, rest := Entries(t.kids[k]), Below(k, Entries(t.kids[k])), KidEntries(t, keys[1..]);
      forall i, j | 0 <= i < j < |head| ensures Incomparable(head[i].0, head[j].0) {
        ContainsThroughKey(k, own[i].0, own[j].0);
        ContainsThroughKey(k, own[j].0, own[i].0);
      }
      forall i, j | 0 <= i < |head| && 0 <= j < |rest| ensures Incomparable(head[i].0, rest[j].0) {
        assert head[i].0[0] == k && rest[j].0[0] in keys[1..];
      }
    }
  }

  lemma {:induction false} EntriesAreComplete(t: WriteTree, e: Path, v: Node)
    requires IsEntry(t, e, v)
    ensures (e, v) in Entries(t)
    decreases t, 1
  {
    var keys := Sorted(ByString, t.kids.Keys);
    if e == [] {
      assert Entries(t)[|Entries(t)| - 1] == (e, v);
    } else {
      assert e[0] in t.kids;
      KidEntriesAreComplete(t, keys, e, v);
    }
  }

  lemma {:induction false} KidEntriesAreComplete(t: WriteTree, keys: seq<Key>, e: Path, v: Node)
    requires forall k :: k in keys ==> k in t.kids
    requires e != [] && e[0] in keys && IsEntry(t, e, v)
    ensures (e, v) in KidEntries(t, keys)
    decreases t, 0, |keys|
  {
    var k := keys[0];
    if e[0] == k {
      EntriesAreComplete(t.kids[k], e[1..], v);
      var own := Entries(t.kids[k]);
      var i :| 0 <= i < |own| && own[i] == (e[1..], v);
      assert [k] + e[1..] == e;
      assert Below(k, own)[i] == (e, v);
      assert KidEntries(t, keys)[i] == (e, v);
    } else {
      KidEntriesAreComplete(t, keys[1..], e, v);
    }
  }

  /** A complete node comes from one entry at or above the path. */
  lemma {:induction false} CompleteFromEntry(t: WriteTree, path: Path) returns (e: Path, v: Node)
    requires Wf(t) && Complete(t, path).Some?
    ensures Contains(e, path) && IsEntry(t, e, v) && Complete(t, path) == Some(v.GetChild(path[|e|..]))
    decreases path
  {
    if t.value.Some? {
      e, v := [], t.value.value;
      assert path[0..] == path;
    } else {
      var e', v' := CompleteFromEntry(t.kids[path[0]], path[1..]);
      e, v := [path[0]] + e', v';
      assert e[1..] == e' && path[|e|..] == path[1..][|e'|..];
      assert path == [path[0]] + path[1..];
      ContainsThroughKey(path[0], e', path[1..]);
    }
  }

  /* ---------- many writes seen from a path ---------- */

  ghost predicate ValidWrites(writes: seq<(Path, Node)>) {
    forall i :: 0 <= i < |writes| ==> ValidPath(writes[i].0) && Canonical(writes[i].1)
  }

  lemma {:induction false} PutAllKeepsWf(t: WriteTree, writes: seq<(Path, Node)>)
    requires Wf(t) && ValidWrites(writes)
    ensures Wf(PutAll(t, writes))
    decreases writes
  {
    if writes != [] {
      AddWriteIsPut(t, writes[0].1, writes[0].0);
      PutKeepsWf(t, writes[0].1, writes[0].0);
      PutAllKeepsWf(Put(t, writes[0].1, writes[0].0), writes[1..]);
    }
  }

  lemma {:induction false} EntryIsValid(t: WriteTree, e: Path, v: Node)
    requires Wf(t) && IsEntry(t, e, v)
    ensures ValidPath(e) && Canonical(v)
    decreases e
  {
    if e != [] {
      EntryIsValid(t.kids[e[0]], e[1..], v);
      assert e[0] == PRIORITY ==> e[1..] == [];
      assert forall i :: 0 < i < |e| ==> e[i] == e[1..][i - 1];
    }
  }

  lemma EntriesAreValid(t: WriteTree, path: Path)
    requires Wf(t) && PlainPath(path)
    ensures ValidWrites(Under(path, Entries(t)))
  {
    EntriesAreSound(t);
    forall i | 0 <= i < |Entries(t)| ensures ValidPath(path + Entries(t)[i].0) && Canonical(Entries(t)[i].1) {
      EntryIsValid(t, Entries(t)[i].0, Entries(t)[i].1);
    }
  }

  lemma WritesAreValid(r: WriteRecord)
    requires ValidRecord(r)
    ensures ValidWrites(Writes(r))
  {
    if r.record.Merge? {
      EntriesAreValid(r.record.merge.writeTree, r.path);
    }
  }

  /** Writes at or below `root`, seen from it. */
  lemma {:induction false} PutAllSeenFrom(t: WriteTree, root: Path, writes: seq<(Path, Node)>)
    requires Wf(t) && PlainPath(root) && ValidWrites(Under(root, writes))
    ensures ChildAt(PutAll(t, Under(root, writes)), root) == PutAll(ChildAt(t, root), writes)
    decreases writes
  {
    if writes != [] {
      var (p, x) := writes[0];
      assert Under(root, writes)[0] == (root + p, x);
      assert Under(root, writes)[1..] == Under(root, writes[1..]);
      AddWriteIsPut(t, x, root + p);
      PutKeepsWf(t, x, root + p);
      ChildOfPutBelow(t, x, root, p);
      ChildKeepsWf(t, root);
      AddWriteIsPut(ChildAt(t, root), x, p);
      PutAllSeenFrom(Put(t, x, root + p), root, writes[1..]);
    }
  }

  /** Writes beside `root`, seen from it. */
  lemma {:induction false} PutAllBeside(t: WriteTree, root: Path, writes: seq<(Path, Node)>)
    requires Wf(t) && PlainPath(root) && ValidWrites(writes)
    requires forall i :: 0 <= i < |writes| ==> Incomparable(writes[i].0, root)
    ensures ChildAt(PutAll(t, writes), root) == ChildAt(t, root)
    decreases writes
  {
    if writes != [] {
      AddWriteIsPut(t, writes[0].1, writes[0].0);
      PutKeepsWf(t, writes[0].1, writes[0].0);
      ChildOfPutBeside(t, writes[0].1, writes[0].0, root);
      PutAllBeside(Put(t, writes[0].1, writes[0].0), root, writes[1..]);
    }
  }

  lemma UnderIncomparable(path: Path, a: Path, b: Path)
    ensures Incomparable(path + a, path + b) <==> Incomparable(a, b)
  {
    UnderContains(path, a, b);
    UnderContains(path, b, a);
  }

  lemma UnderContains(path: Path, a: Path, b: Path)
    ensures Contains(path + a, path + b) <==> Contains(a, b)
  {
    if Contains(path + a, path + b) {
      forall i | 0 <= i < |a| ensures a[i] == b[i] {
        assert (path + a)[|path| + i] == (path + b)[|path| + i];
      }
    }
  }

  /** One of the writes covers `root`, the others lie beside it: seen from `root`, the write wins. */
  lemma PutAllCovering(t: WriteTree, root: Path, writes: seq<(Path, Node)>, i: nat)
    requires Wf(t) && PlainPath(root) && ValidWrites(writes) && i < |writes|
    requires Contains(writes[i].0, root)
    requires forall j :: 0 <= j < |writes| && j != i ==> Incomparable(writes[j].0, root)
    ensures ChildAt(PutAll(t, writes), root) == ValueTree(writes[i].1.GetChild(root[|writes[i].0|..]))
  {
    var (p, x) := writes[i];
    var before, after := writes[..i], writes[i + 1..];
    assert writes == before + ([(p, x)] + after);
    PutAllInSteps(t, before, [(p, x)] + after);
    PutAllKeepsWf(t, before);
    var t1 := PutAll(t, before);
    AddWriteIsPut(t1, x, p);
    PutKeepsWf(t1, x, p);
    assert ([(p, x)] + after)[1..] == after;
    PutAllBeside(Put(t1, x, p), root, after);
    assert p + root[|p|..] == root;
    ChildOfPutAbove(t1, x, p, root[|p|..]);
  }

  /* ---------- the layering at a path ---------- */

  /**
   What the source takes over from a merge rooted `relative` above the tree root is right: it descends
   `relative` past its first component once more, and ignores everything below the root.
   */
  ghost predicate MergeFits(merge: CompoundWrite, relative: Path)
    requires relative != []
  {
    match Complete(merge.writeTree, relative)
    case Some(child) => child.GetChild(relative[1..]) == child
    case None => merge.writeTree.Subtree(relative).IsEmpty()
  }

  ghost predicate FitsAt(r: WriteRecord, root: Path) {
    r.record.Merge? && StrictlyAbove(r.path, root) ==> MergeFits(r.record.merge, RelativePath(r.path, root))
  }

  lemma LayerRecordAtTop(t: WriteTree, r: WriteRecord)
    ensures LayerRecord(t, r, []) == PutAll(t, Writes(r))
  {
    assert RelativePath([], r.path) == r.path;
    if r.record.Overwrite? {
      assert PutAll(t, [(r.path, r.record.node)]) == CompoundWrite(t).AddWrite(r.record.node, r.path).writeTree;
    }
  }

  /**
   The same for a merge on top of `below`, what is seen at the tree root so far: the writes at and below
   the root, which are ignored, must change nothing there.
   */
  ghost predicate MergeFitsOn(merge: CompoundWrite, relative: Path, below: WriteTree)
    requires relative != []
  {
    match Complete(merge.writeTree, relative)
    case Some(child) => child.GetChild(relative[1..]) == child
    case None => PutAll(below, Entries(merge.writeTree.Subtree(relative))) == below
  }

  lemma OverwriteSeenFrom(t: WriteTree, r: WriteRecord, root: Path)
    requires Wf(t) && ValidRecord(r) && r.record.Overwrite? && PlainPath(root)
    ensures LayerRecord(ChildAt(t, root), r, root) == ChildAt(LayerRecord(t, r, []), root)
  {
    var node := r.record.node;
    LayerRecordAtTop(t, r);
    AddWriteIsPut(t, node, r.path);
    ChildKeepsWf(t, root);
    if Contains(root, r.path) {
      var relative := RelativePath(root, r.path);
      AddWriteIsPut(ChildAt(t, root), node, relative);
      ChildOfPutBelow(t, node, root, relative);
    } else if Contains(r.path, root) {
      assert PlainPath(r.path);
      ChildOfPutAbove(t, node, r.path, RelativePath(r.path, root));
    } else {
      ChildOfPutBeside(t, node, r.path, root);
    }
  }

  /** A merge rooted at, below or beside the tree root. */
  lemma MergeNotAbove(t: WriteTree, r: WriteRecord, root: Path)
    requires Wf(t) && ValidRecord(r) && r.record.Merge? && PlainPath(root) && !StrictlyAbove(r.path, root)
    ensures LayerRecord(ChildAt(t, root), r, root) == ChildAt(LayerRecord(t, r, []), root)
  {
    var m := r.record.merge.writeTree;
    LayerRecordAtTop(t, r);
    WritesAreValid(r);
    if Contains(root, r.path) {
      var relative := RelativePath(root, r.path);
      assert Under(r.path, Entries(m)) == Under(root, Under(relative, Entries(m))) by {
        assert forall e: Path :: root + (relative + e) == root + relative + e;
      }
      PutAllSeenFrom(t, root, Under(relative, Entries(m)));
    } else {
      forall i | 0 <= i < |Entries(m)| ensures Incomparable(r.path + Entries(m)[i].0, root) {
        BesideBelow(r.path, root, Entries(m)[i].0);
      }
      PutAllBeside(t, root, Writes(r));
    }
  }

  /** A merge rooted strictly above the tree root, on top of any overlay: seen from the root exactly when it fits. */
  lemma MergeSeenExact(t: WriteTree, r: WriteRecord, root: Path)
    requires Wf(t) && ValidRecord(r) && r.record.Merge? && PlainPath(root) && StrictlyAbove(r.path, root)
    ensures LayerRecord(ChildAt(t, root), r, root) == ChildAt(LayerRecord(t, r, []), root)
            <==> MergeFitsOn(r.record.merge, RelativePath(r.path, root), ChildAt(t, root))
  {
    var m, relative := r.record.merge.writeTree, RelativePath(r.path, root);
    LayerRecordAtTop(t, r);
    CompleteIsRecursive(m, relative);
    if Complete(m, relative).Some? {
      MergeCovers(t, r.path, m, relative);
    } else {
      MergeBelow(t, r.path, m, relative);
    }
  }

  lemma BesideBelow(a: Path, b: Path, e: Path)
    requires Incomparable(a, b)
    ensures Incomparable(a + e, b)
  {
    assert forall i :: 0 <= i < |a| ==> (a + e)[i] == a[i];
  }

  lemma PartsArePlain(path: Path, relative: Path)
    requires PlainPath(path + relative)
    ensures PlainPath(path) && PlainPath(relative)
  {
    assert forall i :: 0 <= i < |path| ==> path[i] == (path + relative)[i];
    assert forall i :: 0 <= i < |relative| ==> relative[i] == (path + relative)[|path| + i];
  }

  /** A merge rooted above that is complete at the path: seen from there, its node wins. */
  lemma MergeCovers(t: WriteTree, path: Path, m: WriteTree, relative: Path)
    requires Wf(t) && Wf(m) && PlainPath(path + relative) && Complete(m, relative).Some?
    ensures ChildAt(PutAll(t, Under(path, Entries(m))), path + relative) == ValueTree(Complete(m, relative).value)
  {
    var root, entries, writes := path + relative, Entries(m), Under(path, Entries(m));
    PartsArePlain(path, relative);
    EntriesAreApart(m);
    EntriesAreValid(m, path);
    var e, v := CompleteFromEntry(m, relative);
    EntriesAreComplete(m, e, v);
    var i :| 0 <= i < |entries| && entries[i] == (e, v);
    UnderContains(path, e, relative);
    forall j | 0 <= j < |writes| && j != i ensures Incomparable(writes[j].0, root) {
      assert Incomparable(entries[j].0, e);
      BesideBelow(e, entries[j].0, relative[|e|..]);
      assert e + relative[|e|..] == relative;
      UnderIncomparable(path, entries[j].0, relative);
    }
    PutAllCovering(t, root, writes, i);
    assert root[|path + e|..] == relative[|e|..];
  }

  /** A merge rooted above and not complete at the path: seen from there, its writes at and below it. */
  lemma {:induction false} MergeBelow(t: WriteTree, path: Path, m: WriteTree, relative: Path)
    requires Wf(t) && Wf(m) && PlainPath(path + relative) && Complete(m, relative).None?
    ensures ChildAt(PutAll(t, Under(path, Entries(m))), path + relative)
            == PutAll(ChildAt(t, path + relative), Entries(m.Subtree(relative)))
    decreases m, 1
  {
    PartsArePlain(path, relative);
    EntriesAreValid(m, path);
    if relative == [] {
      assert path + relative == path;
      PutAllSeenFrom(t, path, Entries(m));
    } else {
      var keys := Sorted(ByString, m.kids.Keys);
      SortedDistinct(ByString, m.kids.Keys);
      KidsBelow(t, path, m, keys, relative);
      assert Entries(m) == KidEntries(m, keys);
      NoEntries();
    }
  }

  lemma NoEntries()
    ensures Entries(EmptyTree<Node>()) == []
  {
    var t := EmptyTree<Node>();
    assert t.kids.Keys == {};
    assert Sorted(ByString, t.kids.Keys) == [];
    assert KidEntries(t, []) == [];
  }

  lemma {:induction false} KidsBelow(t: WriteTree, path: Path, m: WriteTree, keys: seq<Key>, relative: Path)
    requires Wf(t) && Wf(m) && relative != [] && PlainPath(path + relative) && m.value.None? && Complete(m, relative).None?
    requires Distinct(keys) && forall k :: k in keys ==> k in m.kids
    ensures ChildAt(PutAll(t, Under(path, KidEntries(m, keys))), path + relative)
            == if relative[0] in keys then PutAll(ChildAt(t, path + relative), Entries(m.Subtree(relative)))
               else ChildAt(t, path + relative)
    decreases m, 0, |keys|
  {
    if keys != [] {
      var own := Under(path + [keys[0]], Entries(m.kids[keys[0]]));
      PartsArePlain(path, relative);
      FirstKid(t, path, m, keys);
      KidIsValid(m, path, keys[0]);
      PutAllKeepsWf(t, own);
      DistinctRest(keys);
      KidsBelow(PutAll(t, own), path, m, keys[1..], relative);
      KidBelow(t, path, m, keys[0], relative);
    }
  }

  lemma {:induction false} KidBelow(t: WriteTree, path: Path, m: WriteTree, k: Key, relative: Path)
    requires Wf(t) && Wf(m) && relative != [] && PlainPath(path + relative) && m.value.None? && Complete(m, relative).None?
    requires k in m.kids
    ensures ChildAt(PutAll(t, Under(path + [k], Entries(m.kids[k]))), path + relative)
            == if k == relative[0] then PutAll(ChildAt(t, path + relative), Entries(m.Subtree(relative)))
               else ChildAt(t, path + relative)
    decreases m, 0, 0
  {
    if k == relative[0] {
      assert path + [k] + relative[1..] == path + relative;
      MergeBelow(t, path + [k], m.kids[k], relative[1..]);
    } else {
      PartsArePlain(path, relative);
      KidIsValid(m, path, k);
      OtherKidBeside(t, path, k, Entries(m.kids[k]), relative);
    }
  }

  lemma FirstKid(t: WriteTree, path: Path, m: WriteTree, keys: seq<Key>)
    requires keys != [] && forall k :: k in keys ==> k in m.kids
    ensures PutAll(t, Under(path, KidEntries(m, keys)))
            == PutAll(PutAll(t, Under(path + [keys[0]], Entries(m.kids[keys[0]]))), Under(path, KidEntries(m, keys[1..])))
  {
    var own, rest := Entries(m.kids[keys[0]]), KidEntries(m, keys[1..]);
    UnderStep(path, keys[0], own, rest);
    PutAllInSteps(t, Under(path + [keys[0]], own), Under(path, rest));
  }

  lemma KidIsValid(m: WriteTree, path: Path, k: Key)
    requires Wf(m) && PlainPath(path) && k in m.kids
    ensures ValidWrites(Under(path + [k], Entries(m.kids[k])))
  {
    var entries := Entries(m.kids[k]);
    EntriesAreSound(m.kids[k]);
    forall i | 0 <= i < |entries| ensures ValidPath(path + [k] + entries[i].0) && Canonical(entries[i].1) {
      assert ([k] + entries[i].0)[1..] == entries[i].0;
      assert IsEntry(m.kids[k], entries[i].0, entries[i].1);
      assert IsEntry(m, [k] + entries[i].0, entries[i].1);
      EntryIsValid(m, [k] + entries[i].0, entries[i].1);
      assert path + [k] + entries[i].0 == path + ([k] + entries[i].0);
      PlainThenValid(path, [k] + entries[i].0);
    }
  }

  lemma OtherKidBeside(t: WriteTree, path: Path, k: Key, entries: seq<(Path, Node)>, relative: Path)
    requires Wf(t) && PlainPath(path + relative) && relative != [] && k != relative[0]
    requires ValidWrites(Under(path + [k], entries))
    ensures ChildAt(PutAll(t, Under(path + [k], entries)), path + relative) == ChildAt(t, path + relative)
  {
    forall i | 0 <= i < |entries| ensures Incomparable(path + [k] + entries[i].0, path + relative) {
      assert (path + [k] + entries[i].0)[|path|] == k && (path + relative)[|path|] == relative[0];
    }
    PutAllBeside(t, path + relative, Under(path + [k], entries));
  }

  lemma {:induction false} LayerKeepsWf(log: seq<WriteRecord>)
    requires forall r :: r in log ==> ValidRecord(r)
    ensures Wf(Layer(log, []))
  {
    if log != [] {
      var n := |log| - 1;
      LayerKeepsWf(log[..n]);
      LayerRecordAtTop(Layer(log[..n], []), log[n]);
      WritesAreValid(log[n]);
      PutAllKeepsWf(Layer(log[..n], []), Writes(log[n]));
    }
  }

  /** An overwrite at or above the tree root settles what is seen there, whatever was before. */
  predicate Settles(r: WriteRecord, root: Path) {
    r.record.Overwrite? && Contains(r.path, root)
  }

  /** The number of records up to the last one that settles the tree root. */
  function LastSettled(log: seq<WriteRecord>, root: Path): (n: nat)
    ensures n <= |log| && (n > 0 ==> Settles(log[n - 1], root)) && forall i :: n <= i < |log| ==> !Settles(log[i], root)
  {
    if log == [] then 0
    else if Settles(log[|log| - 1], root) then |log|
    else LastSettled(log[..|log| - 1], root)
  }

  /** Every later merge rooted above the tree root fits on top of what the log before it shows there. */
  ghost predicate FitsThroughout(log: seq<WriteRecord>, root: Path) {
    forall i :: LastSettled(log, root) <= i < |log| && log[i].record.Merge? && StrictlyAbove(log[i].path, root) ==>
      MergeFitsOn(log[i].record.merge, RelativePath(log[i].path, root), ChildAt(Layer(log[..i], []), root))
  }

  /** From the last settling record on, layering at the root is the full layering seen from there. */
  ghost predicate SeenThroughout(log: seq<WriteRecord>, root: Path) {
    forall n :: LastSettled(log, root) <= n <= |log| ==> SeenAt(log, n, root)
  }

  ghost predicate SeenAt(log: seq<WriteRecord>, n: nat, root: Path)
    requires n <= |log|
  {
    Layer(log[..n], root) == ChildAt(Layer(log[..n], []), root)
  }

  /** One record more. */
  lemma RecordSeenExact(t: WriteTree, r: WriteRecord, root: Path)
    requires Wf(t) && ValidRecord(r) && PlainPath(root)
    ensures LayerRecord(ChildAt(t, root), r, root) == ChildAt(LayerRecord(t, r, []), root)
            <==> (r.record.Merge? && StrictlyAbove(r.path, root) ==>
                    MergeFitsOn(r.record.merge, RelativePath(r.path, root), ChildAt(t, root)))
  {
    if r.record.Overwrite? {
      OverwriteSeenFrom(t, r, root);
    } else if StrictlyAbove(r.path, root) {
      MergeSeenExact(t, r, root);
    } else {
      MergeNotAbove(t, r, root);
    }
  }

  lemma SettledSeen(t: WriteTree, any: WriteTree, r: WriteRecord, root: Path)
    requires Wf(t) && ValidRecord(r) && PlainPath(root) && Settles(r, root)
    ensures LayerRecord(any, r, root) == ChildAt(LayerRecord(t, r, []), root)
  {
    var node := r.record.node;
    LayerRecordAtTop(t, r);
    AddWriteIsPut(t, node, r.path);
    assert PlainPath(r.path);
    ChildOfPutAbove(t, node, r.path, RelativePath(r.path, root));
    if Contains(root, r.path) {
      assert root == r.path && RelativePath(root, r.path) == [] == RelativePath(r.path, root);
    }
  }

  lemma SettledLast(log: seq<WriteRecord>, root: Path)
    requires PlainPath(root) && (forall r :: r in log ==> ValidRecord(r)) && log != [] && Settles(log[|log| - 1], root)
    ensures SeenAt(log, |log|, root)
  {
    var n := |log| - 1;
    LayerKeepsWf(log[..n]);
    SettledSeen(Layer(log[..n], []), Layer(log[..n], root), log[n], root);
    SeenLast(log, root);
  }

  /**
   Layering at a path is the full layering seen from there, from the last settling record on, exactly when all
   later merges fit.
   */
  lemma {:induction false} LayerSeenExact(log: seq<WriteRecord>, root: Path)
    requires PlainPath(root) && forall r :: r in log ==> ValidRecord(r)
    ensures SeenThroughout(log, root) <==> FitsThroughout(log, root)
  {
    if log == [] {
      EmptyChildren(root);
      assert SeenAt(log, 0, root);
    } else if Settles(log[|log| - 1], root) {
      SettledLast(log, root);
    } else {
      var n := |log| - 1;
      LayerSeenExact(log[..n], root);
      SeenInSteps(log, root);
      SeenLast(log, root);
      FitsInSteps(log, root);
      LayerKeepsWf(log[..n]);
      RecordSeenExact(Layer(log[..n], []), log[n], root);
      if SeenThroughout(log[..n], root) {
        SeenWhole(log[..n], root);
      }
    }
  }

  lemma SeenInSteps(log: seq<WriteRecord>, root: Path)
    requires log != [] && !Settles(log[|log| - 1], root)
    ensures SeenThroughout(log, root) <==> SeenThroughout(log[..|log| - 1], root) && SeenAt(log, |log|, root)
  {
    var front := log[..|log| - 1];
    if SeenThroughout(log, root) {
      forall i | LastSettled(front, root) <= i <= |front| ensures SeenAt(front, i, root) {
        SeenBefore(log, i, root);
      }
    }
    if SeenThroughout(front, root) && SeenAt(log, |log|, root) {
      forall i | LastSettled(log, root) <= i <= |log| ensures SeenAt(log, i, root) {
        if i < |log| {
          SeenBefore(log, i, root);
        }
      }
    }
  }

  lemma SeenBefore(log: seq<WriteRecord>, i: nat, root: Path)
    requires i < |log|
    ensures SeenAt(log[..|log| - 1], i, root) <==> SeenAt(log, i, root)
  {
    assert log[..|log| - 1][..i] == log[..i];
  }

  lemma SeenLast(log: seq<WriteRecord>, root: Path)
    requires log != []
    ensures var n := |log| - 1;
            SeenAt(log, |log|, root)
            <==> LayerRecord(Layer(log[..n], root), log[n], root) == ChildAt(LayerRecord(Layer(log[..n], []), log[n], []), root)
  {
    assert log[..|log|] == log;
  }

  lemma SeenWhole(log: seq<WriteRecord>, root: Path)
    requires SeenThroughout(log, root)
    ensures Layer(log, root) == ChildAt(Layer(log, []), root)
  {
    assert SeenAt(log, |log|, root);
    assert log[..|log|] == log;
  }

  lemma FitsInSteps(log: seq<WriteRecord>, root: Path)
    requires log != [] && !Settles(log[|log| - 1], root)
    ensures var n := |log| - 1;
            FitsThroughout(log, root)
            <==> FitsThroughout(log[..n], root)
                 && (log[n].record.Merge? && StrictlyAbove(log[n].path, root) ==>
                       MergeFitsOn(log[n].record.merge, RelativePath(log[n].path, root), ChildAt(Layer(log[..n], []), root)))
  {
    var n := |log| - 1;
    forall i | 0 <= i < n ensures log[..n][..i] == log[..i] && log[..n][i] == log[i] {
    }
  }

  lemma LayerSeenFrom(log: seq<WriteRecord>, root: Path)
    requires PlainPath(root) && FitsThroughout(log, root) && forall r :: r in log ==> ValidRecord(r)
    ensures Layer(log, root) == ChildAt(Layer(log, []), root)
  {
    LayerSeenExact(log, root);
    SeenWhole(log, root);
  }

  /** In particular when each merge fits by itself. */
  lemma EachFits(log: seq<WriteRecord>, root: Path)
    requires forall r :: r in log ==> FitsAt(r, root)
    ensures FitsThroughout(log, root)
  {
    forall i | 0 <= i < |log| && log[i].record.Merge? && StrictlyAbove(log[i].path, root)
      ensures MergeFitsOn(log[i].record.merge, RelativePath(log[i].path, root), ChildAt(Layer(log[..i], []), root))
    {
      assert FitsAt(log[i], root);
      NoEntries();
      EmptyIsEmpty(log[i].record.merge.writeTree.Subtree(RelativePath(log[i].path, root)));
    }
  }

  lemma EmptyIsEmpty(t: WriteTree)
    ensures t.IsEmpty() <==> t == EmptyTree()
  {
  }

  /* ---------- a merge alone ---------- */

  lemma PutUnderKey(t: WriteTree, k: Key, p: Path, x: Node)
    requires t.value.None? && Wf(t) && k != PRIORITY && ValidPath(p) && Canonical(x)
    ensures Wf(Put(t, x, [k] + p)) && Put(t, x, [k] + p) == Tree(None, t.kids[k := Put(t.ChildOrEmpty(k), x, p)])
  {
    assert ([k] + p)[1..] == p;
    assert ValidPath([k] + p) by {
      assert forall i :: 0 < i < |p| ==> ([k] + p)[i] == p[i - 1];
    }
    PutKeepsWf(t, x, [k] + p);
  }

  lemma BelowInSteps(k: Key, writes: seq<(Path, Node)>)
    requires writes != []
    ensures Below(k, writes) == [([k] + writes[0].0, writes[0].1)] + Below(k, writes[1..])
  {
  }

  lemma {:induction false} PutAllUnderKey(t: WriteTree, k: Key, writes: seq<(Path, Node)>)
    requires t.value.None? && writes != [] && Wf(t) && k != PRIORITY && ValidWrites(writes)
    ensures PutAll(t, Below(k, writes)) == Tree(None, t.kids[k := PutAll(t.ChildOrEmpty(k), writes)])
    decreases writes
  {
    var (p, x) := writes[0];
    BelowInSteps(k, writes);
    PutFirst(t, Below(k, writes));
    PutFirst(t.ChildOrEmpty(k), writes);
    PutUnderKey(t, k, p, x);
    if writes[1..] != [] {
      PutAllUnderKey(Put(t, x, [k] + p), k, writes[1..]);
    }
  }

  lemma SingleWrite(t: WriteTree, x: Node)
    requires t.value.None?
    ensures PutAll(t, [([], x)]) == ValueTree(x)
  {
    assert PutAll(t, [([], x)]) == CompoundWrite(t).AddWrite(x, []).writeTree;
  }

  ghost function KidsOn(t: WriteTree, keys: seq<Key>): map<Key, WriteTree>
    requires forall k :: k in keys ==> k in t.kids
  {
    map k | k in keys :: t.kids[k]
  }

  lemma KidsOnStep(t: WriteTree, keys: seq<Key>, done: map<Key, WriteTree>)
    requires keys != [] && forall k :: k in keys ==> k in t.kids && k !in done
    ensures done[keys[0] := t.kids[keys[0]]] + KidsOn(t, keys[1..]) == done + KidsOn(t, keys)
  {
  }

  /** Adding the entries of a compound write to the empty one gives it back. */
  lemma {:induction false} EntriesRoundTrip(t: WriteTree)
    requires Wf(t)
    ensures PutAll(EmptyTree(), Entries(t)) == t
    ensures !t.IsEmpty() ==> Entries(t) != []
    decreases t, 1
  {
    if t.value.Some? {
      ValueEntries(t);
      SingleWrite(EmptyTree(), t.value.value);
    } else {
      var keys := Sorted(ByString, t.kids.Keys);
      SortedDistinct(ByString, t.kids.Keys);
      EmptyIsWf();
      KidEntriesRoundTrip(t, keys, map[]);
      assert Entries(t) == KidEntries(t, keys);
      AllKids(t);
    }
  }

  lemma ValueEntries(t: WriteTree)
    requires t.value.Some? && t.kids == map[]
    ensures Entries(t) == [([], t.value.value)]
  {
    assert t.kids.Keys == {};
    assert Sorted(ByString, t.kids.Keys) == [];
    assert KidEntries(t, []) == [];
  }

  lemma AllKids(t: WriteTree)
    ensures map[] + KidsOn(t, Sorted(ByString, t.kids.Keys)) == t.kids
    ensures Sorted(ByString, t.kids.Keys) == [] ==> t.kids == map[]
  {
    if t.kids != map[] {
      var k :| k in t.kids;
      assert k in Sorted(ByString, t.kids.Keys);
    }
  }

  lemma {:induction false} KidEntriesRoundTrip(t: WriteTree, keys: seq<Key>, done: map<Key, WriteTree>)
    requires Wf(t) && Wf(Tree(None, done)) && Distinct(keys)
    requires forall k :: k in keys ==> k in t.kids && k !in done
    ensures PutAll(Tree(None, done), KidEntries(t, keys)) == Tree(None, done + KidsOn(t, keys))
    ensures keys != [] ==> KidEntries(t, keys) != []
    decreases t, 0, |keys|
  {
    if keys == [] {
      assert done + KidsOn(t, keys) == done;
    } else {
      var k := keys[0];
      var done' := done[k := t.kids[k]];
      var own, rest := Below(k, Entries(t.kids[k])), KidEntries(t, keys[1..]);
      EntriesRoundTrip(t.kids[k]);
      PutAllInSteps(Tree(None, done), own, rest);
      KeyRoundTrip(t, k, done);
      ExtendWf(t, k, done);
      DistinctRest(keys);
      KidEntriesRoundTrip(t, keys[1..], done');
      KidsOnStep(t, keys, done);
      assert KidEntries(t, keys) == own + rest && own != [];
    }
  }

  lemma ExtendWf(t: WriteTree, k: Key, done: map<Key, WriteTree>)
    requires Wf(t) && Wf(Tree(None, done)) && k in t.kids
    ensures Wf(Tree(None, done[k := t.kids[k]]))
  {
  }

  lemma KeyRoundTrip(t: WriteTree, k: Key, done: map<Key, WriteTree>)
    requires Wf(t) && Wf(Tree(None, done)) && k in t.kids && k !in done
    requires PutAll(EmptyTree(), Entries(t.kids[k])) == t.kids[k] && Entries(t.kids[k]) != []
    ensures PutAll(Tree(None, done), Below(k, Entries(t.kids[k]))) == Tree(None, done[k := t.kids[k]])
  {
    var child := t.kids[k];
    if k == PRIORITY {
      assert child.kids.Keys == {};
      assert Entries(child) == [([], child.value.value)];
      var x := child.value.value;
      assert [k] + [] == [k];
      assert Below(k, Entries(child)) == [([k], x)];
      AddWriteIsPut(Tree(None, done), x, [k]);
      assert PutAll(Tree(None, done), [([k], x)]) == CompoundWrite(Tree(None, done)).AddWrite(x, [k]).writeTree;
      assert Tree(None, done).ChildOrEmpty(k) == EmptyTree();
    } else {
      EntriesAreValid(child, []);
      assert Under([], Entries(child)) == Entries(child) by {
        assert forall e: Path :: [] + e == e;
      }
      assert Tree(None, done).ChildOrEmpty(k) == EmptyTree();
      PutAllUnderKey(Tree(None, done), k, Entries(child));
    }
  }

  /** For a merge alone, taking it over is right exactly when it fits by itself. */
  lemma MergeAloneExact(r: WriteRecord, root: Path)
    requires ValidRecord(r) && r.record.Merge? && PlainPath(root) && StrictlyAbove(r.path, root)
    ensures Layer([r], root) == ChildAt(Layer([r], []), root)
            <==> MergeFits(r.record.merge, RelativePath(r.path, root))
  {
    var m, relative := r.record.merge.writeTree, RelativePath(r.path, root);
    assert [r][..0] == [];
    assert Layer([r], root) == LayerRecord(EmptyTree(), r, root);
    assert Layer([r], []) == LayerRecord(EmptyTree(), r, []);
    EmptyIsWf();
    EmptyChildren(root);
    MergeSeenExact(EmptyTree(), r, root);
    if Complete(m, relative).None? {
      SubtreeKeepsWf(m, relative);
      EntriesRoundTrip(m.Subtree(relative));
    }
  }

  lemma {:induction false} SubtreeKeepsWf(t: WriteTree, path: Path)
    requires Wf(t)
    ensures Wf(t.Subtree(path))
    decreases path
  {
    EmptyIsWf();
    if path != [] && path[0] in t.kids {
      SubtreeKeepsWf(t.kids[path[0]], path[1..]);
    }
  }

  /** The case that fails: a merge at the root that sets "a/b", layered at "a/b", loses the value. */
  lemma MergeMisread(id: int, a: Key, b: Key, v: LeafValue)
    requires a != PRIORITY && b != PRIORITY
    ensures var merge := CompoundWrite(Put(EmptyTree(), Leaf(v, Empty), [a, b]));
            var r := WriteRecord(Merge(merge), id, [], true);
            ValidRecord(r) && Layer([r], [a, b]) != ChildAt(Layer([r], []), [a, b])
  {
    var m, x := Put(EmptyTree(), Leaf(v, Empty), [a, b]), Leaf(v, Empty);
    var r := WriteRecord(Merge(CompoundWrite(m)), id, [], true);
    EmptyIsWf();
    PutKeepsWf(EmptyTree(), x, [a, b]);
    ChildOfPutAbove(EmptyTree(), x, [a, b], []);
    assert [a, b] + [] == [a, b] && x.GetChild([]) == x;
    ChildAtByCases(m, [a, b]);
    MergeAloneExact(r, [a, b]);
    assert RelativePath([], [a, b]) == [a, b] && [a, b][1..] == [b];
  }

  /** Putting writes that lie apart changes nothing exactly when each of them is already there. */
  lemma {:induction false} NothingToPut(t: WriteTree, writes: seq<(Path, Node)>)
    requires Wf(t) && ValidWrites(writes) && Apart(writes) && forall i :: 0 <= i < |writes| ==> PlainPath(writes[i].0)
    ensures PutAll(t, writes) == t <==> forall i :: 0 <= i < |writes| ==> Complete(t, writes[i].0) == Some(writes[i].1)
  {
    if forall i :: 0 <= i < |writes| ==> Complete(t, writes[i].0) == Some(writes[i].1) {
      AllThere(t, writes);
    }
    if PutAll(t, writes) == t {
      forall i | 0 <= i < |writes| ensures Complete(t, writes[i].0) == Some(writes[i].1) {
        var (p, x) := writes[i];
        assert p[|p|..] == [] && x.GetChild([]) == x;
        PutAllCovering(t, p, writes, i);
        ChildAtByCases(t, p);
      }
    }
  }

  lemma {:induction false} AllThere(t: WriteTree, writes: seq<(Path, Node)>)
    requires Wf(t) && forall i :: 0 <= i < |writes| ==> PlainPath(writes[i].0) && Complete(t, writes[i].0) == Some(writes[i].1)
    ensures PutAll(t, writes) == t
    decreases writes
  {
    if writes != [] {
      PutFirst(t, writes);
      PutOwnChild(t, writes[0].0, writes[0].1);
      AllThere(t, writes[1..]);
    }
  }
}
