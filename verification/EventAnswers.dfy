/**
 Which writes an event cache shows (FWriteTree.swift), without naming its filter: everything when nothing is left
 out; for every excluded id what it would be without that record; and hidden records only on request.
 */
module EventAnswers {
  import opened Options
  import opened Paths
  import opened Nodes
  import opened Overlays
  import opened CompoundWrites
  import opened Layering
  import opened WriteLogs
  import opened EventCaches

  /* ---------- nothing left out ---------- */

  lemma {:induction false} AllAreKept(log: seq<WriteRecord>, exclude: Option<seq<int>>, includeHidden: bool)
    requires exclude == None || exclude == Some([])
    requires includeHidden || forall r :: r in log ==> r.visible
    ensures Filter(log, Kept(exclude, includeHidden)) == log
  {
    if log != [] {
      var n := |log| - 1;
      AllAreKept(log[..n], exclude, includeHidden);
      assert log == log[..n] + [log[n]];
      assert Kept(exclude, includeHidden)(log[n]);
    }
  }

  /**
   With hidden writes included, or none in the log, and nothing excluded: the event cache is the part below the
   path of the whole log layered over the server's tree.
   */
  lemma WholeLogIsShown(s: LogState, path: Path, server: Node, exclude: Option<seq<int>>, includeHidden: bool)
    requires ValidLog(s.allWrites) && FitsThroughout(s.allWrites, path) && PlainPath(path) && Canonical(server)
    requires exclude == None || exclude == Some([])
    requires includeHidden || (CacheAgrees(s) && forall r :: r in s.allWrites ==> r.visible)
    ensures EventCache(s, path, Some(server.GetChild(path)), exclude, includeHidden)
            == Some(ApplyToNode(Layer(s.allWrites, []), server).GetChild(path))
  {
    AllAreKept(s.allWrites, exclude, includeHidden);
    if includeHidden {
      OnlyOverlappingMatter(s.allWrites, exclude, includeHidden, path);
      LayerSeenFrom(s.allWrites, path);
      LayerKeepsWf(s.allWrites);
      Localisation(Layer(s.allWrites, []), path, server);
    } else {
      AllVisible(s.allWrites);
      EventCacheIsEventTree(s, path, server, exclude, includeHidden);
    }
  }

  /* ---------- one id excluded ---------- */

  /** The log from which the records with an id are deleted. */
  function WithoutId(log: seq<WriteRecord>, id: int): seq<WriteRecord> {
    if log == [] then []
    else if log[|log| - 1].writeId == id then WithoutId(log[..|log| - 1], id)
    else WithoutId(log[..|log| - 1], id) + [log[|log| - 1]]
  }

  lemma {:induction false} WithoutIdHas(log: seq<WriteRecord>, id: int, r: WriteRecord)
    ensures r in WithoutId(log, id) <==> r in log && r.writeId != id
  {
    if log != [] {
      WithoutIdHas(log[..|log| - 1], id, r);
      assert log == log[..|log| - 1] + [log[|log| - 1]];
    }
  }

  lemma {:induction false} FilterTwice(log: seq<WriteRecord>, id: int, keep: WriteRecord -> bool, all: WriteRecord -> bool)
    requires forall r :: r in log ==> (keep(r) <==> all(r) && r.writeId != id)
    ensures Filter(log, keep) == Filter(WithoutId(log, id), all)
    decreases log
  {
    if log != [] {
      var front, r := log[..|log| - 1], log[|log| - 1];
      assert r in log && forall x :: x in front ==> x in log;
      FilterTwice(front, id, keep, all);
      FilterLast(WithoutId(front, id), r, all);
    }
  }

  lemma OneMoreExcluded(log: seq<WriteRecord>, ids: seq<int>, id: int, includeHidden: bool, path: Path)
    ensures Filter(log, KeptOverlapping(Some(ids + [id]), includeHidden, path))
            == Filter(WithoutId(log, id), KeptOverlapping(Some(ids), includeHidden, path))
  {
    var keep, all := KeptOverlapping(Some(ids + [id]), includeHidden, path), KeptOverlapping(Some(ids), includeHidden, path);
    forall r | r in log ensures keep(r) <==> all(r) && r.writeId != id {
      assert r.writeId in ids + [id] <==> r.writeId in ids || r.writeId == id;
    }
    FilterTwice(log, id, keep, all);
  }

  lemma FilterLast(front: seq<WriteRecord>, r: WriteRecord, keep: WriteRecord -> bool)
    ensures Filter(front + [r], keep) == Filter(front, keep) + if keep(r) then [r] else []
  {
    assert (front + [r])[..|front|] == front;
  }

  /** Excluding one id more gives the answer for the log without that record, server data or not. */
  lemma ExcludedIsDeleted(s: LogState, path: Path, server: Option<Node>, ids: seq<int>, id: int, includeHidden: bool)
    ensures EventCache(s, path, server, Some(ids + [id]), includeHidden)
            == EventCache(s.(allWrites := WithoutId(s.allWrites, id)), path, server, Some(ids), includeHidden)
  {
    OneMoreExcluded(s.allWrites, ids, id, includeHidden, path);
  }

  /* ---------- hidden records ---------- */

  lemma {:induction false} FilterJoin(a: seq<WriteRecord>, b: seq<WriteRecord>, keep: WriteRecord -> bool)
    ensures Filter(a + b, keep) == Filter(a, keep) + Filter(b, keep)
    decreases b
  {
    if b == [] {
      assert a + b == a;
    } else {
      var n := |b| - 1;
      assert (a + b)[..|a + b| - 1] == a + b[..n];
      FilterJoin(a, b[..n], keep);
    }
  }

  lemma FilterWithout(log: seq<WriteRecord>, index: nat, keep: WriteRecord -> bool)
    requires index < |log| && !keep(log[index])
    ensures Filter(log[..index] + log[index + 1..], keep) == Filter(log, keep)
  {
    var a, b := log[..index], log[index + 1..];
    assert log == a + [log[index]] + b;
    FilterJoin(a + [log[index]], b, keep);
    FilterLast(a, log[index], keep);
    FilterJoin(a, b, keep);
  }

  /** Unless they are included, deleting any hidden record changes no answer. */
  lemma HiddenAreNotShown(s: LogState, path: Path, server: Option<Node>, exclude: Option<seq<int>>, index: nat)
    requires index < |s.allWrites| && !s.allWrites[index].visible
    ensures EventCache(s, path, server, exclude, false)
            == EventCache(s.(allWrites := s.allWrites[..index] + s.allWrites[index + 1..]), path, server, exclude, false)
  {
    FilterWithout(s.allWrites, index, KeptOverlapping(exclude, false, path));
  }

  /* ---------- when there is an answer ---------- */

  /** The event subtree is the same for all server trees. */
  ghost predicate IsSettled(s: LogState, path: Path) {
    forall a, b :: Canonical(a) && Canonical(b) ==>
      EventTree(s.allWrites, IsVisible, a).GetChild(path) == EventTree(s.allWrites, IsVisible, b).GetChild(path)
  }

  /** So it is exactly when the visible writes are complete at the path. */
  lemma SettledIsComplete(s: LogState, path: Path)
    requires CacheAgrees(s) && ValidLog(s.allWrites) && PlainPath(path)
    ensures IsSettled(s, path) <==> Complete(s.visibleWrites.writeTree, path).Some?
  {
    var w := s.visibleWrites.writeTree;
    CacheIsWf(s);
    if Complete(w, path).Some? {
      forall a | Canonical(a) ensures EventTree(s.allWrites, IsVisible, a).GetChild(path) == Complete(w, path).value {
        ShadowedMeansIndependent(w, path, a);
      }
    } else {
      ChildAtByCases(w, path);
      ChildKeepsWf(w, path);
      var k, server := UnmentionedChild(ChildAt(w, path), path);
      Localisation(w, path, server);
      Localisation(w, path, Empty);
      EmptyStaysEmpty(path);
      assert EventTree(s.allWrites, IsVisible, server).GetChild(path) != EventTree(s.allWrites, IsVisible, Empty).GetChild(path);
    }
  }

  /**
   With server data, or hidden writes included, there is always an answer; else exactly when the server's data does
   not matter to the visible writes, whatever is excluded.
   */
  lemma AnswerExact(s: LogState, path: Path, server: Option<Node>, exclude: Option<seq<int>>, includeHidden: bool)
    requires CacheAgrees(s) && ValidLog(s.allWrites) && PlainPath(path)
    ensures EventCache(s, path, server, exclude, includeHidden).Some?
            <==> server.Some? || includeHidden || IsSettled(s, path)
  {
    var w := s.visibleWrites.writeTree;
    CacheIsWf(s);
    SettledIsComplete(s, path);
    CachedForm(s, path, server);
    ChildWriteIsRecursive(w, path);
    ChildAtByCases(w, path);
    ChildKeepsWf(w, path);
    CompleteIsRecursive(ChildAt(w, path), []);
  }

  /** After a server overwrite there is an answer exactly when the server's data matters. */
  lemma OverwriteAnswerExact(s: LogState, treePath: Path, childPath: Path, existing: Node)
    requires CacheAgrees(s) && ValidLog(s.allWrites) && PlainPath(treePath + childPath)
    ensures AfterServerOverwrite(s, treePath, childPath, existing).None? <==> IsSettled(s, treePath + childPath)
  {
    CacheIsWf(s);
    SettledIsComplete(s, treePath + childPath);
    CompleteIsRecursive(s.visibleWrites.writeTree, treePath + childPath);
  }
}
