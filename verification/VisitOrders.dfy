/**
 The order in which an overlay is applied: its writes one by one, key by key, the priority of a node after
 everything below it.
 */
module VisitOrders {
  import opened Keys
  import opened Paths
  import opened Nodes
  import opened Enumerations
  import opened ImmutableTrees
  import opened CompoundWrites
  import opened Overlays

  /* ---------- the order in which an overlay is applied ---------- */

  ghost function Visits(t: WriteTree): seq<(Path, Node)>
    decreases t, 1
  {
    if t.value.Some? then [([], t.value.value)]
    else VisitKids(t, Sorted(ByString, t.kids.Keys)) + PriorityVisit(t)
  }

  ghost function VisitKids(t: WriteTree, keys: seq<Key>): seq<(Path, Node)>
    requires forall k :: k in keys ==> k in t.kids
    decreases t, 0, |keys|
  {
    if keys == [] then []
    else (if keys[0] == PRIORITY then [] else Below(keys[0], Visits(t.kids[keys[0]]))) + VisitKids(t, keys[1..])
  }

  function PriorityVisit(t: WriteTree): seq<(Path, Node)> {
    if PRIORITY in t.kids && t.kids[PRIORITY].value.Some? then [([PRIORITY], t.kids[PRIORITY].value.value)] else []
  }

  /** The priority that is written for the node itself, if any. */
  function WrittenPriority(t: WriteTree): Node {
    if PRIORITY in t.kids && t.kids[PRIORITY].value.Some? then t.kids[PRIORITY].value.value else Empty
  }

  /** Applying an overlay is putting its writes in that order; a priority needs no special care. */
  lemma {:induction false} ApplyIsReplay(t: WriteTree, path: Path, node: Node)
    requires Wf(t) && Canonical(node) && PlainPath(path)
    ensures ApplyAt(t, path, node) == Replay(node, Under(path, Visits(t)))
    decreases t, 1
  {
    if t.value.Some? {
      assert Under(path, [([], t.value.value)]) == [(path, t.value.value)] by {
        assert path + [] == path;
      }
      ReplayOne(node, (path, t.value.value));
    } else {
      var keys := Sorted(ByString, t.kids.Keys);
      var block := ApplyKids(t, keys, path, node);
      ApplyKidsIsReplay(t, keys, path, node);
      ApplyKidsKeepsCanonical(t, keys, path, node);
      UnderJoin(path, VisitKids(t, keys), PriorityVisit(t));
      ReplayInSteps(node, Under(path, VisitKids(t, keys)), Under(path, PriorityVisit(t)));
      AddPriorityIsReplay(t, path, block);
    }
  }

  lemma AddPriorityIsReplay(t: WriteTree, path: Path, block: Node)
    requires Wf(t) && Canonical(block) && PlainPath(path)
    ensures AddPriority(t, path, block) == Replay(block, Under(path, PriorityVisit(t)))
  {
    if PRIORITY in t.kids {
      var x := t.kids[PRIORITY].value.value;
      assert Under(path, PriorityVisit(t)) == [(path + [PRIORITY], x)];
      ReplayOne(block, (path + [PRIORITY], x));
      GetKeepsCanonical(block, path);
      if block.GetChild(path) == Empty {
        PriorityOfNothing(block, path, x);
      }
    } else {
      assert Under(path, PriorityVisit(t)) == [];
    }
  }

  lemma {:induction false} ApplyKidsIsReplay(t: WriteTree, keys: seq<Key>, path: Path, node: Node)
    requires Wf(t) && Canonical(node) && PlainPath(path) && forall k :: k in keys ==> k in t.kids
    ensures ApplyKids(t, keys, path, node) == Replay(node, Under(path, VisitKids(t, keys)))
    decreases t, 0, |keys|
  {
    if keys == [] {
      assert Under(path, VisitKids(t, keys)) == [];
    } else if keys[0] == PRIORITY {
      ApplyKidsIsReplay(t, keys[1..], path, node);
      assert [] + VisitKids(t, keys[1..]) == VisitKids(t, keys[1..]);
    } else {
      var k := keys[0];
      var own, rest := Visits(t.kids[k]), VisitKids(t, keys[1..]);
      ApplyIsReplay(t.kids[k], path + [k], node);
      ApplyKeepsCanonical(t.kids[k], path + [k], node);
      UnderStep(path, k, own, rest);
      ReplayInSteps(node, Under(path + [k], own), Under(path, rest));
      ApplyKidsIsReplay(t, keys[1..], path, ApplyAt(t.kids[k], path + [k], node));
    }
  }

  /* ---------- what is visited ---------- */

  ghost predicate BelowRoot(writes: seq<(Path, Node)>) {
    forall i :: 0 <= i < |writes| ==> writes[i].0 != [] && writes[i].0[0] != PRIORITY && Canonical(writes[i].1)
  }

  lemma {:induction false} VisitsAreCanonical(t: WriteTree)
    requires Wf(t)
    ensures forall i :: 0 <= i < |Visits(t)| ==> Canonical(Visits(t)[i].1)
    decreases t, 1
  {
    if t.value.None? {
      VisitKidsAreBelowRoot(t, Sorted(ByString, t.kids.Keys));
    }
  }

  lemma {:induction false} VisitKidsAreBelowRoot(t: WriteTree, keys: seq<Key>)
    requires Wf(t) && forall k :: k in keys ==> k in t.kids
    ensures BelowRoot(VisitKids(t, keys))
    decreases t, 0, |keys|
  {
    if keys != [] {
      VisitKidsAreBelowRoot(t, keys[1..]);
      if keys[0] != PRIORITY {
        VisitsAreCanonical(t.kids[keys[0]]);
      }
    }
  }

  lemma UnderRoot(writes: seq<(Path, Node)>)
    ensures Under([], writes) == writes
  {
    assert forall e: Path :: [] + e == e;
  }

  predicate EndsInPriority(p: Path) {
    p != [] && p[|p| - 1] == PRIORITY && PlainPath(p[..|p| - 1])
  }

  /** A write to a path, or to the priority at a path. */
  ghost predicate IsVisit(w: (Path, Node)) {
    Canonical(w.1) && (PlainPath(w.0) || EndsInPriority(w.0))
  }

  ghost predicate AreVisits(writes: seq<(Path, Node)>) {
    forall i :: 0 <= i < |writes| ==> IsVisit(writes[i])
  }

  lemma {:induction false} VisitsAreVisits(t: WriteTree)
    requires Wf(t)
    ensures AreVisits(Visits(t)) && Apart(Visits(t))
    decreases t, 1
  {
    if t.value.None? {
      var keys := Sorted(ByString, t.kids.Keys);
      SortedDistinct(ByString, t.kids.Keys);
      VisitKidsAreVisits(t, keys);
      KidPathsStart(t, keys);
      PriorityApart(VisitKids(t, keys), PriorityVisit(t), keys);
    }
  }

  lemma PriorityApart(writes: seq<(Path, Node)>, priority: seq<(Path, Node)>, keys: seq<Key>)
    requires Apart(writes) && |priority| <= 1 && (priority != [] ==> priority[0].0 == [PRIORITY])
    requires forall i :: 0 <= i < |writes| ==> StartsIn(writes[i].0, keys)
    ensures Apart(writes + priority)
  {
    forall i | 0 <= i < |writes| && priority != [] ensures Incomparable(writes[i].0, priority[0].0) {
      assert StartsIn(writes[i].0, keys);
    }
  }

  ghost predicate StartsIn(p: Path, keys: seq<Key>) {
    p != [] && p[0] in keys && p[0] != PRIORITY
  }

  lemma {:induction false} KidPathsStart(t: WriteTree, keys: seq<Key>)
    requires forall k :: k in keys ==> k in t.kids
    ensures forall i :: 0 <= i < |VisitKids(t, keys)| ==> StartsIn(VisitKids(t, keys)[i].0, keys)
    decreases keys
  {
    if keys != [] {
      KidPathsStart(t, keys[1..]);
    }
  }

  lemma {:induction false} VisitKidsAreVisits(t: WriteTree, keys: seq<Key>)
    requires Wf(t) && Distinct(keys) && forall k :: k in keys ==> k in t.kids
    ensures AreVisits(VisitKids(t, keys)) && Apart(VisitKids(t, keys))
    decreases t, 0, |keys|
  {
    if keys != [] {
      DistinctRest(keys);
      VisitKidsAreVisits(t, keys[1..]);
      if keys[0] != PRIORITY {
        VisitsAreVisits(t.kids[keys[0]]);
        KidPathsStart(t, keys[1..]);
        BelowAreVisits(keys[0], Visits(t.kids[keys[0]]));
        JoinApart(keys[0], Visits(t.kids[keys[0]]), VisitKids(t, keys[1..]), keys[1..]);
      }
    }
  }

  lemma BelowAreVisits(k: Key, writes: seq<(Path, Node)>)
    requires k != PRIORITY && AreVisits(writes)
    ensures AreVisits(Below(k, writes))
  {
    forall i | 0 <= i < |writes| ensures IsVisit(Below(k, writes)[i]) {
      var p := writes[i].0;
      assert IsVisit(writes[i]);
      if EndsInPriority(p) {
        assert ([k] + p)[..|[k] + p| - 1] == [k] + p[..|p| - 1];
      }
    }
  }

  lemma JoinApart(k: Key, own: seq<(Path, Node)>, rest: seq<(Path, Node)>, keys: seq<Key>)
    requires Apart(own) && Apart(rest) && k !in keys
    requires forall i :: 0 <= i < |rest| ==> StartsIn(rest[i].0, keys)
    ensures Apart(Below(k, own) + rest)
  {
    var head := Below(k, own);
    forall i, j | 0 <= i < j < |head| ensures Incomparable(head[i].0, head[j].0) {
      ContainsThroughKey(k, own[i].0, own[j].0);
      ContainsThroughKey(k, own[j].0, own[i].0);
    }
    forall i, j | 0 <= i < |head| && 0 <= j < |rest| ensures Incomparable(head[i].0, rest[j].0) {
      assert StartsIn(rest[j].0, keys) && head[i].0[0] == k;
    }
  }
}
