/**
 What a priority-free record leaves in the overlay after its removal, entry by entry. Behind a shadow nothing is
 taken away: an entry is seen afterwards when it displaced a leaf and only deletions followed. In a plain removal
 its paths are erased, except those that lie in another value.
 */
module RemovalMarks {
  import opened Options
  import opened Paths
  import opened Nodes
  import opened LeafViews
  import opened ImmutableTrees
  import opened CompoundWrites
  import opened Overlays
  import opened Replays
  import opened Removals
  import opened Observations

  /* ---------- overlays before and after the same writes ---------- */

  /** The write lies beside `z`, or it deletes something strictly below. */
  ghost predicate IsDeletionBelow(w: (Path, Node), z: Path) {
    Incomparable(z, w.0) || (StrictlyAbove(z, w.0) && w.1 == Empty)
  }

  /** At `z` the writes are only deletions strictly below. */
  ghost predicate OnlyDeletionsBelow(writes: seq<(Path, Node)>, z: Path) {
    forall i :: 0 <= i < |writes| ==> IsDeletionBelow(writes[i], z)
  }

  /** Two overlays complete at the same paths stay different at `z` exactly while only deletions come below it. */
  lemma {:induction false} DifferenceAt(a: WriteTree, b: WriteTree, writes: seq<(Path, Node)>, z: Path)
    requires PlainTree(a) && PlainTree(b) && PlainWrites(writes) && PlainPath(z)
    requires Observe(a, z).Some? <==> Observe(b, z).Some?
    ensures Observe(PutAll(a, writes), z) == Observe(PutAll(b, writes), z)
            <==> Observe(a, z) == Observe(b, z) || !OnlyDeletionsBelow(writes, z)
    decreases writes
  {
    if writes != [] {
      var (q, x) := writes[0];
      PlainWritesAreValid(writes);
      AddWriteIsPut(a, x, q);
      AddWriteIsPut(b, x, q);
      PutKeepsPlain(a, x, q);
      PutKeepsPlain(b, x, q);
      ObservePut(a, x, q, z);
      ObservePut(b, x, q, z);
      DifferenceAt(Put(a, x, q), Put(b, x, q), writes[1..], z);
      OnlyDeletionsInSteps(writes, z);
    }
  }

  lemma OnlyDeletionsInSteps(writes: seq<(Path, Node)>, z: Path)
    requires writes != []
    ensures OnlyDeletionsBelow(writes, z) <==> IsDeletionBelow(writes[0], z) && OnlyDeletionsBelow(writes[1..], z)
  {
    if OnlyDeletionsBelow(writes[1..], z) && IsDeletionBelow(writes[0], z) {
      forall i | 0 <= i < |writes| ensures IsDeletionBelow(writes[i], z) {
        assert i > 0 ==> writes[i] == writes[1..][i - 1];
      }
    }
  }

  lemma {:induction false} CoveredAgrees(a: WriteTree, b: WriteTree, writes: seq<(Path, Node)>, z: Path, c: nat)
    requires PlainTree(a) && PlainTree(b) && PlainWrites(writes) && PlainPath(z)
    requires c < |writes| && Contains(writes[c].0, z)
    ensures Observe(PutAll(a, writes), z) == Observe(PutAll(b, writes), z)
    decreases writes
  {
    var (q, x) := writes[0];
    PlainWritesAreValid(writes);
    AddWriteIsPut(a, x, q);
    AddWriteIsPut(b, x, q);
    PutKeepsPlain(a, x, q);
    PutKeepsPlain(b, x, q);
    if c == 0 {
      ObservePut(a, x, q, z);
      ObservePut(b, x, q, z);
      DifferenceAt(Put(a, x, q), Put(b, x, q), writes[1..], z);
    } else {
      CoveredAgrees(Put(a, x, q), Put(b, x, q), writes[1..], z, c - 1);
    }
  }

  /** The removed write displaced a leaf of an earlier value, and only deletions below that leaf followed. */
  ghost predicate LeavesTrace(before: WriteTree, p: Path, x: Node, after: seq<(Path, Node)>) {
    x != Empty && exists z: Path :: StrictlyAbove(z, p) && WritesLeaf(before, z) && OnlyDeletionsBelow(after, z)
  }

  /* ---------- the entries of one record ---------- */

  ghost predicate Covered(writes: seq<(Path, Node)>, z: Path) {
    exists i :: 0 <= i < |writes| && Contains(writes[i].0, z)
  }

  ghost predicate PutsBelow(writes: seq<(Path, Node)>, z: Path) {
    exists i :: 0 <= i < |writes| && StrictlyAbove(z, writes[i].0) && writes[i].1 != Empty
  }

  lemma CoveredInSteps(writes: seq<(Path, Node)>, z: Path)
    requires writes != []
    ensures Covered(writes, z) <==> Contains(writes[0].0, z) || Covered(writes[1..], z)
    ensures PutsBelow(writes, z) <==> (StrictlyAbove(z, writes[0].0) && writes[0].1 != Empty) || PutsBelow(writes[1..], z)
  {
    assert forall i :: 0 < i < |writes| ==> writes[i] == writes[1..][i - 1];
    if Covered(writes[1..], z) {
      var i :| 0 <= i < |writes[1..]| && Contains(writes[1..][i].0, z);
      assert writes[i + 1] == writes[1..][i];
    }
    if PutsBelow(writes[1..], z) {
      var i :| 0 <= i < |writes[1..]| && StrictlyAbove(z, writes[1..][i].0) && writes[1..][i].1 != Empty;
      assert writes[i + 1] == writes[1..][i];
    }
  }

  /** Writes that do not cover `z` only turn a leaf there into an object. */
  lemma {:induction false} UncoveredObserved(t: WriteTree, writes: seq<(Path, Node)>, z: Path)
    requires PlainTree(t) && PlainWrites(writes) && PlainPath(z) && !Covered(writes, z)
    ensures Observe(PutAll(t, writes), z)
            == if Observe(t, z).Some? && PutsBelow(writes, z) then Some(None) else Observe(t, z)
    decreases writes
  {
    if writes != [] {
      var (q, x) := writes[0];
      PlainWritesAreValid(writes);
      AddWriteIsPut(t, x, q);
      PutKeepsPlain(t, x, q);
      ObservePut(t, x, q, z);
      CoveredInSteps(writes, z);
      UncoveredObserved(Put(t, x, q), writes[1..], z);
    }
  }

  /** Of writes that lie apart, the one that covers `z` is seen there. */
  lemma {:induction false} CoveringObserved(t: WriteTree, writes: seq<(Path, Node)>, z: Path, c: nat)
    requires PlainTree(t) && PlainWrites(writes) && Apart(writes) && PlainPath(z)
    requires c < |writes| && Contains(writes[c].0, z)
    ensures Observe(PutAll(t, writes), z) == Some(LeafAt(writes[c].1, z[|writes[c].0|..]))
    decreases writes
  {
    var (q, x) := writes[0];
    PlainWritesAreValid(writes);
    AddWriteIsPut(t, x, q);
    PutKeepsPlain(t, x, q);
    if c == 0 {
      ObservePut(t, x, q, z);
      RestIsBeside(writes, z);
      UncoveredObserved(Put(t, x, q), writes[1..], z);
    } else {
      CoveringObserved(Put(t, x, q), writes[1..], z, c - 1);
    }
  }

  lemma RestIsBeside(writes: seq<(Path, Node)>, z: Path)
    requires writes != [] && Apart(writes) && Contains(writes[0].0, z)
    ensures !Covered(writes[1..], z) && !PutsBelow(writes[1..], z)
  {
    forall i | 0 <= i < |writes[1..]| ensures Incomparable(writes[0].0, writes[1..][i].0) {
      assert writes[1..][i] == writes[i + 1];
    }
  }

  /**
   The entry is seen at `z` after the later writes: below the entry, where nothing was complete or something else
   was seen; above it, where its data displaced a leaf.
   */
  ghost predicate ShowsAt(earlier: WriteTree, w: (Path, Node), after: seq<(Path, Node)>, z: Path) {
    if Contains(w.0, z) then
      && !Covered(after, z)
      && (Observe(earlier, z).None?
          || (Observe(earlier, z) != Some(LeafAt(w.1, z[|w.0|..])) && OnlyDeletionsBelow(after, z)))
    else StrictlyAbove(z, w.0) && w.1 != Empty && WritesLeaf(earlier, z) && OnlyDeletionsBelow(after, z)
  }

  ghost predicate LeavesMark(earlier: WriteTree, w: (Path, Node), after: seq<(Path, Node)>) {
    exists z: Path :: PlainPath(z) && ShowsAt(earlier, w, after, z)
  }

  ghost predicate SomeShowsAt(earlier: WriteTree, removed: seq<(Path, Node)>, after: seq<(Path, Node)>, z: Path) {
    exists e :: 0 <= e < |removed| && ShowsAt(earlier, removed[e], after, z)
  }

  lemma OnlyDeletionsUncovered(writes: seq<(Path, Node)>, z: Path)
    ensures OnlyDeletionsBelow(writes, z) ==> !Covered(writes, z)
    ensures !Covered(writes, z) ==> (OnlyDeletionsBelow(writes, z) <==> !PutsBelow(writes, z))
  {
    if OnlyDeletionsBelow(writes, z) {
      forall i | 0 <= i < |writes| ensures !Contains(writes[i].0, z) {
        assert IsDeletionBelow(writes[i], z);
      }
      forall i | 0 <= i < |writes| ensures !(StrictlyAbove(z, writes[i].0) && writes[i].1 != Empty) {
        assert IsDeletionBelow(writes[i], z);
      }
    }
  }

  /** With and without the removed writes, overlays differ at `z` exactly when one of them is seen there. */
  lemma MarkAt(earlier: WriteTree, removed: seq<(Path, Node)>, after: seq<(Path, Node)>, z: Path)
    requires PlainTree(earlier) && PlainWrites(removed) && Apart(removed) && PlainWrites(after) && PlainPath(z)
    ensures Observe(PutAll(PutAll(earlier, removed), after), z) == Observe(PutAll(earlier, after), z)
            <==> !SomeShowsAt(earlier, removed, after, z)
  {
    var with := PutAll(earlier, removed);
    PutAllKeepsPlain(earlier, removed);
    OnlyDeletionsUncovered(after, z);
    if Covered(after, z) {
      var c :| 0 <= c < |after| && Contains(after[c].0, z);
      CoveredAgrees(with, earlier, after, z, c);
    } else {
      UncoveredObserved(with, after, z);
      UncoveredObserved(earlier, after, z);
      if e :| 0 <= e < |removed| && Contains(removed[e].0, z) {
        CoveringObserved(earlier, removed, z, e);
        OnlyEntryShows(earlier, removed, after, z, e);
      } else {
        UncoveredObserved(earlier, removed, z);
        EntryBelowShows(earlier, removed, after, z);
      }
    }
  }

  lemma OnlyEntryShows(earlier: WriteTree, removed: seq<(Path, Node)>, after: seq<(Path, Node)>, z: Path, e: nat)
    requires Apart(removed) && e < |removed| && Contains(removed[e].0, z)
    ensures SomeShowsAt(earlier, removed, after, z) <==> ShowsAt(earlier, removed[e], after, z)
  {
    forall i | 0 <= i < |removed| && i != e ensures !ShowsAt(earlier, removed[i], after, z) {
      assert Incomparable(removed[if i < e then i else e].0, removed[if i < e then e else i].0);
    }
  }

  lemma EntryBelowShows(earlier: WriteTree, removed: seq<(Path, Node)>, after: seq<(Path, Node)>, z: Path)
    requires !Covered(removed, z)
    ensures SomeShowsAt(earlier, removed, after, z)
            <==> PutsBelow(removed, z) && WritesLeaf(earlier, z) && OnlyDeletionsBelow(after, z)
  {
    if PutsBelow(removed, z) && WritesLeaf(earlier, z) && OnlyDeletionsBelow(after, z) {
      var i :| 0 <= i < |removed| && StrictlyAbove(z, removed[i].0) && removed[i].1 != Empty;
      assert ShowsAt(earlier, removed[i], after, z);
    }
    if SomeShowsAt(earlier, removed, after, z) {
      var i :| 0 <= i < |removed| && ShowsAt(earlier, removed[i], after, z);
      assert !Contains(removed[i].0, z);
    }
  }

  lemma MarkSplit(before: seq<(Path, Node)>, removed: seq<(Path, Node)>, after: seq<(Path, Node)>)
    requires PlainWrites(before) && PlainWrites(removed) && PlainWrites(after)
    ensures var earlier := PutAll(EmptyTree(), before);
            && PlainTree(earlier)
            && PutAll(EmptyTree(), before + removed + after) == PutAll(PutAll(earlier, removed), after)
            && PutAll(EmptyTree(), before + after) == PutAll(earlier, after)
            && PlainTree(PutAll(PutAll(earlier, removed), after)) && PlainTree(PutAll(earlier, after))
  {
    var earlier := PutAll(EmptyTree(), before);
    PutAllKeepsPlain(EmptyTree(), before);
    PutAllInSteps(EmptyTree(), before + removed, after);
    PutAllInSteps(EmptyTree(), before, removed);
    PutAllInSteps(EmptyTree(), before, after);
    PutAllKeepsPlain(earlier, removed);
    PutAllKeepsPlain(PutAll(earlier, removed), after);
    PutAllKeepsPlain(earlier, after);
  }

  /* ---------- behind a shadow ---------- */

  /** Below a later cover the entry is not seen; above it, only its trace is. */
  lemma TraceIsMark(earlier: WriteTree, w: (Path, Node), after: seq<(Path, Node)>, c: nat)
    requires PlainPath(w.0) && c < |after| && Contains(after[c].0, w.0)
    ensures LeavesMark(earlier, w, after) <==> LeavesTrace(earlier, w.0, w.1, after)
  {
    forall z: Path | Contains(w.0, z) ensures Covered(after, z) {
      assert Contains(after[c].0, z);
    }
    if LeavesMark(earlier, w, after) {
      var z: Path :| PlainPath(z) && ShowsAt(earlier, w, after, z);
      assert StrictlyAbove(z, w.0) && WritesLeaf(earlier, z) && OnlyDeletionsBelow(after, z);
    }
    if LeavesTrace(earlier, w.0, w.1, after) {
      var z: Path :| StrictlyAbove(z, w.0) && WritesLeaf(earlier, z) && OnlyDeletionsBelow(after, z);
      assert PlainPath(z) && ShowsAt(earlier, w, after, z);
    }
  }

  /** Behind a shadow, skipping the removal is right exactly when no entry leaves a trace. */
  lemma ShadowedExact(before: seq<(Path, Node)>, removed: seq<(Path, Node)>, after: seq<(Path, Node)>,
                      root: Path, c: nat)
    requires PlainWrites(before) && PlainWrites(removed) && Apart(removed) && PlainWrites(after)
    requires AllWithin(removed, root) && c < |after| && Contains(after[c].0, root)
    ensures PutAll(EmptyTree(), before + removed + after) == PutAll(EmptyTree(), before + after)
            <==> forall e :: 0 <= e < |removed| ==>
                   !LeavesTrace(PutAll(EmptyTree(), before), removed[e].0, removed[e].1, after)
  {
    var earlier := PutAll(EmptyTree(), before);
    forall e | 0 <= e < |removed|
      ensures LeavesMark(earlier, removed[e], after) <==> LeavesTrace(earlier, removed[e].0, removed[e].1, after)
    {
      TraceIsMark(earlier, removed[e], after, c);
    }
    NoMarkExact(before, removed, after);
  }

  /** With and without a record the overlays are the same exactly when no entry leaves a mark. */
  lemma NoMarkExact(before: seq<(Path, Node)>, removed: seq<(Path, Node)>, after: seq<(Path, Node)>)
    requires PlainWrites(before) && PlainWrites(removed) && Apart(removed) && PlainWrites(after)
    ensures PutAll(EmptyTree(), before + removed + after) == PutAll(EmptyTree(), before + after)
            <==> forall e :: 0 <= e < |removed| ==> !LeavesMark(PutAll(EmptyTree(), before), removed[e], after)
  {
    var earlier := PutAll(EmptyTree(), before);
    var a, b := PutAll(PutAll(earlier, removed), after), PutAll(earlier, after);
    MarkSplit(before, removed, after);
    forall z: Path | PlainPath(z) ensures Observe(a, z) == Observe(b, z) <==> !SomeShowsAt(earlier, removed, after, z) {
      MarkAt(earlier, removed, after, z);
    }
    if e :| 0 <= e < |removed| && LeavesMark(earlier, removed[e], after) {
      var z: Path :| PlainPath(z) && ShowsAt(earlier, removed[e], after, z);
      assert SomeShowsAt(earlier, removed, after, z);
    } else {
      SameObservationsSameTree(a, b);
    }
  }

  /* ---------- the plain removal ---------- */

  /**
   The guard for one entry: where its path is erased, all other writes lie beside it; where another write lies
   above it and nothing is erased, it leaves no mark.
   */
  ghost predicate EntryGoes(before: seq<(Path, Node)>, w: (Path, Node), after: seq<(Path, Node)>) {
    if NoneAbove(before + after, w.0) then AllBeside(before + after, w.0)
    else !LeavesMark(PutAll(EmptyTree(), before), w, after)
  }

  lemma NoneAboveOwn(before: seq<(Path, Node)>, removed: seq<(Path, Node)>, after: seq<(Path, Node)>, e: nat)
    requires Apart(removed) && e < |removed|
    ensures NoneAbove(before + removed + after, removed[e].0) <==> NoneAbove(before + after, removed[e].0)
  {
    var all, others, p := before + removed + after, before + after, removed[e].0;
    if NoneAbove(others, p) {
      forall i | 0 <= i < |all| ensures !StrictlyAbove(all[i].0, p) {
        if i < |before| {
          assert all[i] == others[i];
        } else if i < |before| + |removed| {
          var d := i - |before|;
          assert all[i] == removed[d];
          assert d == e || Incomparable(removed[if d < e then d else e].0, removed[if d < e then e else d].0);
        } else {
          assert all[i] == others[i - |removed|];
        }
      }
    }
    if NoneAbove(all, p) {
      forall i | 0 <= i < |others| ensures !StrictlyAbove(others[i].0, p) {
        assert others[i] == if i < |before| then all[i] else all[i + |removed|];
      }
    }
  }

  /** Erasing the entries of a record gives the overlay of the others exactly when every entry goes. */
  lemma SeparateExact(before: seq<(Path, Node)>, removed: seq<(Path, Node)>, after: seq<(Path, Node)>)
    requires PlainWrites(before) && PlainWrites(removed) && Apart(removed) && PlainWrites(after)
    ensures EraseAll(PutAll(EmptyTree(), before + removed + after), removed) == PutAll(EmptyTree(), before + after)
            <==> forall e :: 0 <= e < |removed| ==> EntryGoes(before, removed[e], after)
  {
    var all := before + removed + after;
    var erased, wanted := EraseAll(PutAll(EmptyTree(), all), removed), PutAll(EmptyTree(), before + after);
    MarkSplit(before, removed, after);
    ObserveEraseAll(PutAll(EmptyTree(), all), removed, []);
    if forall e :: 0 <= e < |removed| ==> EntryGoes(before, removed[e], after) {
      forall z: Path | PlainPath(z) ensures Observe(erased, z) == Observe(wanted, z) {
        AllGoAt(before, removed, after, z);
      }
      SameObservationsSameTree(erased, wanted);
    } else {
      var e :| 0 <= e < |removed| && !EntryGoes(before, removed[e], after);
      var z := StaysSomewhere(before, removed, after, e);
    }
  }

  lemma AllGoAt(before: seq<(Path, Node)>, removed: seq<(Path, Node)>, after: seq<(Path, Node)>, z: Path)
    requires PlainWrites(before) && PlainWrites(removed) && Apart(removed) && PlainWrites(after) && PlainPath(z)
    requires forall e :: 0 <= e < |removed| ==> EntryGoes(before, removed[e], after)
    ensures Observe(EraseAll(PutAll(EmptyTree(), before + removed + after), removed), z)
            == Observe(PutAll(EmptyTree(), before + after), z)
  {
    var all, earlier := before + removed + after, PutAll(EmptyTree(), before);
    MarkSplit(before, removed, after);
    ShownAfterErasing(all, removed, z);
    if IsTakenAway(all, removed, z) {
      var e :| 0 <= e < |removed| && Contains(removed[e].0, z) && NoneAbove(all, removed[e].0);
      NoneAboveOwn(before, removed, after, e);
      assert EntryGoes(before, removed[e], after);
      NothingSeenBelow(before + after, removed[e].0, z);
    } else {
      forall e | 0 <= e < |removed| ensures !ShowsAt(earlier, removed[e], after, z) {
        NotSeenAt(before, removed, after, z, e);
      }
      MarkAt(earlier, removed, after, z);
      ShownIsObserved(all, z);
    }
  }

  /** Where all writes lie beside a path, nothing is complete below it. */
  lemma NothingSeenBelow(writes: seq<(Path, Node)>, p: Path, z: Path)
    requires PlainWrites(writes) && AllBeside(writes, p) && Contains(p, z) && PlainPath(z)
    ensures Observe(PutAll(EmptyTree(), writes), z) == None
  {
    forall i | 0 <= i < |writes| ensures !Contains(writes[i].0, z) {
      assert Incomparable(p, writes[i].0);
    }
    UncoveredObserved(EmptyTree(), writes, z);
  }

  lemma NotSeenAt(before: seq<(Path, Node)>, removed: seq<(Path, Node)>, after: seq<(Path, Node)>, z: Path, e: nat)
    requires PlainWrites(before) && PlainWrites(removed) && Apart(removed) && PlainWrites(after) && PlainPath(z)
    requires e < |removed| && EntryGoes(before, removed[e], after)
    requires !IsTakenAway(before + removed + after, removed, z)
    ensures !ShowsAt(PutAll(EmptyTree(), before), removed[e], after, z)
  {
    var earlier, p := PutAll(EmptyTree(), before), removed[e].0;
    NoneAboveOwn(before, removed, after, e);
    if NoneAbove(before + after, p) && StrictlyAbove(z, p) {
      forall i | 0 <= i < |before| ensures !Contains(before[i].0, z) {
        assert before[i] == (before + after)[i];
      }
      UncoveredObserved(EmptyTree(), before, z);
    }
  }

  /** An entry that does not go is seen somewhere. */
  lemma StaysSomewhere(before: seq<(Path, Node)>, removed: seq<(Path, Node)>, after: seq<(Path, Node)>, e: nat)
      returns (z: Path)
    requires PlainWrites(before) && PlainWrites(removed) && Apart(removed) && PlainWrites(after)
    requires e < |removed| && !EntryGoes(before, removed[e], after)
    ensures Observe(EraseAll(PutAll(EmptyTree(), before + removed + after), removed), z)
            != Observe(PutAll(EmptyTree(), before + after), z)
  {
    var all, others, p, earlier := before + removed + after, before + after, removed[e].0, PutAll(EmptyTree(), before);
    MarkSplit(before, removed, after);
    NoneAboveOwn(before, removed, after, e);
    if NoneAbove(others, p) {
      var i :| 0 <= i < |others| && !Incomparable(p, others[i].0);
      z := others[i].0;
      ShownAfterErasing(all, removed, z);
      ShownIsObserved(others, z);
      SomeCoverShows(others, z, i);
    } else {
      z :| PlainPath(z) && ShowsAt(earlier, removed[e], after, z);
      NotTakenAway(all, removed, z, e);
      ShownAfterErasing(all, removed, z);
      ShownIsObserved(all, z);
      MarkAt(earlier, removed, after, z);
    }
  }

  lemma SomeCoverShows(writes: seq<(Path, Node)>, z: Path, i: nat)
    requires PlainWrites(writes) && PlainPath(z) && i < |writes| && Contains(writes[i].0, z)
    ensures Shown(writes, z).Some?
  {
    var c := i;
    var j := i + 1;
    while j < |writes|
      invariant i <= c < j <= |writes| && Contains(writes[c].0, z)
      invariant forall k :: c < k < j ==> !Contains(writes[k].0, z)
    {
      if Contains(writes[j].0, z) {
        c := j;
      }
      j := j + 1;
    }
    ShownBy(writes, z, c);
  }

  /** Only the entry itself could be erased there, and it lies in another value. */
  lemma NotTakenAway(all: seq<(Path, Node)>, removed: seq<(Path, Node)>, z: Path, e: nat)
    requires Apart(removed) && e < |removed| && !Incomparable(removed[e].0, z) && !NoneAbove(all, removed[e].0)
    ensures !IsTakenAway(all, removed, z)
  {
    forall i | 0 <= i < |removed| && i != e ensures !Contains(removed[i].0, z) {
      assert Incomparable(removed[if i < e then i else e].0, removed[if i < e then e else i].0);
    }
  }
}
