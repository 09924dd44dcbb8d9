/**
 Hidden writes in a rebuild. The rebuild of the cache layers hidden records too; it is right exactly when every
 hidden write is covered up: where nothing later covers it, the visible writes show the same, and its data
 displaces no leaf that the visible writes show.
 */
module HiddenWrites {
  import opened Options
  import opened Paths
  import opened Nodes
  import opened LeafViews
  import opened Overlays
  import opened ImmutableTrees
  import opened Layering
  import opened Observations
  import opened RemovalMarks
  import opened WriteLogs

  /** Overwrites and merges, visible or hidden, that carry no priority. */
  ghost predicate PlainRecord(r: WriteRecord) {
    ValidRecord(r) && PlainWrites(Writes(r))
  }

  ghost predicate PlainLog(log: seq<WriteRecord>) {
    forall i :: 0 <= i < |log| ==> PlainRecord(log[i])
  }

  lemma PlainVisible(log: seq<WriteRecord>)
    requires PlainLog(log)
    ensures PlainWrites(Visible(log)) && ValidWrites(Visible(log))
  {
    var ws := Visible(log);
    forall i | 0 <= i < |ws| ensures PlainPath(ws[i].0) && Plain(ws[i].1) {
      var j := VisibleFrom(log, ws[i]);
      var k :| 0 <= k < |Writes(log[j])| && Writes(log[j])[k] == ws[i];
    }
    PlainWritesAreValid(ws);
  }

  lemma {:induction false} PlainFlatten(log: seq<WriteRecord>)
    requires PlainLog(log)
    ensures PlainWrites(Flatten(log))
  {
    if log != [] {
      var n := |log| - 1;
      PlainFlatten(log[..n]);
      assert log == log[..n] + [log[n]];
      FlattenInSteps(log[..n], [log[n]]);
      FlattenOne(log[n]);
    }
  }

  /* ---------- writes and their records ---------- */

  lemma {:induction false} FlattenFrom(log: seq<WriteRecord>, w: (Path, Node)) returns (j: nat)
    requires w in Flatten(log)
    ensures j < |log| && w in Writes(log[j])
  {
    var n := |log| - 1;
    assert log == log[..n] + [log[n]];
    FlattenInSteps(log[..n], [log[n]]);
    FlattenOne(log[n]);
    if w in Flatten(log[..n]) {
      j := FlattenFrom(log[..n], w);
    } else {
      j := n;
    }
  }

  lemma FlattenHas(log: seq<WriteRecord>, j: nat, w: (Path, Node))
    requires j < |log| && w in Writes(log[j])
    ensures w in Flatten(log)
  {
    FlattenAround(log, j);
  }

  lemma FlattenAround(log: seq<WriteRecord>, j: nat)
    requires j < |log|
    ensures Flatten(log) == Flatten(log[..j]) + Writes(log[j]) + Flatten(log[j + 1..])
  {
    assert log == log[..j] + [log[j]] + log[j + 1..];
    FlattenInSteps(log[..j] + [log[j]], log[j + 1..]);
    FlattenInSteps(log[..j], [log[j]]);
    FlattenOne(log[j]);
  }

  lemma VisibleAround(log: seq<WriteRecord>, j: nat)
    requires j < |log| && log[j].visible
    ensures Visible(log) == Visible(log[..j]) + Writes(log[j]) + Visible(log[j + 1..])
  {
    assert log == log[..j] + [log[j]] + log[j + 1..];
    VisibleInSteps(log[..j] + [log[j]], log[j + 1..]);
    VisibleInSteps(log[..j], [log[j]]);
    VisibleOne(log[j]);
  }

  lemma CoveredByRecord(log: seq<WriteRecord>, j: nat, z: Path)
    requires j < |log| && Covered(Writes(log[j]), z)
    ensures Covered(Flatten(log), z)
  {
    var i :| 0 <= i < |Writes(log[j])| && Contains(Writes(log[j])[i].0, z);
    FlattenHas(log, j, Writes(log[j])[i]);
  }

  lemma DataFromRecord(log: seq<WriteRecord>, j: nat, e: nat, z: Path)
    requires j < |log| && e < |Writes(log[j])|
    requires StrictlyAbove(z, Writes(log[j])[e].0) && Writes(log[j])[e].1 != Empty
    ensures PutsBelow(Flatten(log), z)
    ensures log[j].visible ==> PutsBelow(Visible(log), z)
  {
    FlattenHas(log, j, Writes(log[j])[e]);
    if log[j].visible {
      VisibleHas(log, j, Writes(log[j])[e]);
    }
  }

  lemma CoveredJoin(a: seq<(Path, Node)>, b: seq<(Path, Node)>, z: Path)
    ensures Covered(a + b, z) <==> Covered(a, z) || Covered(b, z)
  {
    if i :| 0 <= i < |a| && Contains(a[i].0, z) {
      assert (a + b)[i] == a[i];
    }
    if i :| 0 <= i < |b| && Contains(b[i].0, z) {
      assert (a + b)[|a| + i] == b[i];
    }
  }

  lemma CoveredByLast(log: seq<WriteRecord>, z: Path)
    requires log != []
    ensures Covered(Flatten(log), z) <==> Covered(Flatten(log[..|log| - 1]), z) || Covered(Writes(log[|log| - 1]), z)
  {
    var n := |log| - 1;
    assert log == log[..n] + [log[n]];
    FlattenInSteps(log[..n], [log[n]]);
    FlattenOne(log[n]);
    CoveredJoin(Flatten(log[..n]), Writes(log[n]), z);
  }

  /** The last record that covers a path. */
  lemma {:induction false} LastCover(log: seq<WriteRecord>, z: Path) returns (j: nat, e: nat)
    requires Covered(Flatten(log), z)
    ensures j < |log| && e < |Writes(log[j])| && Contains(Writes(log[j])[e].0, z) && !Covered(Flatten(log[j + 1..]), z)
    decreases |log|
  {
    var n := |log| - 1;
    CoveredByLast(log, z);
    if Covered(Writes(log[n]), z) {
      j := n;
      e :| 0 <= e < |Writes(log[n])| && Contains(Writes(log[n])[e].0, z);
      assert log[n + 1..] == [];
    } else {
      j, e := LastCover(log[..n], z);
      CoveredByLast(log[j + 1..], z);
      assert log[j + 1..][..n - j - 1] == log[..n][j + 1..];
    }
  }

  /* ---------- what one record in the middle shows ---------- */

  lemma ShownInMiddle(before: seq<(Path, Node)>, own: seq<(Path, Node)>, after: seq<(Path, Node)>, e: nat, z: Path)
    requires PlainWrites(before) && PlainWrites(own) && Apart(own) && PlainWrites(after) && PlainPath(z)
    requires e < |own| && Contains(own[e].0, z) && !Covered(after, z)
    ensures Shown(before + own + after, z)
            == Some(if PutsBelow(after, z) then None else LeafAt(own[e].1, z[|own[e].0|..]))
  {
    MarkSplit(before, own, after);
    var earlier := PutAll(EmptyTree(), before);
    PutAllKeepsPlain(earlier, own);
    CoveringObserved(earlier, own, z, e);
    UncoveredObserved(PutAll(earlier, own), after, z);
    ShownIsObserved(before + own + after, z);
  }

  lemma ShownByRecord(log: seq<WriteRecord>, j: nat, e: nat, z: Path)
    requires PlainLog(log) && PlainPath(z) && j < |log| && e < |Writes(log[j])|
    requires Contains(Writes(log[j])[e].0, z) && !Covered(Flatten(log[j + 1..]), z)
    ensures Shown(Flatten(log), z)
            == Some(if PutsBelow(Flatten(log[j + 1..]), z) then None
                    else LeafAt(Writes(log[j])[e].1, z[|Writes(log[j])[e].0|..]))
    ensures log[j].visible ==>
              Shown(Visible(log), z)
              == Some(if PutsBelow(Visible(log[j + 1..]), z) then None
                      else LeafAt(Writes(log[j])[e].1, z[|Writes(log[j])[e].0|..]))
  {
    WritesAreApart(log[j]);
    PlainFlatten(log[..j]);
    PlainFlatten(log[j + 1..]);
    FlattenAround(log, j);
    ShownInMiddle(Flatten(log[..j]), Writes(log[j]), Flatten(log[j + 1..]), e, z);
    if log[j].visible {
      PlainVisible(log[..j]);
      PlainVisible(log[j + 1..]);
      VisibleAround(log, j);
      VisibleCover(log[j + 1..], z);
      ShownInMiddle(Visible(log[..j]), Writes(log[j]), Visible(log[j + 1..]), e, z);
    }
  }

  lemma VisibleCover(log: seq<WriteRecord>, z: Path)
    ensures Covered(Visible(log), z) ==> Covered(Flatten(log), z)
  {
    if Covered(Visible(log), z) {
      var i :| 0 <= i < |Visible(log)| && Contains(Visible(log)[i].0, z);
      var j := VisibleFrom(log, Visible(log)[i]);
      FlattenHas(log, j, Visible(log)[i]);
    }
  }

  /* ---------- the guard ---------- */

  ghost predicate ShowsLeaf(writes: seq<(Path, Node)>, z: Path) {
    Shown(writes, z).Some? && Shown(writes, z).value.Some?
  }

  /**
   A write of the j-th record, which is hidden: below its path, where no later record covers it, the visible
   writes show the same; above it, later records cover the leaves that the visible writes show.
   */
  ghost predicate IsCoveredUp(log: seq<WriteRecord>, j: nat, w: (Path, Node))
    requires j < |log|
  {
    && (forall z: Path :: PlainPath(z) && Contains(w.0, z) ==> AgreesBelow(log, j, w, z))
    && (w.1 != Empty ==>
          forall z: Path :: StrictlyAbove(z, w.0) && ShowsLeaf(Visible(log), z) ==> Covered(Flatten(log[j + 1..]), z))
  }

  ghost predicate AgreesBelow(log: seq<WriteRecord>, j: nat, w: (Path, Node), z: Path)
    requires j < |log| && Contains(w.0, z)
  {
    var later := Flatten(log[j + 1..]);
    Covered(later, z) || Shown(Visible(log), z) == Some(if PutsBelow(later, z) then None else LeafAt(w.1, z[|w.0|..]))
  }

  /** Every hidden write is covered up. */
  ghost predicate HiddenCoveredUp(log: seq<WriteRecord>) {
    forall j, e :: 0 <= j < |log| && !log[j].visible && 0 <= e < |Writes(log[j])| ==>
      IsCoveredUp(log, j, Writes(log[j])[e])
  }

  /** All the records show at `z` what the visible ones show. */
  ghost predicate HiddenDoNotShow(log: seq<WriteRecord>, z: Path) {
    Shown(Flatten(log), z) == Shown(Visible(log), z)
  }

  lemma CoveredUpAt(log: seq<WriteRecord>, z: Path)
    requires PlainLog(log) && PlainPath(z) && HiddenCoveredUp(log)
    ensures HiddenDoNotShow(log, z)
  {
    VisibleCover(log, z);
    if Covered(Flatten(log), z) {
      var j, e := LastCover(log, z);
      if log[j].visible {
        VisibleIsLast(log, j, e, z);
      } else {
        HiddenIsLast(log, j, e, z);
      }
    }
  }

  lemma HiddenIsLast(log: seq<WriteRecord>, j: nat, e: nat, z: Path)
    requires PlainLog(log) && PlainPath(z) && j < |log| && e < |Writes(log[j])|
    requires Contains(Writes(log[j])[e].0, z) && !Covered(Flatten(log[j + 1..]), z)
    requires IsCoveredUp(log, j, Writes(log[j])[e])
    ensures HiddenDoNotShow(log, z)
  {
    ShownByRecord(log, j, e, z);
    assert AgreesBelow(log, j, Writes(log[j])[e], z);
  }

  lemma VisibleIsLast(log: seq<WriteRecord>, j: nat, e: nat, z: Path)
    requires PlainLog(log) && PlainPath(z) && HiddenCoveredUp(log)
    requires j < |log| && log[j].visible && e < |Writes(log[j])|
    requires Contains(Writes(log[j])[e].0, z) && !Covered(Flatten(log[j + 1..]), z)
    ensures HiddenDoNotShow(log, z)
  {
    ShownByRecord(log, j, e, z);
    NoHiddenData(log, j, z);
    VisibleData(log[j + 1..], z);
  }

  lemma VisibleData(log: seq<WriteRecord>, z: Path)
    ensures PutsBelow(Visible(log), z) ==> PutsBelow(Flatten(log), z)
  {
    if PutsBelow(Visible(log), z) {
      var i :| 0 <= i < |Visible(log)| && StrictlyAbove(z, Visible(log)[i].0) && Visible(log)[i].1 != Empty;
      var j := VisibleFrom(log, Visible(log)[i]);
      FlattenHas(log, j, Visible(log)[i]);
    }
  }

  /** Where the visible writes show a leaf, no later hidden write has data below. */
  lemma NoHiddenData(log: seq<WriteRecord>, j: nat, z: Path)
    requires HiddenCoveredUp(log) && j < |log| && !Covered(Flatten(log[j + 1..]), z)
    ensures ShowsLeaf(Visible(log), z) && PutsBelow(Flatten(log[j + 1..]), z) ==> PutsBelow(Visible(log[j + 1..]), z)
  {
    var later := log[j + 1..];
    if ShowsLeaf(Visible(log), z) && PutsBelow(Flatten(later), z) {
      var i :| 0 <= i < |Flatten(later)| && StrictlyAbove(z, Flatten(later)[i].0) && Flatten(later)[i].1 != Empty;
      var k := FlattenFrom(later, Flatten(later)[i]);
      var e :| 0 <= e < |Writes(later[k])| && Writes(later[k])[e] == Flatten(later)[i];
      assert later[k] == log[j + 1 + k] && log[j + 1 + k + 1..] == later[k + 1..];
      if later[k].visible {
        DataFromRecord(later, k, e, z);
      } else {
        assert IsCoveredUp(log, j + 1 + k, Writes(log[j + 1 + k])[e]);
        CoverAfter(later, k, z);
      }
    }
  }

  lemma CoverAfter(later: seq<WriteRecord>, k: nat, z: Path)
    requires k < |later| && Covered(Flatten(later[k + 1..]), z)
    ensures Covered(Flatten(later), z)
  {
    FlattenAround(later, k);
    var i :| 0 <= i < |Flatten(later[k + 1..])| && Contains(Flatten(later[k + 1..])[i].0, z);
    assert Flatten(later)[|Flatten(later[..k])| + |Writes(later[k])| + i] == Flatten(later[k + 1..])[i];
  }

  lemma HiddenIsCoveredUp(log: seq<WriteRecord>, j: nat, e: nat)
    requires PlainLog(log) && j < |log| && !log[j].visible && e < |Writes(log[j])|
    requires forall z: Path :: PlainPath(z) ==> HiddenDoNotShow(log, z)
    ensures IsCoveredUp(log, j, Writes(log[j])[e])
  {
    var w := Writes(log[j])[e];
    forall z: Path | PlainPath(z) && Contains(w.0, z) ensures AgreesBelow(log, j, w, z) {
      assert HiddenDoNotShow(log, z);
      if !Covered(Flatten(log[j + 1..]), z) {
        ShownByRecord(log, j, e, z);
      }
    }
    if w.1 != Empty {
      forall z: Path | StrictlyAbove(z, w.0) && ShowsLeaf(Visible(log), z) ensures Covered(Flatten(log[j + 1..]), z) {
        assert PlainRecord(log[j]) && PlainPath(w.0) && PlainPath(z);
        assert HiddenDoNotShow(log, z);
        LeafIsCovered(log, j, e, z);
      }
    }
  }

  lemma LeafIsCovered(log: seq<WriteRecord>, j: nat, e: nat, z: Path)
    requires PlainLog(log) && PlainPath(z) && j < |log| && e < |Writes(log[j])|
    requires StrictlyAbove(z, Writes(log[j])[e].0) && Writes(log[j])[e].1 != Empty && ShowsLeaf(Flatten(log), z)
    ensures Covered(Flatten(log[j + 1..]), z)
  {
    SomethingCovers(Flatten(log), z);
    var i, c := LastCover(log, z);
    if i < j {
      DataHidesLeaf(log, i, c, j, e, z);
    } else if i == j {
      SameRecordApart(log[j], c, e, z);
    } else {
      LaterCover(log, j, i, c, z);
    }
  }

  lemma LaterCover(log: seq<WriteRecord>, j: nat, i: nat, c: nat, z: Path)
    requires j < i < |log| && c < |Writes(log[i])| && Contains(Writes(log[i])[c].0, z)
    ensures Covered(Flatten(log[j + 1..]), z)
  {
    assert log[j + 1..][i - j - 1] == log[i];
    CoveredByRecord(log[j + 1..], i - j - 1, z);
  }

  lemma SomethingCovers(writes: seq<(Path, Node)>, z: Path)
    requires Shown(writes, z).Some?
    ensures Covered(writes, z)
  {
  }

  lemma SameRecordApart(r: WriteRecord, c: nat, e: nat, z: Path)
    requires ValidRecord(r) && c < |Writes(r)| && e < |Writes(r)|
    requires StrictlyAbove(z, Writes(r)[e].0)
    ensures !Contains(Writes(r)[c].0, z)
  {
    WritesAreApart(r);
    if c != e {
      assert Incomparable(Writes(r)[if c < e then c else e].0, Writes(r)[if c < e then e else c].0);
    }
  }

  /** Data below, after the last cover, leaves no leaf to be shown. */
  lemma DataHidesLeaf(log: seq<WriteRecord>, i: nat, c: nat, j: nat, e: nat, z: Path)
    requires PlainLog(log) && PlainPath(z) && i < j < |log| && c < |Writes(log[i])| && e < |Writes(log[j])|
    requires Contains(Writes(log[i])[c].0, z) && !Covered(Flatten(log[i + 1..]), z)
    requires StrictlyAbove(z, Writes(log[j])[e].0) && Writes(log[j])[e].1 != Empty
    ensures !ShowsLeaf(Flatten(log), z)
  {
    ShownByRecord(log, i, c, z);
    assert log[i + 1..][j - i - 1] == log[j];
    DataFromRecord(log[i + 1..], j - i - 1, e, z);
  }

  /** All the records show what the visible ones show exactly when every hidden write is covered up. */
  lemma HiddenExact(log: seq<WriteRecord>)
    requires PlainLog(log)
    ensures HiddenCoveredUp(log) <==> forall z: Path :: PlainPath(z) ==> HiddenDoNotShow(log, z)
  {
    if HiddenCoveredUp(log) {
      forall z: Path | PlainPath(z) ensures HiddenDoNotShow(log, z) {
        CoveredUpAt(log, z);
      }
    } else if forall z: Path :: PlainPath(z) ==> HiddenDoNotShow(log, z) {
      forall j, e | 0 <= j < |log| && !log[j].visible && 0 <= e < |Writes(log[j])|
        ensures IsCoveredUp(log, j, Writes(log[j])[e])
      {
        HiddenIsCoveredUp(log, j, e);
      }
    }
  }
}
