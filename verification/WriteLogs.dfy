/**
 The log of optimistic writes and its cached overlay as a state machine (FWriteTree.swift). Every run of
 admissible operations keeps the cache equal to layering the visible part of the log.
 */
module WriteLogs {
  import opened Paths
  import opened Nodes
  import opened ImmutableTrees
  import opened CompoundWrites
  import opened Overlays
  import opened Layering
  import opened Removals
  import opened Lists

  datatype LogState = LogState(visibleWrites: CompoundWrite, allWrites: seq<WriteRecord>, lastWriteId: int)

  function EmptyLog(): LogState {
    LogState(EmptyWrite(), [], -1)
  }

  predicate IsVisible(r: WriteRecord) {
    r.visible
  }

  /** What the cache stands for. */
  ghost function VisibleLayer(log: seq<WriteRecord>): WriteTree {
    Layer(Filter(log, IsVisible), [])
  }

  ghost predicate CacheAgrees(s: LogState) {
    s.visibleWrites.writeTree == VisibleLayer(s.allWrites)
  }

  ghost predicate ValidLog(log: seq<WriteRecord>) {
    forall i :: 0 <= i < |log| ==> ValidRecord(log[i])
  }

  /** Write ids grow along the log and never exceed the last one recorded. */
  predicate IdsInOrder(s: LogState) {
    && (forall i, j :: 0 <= i < j < |s.allWrites| ==> s.allWrites[i].writeId < s.allWrites[j].writeId)
    && (forall i :: 0 <= i < |s.allWrites| ==> s.allWrites[i].writeId <= s.lastWriteId)
  }

  /* ---------- the operations ---------- */

  function IndexOf(log: seq<WriteRecord>, id: int): (i: nat)
    ensures i <= |log|
    ensures i < |log| ==> log[i].writeId == id
    ensures forall j :: 0 <= j < i ==> log[j].writeId != id
  {
    if log == [] || log[0].writeId == id then 0 else 1 + IndexOf(log[1..], id)
  }

  function RemoveAt(log: seq<WriteRecord>, i: nat): seq<WriteRecord>
    requires i < |log|
  {
    log[..i] + log[i + 1..]
  }

  /** The record completely covers the path. */
  ghost predicate Shadows(r: WriteRecord, path: Path) {
    exists i :: 0 <= i < |Writes(r)| && Contains(Writes(r)[i].0, path)
  }

  /** A visible record after the removed one shadows it. */
  ghost predicate IsShadowed(rest: seq<WriteRecord>, index: nat, path: Path) {
    exists i :: index <= i < |rest| && rest[i].visible && Shadows(rest[i], path)
  }

  /** A visible record is rooted at or below the removed path. */
  predicate IsOverlapping(rest: seq<WriteRecord>, path: Path) {
    exists i :: 0 <= i < |rest| && rest[i].visible && Contains(path, rest[i].path)
  }

  datatype Outcome = Hidden | Shadowed | Overlapping | Separate

  ghost function OutcomeOf(log: seq<WriteRecord>, index: nat): Outcome
    requires index < |log|
  {
    var rest, removed := RemoveAt(log, index), log[index];
    if !removed.visible then Hidden
    else if IsShadowed(rest, index, removed.path) then Shadowed
    else if IsOverlapping(rest, removed.path) then Overlapping
    else Separate
  }

  function LastId(log: seq<WriteRecord>): int {
    if log == [] then -1 else log[|log| - 1].writeId
  }

  /** The reset layers every remaining record, hidden ones included. */
  ghost function AfterRemove(s: LogState, id: int): LogState {
    var index := IndexOf(s.allWrites, id);
    if index == |s.allWrites| then s
    else
      var rest, removed := RemoveAt(s.allWrites, index), s.allWrites[index];
      match OutcomeOf(s.allWrites, index)
      case Hidden => s.(allWrites := rest)
      case Shadowed => s.(allWrites := rest)
      case Overlapping => LogState(CompoundWrite(Layer(rest, [])), rest, LastId(rest))
      case Separate =>
        s.(visibleWrites := CompoundWrite(EraseAll(s.visibleWrites.writeTree, Writes(removed))), allWrites := rest)
  }

  ghost function AfterAdd(s: LogState, r: WriteRecord): LogState {
    LogState(
      if r.visible then CompoundWrite(PutAll(s.visibleWrites.writeTree, Writes(r))) else s.visibleWrites,
      s.allWrites + [r],
      r.writeId)
  }

  datatype Operation = Add(record: WriteRecord) | Remove(writeId: int) | RemoveAll

  ghost function Step(s: LogState, op: Operation): LogState {
    match op
    case Add(r) => AfterAdd(s, r)
    case Remove(id) => AfterRemove(s, id)
    case RemoveAll => s.(visibleWrites := EmptyWrite(), allWrites := [])
  }

  ghost function Run(s: LogState, ops: seq<Operation>): LogState
    decreases ops
  {
    if ops == [] then s else Run(Step(s, ops[0]), ops[1..])
  }

  /* ---------- when taking a write back is safe ---------- */

  /**
   Every other visible record rooted strictly above the removed one either comes later and shadows it,
   or writes nothing above or below it.
   */
  ghost predicate Untangled(log: seq<WriteRecord>, index: nat)
    requires index < |log|
  {
    forall j :: 0 <= j < |log| && j != index && log[j].visible && StrictlyAbove(log[j].path, log[index].path) ==>
      (j > index && Shadows(log[j], log[index].path)) || AllBeside(Writes(log[j]), log[index].path)
  }

  /** What each exit of a removal needs; a rebuild also layers hidden records, so there must be none left. */
  ghost predicate SafeRemoval(log: seq<WriteRecord>, id: int) {
    var index := IndexOf(log, id);
    index < |log| ==>
      match OutcomeOf(log, index)
      case Hidden => true
      case Shadowed => Untangled(log, index)
      case Overlapping => forall r :: r in RemoveAt(log, index) ==> r.visible
      case Separate => Untangled(log, index)
  }

  ghost predicate Admissible(s: LogState, op: Operation) {
    match op
    case Add(r) => ValidRecord(r) && r.writeId > s.lastWriteId
    case Remove(id) => SafeRemoval(s.allWrites, id)
    case RemoveAll => true
  }

  ghost predicate AllAdmissible(s: LogState, ops: seq<Operation>)
    decreases ops
  {
    ops != [] ==> Admissible(s, ops[0]) && AllAdmissible(Step(s, ops[0]), ops[1..])
  }

  /* ---------- the log as one list of writes ---------- */

  ghost function WriteLists(log: seq<WriteRecord>): seq<seq<(Path, Node)>> {
    seq(|log|, i requires 0 <= i < |log| => Writes(log[i]))
  }

  ghost function Flatten(log: seq<WriteRecord>): seq<(Path, Node)> {
    Concat(WriteLists(log))
  }

  lemma FlattenInSteps(a: seq<WriteRecord>, b: seq<WriteRecord>)
    ensures Flatten(a + b) == Flatten(a) + Flatten(b)
  {
    assert WriteLists(a + b) == WriteLists(a) + WriteLists(b);
    ConcatInSteps(WriteLists(a), WriteLists(b));
  }

  lemma FlattenOne(r: WriteRecord)
    ensures Flatten([r]) == Writes(r)
  {
    assert WriteLists([r]) == [Writes(r)];
    ConcatOne(Writes(r));
  }

  /** The single writes of the visible records. */
  ghost function Visible(log: seq<WriteRecord>): seq<(Path, Node)> {
    Flatten(Filter(log, IsVisible))
  }

  lemma {:induction false} LayerIsPutAll(log: seq<WriteRecord>)
    ensures Layer(log, []) == PutAll(EmptyTree(), Flatten(log))
  {
    if log != [] {
      var n := |log| - 1;
      LayerIsPutAll(log[..n]);
      LayerRecordAtTop(Layer(log[..n], []), log[n]);
      assert log[..n] + [log[n]] == log;
      FlattenInSteps(log[..n], [log[n]]);
      FlattenOne(log[n]);
      PutAllInSteps(EmptyTree(), Flatten(log[..n]), Writes(log[n]));
    }
  }

  lemma VisibleLayerIsPutAll(log: seq<WriteRecord>)
    ensures VisibleLayer(log) == PutAll(EmptyTree(), Visible(log))
  {
    LayerIsPutAll(Filter(log, IsVisible));
  }

  lemma {:induction false} FilterInSteps(a: seq<WriteRecord>, b: seq<WriteRecord>)
    ensures Filter(a + b, IsVisible) == Filter(a, IsVisible) + Filter(b, IsVisible)
    decreases b
  {
    if b == [] {
      assert a + b == a;
    } else {
      var n := |b| - 1;
      assert (a + b)[..|a + b| - 1] == a + b[..n];
      FilterInSteps(a, b[..n]);
    }
  }

  lemma VisibleInSteps(a: seq<WriteRecord>, b: seq<WriteRecord>)
    ensures Visible(a + b) == Visible(a) + Visible(b)
  {
    FilterInSteps(a, b);
    FlattenInSteps(Filter(a, IsVisible), Filter(b, IsVisible));
  }

  lemma VisibleOne(r: WriteRecord)
    ensures Visible([r]) == if r.visible then Writes(r) else []
  {
    assert [r][..0] == [];
    assert Filter([r], IsVisible) == if r.visible then [r] else [];
    FlattenOne(r);
  }

  lemma {:induction false} AllVisible(log: seq<WriteRecord>)
    requires forall r :: r in log ==> r.visible
    ensures Filter(log, IsVisible) == log
  {
    if log != [] {
      AllVisible(log[..|log| - 1]);
    }
  }

  /** Every single visible write comes from a visible record. */
  lemma {:induction false} VisibleFrom(log: seq<WriteRecord>, w: (Path, Node)) returns (j: nat)
    requires w in Visible(log)
    ensures j < |log| && log[j].visible && w in Writes(log[j])
  {
    var n := |log| - 1;
    assert log == log[..n] + [log[n]];
    VisibleInSteps(log[..n], [log[n]]);
    VisibleOne(log[n]);
    if w in Visible(log[..n]) {
      j := VisibleFrom(log[..n], w);
    } else {
      j := n;
    }
  }

  /** And every write of a visible record is among them. */
  lemma {:induction false} VisibleHas(log: seq<WriteRecord>, j: nat, w: (Path, Node))
    requires j < |log| && log[j].visible && w in Writes(log[j])
    ensures w in Visible(log)
  {
    assert log == log[..j] + ([log[j]] + log[j + 1..]);
    VisibleInSteps(log[..j], [log[j]] + log[j + 1..]);
    VisibleInSteps([log[j]], log[j + 1..]);
    VisibleOne(log[j]);
  }

  lemma VisibleAreValid(log: seq<WriteRecord>)
    requires ValidLog(log)
    ensures ValidWrites(Visible(log))
  {
    var ws := Visible(log);
    forall i | 0 <= i < |ws| ensures ValidPath(ws[i].0) && Canonical(ws[i].1) {
      var j := VisibleFrom(log, ws[i]);
      WritesAreValid(log[j]);
      var k :| 0 <= k < |Writes(log[j])| && Writes(log[j])[k] == ws[i];
    }
  }

  lemma WritesAreWithin(r: WriteRecord)
    ensures AllWithin(Writes(r), r.path)
  {
  }

  lemma WritesAreApart(r: WriteRecord)
    requires ValidRecord(r)
    ensures Apart(Writes(r))
  {
    if r.record.Merge? {
      var entries := Entries(r.record.merge.writeTree);
      EntriesAreApart(r.record.merge.writeTree);
      forall i, j | 0 <= i < j < |entries| ensures Incomparable(r.path + entries[i].0, r.path + entries[j].0) {
        UnderIncomparable(r.path, entries[i].0, entries[j].0);
      }
    }
  }

  /* ---------- one removal ---------- */

  lemma AroundRemoved(log: seq<WriteRecord>, index: nat)
    requires index < |log|
    ensures Visible(log) == Visible(log[..index]) + Visible([log[index]]) + Visible(log[index + 1..])
    ensures Visible(RemoveAt(log, index)) == Visible(log[..index]) + Visible(log[index + 1..])
  {
    assert log == log[..index] + [log[index]] + log[index + 1..];
    VisibleInSteps(log[..index] + [log[index]], log[index + 1..]);
    VisibleInSteps(log[..index], [log[index]]);
    VisibleInSteps(log[..index], log[index + 1..]);
  }

  /** The layers before, with and without the removed record, as lists of writes. */
  lemma LayersAround(log: seq<WriteRecord>, index: nat)
    requires index < |log| && log[index].visible
    ensures VisibleLayer(log) == PutAll(EmptyTree(), Visible(log[..index]) + Writes(log[index]) + Visible(log[index + 1..]))
    ensures VisibleLayer(RemoveAt(log, index)) == PutAll(EmptyTree(), Visible(log[..index]) + Visible(log[index + 1..]))
    ensures VisibleLayer(log[..index]) == PutAll(EmptyTree(), Visible(log[..index]))
  {
    VisibleOne(log[index]);
    AroundRemoved(log, index);
    VisibleLayerIsPutAll(log);
    VisibleLayerIsPutAll(RemoveAt(log, index));
    VisibleLayerIsPutAll(log[..index]);
  }

  lemma RestAt(log: seq<WriteRecord>, index: nat, j: nat)
    requires index < |log| && j < |log| && j != index
    ensures RemoveAt(log, index)[if j < index then j else j - 1] == log[j]
  {
  }

  lemma ShadowingRecord(log: seq<WriteRecord>, index: nat) returns (i: nat)
    requires index < |log| && OutcomeOf(log, index) == Shadowed
    ensures index < i < |log| && log[i].visible && Shadows(log[i], log[index].path)
  {
    var rest := RemoveAt(log, index);
    var j :| index <= j < |rest| && rest[j].visible && Shadows(rest[j], log[index].path);
    i := j + 1;
    RestAt(log, index, i);
  }

  /** Some later visible write covers the removed path. */
  lemma ShadowingWrite(log: seq<WriteRecord>, index: nat) returns (c: nat)
    requires index < |log| && OutcomeOf(log, index) == Shadowed
    ensures c < |Visible(log[index + 1..])| && Contains(Visible(log[index + 1..])[c].0, log[index].path)
  {
    var i := ShadowingRecord(log, index);
    var after, own := log[index + 1..], Writes(log[i]);
    var k :| 0 <= k < |own| && Contains(own[k].0, log[index].path);
    assert after[i - index - 1] == log[i];
    VisibleHas(after, i - index - 1, own[k]);
    c :| 0 <= c < |Visible(after)| && Visible(after)[c] == own[k];
  }

  lemma NothingAbove(log: seq<WriteRecord>, index: nat, m: nat)
    requires index < |log| && Untangled(log, index) && m < |Visible(log[..index])|
    ensures !StrictlyAbove(Visible(log[..index])[m].0, log[index].path)
  {
    var w := Visible(log[..index])[m];
    var j := VisibleFrom(log[..index], w);
    assert log[..index][j] == log[j];
    WriteAboveNeedsRecordAbove(log[j], w, log[index].path);
  }

  lemma ShadowedKeepsCache(log: seq<WriteRecord>, index: nat)
    requires ValidLog(log) && index < |log| && Untangled(log, index) && OutcomeOf(log, index) == Shadowed
    ensures VisibleLayer(log) == VisibleLayer(RemoveAt(log, index))
  {
    var c := ShadowingWrite(log, index);
    var before, own, after := Visible(log[..index]), Writes(log[index]), Visible(log[index + 1..]);
    forall m | 0 <= m < |before| ensures !StrictlyAbove(before[m].0, log[index].path) {
      NothingAbove(log, index, m);
    }
    WritesAreWithin(log[index]);
    VisibleAreValid(log[..index]);
    VisibleAreValid(log[index + 1..]);
    WritesAreValid(log[index]);
    ShadowedRemoval(before, own, after, log[index].path, c);
    LayersAround(log, index);
  }

  lemma WriteAboveNeedsRecordAbove(r: WriteRecord, w: (Path, Node), path: Path)
    requires w in Writes(r)
    ensures StrictlyAbove(w.0, path) ==> StrictlyAbove(r.path, path) && !AllBeside(Writes(r), path)
  {
    var k :| 0 <= k < |Writes(r)| && Writes(r)[k] == w;
    WritesAreWithin(r);
  }

  lemma AllLieBeside(log: seq<WriteRecord>, index: nat, own: (Path, Node))
    requires index < |log| && Untangled(log, index) && OutcomeOf(log, index) == Separate && own in Writes(log[index])
    ensures AllBeside(Visible(log[..index]), own.0) && AllBeside(Visible(log[index + 1..]), own.0)
  {
    EarlierLieBeside(log, index, own);
    LaterLieBeside(log, index, own);
  }

  lemma EarlierLieBeside(log: seq<WriteRecord>, index: nat, own: (Path, Node))
    requires index < |log| && Untangled(log, index) && OutcomeOf(log, index) == Separate && own in Writes(log[index])
    ensures AllBeside(Visible(log[..index]), own.0)
  {
    var before := Visible(log[..index]);
    forall m | 0 <= m < |before| ensures Incomparable(own.0, before[m].0) {
      var j := VisibleFrom(log[..index], before[m]);
      OthersLieBeside(log, index, j, before[m], own);
    }
  }

  lemma LaterLieBeside(log: seq<WriteRecord>, index: nat, own: (Path, Node))
    requires index < |log| && Untangled(log, index) && OutcomeOf(log, index) == Separate && own in Writes(log[index])
    ensures AllBeside(Visible(log[index + 1..]), own.0)
  {
    var after := Visible(log[index + 1..]);
    forall m | 0 <= m < |after| ensures Incomparable(own.0, after[m].0) {
      var j := VisibleFrom(log[index + 1..], after[m]);
      OthersLieBeside(log, index, index + 1 + j, after[m], own);
    }
  }

  lemma SeparateKeepsCache(s: LogState, index: nat)
    requires ValidLog(s.allWrites) && CacheAgrees(s) && index < |s.allWrites|
    requires Untangled(s.allWrites, index) && OutcomeOf(s.allWrites, index) == Separate
    ensures EraseAll(s.visibleWrites.writeTree, Writes(s.allWrites[index]))
            == VisibleLayer(RemoveAt(s.allWrites, index))
  {
    var log := s.allWrites;
    var before, own, after := Visible(log[..index]), Writes(log[index]), Visible(log[index + 1..]);
    forall k | 0 <= k < |own| ensures AllBeside(before, own[k].0) && AllBeside(after, own[k].0) {
      AllLieBeside(log, index, own[k]);
    }
    VisibleAreValid(log[..index]);
    VisibleAreValid(log[index + 1..]);
    WritesAreValid(log[index]);
    WritesAreApart(log[index]);
    SeparateRemoval(before, own, after);
    LayersAround(log, index);
  }

  lemma OthersLieBeside(log: seq<WriteRecord>, index: nat, j: nat, w: (Path, Node), own: (Path, Node))
    requires index < |log| && j < |log| && j != index && log[j].visible
    requires Untangled(log, index) && OutcomeOf(log, index) == Separate
    requires w in Writes(log[j]) && own in Writes(log[index])
    ensures Incomparable(own.0, w.0)
  {
    var root, rest := log[index].path, RemoveAt(log, index);
    RestAt(log, index, j);
    var at := if j < index then j else j - 1;
    assert !Contains(root, log[j].path);
    WritesAreWithin(log[j]);
    WritesAreWithin(log[index]);
    var k :| 0 <= k < |Writes(log[j])| && Writes(log[j])[k] == w;
    assert Contains(log[j].path, w.0) && Contains(root, own.0);
    if StrictlyAbove(log[j].path, root) {
      if j > index {
        assert index <= at && !Shadows(rest[at], root);
      }
      assert AllBeside(Writes(log[j]), root);
    } else {
      assert Incomparable(log[j].path, root);
      BesideBelow(log[j].path, root, w.0[|log[j].path|..]);
      assert log[j].path + w.0[|log[j].path|..] == w.0;
    }
    BesideBelow(root, w.0, own.0[|root|..]);
    assert root + own.0[|root|..] == own.0;
  }

  lemma HiddenKeepsCache(log: seq<WriteRecord>, index: nat)
    requires index < |log| && !log[index].visible
    ensures VisibleLayer(log) == VisibleLayer(RemoveAt(log, index))
  {
    AroundRemoved(log, index);
    VisibleOne(log[index]);
    assert Visible(log) == Visible(RemoveAt(log, index));
    VisibleLayerIsPutAll(log);
    VisibleLayerIsPutAll(RemoveAt(log, index));
  }

  /** The removal keeps the cache: its three shortcuts refine the rebuild. */
  lemma RemovalKeepsCache(s: LogState, id: int)
    requires ValidLog(s.allWrites) && CacheAgrees(s) && SafeRemoval(s.allWrites, id)
    ensures CacheAgrees(AfterRemove(s, id))
  {
    var index := IndexOf(s.allWrites, id);
    if index < |s.allWrites| {
      match OutcomeOf(s.allWrites, index) {
        case Hidden => HiddenKeepsCache(s.allWrites, index);
        case Shadowed => ShadowedKeepsCache(s.allWrites, index);
        case Overlapping => AllVisible(RemoveAt(s.allWrites, index));
        case Separate => SeparateKeepsCache(s, index);
      }
    }
  }

  lemma RemovalKeepsLog(s: LogState, id: int)
    ensures ValidLog(s.allWrites) ==> ValidLog(AfterRemove(s, id).allWrites)
    ensures IdsInOrder(s) ==> IdsInOrder(AfterRemove(s, id))
  {
    var index := IndexOf(s.allWrites, id);
    if index < |s.allWrites| {
      RestIdsInOrder(s, index);
      assert AfterRemove(s, id).allWrites == RemoveAt(s.allWrites, index);
    }
  }

  lemma RestIdsInOrder(s: LogState, index: nat)
    requires index < |s.allWrites|
    ensures ValidLog(s.allWrites) ==> ValidLog(RemoveAt(s.allWrites, index))
    ensures IdsInOrder(s) ==> forall w :: IdsInOrder(LogState(w, RemoveAt(s.allWrites, index), s.lastWriteId))
    ensures IdsInOrder(s) ==>
              forall w :: IdsInOrder(LogState(w, RemoveAt(s.allWrites, index), LastId(RemoveAt(s.allWrites, index))))
  {
  }

  lemma AddKeepsCache(s: LogState, r: WriteRecord)
    requires CacheAgrees(s) && ValidLog(s.allWrites) && ValidRecord(r)
    ensures CacheAgrees(AfterAdd(s, r))
  {
    VisibleInSteps(s.allWrites, [r]);
    VisibleOne(r);
    VisibleLayerIsPutAll(s.allWrites);
    VisibleLayerIsPutAll(s.allWrites + [r]);
    if r.visible {
      PutAllInSteps(EmptyTree(), Visible(s.allWrites), Writes(r));
    } else {
      assert Visible(s.allWrites) + [] == Visible(s.allWrites);
    }
  }

  /** Ids stay in order, also when a reset takes the last id back. */
  lemma StepKeepsLog(s: LogState, op: Operation)
    requires IdsInOrder(s) && ValidLog(s.allWrites) && Admissible(s, op)
    ensures IdsInOrder(Step(s, op)) && ValidLog(Step(s, op).allWrites)
  {
    if op.Remove? {
      RemovalKeepsLog(s, op.writeId);
    }
  }

  lemma StepKeepsCache(s: LogState, op: Operation)
    requires CacheAgrees(s) && ValidLog(s.allWrites) && Admissible(s, op)
    ensures CacheAgrees(Step(s, op))
  {
    match op {
      case Add(r) => AddKeepsCache(s, r);
      case Remove(id) => RemovalKeepsCache(s, id);
      case RemoveAll => assert Filter([], IsVisible) == [];
    }
  }

  /** Over every admissible run the cached overlay is the layering of the visible log. */
  lemma {:induction false} RunKeepsCache(s: LogState, ops: seq<Operation>)
    requires CacheAgrees(s) && ValidLog(s.allWrites) && IdsInOrder(s) && AllAdmissible(s, ops)
    ensures CacheAgrees(Run(s, ops)) && ValidLog(Run(s, ops).allWrites) && IdsInOrder(Run(s, ops))
    decreases ops
  {
    if ops != [] {
      StepKeepsLog(s, ops[0]);
      StepKeepsCache(s, ops[0]);
      RunKeepsCache(Step(s, ops[0]), ops[1..]);
    }
  }
}
