/**
 What is in the write log (FWriteTree.swift): after a removal exactly the other records, in order; over a run
 exactly the records that were added and not removed since; and which write id counts as the last.
 */
module LogContents {
  import opened ImmutableTrees
  import opened Layering
  import opened WriteLogs

  ghost predicate IdsIncrease(log: seq<WriteRecord>) {
    forall i, j :: 0 <= i < j < |log| ==> log[i].writeId < log[j].writeId
  }

  ghost predicate HasId(log: seq<WriteRecord>, id: int) {
    exists r :: r in log && r.writeId == id
  }

  /** Whatever the exit: the record with the id is gone, all others are there, in the order of their ids. */
  lemma RemovalTakesOut(s: LogState, id: int)
    requires IdsInOrder(s)
    ensures var after := AfterRemove(s, id).allWrites;
            && (forall r :: r in after <==> r in s.allWrites && r.writeId != id)
            && IdsIncrease(after) && !HasId(after, id) && IndexOf(after, id) == |after|
  {
    var log, index := s.allWrites, IndexOf(s.allWrites, id);
    if index == |log| {
      HasIdIsFound(log, id);
    } else {
      assert AfterRemove(s, id).allWrites == RemoveAt(log, index);
      forall r ensures r in RemoveAt(log, index) <==> r in log && r.writeId != id {
        WithoutOne(log, index, r);
      }
    }
    HasIdIsFound(AfterRemove(s, id).allWrites, id);
  }

  lemma WithoutOne(log: seq<WriteRecord>, index: nat, r: WriteRecord)
    requires index < |log| && IdsIncrease(log)
    ensures r in RemoveAt(log, index) <==> r in log && r.writeId != log[index].writeId
  {
    var rest := RemoveAt(log, index);
    if r in rest {
      var j :| 0 <= j < |rest| && rest[j] == r;
      assert log[if j < index then j else j + 1] == r;
    }
    if r in log && r.writeId != log[index].writeId {
      var j :| 0 <= j < |log| && log[j] == r;
      assert rest[if j < index then j else j - 1] == r;
    }
  }

  /**
   The caller is told to look again exactly when the record was there, visible, and no later visible record covers
   its path; else the overlay is as it was.
   */
  lemma AnswerOfRemoval(s: LogState, id: int)
    ensures var log, index := s.allWrites, IndexOf(s.allWrites, id);
            (index < |log| && OutcomeOf(log, index) in {Overlapping, Separate})
            <==> index < |log| && log[index].visible
                 && forall j :: index < j < |log| && log[j].visible ==> !Shadows(log[j], log[index].path)
    ensures var index := IndexOf(s.allWrites, id);
            AfterRemove(s, id).visibleWrites != s.visibleWrites ==>
              index < |s.allWrites| && OutcomeOf(s.allWrites, index) in {Overlapping, Separate}
  {
    var log, index := s.allWrites, IndexOf(s.allWrites, id);
    if index < |log| {
      var rest := RemoveAt(log, index);
      forall j | index < j < |log| ensures rest[j - 1] == log[j] {
        RestAt(log, index, j);
      }
      assert IsShadowed(rest, index, log[index].path)
        <==> exists j :: index < j < |log| && log[j].visible && Shadows(log[j], log[index].path) by {
        if IsShadowed(rest, index, log[index].path) {
          var i :| index <= i < |rest| && rest[i].visible && Shadows(rest[i], log[index].path);
          assert log[i + 1] == rest[i];
        }
        if j :| index < j < |log| && log[j].visible && Shadows(log[j], log[index].path) {
          assert rest[j - 1] == log[j];
        }
      }
    }
  }

  /* ---------- the last id ---------- */

  /** The last id is that of the last record, or -1 in an empty log. */
  ghost predicate IsLastOf(log: seq<WriteRecord>, id: int) {
    (forall r :: r in log ==> r.writeId <= id) && if log == [] then id == -1 else HasId(log, id)
  }

  /** Adding takes the new id; a rebuild goes back to the last record that is left; nothing else changes the last id. */
  lemma LastIdAfter(s: LogState, op: Operation)
    requires IdsInOrder(s)
    ensures match op
            case Add(r) => Step(s, op).lastWriteId == r.writeId
            case RemoveAll => Step(s, op).lastWriteId == s.lastWriteId
            case Remove(id) =>
              if HasId(s.allWrites, id) && OutcomeOf(s.allWrites, IndexOf(s.allWrites, id)) == Overlapping
              then IsLastOf(Step(s, op).allWrites, Step(s, op).lastWriteId)
              else Step(s, op).lastWriteId == s.lastWriteId
  {
    if op.Remove? {
      LastIdAfterRemove(s, op.writeId);
    }
  }

  lemma LastIdAfterRemove(s: LogState, id: int)
    requires IdsInOrder(s)
    ensures if HasId(s.allWrites, id) && OutcomeOf(s.allWrites, IndexOf(s.allWrites, id)) == Overlapping
            then IsLastOf(AfterRemove(s, id).allWrites, AfterRemove(s, id).lastWriteId)
            else AfterRemove(s, id).lastWriteId == s.lastWriteId
  {
    HasIdIsFound(s.allWrites, id);
    RemovalTakesOut(s, id);
    LastOfOrdered(AfterRemove(s, id).allWrites);
  }

  lemma LastOfOrdered(log: seq<WriteRecord>)
    requires IdsIncrease(log)
    ensures IsLastOf(log, LastId(log))
  {
    if log != [] {
      assert log[|log| - 1] in log;
    }
    forall r | r in log ensures r.writeId <= LastId(log) {
      var j :| 0 <= j < |log| && log[j] == r;
    }
  }

  lemma HasIdIsFound(log: seq<WriteRecord>, id: int)
    ensures HasId(log, id) <==> IndexOf(log, id) < |log|
  {
    if IndexOf(log, id) < |log| {
      assert log[IndexOf(log, id)] in log;
    }
    if r :| r in log && r.writeId == id {
      var j :| 0 <= j < |log| && log[j] == r;
    }
  }

  /* ---------- runs ---------- */

  /** Every added record has a larger id than the last one, as the source asserts. */
  ghost predicate FreshIds(s: LogState, ops: seq<Operation>)
    decreases ops
  {
    ops != [] ==>
      && (ops[0].Add? ==> ops[0].record.writeId > s.lastWriteId)
      && FreshIds(Step(s, ops[0]), ops[1..])
  }

  ghost predicate NotRemoved(ops: seq<Operation>, r: WriteRecord) {
    forall i :: 0 <= i < |ops| ==> ops[i] != Remove(r.writeId) && ops[i] != RemoveAll
  }

  /** The record was added and has not been removed since. */
  ghost predicate AddedAndKept(ops: seq<Operation>, r: WriteRecord) {
    exists i :: 0 <= i < |ops| && ops[i] == Add(r) && NotRemoved(ops[i + 1..], r)
  }

  lemma StepContents(s: LogState, op: Operation, r: WriteRecord)
    requires IdsInOrder(s)
    ensures r in Step(s, op).allWrites <==> op == Add(r) || (r in s.allWrites && op != Remove(r.writeId) && op != RemoveAll)
  {
    if op.Remove? {
      RemovalTakesOut(s, op.writeId);
    }
  }

  lemma StepKeepsIds(s: LogState, op: Operation)
    requires IdsInOrder(s) && (op.Add? ==> op.record.writeId > s.lastWriteId)
    ensures IdsInOrder(Step(s, op))
  {
    if op.Remove? {
      var after := Step(s, op).allWrites;
      RemovalTakesOut(s, op.writeId);
      LastIdAfter(s, op);
      forall i | 0 <= i < |after| ensures after[i].writeId <= Step(s, op).lastWriteId {
        assert after[i] in after && after[i] in s.allWrites;
        var j :| 0 <= j < |s.allWrites| && s.allWrites[j] == after[i];
      }
    }
  }

  lemma AddedInSteps(ops: seq<Operation>, r: WriteRecord)
    requires ops != []
    ensures AddedAndKept(ops, r) <==> (ops[0] == Add(r) && NotRemoved(ops[1..], r)) || AddedAndKept(ops[1..], r)
    ensures NotRemoved(ops, r) <==> ops[0] != Remove(r.writeId) && ops[0] != RemoveAll && NotRemoved(ops[1..], r)
  {
    var rest := ops[1..];
    assert forall i :: 0 < i < |ops| ==> ops[i] == rest[i - 1];
    if i :| 0 <= i < |ops| && ops[i] == Add(r) && NotRemoved(ops[i + 1..], r) {
      assert i > 0 ==> rest[i - 1 + 1..] == ops[i + 1..];
    }
    if i :| 0 <= i < |rest| && rest[i] == Add(r) && NotRemoved(rest[i + 1..], r) {
      assert ops[i + 1 + 1..] == rest[i + 1..];
    }
  }

  /**
   Over every run the log has exactly the records that were added, or there from the start, and not removed
   since, in the order of their ids.
   */
  lemma {:induction false} RunContents(s: LogState, ops: seq<Operation>)
    requires IdsInOrder(s) && FreshIds(s, ops)
    ensures IdsIncrease(Run(s, ops).allWrites)
    ensures forall r :: r in Run(s, ops).allWrites <==> AddedAndKept(ops, r) || (r in s.allWrites && NotRemoved(ops, r))
    decreases ops
  {
    if ops != [] {
      StepKeepsIds(s, ops[0]);
      RunContents(Step(s, ops[0]), ops[1..]);
      forall r
        ensures r in Run(s, ops).allWrites <==> AddedAndKept(ops, r) || (r in s.allWrites && NotRemoved(ops, r))
      {
        StepContents(s, ops[0], r);
        AddedInSteps(ops, r);
      }
    }
  }

  /** After all writes are removed log and overlay are empty, whatever was there. */
  lemma {:induction false} NothingAfterRemoveAll(s: LogState, ops: seq<Operation>)
    requires ops != [] && ops[|ops| - 1] == RemoveAll
    ensures Run(s, ops).allWrites == [] && Run(s, ops).visibleWrites.writeTree == EmptyTree()
    decreases ops
  {
    if |ops| > 1 {
      NothingAfterRemoveAll(Step(s, ops[0]), ops[1..]);
    } else {
      assert ops[1..] == [];
    }
  }
}
