/**
 Reading a multi-path update (FSnapshotUtilities.swift, `compoundWriteFromDictionary`). Checking
 neighbours of the sorted paths finds every pair of paths of which one contains the other, and an
 accepted update does not depend on the order in which the dictionary is visited.
 */
module UpdatePaths {
  import opened Options
  import opened Keys
  import opened Paths
  import opened Nodes
  import opened ImmutableTrees
  import opened CompoundWrites
  import opened Overlays
  import opened Layering
  import opened Removals

  ghost predicate IsSorted(paths: seq<Path>) {
    forall i, j :: 0 <= i < j < |paths| ==> !PathLess(paths[j], paths[i])
  }

  /** Inserts a path behind those that do not sort after it. */
  function Insert(paths: seq<Path>, p: Path): (r: seq<Path>)
    ensures multiset(r) == multiset(paths) + multiset{p}
  {
    if paths == [] then [p]
    else if PathLess(p, paths[0]) then [p] + paths
    else
      assert paths == [paths[0]] + paths[1..];
      [paths[0]] + Insert(paths[1..], p)
  }

  lemma {:induction false} InsertKeepsSorted(paths: seq<Path>, p: Path)
    requires IsSorted(paths)
    ensures IsSorted(Insert(paths, p))
  {
    if paths != [] {
      var r := Insert(paths, p);
      if PathLess(p, paths[0]) {
        PathTrichotomy(paths[0], paths[0]);
        forall j | 0 <= j < |paths| ensures !PathLess(paths[j], p) {
          assert !PathLess(paths[j], paths[0]);
          if PathLess(paths[j], p) {
            PathLessTransitive(paths[j], p, paths[0]);
          }
        }
      } else {
        InsertKeepsSorted(paths[1..], p);
        var rest := Insert(paths[1..], p);
        forall j | 0 <= j < |rest| ensures !PathLess(rest[j], paths[0]) {
          assert rest[j] in multiset(rest);
          if rest[j] != p {
            assert rest[j] in multiset(paths[1..]);
            var i :| 0 <= i < |paths[1..]| && paths[1..][i] == rest[j];
            assert paths[1 + i] == rest[j];
          }
        }
      }
    }
  }

  /** Stands for the sort of the standard library. */
  method SortPaths(paths: seq<Path>) returns (sorted: seq<Path>)
    ensures IsSorted(sorted) && multiset(sorted) == multiset(paths)
  {
    sorted := [];
    for i := 0 to |paths|
      invariant IsSorted(sorted) && multiset(sorted) == multiset(paths[..i])
    {
      InsertKeepsSorted(sorted, paths[i]);
      sorted := Insert(sorted, paths[i]);
      assert paths[..i + 1] == paths[..i] + [paths[i]];
    }
    assert paths[..|paths|] == paths;
  }

  ghost predicate PathsApart(paths: seq<Path>) {
    forall i, j :: 0 <= i < j < |paths| ==> Incomparable(paths[i], paths[j])
  }

  /** Everything sorted between a path and one of its extensions is an extension. */
  lemma BetweenExtensions(a: Path, b: Path, c: Path)
    requires Contains(a, c) && !PathLess(b, a) && !PathLess(c, b)
    ensures Contains(a, b)
  {
    assert a + c[|a|..] == c && b + [] == b;
    if !Contains(a, b) {
      if Contains(b, a) {
        PrefixFirst(b, a);
      }
      PathTrichotomy(a, b);
      OrderSurvivesExtension(a, b, c[|a|..], []);
    }
  }

  /** The neighbour test finds every ancestor pair of a sorted list. */
  lemma NeighboursSuffice(paths: seq<Path>)
    requires IsSorted(paths)
    ensures PathsApart(paths) <==> forall i :: 0 <= i < |paths| - 1 ==> !Contains(paths[i], paths[i + 1])
  {
    if !PathsApart(paths) {
      var i, j :| 0 <= i < j < |paths| && !Incomparable(paths[i], paths[j]);
      if !Contains(paths[i], paths[j]) {
        PrefixFirst(paths[j], paths[i]);
      }
      assert i + 1 == j || !PathLess(paths[j], paths[i + 1]);
      PathTrichotomy(paths[j], paths[j]);
      BetweenExtensions(paths[i], paths[i + 1], paths[j]);
    }
    if forall i :: 0 <= i < |paths| - 1 ==> !Contains(paths[i], paths[i + 1]) {
    } else {
      var i :| 0 <= i < |paths| - 1 && Contains(paths[i], paths[i + 1]);
      assert !Incomparable(paths[i], paths[i + 1]);
    }
  }

  /** Being apart does not depend on the order of a list. */
  lemma ApartUnderPermutation(a: seq<Path>, b: seq<Path>)
    requires multiset(a) == multiset(b) && PathsApart(a)
    ensures PathsApart(b)
  {
    forall i, j | 0 <= i < j < |b| ensures Incomparable(b[i], b[j]) {
      assert b[i] in multiset(a) && b[j] in multiset(a);
      var k :| 0 <= k < |a| && a[k] == b[i];
      var l :| 0 <= l < |a| && a[l] == b[j];
      if k == l {
        TwiceInMultiset(b, i, j);
        OnceInApart(a, k);
      }
    }
  }

  lemma TwiceInMultiset(s: seq<Path>, i: nat, j: nat)
    requires i < j < |s| && s[i] == s[j]
    ensures multiset(s)[s[i]] >= 2
  {
    assert s == s[..i] + [s[i]] + s[i + 1..j] + [s[j]] + s[j + 1..];
  }

  lemma {:induction false} OnceInApart(s: seq<Path>, k: nat)
    requires PathsApart(s) && k < |s|
    ensures multiset(s)[s[k]] == 1
  {
    assert s == s[..k] + [s[k]] + s[k + 1..];
    assert s[k] !in s[..k] && s[k] !in s[k + 1..];
  }

  function PathsOf(values: seq<(Path, Node)>): seq<Path> {
    seq(|values|, i requires 0 <= i < |values| => values[i].0)
  }

  /** `None` stands for the fatal error on an ancestor pair. */
  method CompoundWriteFromDictionary(values: seq<(Path, Node)>) returns (r: Option<CompoundWrite>)
    requires ValidWrites(values)
    ensures r.Some? <==> Apart(values)
    ensures r.Some? ==> Wf(r.value.writeTree)
    ensures r.Some? ==> forall p: Path, v: Node :: IsEntry(r.value.writeTree, p, v) <==> (p, v) in values
  {
    var compoundWrite := EmptyWrite();
    var updatePaths: seq<Path> := [];
    for i := 0 to |values|
      invariant compoundWrite.writeTree == PutAll(EmptyTree(), values[..i])
      invariant updatePaths == PathsOf(values[..i])
    {
      var (path, node) := values[i];
      assert values[..i + 1] == values[..i] + [values[i]];
      PutAllInSteps(EmptyTree(), values[..i], [values[i]]);
      updatePaths := updatePaths + [path];
      compoundWrite := compoundWrite.AddWrite(node, path);
      assert PutAll(compoundWrite.writeTree, [values[i]][1..]) == compoundWrite.writeTree;
    }
    assert values[..|values|] == values;
    var sorted := SortPaths(updatePaths);
    AcceptedExactly(values, sorted);
    var prevPath: Option<Path> := None;
    for i := 0 to |sorted|
      invariant prevPath == if i == 0 then None else Some(sorted[i - 1])
      invariant forall k :: 0 <= k < i - 1 ==> !Contains(sorted[k], sorted[k + 1])
    {
      if prevPath.Some? && Contains(prevPath.value, sorted[i]) {
        assert Contains(sorted[i - 1], sorted[i - 1 + 1]);
        return None;
      }
      prevPath := Some(sorted[i]);
    }
    PutAllKeepsWf(EmptyTree(), values);
    forall p: Path, v: Node ensures IsEntry(compoundWrite.writeTree, p, v) <==> (p, v) in values {
      forall i | 0 <= i < |values| ensures Vacant(EmptyTree(), values[i].0) {
        VacantInEmpty(values[i].0);
      }
      EntriesOfPutAll(EmptyTree(), values, p, v);
    }
    return Some(compoundWrite);
  }

  lemma AcceptedExactly(values: seq<(Path, Node)>, sorted: seq<Path>)
    requires IsSorted(sorted) && multiset(sorted) == multiset(PathsOf(values))
    ensures Apart(values) <==> forall i :: 0 <= i < |sorted| - 1 ==> !Contains(sorted[i], sorted[i + 1])
  {
    NeighboursSuffice(sorted);
    var paths := PathsOf(values);
    if PathsApart(sorted) {
      ApartUnderPermutation(sorted, paths);
      forall i, j | 0 <= i < j < |values| ensures Incomparable(values[i].0, values[j].0) {
        assert Incomparable(paths[i], paths[j]);
      }
    }
    if Apart(values) {
      forall i, j | 0 <= i < j < |paths| ensures Incomparable(paths[i], paths[j]) {
        assert Incomparable(values[i].0, values[j].0);
      }
      ApartUnderPermutation(paths, sorted);
    }
  }

  /* ---------- the entries of the result ---------- */

  /** A write to a vacant place adds one entry. */
  lemma {:induction false} EntryAfterPut(t: WriteTree, x: Node, q: Path, p: Path, v: Node)
    requires Vacant(t, q)
    ensures IsEntry(Put(t, x, q), p, v) <==> (p == q && v == x) || IsEntry(t, p, v)
    decreases q
  {
    if q != [] && p != [] && p[0] == q[0] {
      EntryAfterPut(t.ChildOrEmpty(q[0]), x, q[1..], p[1..], v);
      assert p == [p[0]] + p[1..] && q == [q[0]] + q[1..];
    }
  }

  lemma {:induction false} EntriesOfPutAll(t: WriteTree, writes: seq<(Path, Node)>, p: Path, v: Node)
    requires Wf(t) && ValidWrites(writes) && Apart(writes)
    requires forall i :: 0 <= i < |writes| ==> Vacant(t, writes[i].0)
    ensures IsEntry(PutAll(t, writes), p, v) <==> IsEntry(t, p, v) || (p, v) in writes
    decreases writes
  {
    if writes != [] {
      var (q, x) := writes[0];
      AddWriteIsPut(t, x, q);
      PutKeepsWf(t, x, q);
      EntryAfterPut(t, x, q, p, v);
      forall i | 0 <= i < |writes[1..]| ensures Vacant(Put(t, x, q), writes[1..][i].0) {
        VacantBeside(t, writes[i + 1].0, q, x);
      }
      EntriesOfPutAll(Put(t, x, q), writes[1..], p, v);
      assert (p, v) in writes <==> (p, v) == writes[0] || (p, v) in writes[1..];
    }
  }

  lemma {:induction false} SomeEntry(t: WriteTree) returns (p: Path, v: Node)
    requires Wf(t) && !t.IsEmpty()
    ensures IsEntry(t, p, v)
    decreases t
  {
    if t.value.Some? {
      p, v := [], t.value.value;
    } else {
      var k :| k in t.kids;
      var rest, x := SomeEntry(t.kids[k]);
      p, v := [k] + rest, x;
      assert p[1..] == rest;
    }
  }

  ghost predicate SameEntries(a: WriteTree, b: WriteTree) {
    forall p: Path, v: Node :: IsEntry(a, p, v) <==> IsEntry(b, p, v)
  }

  lemma EntryAtKey(t: WriteTree, k: Key, p: Path, v: Node)
    ensures IsEntry(t, [k] + p, v) <==> k in t.kids && IsEntry(t.kids[k], p, v)
  {
    assert ([k] + p)[1..] == p;
  }

  /** Well-formed trees with the same entries are the same tree. */
  lemma {:induction false} SameEntriesSameTree(a: WriteTree, b: WriteTree)
    requires Wf(a) && Wf(b) && SameEntries(a, b)
    ensures a == b
    decreases a
  {
    if a.value.Some? {
      assert IsEntry(b, [], a.value.value) <==> IsEntry(a, [], a.value.value);
    } else {
      assert b.value.Some? ==> (IsEntry(a, [], b.value.value) <==> IsEntry(b, [], b.value.value));
      forall k: Key | k in a.kids || k in b.kids
        ensures k in a.kids && k in b.kids && a.kids[k] == b.kids[k]
      {
        if k in a.kids {
          SameEntryKeys(a, b, k);
        } else {
          SameEntryKeys(b, a, k);
        }
        SameEntriesBelow(a, b, k);
        SameEntriesSameTree(a.kids[k], b.kids[k]);
      }
      assert a.kids == b.kids;
    }
  }

  lemma SameEntryKeys(a: WriteTree, b: WriteTree, k: Key)
    requires Wf(a) && SameEntries(a, b) && k in a.kids
    ensures k in b.kids
  {
    var p, v := SomeEntry(a.kids[k]);
    EntryAtKey(a, k, p, v);
    EntryAtKey(b, k, p, v);
    assert IsEntry(a, [k] + p, v) <==> IsEntry(b, [k] + p, v);
  }

  lemma SameEntriesBelow(a: WriteTree, b: WriteTree, k: Key)
    requires SameEntries(a, b) && k in a.kids && k in b.kids
    ensures SameEntries(a.kids[k], b.kids[k])
  {
    forall p: Path, v: Node ensures IsEntry(a.kids[k], p, v) <==> IsEntry(b.kids[k], p, v) {
      EntryAtKey(a, k, p, v);
      EntryAtKey(b, k, p, v);
      assert IsEntry(a, [k] + p, v) <==> IsEntry(b, [k] + p, v);
    }
  }

  /** The order in which an accepted dictionary is visited does not matter. */
  lemma OrderDoesNotMatter(a: seq<(Path, Node)>, b: seq<(Path, Node)>)
    requires ValidWrites(a) && ValidWrites(b) && Apart(a) && Apart(b)
    requires forall w :: w in a <==> w in b
    ensures PutAll(EmptyTree(), a) == PutAll(EmptyTree(), b)
  {
    PutAllKeepsWf(EmptyTree(), a);
    PutAllKeepsWf(EmptyTree(), b);
    forall p: Path, v: Node
      ensures IsEntry(PutAll(EmptyTree(), a), p, v) <==> IsEntry(PutAll(EmptyTree(), b), p, v)
    {
      forall i | 0 <= i < |a| ensures Vacant(EmptyTree(), a[i].0) {
        VacantInEmpty(a[i].0);
      }
      forall i | 0 <= i < |b| ensures Vacant(EmptyTree(), b[i].0) {
        VacantInEmpty(b[i].0);
      }
      EntriesOfPutAll(EmptyTree(), a, p, v);
      EntriesOfPutAll(EmptyTree(), b, p, v);
    }
    SameEntriesSameTree(PutAll(EmptyTree(), a), PutAll(EmptyTree(), b));
  }
}
