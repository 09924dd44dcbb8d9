/**
 The leaves of a tree in the order in which they are enumerated (FNode.swift,
 `enumerateChildrenAndPriority`; FCompoundHash.swift, `processNode`). A priority is visited like a child.
 */
module Leaves {
  import opened Options
  import opened Keys
  import opened Paths
  import opened Nodes
  import opened LeafViews
  import opened Enumerations
  import opened ImmutableTrees

  /** The priority key goes before the first key that sorts after it; if there is none, it is left out. */
  function InsertPriority(keys: seq<Key>): seq<Key> {
    if keys == [] then []
    else if CompareKey(keys[0], PRIORITY) == Descending then [PRIORITY] + keys
    else [keys[0]] + InsertPriority(keys[1..])
  }

  /** The keys visited, in order. */
  ghost function VisitKeys(n: Node): (ks: seq<Key>) {
    if !n.Children? then []
    else if n.priority.IsEmpty() then Sorted(ByKey, n.kids.Keys)
    else InsertPriority(Sorted(ByKey, n.kids.Keys))
  }

  ghost predicate CanVisit(n: Node, keys: seq<Key>) {
    n.Children? && forall k :: k in keys ==> k in n.kids || k == PRIORITY
  }

  lemma InsertPriorityKeys(keys: seq<Key>)
    ensures forall k :: k in InsertPriority(keys) ==> k in keys || k == PRIORITY
    ensures forall k :: k in keys ==> k in InsertPriority(keys)
  {
  }

  lemma VisitsAreValid(n: Node)
    requires n.Children?
    ensures CanVisit(n, VisitKeys(n))
  {
    InsertPriorityKeys(Sorted(ByKey, n.kids.Keys));
  }

  ghost function LeavesOf(n: Node): seq<(Path, Node)>
    decreases n, 1
  {
    if n.Empty? then []
    else if n.Leaf? then [([], n)]
    else
      VisitsAreValid(n);
      KeyLeaves(n, VisitKeys(n))
  }

  ghost function KeyLeaves(n: Node, keys: seq<Key>): seq<(Path, Node)>
    requires CanVisit(n, keys)
    decreases n, 0, |keys|
  {
    if keys == [] then []
    else
      assert keys[0] in keys;
      var child := if keys[0] == PRIORITY then n.priority else n.kids[keys[0]];
      Below(keys[0], LeavesOf(child)) + KeyLeaves(n, keys[1..])
  }

  /** The priority is visited exactly when some child sorts after it; otherwise it is skipped. */
  lemma {:induction false} PriorityVisited(keys: seq<Key>)
    requires PRIORITY !in keys
    ensures PRIORITY in InsertPriority(keys) <==> exists k :: k in keys && KeyLess(PRIORITY, k)
  {
    if keys != [] {
      CompareKeyAntisymmetric(keys[0], PRIORITY);
      if CompareKey(keys[0], PRIORITY) == Descending {
        assert keys[0] in keys && InsertPriority(keys)[0] == PRIORITY;
      } else {
        PriorityVisited(keys[1..]);
        assert forall k :: k in keys <==> k == keys[0] || k in keys[1..];
      }
    }
  }

  /* ---------- order ---------- */

  ghost predicate InOrder(leaves: seq<(Path, Node)>) {
    forall i, j :: 0 <= i < j < |leaves| ==> PathLess(leaves[i].0, leaves[j].0)
  }

  ghost predicate KeysInOrder(keys: seq<Key>) {
    forall i, j :: 0 <= i < j < |keys| ==> KeyLess(keys[i], keys[j])
  }

  lemma {:induction false} InsertKeepsOrder(keys: seq<Key>)
    requires KeysInOrder(keys) && PRIORITY !in keys
    ensures KeysInOrder(InsertPriority(keys))
  {
    if keys != [] {
      CompareKeyAntisymmetric(keys[0], PRIORITY);
      KeyOrderTotal(keys[0], PRIORITY);
      if CompareKey(keys[0], PRIORITY) == Descending {
        forall i | 0 <= i < |keys| ensures KeyLess(PRIORITY, keys[i]) {
          if i > 0 {
            CompareKeyTransitive(PRIORITY, keys[0], keys[i]);
          }
        }
      } else {
        var rest := InsertPriority(keys[1..]);
        InsertKeepsOrder(keys[1..]);
        InsertPriorityKeys(keys[1..]);
        forall j | 0 <= j < |rest| ensures KeyLess(keys[0], rest[j]) {
          assert rest[j] in rest;
          if rest[j] != PRIORITY {
            var i :| 0 <= i < |keys[1..]| && keys[1..][i] == rest[j];
            assert keys[1 + i] == rest[j];
          }
        }
      }
    }
  }

  lemma VisitsInOrder(n: Node)
    requires Canonical(n)
    ensures KeysInOrder(VisitKeys(n))
  {
    if n.Children? {
      InsertKeepsOrder(Sorted(ByKey, n.kids.Keys));
    }
  }

  lemma BelowOrder(k: Key, a: Path, b: Path)
    requires PathLess(a, b)
    ensures PathLess([k] + a, [k] + b)
  {
    assert ([k] + a)[1..] == a && ([k] + b)[1..] == b;
  }

  /** The leaves come in strictly increasing path order, priorities included. */
  lemma {:induction false} LeavesInOrder(n: Node)
    requires Canonical(n)
    ensures InOrder(LeavesOf(n))
    decreases n, 1
  {
    if n.Children? {
      VisitsAreValid(n);
      VisitsInOrder(n);
      KeyLeavesInOrder(n, VisitKeys(n));
    }
  }

  /** Leaves in order stay in order below a key that comes before all the keys of the others. */
  lemma HeadInOrder(k: Key, own: seq<(Path, Node)>, keys: seq<Key>, rest: seq<(Path, Node)>)
    requires KeysInOrder([k] + keys) && InOrder(own) && InOrder(rest) && StartIn(keys, rest)
    ensures InOrder(Below(k, own) + rest) && StartIn([k] + keys, Below(k, own) + rest)
  {
    var head := Below(k, own);
    var all := head + rest;
    forall i, j | 0 <= i < j < |all| ensures PathLess(all[i].0, all[j].0) {
      if j < |own| {
        BelowOrder(k, own[i].0, own[j].0);
      } else if i < |own| {
        var m :| 0 <= m < |keys| && keys[m] == rest[j - |own|].0[0];
        assert KeyLess(([k] + keys)[0], ([k] + keys)[1 + m]);
      }
    }
  }

  /** Every path starts with one of the keys. */
  ghost predicate StartIn(keys: seq<Key>, leaves: seq<(Path, Node)>) {
    forall i :: 0 <= i < |leaves| ==> leaves[i].0 != [] && leaves[i].0[0] in keys
  }

  lemma {:induction false} KeyLeavesInOrder(n: Node, keys: seq<Key>)
    requires Canonical(n) && CanVisit(n, keys) && KeysInOrder(keys)
    ensures InOrder(KeyLeaves(n, keys)) && StartIn(keys, KeyLeaves(n, keys))
    decreases n, 0, |keys|
  {
    if keys != [] {
      assert keys[0] in keys;
      var child := if keys[0] == PRIORITY then n.priority else n.kids[keys[0]];
      LeavesInOrder(child);
      KeyLeavesInOrder(n, keys[1..]);
      assert keys == [keys[0]] + keys[1..];
      HeadInOrder(keys[0], LeavesOf(child), keys[1..], KeyLeaves(n, keys[1..]));
    }
  }

  /* ---------- the priority of an enumerated node ---------- */

  /** Some leaf lies below the key. */
  ghost predicate HasLeafBelow(leaves: seq<(Path, Node)>, k: Key) {
    exists i :: 0 <= i < |leaves| && leaves[i].0 != [] && leaves[i].0[0] == k
  }

  lemma {:induction false} VisitedKeyHasLeaf(n: Node, keys: seq<Key>, k: Key)
    requires Canonical(n) && CanVisit(n, keys) && k in keys && (k == PRIORITY ==> n.priority != Empty)
    ensures HasLeafBelow(KeyLeaves(n, keys), k)
    decreases |keys|
  {
    assert keys[0] in keys;
    var child := if keys[0] == PRIORITY then n.priority else n.kids[keys[0]];
    var own, rest := LeavesOf(child), KeyLeaves(n, keys[1..]);
    if keys[0] == k {
      SomethingToVisit(child);
      HeadHasLeaf(k, own, rest);
    } else {
      VisitedKeyHasLeaf(n, keys[1..], k);
      RestHasLeaf(Below(keys[0], own), rest, k);
    }
  }

  lemma HeadHasLeaf(k: Key, own: seq<(Path, Node)>, rest: seq<(Path, Node)>)
    requires own != []
    ensures HasLeafBelow(Below(k, own) + rest, k)
  {
    assert (Below(k, own) + rest)[0].0 == [k] + own[0].0;
  }

  lemma RestHasLeaf(head: seq<(Path, Node)>, rest: seq<(Path, Node)>, k: Key)
    requires HasLeafBelow(rest, k)
    ensures HasLeafBelow(head + rest, k)
  {
    var i :| 0 <= i < |rest| && rest[i].0 != [] && rest[i].0[0] == k;
    assert (head + rest)[|head| + i] == rest[i];
  }

  /** The enumeration of a node shows its priority exactly when some child key sorts after ".priority". */
  lemma PriorityEnumerated(n: Node)
    requires Canonical(n) && n.Children? && n.priority != Empty
    ensures HasLeafBelow(LeavesOf(n), PRIORITY) <==> exists k :: k in n.kids && KeyLess(PRIORITY, k)
  {
    var sorted, keys := Sorted(ByKey, n.kids.Keys), VisitKeys(n);
    PriorityVisited(sorted);
    VisitsAreValid(n);
    VisitsInOrder(n);
    KeyLeavesInOrder(n, keys);
    if PRIORITY in keys {
      VisitedKeyHasLeaf(n, keys, PRIORITY);
    }
    assert LeavesOf(n) == KeyLeaves(n, keys);
    assert keys == InsertPriority(sorted);
  }

  /** The case that fails: below "1" alone the priority is not enumerated, so two trees look the same. */
  lemma PrioritySkipped(v: LeafValue, p: LeafValue)
    ensures var kids: map<Key, Node> := map[ONE := Leaf(v, Empty)];
            LeavesOf(Children(kids, Leaf(p, Empty))) == LeavesOf(Children(kids, Empty))
  {
    var kids: map<Key, Node> := map[ONE := Leaf(v, Empty)];
    var n, m := Children(kids, Leaf(p, Empty)), Children(kids, Empty);
    OneComesFirst();
    OneSorted(ByKey, ONE);
    assert kids.Keys == {ONE};
    assert VisitKeys(n) == [ONE] + InsertPriority([ONE][1..]) == [ONE] == VisitKeys(m);
    assert KeyLeaves(n, [ONE][1..]) == KeyLeaves(m, [ONE][1..]) == [];
  }

  /** "1" */
  const ONE: Key := [0x31]

  lemma OneComesFirst()
    ensures CompareKey(ONE, PRIORITY) == Ascending && ONE != PRIORITY
  {
    assert Magnitude(ONE) == ONE && AllDigits(ONE);
    assert ONE[..0] == [];
    assert Decimal(ONE) == 1;
    assert !IsDigit(PRIORITY[0]);
    assert MIN_NAME[0] != PRIORITY[0] && MAX_NAME[0] != PRIORITY[0];
    assert MIN_NAME[0] != ONE[0] && MAX_NAME[0] != ONE[0];
  }

  /* ---------- the leaves of a priority-free tree ---------- */

  lemma {:induction false} LeavesAreLeaves(n: Node, i: nat)
    requires Plain(n) && i < |LeavesOf(n)|
    ensures LeavesOf(n)[i].1.Leaf? && LeafAt(n, LeavesOf(n)[i].0) == Some(LeavesOf(n)[i].1.value)
    decreases n, 1
  {
    if n.Children? {
      VisitsAreValid(n);
      KeyLeavesAreLeaves(n, VisitKeys(n), i);
    }
  }

  lemma {:induction false} KeyLeavesAreLeaves(n: Node, keys: seq<Key>, i: nat)
    requires Plain(n) && CanVisit(n, keys) && i < |KeyLeaves(n, keys)|
    ensures KeyLeaves(n, keys)[i].1.Leaf? && LeafAt(n, KeyLeaves(n, keys)[i].0) == Some(KeyLeaves(n, keys)[i].1.value)
    decreases n, 0, |keys|
  {
    assert keys[0] in keys;
    var child := if keys[0] == PRIORITY then n.priority else n.kids[keys[0]];
    var own := LeavesOf(child);
    if i < |own| {
      LeavesAreLeaves(child, i);
      assert KeyLeaves(n, keys)[i].0[1..] == own[i].0;
    } else {
      KeyLeavesAreLeaves(n, keys[1..], i - |own|);
    }
  }

  /** And every leaf is visited. */
  lemma {:induction false} EveryLeafIsVisited(n: Node, p: Path)
    requires Plain(n) && IsLeafPath(n, p)
    ensures HasLeafAt(LeavesOf(n), p)
    decreases n, 1
  {
    if n.Leaf? {
      assert LeavesOf(n)[0].0 == p;
    } else {
      VisitsAreValid(n);
      var keys := VisitKeys(n);
      KeyLeafIsVisited(n, keys, p);
      assert LeavesOf(n) == KeyLeaves(n, keys);
    }
  }

  lemma {:induction false} KeyLeafIsVisited(n: Node, keys: seq<Key>, p: Path)
    requires Plain(n) && CanVisit(n, keys) && IsLeafPath(n, p) && p != [] && p[0] in keys
    ensures HasLeafAt(KeyLeaves(n, keys), p)
    decreases n, 0, |keys|
  {
    assert keys[0] in keys;
    var child := if keys[0] == PRIORITY then n.priority else n.kids[keys[0]];
    var own := LeavesOf(child);
    if p[0] == keys[0] {
      EveryLeafIsVisited(child, p[1..]);
      LeafInHead(keys[0], own, KeyLeaves(n, keys[1..]), p);
    } else {
      KeyLeafIsVisited(n, keys[1..], p);
      LeafInRest(Below(keys[0], own), KeyLeaves(n, keys[1..]), p);
    }
  }

  ghost predicate HasLeafAt(leaves: seq<(Path, Node)>, p: Path) {
    exists i :: 0 <= i < |leaves| && leaves[i].0 == p
  }

  lemma LeafInHead(k: Key, own: seq<(Path, Node)>, rest: seq<(Path, Node)>, p: Path)
    requires p != [] && p[0] == k && HasLeafAt(own, p[1..])
    ensures HasLeafAt(Below(k, own) + rest, p)
  {
    var i :| 0 <= i < |own| && own[i].0 == p[1..];
    assert (Below(k, own) + rest)[i].0 == [p[0]] + p[1..] == p;
  }

  lemma LeafInRest(head: seq<(Path, Node)>, rest: seq<(Path, Node)>, p: Path)
    requires HasLeafAt(rest, p)
    ensures HasLeafAt(head + rest, p)
  {
    var i :| 0 <= i < |rest| && rest[i].0 == p;
    assert (head + rest)[|head| + i].0 == p;
  }

  /** A non-empty canonical tree has leaves to visit. */
  lemma {:induction false} SomethingToVisit(n: Node)
    requires Canonical(n) && n != Empty
    ensures LeavesOf(n) != []
    decreases n
  {
    if n.Children? {
      var keys := VisitKeys(n);
      VisitsSomething(n);
      VisitsAreValid(n);
      assert keys[0] in keys;
      SomethingToVisit(if keys[0] == PRIORITY then n.priority else n.kids[keys[0]]);
    }
  }

  lemma VisitsSomething(n: Node)
    requires Canonical(n) && n.Children?
    ensures VisitKeys(n) != [] && (VisitKeys(n)[0] == PRIORITY ==> n.priority != Empty)
  {
    var k :| k in n.kids;
    InsertPriorityKeys(Sorted(ByKey, n.kids.Keys));
    assert k in VisitKeys(n);
    assert VisitKeys(n)[0] in VisitKeys(n);
  }
}
