/**
 In which order an indexed node lists its children (FIndex.swift, FNode.swift), child by child: what each index
 looks at, and how two nodes of any kind are ordered.
 */
module ListingOrders {
  import opened Keys
  import opened Nodes
  import opened Numbers
  import opened Indexes
  import opened IndexedNodes

  /** What comes first: nothing, deferred values, false, true, numbers, texts, objects. */
  function Rank(n: Node): int {
    match n
    case Empty => 0
    case Leaf(Deferred(_), _) => 1
    case Leaf(Boolean(b), _) => if b then 3 else 2
    case Leaf(Number(_), _) => 4
    case Leaf(Text(_), _) => 5
    case Children(_, _) => 6
  }

  /** By code units: at the first difference the smaller unit, or the end. */
  ghost predicate TextLess(s: Units, t: Units) {
    exists i :: 0 <= i <= |s| && i < |t| && s[..i] == t[..i] && (i == |s| || s[i] < t[i])
  }

  /** Numbers by value and texts by code units; else by rank. */
  ghost predicate SortsBefore(a: Node, b: Node) {
    || Rank(a) < Rank(b)
    || (a.Leaf? && b.Leaf? && a.value.Number? && b.value.Number? && a.value.r < b.value.r)
    || (a.Leaf? && b.Leaf? && a.value.Text? && b.value.Text? && TextLess(a.value.s, b.value.s))
  }

  /** Of one rank, and the same number or text; all deferred values tie, and all objects. */
  predicate SortsAlike(a: Node, b: Node) {
    && Rank(a) == Rank(b)
    && (a.Leaf? && b.Leaf? && a.value.Number? && b.value.Number? ==> a.value.r == b.value.r)
    && (a.Leaf? && b.Leaf? && a.value.Text? && b.value.Text? ==> a.value.s == b.value.s)
  }

  /** The order of nodes, in these words. */
  lemma CompareNodesMeans(a: Node, b: Node)
    ensures CompareNodes(a, b) == Ascending ==> SortsBefore(a, b)
    ensures CompareNodes(a, b) == Same ==> SortsAlike(a, b)
  {
    if a.Leaf? && b.Leaf? && a.value.Text? && b.value.Text? {
      LexTotal(a.value.s, b.value.s);
      if LexLess(a.value.s, b.value.s) {
        var i := LexPosition(a.value.s, b.value.s);
      }
    }
  }

  /** Keys: integers by value, and shorter spellings first; then all others, by code units; between the two names. */
  ghost predicate KeySortsBefore(a: Units, b: Units) {
    a != b && (a == MIN_NAME || b == MAX_NAME ||
      match (ParseInt(a), ParseInt(b))
      case (Some(m), Some(n)) => m < n || (m == n && |a| < |b|)
      case (Some(_), None) => true
      case (None, Some(_)) => false
      case (None, None) => TextLess(a, b))
  }

  lemma KeyLessMeans(a: Units, b: Units)
    requires KeyLess(a, b)
    ensures KeySortsBefore(a, b)
  {
    if ParseInt(a).None? && ParseInt(b).None? && LexLess(a, b) {
      var i := LexPosition(a, b);
    }
  }

  /** Two children of a listing, the first before the second. */
  ghost predicate InOrderOf(index: Index, first: Entry, second: Entry) {
    match index
    case KeyIndex => KeySortsBefore(first.key, second.key)
    case ValueIndex => OrTies(first.node, second.node, first.key, second.key)
    case PriorityIndex => OrTies(first.node.GetPriority(), second.node.GetPriority(), first.key, second.key)
    case PathIndex(path) => OrTies(first.node.GetChild(path), second.node.GetChild(path), first.key, second.key)
  }

  ghost predicate OrTies(a: Node, b: Node, k: Key, l: Key) {
    SortsBefore(a, b) || (SortsAlike(a, b) && KeySortsBefore(k, l))
  }

  /**
   After any run of updates the listing has every child once, and of any two the first sorts before the second
   by what the index looks at, or ties with it and has the smaller key.
   */
  lemma {:induction false} RunListsInOrder(x: IndexedNode, ops: seq<Operation>, i: nat, j: nat)
    requires InStep(x) && forall n :: 0 <= n < |ops| ==> ValidOperation(ops[n])
    requires i < j < |Listing(Run(x, ops))|
    ensures var y := Run(x, ops);
            && AllFrom(Kids(y.node), Listing(y)) && HasAll(Kids(y.node), Listing(y))
            && InOrderOf(x.index, Listing(y)[i], Listing(y)[j]) && Listing(y)[i].key != Listing(y)[j].key
    decreases ops
  {
    if ops == [] {
      ListingIsRight(x);
      var a, b := Listing(x)[i], Listing(x)[j];
      assert Before(x.index, a, b);
      CompareTotal(x.index, a, b);
      assert a in Listing(x) && b in Listing(x);
      BeforeMeans(x.index, a, b);
    } else {
      StepStaysInStep(x, ops[0]);
      RunListsInOrder(Step(x, ops[0]), ops[1..], i, j);
    }
  }

  lemma BeforeMeans(index: Index, a: Entry, b: Entry)
    requires Before(index, a, b)
    ensures InOrderOf(index, a, b)
  {
    if KeyLess(a.key, b.key) {
      KeyLessMeans(a.key, b.key);
    }
    match index {
      case KeyIndex =>
      case ValueIndex => CompareNodesMeans(a.node, b.node);
      case PriorityIndex => CompareNodesMeans(a.node.GetPriority(), b.node.GetPriority());
      case PathIndex(path) => CompareNodesMeans(a.node.GetChild(path), b.node.GetChild(path));
    }
  }

  /* ---------- the node that is listed ---------- */

  /** The child at a key after the updates: the last one set there, or the one from the start. */
  function ChildAfter(n: Node, ops: seq<Operation>, k: Key): Node {
    if ops == [] then n.GetImmediateChild(k)
    else
      match ops[|ops| - 1]
      case SetChild(key, child) => if key == k then child else ChildAfter(n, ops[..|ops| - 1], k)
      case SetPriority(_) => ChildAfter(n, ops[..|ops| - 1], k)
  }

  lemma StepNode(x: IndexedNode, op: Operation, k: Key)
    requires Canonical(x.node) && ValidOperation(op) && k != PRIORITY
    ensures Canonical(Step(x, op).node)
    ensures Step(x, op).node.GetImmediateChild(k)
            == if op.SetChild? && op.key == k then op.child else x.node.GetImmediateChild(k)
  {
    if op.SetChild? {
      WithChildShape(x.node, op.key, op.child);
      ChildAfterUpdate(x.node, op.key, op.child, k);
    }
  }

  lemma {:induction false} RunInSteps(x: IndexedNode, ops: seq<Operation>)
    requires ops != []
    ensures Run(x, ops) == Step(Run(x, ops[..|ops| - 1]), ops[|ops| - 1])
    decreases ops
  {
    if |ops| > 1 {
      RunInSteps(Step(x, ops[0]), ops[1..]);
      assert ops[1..][..|ops| - 2] == ops[..|ops| - 1][1..];
    } else {
      assert ops[..0] == [] && ops[1..] == [];
    }
  }

  /** After a run the node has, at every key, the child that was set last. */
  lemma {:induction false} RunNode(x: IndexedNode, ops: seq<Operation>, k: Key)
    requires Canonical(x.node) && k != PRIORITY && forall n :: 0 <= n < |ops| ==> ValidOperation(ops[n])
    ensures Canonical(Run(x, ops).node) && Run(x, ops).node.GetImmediateChild(k) == ChildAfter(x.node, ops, k)
    decreases |ops|
  {
    if ops != [] {
      var front := ops[..|ops| - 1];
      RunNode(x, front, k);
      RunInSteps(x, ops);
      StepNode(Run(x, front), ops[|ops| - 1], k);
    }
  }

  /** A priority that is set is the node's, unless there is no node; a child update keeps it while there is one. */
  lemma StepPriority(x: IndexedNode, op: Operation)
    requires Canonical(x.node) && ValidOperation(op)
    ensures var n := Step(x, op).node;
            n != Empty ==> n.GetPriority() == if op.SetPriority? then op.priority else x.node.GetPriority()
    ensures op.SetPriority? ==> (Step(x, op).node == Empty <==> x.node == Empty)
  {
    if op.SetChild? {
      WithChildShape(x.node, op.key, op.child);
    }
  }

  /* ---------- numbers as they are stored ---------- */

  /** The stored integer or double has the exact value. */
  predicate Represents(n: Numeric, x: real) {
    match n
    case Whole(i) => i as int as real == x
    case Floating(Finite(d)) => d == x
    case Floating(_) => false
  }

  /** The exact values order numbers as the source compares what it has stored. */
  lemma NumbersSortAsStored(l: Numeric, r: Numeric, x: real, y: real, round: real -> real, p: Node, q: Node)
    requires IsRounding(round) && ValidNumber(l) && ValidNumber(r) && Represents(l, x) && Represents(r, y)
    ensures CompareNumbers(l, r, round) == CompareNodes(Leaf(Number(x), p), Leaf(Number(y), q))
    ensures CompareNumbers(l, r, round) == Ascending <==> SortsBefore(Leaf(Number(x), p), Leaf(Number(y), q))
    ensures CompareNumbers(l, r, round) == Same <==> SortsAlike(Leaf(Number(x), p), Leaf(Number(y), q))
  {
    CompareNumbersIsExact(l, r, round);
  }
}
