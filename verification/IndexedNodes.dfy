/**
 A node with its children in the order of an index (FIndexedNode.swift). The sorted set is built when it
 is first asked for, follows the node through updates, and is not kept where the key order serves.
 */
module IndexedNodes {
  import opened Options
  import opened Keys
  import opened Nodes
  import opened Enumerations
  import opened Indexes

  datatype Wrapper = Fallback | Indexed(entries: seq<Entry>)

  datatype IndexedNode = IndexedNode(node: Node, index: Index, initial: Option<Wrapper>)

  function Kids(n: Node): map<Key, Node> {
    if n.Children? then n.kids else map[]
  }

  /* ---------- the sorted set ---------- */

  /** An entry that ties with a stored one is not stored again. */
  function Insert(index: Index, s: seq<Entry>, e: Entry): seq<Entry> {
    if s == [] then [e]
    else
      match Compare(index, e, s[0])
      case Ascending => [e] + s
      case Same => s
      case Descending => [s[0]] + Insert(index, s[1..], e)
  }

  function Remove(index: Index, s: seq<Entry>, e: Entry): seq<Entry> {
    if s == [] then []
    else if Compare(index, e, s[0]) == Same then s[1..]
    else [s[0]] + Remove(index, s[1..], e)
  }

  function Find(index: Index, s: seq<Entry>, e: Entry): (i: nat)
    ensures i <= |s|
    ensures i < |s| ==> Compare(index, e, s[i]) == Same
    ensures forall j :: 0 <= j < i ==> Compare(index, e, s[j]) != Same
  {
    if s == [] || Compare(index, e, s[0]) == Same then 0 else 1 + Find(index, s[1..], e)
  }

  /* ---------- what a listing is ---------- */

  ghost predicate Ordered(index: Index, s: seq<Entry>) {
    forall i, j :: 0 <= i < j < |s| ==> Before(index, s[i], s[j])
  }

  ghost predicate AllFrom(kids: map<Key, Node>, s: seq<Entry>) {
    forall e :: e in s ==> e.key in kids && kids[e.key] == e.node
  }

  ghost predicate HasAll(kids: map<Key, Node>, s: seq<Entry>) {
    forall k :: k in kids ==> Entry(k, kids[k]) in s
  }

  /** The children, each once, in the order of the index. */
  ghost predicate Lists(index: Index, kids: map<Key, Node>, s: seq<Entry>) {
    Ordered(index, s) && AllFrom(kids, s) && HasAll(kids, s)
  }

  lemma OrderedRest(index: Index, s: seq<Entry>)
    requires Ordered(index, s) && s != []
    ensures Ordered(index, s[1..]) && forall e :: e in s[1..] ==> Before(index, s[0], e)
  {
  }

  lemma OrderedFrom(index: Index, e: Entry, s: seq<Entry>)
    requires Ordered(index, s) && forall x :: x in s ==> Before(index, e, x)
    ensures Ordered(index, [e] + s)
  {
  }

  /** There is one listing. */
  lemma {:induction false} ListingIsUnique(index: Index, kids: map<Key, Node>, s: seq<Entry>, t: seq<Entry>)
    requires Lists(index, kids, s) && Lists(index, kids, t)
    ensures s == t
    decreases |s|
  {
    EmptyTogether(index, kids, s, t);
    if s != [] {
      SameFirst(index, kids, s, t);
      ListsRest(index, kids, s);
      ListsRest(index, kids, t);
      ListingIsUnique(index, kids - {s[0].key}, s[1..], t[1..]);
      assert s == [s[0]] + s[1..] && t == [t[0]] + t[1..];
    }
  }

  lemma EmptyTogether(index: Index, kids: map<Key, Node>, s: seq<Entry>, t: seq<Entry>)
    requires Lists(index, kids, s) && Lists(index, kids, t)
    ensures s == [] <==> t == []
  {
    if s != [] {
      assert s[0] in s && Entry(s[0].key, kids[s[0].key]) in t;
    }
    if t != [] {
      assert t[0] in t && Entry(t[0].key, kids[t[0].key]) in s;
    }
  }

  lemma SameFirst(index: Index, kids: map<Key, Node>, s: seq<Entry>, t: seq<Entry>)
    requires Lists(index, kids, s) && Lists(index, kids, t) && s != [] && t != []
    ensures s[0] == t[0]
  {
    assert s[0] in s && Entry(s[0].key, kids[s[0].key]) in t;
    assert t[0] in t && Entry(t[0].key, kids[t[0].key]) in s;
    CompareTotal(index, s[0], t[0]);
  }

  lemma ListsRest(index: Index, kids: map<Key, Node>, s: seq<Entry>)
    requires Lists(index, kids, s) && s != []
    ensures Lists(index, kids - {s[0].key}, s[1..])
  {
    OrderedRest(index, s);
    var rest := kids - {s[0].key};
    forall e | e in s[1..] ensures e.key in rest && rest[e.key] == e.node {
      assert e in s;
      CompareTotal(index, s[0], e);
      CompareTotal(index, s[0], s[0]);
      assert s[0] in s;
    }
    forall k | k in rest ensures Entry(k, rest[k]) in s[1..] {
      assert Entry(k, kids[k]) in s;
      assert s == [s[0]] + s[1..];
    }
  }

  lemma {:induction false} InsertKeepsOrder(index: Index, s: seq<Entry>, e: Entry)
    requires Ordered(index, s) && forall x :: x in s ==> x.key != e.key
    ensures Ordered(index, Insert(index, s, e))
    ensures forall x :: x in Insert(index, s, e) <==> x == e || x in s
  {
    if s != [] {
      assert s[0] in s && s == [s[0]] + s[1..];
      CompareTotal(index, e, s[0]);
      OrderedRest(index, s);
      if Before(index, e, s[0]) {
        forall x | x in s ensures Before(index, e, x) {
          if x != s[0] {
            BeforeTransitive(index, e, s[0], x);
          }
        }
        OrderedFrom(index, e, s);
      } else {
        InsertKeepsOrder(index, s[1..], e);
        OrderedFrom(index, s[0], Insert(index, s[1..], e));
      }
    }
  }

  lemma InsertLists(index: Index, kids: map<Key, Node>, s: seq<Entry>, k: Key, n: Node)
    requires Lists(index, kids, s) && k !in kids
    ensures Lists(index, kids[k := n], Insert(index, s, Entry(k, n)))
  {
    InsertKeepsOrder(index, s, Entry(k, n));
  }

  lemma {:induction false} RemoveKeepsOrder(index: Index, s: seq<Entry>, e: Entry)
    requires Ordered(index, s) && forall x :: x in s && x.key == e.key ==> x == e
    ensures Ordered(index, Remove(index, s, e))
    ensures forall x :: x in Remove(index, s, e) <==> x in s && x.key != e.key
  {
    if s != [] {
      assert s[0] in s && s == [s[0]] + s[1..];
      CompareTotal(index, e, s[0]);
      OrderedRest(index, s);
      if Compare(index, e, s[0]) == Same {
        forall x | x in s[1..] ensures x.key != e.key {
          CompareTotal(index, s[0], x);
        }
      } else {
        CompareTotal(index, e, e);
        RemoveKeepsOrder(index, s[1..], e);
        OrderedFrom(index, s[0], Remove(index, s[1..], e));
      }
    }
  }

  lemma RemoveLists(index: Index, kids: map<Key, Node>, s: seq<Entry>, k: Key, n: Node)
    requires Lists(index, kids, s) && (k in kids ==> n == kids[k])
    ensures Lists(index, kids - {k}, Remove(index, s, Entry(k, n)))
  {
    RemoveKeepsOrder(index, s, Entry(k, n));
  }

  /* ---------- the lazily built index ---------- */

  ghost function ByKeyOrder(kids: map<Key, Node>, keys: seq<Key>): seq<Entry>
    requires forall k :: k in keys ==> k in kids
  {
    seq(|keys|, i requires 0 <= i < |keys| => Entry(keys[i], kids[keys[i]]))
  }

  ghost function InsertAll(index: Index, s: seq<Entry>, entries: seq<Entry>): seq<Entry>
    decreases entries
  {
    if entries == [] then s else InsertAll(index, Insert(index, s, entries[0]), entries[1..])
  }

  ghost predicate SomeDefined(index: Index, kids: map<Key, Node>) {
    exists k :: k in kids && IsDefinedOn(index, kids[k])
  }

  /** The enumeration of the children in key order. */
  ghost function KeyListing(kids: map<Key, Node>): seq<Entry> {
    ByKeyOrder(kids, Sorted(ByKey, kids.Keys))
  }

  ghost function IndexedOf(x: IndexedNode): Wrapper {
    if x.initial.Some? then x.initial.value
    else if x.index.KeyIndex? || !SomeDefined(x.index, Kids(x.node)) then Fallback
    else Indexed(InsertAll(x.index, [], KeyListing(Kids(x.node))))
  }

  /** The property `indexed`: looks for a child the index is defined on, then inserts every child. */
  method ComputeIndexed(x: IndexedNode) returns (w: Wrapper)
    ensures w == IndexedOf(x)
  {
    if x.initial.Some? {
      return x.initial.value;
    }
    if x.index.KeyIndex? {
      return Fallback;
    }
    var kids := Kids(x.node);
    var sawChild := false;
    var todo := kids.Keys;
    while todo != {} && !sawChild
      invariant todo <= kids.Keys
      invariant sawChild ==> SomeDefined(x.index, kids)
      invariant !sawChild ==> forall k :: k in kids && IsDefinedOn(x.index, kids[k]) ==> k in todo
      decreases todo
    {
      var key := First(ByKey, todo);
      sawChild := IsDefinedOn(x.index, kids[key]);
      todo := todo - {key};
    }
    if !sawChild {
      return Fallback;
    }
    var entries: seq<Entry> := [];
    todo := kids.Keys;
    while todo != {}
      invariant todo <= kids.Keys
      invariant InsertAll(x.index, entries, ByKeyOrder(kids, Sorted(ByKey, todo)))
                == InsertAll(x.index, [], KeyListing(kids))
    {
      var key := First(ByKey, todo);
      ByKeyOrderStep(kids, todo, key);
      entries := Insert(x.index, entries, Entry(key, kids[key]));
      todo := todo - {key};
    }
    w := Indexed(entries);
  }

  lemma ByKeyOrderStep(kids: map<Key, Node>, todo: set<Key>, key: Key)
    requires todo <= kids.Keys && key in todo && Sorted(ByKey, todo) == [key] + Sorted(ByKey, todo - {key})
    ensures var entries := ByKeyOrder(kids, Sorted(ByKey, todo));
            entries != [] && entries[0] == Entry(key, kids[key])
            && entries[1..] == ByKeyOrder(kids, Sorted(ByKey, todo - {key}))
  {
    FirstEntry(kids, key, Sorted(ByKey, todo - {key}));
  }

  lemma FirstEntry(kids: map<Key, Node>, key: Key, rest: seq<Key>)
    requires key in kids && forall k :: k in rest ==> k in kids
    ensures ByKeyOrder(kids, [key] + rest) == [Entry(key, kids[key])] + ByKeyOrder(kids, rest)
  {
  }

  ghost predicate DifferentKeys(s: seq<Entry>) {
    forall i, j :: 0 <= i < j < |s| ==> s[i].key != s[j].key
  }

  ghost predicate NoSharedKeys(s: seq<Entry>, t: seq<Entry>) {
    forall x, y :: x in s && y in t ==> x.key != y.key
  }

  /** Inserting one by one keeps everything inserted, in order. */
  lemma {:induction false} InsertAllKeepsOrder(index: Index, s: seq<Entry>, entries: seq<Entry>)
    requires Ordered(index, s) && DifferentKeys(entries) && NoSharedKeys(s, entries)
    ensures Ordered(index, InsertAll(index, s, entries))
    ensures forall x :: x in InsertAll(index, s, entries) <==> x in s || x in entries
    decreases entries
  {
    if entries != [] {
      var e, rest := entries[0], entries[1..];
      assert e in entries;
      InsertKeepsOrder(index, s, e);
      forall x, y | x in Insert(index, s, e) && y in rest ensures x.key != y.key {
        assert y in entries;
      }
      InsertAllKeepsOrder(index, Insert(index, s, e), rest);
      assert forall x :: x in entries <==> x == e || x in rest;
    }
  }

  /** Every child is among the enumerated entries, and nothing else. */
  lemma KeyListingHasAll(kids: map<Key, Node>)
    ensures AllFrom(kids, KeyListing(kids)) && HasAll(kids, KeyListing(kids)) && DifferentKeys(KeyListing(kids))
  {
    var keys, s := Sorted(ByKey, kids.Keys), KeyListing(kids);
    SortedDistinct(ByKey, kids.Keys);
    forall k | k in kids ensures Entry(k, kids[k]) in s {
      assert k in keys;
      var i :| 0 <= i < |keys| && keys[i] == k;
      assert s[i] == Entry(k, kids[k]);
    }
  }

  ghost predicate CanonicalKids(kids: map<Key, Node>) {
    forall k :: k in kids ==> Canonical(kids[k])
  }

  /** Where the index is defined on no child, the key order is its order. */
  lemma KeyListingLists(index: Index, kids: map<Key, Node>)
    requires CanonicalKids(kids) && (index.KeyIndex? || !SomeDefined(index, kids))
    ensures Lists(index, kids, KeyListing(kids))
  {
    var s := KeyListing(kids);
    KeyListingHasAll(kids);
    forall i, j | 0 <= i < j < |s| ensures Before(index, s[i], s[j]) {
      assert ByKey.Before(s[i].key, s[j].key);
      UndefinedByKey(index, s[i], s[j]);
    }
  }

  /* ---------- the operations ---------- */

  /** The children as every reader of the indexed node enumerates them. */
  ghost function Listing(x: IndexedNode): seq<Entry> {
    match IndexedOf(x)
    case Fallback => KeyListing(Kids(x.node))
    case Indexed(entries) => entries
  }

  ghost function AfterUpdateChild(x: IndexedNode, key: Key, child: Node): IndexedNode {
    var newNode := x.node.UpdateImmediateChild(key, child);
    match IndexedOf(x)
    case Fallback =>
      IndexedNode(newNode, x.index, if IsDefinedOn(x.index, child) then None else Some(Fallback))
    case Indexed(entries) =>
      var removed := Remove(x.index, entries, Entry(key, x.node.GetImmediateChild(key)));
      IndexedNode(newNode, x.index,
        Some(Indexed(if child.IsEmpty() then removed else Insert(x.index, removed, Entry(key, child)))))
  }

  method UpdateChild(x: IndexedNode, key: Key, newChildNode: Node) returns (r: IndexedNode)
    ensures r == AfterUpdateChild(x, key, newChildNode)
  {
    var newNode := x.node.UpdateImmediateChild(key, newChildNode);
    var indexed := ComputeIndexed(x);
    match indexed {
      case Fallback =>
        if !IsDefinedOn(x.index, newChildNode) {
          r := IndexedNode(newNode, x.index, Some(Fallback));
        } else {
          r := IndexedNode(newNode, x.index, None);
        }
      case Indexed(entries) =>
        var updated := Remove(x.index, entries, Entry(key, x.node.GetImmediateChild(key)));
        if !newChildNode.IsEmpty() {
          updated := Insert(x.index, updated, Entry(key, newChildNode));
        }
        r := IndexedNode(newNode, x.index, Some(Indexed(updated)));
    }
  }

  ghost function AfterUpdatePriority(x: IndexedNode, priority: Node): IndexedNode {
    IndexedNode(x.node.UpdatePriority(priority), x.index, Some(IndexedOf(x)))
  }

  /* ---------- every run keeps the index right ---------- */

  /** A kept set lists the children; a kept fallback is allowed to stand for them. */
  ghost predicate InStep(x: IndexedNode) {
    && Canonical(x.node)
    && match x.initial
       case None => true
       case Some(Fallback) => x.index.KeyIndex? || !SomeDefined(x.index, Kids(x.node))
       case Some(Indexed(entries)) => Lists(x.index, Kids(x.node), entries)
  }

  /** The listing is the sorted list of the children. */
  lemma ListingIsRight(x: IndexedNode)
    requires InStep(x)
    ensures Lists(x.index, Kids(x.node), Listing(x))
    ensures IndexedOf(x).Fallback? ==> x.index.KeyIndex? || !SomeDefined(x.index, Kids(x.node))
  {
    var kids := Kids(x.node);
    if IndexedOf(x).Fallback? {
      KeyListingLists(x.index, kids);
    } else if x.initial.None? {
      KeyListingHasAll(kids);
      InsertAllKeepsOrder(x.index, [], KeyListing(kids));
    }
  }

  /** The children after an update of one of them. */
  lemma KidsAfterUpdate(n: Node, key: Key, child: Node)
    requires Canonical(n) && Canonical(child) && key != PRIORITY
    ensures Kids(n.UpdateImmediateChild(key, child)) == if child == Empty then Kids(n) - {key} else Kids(n)[key := child]
  {
  }

  lemma UpdateChildStaysInStep(x: IndexedNode, key: Key, child: Node)
    requires InStep(x) && Canonical(child) && key != PRIORITY
    ensures InStep(AfterUpdateChild(x, key, child))
  {
    WithChildShape(x.node, key, child);
    KidsAfterUpdate(x.node, key, child);
    ListingIsRight(x);
    var kids := Kids(x.node);
    if IndexedOf(x).Indexed? {
      UpdateLists(x.index, kids, IndexedOf(x).entries, key, x.node.GetImmediateChild(key), child);
    } else if !IsDefinedOn(x.index, child) {
      StaysUndefined(x.index, kids, key, child);
    }
  }

  lemma UpdateLists(index: Index, kids: map<Key, Node>, s: seq<Entry>, key: Key, before: Node, child: Node)
    requires Lists(index, kids, s) && (key in kids ==> before == kids[key])
    ensures var removed := Remove(index, s, Entry(key, before));
            && Lists(index, kids - {key}, removed)
            && Lists(index, kids[key := child], Insert(index, removed, Entry(key, child)))
  {
    RemoveLists(index, kids, s, key, before);
    InsertLists(index, kids - {key}, Remove(index, s, Entry(key, before)), key, child);
    ReplaceKey(kids, key, child);
  }

  lemma ReplaceKey(kids: map<Key, Node>, key: Key, child: Node)
    ensures (kids - {key})[key := child] == kids[key := child]
  {
  }

  lemma StaysUndefined(index: Index, kids: map<Key, Node>, key: Key, child: Node)
    requires index.KeyIndex? || !SomeDefined(index, kids)
    requires !IsDefinedOn(index, child)
    ensures !SomeDefined(index, kids - {key}) && !SomeDefined(index, kids[key := child])
  {
  }

  datatype Operation = SetChild(key: Key, child: Node) | SetPriority(priority: Node)

  ghost predicate ValidOperation(op: Operation) {
    match op
    case SetChild(key, child) => key != PRIORITY && Canonical(child)
    case SetPriority(priority) => Canonical(priority)
  }

  ghost function Step(x: IndexedNode, op: Operation): IndexedNode {
    match op
    case SetChild(key, child) => AfterUpdateChild(x, key, child)
    case SetPriority(priority) => AfterUpdatePriority(x, priority)
  }

  ghost function Run(x: IndexedNode, ops: seq<Operation>): IndexedNode
    decreases ops
  {
    if ops == [] then x else Run(Step(x, ops[0]), ops[1..])
  }

  lemma StepStaysInStep(x: IndexedNode, op: Operation)
    requires InStep(x) && ValidOperation(op)
    ensures InStep(Step(x, op)) && Step(x, op).index == x.index
  {
    match op {
      case SetChild(key, child) => UpdateChildStaysInStep(x, key, child);
      case SetPriority(priority) =>
        ListingIsRight(x);
        assert Kids(x.node.UpdatePriority(priority)) == Kids(x.node);
    }
  }

  /** After any run of updates the listing is that of an index built from scratch for the node. */
  lemma {:induction false} RunListsChildren(x: IndexedNode, ops: seq<Operation>)
    requires InStep(x) && forall i :: 0 <= i < |ops| ==> ValidOperation(ops[i])
    ensures var y := Run(x, ops);
            && y.index == x.index
            && Lists(y.index, Kids(y.node), Listing(y))
            && Listing(y) == Listing(IndexedNode(y.node, y.index, None))
    decreases ops
  {
    if ops == [] {
      ListingIsRight(x);
      ListingIsRight(IndexedNode(x.node, x.index, None));
      ListingIsUnique(x.index, Kids(x.node), Listing(x), Listing(IndexedNode(x.node, x.index, None)));
    } else {
      StepStaysInStep(x, ops[0]);
      RunListsChildren(Step(x, ops[0]), ops[1..]);
    }
  }

  /* ---------- reading ---------- */

  ghost function FirstChild(x: IndexedNode): Option<Entry> {
    if !x.node.Children? then None
    else
      match IndexedOf(x)
      case Fallback => if x.node.kids == map[] then None else Some(KeyListing(x.node.kids)[0])
      case Indexed(s) => if s == [] then None else Some(s[0])
  }

  ghost function LastChild(x: IndexedNode): Option<Entry> {
    if !x.node.Children? then None
    else
      match IndexedOf(x)
      case Fallback =>
        if x.node.kids == map[] then None else Some(KeyListing(x.node.kids)[|KeyListing(x.node.kids)| - 1])
      case Indexed(s) => if s == [] then None else Some(s[|s| - 1])
  }

  function Position(keys: seq<Key>, key: Key): (i: nat)
    ensures i <= |keys|
    ensures i < |keys| ==> keys[i] == key
    ensures forall j :: 0 <= j < i ==> keys[j] != key
  {
    if keys == [] || keys[0] == key then 0 else 1 + Position(keys[1..], key)
  }

  ghost function PredecessorChildKey(kids: map<Key, Node>, key: Key): Option<Key> {
    var keys := Sorted(ByKey, kids.Keys);
    var i := Position(keys, key);
    if 0 < i < |keys| then Some(keys[i - 1]) else None
  }

  ghost function PredecessorForChildKey(x: IndexedNode, key: Key, child: Node): Option<Key> {
    match IndexedOf(x)
    case Fallback => PredecessorChildKey(Kids(x.node), key)
    case Indexed(s) =>
      var i := Find(x.index, s, Entry(key, child));
      if i < |s| && i > 0 then Some(s[i - 1].key) else None
  }

  /** First and last child are the ends of the listing. */
  lemma EndsOfListing(x: IndexedNode)
    requires InStep(x)
    ensures FirstChild(x) == if Listing(x) == [] then None else Some(Listing(x)[0])
    ensures LastChild(x) == if Listing(x) == [] then None else Some(Listing(x)[|Listing(x)| - 1])
  {
    ListingIsRight(x);
    if Listing(x) != [] {
      assert Listing(x)[0] in Listing(x);
    }
  }

  /** The predecessor of a child is the one before it in the listing. */
  lemma PredecessorInListing(x: IndexedNode, i: nat)
    requires InStep(x) && i < |Listing(x)|
    ensures PredecessorForChildKey(x, Listing(x)[i].key, Listing(x)[i].node)
            == if i == 0 then None else Some(Listing(x)[i - 1].key)
  {
    ListingIsRight(x);
    match IndexedOf(x) {
      case Fallback => KeyPredecessor(Kids(x.node), i);
      case Indexed(s) => IndexedPredecessor(x, s, i);
    }
  }

  lemma IndexedPredecessor(x: IndexedNode, s: seq<Entry>, i: nat)
    requires IndexedOf(x) == Indexed(s) && Ordered(x.index, s) && i < |s|
    ensures PredecessorForChildKey(x, s[i].key, s[i].node) == if i == 0 then None else Some(s[i - 1].key)
  {
    FindOwn(x.index, s, i);
    assert Entry(s[i].key, s[i].node) == s[i];
  }

  lemma FindOwn(index: Index, s: seq<Entry>, i: nat)
    requires Ordered(index, s) && i < |s|
    ensures Find(index, s, s[i]) == i
  {
    var j := Find(index, s, s[i]);
    CompareTotal(index, s[i], s[i]);
    CompareTotal(index, s[j], s[i]);
    assert j < i ==> Before(index, s[j], s[i]);
  }

  lemma PositionOfDistinct(keys: seq<Key>, i: nat)
    requires Distinct(keys) && i < |keys|
    ensures Position(keys, keys[i]) == i
  {
  }

  lemma KeyPredecessor(kids: map<Key, Node>, i: nat)
    requires i < |KeyListing(kids)|
    ensures PredecessorChildKey(kids, KeyListing(kids)[i].key)
            == if i == 0 then None else Some(KeyListing(kids)[i - 1].key)
  {
    var keys := Sorted(ByKey, kids.Keys);
    SortedDistinct(ByKey, kids.Keys);
    PositionOfDistinct(keys, i);
  }

  /** A key without a child has no predecessor. */
  lemma NoPredecessor(x: IndexedNode, key: Key, child: Node)
    requires InStep(x) && key !in Kids(x.node)
    ensures PredecessorForChildKey(x, key, child) == None
  {
    ListingIsRight(x);
    if IndexedOf(x).Indexed? {
      var s := Listing(x);
      var i := Find(x.index, s, Entry(key, child));
      if i < |s| {
        assert s[i] in s;
        CompareTotal(x.index, Entry(key, child), s[i]);
      }
    }
  }
}
