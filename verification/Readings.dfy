/**
 How values that no export contains are read (FSnapshotUtilities.swift, `internalNodeFrom`): arrays, and
 dictionaries with ".value".
 */
module Readings {
  import opened Options
  import opened Keys
  import opened Nodes
  import opened Exports
  import KeyNeighbours

  /* ---------- arrays ---------- */

  /** The shortest decimal spelling of the index. */
  predicate SpellsIndex(k: Units, i: nat) {
    k != [] && AllDigits(k) && Decimal(k) == i && (|k| > 1 ==> k[0] != DIGIT_ZERO)
  }

  lemma {:induction false} IndexKeySpells(i: nat)
    ensures SpellsIndex(KeyNeighbours.ShowNat(i), i)
  {
    KeyNeighbours.ShowNatRoundTrip(i);
    NoLeadingZero(i);
  }

  lemma {:induction false} NoLeadingZero(i: nat)
    ensures i > 0 ==> KeyNeighbours.ShowNat(i)[0] != DIGIT_ZERO
    ensures i < 10 ==> |KeyNeighbours.ShowNat(i)| == 1
  {
    if i >= 10 {
      NoLeadingZero(i / 10);
    }
  }

  lemma DifferentIndexKeys(i: nat, j: nat)
    requires i != j
    ensures IndexKey(i) != IndexKey(j)
  {
    KeyNeighbours.ShowNatRoundTrip(i);
    KeyNeighbours.ShowNatRoundTrip(j);
  }

  /** The entries of an array: its items under their indices, and nothing else. */
  lemma {:induction false} ArrayHasItem(items: seq<Json>, i: nat)
    requires i < |items|
    ensures IndexKey(i) in ArrayEntries(items) && ArrayEntries(items)[IndexKey(i)] == items[i]
    decreases |items|
  {
    var n := |items| - 1;
    if i < n {
      ArrayHasItem(items[..n], i);
      DifferentIndexKeys(i, n);
    }
  }

  lemma {:induction false} ArrayHasOnlyItems(items: seq<Json>, k: Key) returns (i: nat)
    requires k in ArrayEntries(items)
    ensures i < |items| && k == IndexKey(i)
    decreases |items|
  {
    var n := |items| - 1;
    if k == IndexKey(n) {
      i := n;
    } else {
      i := ArrayHasOnlyItems(items[..n], k);
    }
  }

  lemma ItemIsRead(items: seq<Json>, depth: nat, i: nat)
    requires i < |items|
    ensures IndexKey(i) in Members(Arr(items)) && IsDictionaryKey(IndexKey(i)) && !IsMetadata(IndexKey(i))
    ensures ChildFrom(Arr(items), IndexKey(i), depth) == NodeFrom(items[i], depth + 1)
  {
    ArrayHasItem(items, i);
    IndexKeysAreValid(i);
  }

  ghost predicate ItemsReadable(items: seq<Json>, depth: nat) {
    forall i :: 0 <= i < |items| ==> NodeFrom(items[i], depth + 1).Some?
  }

  lemma AllItemsReadable(items: seq<Json>, depth: nat)
    ensures AllReadable(Arr(items), depth) <==> ItemsReadable(items, depth)
  {
    if AllReadable(Arr(items), depth) {
      forall i | 0 <= i < |items| ensures NodeFrom(items[i], depth + 1).Some? {
        ItemIsRead(items, depth, i);
      }
    }
    if ItemsReadable(items, depth) {
      forall k | k in Members(Arr(items))
        ensures IsDictionaryKey(k) && (IsMetadata(k) || ChildFrom(Arr(items), k, depth).Some?)
      {
        var i := ArrayHasOnlyItems(items, k);
        ItemIsRead(items, depth, i);
      }
    }
  }

  /** An array can be read exactly when it does not lie too deep and every item can. */
  lemma ArrayReadable(items: seq<Json>, depth: nat)
    ensures NodeFrom(Arr(items), depth).Some? <==> depth <= MAX_OBJECT_DEPTH && ItemsReadable(items, depth)
  {
    AllItemsReadable(items, depth);
  }

  /** Nodes that are read are never hollow. */
  lemma ReadIsNotHollow(val: Json, depth: nat)
    ensures NodeFrom(val, depth).Some? ==> (NodeFrom(val, depth).value.IsEmpty() <==> NodeFrom(val, depth).value == Empty)
  {
  }

  /** Item i is read as the child under the spelling of i; there are no other children and no priority. */
  lemma ArrayItemsAreChildren(items: seq<Json>, depth: nat, i: nat)
    requires i < |items| && NodeFrom(Arr(items), depth).Some?
    ensures var n := NodeFrom(Arr(items), depth).value;
            && !n.Leaf? && n.GetPriority() == Empty
            && SpellsIndex(IndexKey(i), i)
            && NodeFrom(items[i], depth + 1) == Some(n.GetImmediateChild(IndexKey(i)))
  {
    IndexKeySpells(i);
    ItemIsRead(items, depth, i);
    ReadIsNotHollow(items[i], depth + 1);
    ArrayForm(items, depth);
    assert PRIORITY[0] == DOT;
    var kids := KidsFrom(Arr(items), depth);
    assert IndexKey(i) in kids <==> NodeFrom(items[i], depth + 1).value != Empty;
  }

  lemma ArrayForm(items: seq<Json>, depth: nat)
    requires NodeFrom(Arr(items), depth).Some?
    ensures AllReadable(Arr(items), depth)
    ensures NodeFrom(Arr(items), depth).value == Assemble(KidsFrom(Arr(items), depth), Empty)
  {
  }

  lemma OnlyItemsAreChildren(items: seq<Json>, depth: nat, k: Key)
    requires NodeFrom(Arr(items), depth).Some?
    requires NodeFrom(Arr(items), depth).value.Children? && k in NodeFrom(Arr(items), depth).value.kids
    ensures exists i :: 0 <= i < |items| && SpellsIndex(k, i)
  {
    var i := ArrayHasOnlyItems(items, k);
    IndexKeySpells(i);
  }

  /* ---------- ".value" ---------- */

  /** A dictionary with ".value" alone is read like the value, which must be a leaf and not null. */
  lemma ValueAlone(x: Json, depth: nat)
    ensures NodeFrom(Object(map[VALUE := x]), depth)
            == if x.Null? || x.Arr? || (x.Object? && SERVER_VALUE !in x.entries) then None
               else if x.Object? && |x.entries| > 1 then None
               else NodeFrom(x, depth)
  {
    var d := map[VALUE := x];
    assert VALUE in d && d[VALUE] == x && PRIORITY !in d;
    assert Payload(Object(d)) == x;
    ServerValueAlone(x);
  }

  /** A dictionary with one member that is a server value has no priority and no ".value". */
  lemma ServerValueAlone(x: Json)
    ensures x.Object? && SERVER_VALUE in x.entries && |x.entries| <= 1 ==> x.entries.Keys == {SERVER_VALUE}
  {
    if x.Object? && SERVER_VALUE in x.entries && |x.entries| <= 1 {
      var rest := x.entries.Keys - {SERVER_VALUE};
      assert |rest| == |x.entries.Keys| - 1;
      assert x.entries.Keys == {SERVER_VALUE} + rest;
    }
  }

  /** What a server value stands for; other placeholders abort. */
  lemma ServerValuesRead(y: Json, depth: nat)
    requires depth <= MAX_OBJECT_DEPTH
    ensures var n := NodeFrom(Object(map[SERVER_VALUE := y]), depth);
            && (y == Str(TIMESTAMP) ==> n == Some(Leaf(Deferred(Timestamp), Empty)))
            && (forall r :: y == Object(map[INCREMENT := Num(r)]) ==> n == Some(Leaf(Deferred(Increment(r)), Empty)))
            && (y == Object(map[INCREMENT := Bool(true)]) ==> n == Some(Leaf(Deferred(Increment(1.0)), Empty)))
            && (y == Object(map[INCREMENT := Bool(false)]) ==> n == Some(Leaf(Deferred(Increment(0.0)), Empty)))
            && (y != Str(TIMESTAMP) && !y.Object? ==> n == None)
            && (y.Object? && INCREMENT !in y.entries ==> n == None)
  {
    ServerPayload(y);
  }

  lemma ServerPayload(y: Json)
    ensures var val := Object(map[SERVER_VALUE := y]);
            Payload(val) == val && LeafValidity(val) == IsLeaf && LeafFrom(val) == ServerOpFrom(y)
            && PriorityFrom(val) == Some(Empty)
  {
    var d := map[SERVER_VALUE := y];
    assert d.Keys == {SERVER_VALUE} && |d| == |d.Keys|;
  }

  /** The texts, numbers and truth values that are read. */
  lemma PlainLeaves(s: Units, r: real, b: bool, depth: nat)
    requires depth <= MAX_OBJECT_DEPTH
    ensures NodeFrom(Num(r), depth) == Some(Leaf(Number(r), Empty))
    ensures NodeFrom(Bool(b), depth) == Some(Leaf(Boolean(b), Empty))
    ensures NodeFrom(Str(s), depth) == if Utf8Length(s) > MAX_LEAF_SIZE then None else Some(Leaf(Text(s), Empty))
    ensures NodeFrom(Json.Null, depth) == Some(Empty)
  {
  }

  /** Beside ".value" only a priority counts. */
  lemma OthersAreIgnored(entries: map<Key, Json>, depth: nat)
    requires VALUE in entries
    ensures PRIORITY !in entries ==>
              NodeFrom(Object(entries), depth) == NodeFrom(Object(map[VALUE := entries[VALUE]]), depth)
    ensures PRIORITY in entries ==>
              NodeFrom(Object(entries), depth)
              == NodeWithPriority(Object(map[VALUE := entries[VALUE]]), entries[PRIORITY], depth)
  {
    var x := entries[VALUE];
    var d := map[VALUE := x];
    assert VALUE in d && d[VALUE] == x && PRIORITY !in d;
    assert Payload(Object(d)) == x == Payload(Object(entries));
    if depth <= MAX_OBJECT_DEPTH {
      PayloadDecides(Object(entries), depth);
      PayloadDecides(Object(d), depth);
      if PRIORITY in entries {
        ReadInParts(Object(d), entries[PRIORITY], depth);
      }
    }
  }

  lemma PayloadDecides(val: Json, depth: nat)
    requires HasPayload(val) && depth <= MAX_OBJECT_DEPTH
    ensures NodeFrom(val, depth) == match PriorityFrom(val)
                                    case None => None
                                    case Some(p) => if LeafValidity(Payload(val)) != IsLeaf then None else DataFrom(val, p, depth)
  {
  }

  /* ---------- dictionaries ---------- */

  predicate StartsWithDot(k: Key) {
    k != [] && k[0] == DOT
  }

  ghost predicate MembersReadable(entries: map<Key, Json>, depth: nat) {
    forall k :: k in entries ==> IsDictionaryKey(k) && (StartsWithDot(k) || NodeFrom(entries[k], depth + 1).Some?)
  }

  lemma AllMembersReadable(entries: map<Key, Json>, depth: nat)
    ensures AllReadable(Object(entries), depth) <==> MembersReadable(entries, depth)
  {
    forall k | k in entries ensures ChildFrom(Object(entries), k, depth) == NodeFrom(entries[k], depth + 1) {
    }
  }

  /**
   A dictionary that is no leaf is read exactly when it does not lie too deep, its priority is one, every key may
   be used and every member can be read; members whose key starts with a dot are not read.
   */
  lemma DictionaryReadable(entries: map<Key, Json>, depth: nat)
    requires VALUE !in entries && SERVER_VALUE !in entries
    ensures NodeFrom(Object(entries), depth).Some?
            <==> && depth <= MAX_OBJECT_DEPTH && MembersReadable(entries, depth)
                 && (PRIORITY in entries ==>
                       IsValidPriority(entries[PRIORITY]) && NodeFrom(entries[PRIORITY], 0).Some?)
  {
    AllMembersReadable(entries, depth);
  }

  /** The other members are the children, each read by itself, and the priority is that of the dictionary. */
  lemma MembersAreChildren(entries: map<Key, Json>, depth: nat, k: Key)
    requires VALUE !in entries && SERVER_VALUE !in entries && k != PRIORITY
    requires NodeFrom(Object(entries), depth).Some?
    ensures var n := NodeFrom(Object(entries), depth).value;
            && !n.Leaf?
            && Some(n.GetImmediateChild(k))
               == (if k in entries && !StartsWithDot(k) then NodeFrom(entries[k], depth + 1) else Some(Empty))
            && (n != Empty ==>
                  Some(n.GetPriority()) == if PRIORITY in entries then NodeFrom(entries[PRIORITY], 0) else Some(Empty))
  {
    AllMembersReadable(entries, depth);
    DictionaryReadable(entries, depth);
    if k in entries && !StartsWithDot(k) {
      ReadIsNotHollow(entries[k], depth + 1);
      assert ChildFrom(Object(entries), k, depth) == NodeFrom(entries[k], depth + 1);
    }
    DictionaryForm(entries, depth);
    var kids := KidsFrom(Object(entries), depth);
    assert k in kids <==> k in entries && !StartsWithDot(k) && NodeFrom(entries[k], depth + 1).value != Empty;
  }

  lemma DictionaryForm(entries: map<Key, Json>, depth: nat)
    requires VALUE !in entries && SERVER_VALUE !in entries && NodeFrom(Object(entries), depth).Some?
    ensures AllReadable(Object(entries), depth) && PriorityFrom(Object(entries)).Some?
    ensures NodeFrom(Object(entries), depth).value
            == Assemble(KidsFrom(Object(entries), depth), PriorityFrom(Object(entries)).value)
  {
  }

  /** A priority in the value counts, whatever is given beside it. */
  lemma OwnPriorityCounts(entries: map<Key, Json>, beside: Json, depth: nat)
    requires PRIORITY in entries && IsValidPriority(beside) && NodeFrom(beside, 0).Some?
    ensures NodeWithPriority(Object(entries), beside, depth) == NodeFrom(Object(entries), depth)
  {
  }

  /* ---------- the names ---------- */

  predicate Spells(k: Units, text: string) {
    |k| == |text| && forall i :: 0 <= i < |k| ==> k[i] as int == text[i] as int
  }

  lemma NamesSpelled()
    ensures Spells(VALUE, ".value") && Spells(PRIORITY, ".priority") && Spells(SERVER_VALUE, ".sv")
    ensures Spells(INCREMENT, "increment") && Spells(TIMESTAMP, "timestamp")
    ensures Spells(MIN_NAME, "[MIN_NAME]") && Spells(MAX_NAME, "[MAX_NAME]")
  {
  }

  /* ---------- what exports look like ---------- */

  /** A plain value stands for itself; with a priority it is a dictionary of the two. */
  lemma LeafExports(b: bool, r: real, s: Units, v: LeafValue, w: LeafValue)
    ensures ExportOf(Leaf(Boolean(b), Empty)) == Bool(b)
    ensures ExportOf(Leaf(Number(r), Empty)) == Num(r)
    ensures ExportOf(Leaf(Text(s), Empty)) == Str(s)
    ensures ExportOf(Leaf(Deferred(Timestamp), Empty)) == Object(map[SERVER_VALUE := Str(TIMESTAMP)])
    ensures ExportOf(Leaf(v, Leaf(w, Empty)))
            == Object(map[VALUE := ExportOf(Leaf(v, Empty)), PRIORITY := ExportOf(Leaf(w, Empty))])
    ensures ExportOf(Empty) == Json.Null
  {
    assert VALUE != PRIORITY;
    assert map[VALUE := FoundationValue(v)] + map[PRIORITY := FoundationValue(w)]
        == map[VALUE := FoundationValue(v), PRIORITY := FoundationValue(w)];
  }

  /** An object is a dictionary of its children, and of its priority if it has one. */
  lemma ObjectExports(n: Node, k: Key)
    requires Canonical(n) && LeafPriorities(n) && n.Children?
    ensures ExportOf(n).Object?
    ensures k in ExportOf(n).entries <==> k in n.kids || (k == PRIORITY && n.priority != Empty)
    ensures k in n.kids ==> ExportOf(n).entries[k] == ExportOf(n.kids[k])
    ensures n.priority != Empty ==> ExportOf(n).entries[PRIORITY] == ExportOf(n.priority)
  {
  }
}
