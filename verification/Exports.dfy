/**
 Trees as JSON values: writing one out for export (FNode.swift, `val(forExport:)`), and reading one
 (FSnapshotUtilities.swift, `internalNodeFrom`; FValidation.swift). The source aborts on what it cannot
 read; here the result is then `None`.
 */
module Exports {
  import opened Options
  import opened Keys
  import opened Nodes
  import opened Enumerations
  import KeyNeighbours

  datatype Json =
    | Null
    | Bool(b: bool)
    | Num(r: real)
    | Str(s: Units)
    | Arr(items: seq<Json>)
    | Object(entries: map<Key, Json>)

  /** ".value", ".sv" and "increment" */
  const VALUE: Key := [0x2E, 0x76, 0x61, 0x6C, 0x75, 0x65]
  const SERVER_VALUE: Key := [0x2E, 0x73, 0x76]
  const INCREMENT: Key := [0x69, 0x6E, 0x63, 0x72, 0x65, 0x6D, 0x65, 0x6E, 0x74]
  /** "timestamp" */
  const TIMESTAMP: Units := [0x74, 0x69, 0x6D, 0x65, 0x73, 0x74, 0x61, 0x6D, 0x70]
  const DOT: Unit := 0x2E

  const MAX_OBJECT_DEPTH: nat := 1000
  const MAX_LEAF_SIZE: nat := 10 * 1024 * 1024

  /* ---------- writing ---------- */

  function FoundationValue(v: LeafValue): Json {
    match v
    case Boolean(b) => Bool(b)
    case Number(r) => Num(r)
    case Text(s) => Str(s)
    case Deferred(Timestamp) => Object(map[SERVER_VALUE := Str(TIMESTAMP)])
    case Deferred(Increment(delta)) => Object(map[SERVER_VALUE := Object(map[INCREMENT := Num(delta)])])
  }

  function PriorityEntry(p: Node): map<Key, Json> {
    if p.Leaf? then map[PRIORITY := FoundationValue(p.value)] else map[]
  }

  function ExportOf(n: Node): Json
    decreases n, 1
  {
    match n
    case Empty => Null
    case Leaf(v, p) =>
      if p.Leaf? then Object(map[VALUE := FoundationValue(v)] + PriorityEntry(p)) else FoundationValue(v)
    case Children(kids, p) =>
      if kids == map[] then Null else Object(ExportKids(n, kids.Keys) + PriorityEntry(p))
  }

  function ExportKids(n: Node, keys: set<Key>): map<Key, Json>
    requires n.Children? && keys <= n.kids.Keys
    decreases n, 0
  {
    map k | k in keys :: ExportOf(n.kids[k])
  }

  method Export(n: Node) returns (j: Json)
    requires LeafPriorities(n)
    ensures j == ExportOf(n)
    decreases n, 1
  {
    match n {
      case Empty => return Null;
      case Leaf(v, p) =>
        if !p.IsEmpty() {
          return Object(map[VALUE := FoundationValue(v), PRIORITY := FoundationValue(p.value)]);
        }
        return FoundationValue(v);
      case Children(kids, p) =>
        if kids == map[] {
          return Null;
        }
        var obj := ExportChildren(n);
        if !p.IsEmpty() {
          obj := obj[PRIORITY := FoundationValue(p.value)];
        }
        j := Object(obj);
    }
  }

  /** The loop over the children, in their order. */
  method ExportChildren(n: Node) returns (obj: map<Key, Json>)
    requires LeafPriorities(n) && n.Children?
    ensures obj == ExportKids(n, n.kids.Keys)
    decreases n, 0
  {
    obj := map[];
    var todo := n.kids.Keys;
    while todo != {}
      invariant todo <= n.kids.Keys
      invariant obj == ExportKids(n, n.kids.Keys - todo)
    {
      var key := First(ByKey, todo);
      var child := Export(n.kids[key]);
      ExportOneMore(n, todo, key);
      obj := obj[key := child];
      todo := todo - {key};
    }
    assert n.kids.Keys - todo == n.kids.Keys;
  }

  lemma ExportOneMore(n: Node, todo: set<Key>, k: Key)
    requires n.Children? && todo <= n.kids.Keys && k in todo
    ensures ExportKids(n, n.kids.Keys - (todo - {k})) == ExportKids(n, n.kids.Keys - todo)[k := ExportOf(n.kids[k])]
  {
    assert n.kids.Keys - (todo - {k}) == n.kids.Keys - todo + {k};
  }

  /* ---------- reading ---------- */

  /** The length in UTF-8; each half of a surrogate pair stands for two bytes. */
  function Utf8Length(s: Units): nat {
    if s == [] then 0
    else
      var c := s[|s| - 1];
      Utf8Length(s[..|s| - 1])
      + if c < 0x80 then 1 else if c < 0x800 then 2 else if 0xD800 <= c <= 0xDFFF then 2 else 3
  }

  datatype Validity = IsLeaf | NoLeaf | Fatal

  function LeafValidity(value: Json): Validity {
    match value
    case Str(s) => if Utf8Length(s) > MAX_LEAF_SIZE then Fatal else IsLeaf
    case Num(_) => IsLeaf
    case Bool(_) => IsLeaf
    case Object(d) => if SERVER_VALUE !in d then NoLeaf else if |d| <= 1 then IsLeaf else Fatal
    case Null => IsLeaf
    case Arr(_) => NoLeaf
  }

  function LeafFrom(value: Json): Option<LeafValue> {
    match value
    case Bool(b) => Some(Boolean(b))
    case Num(r) => Some(Number(r))
    case Str(s) => Some(Text(s))
    case Object(d) => if SERVER_VALUE in d then ServerOpFrom(d[SERVER_VALUE]) else None
    case Null => None
    case Arr(_) => None
  }

  function ServerOpFrom(value: Json): Option<LeafValue> {
    if value == Str(TIMESTAMP) then Some(Deferred(Timestamp))
    else if value.Object? && INCREMENT in value.entries then
      match value.entries[INCREMENT]
      case Num(r) => Some(Deferred(Increment(r)))
      case Bool(b) => Some(Deferred(Increment(if b then 1.0 else 0.0)))
      case _ => None
    else None
  }

  predicate IsValidPriority(value: Json) {
    match value
    case Object(d) => SERVER_VALUE in d && |d| <= 1
    case Arr(_) => false
    case _ => true
  }

  predicate IsValidKey(k: Units) {
    k != [] && forall i :: 0 <= i < |k| ==> k[i] !in {0x5B, 0x5D, DOT, 0x23, 0x24, 0x2F}
  }

  predicate IsDictionaryKey(k: Key) {
    k == PRIORITY || k == VALUE || k == SERVER_VALUE || IsValidKey(k)
  }

  predicate IsMetadata(k: Key) {
    k != [] && k[0] == DOT
  }

  function IndexKey(i: nat): Key {
    var s := KeyNeighbours.ShowNat(i);
    assert IsDigit(s[0]);
    s
  }

  /** An array is read like a dictionary under its indices. */
  function ArrayEntries(items: seq<Json>): (d: map<Key, Json>)
    ensures forall k :: k in d ==> d[k] in items
  {
    if items == [] then map[]
    else
      var n := |items| - 1;
      ArrayEntries(items[..n])[IndexKey(n) := items[n]]
  }

  function Members(val: Json): (d: map<Key, Json>)
    ensures forall k :: k in d ==> d[k] < val
  {
    match val
    case Object(d) => d
    case Arr(items) => ArrayEntries(items)
    case _ => map[]
  }

  function Assemble(kids: map<Key, Node>, priority: Node): Node {
    if kids == map[] then Empty else Children(kids, priority)
  }

  /** The priority a dictionary carries. */
  function PriorityFrom(val: Json): Option<Node>
    decreases val, 0
  {
    match val
    case Object(d) =>
      if PRIORITY !in d then Some(Empty)
      else if IsValidPriority(d[PRIORITY]) then NodeFrom(d[PRIORITY], 0)
      else None
    case _ => Some(Empty)
  }

  predicate HasPayload(val: Json) {
    val.Object? && VALUE in val.entries
  }

  function Payload(val: Json): Json {
    if HasPayload(val) then val.entries[VALUE] else val
  }

  function NodeFrom(val: Json, depth: nat): Option<Node>
    decreases val, 3
  {
    if depth > MAX_OBJECT_DEPTH then None
    else if val.Null? then Some(Empty)
    else
      match (PriorityFrom(val), LeafValidity(Payload(val)))
      case (None, _) => None
      case (_, Fatal) => None
      case (Some(priority), IsLeaf) =>
        (match LeafFrom(Payload(val))
         case None => None
         case Some(v) => Some(Leaf(v, priority)))
      case (Some(priority), NoLeaf) =>
        if HasPayload(val) || !AllReadable(val, depth) then None
        else Some(Assemble(KidsFrom(val, depth), priority))
  }

  function ChildFrom(val: Json, k: Key, depth: nat): Option<Node>
    requires k in Members(val)
    decreases val, 0
  {
    NodeFrom(Members(val)[k], depth + 1)
  }

  predicate AllReadable(val: Json, depth: nat)
    decreases val, 1
  {
    forall k :: k in Members(val) ==> IsDictionaryKey(k) && (IsMetadata(k) || ChildFrom(val, k, depth).Some?)
  }

  function KidsFrom(val: Json, depth: nat): map<Key, Node>
    requires AllReadable(val, depth)
    decreases val, 2
  {
    map k | k in Members(val) && !IsMetadata(k) && !ChildFrom(val, k, depth).value.IsEmpty()
      :: ChildFrom(val, k, depth).value
  }

  lemma IndexKeysAreValid(i: nat)
    ensures IsValidKey(IndexKey(i)) && !IsMetadata(IndexKey(i))
  {
    var s := KeyNeighbours.ShowNat(i);
    assert forall j :: 0 <= j < |s| ==> IsDigit(s[j]);
  }

  /** The keys of an array are its indices: they need no check, and all of them are children. */
  lemma {:induction false} ArrayKeysAreValid(items: seq<Json>)
    ensures forall k :: k in ArrayEntries(items) ==> IsDictionaryKey(k) && !IsMetadata(k)
  {
    if items != [] {
      ArrayKeysAreValid(items[..|items| - 1]);
      IndexKeysAreValid(|items| - 1);
    }
  }

  /** The priority given beside a value, unless the value carries its own. */
  function NodeWithPriority(val: Json, priority: Json, depth: nat): Option<Node> {
    if depth > MAX_OBJECT_DEPTH then None
    else if val.Null? then Some(Empty)
    else if !IsValidPriority(priority) then None
    else
      match (NodeFrom(priority, 0), NodeFrom(val, depth))
      case (Some(p), Some(n)) =>
        if val.Object? && PRIORITY in val.entries then Some(n) else Some(n.UpdatePriority(p))
      case _ => None
  }

  lemma ReadWithoutPriority(val: Json, depth: nat)
    requires val.Object? ==> PRIORITY !in val.entries
    ensures NodeFrom(val, depth).Some? ==> NodeFrom(val, depth).value.GetPriority() == Empty
  {
    assert PriorityFrom(val) == Some(Empty);
  }

  lemma WithoutPriorityBeside(val: Json, depth: nat)
    ensures NodeWithPriority(val, Null, depth) == NodeFrom(val, depth)
  {
    if val.Object? && PRIORITY in val.entries {
    } else {
      ReadWithoutPriority(val, depth);
    }
  }

  /** The priority that counts: the value's own before the one beside it. */
  function PriorityFor(val: Json, priority: Json): Option<Node> {
    if !IsValidPriority(priority) || NodeFrom(priority, 0).None? then None
    else if val.Object? && PRIORITY in val.entries then PriorityFrom(val)
    else NodeFrom(priority, 0)
  }

  /** A value read with a given priority. */
  function DataFrom(val: Json, priority: Node, depth: nat): Option<Node> {
    match LeafValidity(Payload(val))
    case Fatal => None
    case IsLeaf => (match LeafFrom(Payload(val)) case None => None case Some(v) => Some(Leaf(v, priority)))
    case NoLeaf =>
      if HasPayload(val) || !AllReadable(val, depth) then None else Some(Assemble(KidsFrom(val, depth), priority))
  }

  lemma ReadInParts(val: Json, priority: Json, depth: nat)
    requires depth <= MAX_OBJECT_DEPTH && !val.Null?
    ensures NodeWithPriority(val, priority, depth)
            == match PriorityFor(val, priority) case None => None case Some(p) => DataFrom(val, p, depth)
  {
    if PriorityFrom(val).Some? {
      assert NodeFrom(val, depth) == DataFrom(val, PriorityFrom(val).value, depth);
    }
  }

  /**
   The parser, with its loop over the members; a child that cannot be read aborts it. Priorities and children are
   read without a priority beside them.
   */
  method InternalNodeFrom(val: Json, priority: Json, depth: nat) returns (r: Option<Node>)
    ensures r == NodeWithPriority(val, priority, depth)
    decreases if priority.Null? then 0 else 1, if val.Null? then 0 else 1, val, 2
  {
    if depth > MAX_OBJECT_DEPTH {
      return None;
    }
    if val.Null? {
      return Some(Empty);
    }
    ReadInParts(val, priority, depth);
    if !IsValidPriority(priority) {
      return None;
    }
    var priorityNode := InternalNodeFrom(priority, Null, 0);
    WithoutPriorityBeside(priority, 0);
    if priorityNode.None? {
      return None;
    }
    if val.Object? && PRIORITY in val.entries {
      if !IsValidPriority(val.entries[PRIORITY]) {
        return None;
      }
      priorityNode := InternalNodeFrom(val.entries[PRIORITY], Null, 0);
      WithoutPriorityBeside(val.entries[PRIORITY], 0);
      if priorityNode.None? {
        return None;
      }
    }
    assert priorityNode == PriorityFor(val, priority);
    match LeafValidity(Payload(val)) {
      case Fatal => return None;
      case IsLeaf =>
        var v := LeafFrom(Payload(val));
        if v.None? {
          return None;
        }
        return Some(Leaf(v.value, priorityNode.value));
      case NoLeaf =>
        if HasPayload(val) {
          return None;
        }
        var kids := ReadMembers(val, depth);
        if kids.None? {
          return None;
        }
        return Some(Assemble(kids.value, priorityNode.value));
    }
  }

  method ReadMembers(val: Json, depth: nat) returns (r: Option<map<Key, Node>>)
    ensures r == if AllReadable(val, depth) then Some(KidsFrom(val, depth)) else None
    decreases 0, 1, val, 1
  {
    var kids: map<Key, Node> := map[];
    var todo := Members(val).Keys;
    while todo != {}
      invariant todo <= Members(val).Keys
      invariant ReadableOn(val, Members(val).Keys - todo, depth)
      invariant kids == KidsOn(val, Members(val).Keys - todo, depth)
    {
      var key :| key in todo;
      if val.Object? && !IsDictionaryKey(key) {
        return None;
      }
      if val.Arr? {
        ArrayKeysAreValid(val.items);
      }
      ghost var done := Members(val).Keys - todo;
      assert Members(val).Keys - (todo - {key}) == done + {key};
      if !IsMetadata(key) {
        var child := InternalNodeFrom(Members(val)[key], Null, depth + 1);
        WithoutPriorityBeside(Members(val)[key], depth + 1);
        if child.None? {
          assert ChildFrom(val, key, depth).None?;
          return None;
        }
        KidsOneMore(val, done, key, depth);
        if !child.value.IsEmpty() {
          kids := kids[key := child.value];
        }
      } else {
        KidsOneMore(val, done, key, depth);
      }
      todo := todo - {key};
    }
    assert Members(val).Keys - todo == Members(val).Keys;
    r := Some(kids);
  }

  predicate ReadableOn(val: Json, keys: set<Key>, depth: nat)
    requires keys <= Members(val).Keys
  {
    forall k :: k in keys ==> IsDictionaryKey(k) && (IsMetadata(k) || ChildFrom(val, k, depth).Some?)
  }

  function KidsOn(val: Json, keys: set<Key>, depth: nat): map<Key, Node>
    requires keys <= Members(val).Keys && ReadableOn(val, keys, depth)
  {
    map k | k in keys && !IsMetadata(k) && !ChildFrom(val, k, depth).value.IsEmpty() :: ChildFrom(val, k, depth).value
  }

  lemma KidsOneMore(val: Json, keys: set<Key>, k: Key, depth: nat)
    requires keys <= Members(val).Keys && ReadableOn(val, keys, depth) && k in Members(val)
    requires IsDictionaryKey(k) && (IsMetadata(k) || ChildFrom(val, k, depth).Some?)
    ensures ReadableOn(val, keys + {k}, depth)
    ensures k !in keys ==>
              KidsOn(val, keys + {k}, depth)
              == if IsMetadata(k) || ChildFrom(val, k, depth).value.IsEmpty() then KidsOn(val, keys, depth)
                 else KidsOn(val, keys, depth)[k := ChildFrom(val, k, depth).value]
  {
  }

  /* ---------- reading back what was written ---------- */

  predicate TextFits(v: LeafValue) {
    v.Text? ==> Utf8Length(v.s) <= MAX_LEAF_SIZE
  }

  predicate PriorityFits(p: Node) {
    p.Leaf? ==> TextFits(p.value)
  }

  /** The limits of the database: depth, the length of texts, and the characters of keys. */
  ghost predicate Storable(n: Node, depth: nat) {
    && depth <= MAX_OBJECT_DEPTH
    && match n
       case Empty => true
       case Leaf(v, p) => TextFits(v) && PriorityFits(p)
       case Children(kids, p) =>
         PriorityFits(p) && forall k :: k in kids ==> IsValidKey(k) && Storable(kids[k], depth + 1)
  }

  lemma NamesDiffer()
    ensures IsMetadata(VALUE) && IsMetadata(SERVER_VALUE) && IsMetadata(PRIORITY)
    ensures VALUE != SERVER_VALUE && VALUE != PRIORITY && SERVER_VALUE != PRIORITY
  {
    assert VALUE[1] != PRIORITY[1] && SERVER_VALUE[1] != PRIORITY[1] && VALUE[1] != SERVER_VALUE[1];
  }

  /** A foundation value is read as the leaf value it comes from, wherever it stands. */
  lemma FoundationReads(v: LeafValue)
    ensures LeafValidity(FoundationValue(v)) == if TextFits(v) then IsLeaf else Fatal
    ensures LeafFrom(FoundationValue(v)) == Some(v)
    ensures !HasPayload(FoundationValue(v)) && PriorityFrom(FoundationValue(v)) == Some(Empty)
    ensures IsValidPriority(FoundationValue(v)) && !FoundationValue(v).Null?
  {
    NamesDiffer();
  }

  lemma BareLeafReads(v: LeafValue, depth: nat)
    ensures NodeFrom(FoundationValue(v), depth)
            == if depth <= MAX_OBJECT_DEPTH && TextFits(v) then Some(Leaf(v, Empty)) else None
  {
    FoundationReads(v);
  }

  /** A priority is read back from beside the data. */
  lemma PriorityReads(entries: map<Key, Json>, p: Node)
    requires IsPriority(p) && (p.Leaf? ==> PRIORITY in entries && entries[PRIORITY] == FoundationValue(p.value))
    requires p.Empty? ==> PRIORITY !in entries
    ensures PriorityFrom(Object(entries)) == if PriorityFits(p) then Some(p) else None
  {
    if p.Leaf? {
      FoundationReads(p.value);
      BareLeafReads(p.value, 0);
    }
  }

  lemma LeafRoundTrip(v: LeafValue, p: Node, depth: nat)
    requires IsPriority(p)
    ensures NodeFrom(ExportOf(Leaf(v, p)), depth) == if Storable(Leaf(v, p), depth) then Some(Leaf(v, p)) else None
  {
    FoundationReads(v);
    BareLeafReads(v, depth);
    if p.Leaf? {
      var d := map[VALUE := FoundationValue(v)] + PriorityEntry(p);
      NamesDiffer();
      assert d[VALUE] == FoundationValue(v) && d[PRIORITY] == FoundationValue(p.value);
      PriorityReads(d, p);
    }
  }

  lemma MetadataIsInvalid(k: Key)
    requires IsMetadata(k)
    ensures !IsValidKey(k)
  {
  }

  /** What the reader makes of exported children. */
  lemma ExportedMembers(n: Node)
    requires Canonical(n) && LeafPriorities(n) && n.Children?
    ensures var val := ExportOf(n);
            && val.Object?
            && PriorityFrom(val) == (if PriorityFits(n.priority) then Some(n.priority) else None)
            && (forall k :: k in val.entries <==> k in n.kids || (k == PRIORITY && n.priority.Leaf?))
            && (forall k :: k in n.kids ==> val.entries[k] == ExportOf(n.kids[k]))
  {
    var entries := ExportKids(n, n.kids.Keys) + PriorityEntry(n.priority);
    assert ExportOf(n) == Object(entries);
    assert n.priority.Leaf? ==> entries[PRIORITY] == FoundationValue(n.priority.value);
    PriorityReads(entries, n.priority);
  }

  /** What the reader makes of one exported child. */
  ghost function ReadBack(n: Node, k: Key, depth: nat): Option<Node>
    requires n.Children? && k in n.kids
  {
    NodeFrom(ExportOf(n.kids[k]), depth + 1)
  }

  lemma MemberReads(n: Node, k: Key, depth: nat)
    requires Canonical(n) && LeafPriorities(n) && n.Children? && k in n.kids
    ensures k in Members(ExportOf(n)) && ChildFrom(ExportOf(n), k, depth) == ReadBack(n, k, depth)
  {
    ExportedMembers(n);
  }

  ghost predicate NoMetadata(n: Node)
    requires n.Children?
  {
    forall k :: k in n.kids ==> !IsMetadata(k)
  }

  /** Children under ordinary keys are read as children. */
  lemma ReadAsObject(n: Node)
    requires Canonical(n) && LeafPriorities(n) && n.Children? && NoMetadata(n)
    ensures ExportOf(n).Object? && !HasPayload(ExportOf(n)) && LeafValidity(ExportOf(n)) == NoLeaf
  {
    ExportedMembers(n);
    NamesDiffer();
  }

  /** The members are read exactly when every child has a valid key and can be read. */
  lemma ChildrenRead(n: Node, depth: nat)
    requires Canonical(n) && LeafPriorities(n) && n.Children? && NoMetadata(n)
    ensures AllReadable(ExportOf(n), depth)
            <==> forall k :: k in n.kids ==> IsValidKey(k) && ReadBack(n, k, depth).Some?
  {
    var val := ExportOf(n);
    ExportedMembers(n);
    forall k | k in n.kids ensures k in Members(val) && ChildFrom(val, k, depth) == ReadBack(n, k, depth) {
      MemberReads(n, k, depth);
    }
    NamesDiffer();
    if forall k :: k in n.kids ==> IsValidKey(k) && ReadBack(n, k, depth).Some? {
      forall k | k in Members(val) ensures IsDictionaryKey(k) && (IsMetadata(k) || ChildFrom(val, k, depth).Some?) {
      }
    } else {
      var k :| k in n.kids && !(IsValidKey(k) && ReadBack(n, k, depth).Some?);
      assert k in Members(val) && !(IsDictionaryKey(k) && (IsMetadata(k) || ChildFrom(val, k, depth).Some?));
    }
  }

  /** The children read are those that come back non-empty. */
  lemma ChildrenReadBack(n: Node, depth: nat)
    requires Canonical(n) && LeafPriorities(n) && n.Children? && NoMetadata(n) && AllReadable(ExportOf(n), depth)
    ensures forall k :: k in n.kids ==> ReadBack(n, k, depth).Some?
    ensures KidsFrom(ExportOf(n), depth) == n.kids
            <==> forall k :: k in n.kids ==> ReadBack(n, k, depth) == Some(n.kids[k])
  {
    ChildrenRead(n, depth);
    var kids := KidsFrom(ExportOf(n), depth);
    ExportedMembers(n);
    forall k | k in n.kids
      ensures k in kids <==> !ReadBack(n, k, depth).value.IsEmpty()
      ensures k in kids ==> kids[k] == ReadBack(n, k, depth).value
    {
      MemberReads(n, k, depth);
    }
    NamesDiffer();
    assert forall k :: k in kids ==> k in n.kids;
    if forall k :: k in n.kids ==> ReadBack(n, k, depth) == Some(n.kids[k]) {
      forall k | k in n.kids ensures k in kids && kids[k] == n.kids[k] {
        CanonicalIsNotHollow(n.kids[k]);
      }
    }
  }

  lemma CanonicalIsNotHollow(n: Node)
    requires Canonical(n) && n != Empty
    ensures !n.IsEmpty()
  {
  }

  /** A child under a key such as ".value" is never read back as one. */
  lemma MetadataMisread(n: Node, k: Key, depth: nat)
    requires Canonical(n) && LeafPriorities(n) && n.Children? && k in n.kids && IsMetadata(k)
    ensures NodeFrom(ExportOf(n), depth) != Some(n)
  {
    ExportedMembers(n);
    var val := ExportOf(n);
    if AllReadable(val, depth) {
      assert k !in KidsFrom(val, depth);
    }
  }

  /** Reading back what was written gives the same tree, priorities included, exactly within the limits. */
  lemma {:induction false} ExportRoundTrip(n: Node, depth: nat)
    requires Canonical(n) && LeafPriorities(n)
    ensures NodeFrom(ExportOf(n), depth) == Some(n) <==> Storable(n, depth)
    decreases n
  {
    match n {
      case Empty =>
      case Leaf(v, p) => LeafRoundTrip(v, p, depth);
      case Children(kids, p) =>
        forall k | k in kids
          ensures NodeFrom(ExportOf(kids[k]), depth + 1) == Some(kids[k]) <==> Storable(kids[k], depth + 1)
        {
          ExportRoundTrip(kids[k], depth + 1);
        }
        if NoMetadata(n) && depth <= MAX_OBJECT_DEPTH {
          ChildrenRoundTrip(n, depth);
        } else if depth <= MAX_OBJECT_DEPTH {
          var k :| k in kids && IsMetadata(k);
          MetadataMisread(n, k, depth);
          MetadataIsInvalid(k);
        }
    }
  }

  lemma ChildrenRoundTrip(n: Node, depth: nat)
    requires Canonical(n) && LeafPriorities(n) && n.Children? && depth <= MAX_OBJECT_DEPTH && NoMetadata(n)
    ensures NodeFrom(ExportOf(n), depth) == Some(n)
            <==> PriorityFits(n.priority)
                 && forall k :: k in n.kids ==> IsValidKey(k) && ReadBack(n, k, depth) == Some(n.kids[k])
  {
    ExportedMembers(n);
    ReadAsObject(n);
    ChildrenRead(n, depth);
    if AllReadable(ExportOf(n), depth) {
      ChildrenReadBack(n, depth);
    }
  }

  /* ---------- a value and its priority, given separately ---------- */

  function PriorityValue(p: Node): Json {
    if p.Leaf? then FoundationValue(p.value) else Null
  }

  /** Reading a value and its priority separately gives the node that has both, exactly within the limits. */
  lemma SeparateRoundTrip(n: Node)
    requires Canonical(n) && LeafPriorities(n) && n != Empty
    ensures NodeWithPriority(ExportOf(n.UpdatePriority(Empty)), PriorityValue(n.priority), 0) == Some(n) <==> Storable(n, 0)
  {
    var bare := n.UpdatePriority(Empty);
    var val := ExportOf(bare);
    BareIsStorable(n);
    ExportRoundTrip(bare, 0);
    BarePriority(n.priority);
    BareHasNone(bare);
    if NodeFrom(val, 0).Some? {
      ReadWithoutPriority(val, 0);
      PutBack(NodeFrom(val, 0).value, n);
    }
  }

  lemma BareIsStorable(n: Node)
    requires Canonical(n) && LeafPriorities(n) && n != Empty
    ensures var bare := n.UpdatePriority(Empty);
            Canonical(bare) && LeafPriorities(bare) && bare != Empty && bare.priority == Empty
    ensures Storable(n, 0) <==> Storable(n.UpdatePriority(Empty), 0) && PriorityFits(n.priority)
  {
  }

  lemma BarePriority(p: Node)
    requires IsPriority(p)
    ensures IsValidPriority(PriorityValue(p))
    ensures NodeFrom(PriorityValue(p), 0) == if PriorityFits(p) then Some(p) else None
  {
    if p.Leaf? {
      FoundationReads(p.value);
      BareLeafReads(p.value, 0);
    }
  }

  /** The export of a node without priority is not null and carries none. */
  lemma BareHasNone(n: Node)
    requires Canonical(n) && LeafPriorities(n) && n != Empty && n.priority == Empty
    ensures !ExportOf(n).Null?
    ensures ExportOf(n).Object? ==> PRIORITY !in ExportOf(n).entries
  {
    if n.Leaf? {
      FoundationReads(n.value);
      NamesDiffer();
    } else {
      ExportedMembers(n);
    }
  }

  /** What is read from a value without a priority has none. */
  /** A node without its priority, once that is put back. */
  lemma PutBack(read: Node, n: Node)
    requires n != Empty && read.GetPriority() == Empty
    ensures read.UpdatePriority(n.priority) == n <==> read == n.UpdatePriority(Empty)
  {
  }
}
