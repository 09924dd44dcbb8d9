/**
 Visiting the keys of a dictionary in order. Child nodes are kept in `compareKey` order; the children
 of a write tree in the order of their strings, modelled as the order of their code units.
 */
module Enumerations {
  import opened Keys

  datatype Order = ByKey | ByString {
    predicate Before(a: Key, b: Key) {
      match this
      case ByKey => KeyLess(a, b)
      case ByString => LexLess(a, b)
    }
  }

  predicate IsFirst(order: Order, keys: set<Key>, k: Key) {
    k in keys && forall j :: j in keys ==> j == k || order.Before(k, j)
  }

  lemma OrderTotal(order: Order, a: Key, b: Key)
    ensures order.Before(a, b) || order.Before(b, a) || a == b
    ensures !(order.Before(a, b) && order.Before(b, a)) && !order.Before(a, a)
  {
    LexTotal(a, b);
    KeyOrderTotal(a, b);
    CompareKeyAntisymmetric(a, b);
  }

  lemma OrderTransitive(order: Order, a: Key, b: Key, c: Key)
    requires order.Before(a, b) && order.Before(b, c)
    ensures order.Before(a, c)
  {
    match order
    case ByKey => CompareKeyTransitive(a, b, c);
    case ByString => LexTransitive(a, b, c);
  }

  lemma {:induction false} FirstExists(order: Order, keys: set<Key>)
    requires keys != {}
    ensures exists k :: IsFirst(order, keys, k)
  {
    var a :| a in keys;
    var rest := keys - {a};
    if rest == {} {
      assert keys == {a};
      assert IsFirst(order, keys, a);
    } else {
      FirstExists(order, rest);
      var b :| IsFirst(order, rest, b);
      var first := if order.Before(a, b) then a else b;
      OrderTotal(order, a, b);
      forall j | j in keys ensures j == first || order.Before(first, j) {
        if first == a && j != a && j != b {
          OrderTransitive(order, a, b, j);
        }
      }
      assert IsFirst(order, keys, first);
    }
  }

  /** The keys in increasing order. */
  ghost function Sorted(order: Order, keys: set<Key>): (ks: seq<Key>)
    ensures forall k :: k in ks <==> k in keys
    ensures forall i, j :: 0 <= i < j < |ks| ==> order.Before(ks[i], ks[j])
  {
    if keys == {} then []
    else
      FirstExists(order, keys);
      var k :| IsFirst(order, keys, k);
      [k] + Sorted(order, keys - {k})
  }

  /** A loop that always takes the first remaining key visits them in sorted order. */
  lemma SortedStep(order: Order, keys: set<Key>, k: Key)
    requires IsFirst(order, keys, k)
    ensures Sorted(order, keys) == [k] + Sorted(order, keys - {k})
  {
    forall j | IsFirst(order, keys, j) ensures j == k {
      OrderTotal(order, j, k);
    }
  }

  predicate Distinct(keys: seq<Key>) {
    forall i, j :: 0 <= i < j < |keys| ==> keys[i] != keys[j]
  }

  lemma DistinctRest(keys: seq<Key>)
    requires Distinct(keys) && keys != []
    ensures keys[0] !in keys[1..] && Distinct(keys[1..])
  {
  }

  lemma SortedDistinct(order: Order, keys: set<Key>)
    ensures Distinct(Sorted(order, keys))
  {
    var ks := Sorted(order, keys);
    forall i, j | 0 <= i < j < |ks| ensures ks[i] != ks[j] {
      OrderTotal(order, ks[i], ks[j]);
    }
  }

  lemma OneSorted(order: Order, k: Key)
    ensures Sorted(order, {k}) == [k]
  {
    assert IsFirst(order, {k}, k);
    SortedStep(order, {k}, k);
    assert {k} - {k} == {};
  }

  lemma TwoSorted(order: Order, a: Key, b: Key)
    requires order.Before(a, b)
    ensures Sorted(order, {a, b}) == [a, b]
  {
    OrderTotal(order, a, b);
    assert IsFirst(order, {a, b}, a);
    SortedStep(order, {a, b}, a);
    assert {a, b} - {a} == {b};
    OneSorted(order, b);
  }

  /** The first of a set of keys. */
  method First(order: Order, keys: set<Key>) returns (k: Key)
    requires keys != {}
    ensures IsFirst(order, keys, k)
    ensures Sorted(order, keys) == [k] + Sorted(order, keys - {k})
  {
    FirstExists(order, keys);
    k :| k in keys && IsFirst(order, keys, k);
    SortedStep(order, keys, k);
  }
}
