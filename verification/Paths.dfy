/**
 Paths through the data tree (FPath.swift): finite sequences of keys, ordered component by component
 with a prefix before its extensions.
 */
module Paths {
  import opened Keys

  type Path = seq<Key>

  /** `self.contains(other)`: `outer` is a prefix of `inner`. */
  predicate Contains(outer: Path, inner: Path) {
    |outer| <= |inner| && forall i :: 0 <= i < |outer| ==> outer[i] == inner[i]
  }

  /** The part of `inner` below `outer`; the source aborts when `inner` is not within `outer`. */
  function RelativePath(outer: Path, inner: Path): (r: Path)
    requires Contains(outer, inner)
    ensures outer + r == inner
  {
    if outer == [] then inner else RelativePath(outer[1..], inner[1..])
  }

  function ComparePath(a: Path, b: Path): Comparison {
    if a == [] || b == [] then
      if |a| < |b| then Ascending else if |b| < |a| then Descending else Same
    else
      var c := CompareKey(a[0], b[0]);
      if c != Same then c else ComparePath(a[1..], b[1..])
  }

  predicate PathLess(a: Path, b: Path) {
    ComparePath(a, b) == Ascending
  }

  /** Neither path contains the other. */
  predicate Incomparable(a: Path, b: Path) {
    !Contains(a, b) && !Contains(b, a)
  }

  predicate StrictlyAbove(a: Path, b: Path) {
    Contains(a, b) && a != b
  }

  lemma {:induction false} ComparePathAntisymmetric(a: Path, b: Path)
    ensures ComparePath(b, a) == Flip(ComparePath(a, b))
  {
    if a != [] && b != [] {
      CompareKeyAntisymmetric(a[0], b[0]);
      ComparePathAntisymmetric(a[1..], b[1..]);
    }
  }

  lemma {:induction false} ComparePathTotal(a: Path, b: Path)
    ensures ComparePath(a, b) == Same <==> a == b
  {
    if a != [] && b != [] {
      KeyOrderTotal(a[0], b[0]);
      ComparePathTotal(a[1..], b[1..]);
      assert a == [a[0]] + a[1..] && b == [b[0]] + b[1..];
    }
  }

  lemma {:induction false} PathLessTransitive(a: Path, b: Path, c: Path)
    requires PathLess(a, b) && PathLess(b, c)
    ensures PathLess(a, c)
  {
    if a != [] && b != [] && c != [] {
      KeyOrderTotal(a[0], b[0]);
      KeyOrderTotal(b[0], c[0]);
      CompareKeyTransitive(a[0], b[0], c[0]);
      if a[0] == b[0] == c[0] {
        PathLessTransitive(a[1..], b[1..], c[1..]);
      }
    }
  }

  /** Any two distinct paths are ordered one way. */
  lemma PathTrichotomy(a: Path, b: Path)
    ensures PathLess(a, b) || PathLess(b, a) || a == b
    ensures !(PathLess(a, b) && PathLess(b, a))
    ensures !PathLess(a, a)
  {
    ComparePathAntisymmetric(a, b);
    ComparePathTotal(a, b);
    ComparePathTotal(a, a);
  }

  /** A path sorts before its proper extensions. */
  lemma {:induction false} PrefixFirst(a: Path, b: Path)
    requires StrictlyAbove(a, b)
    ensures PathLess(a, b)
  {
    if a != [] {
      KeyOrderTotal(a[0], b[0]);
      assert a == [a[0]] + a[1..] && b == [b[0]] + b[1..];
      PrefixFirst(a[1..], b[1..]);
    }
  }

  /** Paths that part company keep their order however they continue. */
  lemma {:induction false} OrderSurvivesExtension(a: Path, b: Path, x: Path, y: Path)
    requires Incomparable(a, b) && PathLess(a, b)
    ensures PathLess(a + x, b + y)
  {
    if CompareKey(a[0], b[0]) == Same {
      KeyOrderTotal(a[0], b[0]);
      assert (a + x)[1..] == a[1..] + x && (b + y)[1..] == b[1..] + y;
      OrderSurvivesExtension(a[1..], b[1..], x, y);
    }
  }

  /** Below a common first key. */
  lemma ContainsBelow(a: Path, b: Path)
    requires a != [] && b != [] && a[0] == b[0]
    ensures Contains(a, b) <==> Contains(a[1..], b[1..])
    ensures Contains(a, b) ==> b[|a|..] == b[1..][|a[1..]|..]
  {
    assert a == [a[0]] + a[1..] && b == [b[0]] + b[1..];
  }

  lemma ContainsThroughKey(k: Key, a: Path, b: Path)
    ensures Contains([k] + a, [k] + b) <==> Contains(a, b)
  {
    assert ([k] + a)[1..] == a && ([k] + b)[1..] == b;
    if Contains([k] + a, [k] + b) {
      forall i | 0 <= i < |a| ensures a[i] == b[i] {
        assert ([k] + a)[i + 1] == ([k] + b)[i + 1];
      }
    }
  }
}
