/**
 Keys of the data tree and their order (FUtilities.swift, `tryParseStringToInt` and `compareKey`).

 A raw key is a sequence of UTF-16 code units. Keys that read as 32-bit integers sort first, by
 value and then by length; every other key sorts by code units; two sentinel names bound them all.
 */
module Keys {
  import opened Options

  newtype Unit = u: int | 0 <= u <= 0xFFFF
  newtype Int64 = i: int | -0x8000_0000_0000_0000 <= i < 0x8000_0000_0000_0000

  type Units = seq<Unit>

  const INT32_MIN := -0x8000_0000
  const INT32_MAX := 0x7FFF_FFFF
  const MINUS: Unit := 0x2D
  const DIGIT_ZERO: Unit := 0x30
  const DIGIT_NINE: Unit := 0x39

  /** "[MIN_NAME]" and "[MAX_NAME]" */
  const MIN_NAME: Units := [0x5B, 0x4D, 0x49, 0x4E, 0x5F, 0x4E, 0x41, 0x4D, 0x45, 0x5D]
  const MAX_NAME: Units := [0x5B, 0x4D, 0x41, 0x58, 0x5F, 0x4E, 0x41, 0x4D, 0x45, 0x5D]

  /* ---------- integers ---------- */

  predicate IsDigit(c: Unit) {
    DIGIT_ZERO <= c <= DIGIT_NINE
  }

  predicate AllDigits(s: Units) {
    forall i :: 0 <= i < |s| ==> IsDigit(s[i])
  }

  /** The value of a string of decimal digits. */
  function Decimal(s: Units): (v: nat)
    requires AllDigits(s)
  {
    if s == [] then 0
    else Decimal(s[..|s| - 1]) * 10 + (s[|s| - 1] - DIGIT_ZERO) as int
  }

  function Pow10(n: nat): (r: nat)
    ensures r > 0
  {
    if n == 0 then 1 else 10 * Pow10(n - 1)
  }

  predicate IsNegative(s: Units) {
    s != [] && s[0] == MINUS
  }

  function Magnitude(s: Units): Units {
    if IsNegative(s) then s[1..] else s
  }

  /** The integer a key spells: at most eleven characters, an optional minus sign, then digits, in 32 bits. */
  function ParseInt(s: Units): Option<int> {
    if |s| > 11 || Magnitude(s) == [] || !AllDigits(Magnitude(s)) then None
    else
      var v: int := if IsNegative(s) then 0 - Decimal(Magnitude(s)) else Decimal(Magnitude(s));
      if v < INT32_MIN || v > INT32_MAX then None else Some(v)
  }

  lemma {:induction false} DecimalBound(s: Units)
    requires AllDigits(s)
    ensures Decimal(s) < Pow10(|s|)
  {
    if s != [] {
      DecimalBound(s[..|s| - 1]);
    }
  }

  lemma Pow10UpToEleven(n: nat)
    requires n <= 11
    ensures Pow10(n) <= 100_000_000_000
  {
    if n < 11 {
      Pow10Monotone(n, 11);
    }
    assert Pow10(3) == 1000;
    assert Pow10(6) == 1000 * Pow10(3);
    assert Pow10(9) == 1000 * Pow10(6);
    assert Pow10(11) == 100 * Pow10(9);
  }

  lemma {:induction false} Pow10Monotone(m: nat, n: nat)
    requires m <= n
    ensures Pow10(m) <= Pow10(n)
  {
    if m < n {
      Pow10Monotone(m, n - 1);
    }
  }

  /** The digit loop; its accumulator is a 64-bit integer and never overflows. */
  method TryParseStringToInt(str: Units, before: int) returns (parsed: bool, integer: int)
    ensures parsed <==> ParseInt(str).Some?
    ensures integer == if parsed then ParseInt(str).value else before
  {
    parsed, integer := false, before;
    if |str| > 11 || |str| == 0 {
      return;
    }
    var value: Int64 := 0;
    var negative := false;
    var i := 0;
    if str[0] == MINUS {
      if |str| == 1 {
        return;
      }
      negative := true;
      i := 1;
    }
    ghost var digits := Magnitude(str);
    ghost var start := i;
    while i < |str|
      invariant start <= i <= |str|
      invariant AllDigits(digits[..i - start])
      invariant value as int == Decimal(digits[..i - start])
    {
      assert str[i] == digits[i - start];
      if str[i] < DIGIT_ZERO || str[i] > DIGIT_NINE {
        return;
      }
      DecimalBound(digits[..i - start]);
      Pow10UpToEleven(i - start);
      assert digits[..i + 1 - start][..i - start] == digits[..i - start];
      value := value * 10 + (str[i] as int - DIGIT_ZERO as int) as Int64;
      i := i + 1;
    }
    assert digits[..i - start] == digits;
    value := if negative then -value else value;
    if value as int < INT32_MIN || value as int > INT32_MAX {
      return;
    }
    parsed, integer := true, value as int;
  }

  /* ---------- the order ---------- */

  datatype Comparison = Ascending | Same | Descending

  function Flip(c: Comparison): Comparison {
    match c
    case Ascending => Descending
    case Same => Same
    case Descending => Ascending
  }

  /** Strict lexicographic order of code units. */
  predicate LexLess(a: Units, b: Units) {
    b != [] && (a == [] || a[0] < b[0] || (a[0] == b[0] && LexLess(a[1..], b[1..])))
  }

  function CompareKey(a: Units, b: Units): Comparison {
    if a == b then Same
    else if a == MIN_NAME || b == MAX_NAME then Ascending
    else if a == MAX_NAME || b == MIN_NAME then Descending
    else
      match (ParseInt(a), ParseInt(b))
      case (Some(m), Some(n)) =>
        if m > n then Descending
        else if m < n then Ascending
        else if |a| > |b| then Descending
        else if |a| < |b| then Ascending
        else Same
      case (Some(_), None) => Ascending
      case (None, Some(_)) => Descending
      case (None, None) =>
        if LexLess(a, b) then Ascending
        else if LexLess(b, a) then Descending
        else Same
  }

  predicate KeyLess(a: Units, b: Units) {
    CompareKey(a, b) == Ascending
  }

  /** A string sorts before another that continues differently after a common part. */
  lemma {:induction false} LexAtPosition(a: Units, b: Units, i: nat)
    requires i <= |a| && i < |b| && a[..i] == b[..i]
    requires i == |a| || a[i] < b[i]
    ensures LexLess(a, b)
  {
    if i > 0 {
      assert a[0] == a[..i][0] == b[..i][0] == b[0];
      assert a[1..][..i - 1] == a[..i][1..] == b[1..][..i - 1];
      LexAtPosition(a[1..], b[1..], i - 1);
    }
  }

  /** The position that decides a lexicographic comparison. */
  lemma {:induction false} LexPosition(a: Units, b: Units) returns (i: nat)
    requires LexLess(a, b)
    ensures i <= |a| && i < |b| && a[..i] == b[..i]
    ensures i == |a| || a[i] < b[i]
  {
    i := 0;
    if a != [] && a[0] == b[0] {
      var j := LexPosition(a[1..], b[1..]);
      i := j + 1;
      assert a[..i] == [a[0]] + a[1..][..j] == b[..i];
    }
  }

  lemma {:induction false} LexTotal(a: Units, b: Units)
    ensures LexLess(a, b) || LexLess(b, a) || a == b
    ensures !(LexLess(a, b) && LexLess(b, a))
    ensures !LexLess(a, a)
  {
    if a != [] && b != [] {
      LexTotal(a[1..], b[1..]);
      LexTotal(a[1..], a[1..]);
      if a[0] == b[0] && a[1..] == b[1..] {
        assert a == [a[0]] + a[1..] == b;
      }
    } else if a != [] {
      LexTotal(a[1..], a[1..]);
    }
  }

  lemma {:induction false} LexTransitive(a: Units, b: Units, c: Units)
    requires LexLess(a, b) && LexLess(b, c)
    ensures LexLess(a, c)
  {
    if a != [] && a[0] == b[0] == c[0] {
      LexTransitive(a[1..], b[1..], c[1..]);
    }
  }

  lemma NamesAreNotIntegers()
    ensures MIN_NAME != MAX_NAME
    ensures ParseInt(MIN_NAME) == None && ParseInt(MAX_NAME) == None
  {
    assert MIN_NAME[2] != MAX_NAME[2];
    assert !IsDigit(MIN_NAME[0]) && !IsDigit(MAX_NAME[0]);
  }

  /** Swapping the arguments flips the answer. */
  lemma CompareKeyAntisymmetric(a: Units, b: Units)
    ensures CompareKey(b, a) == Flip(CompareKey(a, b))
  {
    NamesAreNotIntegers();
    LexTotal(a, b);
  }

  /** The order is transitive, and a strict step on either side stays strict. */
  lemma CompareKeyTransitive(a: Units, b: Units, c: Units)
    requires CompareKey(a, b) != Descending && CompareKey(b, c) != Descending
    ensures CompareKey(a, c) != Descending
    ensures CompareKey(a, b) == Ascending || CompareKey(b, c) == Ascending ==> CompareKey(a, c) == Ascending
  {
    LexTotal(a, b);
    LexTotal(b, c);
    LexTotal(a, c);
    if LexLess(a, b) && LexLess(b, c) {
      LexTransitive(a, b, c);
    }
  }

  /** The sentinels bound every key, and integers come before all other keys. */
  lemma SentinelsAndIntegers(a: Units, b: Units)
    ensures a != MIN_NAME ==> KeyLess(MIN_NAME, a)
    ensures a != MAX_NAME ==> KeyLess(a, MAX_NAME)
    ensures a != MIN_NAME && b != MIN_NAME && ParseInt(a).Some? && ParseInt(b).None? ==> KeyLess(a, b)
  {
    NamesAreNotIntegers();
  }

  /** Digit strings of one length are determined by their value. */
  lemma {:induction false} DecimalInjective(s: Units, t: Units)
    requires AllDigits(s) && AllDigits(t) && |s| == |t| && Decimal(s) == Decimal(t)
    ensures s == t
  {
    if s != [] {
      var n := |s| - 1;
      assert s == s[..n] + [s[n]] && t == t[..n] + [t[n]];
      assert Decimal(s[..n]) == Decimal(t[..n]);
      DecimalInjective(s[..n], t[..n]);
    }
  }

  /** The only ties: equal keys, and spellings of zero of one length, such as "-0" and "00". */
  lemma Ties(a: Units, b: Units)
    ensures CompareKey(a, b) == Same
            <==> a == b || (ParseInt(a) == Some(0) && ParseInt(b) == Some(0) && |a| == |b|)
  {
    NamesAreNotIntegers();
    LexTotal(a, b);
    if ParseInt(a).Some? && ParseInt(a) == ParseInt(b) && ParseInt(a) != Some(0) && |a| == |b| {
      SpelledOnce(a, b);
    }
  }

  /** Two spellings of one length of an integer other than zero are the same. */
  lemma SpelledOnce(a: Units, b: Units)
    requires ParseInt(a).Some? && ParseInt(a) == ParseInt(b) && ParseInt(a) != Some(0) && |a| == |b|
    ensures a == b
  {
    assert IsNegative(a) ==> a == [MINUS] + Magnitude(a);
    assert IsNegative(b) ==> b == [MINUS] + Magnitude(b);
    DecimalInjective(Magnitude(a), Magnitude(b));
  }

  /** "-0", "-00", and so on: the keys that tie with another spelling of zero. */
  predicate IsNegativeZero(a: Units) {
    2 <= |a| <= 11 && a[0] == MINUS && forall i :: 1 <= i < |a| ==> a[i] == DIGIT_ZERO
  }

  lemma {:induction false} ZeroDigits(s: Units)
    requires AllDigits(s) && Decimal(s) == 0
    ensures forall i :: 0 <= i < |s| ==> s[i] == DIGIT_ZERO
  {
    if s != [] {
      var front := s[..|s| - 1];
      ZeroDigits(front);
      assert forall i :: 0 <= i < |front| ==> s[i] == front[i];
    }
  }

  lemma {:induction false} DigitsOfZero(s: Units)
    requires forall i :: 0 <= i < |s| ==> s[i] == DIGIT_ZERO
    ensures AllDigits(s) && Decimal(s) == 0
  {
    if s != [] {
      DigitsOfZero(s[..|s| - 1]);
    }
  }

  /** They are the keys with a minus sign that read as zero. */
  lemma NegativeZeros(a: Units)
    ensures IsNegativeZero(a) <==> IsNegative(a) && ParseInt(a) == Some(0)
  {
    if IsNegative(a) {
      var digits := Magnitude(a);
      assert forall i :: 0 <= i < |digits| ==> digits[i] == a[i + 1];
      assert forall i :: 1 <= i < |a| ==> a[i] == digits[i - 1];
      if IsNegativeZero(a) {
        DigitsOfZero(digits);
      } else if ParseInt(a) == Some(0) {
        ZeroDigits(digits);
      }
    }
  }

  /**
   A key of the data tree. The child dictionary is ordered by `CompareKey`, so it cannot tell a
   negative zero from the unsigned zero of its length; trees are modelled over the other keys.
   */
  type Key = k: Units | !IsNegativeZero(k)

  /** On tree keys the order is total: ties are equalities. */
  lemma KeyOrderTotal(a: Key, b: Key)
    ensures CompareKey(a, b) == Same <==> a == b
  {
    Ties(a, b);
    NegativeZeros(a);
    NegativeZeros(b);
    if CompareKey(a, b) == Same && a != b {
      DecimalInjective(a, b);
    }
  }

  /** ".priority" */
  const PRIORITY: Key := [0x2E, 0x70, 0x72, 0x69, 0x6F, 0x72, 0x69, 0x74, 0x79]

  /* ---------- there is always another key ---------- */

  lemma {:induction false} LengthBound(keys: set<Key>) returns (n: nat)
    ensures forall k :: k in keys ==> |k| <= n
  {
    if keys == {} {
      n := 0;
    } else {
      var k :| k in keys;
      var m := LengthBound(keys - {k});
      n := if |k| > m then |k| else m;
      assert forall j :: j in keys ==> j == k || j in keys - {k};
    }
  }

  lemma FreshKey(keys: set<Key>) returns (k: Key)
    ensures k !in keys && k != PRIORITY
  {
    var n := LengthBound(keys);
    k := seq(n + |PRIORITY| + 1, i => 0x61);
  }
}
