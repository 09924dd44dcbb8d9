/**
 The neighbours of a key in the key order (FNextPushId.swift, `successor` and `predecessor`), on UTF-16
 code units with surrogate pairs and the characters that keys cannot contain.
 */
module KeyNeighbours {
  import opened Options
  import opened Keys

  const MIN_KEY_CHAR: Unit := 0x20
  const MAX_KEY_CHAR: Unit := 0xFFFF
  const MAX_KEY_LEN: nat := 786
  const HIGH_START: Unit := 0xD800
  const HIGH_END: Unit := 0xDBFF
  const LOW_START: Unit := 0xDC00
  const LOW_END: Unit := 0xDFFF

  /* ---------- valid keys ---------- */

  predicate IsHigh(c: Unit) {
    HIGH_START <= c <= HIGH_END
  }

  predicate IsLow(c: Unit) {
    LOW_START <= c <= LOW_END
  }

  predicate IsPairedAt(s: Units, i: nat)
    requires i < |s|
  {
    && (IsHigh(s[i]) ==> i + 1 < |s| && IsLow(s[i + 1]))
    && (IsLow(s[i]) ==> i > 0 && IsHigh(s[i - 1]))
  }

  /** Every surrogate is part of a pair, as in every Swift string. */
  predicate IsWellFormed(s: Units) {
    forall i :: 0 <= i < |s| ==> IsPairedAt(s, i)
  }

  /** Control characters, delete and the characters of paths are excluded. */
  predicate IsKeyChar(c: Unit) {
    c >= MIN_KEY_CHAR && c !in {0x23, 0x24, 0x2E, 0x2F, 0x5B, 0x5D, 0x7F}
  }

  predicate IsValidKey(s: Units) {
    1 <= |s| <= MAX_KEY_LEN && IsWellFormed(s) && forall i :: 0 <= i < |s| ==> IsKeyChar(s[i])
  }

  /* ---------- decimal text ---------- */

  function ShowNat(n: nat): (s: Units)
    ensures s != [] && AllDigits(s)
  {
    if n < 10 then [(DIGIT_ZERO as int + n) as Unit] else ShowNat(n / 10) + [(DIGIT_ZERO as int + n % 10) as Unit]
  }

  function ShowInt(n: int): (s: Units)
    ensures IsWellFormed(s) && s != [] && s[|s| - 1] != 0
  {
    if n < 0 then [MINUS] + ShowNat(-n) else ShowNat(n)
  }

  /* ---------- the neighbours ---------- */

  /** The next character a key may contain; surrogates are treated by the caller. */
  function SkipUp(c: Unit): Unit {
    if c == 0x23 || c == 0x24 then 0x25
    else if c == 0x2E || c == 0x2F then 0x30
    else if c == 0x5B then 0x5C
    else if c == 0x5D then 0x5E
    else if c == 0x7F then 0x80
    else c
  }

  function SkipDown(c: Unit): Unit {
    if c == 0x23 || c == 0x24 then 0x22
    else if c == 0x2E || c == 0x2F then 0x2D
    else if c == 0x5B then 0x5A
    else if c == 0x5D then 0x5C
    else if c == 0x7F then 0x7E
    else c
  }

  /** The position after the last character that is not the largest. */
  function EndOfSmaller(s: Units): (n: nat)
    ensures n <= |s|
    ensures n > 0 ==> s[n - 1] != MAX_KEY_CHAR
    ensures forall i :: n <= i < |s| ==> s[i] == MAX_KEY_CHAR
  {
    if s == [] then 0
    else if s[|s| - 1] != MAX_KEY_CHAR then |s|
    else EndOfSmaller(s[..|s| - 1])
  }

  function Padding(n: nat): (p: Units)
    ensures |p| == n && forall i :: 0 <= i < n ==> p[i] == MAX_KEY_CHAR
  {
    seq(n, i => MAX_KEY_CHAR)
  }

  /** A character with a successor of its own, and what precedes it: a low surrogate follows a high one. */
  predicate CanStep(prefix: Units, c: Unit) {
    && IsWellFormed(prefix + [c])
    && c != MAX_KEY_CHAR
  }

  /** The prefix and its next character, replaced by what sorts right after them and all their extensions. */
  function StepUp(prefix: Units, c: Unit): (s: Units)
    requires CanStep(prefix, c)
    ensures IsWellFormed(s) && |prefix| <= |s| && s != [] && s[|s| - 1] != 0
  {
    FrontIsWellFormed(prefix, c);
    var plusOne := SkipUp(c + 1);
    if plusOne == HIGH_START then
      AppendPair(prefix, HIGH_START, LOW_START);
      prefix + [HIGH_START, LOW_START]
    else if plusOne == LOW_END + 1 && prefix != [] then
      var front, high := prefix[..|prefix| - 1], prefix[|prefix| - 1];
      if high == HIGH_END then
        AppendPlain(front, plusOne);
        front + [plusOne]
      else
        AppendPair(front, high + 1, LOW_START);
        front + [high + 1, LOW_START]
    else
      ReplaceLast(prefix, c, plusOne);
      prefix + [plusOne]
  }

  /** The smallest key after `key`; every Swift string is well formed. */
  function Successor(key: Units): (s: Units)
    requires IsWellFormed(key)
    ensures IsWellFormed(s) && s != [] && s[|s| - 1] != 0
  {
    match ParseInt(key)
    case Some(n) => if n == INT32_MAX then [MIN_KEY_CHAR] else ShowInt(n + 1)
    case None =>
      if |key| < MAX_KEY_LEN then
        AppendPlain(key, MIN_KEY_CHAR);
        key + [MIN_KEY_CHAR]
      else
        var n := EndOfSmaller(key);
        if n == 0 then MAX_NAME
        else
          PrefixCanStep(key, n - 1);
          StepUp(key[..n - 1], key[n - 1])
  }

  function Pad(s: Units): (p: Units)
    requires IsWellFormed(s)
    ensures IsWellFormed(p)
  {
    if |s| < MAX_KEY_LEN then
      PaddedIsWellFormed(s, MAX_KEY_LEN - |s|);
      s + Padding(MAX_KEY_LEN - |s|)
    else s
  }

  /** The prefix and its last character, replaced by the largest characters before them. */
  function StepDown(prefix: Units, c: Unit): (s: Units)
    requires IsWellFormed(prefix + [c]) && c != 0
    ensures IsWellFormed(s)
  {
    FrontIsWellFormed(prefix, c);
    var minusOne := SkipDown(c - 1);
    if minusOne == LOW_END then
      AppendPair(prefix, HIGH_END, LOW_END);
      prefix + [HIGH_END, LOW_END]
    else if minusOne == HIGH_END && prefix != [] then
      var front, high := prefix[..|prefix| - 1], prefix[|prefix| - 1];
      if high == HIGH_START then
        AppendPlain(front, HIGH_START - 1);
        front + [HIGH_START - 1]
      else
        AppendPair(front, high - 1, LOW_END);
        front + [high - 1, LOW_END]
    else
      ReplaceLast(prefix, c, minusOne);
      prefix + [minusOne]
  }

  /** The largest key before `key`; the source traps on a key that ends in U+0000. */
  function Predecessor(key: Units): (s: Units)
    requires IsWellFormed(key)
    requires key != [] ==> key[|key| - 1] != 0
    ensures IsWellFormed(s)
  {
    match ParseInt(key)
    case Some(n) => if n == INT32_MIN then MIN_NAME else ShowInt(n - 1)
    case None =>
      if key == [] then ShowInt(INT32_MAX)
      else
        var front, last := key[..|key| - 1], key[|key| - 1];
        assert front + [last] == key;
        FrontIsWellFormed(front, last);
        if last == MIN_KEY_CHAR then (if |key| == 1 then ShowInt(INT32_MAX) else front)
        else Pad(StepDown(front, last))
  }

  /* ---------- surrogate pairs stay paired ---------- */

  lemma PairAt(s: Units, i: nat)
    requires IsWellFormed(s) && i < |s|
    ensures IsPairedAt(s, i)
  {
  }

  lemma {:induction false} PlainIsWellFormed(s: Units)
    requires forall i :: 0 <= i < |s| ==> !IsHigh(s[i]) && !IsLow(s[i])
    ensures IsWellFormed(s)
  {
  }

  lemma AppendPlain(s: Units, c: Unit)
    requires IsWellFormed(s) && !IsHigh(c) && !IsLow(c)
    ensures IsWellFormed(s + [c])
  {
    forall i: nat | i < |s + [c]| ensures IsPairedAt(s + [c], i) {
      if i < |s| {
        PairAt(s, i);
      }
    }
  }

  lemma AppendPair(s: Units, high: Unit, low: Unit)
    requires IsWellFormed(s) && IsHigh(high) && IsLow(low)
    ensures IsWellFormed(s + [high, low])
  {
    forall i: nat | i < |s + [high, low]| ensures IsPairedAt(s + [high, low], i) {
      if i < |s| {
        PairAt(s, i);
      }
    }
  }

  lemma PaddedIsWellFormed(s: Units, n: nat)
    requires IsWellFormed(s)
    ensures IsWellFormed(s + Padding(n))
  {
    forall i: nat | i < |s + Padding(n)| ensures IsPairedAt(s + Padding(n), i) {
      if i < |s| {
        PairAt(s, i);
      }
    }
  }

  /** Without its last character, or without its last pair, a well-formed string is well formed. */
  lemma FrontIsWellFormed(prefix: Units, c: Unit)
    requires IsWellFormed(prefix + [c])
    ensures !IsHigh(c)
    ensures !IsLow(c) ==> IsWellFormed(prefix)
    ensures IsLow(c) ==> |prefix| > 0 && IsHigh(prefix[|prefix| - 1]) && IsWellFormed(prefix[..|prefix| - 1])
  {
    var s := prefix + [c];
    PairAt(s, |prefix|);
    var n := if IsLow(c) then |prefix| - 1 else |prefix|;
    forall i: nat | i < n ensures IsPairedAt(prefix[..n], i) {
      PairAt(s, i);
    }
    assert prefix[..|prefix|] == prefix;
  }

  /** The last character may be replaced by one of its own kind. */
  lemma ReplaceLast(prefix: Units, c: Unit, d: Unit)
    requires IsWellFormed(prefix + [c]) && !IsHigh(d) && IsLow(c) == IsLow(d)
    ensures IsWellFormed(prefix + [d])
  {
    var s, t := prefix + [c], prefix + [d];
    forall i: nat | i < |t| ensures IsPairedAt(t, i) {
      PairAt(s, i);
    }
  }

  lemma PrefixCanStep(s: Units, i: nat)
    requires IsWellFormed(s) && i < |s| && s[i] != MAX_KEY_CHAR
    requires i + 1 < |s| ==> s[i + 1] == MAX_KEY_CHAR
    ensures CanStep(s[..i], s[i])
  {
    var t := s[..i] + [s[i]];
    forall j: nat | j < |t| ensures IsPairedAt(t, j) {
      PairAt(s, j);
    }
  }

  /* ---------- integers ---------- */

  lemma {:induction false} ShowNatRoundTrip(n: nat)
    ensures Decimal(ShowNat(n)) == n
  {
    if n >= 10 {
      ShowNatRoundTrip(n / 10);
      assert ShowNat(n)[..|ShowNat(n)| - 1] == ShowNat(n / 10);
    } else {
      assert ShowNat(n)[..0] == [];
    }
  }

  lemma {:induction false} ShowNatLength(n: nat, k: nat)
    requires n < Pow10(k + 1)
    ensures |ShowNat(n)| <= k + 1
  {
    if n >= 10 {
      assert Pow10(0) == 1;
      if k > 0 {
        TenthIsSmaller(n, Pow10(k));
        ShowNatLength(n / 10, k - 1);
      }
    }
  }

  lemma TenthIsSmaller(n: nat, p: nat)
    requires n < 10 * p
    ensures n / 10 < p
  {
  }

  lemma ShowIntRoundTrip(n: int)
    requires INT32_MIN <= n <= INT32_MAX
    ensures ParseInt(ShowInt(n)) == Some(n)
  {
    var m: nat := if n < 0 then -n else n;
    ShowNatRoundTrip(m);
    assert Pow10(5) == 100_000;
    assert Pow10(10) == 100_000 * Pow10(5);
    ShowNatLength(m, 9);
    if n < 0 {
      assert ([MINUS] + ShowNat(m))[1..] == ShowNat(m);
    } else {
      assert IsDigit(ShowNat(m)[0]);
    }
  }

  /** The successor's predecessor spells the same integer, canonically. */
  lemma IntegerRoundTrip(k: Units)
    requires IsWellFormed(k) && ParseInt(k).Some?
    ensures Predecessor(Successor(k)) == ShowInt(ParseInt(k).value)
  {
    var n := ParseInt(k).value;
    if n < INT32_MAX {
      ShowIntRoundTrip(n + 1);
    } else {
      assert !IsDigit([MIN_KEY_CHAR][0]);
      assert ParseInt([MIN_KEY_CHAR]) == None;
    }
  }

  /** A canonical spelling is the shortest one, apart from the minus sign of zero. */
  lemma {:induction false} ShowNatShortest(s: Units)
    requires AllDigits(s) && s != []
    ensures |ShowNat(Decimal(s))| <= |s|
  {
    if |s| > 1 {
      var front := s[..|s| - 1];
      ShowNatShortest(front);
      if Decimal(s) >= 10 {
        assert Decimal(s) / 10 == Decimal(front);
      }
    } else {
      assert s[..0] == [];
    }
  }

  /* ---------- other keys ---------- */

  lemma NotAnInteger(s: Units, i: nat)
    requires i < |s| && !IsDigit(s[i]) && (s[i] != MINUS || i > 0)
    ensures ParseInt(s) == None
  {
    if IsNegative(s) {
      assert Magnitude(s)[i - 1] == s[i];
    }
  }

  lemma LongIsNoInteger(s: Units)
    requires |s| > 11
    ensures ParseInt(s) == None
  {
  }

  /** A key below the maximal length: one more smallest character. */
  lemma ShortRoundTrip(k: Units)
    requires IsValidKey(k) && ParseInt(k).None? && |k| < MAX_KEY_LEN
    ensures ParseInt(Successor(k)) == None && Predecessor(Successor(k)) == k
  {
    var s := Successor(k);
    NotAnInteger(s, |k|);
    assert s[..|k|] == k;
  }

  /** Where a key of maximal length is stepped up: the character and what precedes it. */
  ghost predicate IsStep(k: Units, prefix: Units, c: Unit) {
    && IsValidKey(k) && |prefix| < |k| == MAX_KEY_LEN
    && k == prefix + [c] + Padding(|k| - |prefix| - 1)
    && CanStep(prefix, c) && IsKeyChar(c)
  }

  lemma StepOf(k: Units)
    requires IsValidKey(k) && |k| == MAX_KEY_LEN && EndOfSmaller(k) > 0
    ensures var n := EndOfSmaller(k); IsStep(k, k[..n - 1], k[n - 1])
  {
    var i := EndOfSmaller(k) - 1;
    PrefixCanStep(k, i);
    assert k[i + 1..] == Padding(|k| - i - 1);
    assert k == k[..i] + [k[i]] + k[i + 1..];
  }

  lemma SkipBack(c: Unit)
    requires c != MAX_KEY_CHAR && IsKeyChar(c)
    ensures SkipUp(c + 1) > c && SkipDown(SkipUp(c + 1) - 1) == c
    ensures SkipUp(c + 1) > MIN_KEY_CHAR
  {
  }

  /** Stepping up and looking at the last character again gives the step back. */
  lemma StepUpDown(k: Units, prefix: Units, c: Unit)
    requires IsStep(k, prefix, c)
    ensures var s := StepUp(prefix, c);
            var front, last := s[..|s| - 1], s[|s| - 1];
            last > MIN_KEY_CHAR && s == front + [last] && StepDown(front, last) == prefix + [c]
  {
    SkipBack(c);
    FrontIsWellFormed(prefix, c);
    var s, plusOne := StepUp(prefix, c), SkipUp(c + 1);
    assert s == s[..|s| - 1] + [s[|s| - 1]];
    if plusOne == HIGH_START {
      assert s[..|s| - 1] == prefix + [HIGH_START];
      assert (prefix + [HIGH_START])[..|prefix|] == prefix;
    } else if plusOne == LOW_END + 1 && prefix != [] {
      var front, high := prefix[..|prefix| - 1], prefix[|prefix| - 1];
      assert c == LOW_END && prefix == front + [high];
      if high == HIGH_END {
        assert s[..|s| - 1] == front;
        assert front + [HIGH_END, LOW_END] == prefix + [c];
      } else {
        assert s[..|s| - 1] == front + [high + 1];
        assert (front + [high + 1])[..|front|] == front;
        assert front + [high, LOW_END] == prefix + [c];
      }
    } else {
      assert s[..|s| - 1] == prefix;
    }
  }

  /** A key of maximal length: the round trip, unless the truncated successor reads as an integer. */
  lemma LongRoundTrip(k: Units)
    requires IsValidKey(k) && |k| == MAX_KEY_LEN && EndOfSmaller(k) > 0 && ParseInt(Successor(k)) == None
    ensures Predecessor(Successor(k)) == k
  {
    LongIsNoInteger(k);
    var n := EndOfSmaller(k);
    StepOf(k);
    StepUpDown(k, k[..n - 1], k[n - 1]);
  }

  /**
   A key of maximal length whose successor reads as an integer: at most eleven characters are left of it, the
   last one before the largest characters is a minus sign or a digit below nine, and with the next digit in
   its place they spell a 32-bit integer.
   */
  predicate BecomesInteger(k: Units) {
    var n := EndOfSmaller(k);
    && |k| == MAX_KEY_LEN && 0 < n <= 11
    && (k[n - 1] == MINUS || DIGIT_ZERO <= k[n - 1] < DIGIT_NINE)
    && ParseInt(k[..n - 1] + [NextDigit(k[n - 1])]).Some?
  }

  /** The digit after a digit; after the minus sign come two characters that keys cannot contain, then zero. */
  function NextDigit(c: Unit): Unit
    requires c == MINUS || DIGIT_ZERO <= c < DIGIT_NINE
  {
    if c == MINUS then DIGIT_ZERO else c + 1
  }

  lemma LastOfInteger(s: Units)
    requires ParseInt(s).Some?
    ensures |s| <= 11 && s != [] && IsDigit(s[|s| - 1])
  {
    if IsNegative(s) {
      assert Magnitude(s)[|s| - 2] == s[|s| - 1];
    }
  }

  /** The successor of a key that is no integer is one exactly for those keys. */
  lemma SuccessorIsInteger(k: Units)
    requires IsValidKey(k) && ParseInt(k).None?
    ensures ParseInt(Successor(k)).Some? <==> BecomesInteger(k)
  {
    if |k| < MAX_KEY_LEN {
      ShortRoundTrip(k);
    } else if EndOfSmaller(k) == 0 {
      NamesAreNotIntegers();
    } else {
      var n := EndOfSmaller(k);
      StepOf(k);
      StepIsInteger(k[..n - 1], k[n - 1]);
    }
  }

  lemma StepIsInteger(prefix: Units, c: Unit)
    requires CanStep(prefix, c) && IsKeyChar(c)
    ensures ParseInt(StepUp(prefix, c)).Some?
            <==> |prefix| < 11 && (c == MINUS || DIGIT_ZERO <= c < DIGIT_NINE)
                 && ParseInt(prefix + [NextDigit(c)]).Some?
  {
    FrontIsWellFormed(prefix, c);
    var s := StepUp(prefix, c);
    if ParseInt(s).Some? {
      LastOfInteger(s);
      assert s == prefix + [SkipUp(c + 1)];
    }
    if c == MINUS || DIGIT_ZERO <= c < DIGIT_NINE {
      assert s == prefix + [NextDigit(c)];
      if ParseInt(s).Some? {
        LastOfInteger(s);
      }
    }
  }

  /** The keys whose successor's predecessor is the key itself. */
  predicate RoundTrips(k: Units) {
    match ParseInt(k)
    case Some(n) => k == ShowInt(n)
    case None => |k| < MAX_KEY_LEN || (EndOfSmaller(k) > 0 && !BecomesInteger(k))
  }

  /** Going up and down again gives the key back exactly for those keys. */
  lemma RoundTripExact(k: Units)
    requires IsValidKey(k)
    ensures Predecessor(Successor(k)) == k <==> RoundTrips(k)
  {
    if ParseInt(k).None? {
      SuccessorIsInteger(k);
    }
    if ParseInt(k).Some? {
      IntegerRoundTrip(k);
    } else if |k| < MAX_KEY_LEN {
      ShortRoundTrip(k);
    } else if EndOfSmaller(k) == 0 {
      NamesAreNotIntegers();
      assert Predecessor(MAX_NAME)[0] == MAX_NAME[0];
      assert k[0] == MAX_KEY_CHAR;
    } else if ParseInt(Successor(k)).None? {
      LongRoundTrip(k);
    } else {
      PredecessorOfInteger(Successor(k));
      assert |k| == MAX_KEY_LEN;
    }
  }

  lemma PredecessorOfInteger(s: Units)
    requires IsWellFormed(s) && s != [] && s[|s| - 1] != 0 && ParseInt(s).Some?
    ensures |Predecessor(s)| <= 11
  {
    var n := ParseInt(s).value;
    if n != INT32_MIN {
      ShowIntRoundTrip(n - 1);
    }
  }

  /* ---------- nothing lies between a key and its successor ---------- */

  /** A string that follows `k` up to some position and is then over or smaller is not above `k`. */
  lemma NotAbove(k: Units, x: Units, i: nat)
    requires i <= |x| && i <= |k| && x[..i] == k[..i]
    requires i == |x| || (i < |k| && x[i] < k[i])
    ensures !LexLess(k, x)
  {
    LexTotal(k, x);
    if i < |k| {
      LexAtPosition(x, k, i);
    } else {
      assert x == x[..i] == k[..i] == k;
    }
  }

  /** No extension of the stepped characters is above a key that pads them to the maximal length. */
  lemma ExtensionNotAbove(k: Units, x: Units, n: nat)
    requires n <= |k| && |x| <= |k| && n <= |x| && x[..n] == k[..n]
    requires forall i :: n <= i < |k| ==> k[i] == MAX_KEY_CHAR
    ensures !LexLess(k, x)
  {
    forall i | 0 <= i < n ensures k[i] == x[i] {
      assert k[i] == k[..n][i] == x[..n][i];
    }
    if LexLess(k, x) {
      var i := LexPosition(k, x);
      assert false;
    }
  }

  /** A valid key that agrees with `k` up to the stepped character and is not larger there is not above `k`. */
  lemma NotAboveStep(k: Units, prefix: Units, c: Unit, x: Units, i: nat)
    requires IsStep(k, prefix, c) && |x| <= MAX_KEY_LEN && i <= |x| && i <= |prefix| + 1 && x[..i] == k[..i]
    requires i == |x| || i == |prefix| + 1 || x[i] < k[i]
    ensures !LexLess(k, x)
  {
    if i == |prefix| + 1 {
      ExtensionNotAbove(k, x, i);
    } else {
      NotAbove(k, x, i);
    }
  }

  /** Between a key character that can be stepped up and the next character there is no key character. */
  lemma SkipIsTight(c: Unit, d: Unit)
    requires c != MAX_KEY_CHAR && IsKeyChar(d) && c < d
    ensures d >= SkipUp(c + 1)
  {
  }

  /** The stepped character is replaced alone. */
  lemma GapAtCharacter(k: Units, prefix: Units, c: Unit, x: Units)
    requires IsStep(k, prefix, c) && IsValidKey(x) && LexLess(x, prefix + [SkipUp(c + 1)])
    ensures !LexLess(k, x)
  {
    var s := prefix + [SkipUp(c + 1)];
    var i := LexPosition(x, s);
    assert s[..i] == k[..i];
    if i == |prefix| && i < |x| && x[i] > c {
      SkipIsTight(c, x[i]);
    } else if i == |prefix| && i < |x| && x[i] == c {
      assert x[..i + 1] == x[..i] + [c] == k[..i + 1];
      NotAboveStep(k, prefix, c, x, i + 1);
    } else {
      NotAboveStep(k, prefix, c, x, i);
    }
  }

  /** A well-formed string below a string that ends in a low surrogate start differs from it before its last pair. */
  lemma BelowPair(x: Units, front: Units, high: Unit) returns (i: nat)
    requires IsWellFormed(x) && IsHigh(high) && LexLess(x, front + [high, LOW_START])
    ensures i <= |front| && i <= |x| && x[..i] == front[..i]
    ensures i == |x| || x[i] < (front + [high])[i]
  {
    var s := front + [high, LOW_START];
    i := LexPosition(x, s);
    if i == |front| + 1 {
      assert x[i - 1] == x[..i][i - 1] == s[..i][i - 1] == high;
      PairAt(x, i - 1);
      assert false;
    }
    assert x[..i] == s[..i] == front[..i];
  }

  /** The lowest pair follows the last character below the surrogates. */
  lemma GapAtSurrogates(k: Units, prefix: Units, c: Unit, x: Units)
    requires IsStep(k, prefix, c) && c + 1 == HIGH_START && IsValidKey(x)
    requires LexLess(x, prefix + [HIGH_START, LOW_START])
    ensures !LexLess(k, x)
  {
    var i := BelowPair(x, prefix, HIGH_START);
    assert x[..i] == k[..i];
    if i == |prefix| && i < |x| && x[i] == c {
      assert x[..i + 1] == x[..i] + [c] == k[..i + 1];
      NotAboveStep(k, prefix, c, x, i + 1);
    } else {
      NotAboveStep(k, prefix, c, x, i);
    }
  }

  /** A string that agrees with `k` up to a high surrogate whose low half is the last one. */
  lemma NotAboveLastLow(k: Units, front: Units, high: Unit, x: Units)
    requires IsStep(k, front + [high], LOW_END) && IsHigh(high) && IsValidKey(x)
    requires |front| < |x| && x[..|front|] == front && x[|front|] == high
    ensures !LexLess(k, x)
  {
    var i := |front|;
    PairAt(x, i);
    assert x[..i + 1] == x[..i] + [high] == k[..i + 1];
    if x[i + 1] == LOW_END {
      assert x[..i + 2] == x[..i + 1] + [LOW_END] == k[..i + 2];
      NotAboveStep(k, front + [high], LOW_END, x, i + 2);
    } else {
      NotAboveStep(k, front + [high], LOW_END, x, i + 1);
    }
  }

  /** The carry from the low half of a pair into its high half. */
  lemma GapAtCarry(k: Units, front: Units, high: Unit, x: Units)
    requires IsStep(k, front + [high], LOW_END) && IsHigh(high) && high != HIGH_END && IsValidKey(x)
    requires LexLess(x, front + [high + 1, LOW_START])
    ensures !LexLess(k, x)
  {
    var i := BelowPair(x, front, high + 1);
    if i == |front| && i < |x| && x[i] == high {
      assert front[..i] == front;
      NotAboveLastLow(k, front, high, x);
    } else {
      assert x[..i] == k[..i];
      NotAboveStep(k, front + [high], LOW_END, x, i);
    }
  }

  /** The highest pair is replaced by the first character after the surrogates. */
  lemma GapAtLastPair(k: Units, front: Units, x: Units)
    requires IsStep(k, front + [HIGH_END], LOW_END) && IsValidKey(x) && LexLess(x, front + [LOW_END + 1])
    ensures !LexLess(k, x)
  {
    var s := front + [LOW_END + 1];
    var i := LexPosition(x, s);
    assert x[..i] == s[..i] == k[..i];
    if i == |front| && i < |x| && x[i] == HIGH_END {
      assert x[..i] == front;
      NotAboveLastLow(k, front, HIGH_END, x);
    } else {
      if i == |front| && i < |x| && x[i] > HIGH_END {
        PairAt(x, i);
        assert x[i - 1] == x[..i][i - 1] == k[..i][i - 1] == k[i - 1];
        PairAt(k, i - 1);
      }
      NotAboveStep(k, front + [HIGH_END], LOW_END, x, i);
    }
  }

  lemma GapAtStep(k: Units, prefix: Units, c: Unit, x: Units)
    requires IsStep(k, prefix, c) && IsValidKey(x) && LexLess(x, StepUp(prefix, c))
    ensures !LexLess(k, x)
  {
    FrontIsWellFormed(prefix, c);
    var plusOne := SkipUp(c + 1);
    if plusOne == HIGH_START {
      GapAtSurrogates(k, prefix, c, x);
    } else if plusOne == LOW_END + 1 && prefix != [] {
      var front, high := prefix[..|prefix| - 1], prefix[|prefix| - 1];
      assert prefix == front + [high];
      if high == HIGH_END {
        GapAtLastPair(k, front, x);
      } else {
        GapAtCarry(k, front, high, x);
      }
    } else {
      GapAtCharacter(k, prefix, c, x);
    }
  }

  /** Below the maximal length nothing fits between a key and the key with a smallest character added. */
  lemma GapAtEnd(k: Units, x: Units)
    requires IsValidKey(x) && LexLess(x, k + [MIN_KEY_CHAR])
    ensures !LexLess(k, x)
  {
    var i := LexPosition(x, k + [MIN_KEY_CHAR]);
    assert x[..i] == k[..i];
    if i == |k| && i < |x| {
      assert false;
    }
    NotAbove(k, x, i);
  }

  lemma ValidIsNoName(x: Units)
    requires IsValidKey(x)
    ensures x != MIN_NAME && x != MAX_NAME
  {
    assert !IsKeyChar(MIN_NAME[0]) && !IsKeyChar(MAX_NAME[0]);
  }

  /** No valid key lies strictly between a key that is no integer and its successor. */
  lemma NoKeyBetween(k: Units, x: Units)
    requires IsValidKey(k) && ParseInt(k).None? && IsValidKey(x) && KeyLess(k, x)
    ensures !KeyLess(x, Successor(k))
  {
    ValidIsNoName(k);
    ValidIsNoName(x);
    var s := Successor(k);
    if |k| < MAX_KEY_LEN {
      if LexLess(x, s) {
        GapAtEnd(k, x);
      }
      NotAName(s);
    } else if EndOfSmaller(k) == 0 {
      ExtensionNotAbove(k, x, 0);
      assert false;
    } else {
      var n := EndOfSmaller(k);
      StepOf(k);
      StepIsNoName(k[..n - 1], k[n - 1]);
      if LexLess(x, s) {
        GapAtStep(k, k[..n - 1], k[n - 1], x);
      }
    }
  }

  lemma NotAName(s: Units)
    requires s != [] && s[|s| - 1] != 0x5D
    ensures s != MIN_NAME && s != MAX_NAME
  {
    assert MIN_NAME[|MIN_NAME| - 1] == 0x5D && MAX_NAME[|MAX_NAME| - 1] == 0x5D;
  }

  lemma StepIsNoName(prefix: Units, c: Unit)
    requires CanStep(prefix, c)
    ensures StepUp(prefix, c) != MIN_NAME && StepUp(prefix, c) != MAX_NAME
  {
    NotAName(StepUp(prefix, c));
  }

  /** A stepped key sorts after the key it comes from. */
  lemma StepIsLarger(k: Units, prefix: Units, c: Unit)
    requires IsStep(k, prefix, c)
    ensures LexLess(k, StepUp(prefix, c))
  {
    SkipBack(c);
    FrontIsWellFormed(prefix, c);
    var s, n := StepUp(prefix, c), |prefix|;
    if SkipUp(c + 1) == LOW_END + 1 && prefix != [] {
      assert k[..n - 1] == prefix[..n - 1] == s[..n - 1];
      LexAtPosition(k, s, n - 1);
    } else {
      assert k[..n] == prefix == s[..n];
      LexAtPosition(k, s, n);
    }
  }

  /** The successor of a key that is no integer sorts after it exactly when it does not become one. */
  lemma SuccessorIsLarger(k: Units)
    requires IsValidKey(k) && ParseInt(k).None?
    ensures KeyLess(k, Successor(k)) <==> !BecomesInteger(k)
  {
    SuccessorIsInteger(k);
    ValidIsNoName(k);
    NamesAreNotIntegers();
    var s := Successor(k);
    if |k| < MAX_KEY_LEN {
      ShortRoundTrip(k);
      NotAName(s);
      assert k[..|k|] == s[..|k|];
      LexAtPosition(k, s, |k|);
    } else if EndOfSmaller(k) > 0 {
      var n := EndOfSmaller(k);
      StepOf(k);
      StepIsNoName(k[..n - 1], k[n - 1]);
      StepIsLarger(k, k[..n - 1], k[n - 1]);
    }
    LexTotal(k, s);
  }

  /** The shortest spelling of an integer. */
  lemma ShowIntShortest(x: Units)
    requires ParseInt(x).Some?
    ensures |ShowInt(ParseInt(x).value)| <= |x|
  {
    ShowNatShortest(Magnitude(x));
    if ParseInt(x).value >= 0 && IsNegative(x) {
      assert Decimal(Magnitude(x)) == 0;
    }
  }

  /** Between an integer key and its successor lie exactly the longer spellings of the same integer. */
  lemma KeysBetweenIntegers(k: Units, x: Units)
    requires IsValidKey(k) && ParseInt(k).Some? && IsValidKey(x)
    ensures KeyLess(k, x) && KeyLess(x, Successor(k)) <==> ParseInt(x) == ParseInt(k) && |x| > |k|
  {
    ValidIsNoName(k);
    ValidIsNoName(x);
    var n := ParseInt(k).value;
    if n == INT32_MAX {
      BetweenLast(k, x);
    } else {
      ShowIntRoundTrip(n + 1);
      if ParseInt(x) == Some(n + 1) {
        ShowIntShortest(x);
      }
      BetweenIntegers(k, x, ShowInt(n + 1));
    }
  }

  lemma BetweenIntegers(k: Units, x: Units, s: Units)
    requires ParseInt(k).Some? && ParseInt(s) == Some(ParseInt(k).value + 1) && x != MIN_NAME && x != MAX_NAME
    requires ParseInt(x) == ParseInt(s) ==> |s| <= |x|
    ensures KeyLess(k, x) && KeyLess(x, s) <==> ParseInt(x) == ParseInt(k) && |x| > |k|
  {
    NamesAreNotIntegers();
  }

  lemma BetweenLast(k: Units, x: Units)
    requires ParseInt(k) == Some(INT32_MAX) && IsValidKey(x)
    ensures KeyLess(k, x) && KeyLess(x, [MIN_KEY_CHAR]) <==> ParseInt(x) == ParseInt(k) && |x| > |k|
  {
    ValidIsNoName(x);
    NamesAreNotIntegers();
    NotAName([MIN_KEY_CHAR]);
    NotAnInteger([MIN_KEY_CHAR], 0);
    NothingBeforeMinimum(x);
  }

  lemma NothingBeforeMinimum(x: Units)
    requires IsValidKey(x)
    ensures !LexLess(x, [MIN_KEY_CHAR])
  {
    var s := [MIN_KEY_CHAR];
    assert IsKeyChar(x[0]) && s[1..] == [];
    assert !LexLess(x[1..], s[1..]);
  }

  /** The case that fails: "0" and 785 of the largest character. The successor is the integer 1, which sorts before. */
  lemma SuccessorSortsBefore(k: Units)
    requires |k| == MAX_KEY_LEN && k[0] == DIGIT_ZERO && forall i :: 0 < i < |k| ==> k[i] == MAX_KEY_CHAR
    ensures IsValidKey(k) && ParseInt(k).None? && BecomesInteger(k)
    ensures Successor(k) == [DIGIT_ZERO + 1] && KeyLess(Successor(k), k) && Predecessor(Successor(k)) != k
  {
    PlainIsWellFormed(k);
    LongIsNoInteger(k);
    ZeroEnds(k);
    DigitIsInteger();
    assert k[..0] == [];
    assert [] + [NextDigit(DIGIT_ZERO)] == [DIGIT_ZERO + 1];
    StepFromZero(k);
    ValidIsNoName(k);
    NamesAreNotIntegers();
    PredecessorOfInteger(Successor(k));
  }

  lemma StepFromZero(k: Units)
    requires IsWellFormed(k) && ParseInt(k).None? && |k| == MAX_KEY_LEN && EndOfSmaller(k) == 1 && k[0] == DIGIT_ZERO
    ensures Successor(k) == [DIGIT_ZERO + 1]
  {
    PrefixCanStep(k, 0);
    assert k[..0] == [];
    assert StepUp(k[..0], DIGIT_ZERO) == [] + [SkipUp(DIGIT_ZERO + 1)];
  }

  lemma ZeroEnds(k: Units)
    requires k != [] && k[0] != MAX_KEY_CHAR && forall i :: 0 < i < |k| ==> k[i] == MAX_KEY_CHAR
    ensures EndOfSmaller(k) == 1
  {
  }

  lemma DigitIsInteger()
    ensures ParseInt([DIGIT_ZERO + 1]) == Some(1)
  {
    var s: Units := [DIGIT_ZERO + 1];
    assert Magnitude(s) == s && AllDigits(s) && s[..0] == [];
    assert Decimal(s) == 1;
  }
}
