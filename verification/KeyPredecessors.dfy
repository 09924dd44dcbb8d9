/**
 The key before a key (FNextPushId.swift, `predecessor`): it sorts before its key, and when nothing that is
 a valid key lies between the two.
 */
module KeyPredecessors {
  import opened Options
  import opened Keys
  import opened KeyNeighbours

  /* ---------- keys that are stepped down ---------- */

  /** A key whose last character is stepped down. */
  ghost predicate IsStepDown(k: Units, front: Units, c: Unit) {
    IsValidKey(k) && k == front + [c] && c != MIN_KEY_CHAR
  }

  lemma StepDownFacts(k: Units, front: Units, c: Unit)
    requires IsStepDown(k, front, c) && ParseInt(k).None?
    ensures c > MIN_KEY_CHAR && IsWellFormed(front + [c])
    ensures Predecessor(k) == Pad(StepDown(front, c)) && |Predecessor(k)| >= MAX_KEY_LEN
    ensures ParseInt(Predecessor(k)).None?
  {
    assert k[|front|] == c && IsKeyChar(k[|front|]);
    assert k[..|k| - 1] == front;
    LongIsNoInteger(Predecessor(k));
  }

  /** Between the character before and a character there is no key character. */
  lemma SkipDownIsTight(c: Unit, d: Unit)
    requires c > MIN_KEY_CHAR && IsKeyChar(d) && d < c
    ensures d <= SkipDown(c - 1) < c
  {
  }

  /** The padding is larger than every continuation of the same characters. */
  lemma PaddingNotBelow(t: Units, x: Units, n: nat)
    requires n == |t| && n <= |x| <= MAX_KEY_LEN && x[..n] == t && IsWellFormed(t)
    ensures !LexLess(Pad(t), x)
  {
    assert Pad(t)[..n] == t;
    ExtensionNotAbove(Pad(t), x, n);
  }

  /** A string that follows `t` up to some position and is then over or smaller is not above its padding. */
  lemma PrefixNotBelow(t: Units, x: Units, n: nat)
    requires n <= |x| && n < |t| && x[..n] == t[..n] && (n == |x| || x[n] < t[n]) && IsWellFormed(t)
    ensures !LexLess(Pad(t), x)
  {
    assert Pad(t)[..n] == t[..n] && Pad(t)[n] == t[n];
    NotAbove(Pad(t), x, n);
  }

  /** The character is replaced alone. */
  lemma NothingBelowCharacter(front: Units, c: Unit, x: Units)
    requires c > MIN_KEY_CHAR && IsValidKey(x) && LexLess(x, front + [c]) && IsWellFormed(front + [SkipDown(c - 1)])
    ensures !LexLess(Pad(front + [SkipDown(c - 1)]), x)
  {
    var d := SkipDown(c - 1);
    var t := front + [d];
    var i := LexPosition(x, front + [c]);
    assert x[..i] == t[..i];
    if i == |front| && i < |x| {
      SkipDownIsTight(c, x[i]);
    }
    if i == |front| && i < |x| && x[i] == d {
      assert x[..i + 1] == x[..i] + [d] == t;
      PaddingNotBelow(t, x, i + 1);
    } else {
      PrefixNotBelow(t, x, i);
    }
  }

  /** A high surrogate is followed by a low one, at most the largest. */
  lemma NothingBelowPair(front: Units, high: Unit, x: Units)
    requires IsHigh(high) && IsValidKey(x) && |front| < |x| && x[..|front|] == front && x[|front|] == high
    requires IsWellFormed(front + [high, LOW_END])
    ensures !LexLess(Pad(front + [high, LOW_END]), x)
  {
    var t, i := front + [high, LOW_END], |front|;
    PairAt(x, i);
    assert x[..i + 1] == x[..i] + [high] == t[..i + 1];
    if x[i + 1] == LOW_END {
      assert x[..i + 2] == x[..i + 1] + [LOW_END] == t;
      PaddingNotBelow(t, x, i + 2);
    } else {
      PrefixNotBelow(t, x, i + 1);
    }
  }

  /** The first character after the surrogates is replaced by the highest pair. */
  lemma NothingBelowSurrogates(front: Units, x: Units)
    requires IsWellFormed(front + [LOW_END + 1]) && IsValidKey(x) && LexLess(x, front + [LOW_END + 1])
    requires IsWellFormed(front + [HIGH_END, LOW_END])
    ensures !LexLess(Pad(front + [HIGH_END, LOW_END]), x)
  {
    var k, t := front + [LOW_END + 1], front + [HIGH_END, LOW_END];
    var i := LexPosition(x, k);
    assert x[..i] == k[..i] == t[..i];
    if i == |front| && i < |x| && x[i] == HIGH_END {
      assert x[..i] == front;
      NothingBelowPair(front, HIGH_END, x);
    } else {
      if i == |front| && i < |x| && x[i] > HIGH_END {
        PairAt(x, i);
        assert x[i - 1] == x[..i][i - 1] == k[..i][i - 1] == k[i - 1];
        PairAt(k, i - 1);
      }
      PrefixNotBelow(t, x, i);
    }
  }

  /** The borrow from a high surrogate. */
  lemma NothingBelowBorrow(front: Units, high: Unit, x: Units)
    requires IsHigh(high) && high != HIGH_START && IsValidKey(x) && LexLess(x, front + [high, LOW_START])
    requires IsWellFormed(front + [high - 1, LOW_END])
    ensures !LexLess(Pad(front + [high - 1, LOW_END]), x)
  {
    var t := front + [high - 1, LOW_END];
    var i := BelowPair(x, front, high);
    if i == |front| && i < |x| && x[i] == high - 1 {
      assert front[..i] == front;
      NothingBelowPair(front, high - 1, x);
    } else {
      assert x[..i] == t[..i];
      PrefixNotBelow(t, x, i);
    }
  }

  /** The lowest pair is replaced by the last character before the surrogates. */
  lemma NothingBelowFirstPair(front: Units, x: Units)
    requires IsValidKey(x) && LexLess(x, front + [HIGH_START, LOW_START]) && IsWellFormed(front + [HIGH_START - 1])
    ensures !LexLess(Pad(front + [HIGH_START - 1]), x)
  {
    var t := front + [HIGH_START - 1];
    var i := BelowPair(x, front, HIGH_START);
    assert x[..i] == t[..i];
    if i == |front| && i < |x| && x[i] == HIGH_START - 1 {
      assert x[..i + 1] == x[..i] + [HIGH_START - 1] == t;
      PaddingNotBelow(t, x, i + 1);
    } else {
      PrefixNotBelow(t, x, i);
    }
  }

  lemma NothingBelowStep(front: Units, c: Unit, x: Units)
    requires IsWellFormed(front + [c]) && c > MIN_KEY_CHAR && IsValidKey(x) && LexLess(x, front + [c])
    ensures !LexLess(Pad(StepDown(front, c)), x)
  {
    FrontIsWellFormed(front, c);
    var minusOne := SkipDown(c - 1);
    if minusOne == LOW_END {
      assert StepDown(front, c) == front + [HIGH_END, LOW_END];
      NothingBelowSurrogates(front, x);
    } else if minusOne == HIGH_END && front != [] {
      var f, high := front[..|front| - 1], front[|front| - 1];
      assert front + [c] == f + [high, LOW_START];
      if high == HIGH_START {
        assert StepDown(front, c) == f + [HIGH_START - 1];
        NothingBelowFirstPair(f, x);
      } else {
        assert StepDown(front, c) == f + [high - 1, LOW_END];
        NothingBelowBorrow(f, high, x);
      }
    } else {
      assert StepDown(front, c) == front + [minusOne];
      NothingBelowCharacter(front, c, x);
    }
  }

  lemma StepDownIsSmaller(front: Units, c: Unit)
    requires IsWellFormed(front + [c]) && c > MIN_KEY_CHAR
    ensures LexLess(Pad(StepDown(front, c)), front + [c])
  {
    FrontIsWellFormed(front, c);
    var k, t, n := front + [c], StepDown(front, c), |front|;
    if SkipDown(c - 1) == HIGH_END && front != [] {
      assert k[..n - 1] == front[..n - 1] == Pad(t)[..n - 1];
      LexAtPosition(Pad(t), k, n - 1);
    } else {
      assert k[..n] == front == Pad(t)[..n];
      LexAtPosition(Pad(t), k, n);
    }
  }

  /* ---------- keys that are no integers ---------- */

  /** The last character is the smallest, and what precedes it is an integer or nothing. */
  predicate LeavesInteger(k: Units)
    requires k != []
  {
    k[|k| - 1] == MIN_KEY_CHAR && (|k| == 1 || ParseInt(k[..|k| - 1]).Some?)
  }

  ghost predicate NothingBetween(a: Units, k: Units) {
    forall x :: IsValidKey(x) ==> !(KeyLess(a, x) && KeyLess(x, k))
  }

  lemma PrefixIsNoName(k: Units, n: nat)
    requires IsValidKey(k) && n <= |k|
    ensures k[..n] != MIN_NAME && k[..n] != MAX_NAME
  {
    assert !IsKeyChar(MIN_NAME[0]) && !IsKeyChar(MAX_NAME[0]);
    if n > 0 {
      assert k[..n][0] == k[0] && IsKeyChar(k[0]);
    }
  }

  /** The key before such a key is its beginning; nothing lies between them when that is no integer either. */
  lemma NothingBeforeEnd(k: Units)
    requires IsValidKey(k) && ParseInt(k).None? && k[|k| - 1] == MIN_KEY_CHAR && !LeavesInteger(k)
    ensures NothingBetween(Predecessor(k), k)
  {
    var front := k[..|k| - 1];
    assert Predecessor(k) == front && k == front + [MIN_KEY_CHAR];
    PrefixIsNoName(k, |k| - 1);
    ValidIsNoName(k);
    forall x | IsValidKey(x) ensures !(KeyLess(front, x) && KeyLess(x, k)) {
      ValidIsNoName(x);
      if LexLess(x, k) {
        GapAtEnd(front, x);
      }
    }
  }

  lemma NothingBeforeStep(k: Units)
    requires IsValidKey(k) && ParseInt(k).None? && k[|k| - 1] != MIN_KEY_CHAR
    ensures NothingBetween(Predecessor(k), k)
  {
    var front, c := k[..|k| - 1], k[|k| - 1];
    assert k == front + [c];
    StepDownFacts(k, front, c);
    ValidIsNoName(k);
    forall x | IsValidKey(x) ensures !(KeyLess(Predecessor(k), x) && KeyLess(x, k)) {
      ValidIsNoName(x);
      if LexLess(x, k) {
        NothingBelowStep(front, c, x);
      }
    }
  }

  /** After an integer come its longer spellings or, below the first key that is no integer, all larger integers. */
  lemma SomethingAfterInteger(k: Units) returns (x: Units)
    requires IsValidKey(k) && ParseInt(k).None? && LeavesInteger(k)
    ensures IsValidKey(x) && KeyLess(Predecessor(k), x) && KeyLess(x, k)
  {
    if |k| == 1 {
      x := LargestInteger(k);
    } else {
      x := SmallestAfterInteger(k);
    }
  }

  lemma LargestInteger(k: Units) returns (x: Units)
    requires IsValidKey(k) && ParseInt(k).None? && LeavesInteger(k) && |k| == 1
    ensures IsValidKey(x) && KeyLess(Predecessor(k), x) && KeyLess(x, k)
  {
    ValidIsNoName(k);
    NamesAreNotIntegers();
    ShowIntRoundTrip(INT32_MAX);
    PaddedInteger(INT32_MAX);
    x := [DIGIT_ZERO] + ShowInt(INT32_MAX);
    ValidIsNoName(x);
  }

  lemma SmallestAfterInteger(k: Units) returns (x: Units)
    requires IsValidKey(k) && ParseInt(k).None? && LeavesInteger(k) && |k| > 1
    ensures IsValidKey(x) && KeyLess(Predecessor(k), x) && KeyLess(x, k)
  {
    ValidIsNoName(k);
    NamesAreNotIntegers();
    var front := k[..|k| - 1];
    x := [MIN_KEY_CHAR];
    PrefixIsNoName(k, |k| - 1);
    NotAnInteger(x, 0);
    PlainIsWellFormed(x);
    ValidIsNoName(x);
    StartOfInteger(front);
    assert k[0] == front[0];
    LexAtPosition(x, k, 0);
  }

  lemma StartOfInteger(s: Units)
    requires ParseInt(s).Some?
    ensures s != [] && (IsDigit(s[0]) || s[0] == MINUS)
  {
  }

  lemma {:induction false} LeadingZero(s: Units)
    requires AllDigits(s)
    ensures AllDigits([DIGIT_ZERO] + s) && Decimal([DIGIT_ZERO] + s) == Decimal(s)
  {
    var t := [DIGIT_ZERO] + s;
    if s == [] {
      assert t[..0] == [];
    } else {
      assert t[..|t| - 1] == [DIGIT_ZERO] + s[..|s| - 1];
      LeadingZero(s[..|s| - 1]);
    }
  }

  /** A zero in front of a natural number of at most ten digits spells the same key value. */
  lemma PaddedInteger(n: nat)
    requires n <= INT32_MAX
    ensures var x := [DIGIT_ZERO] + ShowInt(n); IsValidKey(x) && ParseInt(x) == Some(n) && |x| > |ShowInt(n)|
  {
    var s := ShowNat(n);
    assert Pow10(5) == 100_000;
    assert Pow10(10) == 100_000 * Pow10(5);
    ShowNatLength(n, 9);
    ShowNatRoundTrip(n);
    LeadingZero(s);
    var x := [DIGIT_ZERO] + s;
    PlainIsWellFormed(x);
    assert Magnitude(x) == x;
  }

  /** For a key that is no integer, nothing lies between it and its predecessor exactly when none is left either. */
  lemma PredecessorExact(k: Units)
    requires IsValidKey(k) && ParseInt(k).None?
    ensures NothingBetween(Predecessor(k), k) <==> !LeavesInteger(k)
  {
    if LeavesInteger(k) {
      var x := SomethingAfterInteger(k);
    } else if k[|k| - 1] == MIN_KEY_CHAR {
      NothingBeforeEnd(k);
    } else {
      NothingBeforeStep(k);
    }
  }

  /* ---------- integers ---------- */

  /** Between an integer key and its predecessor lie the longer spellings of the one and the shorter ones of the other. */
  lemma KeysBeforeInteger(k: Units, x: Units)
    requires IsValidKey(k) && ParseInt(k).Some? && IsValidKey(x)
    ensures var n := ParseInt(k).value;
            KeyLess(Predecessor(k), x) && KeyLess(x, k)
            <==> n > INT32_MIN
                 && ((ParseInt(x) == Some(n - 1) && |x| > |ShowInt(n - 1)|) || (ParseInt(x) == Some(n) && |x| < |k|))
  {
    var n := ParseInt(k).value;
    ValidIsNoName(k);
    ValidIsNoName(x);
    NamesAreNotIntegers();
    if n > INT32_MIN {
      ShowIntRoundTrip(n - 1);
      BetweenSpellings(ShowInt(n - 1), x, k);
    } else if ParseInt(x) == Some(n) {
      ShowIntShortest(x);
      LeastIsLongest();
    }
  }

  lemma BetweenSpellings(a: Units, x: Units, k: Units)
    requires ParseInt(k).Some? && ParseInt(a) == Some(ParseInt(k).value - 1) && x != MIN_NAME && x != MAX_NAME
    ensures KeyLess(a, x) && KeyLess(x, k)
            <==> (ParseInt(x) == ParseInt(a) && |x| > |a|) || (ParseInt(x) == ParseInt(k) && |x| < |k|)
  {
    NamesAreNotIntegers();
  }

  lemma LeastIsLongest()
    ensures |ShowInt(INT32_MIN)| >= 11
  {
    var s := ShowNat(-INT32_MIN);
    ShowNatRoundTrip(-INT32_MIN);
    DecimalBound(s);
    assert Pow10(3) == 1000;
    assert Pow10(6) == 1000 * Pow10(3);
    assert Pow10(9) == 1000 * Pow10(6);
    if |s| < 10 {
      Pow10Monotone(|s|, 9);
    }
  }

  /** The predecessor of every valid key sorts before it. */
  lemma PredecessorIsSmaller(k: Units)
    requires IsValidKey(k)
    ensures KeyLess(Predecessor(k), k)
  {
    if ParseInt(k).Some? {
      IntegerBefore(k);
    } else if k[|k| - 1] != MIN_KEY_CHAR {
      StepBefore(k);
    } else {
      EndBefore(k);
    }
  }

  lemma IntegerBefore(k: Units)
    requires IsValidKey(k) && ParseInt(k).Some?
    ensures KeyLess(Predecessor(k), k)
  {
    var n := ParseInt(k).value;
    ValidIsNoName(k);
    NamesAreNotIntegers();
    if n > INT32_MIN {
      ShowIntRoundTrip(n - 1);
    }
  }

  lemma StepBefore(k: Units)
    requires IsValidKey(k) && ParseInt(k).None? && k[|k| - 1] != MIN_KEY_CHAR
    ensures KeyLess(Predecessor(k), k)
  {
    var front, c := k[..|k| - 1], k[|k| - 1];
    assert k == front + [c];
    ValidIsNoName(k);
    StepDownFacts(k, front, c);
    StepDownIsSmaller(front, c);
    LexTotal(Predecessor(k), k);
  }

  lemma EndBefore(k: Units)
    requires IsValidKey(k) && ParseInt(k).None? && k[|k| - 1] == MIN_KEY_CHAR
    ensures KeyLess(Predecessor(k), k)
  {
    ValidIsNoName(k);
    NamesAreNotIntegers();
    if |k| == 1 {
      ShowIntRoundTrip(INT32_MAX);
    } else {
      var front := k[..|k| - 1];
      assert Predecessor(k) == front && k[..|front|] == front;
      PrefixIsNoName(k, |k| - 1);
      LexAtPosition(front, k, |front|);
    }
  }
}
