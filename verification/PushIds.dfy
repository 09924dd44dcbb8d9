/**
 Push ids (FNextPushId.swift, `get`): eight characters for the time and twelve random ones, counted up
 within a millisecond. Read in base 64 an id is a number, and ids sort as keys the way their numbers do.
 */
module PushIds {
  import opened Keys
  import KeyNeighbours

  /** "-0123456789ABCDEFGHIJKLMNOPQRSTUVWXYZ_abcdefghijklmnopqrstuvwxyz" */
  const PUSH_CHARS: Units := [0x2D] + Range(0x30, 10) + Range(0x41, 26) + [0x5F] + Range(0x61, 26)

  /** `n` consecutive characters. */
  function Range(first: Unit, n: nat): (s: Units)
    requires first as int + n <= 0x1_0000
    ensures |s| == n && forall i :: 0 <= i < n ==> s[i] as int == first as int + i
  {
    seq(n, i requires 0 <= i < n => (first as int + i) as Unit)
  }

  const TIME_LIMIT: nat := 0x1_0000_0000_0000

  lemma PushCharsIncrease()
    ensures |PUSH_CHARS| == 64
    ensures forall i, j :: 0 <= i < j < 64 ==> PUSH_CHARS[i] < PUSH_CHARS[j]
  {
  }

  /** A dash, a digit, a letter or an underscore. */
  predicate IsPushChar(c: Unit) {
    c == 0x2D || 0x30 <= c <= 0x39 || 0x41 <= c <= 0x5A || c == 0x5F || 0x61 <= c <= 0x7A
  }

  /** The alphabet has these characters and no others. */
  lemma PushCharsAre(c: Unit)
    ensures c in PUSH_CHARS <==> IsPushChar(c)
  {
    if 0x30 <= c <= 0x39 {
      assert PUSH_CHARS[1 + (c as int - 0x30)] == c;
    } else if 0x41 <= c <= 0x5A {
      assert PUSH_CHARS[11 + (c as int - 0x41)] == c;
    } else if c == 0x5F {
      assert PUSH_CHARS[37] == c;
    } else if 0x61 <= c <= 0x7A {
      assert PUSH_CHARS[38 + (c as int - 0x61)] == c;
    } else if c == 0x2D {
      assert PUSH_CHARS[0] == c;
    }
  }

  newtype Digit = d: int | 0 <= d < 64

  type Digits = seq<Digit>

  function Encode(ds: Digits): (s: Units)
    ensures |s| == |ds|
  {
    PushCharsIncrease();
    seq(|ds|, i requires 0 <= i < |ds| => PUSH_CHARS[ds[i] as int])
  }

  /** The number spelled by the digits, most significant first. */
  function Value(ds: Digits): nat {
    if ds == [] then 0 else Value(ds[..|ds| - 1]) * 64 + ds[|ds| - 1] as int
  }

  function Pow64(n: nat): (p: nat)
    ensures p > 0
  {
    if n == 0 then 1 else 64 * Pow64(n - 1)
  }

  /** The last `len` digits of a number. */
  function ToDigits(n: nat, len: nat): (ds: Digits)
    ensures |ds| == len
  {
    if len == 0 then [] else ToDigits(n / 64, len - 1) + [(n % 64) as Digit]
  }

  predicate Exhausted(rand: Digits) {
    forall i :: 0 <= i < |rand| ==> rand[i] == 63
  }

  /** Counting up with carry; from all digits 63 the counter wraps around to one in the first digit. */
  function Next(rand: Digits): (r: Digits)
    ensures |r| == |rand|
  {
    if rand == [] then []
    else
      var last := |rand| - 1;
      if rand[last] < 63 then rand[last := rand[last] + 1]
      else if last == 0 then [1]
      else Next(rand[..last]) + [0]
  }

  /** The one case in which counting up does not add one: the digits start over from the first one being one. */
  lemma {:induction false} ExhaustedStartsOver(rand: Digits)
    requires rand != [] && Exhausted(rand)
    ensures Next(rand)[0] == 1 && forall i :: 0 < i < |rand| ==> Next(rand)[i] == 0
  {
    if |rand| > 1 {
      ExhaustedStartsOver(rand[..|rand| - 1]);
    }
  }

  function IdOf(now: nat, rand: Digits): Units {
    Encode(ToDigits(now, 8) + rand)
  }

  /** Every push id is a valid key of twenty characters of the alphabet. */
  lemma IdsAreKeys(now: nat, rand: Digits)
    requires |rand| == 12
    ensures |IdOf(now, rand)| == 20 && KeyNeighbours.IsValidKey(IdOf(now, rand))
    ensures forall i :: 0 <= i < 20 ==> IsPushChar(IdOf(now, rand)[i])
  {
    var id := IdOf(now, rand);
    forall i | 0 <= i < 20 ensures IsPushChar(id[i]) {
      PushCharsIncrease();
      assert id[i] in PUSH_CHARS;
      PushCharsAre(id[i]);
    }
    PlainCharsAreKeys(id);
  }

  lemma PlainCharsAreKeys(s: Units)
    requires 1 <= |s| <= 768 && forall i :: 0 <= i < |s| ==> IsPushChar(s[i])
    ensures KeyNeighbours.IsValidKey(s)
  {
    forall i | 0 <= i < |s| ensures KeyNeighbours.IsPairedAt(s, i) && KeyNeighbours.IsKeyChar(s[i]) {
      assert IsPushChar(s[i]);
    }
  }

  /** The generator: the time of the last id and its random digits, updated in place. */
  class NextPushId {
    var lastPushTime: int
    const lastRandChars: array<Digit>

    constructor ()
      ensures lastPushTime == 0 && Rand() == [0, 0, 0, 0, 0, 0, 0, 0, 0, 0, 0, 0] && fresh(lastRandChars)
    {
      lastPushTime := 0;
      lastRandChars := new Digit[12](i => 0);
    }

    function Rand(): Digits
      reads this, lastRandChars
    {
      lastRandChars[..]
    }

    /** The digits drawn after a new millisecond are arbitrary. */
    method Get(currentTime: nat) returns (id: Units)
      requires lastRandChars.Length == 12
      modifies this, lastRandChars
      ensures lastPushTime == currentTime
      ensures old(lastPushTime) == currentTime ==> Rand() == Next(old(Rand()))
      ensures id == IdOf(currentTime, Rand())
    {
      var now := currentTime;
      var duplicateTime := now == lastPushTime;
      lastPushTime := now;
      var timeStampDigits: Digits := [];
      for k := 0 to 8
        invariant ToDigits(currentTime, 8) == ToDigits(now, 8 - k) + timeStampDigits
      {
        ghost var t := timeStampDigits;
        timeStampDigits := [(now % 64) as Digit] + timeStampDigits;
        assert ToDigits(now, 8 - k) + t == ToDigits(now / 64, 8 - k - 1) + timeStampDigits;
        now := now / 64;
      }
      assert ToDigits(now, 0) + timeStampDigits == timeStampDigits;
      if !duplicateTime {
        var i := 12;
        while i > 0
          invariant 0 <= i <= 12
          modifies lastRandChars
        {
          i := i - 1;
          var draw: Digit := *;
          lastRandChars[i] := draw;
        }
      } else {
        CountUp();
      }
      id := Encode(timeStampDigits + lastRandChars[..]);
    }

    method CountUp()
      requires lastRandChars.Length == 12
      modifies lastRandChars
      ensures Rand() == Next(old(Rand()))
    {
      ghost var before := lastRandChars[..];
      var i := 12;
      var j := 0;
      while i > 0
        invariant 0 <= i <= 12 && (i < 12 ==> j == i) && (i == 12 ==> lastRandChars[..] == before)
        invariant forall k :: 0 <= k < i ==> lastRandChars[k] == before[k]
        invariant forall k :: i <= k < 12 ==> lastRandChars[k] == 0 && before[k] == 63
      {
        i := i - 1;
        j := i;
        if lastRandChars[i] != 63 {
          CarryStops(before, j);
          lastRandChars[j] := lastRandChars[j] + 1;
          assert lastRandChars[..] == before[..j] + [before[j] + 1] + Zeros(12 - j - 1);
          return;
        }
        lastRandChars[i] := 0;
      }
      CarryNeverStops(before);
      lastRandChars[j] := lastRandChars[j] + 1;
      assert lastRandChars[..] == [1] + Zeros(11);
    }
  }

  function Zeros(n: nat): (z: Digits)
    ensures |z| == n && forall i :: 0 <= i < n ==> z[i] == 0
  {
    seq(n, i => 0)
  }

  lemma {:induction false} CarryStops(rand: Digits, j: nat)
    requires j < |rand| && rand[j] < 63 && forall k :: j < k < |rand| ==> rand[k] == 63
    ensures Next(rand) == rand[..j] + [rand[j] + 1] + Zeros(|rand| - j - 1)
    decreases |rand|
  {
    var last := |rand| - 1;
    if j < last {
      CarryStops(rand[..last], j);
      assert rand[..last][..j] == rand[..j];
      assert Zeros(last - j - 1) + [0] == Zeros(last - j);
      assert rand[..j] + [rand[j] + 1] + Zeros(last - j - 1) + [0] == rand[..j] + [rand[j] + 1] + Zeros(last - j);
    }
  }

  lemma {:induction false} CarryNeverStops(rand: Digits)
    requires rand != [] && Exhausted(rand)
    ensures Next(rand) == [1] + Zeros(|rand| - 1)
    decreases |rand|
  {
    var last := |rand| - 1;
    if last > 0 {
      CarryNeverStops(rand[..last]);
      assert [1] + Zeros(last - 1) + [0] == [1] + Zeros(last);
    }
  }

  /* ---------- numbers ---------- */

  /** Unless every digit is 63, counting up adds exactly one. */
  lemma {:induction false} NextAddsOne(rand: Digits)
    requires !Exhausted(rand)
    ensures Value(Next(rand)) == Value(rand) + 1
    decreases |rand|
  {
    var last := |rand| - 1;
    var next := Next(rand);
    if rand[last] < 63 {
      assert next[..last] == rand[..last];
    } else {
      NextAddsOne(rand[..last]);
      assert next[..last] == Next(rand[..last]);
    }
  }

  lemma {:induction false} ValueBelow(ds: Digits)
    ensures Value(ds) < Pow64(|ds|)
    decreases |ds|
  {
    if ds != [] {
      ValueBelow(ds[..|ds| - 1]);
    }
  }

  lemma {:induction false} ExhaustedIsLargest(rand: Digits)
    requires Exhausted(rand)
    ensures Value(rand) == Pow64(|rand|) - 1
    decreases |rand|
  {
    if rand != [] {
      ExhaustedIsLargest(rand[..|rand| - 1]);
    }
  }

  lemma {:induction false} ValueOfDigits(n: nat, len: nat)
    requires n < Pow64(len)
    ensures Value(ToDigits(n, len)) == n
  {
    if len > 0 {
      DivideBound(n, Pow64(len - 1));
      ValueOfDigits(n / 64, len - 1);
      assert ToDigits(n, len)[..len - 1] == ToDigits(n / 64, len - 1);
    }
  }

  lemma DivideBound(n: nat, p: nat)
    requires n < 64 * p
    ensures n / 64 < p
  {
  }

  lemma {:induction false} ValueOfTwo(a: Digits, b: Digits)
    ensures Value(a + b) == Value(a) * Pow64(|b|) + Value(b)
    decreases |b|
  {
    if b == [] {
      assert a + b == a;
    } else {
      var n := |b| - 1;
      assert (a + b)[..|a + b| - 1] == a + b[..n];
      ValueOfTwo(a, b[..n]);
      ShiftSum(Value(a), Pow64(n), Value(b[..n]));
    }
  }

  lemma ShiftSum(v: nat, p: nat, w: nat)
    ensures (v * p + w) * 64 == v * (64 * p) + w * 64
  {
  }

  lemma {:induction false} ValueInjective(a: Digits, b: Digits)
    requires |a| == |b| && Value(a) == Value(b)
    ensures a == b
    decreases |a|
  {
    if a != [] {
      var n := |a| - 1;
      assert Value(a[..n]) == Value(b[..n]) && a[n] == b[n];
      ValueInjective(a[..n], b[..n]);
      assert a == a[..n] + [a[n]] && b == b[..n] + [b[n]];
    }
  }

  /* ---------- ids sort like their numbers ---------- */

  lemma {:induction false} FirstDifference(a: Digits, b: Digits) returns (i: nat)
    requires |a| == |b| && Value(a) < Value(b)
    ensures i < |a| && a[..i] == b[..i] && a[i] < b[i]
    decreases |a|
  {
    var n := |a| - 1;
    if Value(a[..n]) < Value(b[..n]) {
      i := FirstDifference(a[..n], b[..n]);
      assert a[..n][..i] == a[..i] && b[..n][..i] == b[..i];
    } else {
      assert Value(a[..n]) == Value(b[..n]);
      ValueInjective(a[..n], b[..n]);
      i := n;
    }
  }

  lemma SmallerSortsFirst(a: Digits, b: Digits)
    requires |a| == |b| && Value(a) < Value(b)
    ensures LexLess(Encode(a), Encode(b))
  {
    var i := FirstDifference(a, b);
    PushCharsIncrease();
    var s, t := Encode(a), Encode(b);
    forall k | 0 <= k < i ensures s[k] == t[k] {
      assert a[k] == a[..i][k] == b[..i][k] == b[k];
    }
    assert s[..i] == t[..i] && s[i] < t[i];
    LexAtPosition(s, t, i);
  }

  /** Digit strings of one length sort like numbers; as keys too, once they are too long for integers. */
  lemma IdsSortLikeNumbers(a: Digits, b: Digits)
    requires |a| == |b|
    ensures LexLess(Encode(a), Encode(b)) <==> Value(a) < Value(b)
    ensures |a| > 11 ==> (KeyLess(Encode(a), Encode(b)) <==> Value(a) < Value(b))
  {
    LexTotal(Encode(a), Encode(b));
    if Value(a) < Value(b) {
      SmallerSortsFirst(a, b);
    } else if Value(b) < Value(a) {
      SmallerSortsFirst(b, a);
    } else {
      ValueInjective(a, b);
    }
  }

  lemma Pow64Facts()
    ensures Pow64(8) == TIME_LIMIT
  {
    assert Pow64(2) == 4096;
    assert Pow64(4) == 4096 * Pow64(2);
    assert Pow64(8) == 4096 * (4096 * Pow64(4));
  }

  lemma IdNumber(now: nat, rand: Digits)
    requires now < TIME_LIMIT && |rand| == 12
    ensures Value(ToDigits(now, 8) + rand) == now * Pow64(12) + Value(rand)
  {
    Pow64Facts();
    ValueOfDigits(now, 8);
    ValueOfTwo(ToDigits(now, 8), rand);
  }

  /** The first eight characters of an id determine its time, and a later time gives a larger id. */
  lemma TimeIsEncoded(now: nat, rand: Digits, later: nat, other: Digits)
    requires now < TIME_LIMIT && later < TIME_LIMIT && |rand| == |other| == 12
    ensures IdOf(now, rand)[..8] == IdOf(later, other)[..8] <==> now == later
    ensures now < later ==> KeyLess(IdOf(now, rand), IdOf(later, other))
  {
    if now < later {
      LaterTimeIsLarger(now, rand, later, other);
    }
    var a, b := ToDigits(now, 8), ToDigits(later, 8);
    PushCharsIncrease();
    assert Encode(a + rand)[..8] == Encode(a) && Encode(b + other)[..8] == Encode(b);
    if Encode(a) == Encode(b) {
      forall i | 0 <= i < 8 ensures a[i] == b[i] {
        assert Encode(a)[i] == Encode(b)[i];
      }
      assert a == b;
      Pow64Facts();
      ValueOfDigits(now, 8);
      ValueOfDigits(later, 8);
    }
  }

  lemma LaterTimeIsLarger(now: nat, rand: Digits, later: nat, other: Digits)
    requires now < later < TIME_LIMIT && |rand| == |other| == 12
    ensures KeyLess(IdOf(now, rand), IdOf(later, other))
  {
    IdsSortLikeNumbers(ToDigits(now, 8) + rand, ToDigits(later, 8) + other);
    IdNumber(now, rand);
    IdNumber(later, other);
    ValueBelow(rand);
    ValueBelow(other);
    TimeDominates(now, later, Pow64(12), Value(rand), Value(other));
  }

  /* ---------- runs ---------- */

  datatype PushState = PushState(time: nat, rand: Digits) {
    function Id(): Units {
      IdOf(time, rand)
    }
  }

  predicate ValidState(s: PushState) {
    s.time < TIME_LIMIT && |s.rand| == 12
  }

  /** What `Get` may do from one state to the next. */
  predicate Step(s: PushState, next: PushState) {
    next.time == s.time ==> next.rand == Next(s.rand)
  }

  /** Two ids in a row: increasing exactly when time moved on, or stood still with the counter not exhausted. */
  lemma NextIdIsLarger(s: PushState, next: PushState)
    requires ValidState(s) && ValidState(next) && Step(s, next)
    ensures KeyLess(s.Id(), next.Id()) <==> s.time < next.time || (s.time == next.time && !Exhausted(s.rand))
  {
    var a, b := ToDigits(s.time, 8) + s.rand, ToDigits(next.time, 8) + next.rand;
    IdsSortLikeNumbers(a, b);
    IdNumber(s.time, s.rand);
    IdNumber(next.time, next.rand);
    ValueBelow(s.rand);
    ValueBelow(next.rand);
    if s.time == next.time {
      if Exhausted(s.rand) {
        ExhaustedIsLargest(s.rand);
      } else {
        NextAddsOne(s.rand);
      }
    } else {
      TimeDominates(s.time, next.time, Pow64(12), Value(s.rand), Value(next.rand));
    }
  }

  lemma TimeDominates(m: nat, n: nat, p: nat, x: nat, y: nat)
    requires x < p && y < p && m != n
    ensures m * p + x < n * p + y <==> m < n
  {
    if m < n {
      assert (m + 1) * p <= n * p;
    } else {
      assert (n + 1) * p <= m * p;
    }
  }

  ghost predicate IsRun(states: seq<PushState>) {
    && (forall i :: 0 <= i < |states| ==> ValidState(states[i]))
    && (forall i :: 0 <= i < |states| - 1 ==> Step(states[i], states[i + 1]))
  }

  /** Time never goes back, and no call of the same millisecond finds the counter exhausted. */
  ghost predicate Orderly(states: seq<PushState>) {
    forall i :: 0 <= i < |states| - 1 ==>
      states[i].time < states[i + 1].time || (states[i].time == states[i + 1].time && !Exhausted(states[i].rand))
  }

  ghost predicate IdsIncrease(states: seq<PushState>) {
    forall i, j :: 0 <= i < j < |states| ==> KeyLess(states[i].Id(), states[j].Id())
  }

  /** In every run the ids are strictly increasing exactly when the run is orderly. */
  lemma {:induction false} RunIsIncreasing(states: seq<PushState>)
    requires IsRun(states)
    ensures IdsIncrease(states) <==> Orderly(states)
  {
    if IdsIncrease(states) {
      forall i | 0 <= i < |states| - 1
        ensures states[i].time < states[i + 1].time || (states[i].time == states[i + 1].time && !Exhausted(states[i].rand))
      {
        NextIdIsLarger(states[i], states[i + 1]);
      }
    }
    if Orderly(states) {
      forall i, j | 0 <= i < j < |states| ensures KeyLess(states[i].Id(), states[j].Id()) {
        LaterIsLarger(states, i, j);
      }
    }
  }

  lemma {:induction false} LaterIsLarger(states: seq<PushState>, i: nat, j: nat)
    requires IsRun(states) && Orderly(states) && i < j < |states|
    ensures KeyLess(states[i].Id(), states[j].Id())
    decreases j
  {
    NextIdIsLarger(states[j - 1], states[j - 1 + 1]);
    if i < j - 1 {
      LaterIsLarger(states, i, j - 1);
      CompareKeyTransitive(states[i].Id(), states[j - 1].Id(), states[j].Id());
    }
  }
}
