/**
 Websocket framing (FWebSocketConnection.swift): long messages are sent in chunks after a frame that
 counts them, and put together again by the receiver. Decoding JSON is a parameter: the receiver hands
 a text on only if it is an object.
 */
module Framing {
  import opened Options
  import opened Lists

  const MAX_FRAME_SIZE: nat := 16384

  /* ---------- numbers as text ---------- */

  predicate IsDigitChar(c: char) {
    '0' <= c <= '9'
  }

  function DigitOf(d: nat): (c: char)
    requires d < 10
    ensures IsDigitChar(c) && c as int - '0' as int == d
  {
    ('0' as int + d) as char
  }

  /** The decimal text of a number. */
  function Show(n: nat): (s: string)
    ensures s != "" && AllDigitChars(s)
  {
    if n < 10 then [DigitOf(n)] else Show(n / 10) + [DigitOf(n % 10)]
  }

  predicate AllDigitChars(s: string) {
    forall i :: 0 <= i < |s| ==> IsDigitChar(s[i])
  }

  function Digits(s: string): nat
    requires AllDigitChars(s)
  {
    if s == "" then 0
    else
      assert IsDigitChar(s[|s| - 1]);
      Digits(s[..|s| - 1]) * 10 + (s[|s| - 1] as int - '0' as int)
  }

  /** Reading a number: an optional sign and at least one digit. */
  function ToInt(s: string): Option<int> {
    var digits := if s != "" && (s[0] == '-' || s[0] == '+') then s[1..] else s;
    if digits == "" || !AllDigitChars(digits) then None
    else if s[0] == '-' then Some(0 - Digits(digits))
    else Some(Digits(digits))
  }

  /* ---------- sending ---------- */

  function Chunks(s: string, length: nat): (chunks: seq<string>)
    requires length > 0
  {
    if s == "" then []
    else if |s| <= length then [s]
    else [s[..length]] + Chunks(s[length..], length)
  }

  method Split(s: string, length: nat) returns (results: seq<string>)
    requires length > 0
    ensures results == Chunks(s, length)
  {
    var startIndex := 0;
    results := [];
    while startIndex < |s|
      invariant 0 <= startIndex <= |s|
      invariant results + Chunks(s[startIndex..], length) == Chunks(s, length)
    {
      var endIndex := if startIndex + length <= |s| then startIndex + length else |s|;
      ghost var rest := s[startIndex..];
      assert s[startIndex..endIndex] == rest[..endIndex - startIndex];
      assert s[endIndex..] == rest[endIndex - startIndex..];
      ChunksStep(rest, length, endIndex - startIndex);
      results := results + [s[startIndex..endIndex]];
      startIndex := endIndex;
    }
  }

  lemma ChunksStep(s: string, length: nat, n: nat)
    requires length > 0 && s != "" && n == (if length <= |s| then length else |s|)
    ensures Chunks(s, length) == [s[..n]] + Chunks(s[n..], length)
  {
    if |s| <= length {
      assert s[..n] == s && s[n..] == "";
    }
  }

  /** The frames of one message: its chunks, after their number if there are several. */
  function Frames(message: string): seq<string> {
    var chunks := Chunks(message, MAX_FRAME_SIZE);
    if |chunks| > 1 then [Show(|chunks|)] + chunks else chunks
  }

  method Send(message: string) returns (frames: seq<string>)
    ensures frames == Frames(message)
  {
    var chunks := Split(message, MAX_FRAME_SIZE);
    frames := [];
    if |chunks| > 1 {
      frames := frames + [Show(|chunks|)];
    }
    ghost var header := frames;
    for i := 0 to |chunks|
      invariant frames == header + chunks[..i]
    {
      frames := frames + [chunks[i]];
    }
  }

  /* ---------- receiving ---------- */

  datatype Receiver = Receiver(frame: Option<string>, totalFrames: int, delivered: seq<string>)

  function Idle(delivered: seq<string>): Receiver {
    Receiver(None, 0, delivered)
  }

  /** The receiver after appending a frame; a complete text is delivered if it is an object. */
  function Appended(r: Receiver, message: string, isObject: string -> bool): Receiver {
    var combined := (if r.frame.Some? then r.frame.value else "") + message;
    if r.totalFrames - 1 == 0 then
      Receiver(None, 0, if isObject(combined) then r.delivered + [combined] else r.delivered)
    else Receiver(Some(combined), r.totalFrames - 1, r.delivered)
  }

  /** Outside a message, a short positive number announces that many frames; anything else is a message of one frame. */
  function Receive(r: Receiver, message: string, isObject: string -> bool): Receiver {
    if r.frame.Some? then Appended(r, message, isObject)
    else if |message| <= 4 && ToInt(message).Some? && ToInt(message).value > 0 then
      Receiver(Some(""), ToInt(message).value, r.delivered)
    else Appended(Receiver(Some(""), 1, r.delivered), message, isObject)
  }

  class WebSocketConnection {
    var totalFrames: int
    var frame: Option<string>
    var delivered: seq<string>
    const isObject: string -> bool

    constructor (isObject: string -> bool)
      ensures this.isObject == isObject && State() == Idle([])
    {
      this.isObject := isObject;
      totalFrames, frame, delivered := 0, None, [];
    }

    function State(): Receiver
      reads this
    {
      Receiver(frame, totalFrames, delivered)
    }

    method AppendFrame(message: string)
      modifies this
      ensures State() == Appended(old(State()), message, isObject)
    {
      var combined := (if frame.Some? then frame.value else "") + message;
      frame := Some(combined);
      totalFrames := totalFrames - 1;
      if totalFrames == 0 {
        if isObject(combined) {
          delivered := delivered + [combined];
        }
        frame := None;
      }
    }

    method HandleNewFrameCount(count: int)
      modifies this
      ensures State() == Receiver(Some(""), count, old(delivered))
    {
      totalFrames := count;
      frame := Some("");
    }

    method ExtractFrameCount(message: string) returns (remaining: Option<string>)
      modifies this
      ensures |message| <= 4 && ToInt(message).Some? && ToInt(message).value > 0 ==>
                remaining == None && State() == Receiver(Some(""), ToInt(message).value, old(delivered))
      ensures !(|message| <= 4 && ToInt(message).Some? && ToInt(message).value > 0) ==>
                remaining == Some(message) && State() == Receiver(Some(""), 1, old(delivered))
    {
      if |message| <= 4 {
        var parsed := ToInt(message);
        var frameCount := if parsed.Some? then parsed.value else 0;
        if frameCount > 0 {
          HandleNewFrameCount(frameCount);
          return None;
        }
      }
      HandleNewFrameCount(1);
      return Some(message);
    }

    method HandleIncomingFrame(message: string)
      modifies this
      ensures State() == Receive(old(State()), message, isObject)
    {
      if frame.Some? {
        AppendFrame(message);
      } else {
        var remaining := ExtractFrameCount(message);
        if remaining.Some? {
          AppendFrame(remaining.value);
        }
      }
    }
  }

  function ReceiveAll(r: Receiver, frames: seq<string>, isObject: string -> bool): Receiver
    decreases |frames|
  {
    if frames == [] then r else ReceiveAll(Receive(r, frames[0], isObject), frames[1..], isObject)
  }

  /* ---------- the round trip ---------- */

  lemma {:induction false} ReceiveInSteps(r: Receiver, a: seq<string>, b: seq<string>, isObject: string -> bool)
    ensures ReceiveAll(r, a + b, isObject) == ReceiveAll(ReceiveAll(r, a, isObject), b, isObject)
    decreases |a|
  {
    if a == [] {
      assert a + b == b;
    } else {
      assert (a + b)[0] == a[0] && (a + b)[1..] == a[1..] + b;
      ReceiveInSteps(Receive(r, a[0], isObject), a[1..], b, isObject);
    }
  }

  lemma {:induction false} ShowRoundTrip(n: nat)
    ensures Digits(Show(n)) == n
    ensures ToInt(Show(n)) == Some(n)
  {
    if n >= 10 {
      ShowRoundTrip(n / 10);
      assert Show(n)[..|Show(n)| - 1] == Show(n / 10);
    } else {
      assert Show(n)[..0] == "";
    }
    assert IsDigitChar(Show(n)[0]);
  }

  /** Numbers up to 9999 take at most four characters. */
  lemma ShowLength(n: nat)
    ensures |Show(n)| <= 4 <==> n <= 9999
  {
    if n >= 10 {
      ShowShort(n / 10);
    }
  }

  lemma ShowShort(n: nat)
    ensures |Show(n)| <= 3 <==> n <= 999
  {
    if n >= 10 {
      assert |Show(n / 10)| <= 2 <==> n / 10 <= 99 by {
        if n / 10 >= 10 {
          assert |Show(n / 10 / 10)| <= 1 <==> n / 10 / 10 <= 9;
        }
      }
    }
  }

  lemma {:induction false} ChunksJoin(s: string, length: nat)
    requires length > 0
    ensures Concat(Chunks(s, length)) == s
    ensures s != "" ==> |Chunks(s, length)| > 0 && Chunks(s, length)[0] != "" && Chunks(s, length)[0][0] == s[0]
    ensures |Chunks(s, length)| <= 1 <==> |s| <= length
    ensures forall i :: 0 <= i < |Chunks(s, length)| ==> |Chunks(s, length)[i]| <= length
    ensures forall i :: 0 <= i < |Chunks(s, length)| - 1 ==> |Chunks(s, length)[i]| == length
    decreases |s|
  {
    if s != "" {
      if |s| <= length {
        assert Chunks(s, length) == [s];
        ConcatOne(s);
      } else {
        ChunksJoin(s[length..], length);
        assert s[..length] + s[length..] == s;
        assert Chunks(s, length)[1..] == Chunks(s[length..], length);
      }
    }
  }

  /** Inside a message, the announced number of frames is joined and delivered. */
  lemma {:induction false} ReceiveChunks(text: string, chunks: seq<string>, delivered: seq<string>, isObject: string -> bool)
    requires chunks != []
    ensures var whole := text + Concat(chunks);
            ReceiveAll(Receiver(Some(text), |chunks|, delivered), chunks, isObject)
            == Idle(if isObject(whole) then delivered + [whole] else delivered)
    decreases |chunks|
  {
    var r := Receiver(Some(text), |chunks|, delivered);
    assert text + chunks[0] + Concat(chunks[1..]) == text + Concat(chunks);
    if |chunks| == 1 {
      assert chunks[1..] == [];
      assert Concat(chunks[1..]) == "";
      assert text + chunks[0] == text + Concat(chunks);
    } else {
      ReceiveChunks(text + chunks[0], chunks[1..], delivered, isObject);
    }
  }

  predicate IsMessage(m: string, isObject: string -> bool) {
    m != "" && m[0] == '{' && isObject(m)
  }

  lemma MessageIsNoNumber(s: string)
    requires s != "" && s[0] == '{'
    ensures ToInt(s) == None
  {
    assert 0 <= 0 < |s| && !IsDigitChar(s[0]);
  }

  /** One message of at most 9999 chunks is delivered whole. */
  lemma MessageArrives(m: string, delivered: seq<string>, isObject: string -> bool)
    requires IsMessage(m, isObject) && |Chunks(m, MAX_FRAME_SIZE)| <= 9999
    ensures ReceiveAll(Idle(delivered), Frames(m), isObject) == Idle(delivered + [m])
  {
    var chunks := Chunks(m, MAX_FRAME_SIZE);
    ChunksJoin(m, MAX_FRAME_SIZE);
    if |chunks| > 1 {
      ShowRoundTrip(|chunks|);
      ShowLength(|chunks|);
      assert ([Show(|chunks|)] + chunks)[1..] == chunks;
      ReceiveChunks("", chunks, delivered, isObject);
      assert "" + Concat(chunks) == m;
    } else {
      assert chunks == [m];
      MessageIsNoNumber(m);
      assert [m][1..] == [] && "" + m == m;
    }
  }

  /** What goes over the wire: messages, and keepalives between them. */
  datatype Event = Message(text: string) | KeepAlive

  function FramesOf(e: Event): seq<string> {
    match e
    case Message(m) => Frames(m)
    case KeepAlive => ["0"]
  }

  function TextOf(e: Event): seq<string> {
    match e
    case Message(m) => [m]
    case KeepAlive => []
  }

  function Wire(events: seq<Event>): seq<string> {
    if events == [] then [] else FramesOf(events[0]) + Wire(events[1..])
  }

  function Texts(events: seq<Event>): seq<string> {
    if events == [] then [] else TextOf(events[0]) + Texts(events[1..])
  }

  predicate FitsFraming(e: Event, isObject: string -> bool) {
    e.Message? ==> IsMessage(e.text, isObject) && |Chunks(e.text, MAX_FRAME_SIZE)| <= 9999
  }

  lemma EventArrives(e: Event, delivered: seq<string>, isObject: string -> bool)
    requires !isObject("0") && FitsFraming(e, isObject)
    ensures ReceiveAll(Idle(delivered), FramesOf(e), isObject) == Idle(delivered + TextOf(e))
  {
    match e {
      case Message(m) => MessageArrives(m, delivered, isObject);
      case KeepAlive =>
        KeepAliveIgnored(delivered, isObject);
        assert delivered + [] == delivered;
    }
  }

  /** Every message arrives whole and in order, whatever keepalives come between. */
  lemma {:induction false} FramingRoundTrip(events: seq<Event>, delivered: seq<string>, isObject: string -> bool)
    requires !isObject("0") && forall i :: 0 <= i < |events| ==> FitsFraming(events[i], isObject)
    ensures ReceiveAll(Idle(delivered), Wire(events), isObject) == Idle(delivered + Texts(events))
    decreases |events|
  {
    if events == [] {
      assert delivered + [] == delivered;
    } else {
      ReceiveInSteps(Idle(delivered), FramesOf(events[0]), Wire(events[1..]), isObject);
      EventArrives(events[0], delivered, isObject);
      FramingRoundTrip(events[1..], delivered + TextOf(events[0]), isObject);
      Associative(delivered, TextOf(events[0]), Texts(events[1..]));
    }
  }

  lemma ZeroIsANumber()
    ensures ToInt("0") == Some(0)
  {
    ShowRoundTrip(0);
  }

  /** A text that reads as zero announces nothing; it is a message of one frame. */
  lemma ZeroIsAMessage(delivered: seq<string>, text: string, isObject: string -> bool)
    requires ToInt(text) == Some(0) && !isObject(text)
    ensures Receive(Idle(delivered), text, isObject) == Idle(delivered)
  {
    assert "" + text == text;
  }

  lemma ReceiveOne(r: Receiver, frame: string, isObject: string -> bool)
    ensures ReceiveAll(r, [frame], isObject) == Receive(r, frame, isObject)
  {
    assert [frame][1..] == [];
  }

  lemma KeepAliveIgnored(delivered: seq<string>, isObject: string -> bool)
    requires !isObject("0")
    ensures ReceiveAll(Idle(delivered), ["0"], isObject) == Idle(delivered)
  {
    ZeroIsANumber();
    ReceiveOne(Idle(delivered), "0", isObject);
    ZeroIsAMessage(delivered, "0", isObject);
  }

  /* ---------- the limit ---------- */

  predicate AtMost(texts: seq<string>, limit: nat) {
    forall i :: 0 <= i < |texts| ==> |texts[i]| <= limit
  }

  /** Outside a message, a long frame is a message of its own. */
  lemma LooseFrame(frame: string, delivered: seq<string>, isObject: string -> bool, limit: nat)
    requires |frame| <= limit && AtMost(delivered, limit)
    ensures AtMost(Receive(Idle(delivered), frame, isObject).delivered, limit)
    ensures |frame| > 4 ==> Receive(Idle(delivered), frame, isObject) == Idle(Receive(Idle(delivered), frame, isObject).delivered)
  {
    assert "" + frame == frame;
  }

  /** Loose frames, of which only the last may announce anything, never deliver a text longer than a frame. */
  lemma {:induction false} LooseFrames(frames: seq<string>, delivered: seq<string>, isObject: string -> bool, limit: nat)
    requires AtMost(frames, limit) && AtMost(delivered, limit)
    requires forall i :: 0 <= i < |frames| - 1 ==> |frames[i]| > 4
    ensures AtMost(ReceiveAll(Idle(delivered), frames, isObject).delivered, limit)
    decreases |frames|
  {
    if frames != [] {
      LooseFrame(frames[0], delivered, isObject, limit);
      if |frames| == 1 {
        assert frames[1..] == [];
      } else {
        LooseFrames(frames[1..], Receive(Idle(delivered), frames[0], isObject).delivered, isObject, limit);
      }
    }
  }

  lemma TooManyChunks(m: string)
    requires |Chunks(m, MAX_FRAME_SIZE)| > 9999
    ensures AtMost(Frames(m), |m| - 1)
    ensures forall i :: 0 <= i < |Frames(m)| - 1 ==> |Frames(m)[i]| > 4
  {
    var chunks := Chunks(m, MAX_FRAME_SIZE);
    ChunksJoin(m, MAX_FRAME_SIZE);
    ShowLength(|chunks|);
    ShowAtMost(|chunks|);
    ChunksAtMost(m);
  }

  /** A message arrives exactly when it takes at most 9999 chunks. */
  lemma ArrivesExactly(m: string, isObject: string -> bool)
    requires IsMessage(m, isObject)
    ensures ReceiveAll(Idle([]), Frames(m), isObject).delivered == [m] <==> |Chunks(m, MAX_FRAME_SIZE)| <= 9999
  {
    if |Chunks(m, MAX_FRAME_SIZE)| <= 9999 {
      MessageArrives(m, [], isObject);
      assert [] + [m] == [m];
    } else {
      TooManyChunks(m);
      LooseFrames(Frames(m), [], isObject, |m| - 1);
      assert |[m][0]| > |m| - 1;
    }
  }

  lemma {:induction false} ShowAtMost(n: nat)
    ensures |Show(n)| <= n + 1
  {
    if n >= 10 {
      ShowAtMost(n / 10);
    }
  }

  lemma {:induction false} ChunksAtMost(s: string)
    ensures |Chunks(s, MAX_FRAME_SIZE)| > 1 ==> |Chunks(s, MAX_FRAME_SIZE)| + MAX_FRAME_SIZE - 1 <= |s|
    decreases |s|
  {
    if |s| > MAX_FRAME_SIZE {
      ChunksAtMost(s[MAX_FRAME_SIZE..]);
    }
  }
}
