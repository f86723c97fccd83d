/** Messages on a byte stream: two bytes of length in network byte order, then the message. The length is kept
    in 16 bits, so FrameExactly tells which messages arrive as they were sent, and FramingRoundTrip that any
    sequence of these does. */
module Framing {

  type Byte = b: nat | b < 256 witness 0
  type Message = seq<Byte>

  const TWO_TO_16 := 0x1_0000

  /** Above this length the source would copy a negative number of bytes. */
  predicate Sendable(m: Message) {
    (|m| + 2) % TWO_TO_16 >= 2
  }

  /** The bytes built by ByteArrayFromString: their number, |m| + 2, and the stored length wrap at 2^16. */
  function Frame(m: Message): (f: seq<Byte>)
    requires Sendable(m)
  {
    var overall, length := (|m| + 2) % TWO_TO_16, |m| % TWO_TO_16;
    [length / 256, length % 256] + m[..overall - 2]
  }

  datatype Received = Received(m: Message, rest: seq<Byte>) | Failed(rest: seq<Byte>)

  /** ntohs of the two length bytes. */
  function Length(high: Byte, low: Byte): nat {
    (high as nat) * 256 + low as nat
  }

  /** One message taken from the bytes that are there. */
  function Receive(s: seq<Byte>): Received {
    if |s| < 2 then Failed([])
    else
      var n := Length(s[0], s[1]);
      if n < 1 then Failed(s[2..])
      else if |s| - 2 < n then Failed([])
      else Received(s[2..2 + n], s[2 + n..])
  }

  /** Which messages arrive unchanged. */
  predicate Transmittable(m: Message) {
    1 <= |m| <= 65533
  }

  /** Messages that can be framed, and the bytes on the wire of those that arrive: the length, high byte first,
      and the message. */
  lemma FrameBytes(m: Message)
    ensures Sendable(m) <==> |m| % 65536 < 65534
    ensures Transmittable(m) ==>
              && Sendable(m) && Frame(m)[2..] == m
              && |m| == 256 * (Frame(m)[0] as int) + Frame(m)[1] as int
  {
    if Transmittable(m) {
      assert m[..|m|] == m;
    }
  }

  /** Nothing is received of a frame that is cut short, and what was there is used up. */
  lemma PartialFrame(m: Message, k: nat)
    requires Sendable(m) && k < |Frame(m)|
    ensures Receive(Frame(m)[..k]) == Failed([])
  {
    var s := Frame(m)[..k];
    if k >= 2 {
      assert Length(s[0], s[1]) == |m| % TWO_TO_16;
      assert |Frame(m)| == 2 + |m| % TWO_TO_16;
    }
  }

  /** Whatever follows it, a frame is received as the message cut to the length modulo 2^16, and not at all if
      that is 0. */
  lemma FrameReceived(m: Message, tail: seq<Byte>)
    requires Sendable(m)
    ensures Receive(Frame(m) + tail) ==
            if |m| % TWO_TO_16 == 0 then Failed(tail) else Received(m[..|m| % TWO_TO_16], tail)
  {
    var length := |m| % TWO_TO_16;
    assert (|m| + 2) % TWO_TO_16 - 2 == length;
    var s := Frame(m) + tail;
    assert Length(s[0], s[1]) == length;
    assert s[2..2 + length] == m[..length];
    assert s[2 + length..] == tail;
  }

  /** A message is sendable and received as sent exactly when its length is 1 to 65533. */
  lemma FrameExactly(m: Message, tail: seq<Byte>)
    ensures Sendable(m) && Receive(Frame(m) + tail) == Received(m, tail) <==> Transmittable(m)
  {
    if Sendable(m) {
      FrameReceived(m, tail);
      if Transmittable(m) {
        assert m[..|m|] == m;
      }
    }
  }

  function Frames(ms: seq<Message>): seq<Byte>
    requires forall m :: m in ms ==> Sendable(m)
  {
    if ms == [] then []
    else
      assert ms[|ms| - 1] in ms;
      Frames(ms[..|ms| - 1]) + Frame(ms[|ms| - 1])
  }

  function ReceiveAll(s: seq<Byte>): seq<Message>
    decreases |s|
  {
    match Receive(s)
    case Received(m, rest) => [m] + ReceiveAll(rest)
    case Failed(_) => []
  }

  lemma {:induction false} FramesOfConcat(a: seq<Message>, b: seq<Message>)
    requires forall m :: m in a + b ==> Sendable(m)
    ensures (forall m :: m in a ==> Sendable(m)) && (forall m :: m in b ==> Sendable(m))
    ensures Frames(a + b) == Frames(a) + Frames(b)
  {
    forall m | m in a ensures m in a + b {}
    forall m | m in b ensures m in a + b {}
    if b == [] {
      assert a + b == a;
    } else {
      assert a + b == (a + b[..|b| - 1]) + [b[|b| - 1]];
      FramesOfConcat(a, b[..|b| - 1]);
      assert (a + b)[..|a + b| - 1] == a + b[..|b| - 1];
    }
  }

  /** Whether anything is received of a message. */
  predicate Arrives(m: Message) {
    |m| % TWO_TO_16 != 0
  }

  /** What is received of messages sent one after the other: each cut to its length modulo 2^16, up to the first
      of which nothing is left, where reading fails. */
  function Arriving(ms: seq<Message>): (r: seq<Message>)
    ensures |r| <= |ms|
    ensures |r| < |ms| ==> !Arrives(ms[|r|])
    ensures forall k :: 0 <= k < |r| ==> 1 <= |r[k]| < TWO_TO_16
  {
    if ms == [] || !Arrives(ms[0]) then [] else [ms[0][..|ms[0]| % TWO_TO_16]] + Arriving(ms[1..])
  }

  lemma FirstFrame(ms: seq<Message>)
    requires ms != [] && forall m :: m in ms ==> Sendable(m)
    ensures Frames(ms) == Frame(ms[0]) + Frames(ms[1..])
  {
    hide Frame, Sendable;
    var m := ms[0];
    assert ms == [m] + ms[1..];
    FramesOfConcat([m], ms[1..]);
    assert [m][..0] + [m] == [m];
  }

  lemma FirstReceived(m: Message, tail: seq<Byte>)
    requires Sendable(m)
    ensures ReceiveAll(Frame(m) + tail) ==
            if Arrives(m) then [m[..|m| % TWO_TO_16]] + ReceiveAll(tail) else []
  {
    hide Receive, Frame, Sendable;
    FrameReceived(m, tail);
  }

  lemma NoFrames(tail: seq<Byte>)
    ensures Frames([]) + tail == tail && Arriving([]) + ReceiveAll(tail) == ReceiveAll(tail) && Arriving([]) == []
  {
    hide Receive;
  }

  lemma FirstOfArriving(ms: seq<Message>)
    requires ms != []
    ensures Arriving(ms) == if Arrives(ms[0]) then [ms[0][..|ms[0]| % TWO_TO_16]] + Arriving(ms[1..]) else []
  {
  }

  lemma Associative(x: Message, a: seq<Message>, b: seq<Message>)
    ensures [x] + a + b == [x] + (a + b) && [x] + a + [] == [x] + (a + [])
  {
  }

  /** The bytes of any messages and whatever follows, received frame by frame: reading fails at the first message
      of which nothing arrives, or else goes on with what follows. */
  lemma {:induction false} FramesArrive(ms: seq<Message>, tail: seq<Byte>)
    requires forall m :: m in ms ==> Sendable(m)
    ensures ReceiveAll(Frames(ms) + tail) ==
            Arriving(ms) + if |Arriving(ms)| == |ms| then ReceiveAll(tail) else []
  {
    hide Frame, Sendable, Frames, ReceiveAll, Arriving, Arrives;
    if ms == [] {
      NoFrames(tail);
    } else {
      var m, rest := ms[0], ms[1..];
      FirstFrame(ms);
      FirstReceived(m, Frames(rest) + tail);
      FirstOfArriving(ms);
      assert Frames(ms) + tail == Frame(m) + (Frames(rest) + tail);
      if Arrives(m) {
        FramesArrive(rest, tail);
        Associative(m[..|m| % TWO_TO_16], Arriving(rest), ReceiveAll(tail));
      }
    }
  }

  /** A stream that ends within a frame: the complete messages are received, and nothing of the last one. */
  lemma CutStream(ms: seq<Message>, m: Message, k: nat)
    requires (forall x :: x in ms ==> Sendable(x)) && Sendable(m) && k < |Frame(m)|
    ensures ReceiveAll(Frames(ms) + Frame(m)[..k]) == Arriving(ms)
    ensures (forall x :: x in ms ==> Transmittable(x)) ==> ReceiveAll(Frames(ms) + Frame(m)[..k]) == ms
  {
    hide Receive, Frame, Sendable, Transmittable;
    PartialFrame(m, k);
    FramesArrive(ms, Frame(m)[..k]);
    ArrivingExactly(ms);
    assert ReceiveAll(Frame(m)[..k]) == [];
  }

  /** All of several messages arrive as they were sent exactly if each can. */
  lemma {:induction false} ArrivingExactly(ms: seq<Message>)
    requires forall m :: m in ms ==> Sendable(m)
    ensures Arriving(ms) == ms <==> forall m :: m in ms ==> Transmittable(m)
  {
    if ms != [] {
      var m, rest := ms[0], ms[1..];
      ArrivingExactly(rest);
      assert ms == [m] + rest;
      assert Transmittable(m) ==> m[..|m|] == m;
    }
  }

  lemma {:induction false} ArrivingConcat(a: seq<Message>, b: seq<Message>)
    requires forall m :: m in a ==> Arrives(m)
    ensures |Arriving(a)| == |a| && Arriving(a + b) == Arriving(a) + Arriving(b)
  {
    if a == [] {
      assert a + b == b;
    } else {
      assert (a + b)[1..] == a[1..] + b;
      ArrivingConcat(a[1..], b);
    }
  }

  /** Framing round trip: concatenated frames are received, frame by frame, as the same sequence of messages
      exactly if each message has 1 to 65533 bytes. */
  lemma FramingRoundTrip(ms: seq<Message>)
    requires forall m :: m in ms ==> Sendable(m)
    ensures ReceiveAll(Frames(ms)) == ms <==> forall m :: m in ms ==> Transmittable(m)
  {
    FramesArrive(ms, []);
    assert Frames(ms) + [] == Frames(ms) && ReceiveAll([]) == [];
    ArrivingExactly(ms);
  }
}
