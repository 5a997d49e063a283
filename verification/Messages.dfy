/** The wire format: every message is a four byte header and a pointer-sized body. */
module Messages {
  import opened ShadowStack
  import opened Words

  const HEADER_LENGTH: nat := 4
  const MESSAGE_SIZE: nat := POINTER_SIZE + HEADER_LENGTH

  const CONTINUE_HEADER: seq<Byte> := [67, 79, 78, 84] // CONT
  const CALL_HEADER: seq<Byte> := [67, 65, 76, 76]     // CALL
  const RET_HEADER: seq<Byte> := [82, 69, 84, 45]      // RET-
  const SIGNAL_HEADER: seq<Byte> := [78, 69, 87, 83]   // NEWS
  const EXECVE_HEADER: seq<Byte> := [69, 88, 69, 67]   // EXEC

  ghost predicate Spells(header: seq<Byte>, text: string) {
    |header| == |text| == HEADER_LENGTH && forall i | 0 <= i < |text| :: header[i] as nat == text[i] as nat
  }

  lemma HeadersSpelled()
    ensures Spells(CONTINUE_HEADER, "CONT") && Spells(CALL_HEADER, "CALL") && Spells(RET_HEADER, "RET-")
    ensures Spells(SIGNAL_HEADER, "NEWS") && Spells(EXECVE_HEADER, "EXEC")
  {
  }

  type Frame = f: seq<Byte> | |f| == MESSAGE_SIZE witness Zeros(MESSAGE_SIZE)

  // ----- Building messages -----

  /** memset, strncpy and memcpy from the C library. A C string is its text up to
      and including the first zero. */
  method Memset(dst: array<Byte>, value: Byte, n: nat)
    requires n <= dst.Length
    modifies dst
    ensures forall i | 0 <= i < n :: dst[i] == value
    ensures dst[n..] == old(dst[n..])
  {
    for i := 0 to n
      invariant forall k | 0 <= k < i :: dst[k] == value
      invariant forall k | n <= k < dst.Length :: dst[k] == old(dst[k])
    {
      dst[i] := value;
    }
  }

  ghost predicate IsStrlen(src: seq<Byte>, len: nat) {
    len < |src| && src[len] == 0 && forall i | 0 <= i < len :: src[i] != 0
  }

  method Strncpy(dst: array<Byte>, src: seq<Byte>, n: nat, ghost len: nat)
    requires n <= dst.Length && IsStrlen(src, len)
    modifies dst
    ensures forall i | 0 <= i < n :: dst[i] == if i < len then src[i] else 0
    ensures dst[n..] == old(dst[n..])
  {
    var i := 0;
    while i < n && src[i] != 0
      invariant 0 <= i <= n && i <= len
      invariant forall k | 0 <= k < i :: dst[k] == src[k]
      invariant forall k | n <= k < dst.Length :: dst[k] == old(dst[k])
    {
      dst[i] := src[i];
      i := i + 1;
    }
    while i < n
      invariant 0 <= i <= n
      invariant forall k | 0 <= k < i :: dst[k] == if k < len then src[k] else 0
      invariant forall k | n <= k < dst.Length :: dst[k] == old(dst[k])
    {
      dst[i] := 0;
      i := i + 1;
    }
  }

  method Memcpy(dst: array<Byte>, at: nat, src: seq<Byte>)
    requires at + |src| <= dst.Length
    modifies dst
    ensures dst[..] == old(dst[..at]) + src + old(dst[at + |src|..])
  {
    for i := 0 to |src|
      invariant forall k | 0 <= k < i :: dst[at + k] == src[k]
      invariant forall k | 0 <= k < dst.Length && !(at <= k < at + i) :: dst[k] == old(dst[k])
    {
      dst[at + i] := src[i];
    }
  }

  /** Fills exactly n bytes: the text of src as far as it fits, then zeros. */
  method SetLength(dst: array<Byte>, src: seq<Byte>, n: nat, ghost len: nat)
    requires n <= dst.Length && IsStrlen(src, len)
    modifies dst
    ensures dst[..n] == if len < n then src[..len] + Zeros(n - len) else src[..n]
    ensures dst[n..] == old(dst[n..])
  {
    Memset(dst, 0, n);
    Strncpy(dst, src, n, len);
  }

  function Zeros(n: nat): (z: seq<Byte>)
    ensures |z| == n
  {
    seq(n, _ => 0)
  }

  /** The message a header-only type keeps, padded with zeros. */
  function Padded(header: seq<Byte>): (f: Frame)
    requires |header| == HEADER_LENGTH
  {
    header + Zeros(POINTER_SIZE)
  }

  /** How that message is built when the program starts. */
  method HeaderOnlyMessage(header: seq<Byte>) returns (internal: array<Byte>)
    requires |header| == HEADER_LENGTH && 0 !in header
    ensures fresh(internal) && internal[..] == Padded(header)
  {
    internal := new Byte[MESSAGE_SIZE](_ => 0);
    SetLength(internal, header + [0], MESSAGE_SIZE, HEADER_LENGTH);
    assert (header + [0])[..HEADER_LENGTH] == header;
    assert internal[..MESSAGE_SIZE] == internal[..];
  }

  /** A message with a body. */
  class BodyMessage {
    const message: array<Byte>

    constructor (header: seq<Byte>, body: seq<Byte>)
      requires |header| == HEADER_LENGTH && |body| == POINTER_SIZE
      ensures fresh(message) && message[..] == header + body
    {
      message := new Byte[MESSAGE_SIZE](_ => 0);
      new;
      Memcpy(message, 0, header);
      Memcpy(message, HEADER_LENGTH, body);
    }
  }

  predicate IsAValid(frame: Frame, header: seq<Byte>) {
    frame[..HEADER_LENGTH] == header
  }

  /** The check compares the whole header and nothing else. */
  lemma IsAValidIff(frame: Frame, header: seq<Byte>)
    requires |header| == HEADER_LENGTH
    ensures IsAValid(frame, header)
            <==> && frame[0] == header[0] && frame[1] == header[1]
                 && frame[2] == header[2] && frame[3] == header[3]
  {
    var start := frame[..HEADER_LENGTH];
    assert forall i | 0 <= i < 4 :: start[i] == frame[i];
    if start[0] == header[0] && start[1] == header[1] && start[2] == header[2] && start[3] == header[3] {
      assert start == header;
    }
  }

  /** The reply the server sends is one the client's check lets through. */
  lemma ContinueIsValid()
    ensures IsAValid(Padded(CONTINUE_HEADER), CONTINUE_HEADER)
  {
  }

  // ----- What the client sends and the server makes of it -----

  type Padding = p: seq<Byte> | |p| == POINTER_SIZE witness Zeros(POINTER_SIZE)

  /** Calls and returns carry their address. A header-only message is written as
      MESSAGE_SIZE bytes starting at the header's own text, so what follows the
      header is whatever follows that text in memory. */
  function Encode(e: Event, padding: Padding): (f: Frame) {
    match e
    case Call(returnTo) => CALL_HEADER + Body(returnTo)
    case Ret(target) => RET_HEADER + Body(target)
    case Signal => SIGNAL_HEADER + padding
    case Execve => EXECVE_HEADER + padding
  }

  datatype Decoded = Known(event: Event) | Unknown

  function Decode(frame: Frame): Decoded {
    var header, body := frame[..HEADER_LENGTH], frame[HEADER_LENGTH..];
    if header == CALL_HEADER then Known(Call(Pointer(body)))
    else if header == RET_HEADER then Known(Ret(Pointer(body)))
    else if header == SIGNAL_HEADER then Known(Signal)
    else if header == EXECVE_HEADER then Known(Execve)
    else Unknown
  }

  lemma HeadersDiffer()
    ensures CALL_HEADER != RET_HEADER && CALL_HEADER != SIGNAL_HEADER && CALL_HEADER != EXECVE_HEADER
    ensures RET_HEADER != SIGNAL_HEADER && RET_HEADER != EXECVE_HEADER && SIGNAL_HEADER != EXECVE_HEADER
    ensures Decode(Padded(CONTINUE_HEADER)).Unknown?
  {
    assert CONTINUE_HEADER[1] == 79 && CALL_HEADER[0] == 67 && CALL_HEADER[1] == 65;
    assert RET_HEADER[0] == 82 && SIGNAL_HEADER[0] == 78 && EXECVE_HEADER[0] == 69;
  }

  /** A frame decodes to an event iff it is an encoding of that event, with the
      frame's own body as the padding. */
  lemma DecodeIffEncode(frame: Frame, e: Event)
    ensures Decode(frame) == Known(e) <==> frame == Encode(e, frame[HEADER_LENGTH..])
    ensures Decode(frame) == Known(e) <==> exists padding: Padding :: frame == Encode(e, padding)
  {
    HeadersDiffer();
    var header, body := frame[..HEADER_LENGTH], frame[HEADER_LENGTH..];
    assert frame == header + body;
    match e
    case Call(w) => PointerBody(w, body);
    case Ret(w) => PointerBody(w, body);
    case _ =>
  }

  // ----- Streams of messages -----

  function Frames(stream: seq<Byte>): seq<Frame> {
    if |stream| < MESSAGE_SIZE then [] else [stream[..MESSAGE_SIZE]] + Frames(stream[MESSAGE_SIZE..])
  }

  /** What is left over when a stream has been cut into frames. */
  function Leftover(stream: seq<Byte>): seq<Byte> {
    if |stream| < MESSAGE_SIZE then stream else Leftover(stream[MESSAGE_SIZE..])
  }

  function Concat(frames: seq<Frame>): seq<Byte> {
    if frames == [] then [] else frames[0] + Concat(frames[1..])
  }

  lemma CutAppend(s: seq<Byte>, t: seq<Byte>, n: nat)
    requires n <= |s|
    ensures (s + t)[..n] == s[..n] && (s + t)[n..] == s[n..] + t
    ensures s[..n] + s[n..] == s
  {
  }

  lemma FrameRemainder(n: nat)
    requires n >= MESSAGE_SIZE
    ensures (n - MESSAGE_SIZE) % MESSAGE_SIZE == n % MESSAGE_SIZE
  {
    if POINTER_SIZE == 4 {
      LessEight(n);
    } else {
      LessTwelve(n);
    }
  }

  lemma LessEight(n: nat)
    requires n >= 8
    ensures (n - 8) % 8 == n % 8
  {
  }

  lemma LessTwelve(n: nat)
    requires n >= 12
    ensures (n - 12) % 12 == n % 12
  {
  }

  lemma {:induction false} LeftoverLength(stream: seq<Byte>)
    ensures |Leftover(stream)| == |stream| % MESSAGE_SIZE
  {
    if |stream| < MESSAGE_SIZE {
      Small(|stream|, MESSAGE_SIZE);
    } else {
      LeftoverLength(stream[MESSAGE_SIZE..]);
      FrameRemainder(|stream|);
    }
  }

  lemma Small(n: nat, m: nat)
    requires n < m
    ensures n % m == n
  {
  }

  lemma {:induction false} FramesJoined(stream: seq<Byte>)
    ensures Concat(Frames(stream)) + Leftover(stream) == stream
  {
    if |stream| < MESSAGE_SIZE {
    } else {
      var first, rest := stream[..MESSAGE_SIZE], stream[MESSAGE_SIZE..];
      FramesJoined(rest);
      assert Frames(stream)[1..] == Frames(rest);
      calc {
        Concat(Frames(stream)) + Leftover(stream);
        first + Concat(Frames(rest)) + Leftover(rest);
        first + (Concat(Frames(rest)) + Leftover(rest));
        first + rest;
        { CutAppend(stream, [], MESSAGE_SIZE); }
        stream;
      }
    }
  }

  /** Cutting a stream into frames loses nothing, and less than a frame is left. */
  lemma FramesAndLeftover(stream: seq<Byte>)
    ensures Concat(Frames(stream)) + Leftover(stream) == stream
    ensures |Leftover(stream)| == |stream| % MESSAGE_SIZE
  {
    FramesJoined(stream);
    LeftoverLength(stream);
  }

  /** Less than a frame after whole frames is what is left over. */
  lemma {:induction false} FramesTail(stream: seq<Byte>, tail: seq<Byte>)
    requires Leftover(stream) == [] && |tail| < MESSAGE_SIZE
    ensures Frames(stream + tail) == Frames(stream) && Leftover(stream + tail) == tail
  {
    if |stream| < MESSAGE_SIZE {
      assert stream + tail == tail;
    } else {
      FramesTail(stream[MESSAGE_SIZE..], tail);
      CutAppend(stream, tail, MESSAGE_SIZE);
    }
  }

  predicate AllKnown(frames: seq<Frame>) {
    forall i | 0 <= i < |frames| :: Decode(frames[i]).Known?
  }

  function Events(frames: seq<Frame>): (es: seq<Event>)
    requires AllKnown(frames)
    ensures |es| == |frames|
  {
    seq(|frames|, i requires 0 <= i < |frames| => Decode(frames[i]).event)
  }

  /** The stream is whole messages that carry exactly these events. */
  ghost predicate Carries(stream: seq<Byte>, es: seq<Event>)
    decreases |es|
  {
    if es == [] then stream == []
    else
      && |stream| >= MESSAGE_SIZE
      && Decode(stream[..MESSAGE_SIZE]) == Known(es[0])
      && Carries(stream[MESSAGE_SIZE..], es[1..])
  }

  lemma {:induction false} CarriesIffFrames(stream: seq<Byte>, es: seq<Event>)
    ensures Carries(stream, es)
            <==> Leftover(stream) == [] && AllKnown(Frames(stream)) && Events(Frames(stream)) == es
    decreases |es|
  {
    var frames := Frames(stream);
    if es == [] {
    } else if |stream| < MESSAGE_SIZE {
    } else {
      var first, rest := stream[..MESSAGE_SIZE], stream[MESSAGE_SIZE..];
      CarriesIffFrames(rest, es[1..]);
      assert frames == [first] + Frames(rest);
      AllKnownCons(first, Frames(rest));
      assert es == [es[0]] + es[1..];
    }
  }

  lemma AllKnownCons(first: Frame, rest: seq<Frame>)
    ensures AllKnown([first] + rest) <==> Decode(first).Known? && AllKnown(rest)
    ensures AllKnown([first] + rest) ==> Events([first] + rest) == [Decode(first).event] + Events(rest)
  {
    var all := [first] + rest;
    if AllKnown(all) {
      assert all[0] == first;
      assert forall i | 0 <= i < |rest| :: rest[i] == all[i + 1];
    }
  }

  lemma {:induction false} CarriesAppend(s: seq<Byte>, es: seq<Event>, s': seq<Byte>, es': seq<Event>)
    requires Carries(s, es) && Carries(s', es')
    ensures Carries(s + s', es + es')
    decreases |es|
  {
    if es == [] {
      assert s + s' == s' && es + es' == es';
    } else {
      CarriesAppend(s[MESSAGE_SIZE..], es[1..], s', es');
      CutAppend(s, s', MESSAGE_SIZE);
      assert (es + es')[1..] == es[1..] + es';
    }
  }

  lemma EncodeCarries(e: Event, padding: Padding)
    ensures Carries(Encode(e, padding), [e])
  {
    var f := Encode(e, padding);
    DecodeIffEncode(f, e);
    assert f[..MESSAGE_SIZE] == f;
  }

  function EncodeAll(es: seq<Event>, paddings: seq<Padding>): seq<Byte>
    requires |paddings| == |es|
    decreases |es|
  {
    if es == [] then [] else Encode(es[0], paddings[0]) + EncodeAll(es[1..], paddings[1..])
  }

  /** Wire round trip: cutting up and decoding what the client sends for any
      events, over any padding, gives those events back. */
  lemma {:induction false} DecodeEncodeAll(es: seq<Event>, paddings: seq<Padding>)
    requires |paddings| == |es|
    ensures Carries(EncodeAll(es, paddings), es)
    ensures var frames := Frames(EncodeAll(es, paddings));
            AllKnown(frames) && Events(frames) == es && Leftover(EncodeAll(es, paddings)) == []
    decreases |es|
  {
    if es == [] {
    } else {
      DecodeEncodeAll(es[1..], paddings[1..]);
      EncodeCarries(es[0], paddings[0]);
      CarriesAppend(Encode(es[0], paddings[0]), [es[0]], EncodeAll(es[1..], paddings[1..]), es[1..]);
      assert [es[0]] + es[1..] == es;
    }
    CarriesIffFrames(EncodeAll(es, paddings), es);
  }

  /** Conversely, a stream that carries events is what the client sends for them
      over some padding. */
  lemma {:induction false} CarriedIsEncoded(stream: seq<Byte>, es: seq<Event>)
    requires Carries(stream, es)
    ensures exists paddings: seq<Padding> | |paddings| == |es| :: stream == EncodeAll(es, paddings)
    decreases |es|
  {
    if es == [] {
      assert stream == EncodeAll([], []);
    } else {
      var first, rest := stream[..MESSAGE_SIZE], stream[MESSAGE_SIZE..];
      DecodeIffEncode(first, es[0]);
      CarriedIsEncoded(rest, es[1..]);
      var tail: seq<Padding> :| |tail| == |es| - 1 && rest == EncodeAll(es[1..], tail);
      var paddings: seq<Padding> := [first[HEADER_LENGTH..]] + tail;
      assert paddings[1..] == tail;
      assert stream == EncodeAll(es, paddings);
    }
  }
}
