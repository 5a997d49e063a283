/** The external shadow stack server: handlers, and the loop that reads and
    dispatches messages. */
module Server {
  import opened Messages
  import opened PointerStacks
  import opened ShadowStack
  import opened Sockets
  import opened Words

  /** Why the server stopped. Only Disconnected is a normal return, the others
      terminate the group. */
  datatype End = Disconnected | RecvFailed | WrongHeader | Mismatch | WriteFailed

  const CONTINUE: Frame := Padded(CONTINUE_HEADER)

  // ----- The loop as a function of the stream -----

  datatype Reaction = Served(stack: seq<Word>, reply: seq<Byte>) | Fatal(reason: End)

  /** What the server does with one message. */
  function React(stack: seq<Word>, frame: Frame, canWrite: bool): Reaction {
    match Decode(frame)
    case Unknown => Fatal(WrongHeader)
    case Known(e) =>
      match Step(Alive(stack), e)
      case Killed => Fatal(Mismatch)
      case Alive(stack') =>
        if !e.Ret? then Served(stack', [])
        else if canWrite then Served(stack', CONTINUE)
        else Fatal(WriteFailed)
  }

  /** What the server has done by the time it stops: how many messages it served,
      the stack and the replies these left, and why it stopped. */
  datatype Service = Service(served: nat, stack: seq<Word>, replies: seq<Byte>, end: End)

  function Serve(stream: seq<Byte>, stack: seq<Word>, credit: nat): Service
    decreases |stream|
  {
    if stream == [] then Service(0, stack, [], Disconnected)
    else if |stream| < MESSAGE_SIZE then Service(0, stack, [], RecvFailed)
    else
      match React(stack, stream[..MESSAGE_SIZE], credit > 0)
      case Fatal(reason) => Service(0, stack, [], reason)
      case Served(stack', reply) =>
        var rest := Serve(stream[MESSAGE_SIZE..], stack', if reply == [] then credit else credit - 1);
        rest.(served := 1 + rest.served, replies := reply + rest.replies)
  }

  // ----- What that function amounts to -----

  function Returns(es: seq<Event>): (n: nat)
    ensures n <= |es|
  {
    if es == [] then 0 else (if es[0].Ret? then 1 else 0) + Returns(es[1..])
  }

  function Replies(n: nat): seq<Byte> {
    if n == 0 then [] else CONTINUE + Replies(n - 1)
  }

  /** Having been sent these frames and then leftover, the server has served the
      first v.served of them, which all decode, has the stack the machine has after
      their events, and has sent a reply for every return among them; and it stops
      at the first thing that stops it. */
  ghost predicate ServedExactly(frames: seq<Frame>, leftover: seq<Byte>, stack: seq<Word>, credit: nat, v: Service) {
    && v.served <= |frames|
    && AllKnown(frames[..v.served])
    && var es := Events(frames[..v.served]);
    && Run(Alive(stack), es) == Alive(v.stack)
    && v.replies == Replies(Returns(es))
    && Returns(es) <= credit
    && if v.served == |frames| then v.end == if leftover == [] then Disconnected else RecvFailed
       else
         match Decode(frames[v.served])
         case Unknown => v.end == WrongHeader
         case Known(e) =>
           if Step(Alive(v.stack), e).Killed? then v.end == Mismatch
           else v.end == WriteFailed && e.Ret? && Returns(es) == credit
  }

  lemma ServedNone(frames: seq<Frame>, leftover: seq<Byte>, stack: seq<Word>, credit: nat, v: Service)
    requires v.served == 0
    ensures ServedExactly(frames, leftover, stack, credit, v) <==>
              && v.stack == stack && v.replies == []
              && if frames == [] then v.end == if leftover == [] then Disconnected else RecvFailed
                 else React(stack, frames[0], credit > 0) == Fatal(v.end)
  {
  }

  lemma ServedOne(first: Frame, rest: seq<Frame>, leftover: seq<Byte>, stack: seq<Word>, credit: nat,
                  stack': seq<Word>, reply: seq<Byte>, v: Service)
    requires React(stack, first, credit > 0) == Served(stack', reply)
    requires ServedExactly(rest, leftover, stack', if reply == [] then credit else credit - 1, v)
    ensures ServedExactly([first] + rest, leftover, stack, credit,
                          v.(served := v.served + 1, replies := reply + v.replies))
  {
    var frames, n := [first] + rest, v.served;
    assert frames[..n + 1] == [first] + rest[..n];
    AllKnownCons(first, rest[..n]);
    assert n < |rest| ==> frames[n + 1] == rest[n];
    FirstServed(stack, Decode(first).event, Events(rest[..n]));
  }

  /** The loop is a fold of the handlers over the frames of the stream, and on a
      partial last frame, a wrong header, a mismatch or a failed write it stops
      having applied exactly the messages before it. */
  lemma {:induction false} ServeStopsExactly(stream: seq<Byte>, stack: seq<Word>, credit: nat)
    ensures ServedExactly(Frames(stream), Leftover(stream), stack, credit, Serve(stream, stack, credit))
    decreases |stream|
  {
    var v := Serve(stream, stack, credit);
    if v.served == 0 {
      ServedNone(Frames(stream), Leftover(stream), stack, credit, v);
    } else {
      var first, rest := stream[..MESSAGE_SIZE], stream[MESSAGE_SIZE..];
      var Served(stack', reply) := React(stack, first, credit > 0);
      var credit' := if reply == [] then credit else credit - 1;
      ServeStopsExactly(rest, stack', credit');
      ServedOne(first, Frames(rest), Leftover(rest), stack, credit, stack', reply, Serve(rest, stack', credit'));
    }
  }

  /** And nothing else fits that description. */
  lemma ServedExactlyUnique(frames: seq<Frame>, leftover: seq<Byte>, stack: seq<Word>, credit: nat,
                            v: Service, v': Service)
    requires ServedExactly(frames, leftover, stack, credit, v)
    requires ServedExactly(frames, leftover, stack, credit, v')
    ensures v == v'
  {
    if v.served < v'.served {
      ServedFewer(frames, leftover, stack, credit, v, v');
    } else if v'.served < v.served {
      ServedFewer(frames, leftover, stack, credit, v', v);
    }
  }

  lemma ServedFewer(frames: seq<Frame>, leftover: seq<Byte>, stack: seq<Word>, credit: nat, v: Service, v': Service)
    requires ServedExactly(frames, leftover, stack, credit, v) && v.served < v'.served
    ensures !ServedExactly(frames, leftover, stack, credit, v')
  {
    var n := v.served;
    if v'.served <= |frames| && AllKnown(frames[..v'.served]) {
      var es, es' := Events(frames[..n]), Events(frames[..v'.served]);
      assert frames[n] == frames[..v'.served][n];
      assert es' == es + [es'[n]] + es'[n + 1..];
      RunSnoc(Alive(stack), es, es'[n]);
      RunAppend(Alive(stack), es + [es'[n]], es'[n + 1..]);
      KilledStays(es'[n + 1..]);
      ReturnsAppend(es, [es'[n]]);
      ReturnsAppend(es + [es'[n]], es'[n + 1..]);
    }
  }

  lemma {:induction false} ReturnsAppend(es: seq<Event>, fs: seq<Event>)
    ensures Returns(es + fs) == Returns(es) + Returns(fs)
  {
    if es == [] {
      assert es + fs == fs;
    } else {
      assert (es + fs)[1..] == es[1..] + fs;
      ReturnsAppend(es[1..], fs);
    }
  }

  lemma FirstServed(stack: seq<Word>, e: Event, es: seq<Event>)
    ensures Run(Alive(stack), [e] + es) == Run(Step(Alive(stack), e), es)
    ensures Returns([e] + es) == (if e.Ret? then 1 else 0) + Returns(es)
  {
    assert ([e] + es)[1..] == es;
  }

  /** The loop returns normally iff the stream is whole messages that carry events
      the machine accepts, and every return among them could be answered. */
  lemma NormalReturnIff(stream: seq<Byte>, credit: nat)
    ensures Serve(stream, [], credit).end == Disconnected
            <==> exists es :: Carries(stream, es) && After(es).Alive? && Returns(es) <= credit
    ensures Serve(stream, [], credit).end == Disconnected ==> |stream| % MESSAGE_SIZE == 0
  {
    var frames := Frames(stream);
    var v := Serve(stream, [], credit);
    ServeStopsExactly(stream, [], credit);
    FramesAndLeftover(stream);
    assert frames[..|frames|] == frames;
    if v.end == Disconnected {
      CarriesIffFrames(stream, Events(frames));
    }
    forall es | Carries(stream, es) && After(es).Alive? && Returns(es) <= credit
      ensures v.end == Disconnected
    {
      CarriesIffFrames(stream, es);
      var whole := Service(|es|, After(es).stack, Replies(Returns(es)), Disconnected);
      ServedExactlyUnique(frames, [], [], credit, v, whole);
    }
  }

  // ----- Padding -----

  predicate HeaderOnly(frame: Frame) {
    IsAValid(frame, SIGNAL_HEADER) || IsAValid(frame, EXECVE_HEADER)
  }

  /** The streams differ at most in what follows the header of header-only messages. */
  predicate SameButPadding(s: seq<Byte>, t: seq<Byte>)
    decreases |s|
  {
    if |s| < MESSAGE_SIZE || |t| < MESSAGE_SIZE then s == t
    else
      && s[..HEADER_LENGTH] == t[..HEADER_LENGTH]
      && (HeaderOnly(s[..MESSAGE_SIZE]) || s[..MESSAGE_SIZE] == t[..MESSAGE_SIZE])
      && SameButPadding(s[MESSAGE_SIZE..], t[MESSAGE_SIZE..])
  }

  /** Nothing the server does depends on padding, so it does not matter that the
      client sends whatever follows a header's text in memory. */
  lemma {:induction false} PaddingIrrelevant(s: seq<Byte>, t: seq<Byte>, stack: seq<Word>, credit: nat)
    requires SameButPadding(s, t)
    ensures Serve(s, stack, credit) == Serve(t, stack, credit)
    decreases |s|
  {
    if |s| < MESSAGE_SIZE || |t| < MESSAGE_SIZE {
    } else {
      var f, g := s[..MESSAGE_SIZE], t[..MESSAGE_SIZE];
      HeadersDiffer();
      assert f[..HEADER_LENGTH] == s[..HEADER_LENGTH] && g[..HEADER_LENGTH] == t[..HEADER_LENGTH];
      assert Decode(f) == Decode(g);
      var reaction := React(stack, f, credit > 0);
      if reaction.Served? {
        PaddingIrrelevant(s[MESSAGE_SIZE..], t[MESSAGE_SIZE..], reaction.stack,
                          if reaction.reply == [] then credit else credit - 1);
      }
    }
  }

  /** What the client sends for the same events over different paddings is such a pair. */
  lemma {:induction false} EncodingsDifferInPadding(es: seq<Event>, p: seq<Padding>, q: seq<Padding>)
    requires |p| == |es| == |q|
    ensures SameButPadding(EncodeAll(es, p), EncodeAll(es, q))
    decreases |es|
  {
    if es == [] {
    } else {
      EncodingsDifferInPadding(es[1..], p[1..], q[1..]);
      SameButPaddingCons(Encode(es[0], p[0]), EncodeAll(es[1..], p[1..]),
                         Encode(es[0], q[0]), EncodeAll(es[1..], q[1..]));
    }
  }

  lemma SameButPaddingCons(f: Frame, s: seq<Byte>, g: Frame, t: seq<Byte>)
    requires f[..HEADER_LENGTH] == g[..HEADER_LENGTH] && (HeaderOnly(f) || f == g) && SameButPadding(s, t)
    ensures SameButPadding(f + s, g + t)
  {
    CutAppend(f, s, MESSAGE_SIZE);
    CutAppend(g, t, MESSAGE_SIZE);
    CutAppend(f, s, HEADER_LENGTH);
    CutAppend(g, t, HEADER_LENGTH);
  }

  // ----- The server itself -----

  datatype Handled = Proceed | Stopped(reason: End)

  method AddWildcard(stk: PointerStack)
    modifies stk
    ensures stk.items == old(stk.items) + [WILDCARD]
  {
    stk.Push(WILDCARD);
  }

  method ClearStack(stk: PointerStack)
    modifies stk
    ensures stk.items == []
  {
    while !stk.Empty()
      decreases |stk.items|
    {
      stk.Pop();
    }
  }

  method CallHandler(stk: PointerStack, body: seq<Byte>)
    requires |body| == POINTER_SIZE
    modifies stk
    ensures stk.items == old(stk.items) + [Pointer(body)]
  {
    stk.Push(Pointer(body));
  }

  /** A return is answered only once its target has been checked and popped. */
  method RetHandler(stk: PointerStack, body: seq<Byte>, sock: Socket) returns (handled: Handled)
    requires |body| == POINTER_SIZE
    modifies stk, sock
    ensures sock.incoming == old(sock.incoming)
    ensures var after := Step(Alive(old(stk.items)), Ret(Pointer(body)));
            match handled
            case Proceed =>
              && after == Alive(stk.items) && old(sock.credit) > 0
              && sock.credit == old(sock.credit) - 1 && sock.sent == old(sock.sent) + CONTINUE
            case Stopped(reason) =>
              && (reason == Mismatch <==> after.Killed?) && (reason == WriteFailed <==> after.Alive?)
              && (reason == WriteFailed ==> old(sock.credit) == 0 && after == Alive(stk.items))
              && (reason == Mismatch ==> stk.items == old(stk.items))
              && sock.sent == old(sock.sent)
  {
    var addr := Pointer(body);
    if stk.Empty() {
      return Stopped(Mismatch);
    }
    var top := stk.Top();
    if top == WILDCARD {
      // Returning from a signal handler is allowed.
    } else if addr != top {
      return Stopped(Mismatch);
    }
    stk.Pop();
    var message := HeaderOnlyMessage(CONTINUE_HEADER);
    var bytesSent := sock.Write(message[..]);
    if bytesSent != MESSAGE_SIZE {
      return Stopped(WriteFailed);
    }
    return Proceed;
  }

  datatype Handler = AddWildcardHandler | ClearStackHandler | CallHandlerFn | RetHandlerFn

  const HANDLERS: map<seq<Byte>, Handler> := map[
    SIGNAL_HEADER := AddWildcardHandler,
    EXECVE_HEADER := ClearStackHandler,
    CALL_HEADER := CallHandlerFn,
    RET_HEADER := RetHandlerFn
  ]

  /** Looks the handler up and calls it. */
  method Dispatch(stk: PointerStack, buffer: array<Byte>, sock: Socket) returns (handled: Handled)
    requires buffer.Length == MESSAGE_SIZE
    modifies stk, sock
    ensures sock.incoming == old(sock.incoming)
    ensures match React(old(stk.items), old(buffer[..]), old(sock.credit) > 0)
            case Served(stack, reply) =>
              && handled == Proceed && stk.items == stack && sock.sent == old(sock.sent) + reply
              && sock.credit == old(sock.credit) - (if reply == [] then 0 else 1)
            case Fatal(reason) =>
              && handled == Stopped(reason) && sock.sent == old(sock.sent)
              && (reason != WriteFailed ==> stk.items == old(stk.items))
  {
    HeadersDiffer();
    var header, body := buffer[..HEADER_LENGTH], buffer[HEADER_LENGTH..];
    assert buffer[..][..HEADER_LENGTH] == header && buffer[..][HEADER_LENGTH..] == body;
    if header !in HANDLERS {
      return Stopped(WrongHeader);
    }
    handled := Proceed;
    match HANDLERS[header]
    case AddWildcardHandler => AddWildcard(stk);
    case ClearStackHandler => ClearStack(stk);
    case CallHandlerFn => CallHandler(stk, body);
    case RetHandlerFn => handled := RetHandler(stk, body, sock);
  }

  /** What will have been sent, the final stack and the end, from the middle of the loop. */
  ghost function Outlook(sent: seq<Byte>, stream: seq<Byte>, stack: seq<Word>, credit: nat)
    : (seq<Byte>, seq<Word>, End)
  {
    var v := Serve(stream, stack, credit);
    (sent + v.replies, v.stack, v.end)
  }

  lemma OutlookStep(sent: seq<Byte>, stream: seq<Byte>, stack: seq<Word>, credit: nat)
    requires |stream| >= MESSAGE_SIZE
    ensures Outlook(sent, stream, stack, credit)
            == match React(stack, stream[..MESSAGE_SIZE], credit > 0)
               case Fatal(reason) => (sent, stack, reason)
               case Served(stack', reply) =>
                 Outlook(sent + reply, stream[MESSAGE_SIZE..], stack', if reply == [] then credit else credit - 1)
  {
    var reaction := React(stack, stream[..MESSAGE_SIZE], credit > 0);
    assert sent + [] == sent;
    if reaction.Served? {
      var rest := Serve(stream[MESSAGE_SIZE..], reaction.stack, if reaction.reply == [] then credit else credit - 1);
      assert sent + reaction.reply + rest.replies == sent + (reaction.reply + rest.replies);
    }
  }

  method StartExternalShadowStack(sock: Socket) returns (end: End, stk: PointerStack)
    modifies sock
    ensures fresh(stk)
    ensures var v := Serve(old(sock.incoming), [], old(sock.credit));
            && end == v.end && sock.sent == old(sock.sent) + v.replies
            && (end != WriteFailed ==> stk.items == v.stack)
  {
    stk := new PointerStack();
    var buffer := new Byte[MESSAGE_SIZE](_ => 0);
    ghost var goal := Outlook(sock.sent, sock.incoming, stk.items, sock.credit);
    while true
      invariant fresh(stk) && fresh(buffer)
      invariant Outlook(sock.sent, sock.incoming, stk.items, sock.credit) == goal
      decreases |sock.incoming|
    {
      ghost var stream := sock.incoming;
      var received := sock.Recv(buffer);
      if received != MESSAGE_SIZE && received != 0 {
        return RecvFailed, stk;
      }
      if received == 0 {
        return Disconnected, stk;
      }
      assert buffer[..] == stream[..MESSAGE_SIZE];
      OutlookStep(sock.sent, stream, stk.items, sock.credit);
      var handled := Dispatch(stk, buffer, sock);
      if handled.Stopped? {
        return handled.reason, stk;
      }
    }
  }
}
