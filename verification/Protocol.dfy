/** External mode as two processes and two byte streams, and its refinement of the
    internal mode. The target has one thread. */
module Protocol {
  import opened InternalSS
  import opened Messages
  import opened Server
  import opened ShadowStack
  import opened Words

  // ----- The transition system -----

  /** Waiting is inside on_ret, between its message and the reply. */
  datatype Phase = Running | Waiting | Closed

  /** The two processes, what is under way between them, and what has happened:
      the events reported so far, how many of them the server has served, and the
      replies sent and taken. The buffers hold the part of a recv that has arrived;
      torn is how much of a last message a client left that died while writing it. */
  datatype Net = Net(
    phase: Phase, clientBuffer: seq<Byte>,
    toServer: seq<Byte>, torn: nat, toClient: seq<Byte>,
    serverBuffer: seq<Byte>, stack: seq<Word>,
    issued: seq<Event>, served: nat, repliesSent: nat, repliesTaken: nat)

  datatype Cause = ServerStopped(end: End) | ClientWriteFailed | BadReply

  /** Dead is after the group was killed. That includes the end of a good run: the
      server kills the group when the client has disconnected. */
  datatype Config = Live(net: Net) | Dead(cause: Cause, issued: seq<Event>, served: nat)

  const START := Live(Net(Running, [], [], 0, [], [], [], [], 0, 0, 0))

  datatype Action =
    | Issue(event: Event, padding: Padding)
    | IssueFails
    | Exit
    | DieWriting(event: Event, padding: Padding, n: nat)
    | ServerRecv(n: nat)
    | ServerAct(canWrite: bool)
    | ServerEof
    | ClientRecv(n: nat)
    | ClientAct

  predicate Enabled(c: Config, a: Action) {
    c.Live? &&
    var s := c.net;
    match a
    case Issue(_, _) => s.phase == Running
    case IssueFails => s.phase == Running
    case Exit => s.phase != Closed
    case DieWriting(_, _, n) => s.phase == Running && 0 < n < MESSAGE_SIZE
    case ServerRecv(n) => 0 < n <= |s.toServer| && |s.serverBuffer| + n <= MESSAGE_SIZE
    case ServerAct(_) => |s.serverBuffer| == MESSAGE_SIZE
    case ServerEof => s.phase == Closed && s.toServer == [] && |s.serverBuffer| < MESSAGE_SIZE
    case ClientRecv(n) => s.phase == Waiting && 0 < n <= |s.toClient| && |s.clientBuffer| + n <= MESSAGE_SIZE
    case ClientAct => s.phase == Waiting && |s.clientBuffer| == MESSAGE_SIZE
  }

  function Do(c: Config, a: Action): Config
    requires Enabled(c, a)
  {
    var s := c.net;
    match a
    case Issue(e, padding) =>
      Live(s.(toServer := s.toServer + Encode(e, padding), issued := s.issued + [e],
              phase := if e.Ret? then Waiting else Running))
    case IssueFails => Dead(ClientWriteFailed, s.issued, s.served)
    case Exit => Live(s.(phase := Closed))
    case DieWriting(e, padding, n) =>
      Live(s.(toServer := s.toServer + Encode(e, padding)[..n], torn := n, phase := Closed))
    case ServerRecv(n) => Live(s.(serverBuffer := s.serverBuffer + s.toServer[..n], toServer := s.toServer[n..]))
    case ServerAct(canWrite) =>
      (match React(s.stack, s.serverBuffer, canWrite)
       case Fatal(reason) => Dead(ServerStopped(reason), s.issued, s.served)
       case Served(stack', reply) =>
         Live(s.(serverBuffer := [], stack := stack', toClient := s.toClient + reply, served := s.served + 1,
                 repliesSent := s.repliesSent + if reply == [] then 0 else 1)))
    case ServerEof =>
      Dead(ServerStopped(if s.serverBuffer == [] then Disconnected else RecvFailed), s.issued, s.served)
    case ClientRecv(n) => Live(s.(clientBuffer := s.clientBuffer + s.toClient[..n], toClient := s.toClient[n..]))
    case ClientAct =>
      if IsAValid(s.clientBuffer, CONTINUE_HEADER)
      then Live(s.(clientBuffer := [], phase := Running, repliesTaken := s.repliesTaken + 1))
      else Dead(BadReply, s.issued, s.served)
  }

  ghost predicate Path(c: Config, actions: seq<Action>, c': Config)
    decreases |actions|
  {
    if actions == [] then c == c' else Enabled(c, actions[0]) && Path(Do(c, actions[0]), actions[1..], c')
  }

  ghost predicate Reachable(c: Config) {
    exists actions :: Path(START, actions, c)
  }

  // ----- The invariant -----

  function Pending(s: Net): seq<Event>
    requires s.served <= |s.issued|
  {
    s.issued[s.served..]
  }

  predicate EndsInReturn(es: seq<Event>) {
    es != [] && es[|es| - 1].Ret?
  }

  /** Every return but the last has had its reply taken, and so has the last unless
      the client is waiting for it or has stopped waiting. */
  predicate ReturnsTaken(s: Net) {
    && (s.phase == Running ==> Returns(s.issued) == s.repliesTaken)
    && (s.phase == Waiting ==> Returns(s.issued) == s.repliesTaken + 1 && EndsInReturn(s.issued))
    && (s.phase == Closed ==>
          || Returns(s.issued) == s.repliesTaken
          || (Returns(s.issued) == s.repliesTaken + 1 && EndsInReturn(s.issued)))
  }

  /** The whole messages on their way to the server. */
  function Queued(s: Net): seq<Byte>
    requires s.torn <= |s.serverBuffer + s.toServer|
  {
    (s.serverBuffer + s.toServer)[..|s.serverBuffer + s.toServer| - s.torn]
  }

  /** What is on its way to the server is exactly the events not served yet, and
      then a torn message if the client died writing one. */
  ghost predicate RequestsInFlight(s: Net) {
    && s.served <= |s.issued|
    && |s.serverBuffer| <= MESSAGE_SIZE
    && s.torn <= |s.serverBuffer + s.toServer|
    && (s.torn > 0 ==> s.torn < MESSAGE_SIZE && s.phase == Closed)
    && Carries(Queued(s), Pending(s))
  }

  /** The server's stack is the machine's after the events served, and the server
      has answered the returns among them. */
  ghost predicate ServedSoFar(s: Net) {
    && s.served <= |s.issued|
    && After(s.issued[..s.served]) == Alive(s.stack)
    && Returns(s.issued[..s.served]) == s.repliesSent
  }

  /** What is on its way to the client is exactly the replies not taken yet. */
  ghost predicate RepliesInFlight(s: Net) {
    && |s.clientBuffer| <= MESSAGE_SIZE
    && s.repliesTaken <= s.repliesSent
    && s.clientBuffer + s.toClient == Replies(s.repliesSent - s.repliesTaken)
  }

  ghost predicate NetInv(s: Net) {
    RequestsInFlight(s) && ServedSoFar(s) && RepliesInFlight(s) && ReturnsTaken(s)
  }

  /** After the group is dead: it was killed for a mismatch iff the last event
      reported, the first not served, is the one at which the machine kills. When the
      client could not write, every return it had reported had been served. */
  ghost predicate DeadInv(cause: Cause, issued: seq<Event>, served: nat) {
    && served <= |issued|
    && After(issued[..served]).Alive?
    && match cause
       case ServerStopped(Disconnected) => served == |issued|
       case ServerStopped(RecvFailed) => served == |issued|
       case ServerStopped(Mismatch) => served + 1 == |issued| && After(issued).Killed?
       case ServerStopped(WriteFailed) => served + 1 == |issued| && After(issued).Alive? && EndsInReturn(issued)
       case ClientWriteFailed => After(issued).Alive? && Returns(issued[..served]) == Returns(issued)
       case _ => false
  }

  ghost predicate Inv(c: Config) {
    match c
    case Live(s) => NetInv(s)
    case Dead(cause, issued, served) => DeadInv(cause, issued, served)
  }

  lemma SplitIssued(s: Net)
    requires NetInv(s)
    ensures Returns(s.issued) == s.repliesSent + Returns(Pending(s))
    ensures After(s.issued) == Run(Alive(s.stack), Pending(s))
  {
    assert s.issued == s.issued[..s.served] + Pending(s);
    ReturnsAppend(s.issued[..s.served], Pending(s));
    RunAppend(INITIAL, s.issued[..s.served], Pending(s));
  }

  lemma OneEvent(e: Event)
    ensures Returns([e]) == if e.Ret? then 1 else 0
  {
    assert Returns([e]) == (if e.Ret? then 1 else 0) + Returns([]);
  }

  lemma {:induction false} NoReturns(es: seq<Event>)
    requires Returns(es) == 0
    ensures forall i | 0 <= i < |es| :: !es[i].Ret?
  {
    if es == [] {
    } else {
      NoReturns(es[1..]);
      assert es == [es[0]] + es[1..];
    }
  }

  lemma LastReturnCounts(es: seq<Event>)
    requires EndsInReturn(es)
    ensures Returns(es) >= 1
  {
    var n := |es| - 1;
    assert es == es[..n] + [es[n]];
    ReturnsAppend(es[..n], [es[n]]);
    OneEvent(es[n]);
  }

  lemma OneReturnLast(es: seq<Event>)
    requires Returns(es) <= 1 && EndsInReturn(es)
    ensures es[0].Ret? ==> |es| == 1
  {
    if |es| > 1 {
      LastReturnCounts(es[1..]);
    }
  }

  /** While the client runs, everything it has reported is accepted. */
  lemma RunningIsAccepted(s: Net)
    requires NetInv(s) && s.phase == Running
    ensures After(s.issued).Alive? && s.repliesSent == s.repliesTaken
  {
    SplitIssued(s);
    NoReturns(Pending(s));
    NoReturnNoKill(Alive(s.stack), Pending(s));
  }

  /** A return the server finds first in its queue is the last event reported. */
  lemma ReturnIsLast(s: Net)
    requires NetInv(s) && Pending(s) != [] && Pending(s)[0].Ret?
    ensures s.served + 1 == |s.issued| && s.phase != Running && s.repliesSent == s.repliesTaken
  {
    SplitIssued(s);
    var es := Pending(s);
    assert Returns(es) >= 1;
    assert es[|es| - 1] == s.issued[|s.issued| - 1];
    OneReturnLast(es);
  }

  lemma NothingTorn(s: Net)
    requires s.torn == 0
    ensures Queued(s) == s.serverBuffer + s.toServer
  {
  }

  lemma SendFrame(buffer: seq<Byte>, stream: seq<Byte>, es: seq<Event>, e: Event, frame: Frame)
    requires Carries(buffer + stream, es) && Carries(frame, [e])
    ensures Carries(buffer + (stream + frame), es + [e])
  {
    CarriesAppend(buffer + stream, es, frame, [e]);
    assert buffer + stream + frame == buffer + (stream + frame);
  }

  lemma IssueRequest(s: Net, e: Event, frame: Frame, s': Net)
    requires RequestsInFlight(s) && s.phase == Running && Carries(frame, [e])
    requires s' == s.(toServer := s.toServer + frame, issued := s.issued + [e], phase := s'.phase)
    ensures RequestsInFlight(s')
  {
    NothingTorn(s);
    NothingTorn(s');
    SendFrame(s.serverBuffer, s.toServer, Pending(s), e, frame);
    assert Pending(s') == Pending(s) + [e];
  }

  lemma IssueStep(s: Net, e: Event, padding: Padding)
    requires NetInv(s) && Enabled(Live(s), Issue(e, padding))
    ensures Inv(Do(Live(s), Issue(e, padding)))
  {
    var s' := Do(Live(s), Issue(e, padding)).net;
    EncodeCarries(e, padding);
    IssueRequest(s, e, Encode(e, padding), s');
    assert s'.issued[..s.served] == s.issued[..s.served];
    ReturnsAppend(s.issued, [e]);
    OneEvent(e);
  }

  /** The message the server has received is the first event it has not served. */
  lemma NextRequest(s: Net)
    requires RequestsInFlight(s) && |s.serverBuffer| == MESSAGE_SIZE
    ensures Pending(s) != [] && Decode(s.serverBuffer) == Known(Pending(s)[0])
    ensures s.torn <= |s.toServer| && Carries(s.toServer[..|s.toServer| - s.torn], s.issued[s.served + 1..])
  {
    var rest := s.toServer[..|s.toServer| - s.torn];
    assert |Queued(s)| > 0;
    assert Queued(s) == s.serverBuffer + rest;
    assert (s.serverBuffer + rest)[..MESSAGE_SIZE] == s.serverBuffer && (s.serverBuffer + rest)[MESSAGE_SIZE..] == rest;
    assert s.issued[s.served + 1..] == Pending(s)[1..];
  }

  lemma NextServed(s: Net)
    requires ServedSoFar(s) && s.served < |s.issued|
    ensures After(s.issued[..s.served + 1]) == Step(Alive(s.stack), s.issued[s.served])
    ensures Returns(s.issued[..s.served + 1]) == s.repliesSent + if s.issued[s.served].Ret? then 1 else 0
  {
    var e, n := s.issued[s.served], s.served;
    assert s.issued[..n + 1] == s.issued[..n] + [e];
    RunSnoc(INITIAL, s.issued[..n], e);
    ReturnsAppend(s.issued[..n], [e]);
    OneEvent(e);
  }

  /** A served return takes the reply channel from empty to one reply. */
  lemma ReplySent(s: Net, s': Net)
    requires RepliesInFlight(s) && s.repliesSent == s.repliesTaken
    requires s'.clientBuffer == s.clientBuffer && s'.toClient == s.toClient + CONTINUE
    requires s'.repliesSent == s.repliesSent + 1 && s'.repliesTaken == s.repliesTaken
    ensures RepliesInFlight(s')
  {
  }

  lemma RequestServed(s: Net, stack: seq<Word>, s': Net)
    requires RequestsInFlight(s) && ServedSoFar(s) && |s.serverBuffer| == MESSAGE_SIZE && s.served < |s.issued|
    requires Step(Alive(s.stack), s.issued[s.served]) == Alive(stack)
    requires s'.issued == s.issued && s'.served == s.served + 1 && s'.stack == stack
    requires s'.serverBuffer == [] && s'.toServer == s.toServer && s'.torn == s.torn
    requires s'.phase in {s.phase, Closed}
    requires s'.repliesSent == s.repliesSent + if s.issued[s.served].Ret? then 1 else 0
    ensures RequestsInFlight(s') && ServedSoFar(s')
  {
    NextRequest(s);
    NextServed(s);
    assert s'.serverBuffer + s'.toServer == s.toServer;
    assert Queued(s') == s.toServer[..|s.toServer| - s.torn];
    assert Pending(s') == s.issued[s.served + 1..];
  }

  lemma ServedConfig(s: Net, canWrite: bool)
    requires RequestsInFlight(s) && Enabled(Live(s), ServerAct(canWrite)) && Do(Live(s), ServerAct(canWrite)).Live?
    ensures s.served < |s.issued| && Step(Alive(s.stack), s.issued[s.served]).Alive?
    ensures var e := s.issued[s.served];
            Do(Live(s), ServerAct(canWrite)).net
            == s.(serverBuffer := [], stack := Step(Alive(s.stack), e).stack, served := s.served + 1,
                  toClient := s.toClient + (if e.Ret? then CONTINUE else []),
                  repliesSent := s.repliesSent + (if e.Ret? then 1 else 0))
  {
    NextRequest(s);
  }

  lemma ServerServes(s: Net, canWrite: bool)
    requires NetInv(s) && Enabled(Live(s), ServerAct(canWrite)) && Do(Live(s), ServerAct(canWrite)).Live?
    ensures NetInv(Do(Live(s), ServerAct(canWrite)).net)
  {
    var s' := Do(Live(s), ServerAct(canWrite)).net;
    ServedConfig(s, canWrite);
    RequestServed(s, s'.stack, s');
    if s.issued[s.served].Ret? {
      ReturnIsLast(s);
      ReplySent(s, s');
    } else {
      assert s.toClient + [] == s.toClient;
    }
  }

  lemma ServerKills(s: Net, canWrite: bool)
    requires NetInv(s) && Enabled(Live(s), ServerAct(canWrite)) && Do(Live(s), ServerAct(canWrite)).Dead?
    ensures Inv(Do(Live(s), ServerAct(canWrite)))
  {
    NextRequest(s);
    NextServed(s);
    ReturnIsLast(s);
    assert s.issued[..s.served + 1] == s.issued;
  }

  lemma ServerRecvStep(s: Net, n: nat)
    requires NetInv(s) && Enabled(Live(s), ServerRecv(n))
    ensures Inv(Do(Live(s), ServerRecv(n)))
  {
    var s' := Do(Live(s), ServerRecv(n)).net;
    Deliver(s.serverBuffer, s.toServer, n);
    SameInFlight(s, s');
  }

  lemma SameInFlight(s: Net, s': Net)
    requires RequestsInFlight(s) && |s'.serverBuffer| <= MESSAGE_SIZE
    requires s'.serverBuffer + s'.toServer == s.serverBuffer + s.toServer
    requires s'.issued == s.issued && s'.served == s.served && s'.torn == s.torn
    requires s'.phase in {s.phase, Closed}
    ensures RequestsInFlight(s')
  {
  }

  lemma ClientRecvStep(s: Net, n: nat)
    requires NetInv(s) && Enabled(Live(s), ClientRecv(n))
    ensures Inv(Do(Live(s), ClientRecv(n)))
  {
    Deliver(s.clientBuffer, s.toClient, n);
  }

  lemma Deliver(buffer: seq<Byte>, stream: seq<Byte>, n: nat)
    requires n <= |stream|
    ensures (buffer + stream[..n]) + stream[n..] == buffer + stream
  {
  }

  /** A whole message on the client's side is the one reply. */
  lemma ReplyArrived(s: Net)
    requires RepliesInFlight(s) && s.repliesSent <= s.repliesTaken + 1 && |s.clientBuffer| == MESSAGE_SIZE
    ensures s.repliesSent == s.repliesTaken + 1 && s.clientBuffer == CONTINUE && s.toClient == []
  {
    assert Replies(1) == CONTINUE + Replies(0);
    assert (s.clientBuffer + s.toClient)[..MESSAGE_SIZE] == s.clientBuffer;
  }

  lemma ClientActStep(s: Net)
    requires NetInv(s) && Enabled(Live(s), ClientAct)
    ensures Inv(Do(Live(s), ClientAct))
  {
    SplitIssued(s);
    ReplyArrived(s);
    ContinueIsValid();
  }

  lemma ServerEofStep(s: Net)
    requires NetInv(s) && Enabled(Live(s), ServerEof)
    ensures Inv(Do(Live(s), ServerEof))
  {
    assert s.serverBuffer + s.toServer == s.serverBuffer;
    assert |Queued(s)| < MESSAGE_SIZE;
    assert Pending(s) == [];
  }

  lemma DieWritingStep(s: Net, e: Event, padding: Padding, n: nat)
    requires NetInv(s) && Enabled(Live(s), DieWriting(e, padding, n))
    ensures Inv(Do(Live(s), DieWriting(e, padding, n)))
  {
    var s' := Do(Live(s), DieWriting(e, padding, n)).net;
    assert Queued(s) == s.serverBuffer + s.toServer;
    assert Queued(s') == s.serverBuffer + s.toServer;
  }

  lemma ServerActStep(s: Net, canWrite: bool)
    requires NetInv(s) && Enabled(Live(s), ServerAct(canWrite))
    ensures Inv(Do(Live(s), ServerAct(canWrite)))
  {
    if Do(Live(s), ServerAct(canWrite)).Live? {
      ServerServes(s, canWrite);
    } else {
      ServerKills(s, canWrite);
    }
  }

  lemma IssueFailsStep(s: Net)
    requires NetInv(s) && Enabled(Live(s), IssueFails)
    ensures Inv(Do(Live(s), IssueFails))
  {
    RunningIsAccepted(s);
  }

  lemma ExitStep(s: Net)
    requires NetInv(s) && Enabled(Live(s), Exit)
    ensures Inv(Do(Live(s), Exit))
  {
    SameInFlight(s, Do(Live(s), Exit).net);
  }

  lemma InvStep(c: Config, a: Action)
    requires Inv(c) && Enabled(c, a)
    ensures Inv(Do(c, a))
  {
    var s := c.net;
    match a
    case Issue(e, padding) => IssueStep(s, e, padding);
    case IssueFails => IssueFailsStep(s);
    case Exit => ExitStep(s);
    case DieWriting(e, padding, n) => DieWritingStep(s, e, padding, n);
    case ServerAct(canWrite) => ServerActStep(s, canWrite);
    case ServerEof => ServerEofStep(s);
    case ClientAct => ClientActStep(s);
    case ServerRecv(n) => ServerRecvStep(s, n);
    case ClientRecv(n) => ClientRecvStep(s, n);
  }

  lemma {:induction false} InvPath(c: Config, actions: seq<Action>, c': Config)
    requires Inv(c) && Path(c, actions, c')
    ensures Inv(c')
    decreases |actions|
  {
    if actions == [] {
    } else {
      InvStep(c, actions[0]);
      InvPath(Do(c, actions[0]), actions[1..], c');
    }
  }

  lemma InvReachable(c: Config)
    requires Reachable(c)
    ensures Inv(c)
  {
    var actions :| Path(START, actions, c);
    InvPath(START, actions, c);
  }

  // ----- Refinement and rendezvous -----

  ghost predicate LiveRefines(s: Net, internal: System, t: ThreadId) {
    && s.served <= |s.issued|
    && s.torn <= |s.serverBuffer + s.toServer|
    && Carries(Queued(s), Pending(s))
    && Run(Alive(s.stack), Pending(s)) == (if internal.Up? then Alive(StackOf(internal.stacks, t)) else Killed)
    && (s.phase == Running ==> internal.Up?)
  }

  lemma LiveRefinesInternal(s: Net, t: ThreadId)
    requires NetInv(s)
    ensures LiveRefines(s, SystemAfter(TagAll(t, s.issued)), t)
  {
    SplitIssued(s);
    SingleThread(t, s.issued);
    if s.phase == Running {
      RunningIsAccepted(s);
    }
  }

  ghost predicate DeadRefines(cause: Cause, issued: seq<Event>, served: nat, t: ThreadId) {
    && served <= |issued|
    && (cause == ServerStopped(Mismatch) <==> SystemAfter(TagAll(t, issued)).Down?)
    && (cause == ServerStopped(Mismatch) ==>
          served == |issued| - 1 && SystemAfter(TagAll(t, issued[..served])).Up?)
    && cause in {ServerStopped(Mismatch), ServerStopped(Disconnected), ServerStopped(RecvFailed),
                 ServerStopped(WriteFailed), ClientWriteFailed}
  }

  lemma DeadRefinesInternal(cause: Cause, issued: seq<Event>, served: nat, t: ThreadId)
    requires DeadInv(cause, issued, served)
    ensures DeadRefines(cause, issued, served, t)
  {
    SingleThread(t, issued);
    SingleThread(t, issued[..served]);
    assert issued[..|issued|] == issued;
  }

  /** In every interleaving, applying the events under way to the server's stack
      gives what the internal mode has after the events reported, be it a stack or
      a kill. While the target runs that is never a kill. When the group is dead, it
      was for a mismatch iff the internal mode is down as well, which it went at the
      very same event; otherwise the client disconnected or died, or a write failed. */
  lemma ExternalRefinesInternal(c: Config, t: ThreadId)
    requires Reachable(c)
    ensures match c
            case Live(s) => LiveRefines(s, SystemAfter(TagAll(t, s.issued)), t)
            case Dead(cause, issued, served) => DeadRefines(cause, issued, served, t)
  {
    InvReachable(c);
    match c
    case Live(s) => LiveRefinesInternal(s, t);
    case Dead(cause, issued, served) => DeadRefinesInternal(cause, issued, served, t);
  }

  lemma StoppedExactly(frames: seq<Frame>, tail: seq<Byte>, es: seq<Event>, n: nat, end: End, credit: nat)
    requires AllKnown(frames) && Events(frames) == es && DeadInv(ServerStopped(end), es, n)
    requires (end == Disconnected ==> tail == []) && (end == RecvFailed ==> tail != [])
    requires credit == if end == WriteFailed then Returns(es[..n]) else Returns(es)
    ensures ServedExactly(frames, tail, [], credit, Service(n, After(es[..n]).stack, Replies(Returns(es[..n])), end))
  {
    assert Events(frames[..n]) == es[..n];
    assert es == es[..n] + es[n..];
    ReturnsAppend(es[..n], es[n..]);
    if n < |es| {
      assert Decode(frames[n]) == Known(es[n]);
      assert es == es[..n] + [es[n]];
      RunSnoc(INITIAL, es[..n], es[n]);
    }
  }

  /** What a client left of a last message, when it died while writing it. */
  function Torn(s: Net): seq<Byte>
    requires s.torn <= |s.serverBuffer + s.toServer|
  {
    (s.serverBuffer + s.toServer)[|s.serverBuffer + s.toServer| - s.torn..]
  }

  /** The end of the stream is a normal disconnect iff no message was torn. */
  lemma DisconnectedIffNothingTorn(s: Net)
    requires Reachable(Live(s)) && Enabled(Live(s), ServerEof)
    ensures Do(Live(s), ServerEof)
            == Dead(ServerStopped(if s.torn == 0 then Disconnected else RecvFailed), s.issued, |s.issued|)
    ensures s.phase == Closed && s.torn < MESSAGE_SIZE && s.torn <= |s.serverBuffer + s.toServer|
    ensures Torn(s) == s.serverBuffer + s.toServer
  {
    InvReachable(Live(s));
    ServerEofStep(s);
    assert s.serverBuffer + s.toServer == s.serverBuffer;
    assert |Queued(s)| < MESSAGE_SIZE;
    assert Pending(s) == [];
  }

  /** Whatever the interleaving, the step that stops the server stops it as its loop
      does when it is given at once everything the client sent, over any padding and
      with what was torn at the end, and can send as many replies as it could: at the
      same message, with the same stack, replies and reason. */
  lemma StopsAsTheLoopDoes(s: Net, a: Action, end: End, served: nat, paddings: seq<Padding>)
    requires Reachable(Live(s)) && Enabled(Live(s), a) && |paddings| == |s.issued|
    requires Do(Live(s), a) == Dead(ServerStopped(end), s.issued, served)
    ensures served <= |s.issued| && After(s.issued[..served]).Alive?
    ensures s.torn <= |s.serverBuffer + s.toServer|
    ensures var replies := Returns(s.issued[..served]);
            Serve(EncodeAll(s.issued, paddings) + Torn(s), [],
                  if end == WriteFailed then replies else Returns(s.issued))
            == Service(served, After(s.issued[..served]).stack, Replies(replies), end)
  {
    InvReachable(Live(s));
    InvStep(Live(s), a);
    var issued, stream, tail := s.issued, EncodeAll(s.issued, paddings), Torn(s);
    var replies := Returns(issued[..served]);
    var credit := if end == WriteFailed then replies else Returns(issued);
    var v := Service(served, After(issued[..served]).stack, Replies(replies), end);
    EndFitsTorn(s, a, end, served);
    DecodeEncodeAll(issued, paddings);
    FramesTail(stream, tail);
    StoppedExactly(Frames(stream), tail, issued, served, end, credit);
    ServeStopsExactly(stream + tail, [], credit);
    ServedExactlyUnique(Frames(stream), tail, [], credit, v, Serve(stream + tail, [], credit));
  }

  lemma EndFitsTorn(s: Net, a: Action, end: End, served: nat)
    requires Reachable(Live(s)) && NetInv(s) && Enabled(Live(s), a)
    requires Do(Live(s), a) == Dead(ServerStopped(end), s.issued, served)
    ensures |Torn(s)| < MESSAGE_SIZE
    ensures (end == Disconnected ==> Torn(s) == []) && (end == RecvFailed ==> Torn(s) != [])
  {
    if a.ServerEof? {
      DisconnectedIffNothingTorn(s);
    } else {
      NextRequest(s);
    }
  }

  /** The client never proceeds past a return the server has not checked and popped:
      the replies it has taken were sent, one for each return served, and it has
      reported at most one return more. */
  lemma RendezvousSafety(c: Config)
    requires Reachable(c) && c.Live?
    ensures var s := c.net;
            && s.served <= |s.issued|
            && s.repliesTaken <= s.repliesSent == Returns(s.issued[..s.served])
            && s.repliesSent <= Returns(s.issued) <= s.repliesTaken + 1
            && (s.phase == Running ==> s.repliesTaken == Returns(s.issued))
  {
    InvReachable(c);
    SplitIssued(c.net);
  }

  // ----- Progress -----

  /** The steps that serve a waiting client, whether or not writes succeed. */
  predicate Serving(a: Action) {
    a.ServerRecv? || a.ServerAct? || a.ClientRecv? || a.ClientAct?
  }

  /** A path of such steps. */
  ghost predicate ServingPath(c: Config, actions: seq<Action>, c': Config)
    decreases |actions|
  {
    if actions == [] then c == c'
    else Serving(actions[0]) && Enabled(c, actions[0]) && ServingPath(Do(c, actions[0]), actions[1..], c')
  }

  ghost predicate Stuck(c: Config) {
    forall a | Serving(a) :: !Enabled(c, a)
  }

  /** Bytes under way, weighted by how far they still have to go. */
  function Work(s: Net): nat {
    4 * |s.toServer| + 3 * |s.serverBuffer| + 2 * |s.toClient| + |s.clientBuffer|
  }

  /** Why a serving step may kill: a mismatch, or a reply that could not be written. */
  predicate ServingKill(cause: Cause, a: Action) {
    a.ServerAct? && (cause == ServerStopped(Mismatch) || (cause == ServerStopped(WriteFailed) && a == ServerAct(false)))
  }

  lemma ActingShrinksWork(s: Net, canWrite: bool)
    requires RequestsInFlight(s) && Enabled(Live(s), ServerAct(canWrite))
    ensures s.served < |s.issued|
    ensures match Do(Live(s), ServerAct(canWrite))
            case Live(s') =>
              Work(s') < Work(s) && s'.issued == s.issued && s'.phase == s.phase && s'.served == s.served + 1
            case Dead(cause, issued, _) => ServingKill(cause, ServerAct(canWrite)) && issued == s.issued
  {
    NextRequest(s);
  }

  lemma OthersShrinkWork(s: Net, a: Action)
    requires Enabled(Live(s), a) && Serving(a) && !a.ServerAct?
    ensures match Do(Live(s), a)
            case Live(s') =>
              && Work(s') < Work(s) && s'.issued == s.issued && s'.served == s.served
              && s'.phase == (if a.ClientAct? then Running else s.phase)
            case Dead(cause, _, _) => cause == BadReply
  {
  }

  /** A waiting client is being served: its request is on its way to the server, or
      the reply is on its way back. */
  lemma WaitingIsNotStuck(s: Net)
    requires NetInv(s) && s.phase == Waiting
    ensures !Stuck(Live(s))
  {
    SplitIssued(s);
    if s.repliesSent > s.repliesTaken {
      assert Replies(1) == CONTINUE + Replies(0);
      if |s.clientBuffer| == MESSAGE_SIZE {
        assert Enabled(Live(s), ClientAct) && Serving(ClientAct);
      } else {
        assert Enabled(Live(s), ClientRecv(1)) && Serving(ClientRecv(1));
      }
    } else {
      assert Pending(s) != [];
      if |s.serverBuffer| == MESSAGE_SIZE {
        assert Enabled(Live(s), ServerAct(true)) && Serving(ServerAct(true));
      } else {
        assert Enabled(Live(s), ServerRecv(1)) && Serving(ServerRecv(1));
      }
    }
  }

  function ServerActs(actions: seq<Action>): nat {
    if actions == [] then 0 else (if actions[0].ServerAct? then 1 else 0) + ServerActs(actions[1..])
  }

  lemma ServingStep(s: Net, a: Action)
    requires NetInv(s) && s.phase != Closed && Serving(a) && Enabled(Live(s), a)
    ensures Inv(Do(Live(s), a))
    ensures match Do(Live(s), a)
            case Live(s') =>
              && Work(s') < Work(s) && s'.issued == s.issued && s'.phase != Closed
              && s'.served == s.served + if a.ServerAct? then 1 else 0
            case Dead(cause, issued, _) => ServingKill(cause, a) && issued == s.issued && s.served < |s.issued|
  {
    InvStep(Live(s), a);
    if a.ServerAct? {
      ActingShrinksWork(s, a.canWrite);
    } else {
      OthersShrinkWork(s, a);
    }
  }

  /** Where serving may have got: the client still there, or killed with a reason. */
  ghost predicate ServedTo(issued: seq<Event>, actions: seq<Action>, c': Config) {
    && Inv(c')
    && match c'
       case Live(s') => s'.phase != Closed && s'.issued == issued
       case Dead(cause, issued', _) =>
         && issued' == issued
         && (exists a | a in actions :: ServingKill(cause, a))
  }

  lemma {:induction false} ServingPathInv(s: Net, actions: seq<Action>, c': Config)
    requires NetInv(s) && s.phase != Closed
    requires ServingPath(Live(s), actions, c')
    ensures |actions| <= Work(s) && ServerActs(actions) <= |Pending(s)|
    ensures ServedTo(s.issued, actions, c')
    decreases |actions|
  {
    if actions == [] {
    } else {
      ServingStep(s, actions[0]);
      match Do(Live(s), actions[0])
      case Live(s') => ServingPathInv(s', actions[1..], c');
      case Dead(cause, _, _) => assert actions[0] in actions && ServingKill(cause, actions[0]);
    }
  }

  lemma {:induction false} CarriedLength(stream: seq<Byte>, es: seq<Event>)
    requires Carries(stream, es)
    ensures |stream| == MESSAGE_SIZE * |es|
    decreases |es|
  {
    if es == [] {
    } else {
      CarriedLength(stream[MESSAGE_SIZE..], es[1..]);
      assert MESSAGE_SIZE * |es| == MESSAGE_SIZE * (|es| - 1) + MESSAGE_SIZE;
    }
  }

  lemma AtMostOneReply(s: Net)
    requires NetInv(s) && s.phase == Waiting
    ensures |s.clientBuffer| + |s.toClient| <= MESSAGE_SIZE
  {
    SplitIssued(s);
    assert Replies(1) == CONTINUE + Replies(0);
    assert |s.clientBuffer + s.toClient| <= MESSAGE_SIZE;
  }

  lemma TimesFour(n: nat)
    ensures 4 * MESSAGE_SIZE * (n + 1) == 4 * (MESSAGE_SIZE * n) + 4 * MESSAGE_SIZE
  {
  }

  /** The work is bounded by the number of messages queued. */
  lemma WorkBound(s: Net)
    requires NetInv(s) && s.phase == Waiting
    ensures Work(s) <= 4 * MESSAGE_SIZE * (|Pending(s)| + 1)
  {
    CarriedLength(Queued(s), Pending(s));
    assert Queued(s) == s.serverBuffer + s.toServer;
    AtMostOneReply(s);
    TimesFour(|Pending(s)|);
  }

  /** What a wait ends in: the client runs on, all it reported being accepted; or the
      group was killed, for a mismatch if what it reported is rejected, and otherwise
      because the reply could not be written. */
  ghost predicate WaitVerdict(issued: seq<Event>, actions: seq<Action>, c': Config) {
    match c'
    case Live(s') => s'.phase == Running && s'.issued == issued && After(issued).Alive?
    case Dead(cause, issued', _) =>
      && issued' == issued
      && if After(issued).Killed? then cause == ServerStopped(Mismatch)
         else cause == ServerStopped(WriteFailed) && ServerAct(false) in actions
  }

  lemma StuckVerdict(issued: seq<Event>, actions: seq<Action>, c': Config)
    requires Stuck(c') && ServedTo(issued, actions, c')
    ensures WaitVerdict(issued, actions, c')
  {
    if c'.Live? {
      if c'.net.phase == Running {
        RunningIsAccepted(c'.net);
      } else {
        WaitingIsNotStuck(c'.net);
      }
    }
  }

  /** Every wait ends. However the serving steps are ordered and whatever becomes of
      the server's writes, one is possible as long as the client waits; there are
      only so many, the server looking at no more messages than were queued; and
      when they run out there is a verdict. */
  lemma WaitEnds(c: Config, actions: seq<Action>, c': Config)
    requires Reachable(c) && c.Live? && c.net.phase == Waiting
    requires ServingPath(c, actions, c')
    ensures !Stuck(c)
    ensures |actions| <= Work(c.net)
    ensures c.net.served <= |c.net.issued| && ServerActs(actions) <= |Pending(c.net)|
    ensures Stuck(c') ==> WaitVerdict(c.net.issued, actions, c')
  {
    InvReachable(c);
    WaitingIsNotStuck(c.net);
    ServingPathInv(c.net, actions, c');
    if Stuck(c') {
      StuckVerdict(c.net.issued, actions, c');
    }
  }
}
