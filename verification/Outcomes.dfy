/** Which outcomes of external mode can happen: the other direction of its
    refinement. */
module Outcomes {
  import opened Messages
  import opened Protocol
  import opened Server
  import opened ShadowStack
  import opened Words

  lemma {:induction false} PathSnoc(c: Config, actions: seq<Action>, c': Config, a: Action)
    requires Path(c, actions, c') && Enabled(c', a)
    ensures Path(c, actions + [a], Do(c', a))
    decreases |actions|
  {
    if actions == [] {
      assert Path(Do(c', a), [a][1..], Do(c', a));
    } else {
      PathSnoc(Do(c, actions[0]), actions[1..], c', a);
      assert (actions + [a])[1..] == actions[1..] + [a];
    }
  }

  lemma ReachableNext(c: Config, a: Action)
    requires Reachable(c) && Enabled(c, a)
    ensures Reachable(Do(c, a))
  {
    var actions :| Path(START, actions, c);
    PathSnoc(START, actions, c, a);
  }

  /** Nothing under way: the client has reported these events, and all are served. */
  function Idle(es: seq<Event>): Config
    requires After(es).Alive?
  {
    Live(Net(Running, [], [], 0, [], [], After(es).stack, es, |es|, Returns(es), Returns(es)))
  }

  /** The server has received the next event whole. */
  function Received(es: seq<Event>, e: Event, padding: Padding): Config
    requires After(es).Alive?
  {
    Live(Idle(es).net.(serverBuffer := Encode(e, padding), issued := es + [e],
                       phase := if e.Ret? then Waiting else Running))
  }

  lemma ReceivedReachable(es: seq<Event>, e: Event, padding: Padding)
    requires After(es).Alive? && Reachable(Idle(es))
    ensures Reachable(Received(es, e, padding))
  {
    var f := Encode(e, padding);
    var issued := Do(Idle(es), Issue(e, padding));
    ReachableNext(Idle(es), Issue(e, padding));
    assert issued.net.toServer == f;
    ReachableNext(issued, ServerRecv(MESSAGE_SIZE));
    assert f[..MESSAGE_SIZE] == f && f[MESSAGE_SIZE..] == [] && [] + f == f;
    assert Do(issued, ServerRecv(MESSAGE_SIZE)) == Received(es, e, padding);
  }

  lemma NextVerdict(es: seq<Event>, e: Event)
    requires After(es).Alive?
    ensures After(es + [e]) == Step(Alive(After(es).stack), e)
    ensures Returns(es + [e]) == Returns(es) + if e.Ret? then 1 else 0
  {
    RunSnoc(INITIAL, es, e);
    ReturnsAppend(es, [e]);
    OneEvent(e);
  }

  /** The server has served it, and answered it if it is a return. */
  function Answered(es: seq<Event>, e: Event): Config
    requires After(es).Alive? && After(es + [e]).Alive?
  {
    Live(Idle(es + [e]).net.(phase := if e.Ret? then Waiting else Running,
                             toClient := if e.Ret? then CONTINUE else [], repliesTaken := Returns(es)))
  }

  lemma ReactionTo(stack: seq<Word>, e: Event, padding: Padding, canWrite: bool)
    ensures React(stack, Encode(e, padding), canWrite)
            == match Step(Alive(stack), e)
               case Killed => Fatal(Mismatch)
               case Alive(stack') =>
                 if !e.Ret? then Served(stack', [])
                 else if canWrite then Served(stack', CONTINUE)
                 else Fatal(WriteFailed)
    ensures CONTINUE != []
  {
    DecodeIffEncode(Encode(e, padding), e);
  }

  lemma ServedNext(es: seq<Event>, e: Event, padding: Padding)
    requires After(es).Alive? && After(es + [e]).Alive? && Reachable(Received(es, e, padding))
    ensures Reachable(Answered(es, e))
  {
    NextVerdict(es, e);
    var s := Received(es, e, padding).net;
    ServerAnswers(s, After(es + [e]).stack, e, padding);
    assert Answered(es, e).net
           == s.(serverBuffer := [], stack := After(es + [e]).stack, served := s.served + 1,
                 toClient := if e.Ret? then CONTINUE else [],
                 repliesSent := s.repliesSent + if e.Ret? then 1 else 0);
  }

  lemma ServerAnswers(s: Net, stack: seq<Word>, e: Event, padding: Padding)
    requires Reachable(Live(s)) && s.serverBuffer == Encode(e, padding) && s.toClient == []
    requires Step(Alive(s.stack), e) == Alive(stack)
    ensures Reachable(Live(s.(serverBuffer := [], stack := stack, served := s.served + 1,
                              toClient := if e.Ret? then CONTINUE else [],
                              repliesSent := s.repliesSent + if e.Ret? then 1 else 0)))
  {
    ReactionTo(s.stack, e, padding, true);
    assert s.toClient + CONTINUE == CONTINUE && s.toClient + [] == [];
    ReachableNext(Live(s), ServerAct(true));
  }

  lemma FatalNext(es: seq<Event>, e: Event, padding: Padding)
    requires After(es).Alive? && e.Ret? && Reachable(Received(es, e, padding))
    ensures var reason := if After(es + [e]).Killed? then Mismatch else WriteFailed;
            Reachable(Dead(ServerStopped(reason), es + [e], |es|))
  {
    NextVerdict(es, e);
    ReactionTo(After(es).stack, e, padding, false);
    ReachableNext(Received(es, e, padding), ServerAct(false));
  }

  lemma ReplyTaken(es: seq<Event>, e: Event)
    requires After(es).Alive? && After(es + [e]).Alive? && Reachable(Answered(es, e))
    ensures Reachable(Idle(es + [e]))
  {
    NextVerdict(es, e);
    if e.Ret? {
      ClientTakes(Answered(es, e).net);
    }
  }

  lemma ClientTakes(s: Net)
    requires Reachable(Live(s)) && s.phase == Waiting && s.clientBuffer == [] && s.toClient == CONTINUE
    ensures Reachable(Live(s.(toClient := [], phase := Running, repliesTaken := s.repliesTaken + 1)))
  {
    var c := Do(Live(s), ClientRecv(MESSAGE_SIZE));
    assert CONTINUE[..MESSAGE_SIZE] == CONTINUE && CONTINUE[MESSAGE_SIZE..] == [] && [] + CONTINUE == CONTINUE;
    ReachableNext(Live(s), ClientRecv(MESSAGE_SIZE));
    assert c == Live(s.(toClient := [], clientBuffer := CONTINUE));
    ContinueIsValid();
    ReachableNext(c, ClientAct);
  }

  /** Every accepted trace can be run, up to where nothing is under way. */
  lemma {:induction false} IdleReachable(es: seq<Event>)
    requires After(es).Alive?
    ensures Reachable(Idle(es))
  {
    if es == [] {
      assert Path(START, [], START);
    } else {
      var before, e := es[..|es| - 1], es[|es| - 1];
      assert es == before + [e];
      RunSnoc(INITIAL, before, e);
      IdleReachable(before);
      ReceivedReachable(before, e, Zeros(POINTER_SIZE));
      ServedNext(before, e, Zeros(POINTER_SIZE));
      ReplyTaken(before, e);
    }
  }

  /** A running client can have reported these events, and n of them been served. */
  ghost predicate CanRun(issued: seq<Event>, n: nat) {
    exists s :: Reachable(Live(s)) && s.phase == Running && s.issued == issued && s.served == n
  }

  lemma OneAhead(issued: seq<Event>, n: nat, e: Event)
    requires CanRun(issued, n) && !e.Ret?
    ensures CanRun(issued + [e], n)
  {
    var s :| Reachable(Live(s)) && s.phase == Running && s.issued == issued && s.served == n;
    var issue := Issue(e, Zeros(POINTER_SIZE));
    ReachableNext(Live(s), issue);
    assert Do(Live(s), issue) == Live(Do(Live(s), issue).net);
  }

  lemma FirstMoved(es: seq<Event>, fs: seq<Event>)
    requires fs != []
    ensures es + [fs[0]] + fs[1..] == es + fs
  {
  }

  /** Events that need no reply can be reported before any is served. */
  lemma {:induction false} ManyAhead(issued: seq<Event>, n: nat, es: seq<Event>)
    requires CanRun(issued, n) && forall i | 0 <= i < |es| :: !es[i].Ret?
    ensures CanRun(issued + es, n)
    decreases |es|
  {
    if es == [] {
      assert issued + es == issued;
    } else {
      OneAhead(issued, n, es[0]);
      ManyAhead(issued + [es[0]], n, es[1..]);
      FirstMoved(issued, es);
    }
  }

  /** What a running client can have reported, and how much of it been served: the
      traces the abstract machine accepts, and all of one up to its last return. */
  lemma RunsExactlyTheAccepted(es: seq<Event>, n: nat)
    ensures CanRun(es, n) <==> n <= |es| && After(es).Alive? && Returns(es[..n]) == Returns(es)
  {
    if CanRun(es, n) {
      var s :| Reachable(Live(s)) && s.phase == Running && s.issued == es && s.served == n;
      InvReachable(Live(s));
      RunningIsAccepted(s);
    }
    if n <= |es| && After(es).Alive? && Returns(es[..n]) == Returns(es) {
      var before, ahead := es[..n], es[n..];
      assert es == before + ahead;
      ReturnsAppend(before, ahead);
      NoReturns(ahead);
      PrefixAccepted(before, ahead);
      IdleReachable(before);
      assert Idle(before) == Live(Idle(before).net);
      ManyAhead(before, n, ahead);
    }
  }

  lemma PrefixAccepted(es: seq<Event>, fs: seq<Event>)
    requires After(es + fs).Alive?
    ensures After(es).Alive?
  {
    RunAppend(INITIAL, es, fs);
    KilledStays(fs);
  }

  lemma DisconnectsAfter(es: seq<Event>)
    requires After(es).Alive?
    ensures Reachable(Dead(ServerStopped(Disconnected), es, |es|))
  {
    IdleReachable(es);
    ReachableNext(Idle(es), Exit);
    ReachableNext(Do(Idle(es), Exit), ServerEof);
  }

  /** Whatever it has reported, the client can die in the middle of any message,
      and the server be left with any part of it. */
  lemma TornAnywhere(es: seq<Event>, e: Event, padding: Padding, n: nat)
    requires After(es).Alive? && 0 < n < MESSAGE_SIZE
    ensures Reachable(TornAfter(es, Encode(e, padding)[..n]))
  {
    var dies, part := DieWriting(e, padding, n), Encode(e, padding)[..n];
    IdleReachable(es);
    ReachableNext(Idle(es), dies);
    var c := Do(Idle(es), dies);
    assert [] + part == part && part[..n] == part && part[n..] == [];
    ReachableNext(c, ServerRecv(n));
    assert Do(c, ServerRecv(n)) == TornAfter(es, part);
  }

  function TornAfter(es: seq<Event>, part: seq<Byte>): Config
    requires After(es).Alive?
  {
    Live(Idle(es).net.(phase := Closed, serverBuffer := part, torn := |part|))
  }

  lemma DiesWritingAfter(es: seq<Event>)
    requires After(es).Alive?
    ensures Reachable(Dead(ServerStopped(RecvFailed), es, |es|))
  {
    var part := Encode(Signal, Zeros(POINTER_SIZE))[..1];
    TornAnywhere(es, Signal, Zeros(POINTER_SIZE), 1);
    ReachableNext(TornAfter(es, part), ServerEof);
  }

  lemma WriteFailsAfter(issued: seq<Event>, served: nat)
    requires DeadInv(ClientWriteFailed, issued, served)
    ensures Reachable(Dead(ClientWriteFailed, issued, served))
  {
    RunsExactlyTheAccepted(issued, served);
    var s :| Reachable(Live(s)) && s.phase == Running && s.issued == issued && s.served == served;
    ReachableNext(Live(s), IssueFails);
  }

  lemma FatalLast(cause: Cause, issued: seq<Event>, served: nat)
    requires DeadInv(cause, issued, served) && cause in {ServerStopped(Mismatch), ServerStopped(WriteFailed)}
    ensures Reachable(Dead(cause, issued, served))
  {
    var before, e := issued[..served], issued[served];
    assert issued == before + [e];
    NextVerdict(before, e);
    IdleReachable(before);
    ReceivedReachable(before, e, Zeros(POINTER_SIZE));
    FatalNext(before, e, Zeros(POINTER_SIZE));
  }

  /** How a run can end, exactly: each of these ends is met in some interleaving, and
      there is no other. */
  lemma EndsExactly(cause: Cause, issued: seq<Event>, served: nat)
    ensures Reachable(Dead(cause, issued, served)) <==> DeadInv(cause, issued, served)
  {
    if Reachable(Dead(cause, issued, served)) {
      InvReachable(Dead(cause, issued, served));
    }
    if DeadInv(cause, issued, served) {
      match cause
      case ClientWriteFailed => WriteFailsAfter(issued, served);
      case ServerStopped(Disconnected) =>
        assert issued[..served] == issued;
        DisconnectsAfter(issued);
      case ServerStopped(RecvFailed) =>
        assert issued[..served] == issued;
        DiesWritingAfter(issued);
      case ServerStopped(Mismatch) => FatalLast(cause, issued, served);
      case ServerStopped(WriteFailed) => FatalLast(cause, issued, served);
    }
  }

  /** And every end is one step away from a reachable live configuration. */
  lemma LastStep(c: Config)
    requires Reachable(c) && c.Dead?
    ensures exists s, a :: Reachable(Live(s)) && Enabled(Live(s), a) && Do(Live(s), a) == c
  {
    var actions :| Path(START, actions, c);
    assert Path(START, [], START);
    LastStepOnPath(START, actions, c);
  }

  lemma {:induction false} LastStepOnPath(c: Config, actions: seq<Action>, c': Config)
    requires Reachable(c) && c.Live? && Path(c, actions, c') && c'.Dead?
    ensures exists s, a :: Reachable(Live(s)) && Enabled(Live(s), a) && Do(Live(s), a) == c'
    decreases |actions|
  {
    ReachableNext(c, actions[0]);
    if Do(c, actions[0]).Live? {
      LastStepOnPath(Do(c, actions[0]), actions[1..], c');
    } else {
      assert Enabled(Live(c.net), actions[0]) && Do(Live(c.net), actions[0]) == c';
    }
  }

  // ----- Receiving in pieces -----

  function Sum(pieces: seq<nat>): nat {
    if pieces == [] then 0 else pieces[0] + Sum(pieces[1..])
  }

  function ServerRecvs(pieces: seq<nat>): seq<Action> {
    if pieces == [] then [] else [ServerRecv(pieces[0])] + ServerRecvs(pieces[1..])
  }

  function ClientRecvs(pieces: seq<nat>): seq<Action> {
    if pieces == [] then [] else [ClientRecv(pieces[0])] + ClientRecvs(pieces[1..])
  }

  lemma DeliverMore(buffer: seq<Byte>, stream: seq<Byte>, n: nat, m: nat)
    requires n + m <= |stream|
    ensures buffer + stream[..n] + stream[n..][..m] == buffer + stream[..n + m]
    ensures stream[n..][m..] == stream[n + m..]
  {
  }

  /** However recv cuts up what is under way to the server, the pieces add up. */
  lemma {:induction false} ServerRecvInPieces(s: Net, pieces: seq<nat>)
    requires (forall n | n in pieces :: n > 0) && Sum(pieces) <= |s.toServer|
    requires |s.serverBuffer| + Sum(pieces) <= MESSAGE_SIZE
    ensures var n := Sum(pieces);
            Path(Live(s), ServerRecvs(pieces),
                 Live(s.(serverBuffer := s.serverBuffer + s.toServer[..n], toServer := s.toServer[n..])))
    decreases |pieces|
  {
    if pieces == [] {
      assert s.serverBuffer + s.toServer[..0] == s.serverBuffer;
    } else {
      var n, rest := pieces[0], pieces[1..];
      assert n in pieces && forall m | m in rest :: m in pieces;
      ServerRecvInPieces(Do(Live(s), ServerRecv(n)).net, rest);
      DeliverMore(s.serverBuffer, s.toServer, n, Sum(rest));
      assert ServerRecvs(pieces)[1..] == ServerRecvs(rest);
    }
  }

  /** And the same at the client. */
  lemma {:induction false} ClientRecvInPieces(s: Net, pieces: seq<nat>)
    requires s.phase == Waiting && (forall n | n in pieces :: n > 0) && Sum(pieces) <= |s.toClient|
    requires |s.clientBuffer| + Sum(pieces) <= MESSAGE_SIZE
    ensures var n := Sum(pieces);
            Path(Live(s), ClientRecvs(pieces),
                 Live(s.(clientBuffer := s.clientBuffer + s.toClient[..n], toClient := s.toClient[n..])))
    decreases |pieces|
  {
    if pieces == [] {
      assert s.clientBuffer + s.toClient[..0] == s.clientBuffer;
    } else {
      var n, rest := pieces[0], pieces[1..];
      assert n in pieces && forall m | m in rest :: m in pieces;
      ClientRecvInPieces(Do(Live(s), ClientRecv(n)).net, rest);
      DeliverMore(s.clientBuffer, s.toClient, n, Sum(rest));
      assert ClientRecvs(pieces)[1..] == ClientRecvs(rest);
    }
  }
}
