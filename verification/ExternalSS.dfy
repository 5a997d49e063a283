/** The external mode's client: handlers that report to the server, and the
    hand-off of the socket's descriptor across execve. */
module ExternalSS {
  import opened Environment
  import opened Messages
  import opened ShadowStack
  import opened Sockets
  import opened Words

  /** Fault is reading past the end of the environment, at its null pointer. */
  datatype Outcome = Done | Terminated | Fault

  class Client {
    var sock: int
    var connection: Socket
    /** DR_SS_ENV_FD in the client's own environment. */
    var fdText: Option<string>

    constructor (connection: Socket, fdText: Option<string>)
      ensures this.connection == connection && this.fdText == fdText && sock == -1
    {
      this.sock, this.connection, this.fdText := -1, connection, fdText;
    }

    /** The attempt says how connecting and setenv turn out if they are called. */
    method Setup(attempt: Attempt) returns (outcome: Outcome)
      modifies this`sock, this`fdText
      ensures match Environment.Setup(old(fdText), attempt)
              case Failed => outcome == Terminated
              case Image(n, text) => outcome == Done && sock == n && fdText == Some(text)
      ensures outcome == Terminated <==>
                match old(fdText)
                case None => true
                case Some(s) => if s == "" then attempt.connected.None? || !attempt.recorded else Stoi(s).None?
      ensures outcome == Done && old(fdText) != Some("") ==> fdText == old(fdText) && Stoi(fdText.value) == Some(sock)
      ensures outcome == Done && old(fdText) == Some("") ==> attempt.connected == Some(sock)
    {
      if fdText == None {
        return Terminated;
      }
      if fdText.value != [] {
        var n := Stoi(fdText.value);
        if n == None {
          return Terminated;
        }
        sock := n.value;
      } else {
        if attempt.connected == None {
          return Terminated;
        }
        sock := attempt.connected.value;
        if !attempt.recorded {
          return Terminated;
        }
        fdText := Some(Decimal(sock));
      }
      return Done;
    }

    /** Sends what memory holds from the header's text on. */
    method SendHeaderOnly(header: seq<Byte>, following: seq<Byte>) returns (ok: bool)
      requires |header| == HEADER_LENGTH && |following| >= POINTER_SIZE
      modifies connection`sent, connection`credit
      ensures ok <==> old(connection.credit) > 0
      ensures connection.sent == old(connection.sent) + if ok then header + following[..POINTER_SIZE] else []
    {
      var memory := header + following;
      assert memory[..MESSAGE_SIZE] == header + following[..POINTER_SIZE];
      var written := connection.Write(memory[..MESSAGE_SIZE]);
      return written == MESSAGE_SIZE;
    }

    method SendWithBody(header: seq<Byte>, body: seq<Byte>) returns (ok: bool)
      requires |header| == HEADER_LENGTH && |body| == POINTER_SIZE
      modifies connection`sent, connection`credit
      ensures ok <==> old(connection.credit) > 0
      ensures connection.sent == old(connection.sent) + if ok then header + body else []
    {
      var toSend := new BodyMessage(header, body);
      var written := connection.Write(toSend.message[..]);
      return written == MESSAGE_SIZE;
    }

    /** recv_msg checks for Continue whatever type it is asked for. */
    method RecvMsg() returns (ok: bool)
      modifies connection`incoming
      ensures ok <==> |old(connection.incoming)| >= MESSAGE_SIZE
                      && IsAValid(old(connection.incoming)[..MESSAGE_SIZE], CONTINUE_HEADER)
      ensures ok ==> connection.incoming == old(connection.incoming)[MESSAGE_SIZE..]
      ensures ok ==> old(connection.incoming)[..HEADER_LENGTH] == [67, 79, 78, 84]
    {
      ghost var stream := connection.incoming;
      var buffer := new Byte[MESSAGE_SIZE](_ => 0);
      var received := connection.Recv(buffer);
      if received != MESSAGE_SIZE {
        return false;
      }
      assert buffer[..] == stream[..MESSAGE_SIZE];
      IsAValidIff(buffer[..], CONTINUE_HEADER);
      return IsAValid(buffer[..], CONTINUE_HEADER);
    }

    method OnCall(returnTo: Word) returns (ok: bool)
      modifies connection`sent, connection`credit
      ensures ok <==> old(connection.credit) > 0
      ensures forall p: Padding ::
                connection.sent == old(connection.sent) + if ok then Encode(Call(returnTo), p) else []
    {
      ok := SendWithBody(CALL_HEADER, Body(returnTo));
    }

    /** A return is let through only by a Continue from the server. */
    method OnRet(target: Word) returns (ok: bool)
      modifies connection
      ensures ok <==> && old(connection.credit) > 0
                      && |old(connection.incoming)| >= MESSAGE_SIZE
                      && IsAValid(old(connection.incoming)[..MESSAGE_SIZE], CONTINUE_HEADER)
      ensures forall p: Padding ::
                connection.sent == old(connection.sent)
                                   + if old(connection.credit) > 0 then Encode(Ret(target), p) else []
      ensures ok ==> connection.incoming == old(connection.incoming)[MESSAGE_SIZE..]
    {
      ok := SendWithBody(RET_HEADER, Body(target));
      if ok {
        ok := RecvMsg();
      }
    }

    method OnSignal(following: seq<Byte>) returns (ok: bool)
      requires |following| >= POINTER_SIZE
      modifies connection`sent, connection`credit
      ensures ok <==> old(connection.credit) > 0
      ensures connection.sent == old(connection.sent) + if ok then Encode(Signal, following[..POINTER_SIZE]) else []
    {
      ok := SendHeaderOnly(SIGNAL_HEADER, following);
    }

    /** Reports the execve, then sets the descriptor in the environment it passes. */
    method OnExecve(env: array<Entry>, following: seq<Byte>) returns (outcome: Outcome)
      requires |following| >= POINTER_SIZE
      modifies connection`sent, connection`credit, env
      ensures connection.sent == old(connection.sent)
                                 + if old(connection.credit) > 0 then Encode(Execve, following[..POINTER_SIZE]) else []
      ensures outcome == Done ==>
                && Find(old(env[..])).Some? && fdText.Some?
                && env[..] == Rewrite(old(env[..]), fdText.value)
      ensures outcome != Done ==> env[..] == old(env[..])
      ensures outcome == Fault <==> old(connection.credit) > 0 && Find(old(env[..])).None?
      ensures outcome == Terminated <==>
                old(connection.credit) == 0 || (Find(old(env[..])).Some? && fdText.None?)
      ensures forall i, j | 0 <= i < env.Length && 0 <= j < 16 && old(env[i]).Text?
                && (|old(env[i]).text| < 16 || old(env[i]).text[j] != "DR_SS_ENV_FD_VAR"[j]) :: env[i] == old(env[i])
    {
      var ok := SendHeaderOnly(EXECVE_HEADER, following);
      if !ok {
        return Terminated;
      }
      var next := 0;
      while next < env.Length && env[next] != Null && !HasPrefix(env[next])
        invariant 0 <= next <= env.Length
        invariant Null !in env[..next]
        invariant forall i | 0 <= i < next :: !HasPrefix(env[i])
      {
        assert env[..next + 1] == env[..next] + [env[next]];
        next := next + 1;
      }
      if next == env.Length || env[next] == Null {
        forall i | 0 <= i < env.Length && HasPrefix(env[i])
          ensures Null in env[..i]
        {
          assert env[..i][next] == Null;
        }
        return Fault;
      }
      assert HasPrefix(env[..][next]) && env[..][..next] == env[..next];
      assert Find(env[..]).Some? && Find(env[..]).value == next by {
        var k := Find(env[..]).value;
        assert HasPrefix(env[k]);
      }
      if fdText == None {
        return Terminated;
      }
      env[next] := Setting(fdText.value);
      return Done;
    }
  }
}
