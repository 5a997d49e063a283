/** One end of the stream socket between the client and the server. */
module Sockets {
  import opened Words

  class Socket {
    /** Everything that will arrive before the peer closes its end. */
    var incoming: seq<Byte>
    var sent: seq<Byte>
    /** How many more writes succeed. A write that fails delivers nothing. */
    var credit: nat

    constructor (incoming: seq<Byte>, credit: nat)
      ensures this.incoming == incoming && sent == [] && this.credit == credit
    {
      this.incoming, this.sent, this.credit := incoming, [], credit;
    }

    /** recv with MSG_WAITALL: short only at the end of the stream. */
    method Recv(buffer: array<Byte>) returns (received: nat)
      modifies this`incoming, buffer
      ensures received == if |old(incoming)| < buffer.Length then |old(incoming)| else buffer.Length
      ensures buffer[..received] == old(incoming)[..received]
      ensures incoming == old(incoming)[received..]
    {
      received := if |incoming| < buffer.Length then |incoming| else buffer.Length;
      for i := 0 to received
        invariant incoming == old(incoming)
        invariant buffer[..i] == incoming[..i]
      {
        buffer[i] := incoming[i];
      }
      incoming := incoming[received..];
    }

    method Write(bytes: seq<Byte>) returns (written: int)
      modifies this`sent, this`credit
      ensures old(credit) > 0 ==> written == |bytes| && sent == old(sent) + bytes && credit == old(credit) - 1
      ensures old(credit) == 0 ==> written == -1 && sent == old(sent) && credit == 0
    {
      if credit == 0 {
        return -1;
      }
      sent, credit := sent + bytes, credit - 1;
      return |bytes|;
    }
  }
}
