/**
 * The non-blocking server's protocol core: the packet queue, the framer
 * that fills it from one received chunk, and the steps of the serving loop
 * that classify a read and drain the queue through the command handler.
 * Selector, socket and thread plumbing are not part of this model; the
 * handler is a function parameter and "the key is writable" a boolean.
 */
module NioServer {
  import opened JavaLang
  import opened Packets
  import opened NioFramer
  import Status

  /** Bytes read from a session socket per readiness event. */
  const BufferSize: nat := 1024

  /** The response written for one packet: the handler's answer, if non-empty and the key is writable. */
  function Respond(handler: (string, string) -> string, p: Packet, writable: bool): (out: seq<string>)
    ensures |out| <= 1
    ensures out != [] <==> writable && handler(p.command, p.commandData) != ""
    ensures out != [] ==> out[0] == handler(p.command, p.commandData)
  {
    var response := handler(p.command, p.commandData);
    if |response| > 0 && writable then [response] else []
  }

  /** Everything written back, in order, while the packets `ps` are dispatched. */
  function Responses(handler: (string, string) -> string, ps: seq<Packet>, writable: bool): (out: seq<string>)
    ensures |out| <= |ps|
    ensures forall i :: 0 <= i < |out| ==> out[i] != ""
    ensures !writable ==> out == []
  {
    if ps == [] then []
    else Responses(handler, ps[..|ps| - 1], writable) + Respond(handler, ps[|ps| - 1], writable)
  }

  /** Dispatch order is queue order: the responses to `a + b` are those to `a`, then those to `b`. */
  lemma {:induction false} ResponsesAppend(handler: (string, string) -> string, a: seq<Packet>, b: seq<Packet>, writable: bool)
    ensures Responses(handler, a + b, writable) == Responses(handler, a, writable) + Responses(handler, b, writable)
    decreases |b|
  {
    if b != [] {
      var last := b[|b| - 1];
      assert (a + b)[..|a + b| - 1] == a + b[..|b| - 1];
      ResponsesAppend(handler, a, b[..|b| - 1], writable);
    } else {
      assert a + b == a;
    }
  }

  /** On a writable key where every answer is non-empty, each packet gets exactly its answer, in order. */
  lemma {:induction false} ResponsesAllAnswered(handler: (string, string) -> string, ps: seq<Packet>)
    requires forall i :: 0 <= i < |ps| ==> handler(ps[i].command, ps[i].commandData) != ""
    ensures |Responses(handler, ps, true)| == |ps|
    ensures forall i :: 0 <= i < |ps| ==>
              Responses(handler, ps, true)[i] == handler(ps[i].command, ps[i].commandData)
  {
    if ps != [] {
      ResponsesAllAnswered(handler, ps[..|ps| - 1]);
    }
  }

  class NIOserver {
    var hostName: string
    var listenerPort: int
    var serverStatus: int
    var fifoQueue: seq<Packet>

    /** A new server records its address, has an empty queue and an undefined status. */
    constructor (hostName: string, listenerPort: int)
      ensures this.hostName == hostName && this.listenerPort == listenerPort
      ensures serverStatus == Status.Undefined && fifoQueue == []
    {
      this.hostName := hostName;
      this.listenerPort := listenerPort;
      serverStatus := Status.Undefined;
      fifoQueue := [];
    }

    /**
     * The status field once `run()` has returned: unchanged after a refused
     * host or port (the returned status is discarded), `ExitFailure` otherwise.
     */
    method Run()
      modifies this`serverStatus
      ensures serverStatus == Status.StatusAfterRun(hostName, listenerPort, old(serverStatus))
      ensures hostName == "" ==> serverStatus == old(serverStatus)
    {
      var status := Status.ValidateStartup(hostName, listenerPort);
      if status == Status.ExitSuccess {
        // Only an exception ends the serving loop.
        serverStatus := Status.ExitFailure;
      }
    }

    /**
     * Scans one received chunk for `*command|data|&` packets and appends
     * each well-formed one to the queue; malformed spans are dropped and the
     * scan stops at a start marker with no end marker after it.
     */
    method QueuePacket(dataPacket: string)
      modifies this`fifoQueue
      ensures fifoQueue == old(fifoQueue) + Frame(dataPacket, 0)
    {
      var packetLen := |dataPacket|;
      if packetLen > 0 {
        var ptrStart := -1;
        var ptrEnd := 0;
        while ptrStart < packetLen
          invariant 0 <= ptrEnd < packetLen
          invariant ptrStart == -1 || ptrStart == ptrEnd
          invariant fifoQueue + Frame(dataPacket, ptrEnd) == old(fifoQueue) + Frame(dataPacket, 0)
          decreases packetLen - ptrEnd
        {
          ghost var scanFrom: nat := ptrEnd;
          ptrStart := IndexOf(dataPacket, StartOfPacket, ptrEnd);
          if ptrStart >= 0 {
            ptrEnd := IndexOf(dataPacket, EndOfPacket, ptrStart);
            if ptrEnd == -1 {
              // No end marker: the rest of the chunk is dropped.
              FrameStops(dataPacket, scanFrom);
              break;
            } else {
              var message := dataPacket[ptrStart..ptrEnd + 1];
              ghost var queued := fifoQueue;
              QueueMessage(message);
              FrameStep(dataPacket, scanFrom, ptrStart, ptrEnd);
              ghost var decoded, rest := Decoded(message), Frame(dataPacket, ptrEnd);
              assert fifoQueue + rest == queued + (decoded + rest);
              ptrStart := ptrEnd;
            }
          } else {
            FrameStops(dataPacket, scanFrom);
            break;
          }
        }
      } else {
        FrameStops(dataPacket, 0);
      }
    }

    /**
     * The body of the scan for one message: the command runs from index 1 to
     * the first separator and must be non-empty, the data to the next
     * separator, which must exist; a packet built from them is queued.
     */
    method QueueMessage(message: string)
      modifies this`fifoQueue
      ensures fifoQueue == old(fifoQueue) + Decoded(message)
    {
      var ptrFieldStart := 1;
      var ptrFieldEnd := IndexOf(message, FieldSeparator, 0);
      if ptrFieldEnd > 0 {
        var command := message[ptrFieldStart..ptrFieldEnd];
        if |command| > 0 {
          ptrFieldStart := ptrFieldEnd;
          ptrFieldEnd := IndexOf(message, FieldSeparator, ptrFieldStart + 1);
          if ptrFieldEnd > 0 {
            var commandData := message[ptrFieldStart + 1..ptrFieldEnd];
            var packet := BuildNIOpacket(command, commandData);
            fifoQueue := fifoQueue + [packet];
          }
        }
      }
    }

    method GetQueueSize() returns (size: int)
      ensures size == |fifoQueue|
    {
      size := |fifoQueue|;
    }

    /**
     * Removes and returns the head of the queue; on an empty queue returns a
     * fresh packet with both fields empty and leaves the queue as it is.
     */
    method GetPacket() returns (p: Packet)
      modifies this`fifoQueue
      ensures old(fifoQueue) != [] ==> p == old(fifoQueue)[0] && fifoQueue == old(fifoQueue)[1..]
      ensures old(fifoQueue) == [] ==> p == Packet("", "") && fifoQueue == []
    {
      var packet := new NIOpacket();
      p := packet.Value();
      if |fifoQueue| > 0 {
        p := fifoQueue[0];
        fifoQueue := fifoQueue[1..];
      }
    }

    /**
     * Feeds every queued packet, head first, to the handler and writes back
     * each non-empty response while the key is writable; returns the packets
     * in the order handled and the responses in the order written.
     */
    method Drain(handler: (string, string) -> string, writable: bool)
      returns (handled: seq<Packet>, written: seq<string>)
      modifies this`fifoQueue
      ensures fifoQueue == []
      ensures handled == old(fifoQueue)
      ensures written == Responses(handler, old(fifoQueue), writable)
    {
      handled, written := [], [];
      var size := GetQueueSize();
      while size > 0
        invariant handled + fifoQueue == old(fifoQueue)
        invariant written == Responses(handler, handled, writable)
        invariant size == |fifoQueue|
        decreases |fifoQueue|
      {
        var packet := GetPacket();
        var responsePacket := handler(packet.command, packet.commandData);
        if |responsePacket| > 0 {
          if writable {
            written := written + [responsePacket];
          }
        }
        assert (handled + [packet])[..|handled|] == handled;
        handled := handled + [packet];
        size := GetQueueSize();
      }
    }

    /**
     * One read event on a session socket: a chunk that is empty once trimmed
     * closes the connection and queues nothing; otherwise the trimmed text is
     * framed into the queue and the queue is drained at once.
     */
    method OnReadable(chunk: string, handler: (string, string) -> string, writable: bool)
      returns (closed: bool, handled: seq<Packet>, written: seq<string>)
      modifies this`fifoQueue
      ensures closed <==> Trim(chunk) == []
      ensures closed ==> fifoQueue == old(fifoQueue) && handled == [] && written == []
      ensures !closed ==> fifoQueue == []
      ensures !closed ==> handled == old(fifoQueue) + Frame(Trim(chunk), 0)
      ensures !closed ==> written == Responses(handler, handled, writable)
    {
      var dataPacket := Trim(chunk);
      var packetLength := |dataPacket|;
      handled, written := [], [];
      if packetLength <= 0 {
        closed := true;
      } else {
        closed := false;
        QueuePacket(dataPacket);
        handled, written := Drain(handler, writable);
      }
    }
  }

  /** `*GZ1|3|&` reaches the handler as (GZ1, 3) and its answer is written back unchanged. */
  method EndToEndExample(handler: (string, string) -> string) returns (handled: seq<Packet>, written: seq<string>)
    requires handler("GZ1", "3") == "*GZ1|37.34|&"
    ensures handled == [Packet("GZ1", "3")]
    ensures written == ["*GZ1|37.34|&"]
  {
    var server := new NIOserver("127.0.0.1", 62501);
    var wire := "*GZ1|3|&";
    assert wire == Wire([Packet("GZ1", "3")], ["", ""]);
    RoundTrip([Packet("GZ1", "3")], ["", ""]);
    assert StripLeading(wire) == wire;
    assert StripTrailing(wire) == wire;
    var closed;
    closed, handled, written := server.OnReadable(wire, handler, true);
    assert Respond(handler, Packet("GZ1", "3"), true) == ["*GZ1|37.34|&"];
  }
}
