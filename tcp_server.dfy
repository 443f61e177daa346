/**
 * The TCP server's protocol core: its packet queue, the length-prefixed
 * framer that fills it from one received chunk, and the read step of the
 * serving loop. The server only queues; packets are taken off the queue by
 * its owner. Selector, socket and thread plumbing are not part of this model.
 */
module TcpServer {
  import opened JavaLang
  import opened Packets
  import opened TcpFramer
  import Status

  /** Bytes read from a session socket per readiness event. */
  const BufferSize: nat := 1024

  class TCPserver {
    var hostName: string
    var listenerPortNumber: int
    var serverStatus: int
    var fifoQueue: seq<TcpPacket>

    /** A new server records its address, has an empty queue and an undefined status. */
    constructor (hostName: string, listenerPortNumber: int)
      ensures this.hostName == hostName && this.listenerPortNumber == listenerPortNumber
      ensures serverStatus == Status.Undefined && fifoQueue == []
    {
      this.hostName := hostName;
      this.listenerPortNumber := listenerPortNumber;
      serverStatus := Status.Undefined;
      fifoQueue := [];
    }

    /**
     * The status field once `run()` has returned: unchanged after a refused
     * host or port (the returned status is discarded), `ExitFailure` otherwise.
     */
    method Run()
      modifies this`serverStatus
      ensures serverStatus == Status.StatusAfterRun(hostName, listenerPortNumber, old(serverStatus))
    {
      var status := Status.ValidateStartup(hostName, listenerPortNumber);
      if status == Status.ExitSuccess {
        // Only an exception ends the serving loop.
        serverStatus := Status.ExitFailure;
      }
    }

    /**
     * Scans one received chunk for `*ID|length|data` messages and appends a
     * packet per message to the queue. A missing separator or a length that
     * is not positive stops the scan; a length that does not parse or that
     * runs past the end raises, leaving the packets queued so far in place.
     * A Java string's length is an `int`, hence the bound on the chunk.
     */
    method QueuePacket(dataPacket: string) returns (raised: Option<JavaException>)
      requires |dataPacket| <= MaxInt as int
      modifies this`fifoQueue
      ensures fifoQueue == old(fifoQueue) + TcpFrame(dataPacket, 0).packets
      ensures raised == TcpFrame(dataPacket, 0).raised
    {
      raised := None;
      var ptrStart := 0;
      var ptrEnd := 0;
      var packetLen := |dataPacket|;
      if packetLen > 0 {
        ptrStart := -1;
        ptrEnd := 0;
        while ptrStart < packetLen
          invariant 0 <= ptrEnd <= packetLen
          invariant ptrStart < packetLen
          invariant raised == None
          invariant After(fifoQueue, TcpFrame(dataPacket, ptrEnd)) == After(old(fifoQueue), TcpFrame(dataPacket, 0))
          decreases packetLen - ptrEnd
        {
          ghost var scanFrom: nat := ptrEnd;
          var packet, r;
          ptrStart, ptrEnd, packet, r := ReadMessage(dataPacket, ptrEnd);
          if packet.None? {
            raised := r;
            AfterStop(fifoQueue, old(fifoQueue), TcpFrame(dataPacket, scanFrom), TcpFrame(dataPacket, 0), raised);
            return;
          }
          AfterEmit(fifoQueue, old(fifoQueue), TcpFrame(dataPacket, scanFrom), TcpFrame(dataPacket, 0), packet.value, TcpFrame(dataPacket, ptrEnd));
          fifoQueue := fifoQueue + [packet.value];
        }
      }
    }

    /**
     * One pass of the framing loop, from `from`: either the message found
     * there, with the loop's pointers past it, or no packet and the outcome
     * that ends the scan (a `break` when `raised` is `None`, an exception
     * otherwise).
     */
    method ReadMessage(dataPacket: string, from: nat) returns (ptrStart: int, ptrEnd: int, packet: Option<TcpPacket>, raised: Option<JavaException>)
      requires from <= |dataPacket| <= MaxInt as int
      ensures packet.Some? ==> raised == None && from < ptrEnd <= |dataPacket| && ptrStart < |dataPacket|
      ensures packet.Some? ==> TcpFrame(dataPacket, from) == After([packet.value], TcpFrame(dataPacket, ptrEnd))
      ensures packet.None? ==> TcpFrame(dataPacket, from) == Scan([], raised)
    {
      packet := None;
      raised := None;
      ptrEnd := from;
      ptrStart := IndexOf(dataPacket, MessageStart, ptrEnd);
      if ptrStart >= 0 {
        ghost var start: nat := ptrStart;
        ptrEnd := IndexOf(dataPacket, FieldSeparator, ptrStart + 1);
        if ptrEnd > ptrStart {
          ghost var idEnd: nat := ptrEnd;
          var sifbInstanceId := dataPacket[ptrStart + 1..ptrEnd];
          ptrStart := ptrEnd + 1;
          ptrEnd := IndexOf(dataPacket, FieldSeparator, ptrStart + 1);
          if ptrEnd > ptrStart {
            TcpFrameRead(dataPacket, from, start, idEnd, ptrEnd);
            ptrEnd, packet, raised := ReadData(dataPacket, sifbInstanceId, ptrStart, ptrEnd);
          } else {
            TcpFrameUnread(dataPacket, from, start);
          }
        } else {
          TcpFrameUnread(dataPacket, from, start);
        }
      } else {
        TcpFrameSeek(dataPacket, from);
      }
    }

    /**
     * The rest of a pass once the header is read: the ID, and the length
     * field between `ptrStart` and the separator at `ptrEnd`. Returns where
     * the next message might begin.
     */
    method ReadData(dataPacket: string, sifbInstanceId: string, ptrStart: nat, ptrEnd: nat)
      returns (next: int, packet: Option<TcpPacket>, raised: Option<JavaException>)
      requires ptrStart < ptrEnd < |dataPacket| <= MaxInt as int
      ensures packet.Some? ==> raised == None && ptrEnd < next <= |dataPacket|
      ensures packet.Some? ==> TcpData(dataPacket, Header(sifbInstanceId, dataPacket[ptrStart..ptrEnd], ptrEnd)) ==
                               After([packet.value], TcpFrame(dataPacket, next))
      ensures packet.None? ==> TcpData(dataPacket, Header(sifbInstanceId, dataPacket[ptrStart..ptrEnd], ptrEnd)) == Scan([], raised)
    {
      next := ptrEnd;
      packet := None;
      raised := None;
      ghost var h := Header(sifbInstanceId, dataPacket[ptrStart..ptrEnd], ptrEnd);
      TcpDataStops(dataPacket, h);
      var parsed := ParseInt(dataPacket[ptrStart..ptrEnd]);
      if parsed.Failure? {
        // Integer.valueOf throws.
        raised := Some(parsed.error);
        return;
      }
      var fieldLen := parsed.value;
      if fieldLen > 0 {
        // substring(begin, end) throws unless begin <= end <= length;
        // `end` is computed in 32-bit arithmetic.
        var msgEnd: int := Wrap(ptrEnd + 1 + fieldLen as int) as int;
        WrapNonNegative(ptrEnd + 1 + fieldLen as int);
        if msgEnd > |dataPacket| || ptrEnd + 1 > msgEnd {
          raised := Some(StringIndexOutOfBoundsException);
          return;
        }
        TcpDataEmit(dataPacket, h, fieldLen);
        var message := dataPacket[ptrEnd + 1..msgEnd];
        var built := BuildTCPserverPacket(sifbInstanceId, message);
        packet := Some(built);
        next := ptrEnd + 1 + fieldLen as int;
      }
    }

    method GetQueueSize() returns (size: int)
      ensures size == |fifoQueue|
    {
      size := |fifoQueue|;
    }

    /**
     * Removes and returns the head of the queue; on an empty queue returns a
     * fresh packet with both fields empty and leaves the queue as it is.
     */
    method GetPacket() returns (p: TcpPacket)
      modifies this`fifoQueue
      ensures old(fifoQueue) != [] ==> p == old(fifoQueue)[0] && fifoQueue == old(fifoQueue)[1..]
      ensures old(fifoQueue) == [] ==> p == TcpPacket("", "") && fifoQueue == []
    {
      var packet := new TCPserverPacket();
      p := packet.Value();
      if |fifoQueue| > 0 {
        p := fifoQueue[0];
        fifoQueue := fifoQueue[1..];
      }
    }

    /**
     * One read event on a session socket: a chunk that is empty once trimmed
     * closes the connection and queues nothing; otherwise the trimmed text is
     * framed into the queue. There is no dispatch step here.
     */
    method OnReadable(chunk: string) returns (closed: bool, raised: Option<JavaException>)
      requires |chunk| <= MaxInt as int
      modifies this`fifoQueue
      ensures closed <==> Trim(chunk) == []
      ensures closed ==> fifoQueue == old(fifoQueue) && raised == None
      ensures !closed ==> fifoQueue == old(fifoQueue) + TcpFrame(Trim(chunk), 0).packets
      ensures !closed ==> raised == TcpFrame(Trim(chunk), 0).raised
    {
      var dataPacket := Trim(chunk);
      var packetLength := |dataPacket|;
      raised := None;
      if packetLength <= 0 {
        closed := true;
      } else {
        closed := false;
        raised := QueuePacket(dataPacket);
      }
    }
  }

  /**
   * A chunk holding exactly one encoded packet whose data ends in a visible
   * character survives trimming and frames back to that packet.
   */
  lemma OnePacketChunk(p: TcpPacket)
    requires Encodable(p) && p.dataPacket[|p.dataPacket| - 1] > ' '
    ensures Trim(TcpEncode(p)) == TcpEncode(p)
    ensures TcpFrame(TcpEncode(p), 0) == Scan([p], None)
  {
    var w := TcpEncode(p);
    assert w[0] == MessageStart && w[|w| - 1] == p.dataPacket[|p.dataPacket| - 1];
    assert StripLeading(w) == w;
    assert TcpWire([p], ["", ""]) == w by {
      assert TcpWire([], [""]) == "";
    }
    TcpRoundTrip([p], ["", ""]);
  }

  lemma FirstChunk(a: string)
    requires a == "*2|9|57.002834"
    ensures a == TcpEncode(TcpPacket("2", "57.002834"))
  {
    assert IntToString(9) == "9";
  }

  lemma SecondChunk(b: string)
    requires b == "*1|6|-34.45"
    ensures b == TcpEncode(TcpPacket("1", "-34.45"))
  {
    assert IntToString(6) == "6";
  }

  /** Queue order is arrival order: two reads queue the first chunk's packets, then the second's. */
  method TwoReadsExample() returns (first: TcpPacket, second: TcpPacket, size: int)
    ensures first == TcpPacket("2", "57.002834") && second == TcpPacket("1", "-34.45")
    ensures size == 0
  {
    var server := new TCPserver("127.0.0.1", 62502);
    var a, b := "*2|9|57.002834", "*1|6|-34.45";
    FirstChunk(a);
    SecondChunk(b);
    OnePacketChunk(TcpPacket("2", "57.002834"));
    OnePacketChunk(TcpPacket("1", "-34.45"));
    var closed, raised := server.OnReadable(a);
    closed, raised := server.OnReadable(b);
    first := server.GetPacket();
    second := server.GetPacket();
    size := server.GetQueueSize();
  }
}
