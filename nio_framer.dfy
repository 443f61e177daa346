/**
 * The NIO server's wire format, `*command|data|&`, and the reference
 * definition of what one received chunk contributes to the packet queue.
 */
module NioFramer {
  import opened JavaLang
  import opened Packets

  const StartOfPacket: char := '*'
  const FieldSeparator: char := '|'
  const EndOfPacket: char := '&'

  /** Neither field separator nor end-of-packet marker occurs in `x`. */
  predicate NoDelimiters(x: string)
  {
    FieldSeparator !in x && EndOfPacket !in x
  }

  /** What a packet taken off the wire always looks like. */
  predicate ValidPacket(p: Packet)
  {
    |p.command| > 0 && NoDelimiters(p.command) && NoDelimiters(p.commandData)
  }

  /**
   * Splits one message — the text from a start marker up to and including
   * the first end marker after it — into command and data: the command runs
   * from index 1 to the first separator and must be non-empty; the data runs
   * to the next separator, which must exist. Anything between that separator
   * and the end marker is ignored.
   */
  function ParseMessage(message: string): (r: Option<Packet>)
    ensures r.Some? ==> |r.value.command| > 0
  {
    var fieldEnd := IndexOf(message, FieldSeparator, 0);
    if fieldEnd > 0 then
      var command := message[1..fieldEnd];
      if |command| > 0 then
        var dataEnd := IndexOf(message, FieldSeparator, fieldEnd + 1);
        if dataEnd > 0 then
          var data := message[fieldEnd + 1..dataEnd];
          Some(Packet(command, data))
        else None
      else None
    else None
  }

  /**
   * A decoded packet's fields hold no separator, and the message spells
   * them out from index 1, each followed by a separator.
   */
  lemma ParseMessageFields(message: string)
    ensures var r := ParseMessage(message);
            r.Some? ==> FieldSeparator !in r.value.command && FieldSeparator !in r.value.commandData
    ensures var r := ParseMessage(message);
            r.Some? ==>
              var n := |r.value.command| + |r.value.commandData|;
              n + 3 <= |message| &&
              message[1..n + 3] == r.value.command + [FieldSeparator] + r.value.commandData + [FieldSeparator]
  {
    var fieldEnd := IndexOf(message, FieldSeparator, 0);
    IndexOfFirst(message, FieldSeparator, 0);
    if fieldEnd > 1 {
      var dataEnd := IndexOf(message, FieldSeparator, fieldEnd + 1);
      IndexOfFirst(message, FieldSeparator, fieldEnd + 1);
      if dataEnd > 0 {
        var command, data := message[1..fieldEnd], message[fieldEnd + 1..dataEnd];
        assert message[1..|command| + |data| + 3] == command + [FieldSeparator] + data + [FieldSeparator];
      }
    }
  }

  /** The packets one message yields: its packet, or none if it is malformed. */
  function Decoded(message: string): seq<Packet>
  {
    match ParseMessage(message)
    case Some(p) => [p]
    case None => []
  }

  /** A span: a start marker, then text free of end markers, then one end marker. */
  predicate IsSpan(m: string)
  {
    |m| >= 2 && m[0] == StartOfPacket && m[|m| - 1] == EndOfPacket && EndOfPacket !in m[..|m| - 1]
  }

  /**
   * The messages cut out of `s` by scanning from `from`: find the next
   * start marker; none stops the scan. Every message is a span.
   */
  function Messages(s: string, from: nat): (ms: seq<string>)
    ensures forall k :: 0 <= k < |ms| ==> IsSpan(ms[k])
    decreases |s| - from, 1
  {
    var start := IndexOf(s, StartOfPacket, from);
    if start < 0 then [] else MessagesAt(s, start)
  }

  /**
   * The scan from a start marker at `start`: find the next end marker; none
   * stops the scan, otherwise the message runs from the one to the other,
   * both included, and the scan carries on from the end marker.
   */
  function MessagesAt(s: string, start: nat): (ms: seq<string>)
    requires start < |s| && s[start] == StartOfPacket
    ensures forall k :: 0 <= k < |ms| ==> IsSpan(ms[k])
    decreases |s| - start, 0
  {
    var end := IndexOf(s, EndOfPacket, start);
    if end < 0 then []
    else
      IndexOfFirst(s, EndOfPacket, start);
      var m := s[start..end + 1];
      assert m[..|m| - 1] == s[start..end];
      [m] + Messages(s, end)
  }

  /** The packets the messages `ms` yield, in order: at most one each. */
  function DecodeAll(ms: seq<string>): (ps: seq<Packet>)
    ensures |ps| <= |ms|
  {
    if ms == [] then [] else Decoded(ms[0]) + DecodeAll(ms[1..])
  }

  /**
   * The packets queued from one received chunk `s`, scanning from `from`.
   * Every one is valid: a non-empty command and no delimiter in either
   * field.
   */
  function Frame(s: string, from: nat): (ps: seq<Packet>)
    ensures forall p :: p in ps ==> ValidPacket(p)
  {
    DecodeAllValid(Messages(s, from));
    DecodeAll(Messages(s, from))
  }

  /** Decoding a message list split in two is decoding each part. */
  lemma {:induction false} DecodeAllAppend(a: seq<string>, b: seq<string>)
    ensures DecodeAll(a + b) == DecodeAll(a) + DecodeAll(b)
  {
    if a == [] {
      assert a + b == b;
    } else {
      assert (a + b)[1..] == a[1..] + b;
      DecodeAllAppend(a[1..], b);
    }
  }

  /** One step of the scan: the message between the markers found from `from`, then the scan from its end marker. */
  lemma FrameStep(s: string, from: nat, start: nat, end: nat)
    requires start == IndexOf(s, StartOfPacket, from) && end == IndexOf(s, EndOfPacket, start)
    ensures start < end < |s|
    ensures Frame(s, from) == Decoded(s[start..end + 1]) + Frame(s, end)
  {
    var ms := Messages(s, from);
    assert ms == MessagesAt(s, start) == [s[start..end + 1]] + Messages(s, end);
    assert ms[1..] == Messages(s, end);
  }

  /** No start marker from `from`, or no end marker after it: the scan queues nothing. */
  lemma FrameStops(s: string, from: nat)
    requires var start := IndexOf(s, StartOfPacket, from);
             start < 0 || IndexOf(s, EndOfPacket, start) < 0
    ensures Frame(s, from) == []
  {
    var start := IndexOf(s, StartOfPacket, from);
    if start >= 0 {
      assert Messages(s, from) == MessagesAt(s, start) == [];
    }
  }

  /** A span decodes to valid packets. */
  lemma DecodedIsValid(message: string)
    requires IsSpan(message)
    ensures forall p :: p in Decoded(message) ==> ValidPacket(p)
  {
    ParseMessageFields(message);
    match ParseMessage(message)
    case None =>
    case Some(p) =>
      var n := |p.command| + |p.commandData|;
      assert message[n + 2] == FieldSeparator;
      assert n + 3 <= |message| - 1;
      assert message[1..n + 3] == message[..|message| - 1][1..n + 3];
      assert p.command == message[1..n + 3][..|p.command|];
      assert p.commandData == message[1..n + 3][|p.command| + 1..n + 1];
  }

  /** Spans decode to valid packets. */
  lemma {:induction false} DecodeAllValid(ms: seq<string>)
    requires forall k :: 0 <= k < |ms| ==> IsSpan(ms[k])
    ensures forall p :: p in DecodeAll(ms) ==> ValidPacket(p)
  {
    if ms != [] {
      assert ms[0] in ms;
      DecodedIsValid(ms[0]);
      DecodeAllValid(ms[1..]);
    }
  }

  // ---------------------------------------------------------------------
  // Encoding
  // ---------------------------------------------------------------------

  /** The wire form `*command|data|&` of one packet. */
  function Encode(p: Packet): string
  {
    [StartOfPacket] + p.command + [FieldSeparator] + p.commandData + [FieldSeparator, EndOfPacket]
  }

  /**
   * The packets encoded one after another, with `noise[i]` in front of the
   * i-th packet and the last noise string after the final one.
   */
  function Wire(ps: seq<Packet>, noise: seq<string>): string
    requires |noise| == |ps| + 1
  {
    if ps == [] then noise[0] else noise[0] + Encode(ps[0]) + Wire(ps[1..], noise[1..])
  }

  /** Noise the framer passes over: it holds no start marker. */
  predicate Quiet(n: string)
  {
    StartOfPacket !in n
  }

  // ---------------------------------------------------------------------
  // Properties of the message decoder
  // ---------------------------------------------------------------------

  /** The messages of packets `ps`, in order. */
  function EncodeAll(ps: seq<Packet>): (ms: seq<string>)
    ensures |ms| == |ps|
  {
    if ps == [] then [] else [Encode(ps[0])] + EncodeAll(ps[1..])
  }

  /** A well-formed packet's message decodes to that packet, whatever follows the second separator. */
  lemma ParseEncoded(p: Packet, tail: string)
    requires ValidPacket(p)
    ensures ParseMessage([StartOfPacket] + p.command + [FieldSeparator] + p.commandData + [FieldSeparator] + tail)
            == Some(p)
  {
    var m := [StartOfPacket] + p.command + [FieldSeparator] + p.commandData + [FieldSeparator] + tail;
    var c := |p.command|;
    assert m[0] == StartOfPacket;
    assert forall i :: 1 <= i < c + 1 ==> m[i] == p.command[i - 1];
    IndexOfAt(m, FieldSeparator, 0, c + 1);
    assert m[1..c + 1] == p.command;
    assert forall i :: c + 2 <= i < c + 2 + |p.commandData| ==> m[i] == p.commandData[i - c - 2];
    IndexOfAt(m, FieldSeparator, c + 2, c + 2 + |p.commandData|);
    assert m[c + 2..c + 2 + |p.commandData|] == p.commandData;
  }

  /** A message with no separator after its start marker is dropped. */
  lemma MissingSeparatorRejected(body: string)
    requires FieldSeparator !in body
    ensures ParseMessage([StartOfPacket] + body + [EndOfPacket]) == None
  {
    var m := [StartOfPacket] + body + [EndOfPacket];
    forall i | 0 <= i < |m| ensures m[i] != FieldSeparator {
      if 0 < i < |m| - 1 {
        assert m[i] == body[i - 1];
      }
    }
    IndexOfAbsent(m, FieldSeparator, 0);
  }

  /** A message whose command is empty (`*|...`) is dropped. */
  lemma EmptyCommandRejected(rest: string)
    ensures ParseMessage([StartOfPacket, FieldSeparator] + rest) == None
  {
    var m := [StartOfPacket, FieldSeparator] + rest;
    IndexOfAt(m, FieldSeparator, 0, 1);
  }

  /** A message with a single separator (`*command|data&`) is dropped. */
  lemma SingleSeparatorRejected(command: string, data: string)
    requires FieldSeparator !in command && FieldSeparator !in data
    ensures ParseMessage([StartOfPacket] + command + [FieldSeparator] + data + [EndOfPacket]) == None
  {
    var m := [StartOfPacket] + command + [FieldSeparator] + data + [EndOfPacket];
    var c := |command|;
    forall i | 0 <= i < c + 1 ensures m[i] != FieldSeparator {
      if i > 0 {
        assert m[i] == command[i - 1];
      }
    }
    IndexOfAt(m, FieldSeparator, 0, c + 1);
    if c > 0 {
      forall i | c + 2 <= i < |m| ensures m[i] != FieldSeparator {
        if i < |m| - 1 {
          assert m[i] == data[i - c - 2];
        }
      }
      IndexOfAbsent(m, FieldSeparator, c + 2);
    }
  }

  /** Valid packets, encoded one by one, decode back to themselves. */
  lemma {:induction false} DecodeEncodeAll(ps: seq<Packet>)
    requires forall i :: 0 <= i < |ps| ==> ValidPacket(ps[i])
    ensures DecodeAll(EncodeAll(ps)) == ps
  {
    if ps != [] {
      var p := ps[0];
      ParseEncoded(p, [EndOfPacket]);
      assert Encode(p) == [StartOfPacket] + p.command + [FieldSeparator] + p.commandData + [FieldSeparator] + [EndOfPacket];
      DecodeEncodeAll(ps[1..]);
      assert EncodeAll(ps)[1..] == EncodeAll(ps[1..]);
      assert [p] + ps[1..] == ps;
    }
  }

  // ---------------------------------------------------------------------
  // Properties of the scan
  // ---------------------------------------------------------------------

  /** A slice of `p + q` past `p` is the matching slice of `q`. */
  lemma SliceShift(p: string, q: string, i: nat, j: nat)
    requires i <= j <= |q|
    ensures (p + q)[|p| + i..|p| + j] == q[i..j]
  {
  }

  /** The scan from a start marker whose end marker is at `end`: that message, then the scan from `end`. */
  lemma MessagesAtStep(s: string, start: nat, end: nat)
    requires start < |s| && s[start] == StartOfPacket
    requires end == IndexOf(s, EndOfPacket, start)
    ensures start < end < |s|
    ensures MessagesAt(s, start) == [s[start..end + 1]] + Messages(s, end)
  {
  }

  /** Scanning past a prefix depends only on what follows it. */
  lemma {:induction false} MessagesShift(p: string, q: string, k: nat)
    requires k <= |q|
    ensures Messages(p + q, |p| + k) == Messages(q, k)
    decreases |q| - k, 1
  {
    IndexOfShift(p, q, StartOfPacket, k);
    var start := IndexOf(q, StartOfPacket, k);
    if start >= 0 {
      assert Messages(p + q, |p| + k) == MessagesAt(p + q, |p| + start);
      assert Messages(q, k) == MessagesAt(q, start);
      MessagesAtShift(p, q, start);
    }
  }

  lemma {:induction false} MessagesAtShift(p: string, q: string, start: nat)
    requires start < |q| && q[start] == StartOfPacket
    ensures (p + q)[|p| + start] == StartOfPacket
    ensures MessagesAt(p + q, |p| + start) == MessagesAt(q, start)
    decreases |q| - start, 0
  {
    assert (p + q)[|p| + start] == q[start];
    IndexOfShift(p, q, EndOfPacket, start);
    var end := IndexOf(q, EndOfPacket, start);
    if end >= 0 {
      SliceShift(p, q, start, end + 1);
      MessagesShift(p, q, end);
      MessagesAtStep(p + q, |p| + start, |p| + end);
      MessagesAtStep(q, start, end);
    }
  }

  /** Text without a start marker in front of the scan position is skipped. */
  lemma SkipQuiet(n: string, q: string)
    requires Quiet(n)
    ensures Messages(n + q, 0) == Messages(q, 0)
  {
    var s := n + q;
    forall i | 0 <= i < |n| ensures s[i] != StartOfPacket {
      assert s[i] == n[i];
    }
    IndexOfSkip(s, StartOfPacket, 0, |n|);
    assert Messages(s, 0) == Messages(s, |n|);
    MessagesShift(n, q, 0);
  }

  /** A span at the scan position is the next message, and the scan resumes right after its end marker. */
  lemma MessagesSpan(m: string, rest: string)
    requires IsSpan(m)
    ensures Messages(m + rest, 0) == [m] + Messages(rest, 0)
  {
    var q := m + rest;
    var end := |m| - 1;
    IndexOfAt(q, StartOfPacket, 0, 0);
    forall i | 0 <= i < end ensures q[i] != EndOfPacket {
      assert q[i] == m[..end][i];
    }
    IndexOfAt(q, EndOfPacket, 0, end);
    assert q[0..end + 1] == m;
    assert Messages(q, 0) == MessagesAt(q, 0);
    // The scan continues from the end marker, which is not a start marker.
    assert q == m[..end] + ([EndOfPacket] + rest);
    MessagesShift(m[..end], [EndOfPacket] + rest, 0);
    SkipQuiet([EndOfPacket], rest);
  }

  /** An encoded packet is a span. */
  lemma EncodeIsSpan(p: Packet)
    requires ValidPacket(p)
    ensures IsSpan(Encode(p))
  {
    var m := Encode(p);
    assert m[..|m| - 1] == [StartOfPacket] + p.command + [FieldSeparator] + p.commandData + [FieldSeparator];
  }

  /** The wire with something after it, its first noise and packet split off. */
  lemma WireCons(ps: seq<Packet>, noise: seq<string>, rest: string)
    requires |noise| == |ps| + 1 && ps != []
    ensures Wire(ps, noise) + rest == noise[0] + (Encode(ps[0]) + (Wire(ps[1..], noise[1..]) + rest))
  {
  }

  /** One encoded packet behind quiet noise is the next message, and the scan goes on after it. */
  lemma MessagesEncoded(n: string, p: Packet, tail: string)
    requires Quiet(n) && ValidPacket(p)
    ensures Messages(n + (Encode(p) + tail), 0) == [Encode(p)] + Messages(tail, 0)
  {
    SkipQuiet(n, Encode(p) + tail);
    EncodeIsSpan(p);
    MessagesSpan(Encode(p), tail);
  }

  /**
   * Encoded packets with quiet noise around them are cut out as exactly
   * their messages, in order, and the scan then carries on with whatever
   * follows.
   */
  lemma {:induction false} MessagesWire(ps: seq<Packet>, noise: seq<string>, rest: string)
    requires |noise| == |ps| + 1
    requires forall i :: 0 <= i < |ps| ==> ValidPacket(ps[i])
    requires forall i :: 0 <= i < |noise| ==> Quiet(noise[i])
    ensures Messages(Wire(ps, noise) + rest, 0) == EncodeAll(ps) + Messages(rest, 0)
  {
    if ps == [] {
      SkipQuiet(noise[0], rest);
    } else {
      MessagesWire(ps[1..], noise[1..], rest);
      MessagesWireStep(ps, noise, rest);
    }
  }

  /** The inductive step of MessagesWire: one more packet in front of an already scanned wire. */
  lemma MessagesWireStep(ps: seq<Packet>, noise: seq<string>, rest: string)
    requires |noise| == |ps| + 1 && ps != []
    requires ValidPacket(ps[0]) && Quiet(noise[0])
    requires Messages(Wire(ps[1..], noise[1..]) + rest, 0) == EncodeAll(ps[1..]) + Messages(rest, 0)
    ensures Messages(Wire(ps, noise) + rest, 0) == EncodeAll(ps) + Messages(rest, 0)
  {
    WireCons(ps, noise, rest);
    MessagesEncoded(noise[0], ps[0], Wire(ps[1..], noise[1..]) + rest);
    EncodeAllCons(ps, Messages(rest, 0));
  }

  /** The messages of a non-empty packet list: the first packet's, then the others'. */
  lemma EncodeAllCons(ps: seq<Packet>, r: seq<string>)
    requires ps != []
    ensures [Encode(ps[0])] + (EncodeAll(ps[1..]) + r) == EncodeAll(ps) + r
  {
    assert [Encode(ps[0])] + EncodeAll(ps[1..]) == EncodeAll(ps);
  }

  /**
   * Round trip: well-formed packets, encoded with quiet noise around them,
   * are queued exactly and in order, and the scan then carries on with
   * whatever follows.
   */
  lemma FrameWire(ps: seq<Packet>, noise: seq<string>, rest: string)
    requires |noise| == |ps| + 1
    requires forall i :: 0 <= i < |ps| ==> ValidPacket(ps[i])
    requires forall i :: 0 <= i < |noise| ==> Quiet(noise[i])
    ensures Frame(Wire(ps, noise) + rest, 0) == ps + Frame(rest, 0)
  {
    MessagesWire(ps, noise, rest);
    DecodeAllAppend(EncodeAll(ps), Messages(rest, 0));
    DecodeEncodeAll(ps);
  }

  /** Encoded packets with quiet noise decode to exactly those packets. */
  lemma RoundTrip(ps: seq<Packet>, noise: seq<string>)
    requires |noise| == |ps| + 1
    requires forall i :: 0 <= i < |ps| ==> ValidPacket(ps[i])
    requires forall i :: 0 <= i < |noise| ==> Quiet(noise[i])
    ensures Frame(Wire(ps, noise), 0) == ps
  {
    FrameWire(ps, noise, []);
    assert Wire(ps, noise) + [] == Wire(ps, noise);
  }

  /** A start marker with no end marker after it ends the scan with nothing more queued. */
  lemma DanglingStartIgnored(t: string)
    requires EndOfPacket !in t
    ensures Frame([StartOfPacket] + t, 0) == []
  {
    var s := [StartOfPacket] + t;
    IndexOfAt(s, StartOfPacket, 0, 0);
    forall i | 0 <= i < |s| ensures s[i] != EndOfPacket {
      if i > 0 {
        assert s[i] == t[i - 1];
      }
    }
    IndexOfAbsent(s, EndOfPacket, 0);
    FrameStops(s, 0);
  }

  /** Packets framed before a dangling start marker are kept; the fragment adds nothing. */
  lemma DanglingStartKeepsEarlier(ps: seq<Packet>, noise: seq<string>, t: string)
    requires |noise| == |ps| + 1
    requires forall i :: 0 <= i < |ps| ==> ValidPacket(ps[i])
    requires forall i :: 0 <= i < |noise| ==> Quiet(noise[i])
    requires EndOfPacket !in t
    ensures Frame(Wire(ps, noise) + [StartOfPacket] + t, 0) == ps
  {
    FrameWire(ps, noise, [StartOfPacket] + t);
    DanglingStartIgnored(t);
    assert Wire(ps, noise) + [StartOfPacket] + t == Wire(ps, noise) + ([StartOfPacket] + t);
    assert ps + [] == ps;
  }

  /** A span behind quiet noise that decodes to nothing is passed over. */
  lemma SpanDropped(n: string, m: string, rest: string)
    requires Quiet(n) && IsSpan(m) && ParseMessage(m) == None
    ensures Frame(n + m + rest, 0) == Frame(rest, 0)
  {
    assert n + m + rest == n + (m + rest);
    SkipQuiet(n, m + rest);
    MessagesSpan(m, rest);
    DecodeAllAppend([m], Messages(rest, 0));
    assert DecodeAll([m]) == [];
  }

  /** The three malformed shapes are skipped and scanning resumes after their end marker. */
  lemma MalformedSpansSkipped(n: string, body: string, rest: string)
    requires Quiet(n) && EndOfPacket !in body
    requires || FieldSeparator !in body
             || (|body| > 0 && body[0] == FieldSeparator)
             || (exists i :: 0 <= i < |body| && body[i] == FieldSeparator &&
                   FieldSeparator !in body[..i] && FieldSeparator !in body[i + 1..])
    ensures var m := [StartOfPacket] + body + [EndOfPacket];
            Frame(n + m + rest, 0) == Frame(rest, 0)
  {
    var m := [StartOfPacket] + body + [EndOfPacket];
    assert m[..|m| - 1] == [StartOfPacket] + body;
    if FieldSeparator !in body {
      MissingSeparatorRejected(body);
    } else if |body| > 0 && body[0] == FieldSeparator {
      assert m == [StartOfPacket, FieldSeparator] + (body[1..] + [EndOfPacket]);
      EmptyCommandRejected(body[1..] + [EndOfPacket]);
    } else {
      var i :| 0 <= i < |body| && body[i] == FieldSeparator &&
               FieldSeparator !in body[..i] && FieldSeparator !in body[i + 1..];
      assert body == body[..i] + [FieldSeparator] + body[i + 1..];
      SingleSeparatorRejected(body[..i], body[i + 1..]);
    }
    SpanDropped(n, m, rest);
  }

  /** `junk*RS||&more*VS|x|&` queues (RS, "") then (VS, x). */
  lemma JunkBetweenPackets()
    ensures Frame("junk*RS||&more*VS|x|&", 0) == [Packet("RS", ""), Packet("VS", "x")]
  {
    var ps := [Packet("RS", ""), Packet("VS", "x")];
    var noise := ["junk", "more", ""];
    assert Wire(ps, noise) == "junk*RS||&more*VS|x|&";
    forall p | p in ps ensures ValidPacket(p) { }
    forall n | n in noise ensures Quiet(n) { }
    RoundTrip(ps, noise);
  }

  /** `*&` (no separator) queues nothing; the scan resumes after it. */
  lemma NoSeparatorExample(rest: string)
    ensures Frame("*&" + rest, 0) == Frame(rest, 0)
  {
    MissingSeparatorRejected("");
    assert [StartOfPacket] + "" + [EndOfPacket] == "*&";
    SpanDropped("", "*&", rest);
    assert "" + "*&" + rest == "*&" + rest;
  }

  /** `*|x|&` (empty command) queues nothing; the scan resumes after it. */
  lemma EmptyCommandExample(rest: string)
    ensures Frame("*|x|&" + rest, 0) == Frame(rest, 0)
  {
    EmptyCommandRejected("x|&");
    assert [StartOfPacket, FieldSeparator] + "x|&" == "*|x|&";
    assert "*|x|&"[..4] == "*|x|";
    SpanDropped("", "*|x|&", rest);
    assert "" + "*|x|&" + rest == "*|x|&" + rest;
  }

  /** `*AB|x&` (one separator) queues nothing; the scan resumes after it. */
  lemma SingleSeparatorExample(rest: string)
    ensures Frame("*AB|x&" + rest, 0) == Frame(rest, 0)
  {
    SingleSeparatorRejected("AB", "x");
    assert [StartOfPacket] + "AB" + [FieldSeparator] + "x" + [EndOfPacket] == "*AB|x&";
    assert "*AB|x&"[..5] == "*AB|x";
    SpanDropped("", "*AB|x&", rest);
    assert "" + "*AB|x&" + rest == "*AB|x&" + rest;
  }
}
