/**
 * The TCP server's length-prefixed wire format,
 * `*SIFB instance ID|data length|data`, and the reference definition of
 * what one received chunk contributes to the queue, including the
 * exceptions the scan can raise part-way through.
 */
module TcpFramer {
  import opened JavaLang
  import opened Packets

  const MessageStart: char := '*'
  const FieldSeparator: char := '|'

  /**
   * The outcome of scanning a chunk: the packets queued, in order, and the
   * exception that ended the scan, if one did. Packets queued before an
   * exception stay queued.
   */
  datatype Scan = Scan(packets: seq<TcpPacket>, raised: Option<JavaException>)

  /** What every packet the TCP framer queues looks like. */
  predicate WellFramed(p: TcpPacket)
  {
    FieldSeparator !in p.sifbInstanceId && p.dataPacket != []
  }

  /** `queued` followed by everything the scan `r` queues, and how `r` ended. */
  function After(queued: seq<TcpPacket>, r: Scan): Scan
  {
    Scan(queued + r.packets, r.raised)
  }

  /** The number of data characters carried by `ps`. */
  function TotalData(ps: seq<TcpPacket>): nat
  {
    if ps == [] then 0 else |ps[0].dataPacket| + TotalData(ps[1..])
  }

  lemma TotalDataCons(p: TcpPacket, ps: seq<TcpPacket>)
    ensures TotalData([p] + ps) == |p.dataPacket| + TotalData(ps)
  {
    assert ([p] + ps)[1..] == ps;
  }

  /** Queueing nothing before a scan changes nothing. */
  lemma AfterNothing(r: Scan)
    ensures After([], r) == r
  {
    assert [] + r.packets == r.packets;
  }

  /** Queueing `x` after `q` and then scanning is queueing `q`, then `x`, then scanning. */
  lemma AfterAppend(q: seq<TcpPacket>, x: seq<TcpPacket>, r: Scan)
    ensures After(q + x, r) == After(q, After(x, r))
  {
    assert (q + x) + r.packets == q + (x + r.packets);
  }

  /** A scan stopping with `r` after `q` is queued, where the whole scan would have gone there: `q` and `r` are its result. */
  lemma AfterStop(q: seq<TcpPacket>, q0: seq<TcpPacket>, here: Scan, whole: Scan, r: Option<JavaException>)
    requires After(q, here) == After(q0, whole) && here == Scan([], r)
    ensures q == q0 + whole.packets && r == whole.raised
  {
    assert q + [] == q;
  }

  /** Queueing the packet a scan starts with keeps the queue and the rest of the scan on course. */
  lemma AfterEmit(q: seq<TcpPacket>, q0: seq<TcpPacket>, here: Scan, whole: Scan, p: TcpPacket, rest: Scan)
    requires After(q, here) == After(q0, whole) && here == After([p], rest)
    ensures After(q + [p], rest) == After(q0, whole)
  {
    AfterAppend(q, [p], rest);
  }

  /**
   * The header of the message whose start marker is at `start`: the ID runs
   * to the next separator; the length field starts right after it and ends
   * at the next separator found from one character further on. None if
   * either separator is missing.
   */
  datatype Header = Header(id: string, lengthText: string, lenEnd: nat)

  function ReadHeader(s: string, start: nat): (h: Option<Header>)
    ensures h.Some? ==> start < h.value.lenEnd < |s|
  {
    var idEnd := IndexOf(s, FieldSeparator, start + 1);
    if idEnd < 0 then None
    else
      var lenStart := idEnd + 1;
      var lenEnd := IndexOf(s, FieldSeparator, lenStart + 1);
      if lenEnd < 0 then None
      else Some(Header(s[start + 1..idEnd], s[lenStart..lenEnd], lenEnd))
  }

  /** The ID a header holds stops at the first separator, so it holds none. */
  lemma ReadHeaderId(s: string, start: nat)
    requires ReadHeader(s, start).Some?
    ensures FieldSeparator !in ReadHeader(s, start).value.id
  {
    var idEnd := IndexOf(s, FieldSeparator, start + 1);
    IndexOfFirst(s, FieldSeparator, start + 1);
    var id := s[start + 1..idEnd];
    forall j | 0 <= j < |id| ensures id[j] != FieldSeparator {
      assert id[j] == s[start + 1 + j];
    }
  }

  /** All of `ps` are well framed. */
  predicate AllWellFramed(ps: seq<TcpPacket>)
  {
    forall i :: 0 <= i < |ps| ==> WellFramed(ps[i])
  }

  /** A well-framed packet queued ahead of a well-framed scan keeps it well framed. */
  lemma AfterWellFramed(p: TcpPacket, r: Scan)
    requires AllWellFramed(r.packets)
    ensures WellFramed(p) ==> AllWellFramed(After([p], r).packets)
  {
    var ps := After([p], r).packets;
    assert forall i :: 1 <= i < |ps| ==> ps[i] == r.packets[i - 1];
  }

  /**
   * Scanning `s` from `from`: pass over characters up to the next start
   * marker; reaching the end ends the scan quietly. Every packet queued
   * has a separator-free ID and a non-empty data field.
   */
  function TcpFrame(s: string, from: nat): (r: Scan)
    ensures AllWellFramed(r.packets)
    decreases |s| - from, 2
  {
    if from >= |s| then Scan([], None)
    else if s[from] == MessageStart then TcpMessage(s, from)
    else TcpFrame(s, from + 1)
  }

  /** Scanning from a start marker at `start`: read the header after it; a missing separator stops the scan. */
  function TcpMessage(s: string, start: nat): (r: Scan)
    ensures AllWellFramed(r.packets)
    decreases |s| - start, 1
  {
    match ReadHeader(s, start)
    case None => Scan([], None)
    case Some(h) =>
      ReadHeaderId(s, start);
      TcpData(s, h)
  }

  /**
   * Scanning once the header `h` is read: a length that does not parse
   * raises NumberFormatException, one that is not positive stops the scan,
   * one that runs past the end raises StringIndexOutOfBoundsException;
   * otherwise the message is exactly that many characters, whatever they
   * are, and the scan resumes right after it.
   */
  function TcpData(s: string, h: Header): (r: Scan)
    ensures FieldSeparator !in h.id ==> AllWellFramed(r.packets)
    decreases |s| - h.lenEnd, 0
  {
    match ParseInt(h.lengthText)
    case Failure(e) => Scan([], Some(e))
    case Success(fieldLen) =>
      if fieldLen <= 0 then Scan([], None)
      else if h.lenEnd + 1 + fieldLen as int > |s| then Scan([], Some(StringIndexOutOfBoundsException))
      else
        var next := h.lenEnd + 1 + fieldLen as int;
        AfterWellFramed(TcpPacket(h.id, s[h.lenEnd + 1..next]), TcpFrame(s, next));
        After([TcpPacket(h.id, s[h.lenEnd + 1..next])], TcpFrame(s, next))
  }

  /** From a start marker at `start`, both separators found: the scan goes on with the header between them. */
  lemma TcpMessageRead(s: string, start: nat, idEnd: nat, lenEnd: nat)
    requires IndexOf(s, FieldSeparator, start + 1) == idEnd as int
    requires IndexOf(s, FieldSeparator, idEnd + 2) == lenEnd as int
    ensures TcpMessage(s, start) == TcpData(s, Header(s[start + 1..idEnd], s[idEnd + 1..lenEnd], lenEnd))
  {
  }

  /** From a start marker at `start`, a missing separator stops the scan quietly. */
  lemma TcpMessageUnread(s: string, start: nat)
    requires IndexOf(s, FieldSeparator, start + 1) < 0 ||
             IndexOf(s, FieldSeparator, IndexOf(s, FieldSeparator, start + 1) + 2) < 0
    ensures TcpMessage(s, start) == Scan([], None)
  {
  }

  /** From `from`, the scan reads the header of the first message `indexOf` finds. */
  lemma TcpFrameRead(s: string, from: nat, start: nat, idEnd: nat, lenEnd: nat)
    requires IndexOf(s, MessageStart, from) == start as int
    requires IndexOf(s, FieldSeparator, start + 1) == idEnd as int
    requires IndexOf(s, FieldSeparator, idEnd + 2) == lenEnd as int
    ensures TcpFrame(s, from) == TcpData(s, Header(s[start + 1..idEnd], s[idEnd + 1..lenEnd], lenEnd))
  {
    TcpFrameSeek(s, from);
    TcpMessageRead(s, start, idEnd, lenEnd);
  }

  /** From `from`, a message `indexOf` finds whose header lacks a separator stops the scan quietly. */
  lemma TcpFrameUnread(s: string, from: nat, start: nat)
    requires IndexOf(s, MessageStart, from) == start as int
    requires IndexOf(s, FieldSeparator, start + 1) < 0 ||
             IndexOf(s, FieldSeparator, IndexOf(s, FieldSeparator, start + 1) + 2) < 0
    ensures TcpFrame(s, from) == Scan([], None)
  {
    TcpFrameSeek(s, from);
    TcpMessageUnread(s, start);
  }

  /** With the header read, a length that does not parse, is not positive or runs past the end stops the scan. */
  lemma TcpDataStops(s: string, h: Header)
    ensures ParseInt(h.lengthText).Failure? ==> TcpData(s, h) == Scan([], Some(ParseInt(h.lengthText).error))
    ensures ParseInt(h.lengthText).Success? && ParseInt(h.lengthText).value <= 0 ==> TcpData(s, h) == Scan([], None)
    ensures ParseInt(h.lengthText).Success? && ParseInt(h.lengthText).value > 0 &&
            h.lenEnd + 1 + ParseInt(h.lengthText).value as int > |s| ==>
            TcpData(s, h) == Scan([], Some(StringIndexOutOfBoundsException))
  {
  }

  /** A header whose length field reads as `n`, positive and within the chunk: the next `n` characters are queued. */
  lemma TcpDataEmit(s: string, h: Header, n: int32)
    requires ParseInt(h.lengthText) == Success(n) && 0 < n && h.lenEnd + 1 + n as int <= |s|
    ensures TcpData(s, h) == After([TcpPacket(h.id, s[h.lenEnd + 1..h.lenEnd + 1 + n as int])], TcpFrame(s, h.lenEnd + 1 + n as int))
  {
    match ParseInt(h.lengthText)
    case Success(fieldLen) =>
      assert fieldLen == n;
  }

  /**
   * The scan goes on from the start marker `indexOf` finds, and ends
   * quietly when it finds none.
   */
  lemma {:induction false} TcpFrameSeek(s: string, from: nat)
    ensures IndexOf(s, MessageStart, from) < 0 ==> TcpFrame(s, from) == Scan([], None)
    ensures IndexOf(s, MessageStart, from) >= 0 ==> TcpFrame(s, from) == TcpMessage(s, IndexOf(s, MessageStart, from))
    decreases |s| - from
  {
    if from < |s| && s[from] != MessageStart {
      TcpFrameSeek(s, from + 1);
    }
  }

  /** Positions holding no start marker are passed over. */
  lemma {:induction false} TcpFrameSkip(s: string, from: nat, to: nat)
    requires from <= to <= |s|
    requires forall i :: from <= i < to ==> s[i] != MessageStart
    ensures TcpFrame(s, from) == TcpFrame(s, to)
    decreases |s| - from
  {
    if from < to {
      TcpFrameSkip(s, from + 1, to);
    }
  }

  // ---------------------------------------------------------------------
  // Encoding
  // ---------------------------------------------------------------------

  /** A packet the format can carry: an ID without separators and a data field of 1 to 2^31-1 characters. */
  predicate Encodable(p: TcpPacket)
  {
    FieldSeparator !in p.sifbInstanceId && 0 < |p.dataPacket| <= MaxInt as int
  }

  /** A message header: start marker, ID, separator, length field, separator. */
  function HeaderText(id: string, len: string): string
  {
    [MessageStart] + id + [FieldSeparator] + len + [FieldSeparator]
  }

  /** The wire form of one packet: its header with the decimal length of its data, then the data. */
  function TcpEncode(p: TcpPacket): string
  {
    HeaderText(p.sifbInstanceId, IntToString(|p.dataPacket|)) + p.dataPacket
  }

  /** Packets encoded one after another, `noise[i]` in front of the i-th and the last after the final one. */
  function TcpWire(ps: seq<TcpPacket>, noise: seq<string>): string
    requires |noise| == |ps| + 1
  {
    if ps == [] then noise[0] else noise[0] + TcpEncode(ps[0]) + TcpWire(ps[1..], noise[1..])
  }

  /** Noise between packets: it holds no start marker. */
  predicate Quiet(n: string)
  {
    MessageStart !in n
  }

  /** `s` holds `t` at position `at`. */
  predicate HoldsAt(s: string, at: nat, t: string)
  {
    at + |t| <= |s| && forall i :: 0 <= i < |t| ==> s[at + i] == t[i]
  }

  /** Text held at `at` as two parts is its first part at `at` and its second right after. */
  lemma HoldsAtSplit(s: string, at: nat, x: string, y: string)
    requires HoldsAt(s, at, x + y)
    ensures HoldsAt(s, at, x) && HoldsAt(s, at + |x|, y)
  {
    forall i | 0 <= i < |x| ensures s[at + i] == x[i] {
      assert (x + y)[i] == x[i];
    }
    forall i | 0 <= i < |y| ensures s[at + |x| + i] == y[i] {
      assert (x + y)[|x| + i] == y[i];
    }
  }

  /** Text held at `at` is the slice of `s` it covers. */
  lemma HoldsAtSlice(s: string, at: nat, t: string)
    requires HoldsAt(s, at, t)
    ensures s[at..at + |t|] == t
  {
  }

  // ---------------------------------------------------------------------
  // Properties of the scan
  // ---------------------------------------------------------------------

  /** A scan never queues more data than the chunk holds from the scan position on. */
  lemma {:induction false} TcpFrameDataBounded(s: string, from: nat)
    requires from <= |s|
    ensures TotalData(TcpFrame(s, from).packets) <= |s| - from
    decreases |s| - from, 2
  {
    if from < |s| {
      if s[from] == MessageStart {
        TcpMessageDataBounded(s, from);
      } else {
        TcpFrameDataBounded(s, from + 1);
      }
    }
  }

  lemma {:induction false} TcpMessageDataBounded(s: string, start: nat)
    requires start <= |s|
    ensures TotalData(TcpMessage(s, start).packets) <= |s| - start
    decreases |s| - start, 1
  {
    match ReadHeader(s, start)
    case None =>
    case Some(h) =>
      TcpDataDataBounded(s, h);
  }

  lemma {:induction false} TcpDataDataBounded(s: string, h: Header)
    requires h.lenEnd < |s|
    ensures TotalData(TcpData(s, h).packets) < |s| - h.lenEnd
    decreases |s| - h.lenEnd, 0
  {
    match ParseInt(h.lengthText)
    case Failure(_) =>
    case Success(fieldLen) =>
      if 0 < fieldLen && h.lenEnd + 1 + fieldLen as int <= |s| {
        var next := h.lenEnd + 1 + fieldLen as int;
        var packet := TcpPacket(h.id, s[h.lenEnd + 1..next]);
        TcpFrameDataBounded(s, next);
        var rest := TcpFrame(s, next).packets;
        assert TcpData(s, h).packets == [packet] + rest;
        TotalDataCons(packet, rest);
      }
  }

  /** Scanning from the end of the chunk queues nothing and raises nothing. */
  lemma TcpFrameAtEnd(s: string)
    ensures TcpFrame(s, |s|) == Scan([], None)
  {
  }

  /** No separator occurs in a decimal rendering of an integer. */
  lemma NoSeparatorInNumber(n: int)
    ensures FieldSeparator !in IntToString(n)
  {
    var t := IntToString(n);
    IntToStringChars(n);
    forall i | 0 <= i < |t| ensures t[i] != FieldSeparator {
    }
  }

  /**
   * A start marker at `start`, the next separator at `idEnd` and the next
   * one from two past it at `lenEnd`: the header read there is the text
   * between them.
   */
  lemma HeaderFound(s: string, start: nat, idEnd: nat, lenEnd: nat)
    requires start < idEnd && idEnd + 1 < lenEnd < |s|
    requires s[start] == MessageStart && s[idEnd] == FieldSeparator && s[lenEnd] == FieldSeparator
    requires forall i :: start < i < idEnd ==> s[i] != FieldSeparator
    requires forall i :: idEnd + 2 <= i < lenEnd ==> s[i] != FieldSeparator
    ensures ReadHeader(s, start) == Some(Header(s[start + 1..idEnd], s[idEnd + 1..lenEnd], lenEnd))
  {
    IndexOfAt(s, FieldSeparator, start + 1, idEnd);
    IndexOfAt(s, FieldSeparator, idEnd + 2, lenEnd);
  }

  /** The pieces of a header held at `start`, each at its own position. */
  lemma HeaderParts(s: string, start: nat, id: string, len: string)
    requires HoldsAt(s, start, HeaderText(id, len))
    ensures var idEnd := start + 1 + |id|;
            s[start] == MessageStart && HoldsAt(s, start + 1, id) && s[idEnd] == FieldSeparator &&
            HoldsAt(s, idEnd + 1, len) && s[idEnd + 1 + |len|] == FieldSeparator
  {
    var idEnd := start + 1 + |id|;
    HoldsAtSplit(s, start, [MessageStart] + id + [FieldSeparator] + len, [FieldSeparator]);
    HoldsAtSplit(s, start, [MessageStart] + id + [FieldSeparator], len);
    HoldsAtSplit(s, start, [MessageStart] + id, [FieldSeparator]);
    HoldsAtSplit(s, start, [MessageStart], id);
    assert s[start + 0] == [MessageStart][0];
    assert s[idEnd + 0] == [FieldSeparator][0];
    assert s[idEnd + 1 + |len| + 0] == [FieldSeparator][0];
  }

  /** Text without `c` held at `at` puts no `c` at the positions it covers. */
  lemma HoldsAtWithout(s: string, at: nat, t: string, c: char)
    requires HoldsAt(s, at, t) && c !in t
    ensures forall i :: at <= i < at + |t| ==> s[i] != c
  {
    forall i | at <= i < at + |t| ensures s[i] != c {
      assert s[at + (i - at)] == t[i - at];
    }
  }

  /**
   * A header `*id|L|` at `start`, with `L` a separator-free length field of
   * at least one character: the scan finds the start marker there, reads
   * `id` and `L`, and looks for the data right after the second separator.
   */
  lemma HeaderAt(s: string, start: nat, id: string, len: string)
    requires FieldSeparator !in id && FieldSeparator !in len && len != []
    requires HoldsAt(s, start, HeaderText(id, len))
    ensures start < |s| && s[start] == MessageStart
    ensures ReadHeader(s, start) == Some(Header(id, len, start + |id| + 2 + |len|))
  {
    var idEnd := start + 1 + |id|;
    var lenEnd := idEnd + 1 + |len|;
    HeaderParts(s, start, id, len);
    HoldsAtWithout(s, start + 1, id, FieldSeparator);
    HoldsAtWithout(s, idEnd + 1, len, FieldSeparator);
    HeaderFound(s, start, idEnd, lenEnd);
    HoldsAtSlice(s, start + 1, id);
    HoldsAtSlice(s, idEnd + 1, len);
  }

  /** A start marker at `start` whose header reads as `h`: the scan from there goes on with `h`. */
  lemma TcpFrameHeader(s: string, start: nat, h: Header)
    requires start < |s| && s[start] == MessageStart && ReadHeader(s, start) == Some(h)
    ensures TcpFrame(s, start) == TcpData(s, h)
  {
    assert TcpFrame(s, start) == TcpMessage(s, start);
  }

  /** A header whose length field reads as the length of `data`, with `data` right after it: `data` is queued. */
  lemma TcpDataHeld(s: string, h: Header, data: string)
    requires 0 < |data| <= MaxInt as int && ParseInt(h.lengthText) == Success(|data| as int32)
    requires HoldsAt(s, h.lenEnd + 1, data)
    ensures TcpData(s, h) == After([TcpPacket(h.id, data)], TcpFrame(s, h.lenEnd + 1 + |data|))
  {
    HoldsAtSlice(s, h.lenEnd + 1, data);
  }

  /** An encodable packet at `start` is queued, and the scan resumes right after its data. */
  lemma TcpEncodedAt(s: string, start: nat, p: TcpPacket)
    requires Encodable(p) && HoldsAt(s, start, TcpEncode(p))
    ensures TcpFrame(s, start) == After([p], TcpFrame(s, start + |TcpEncode(p)|))
  {
    var data := p.dataPacket;
    var n := |data| as int32;
    var len := IntToString(n as int);
    var h := HeaderText(p.sifbInstanceId, len);
    var header := Header(p.sifbInstanceId, len, start + |h| - 1);
    HoldsAtSplit(s, start, h, data);
    NoSeparatorInNumber(n as int);
    HeaderAt(s, start, p.sifbInstanceId, len);
    TcpFrameHeader(s, start, header);
    ParseIntOfIntToString(n);
    TcpDataHeld(s, header, data);
  }

  /** Where the pieces of a non-empty wire sit: its first gap, its first packet, the rest of the wire. */
  lemma WirePieces(s: string, from: nat, ps: seq<TcpPacket>, noise: seq<string>)
    requires |noise| == |ps| + 1 && ps != []
    requires HoldsAt(s, from, TcpWire(ps, noise))
    ensures HoldsAt(s, from, noise[0])
    ensures HoldsAt(s, from + |noise[0]|, TcpEncode(ps[0]))
    ensures HoldsAt(s, from + |noise[0]| + |TcpEncode(ps[0])|, TcpWire(ps[1..], noise[1..]))
    ensures |TcpWire(ps, noise)| == |noise[0]| + |TcpEncode(ps[0])| + |TcpWire(ps[1..], noise[1..])|
  {
    WireSplit(ps, noise);
    HoldsAtThree(s, from, noise[0], TcpEncode(ps[0]), TcpWire(ps[1..], noise[1..]));
  }

  /** A non-empty wire is its first gap, its first packet, then the rest of the wire. */
  lemma WireSplit(ps: seq<TcpPacket>, noise: seq<string>)
    requires |noise| == |ps| + 1 && ps != []
    ensures TcpWire(ps, noise) == noise[0] + TcpEncode(ps[0]) + TcpWire(ps[1..], noise[1..])
  {
  }

  /** Text held at `at` as three parts is each part at its own position. */
  lemma HoldsAtThree(s: string, at: nat, x: string, y: string, z: string)
    requires HoldsAt(s, at, x + y + z)
    ensures HoldsAt(s, at, x) && HoldsAt(s, at + |x|, y) && HoldsAt(s, at + |x| + |y|, z)
  {
    HoldsAtSplit(s, at, x + y, z);
    HoldsAtSplit(s, at, x, y);
  }

  /** Quiet text at the scan position is passed over. */
  lemma QuietSkip(s: string, from: nat, n: string)
    requires HoldsAt(s, from, n) && Quiet(n)
    ensures TcpFrame(s, from) == TcpFrame(s, from + |n|)
  {
    HoldsAtWithout(s, from, n, MessageStart);
    TcpFrameSkip(s, from, from + |n|);
  }

  /** Quiet noise, then an encodable packet, at the scan position: the packet is queued and the scan resumes after it. */
  lemma TcpPacketAfter(s: string, from: nat, n: string, p: TcpPacket)
    requires Quiet(n) && HoldsAt(s, from, n)
    requires Encodable(p) && HoldsAt(s, from + |n|, TcpEncode(p))
    ensures TcpFrame(s, from) == After([p], TcpFrame(s, from + |n| + |TcpEncode(p)|))
  {
    QuietSkip(s, from, n);
    TcpEncodedAt(s, from + |n|, p);
  }

  /** Quiet noise at the scan position queues nothing before the scan from its end. */
  lemma TcpFrameQuiet(s: string, from: nat, n: string)
    requires Quiet(n) && HoldsAt(s, from, n)
    ensures TcpFrame(s, from) == After([], TcpFrame(s, from + |n|))
  {
    QuietSkip(s, from, n);
    AfterNothing(TcpFrame(s, from + |n|));
  }

  /** A packet queued in front of a scan that queues `qs` before reaching `end`. */
  lemma TcpPacketThen(s: string, from: nat, n: string, p: TcpPacket, qs: seq<TcpPacket>, mid: nat, end: nat)
    requires Quiet(n) && HoldsAt(s, from, n)
    requires Encodable(p) && HoldsAt(s, from + |n|, TcpEncode(p))
    requires mid == from + |n| + |TcpEncode(p)|
    requires TcpFrame(s, mid) == After(qs, TcpFrame(s, end))
    ensures TcpFrame(s, from) == After([p] + qs, TcpFrame(s, end))
  {
    TcpPacketAfter(s, from, n, p);
    AfterAppend([p], qs, TcpFrame(s, end));
  }

  /**
   * One step of the induction over a wire: the rest of the wire sits at
   * `mid`, and what the scan queues from there, the first packet followed,
   * is what it queues from `from`.
   */
  lemma TcpWireStep(s: string, from: nat, ps: seq<TcpPacket>, noise: seq<string>, mid: nat, end: nat)
    requires |noise| == |ps| + 1 && ps != []
    requires Encodable(ps[0]) && Quiet(noise[0])
    requires HoldsAt(s, from, TcpWire(ps, noise))
    requires mid == from + |noise[0]| + |TcpEncode(ps[0])| && end == from + |TcpWire(ps, noise)|
    ensures HoldsAt(s, mid, TcpWire(ps[1..], noise[1..])) && mid + |TcpWire(ps[1..], noise[1..])| == end
    ensures TcpFrame(s, mid) == After(ps[1..], TcpFrame(s, end)) ==> TcpFrame(s, from) == After(ps, TcpFrame(s, end))
  {
    WirePieces(s, from, ps, noise);
    if TcpFrame(s, mid) == After(ps[1..], TcpFrame(s, end)) {
      TcpPacketThen(s, from, noise[0], ps[0], ps[1..], mid, end);
      assert [ps[0]] + ps[1..] == ps;
    }
  }

  /**
   * Encodable packets with quiet noise in front of each, held at the scan
   * position, are queued exactly and in order, whatever their data holds
   * (start markers and separators included); the scan then goes on from the
   * end of them, and whatever it meets there, the packets already queued
   * stay queued.
   */
  lemma {:induction false} TcpFrameWire(s: string, from: nat, ps: seq<TcpPacket>, noise: seq<string>)
    requires |noise| == |ps| + 1
    requires forall i :: 0 <= i < |ps| ==> Encodable(ps[i])
    requires forall i :: 0 <= i < |noise| ==> Quiet(noise[i])
    requires HoldsAt(s, from, TcpWire(ps, noise))
    ensures TcpFrame(s, from) == After(ps, TcpFrame(s, from + |TcpWire(ps, noise)|))
    decreases |ps|
  {
    var end := from + |TcpWire(ps, noise)|;
    if ps == [] {
      TcpFrameQuiet(s, from, noise[0]);
    } else {
      var m := from + |noise[0]| + |TcpEncode(ps[0])|;
      TcpWireStep(s, from, ps, noise, m, end);
      TcpFrameWire(s, m, ps[1..], noise[1..]);
    }
  }

  /** Round trip: encodable packets with quiet noise decode to exactly those packets, with no exception. */
  lemma TcpRoundTrip(ps: seq<TcpPacket>, noise: seq<string>)
    requires |noise| == |ps| + 1
    requires forall i :: 0 <= i < |ps| ==> Encodable(ps[i])
    requires forall i :: 0 <= i < |noise| ==> Quiet(noise[i])
    ensures TcpFrame(TcpWire(ps, noise), 0) == Scan(ps, None)
  {
    var w := TcpWire(ps, noise);
    WireHeld(w);
    TcpFrameWire(w, 0, ps, noise);
    TcpFrameAtEnd(w);
    assert ps + [] == ps;
  }

  /** Every text holds itself at position 0. */
  lemma WireHeld(w: string)
    ensures HoldsAt(w, 0, w)
  {
  }

  /** The documented chunk `*2|9|57.002834*1|6|-34.45` queues (2, 57.002834) then (1, -34.45). */
  lemma DocumentedExample(s: string)
    requires s == "*2|9|57.002834*1|6|-34.45"
    ensures TcpFrame(s, 0) == Scan([TcpPacket("2", "57.002834"), TcpPacket("1", "-34.45")], None)
  {
    var ps := [TcpPacket("2", "57.002834"), TcpPacket("1", "-34.45")];
    var noise := ["", "", ""];
    DocumentedWire(ps, noise);
    TcpRoundTrip(ps, noise);
  }

  /** The documented chunk is the wire form of its two packets. */
  lemma DocumentedWire(ps: seq<TcpPacket>, noise: seq<string>)
    requires ps == [TcpPacket("2", "57.002834"), TcpPacket("1", "-34.45")] && noise == ["", "", ""]
    ensures TcpWire(ps, noise) == "*2|9|57.002834*1|6|-34.45"
  {
    FirstPacketWire(ps[0]);
    SecondPacketWire(ps[1]);
    TcpWirePair(ps[0], ps[1]);
  }

  /** Two packets with no noise around them are their two encodings back to back. */
  lemma TcpWirePair(p: TcpPacket, q: TcpPacket)
    ensures TcpWire([p, q], ["", "", ""]) == TcpEncode(p) + TcpEncode(q)
  {
    assert TcpWire([q], ["", ""]) == TcpEncode(q);
  }

  /** The ID may be empty: `*|3|abc` queues ("", abc) and the scan resumes after it. */
  lemma EmptyIdAccepted(s: string, at: nat)
    requires HoldsAt(s, at, "*|3|abc")
    ensures TcpFrame(s, at) == After([TcpPacket("", "abc")], TcpFrame(s, at + 7))
  {
    assert IntToString(3) == "3";
    assert TcpEncode(TcpPacket("", "abc")) == "*|3|abc";
    TcpEncodedAt(s, at, TcpPacket("", "abc"));
  }

  // ---------------------------------------------------------------------
  // Where the scan stops
  // ---------------------------------------------------------------------

  /** A start marker with no separator after it stops the scan quietly. */
  lemma NoIdSeparatorStops(s: string, start: nat)
    requires start < |s| && s[start] == MessageStart
    requires forall i :: start < i < |s| ==> s[i] != FieldSeparator
    ensures TcpFrame(s, start) == Scan([], None)
  {
    IndexOfAbsent(s, FieldSeparator, start + 1);
    assert TcpMessage(s, start) == Scan([], None);
  }

  /**
   * No second separator from one character past the start of the length
   * field stops the scan quietly; the character right after the first
   * separator is not searched.
   */
  lemma NoLengthSeparatorStops(s: string, start: nat, id: string)
    requires FieldSeparator !in id && HoldsAt(s, start, [MessageStart] + id + [FieldSeparator])
    requires forall i :: start + |id| + 3 <= i < |s| ==> s[i] != FieldSeparator
    ensures TcpFrame(s, start) == Scan([], None)
  {
    var h := [MessageStart] + id + [FieldSeparator];
    var idEnd := start + 1 + |id|;
    forall i | start <= i <= idEnd ensures s[i] == h[i - start] {
      assert s[start + (i - start)] == h[i - start];
    }
    forall i | start + 1 <= i < idEnd ensures s[i] != FieldSeparator {
      assert h[i - start] == id[i - start - 1];
    }
    IndexOfAt(s, FieldSeparator, start + 1, idEnd);
    IndexOfAbsent(s, FieldSeparator, idEnd + 2);
    assert TcpMessage(s, start) == Scan([], None);
  }

  /** A declared length of zero or less stops the scan quietly. */
  lemma NonPositiveLengthStops(s: string, start: nat, id: string, n: int32)
    requires FieldSeparator !in id && n <= 0
    requires HoldsAt(s, start, HeaderText(id, IntToString(n as int)))
    ensures TcpFrame(s, start) == Scan([], None)
  {
    NoSeparatorInNumber(n as int);
    HeaderAt(s, start, id, IntToString(n as int));
    ParseIntOfIntToString(n);
    assert TcpMessage(s, start) == Scan([], None);
  }

  /** A length field that is not a decimal integer raises NumberFormatException. */
  lemma BadLengthRaises(s: string, start: nat, id: string, len: string)
    requires FieldSeparator !in id && FieldSeparator !in len && len != []
    requires ParseInt(len).Failure?
    requires HoldsAt(s, start, HeaderText(id, len))
    ensures TcpFrame(s, start) == Scan([], Some(NumberFormatException))
  {
    HeaderAt(s, start, id, len);
    assert TcpMessage(s, start) == Scan([], Some(NumberFormatException));
  }

  /** A declared length running past the end of the chunk raises StringIndexOutOfBoundsException. */
  lemma ShortMessageRaises(s: string, start: nat, id: string, n: int32)
    requires FieldSeparator !in id && 0 < n
    requires HoldsAt(s, start, HeaderText(id, IntToString(n as int)))
    requires |s| < start + |HeaderText(id, IntToString(n as int))| + n as int
    ensures TcpFrame(s, start) == Scan([], Some(StringIndexOutOfBoundsException))
  {
    NoSeparatorInNumber(n as int);
    HeaderAt(s, start, id, IntToString(n as int));
    ParseIntOfIntToString(n);
    assert TcpMessage(s, start) == Scan([], Some(StringIndexOutOfBoundsException));
  }

  /** A packet queued before a malformed length stays queued when the scan raises. */
  lemma EarlierPacketsKept(s: string)
    requires s == "*2|9|57.002834*1|x|abc"
    ensures TcpFrame(s, 0) == Scan([TcpPacket("2", "57.002834")], Some(NumberFormatException))
  {
    var p := TcpPacket("2", "57.002834");
    EarlierPacketsLayout(s, p);
    TcpEncodedAt(s, 0, p);
    ParseIntRejectsNonDigit("x", 0);
    BadLengthRaises(s, 14, "1", "x");
    assert [p] + [] == [p];
  }

  /** Where the two messages of that chunk sit: the first packet at 0, a header with length `x` at 14. */
  lemma EarlierPacketsLayout(s: string, p: TcpPacket)
    requires s == "*2|9|57.002834*1|x|abc" && p == TcpPacket("2", "57.002834")
    ensures HoldsAt(s, 0, TcpEncode(p)) && |TcpEncode(p)| == 14
    ensures HoldsAt(s, 14, HeaderText("1", "x"))
  {
    var e, h := TcpEncode(p), HeaderText("1", "x");
    FirstPacketWire(p);
    assert s == e + (h + "abc");
    HoldsConcat(s, e, h + "abc");
    HoldsAtSplit(s, |e|, h, "abc");
  }

  /** The wire form of the documented second packet. */
  lemma SecondPacketWire(p: TcpPacket)
    requires p == TcpPacket("1", "-34.45")
    ensures TcpEncode(p) == "*1|6|-34.45"
  {
    assert IntToString(6) == "6";
  }

  /** The wire form of the documented first packet. */
  lemma FirstPacketWire(p: TcpPacket)
    requires p == TcpPacket("2", "57.002834")
    ensures TcpEncode(p) == "*2|9|57.002834"
  {
    assert IntToString(9) == "9";
  }

  /** A text made of two parts holds the first at 0 and the second right after it. */
  lemma HoldsConcat(s: string, x: string, y: string)
    requires s == x + y
    ensures HoldsAt(s, 0, x) && HoldsAt(s, |x|, y)
  {
    assert forall i :: 0 <= i < |y| ==> s[|x| + i] == y[i];
  }
}
