# HVAC simulator protocol core in Dafny

This project models the protocol core of the HVAC building simulator. Two
socket servers receive text from control applications, cut it into packets
and queue them. The HMI window and the simulated environment answer commands
carried by those packets.

- **NIO server.** `*command|data|&` packets.
  - Noise between packets is skipped. A malformed span is dropped and the
    scan goes on. A start marker with no end marker after it ends the scan.
  - Every queued packet is handed, in queue order, to a command handler.
    Non-empty answers are written back while the session key is writable.
- **TCP server.** Length-prefixed messages, `*ID|length|data`.
  - Any malformed element ends the scan.
  - A length that is not an integer, or one that runs past the end of the
    chunk, raises an exception. Packets queued before it stay queued.
- **Startup.** Both servers check the host name and the port before they
  listen. A read whose trimmed text is empty closes the session.
- **HMI.** Keeps the zone temperatures and the zone-1 set point. Draws a
  temperature on a three-slot LED panel. Answers `GZ1` and `GZ2`. Its two
  buttons move the set point.
- **Environment.** Answers `GZ1`, `SW1`, `DZ1` and `DS1`.

The model follows the source's own form:

- The servers, the two packet classes and the HMI are classes whose methods
  update fields in place. Each queue is a `seq` field that the framing loop
  appends to.
- Each framing loop is a `while` loop over the same pointers as the source.
  It is proved against a recursive reference definition of what one chunk
  queues: `NioFramer.Frame` and `TcpFramer.TcpFrame`. Properties of the wire
  formats are lemmas about those definitions, the round trips above all.
- The glyph logic and the Environment's handler are functions.

Modules:

| file | module | contents |
|---|---|---|
| `java_lang.dfy` | `JavaLang` | the Java behaviour the code relies on: 32-bit `int` with wrap-around, `Math.abs`, `indexOf`, `trim`, `Integer.toString`, `Integer.parseInt` |
| `status.dfy` | `Status` | status codes, startup validation, the status field after `run()` |
| `packets.dfy` | `Packets` | `NIOpacket` and `TCPserverPacket` |
| `nio_framer.dfy` | `NioFramer` | the NIO wire format and the reference framer |
| `nio_server.dfy` | `NioServer` | the `NIOserver` class: queue, framing loop, read step, drain |
| `tcp_framer.dfy` | `TcpFramer` | the TCP wire format and the reference framer |
| `tcp_server.dfy` | `TcpServer` | the `TCPserver` class: queue, framing loop, read step |
| `led.dfy` | `Led` | glyphs, panels and the three-slot digit rules |
| `hmi.dfy` | `Hmi` | the `HMIui` class |
| `environment.dfy` | `Environment` | the Environment's command handler |

## Model

| member | source | states |
|---|---|---|
| JavaLang.Wrap | HMIui.java:420 | a Java `int` result equals the exact result when that fits in 32 bits and is congruent to it modulo 2^32 otherwise |
| JavaLang.WrapNonNegative | TCPserver.java:235 | a sum of non-negative `int`s wraps only past `MAX_VALUE`, and then becomes negative |
| JavaLang.Abs | HMIui.java:488 | `Math.abs` is the magnitude, except that `MIN_VALUE` maps to itself |
| JavaLang.IndexOf | TCPserver.java:219 | `indexOf` returns -1 or a position at or after `from` that holds the character |
| JavaLang.IndexOfFirst | NIOserver.java:335 | the position `indexOf` finds is the first occurrence from `from`; -1 means there is none |
| JavaLang.IndexOfAt | NIOserver.java:339 | a first occurrence at `k` is what `indexOf` finds |
| JavaLang.IndexOfAbsent | NIOserver.java:339 | no occurrence from `from` on gives -1 |
| JavaLang.IndexOfSkip | NIOserver.java:335 | searching from `from` equals searching from `to` when nothing lies between them |
| JavaLang.IndexOfShift | NIOserver.java:335 | searching past a prefix is searching in the rest, shifted by the prefix length |
| JavaLang.StripLeading | NIOserver.java:203 | drops exactly the leading characters at or below U+0020; what remains is a suffix |
| JavaLang.StripTrailing | NIOserver.java:203 | drops exactly the trailing characters at or below U+0020; what remains is a prefix |
| JavaLang.Trim | NIOserver.java:203 | `String.trim()` never lengthens its text, and a non-empty result starts and ends above U+0020; `TrimEmpty` adds that the result is empty exactly when every character is at or below U+0020 |
| JavaLang.TrimEmpty | NIOserver.java:203-205 | a trimmed read is empty exactly when every character is at or below U+0020 |
| JavaLang.TrimEnds | NIOserver.java:203 | a non-empty trimmed text starts and ends with a character above U+0020 |
| JavaLang.NatToString | HMIui.java:489 | the decimal text of a natural number is non-empty and has no leading zero |
| JavaLang.NatToStringDigits | HMIui.java:489 | that text consists of digits only |
| JavaLang.IntToString | HMIui.java:465 | `Integer.toString` is never empty |
| JavaLang.IntToStringChars | HMIui.java:465 | every character of `Integer.toString(n)` is a digit, except a leading `-` when `n < 0` |
| JavaLang.ParseInt | TCPserver.java:231 | `Integer.parseInt` raises only `NumberFormatException`; it accepts only an optional leading sign followed by one or more digits, and a negative result has a leading `-`; `ParseIntOfIntToString` gives the value |
| JavaLang.ParseDigitsSnoc | TCPserver.java:231 | reading one more digit multiplies the value so far by ten and adds that digit |
| JavaLang.ParseDigitsCons | TCPserver.java:231 | a character in front shifts the digit reading by one position and changes nothing else |
| JavaLang.ParseDigitsOfNatToString | TCPserver.java:231 | the digits of a natural number read back as that number |
| JavaLang.ParseIntOfIntToString | HMIui.java:461 | `Integer.parseInt(Integer.toString(n)) == n` for every 32-bit `n` |
| JavaLang.ParseDigitsMeetsNonDigit | TCPserver.java:231 | digit reading fails at the first non-digit, whatever it read before |
| JavaLang.ParseIntRejectsNonDigit | TCPserver.java:231 | a character that is neither a digit nor a leading sign raises `NumberFormatException` |
| JavaLang.ParseIntRejectsNoDigits | TCPserver.java:231 | empty text or a lone sign raises `NumberFormatException` |
| Status.ValidateStartup | NIOserver.java:149-152 | an empty host gives `INVALID_HOST_NAME` whatever the port; otherwise a port of 0 or less gives `INVALID_LISTENER_PORT`; otherwise `EXIT_SUCCESS` (each as an if-and-only-if; TCPserver.java:106-109 is the same check) |
| Status.StatusAfterRun | NIOserver.java:100-110 | `run()` discards the status `startServer` returns: a refused host or port leaves the field unchanged, and any other pair can only end in `EXIT_FAILURE` |
| Status.InvalidHostNeverRecorded | NIOserver.java:68 | a server with an empty host name keeps `UNDEFINED` in its field and never shows `INVALID_HOST_NAME` |
| Packets.NIOpacket.constructor | NIOpacket.java:16-17 | a new packet has an empty command and empty data |
| Packets.NIOpacket.Value | NIOpacket.java:22-38 | the packet's value holds what the two getters return |
| Packets.NIOpacket.SetCommand | NIOpacket.java:29-31 | the command getter then returns the new command; the data is unchanged |
| Packets.NIOpacket.SetCommandData | NIOpacket.java:43-45 | the data getter then returns the new data; the command is unchanged |
| Packets.TCPserverPacket.constructor | TCPserverPacket.java:14-15 | a new packet has an empty ID and empty data |
| Packets.TCPserverPacket.Value | TCPserverPacket.java:20-36 | the packet's value holds what the two getters return |
| Packets.TCPserverPacket.SetSifbInstanceId | TCPserverPacket.java:27-29 | the ID getter then returns the new ID; the data is unchanged |
| Packets.TCPserverPacket.SetDataPacket | TCPserverPacket.java:41-43 | the data getter then returns the new data; the ID is unchanged |
| Packets.BuildNIOpacket | NIOserver.java:361-363 | a packet built with both setters holds exactly the given command and data |
| Packets.BuildTCPserverPacket | TCPserver.java:238-240 | a packet built with both setters holds exactly the given ID and data |
| NioFramer.ParseMessage | NIOserver.java:345-366 | a decoded message always has a non-empty command |
| NioFramer.ParseMessageFields | NIOserver.java:351-358 | a decoded command and data hold no separator; the message spells them from index 1, each followed by a separator |
| NioFramer.Messages | NIOserver.java:331-343 | the messages cut out of a chunk from a scan position are all spans: a `*`, text without `&`, then the first `&` after it |
| NioFramer.MessagesAt | NIOserver.java:339-371 | from a start marker, the message cut out ends at the first `&`, and every later message is a span too |
| NioFramer.DecodeAll | NIOserver.java:345-371 | each message yields at most one packet, in message order |
| NioFramer.Frame | NIOserver.java:331-376 | the packets one chunk queues: every one has a non-empty command and neither field contains `\|` or `&`; `RoundTrip` and `FrameStep` pin down which packets they are |
| NioFramer.FrameStep | NIOserver.java:335-371 | from the next start marker to the next end marker is one message; the scan then resumes at that end marker |
| NioFramer.FrameStops | NIOserver.java:336-343 | no start marker, or a start marker without an end marker after it, queues nothing more |
| NioFramer.DecodeAllAppend | NIOserver.java:331-376 | decoding two message lists in a row is decoding each, in order |
| NioFramer.DecodedIsValid | NIOserver.java:351-364 | a message cut out of a chunk decodes only to valid packets |
| NioFramer.EncodeAll | NIOserver.java:300-388 | encoding packets gives one message per packet |
| NioFramer.ParseEncoded | NIOserver.java:351-364 | `*c\|d\|...` decodes to `(c, d)` for a valid packet, whatever follows the second separator |
| NioFramer.MissingSeparatorRejected | NIOserver.java:351-352 | a message with no separator is dropped |
| NioFramer.EmptyCommandRejected | NIOserver.java:352-354 | a message with an empty command is dropped |
| NioFramer.SingleSeparatorRejected | NIOserver.java:356-357 | a message with only one separator is dropped |
| NioFramer.DecodeEncodeAll | NIOserver.java:345-366 | valid packets, encoded one by one, decode back to themselves |
| NioFramer.MessagesShift | NIOserver.java:331-376 | scanning past a prefix depends only on the text after it |
| NioFramer.SkipQuiet | NIOserver.java:335 | text without a start marker is passed over |
| NioFramer.MessagesSpan | NIOserver.java:339-371 | a span at the scan position is the next message, and the scan resumes right after it |
| NioFramer.MessagesWire | NIOserver.java:331-376 | encoded packets among quiet noise are cut out as exactly their messages, in order |
| NioFramer.FrameWire | NIOserver.java:331-376 | round trip, with any text after the packets: the packets are queued first, then whatever that text yields |
| NioFramer.RoundTrip | NIOserver.java:331-376 | round trip: valid packets encoded as `*c\|d\|&` among noise with no `*` are queued exactly, in order |
| NioFramer.DanglingStartIgnored | NIOserver.java:339-343 | a `*` with no later `&` queues nothing |
| NioFramer.DanglingStartKeepsEarlier | NIOserver.java:339-343 | packets framed before a dangling `*` are kept; the fragment adds nothing |
| NioFramer.SpanDropped | NIOserver.java:366-371 | a span that decodes to nothing is skipped, and the scan resumes after its `&` |
| NioFramer.MalformedSpansSkipped | NIOserver.java:351-371 | `*&` spans, empty commands and single separators are skipped, and the scan resumes after their `&`; the helpers `NoSeparatorExample`, `EmptyCommandExample` and `SingleSeparatorExample` give one case each |
| NioFramer.JunkBetweenPackets | NIOserver.java:331-376 | `junk*RS\|\|&more*VS\|x\|&` queues `(RS, "")` then `(VS, x)` |
| NioServer.Respond | NIOserver.java:221-231 | one packet produces at most one write: the handler's answer, exactly when it is non-empty and the key is writable |
| NioServer.Responses | NIOserver.java:219-232 | the writes are never empty and never outnumber the packets; a key that is not writable gets none |
| NioServer.ResponsesAppend | NIOserver.java:219-232 | answers come in queue order: the writes for `a + b` are those for `a`, then those for `b` |
| NioServer.ResponsesAllAnswered | NIOserver.java:219-232 | on a writable key where every answer is non-empty, each packet gets exactly its answer, in order |
| NioServer.NIOserver.constructor | NIOserver.java:81-85 | a new server records its address, has an empty queue and status `UNDEFINED` |
| NioServer.NIOserver.Run | NIOserver.java:100-110 | the status field after `run()`, as `Status.StatusAfterRun` gives it |
| NioServer.NIOserver.QueuePacket | NIOserver.java:300-388 | the framing loop appends exactly `Frame(chunk, 0)` to the queue, which stays an unchanged prefix; the loop ends because `ptrEnd` only grows |
| NioServer.NIOserver.QueueMessage | NIOserver.java:345-366 | one message appends its decoded packet, or nothing if it is malformed |
| NioServer.NIOserver.GetQueueSize | NIOserver.java:393-395 | the size is the queue length |
| NioServer.NIOserver.GetPacket | NIOserver.java:399-413 | a non-empty queue gives up its head; an empty queue gives `("", "")` and stays empty |
| NioServer.NIOserver.Drain | NIOserver.java:219-232 | empties the queue, handles its packets head first and writes `Responses` of them in order |
| NioServer.NIOserver.OnReadable | NIOserver.java:203-232 | a read that is empty after trimming closes the session and queues nothing; otherwise the trimmed text is framed, then the queue is drained through the handler |
| NioServer.EndToEndExample | NIOserver.java:217-232 | `*GZ1\|3\|&` reaches the handler as `(GZ1, 3)`, and its answer is written back |
| TcpFramer.ReadHeader | TCPserver.java:223-230 | the length field's separator lies after the start marker, inside the chunk |
| TcpFramer.ReadHeaderId | TCPserver.java:223-225 | the ID runs from after `*` to the first `\|` and holds no `\|` |
| TcpFramer.TcpFrame | TCPserver.java:213-262 | what one chunk queues and raises, scanning from a position: every packet has a `\|`-free ID and non-empty data; `TcpRoundTrip` and the stop lemmas pin down the packets and the exception |
| TcpFramer.TcpMessage | TCPserver.java:219-231 | the scan from a start marker queues only well-framed packets; the ID it reads holds no `\|` |
| TcpFramer.TcpData | TCPserver.java:231-258 | the scan after a header queues only well-framed packets when the header's ID holds no `\|` |
| TcpFramer.TcpFrameSeek | TCPserver.java:219-220 | the scan goes on from the start marker `indexOf` finds, and ends quietly when there is none |
| TcpFramer.TcpFrameRead | TCPserver.java:219-231 | with both separators found, the scan continues with the ID and the length text between them |
| TcpFramer.TcpFrameUnread | TCPserver.java:223-230 | a missing first or second separator stops the scan without an exception |
| TcpFramer.TcpDataStops | TCPserver.java:231-250 | an unparsable length raises; a length of 0 or less stops quietly; a length past the end raises `StringIndexOutOfBoundsException` |
| TcpFramer.TcpDataEmit | TCPserver.java:233-246 | a positive length that fits queues the next `length` characters, and the scan resumes right after them |
| TcpFramer.TcpFrameDataBounded | TCPserver.java:235-246 | the packets queued never carry more data than the chunk holds from the scan position |
| TcpFramer.NoSeparatorInNumber | TCPserver.java:229-231 | the decimal text of a length holds no `\|` |
| TcpFramer.HeaderAt | TCPserver.java:219-231 | a written header `*id\|L\|` is read back as `id` and `L` |
| TcpFramer.TcpEncodedAt | TCPserver.java:219-246 | one encoded packet at the scan position is queued, and the scan resumes right after its data |
| TcpFramer.TcpFrameWire | TCPserver.java:213-262 | encoded packets among noise with no `*` are queued exactly, in order, whatever their data holds (including `*` and `\|`); the scan then continues after them |
| TcpFramer.TcpRoundTrip | TCPserver.java:200-262 | round trip: framing the wire form of encodable packets gives exactly those packets and no exception |
| TcpFramer.DocumentedExample | TCPserver.java:191 | `*2\|9\|57.002834*1\|6\|-34.45` queues `(2, 57.002834)` then `(1, -34.45)` |
| TcpFramer.EmptyIdAccepted | TCPserver.java:223-225 | the ID may be empty: `*\|3\|abc` queues `("", abc)` |
| TcpFramer.NoIdSeparatorStops | TCPserver.java:223-224 | a `*` with no `\|` after it stops the whole scan without an exception |
| TcpFramer.NoLengthSeparatorStops | TCPserver.java:228-230 | no second `\|` from one character past the start of the length field stops the scan; the character right after the first `\|` is never searched |
| TcpFramer.NonPositiveLengthStops | TCPserver.java:233 | a declared length of 0 or less stops the scan without an exception |
| TcpFramer.BadLengthRaises | TCPserver.java:231 | a length field that is not an integer raises `NumberFormatException` |
| TcpFramer.ShortMessageRaises | TCPserver.java:235 | a declared length past the end of the chunk raises `StringIndexOutOfBoundsException` |
| TcpFramer.EarlierPacketsKept | TCPserver.java:231-242 | a packet queued before a bad length stays queued when the scan raises |
| TcpServer.TCPserver.constructor | TCPserver.java:63-66 | a new server records its address, has an empty queue and status `UNDEFINED` |
| TcpServer.TCPserver.Run | TCPserver.java:81-91 | the status field after `run()`, as `Status.StatusAfterRun` gives it |
| TcpServer.TCPserver.QueuePacket | TCPserver.java:200-264 | the framing loop appends exactly `TcpFrame(chunk, 0).packets` to the queue and raises exactly `TcpFrame(chunk, 0).raised`; earlier packets stay |
| TcpServer.TCPserver.ReadMessage | TCPserver.java:215-262 | one pass of the loop body either queues the next packet and moves past its data, or ends the scan as the reference scan does |
| TcpServer.TCPserver.ReadData | TCPserver.java:229-258 | reading the length and the data after a header matches the reference scan from that header |
| TcpServer.TCPserver.GetQueueSize | TCPserver.java:269-271 | the size is the queue length |
| TcpServer.TCPserver.GetPacket | TCPserver.java:275-289 | a non-empty queue gives up its head; an empty queue gives `("", "")` and stays empty |
| TcpServer.TCPserver.OnReadable | TCPserver.java:161-171 | a read that is empty after trimming closes the session and queues nothing; otherwise the trimmed text is framed into the queue, with no dispatch |
| TcpServer.OnePacketChunk | TCPserver.java:161-171 | a chunk holding one encoded packet survives trimming and is framed back to that packet |
| TcpServer.TwoReadsExample | TCPserver.java:269-289 | two reads queue their packets in arrival order, and two `getPacket` calls return them in that order |
| Led.Magnitude | HMIui.java:488 | the true magnitude of a Java `int` |
| Led.PanelText | HMIui.java:489-490 | the slots read from three characters |
| Led.DigitGlyph | HMIui.java:500 | a digit character names the image of that digit |
| Led.ShowPanel | HMIui.java:487-524 | the glyphs a panel shows for `t`: the units slot is the last digit of the true magnitude, and a minus sign appears exactly for -99 to -1 and for `MIN_VALUE`; `TensSlot` and `HundredsSlot` give the other two slots |
| Led.NatToStringLast | HMIui.java:489-490 | the last three characters of a number's text are its last three digits |
| Led.PaddedLast | HMIui.java:489-490 | padding with `000` and keeping three characters gives the last three digits, with leading zeros |
| Led.MinIntText | HMIui.java:488-490 | the sign of `MIN_VALUE` (whose `Math.abs` is negative) falls outside the three kept characters |
| Led.PanelTextValue | HMIui.java:488-490 | the kept text is the last three digits of the magnitude, for every `int` |
| Led.TensSlot | HMIui.java:503-512 | the tens slot shows a minus for -9..-1, a blank for 0..9, otherwise the tens digit (`MIN_VALUE` shows a minus) |
| Led.HundredsSlot | HMIui.java:514-523 | the hundreds slot shows a minus for -99..-10, a blank for -9..99, otherwise the hundreds digit, so values of -100 and below show no sign |
| Led.MinIntPanel | HMIui.java:488-523 | `MIN_VALUE` is drawn as blank, minus, 8 |
| Led.PanelRoundTrip | HMIui.java:487-524 | every value from -99 to 999 reads back from its panel exactly (through the helpers `ReadSlots` and `TwoDigits`) |
| Led.PanelTruncates | HMIui.java:488-523 | only the last three digits are shown: values above 999 read back modulo 1000, and values below -99 read back as their magnitude modulo 1000, without a sign (through the helper `LastThreeDigits`) |
| Hmi.HMIui.constructor | HMIui.java:56-62 | the zone temperatures start at 15, 10 and 15, and every set point at 10 |
| Hmi.HMIui.SetUpClicked | HMIui.java:420 | the set-up button adds exactly 1 to the zone-1 set point, with no bound other than `int` wrap-around |
| Hmi.HMIui.SetDownClicked | HMIui.java:431 | the set-down button subtracts exactly 1, with no bound other than `int` wrap-around |
| Hmi.HMIui.ShowRoomTemperature | HMIui.java:487-524 | records the zone-1 temperature and draws it on the room panel |
| Hmi.HMIui.ShowSetTemperature | HMIui.java:531-580 | draws the value on the set-point panel with the same rules and changes no zone field |
| Hmi.HMIui.GetSetTemperature | HMIui.java:585-587 | returns the zone-1 set point |
| Hmi.HMIui.ExternalEventHandler | HMIui.java:455-476 | `GZ1` with integer data records and shows it, redraws the set point and replies `*GZ1\|<set point>\|&`; non-integer data raises and changes nothing; `GZ2` replies `*GZ2\|<zone 2>\|&`; any other command replies `""` |
| Hmi.UpThenDown | HMIui.java:420-431 | set-up then set-down restores the set point, also across the overflow |
| Hmi.DownThenUp | HMIui.java:420-431 | set-down then set-up restores the set point, also across the overflow |
| Hmi.NumberReplyFrames | HMIui.java:463-468 | a reply `*command\|n\|&` carrying a number, as the `GZ1` and `GZ2` replies do, is framed by a peer as exactly one packet `(command, n)`, and its data reads back as `n` |
| Hmi.Gz1Example | HMIui.java:60 | a fresh HMI told 21 shows 21 on the room panel and replies `*GZ1\|10\|&` |
| Environment.ExternalEventHandler | Environment.java:145-215 | only `GZ1` and `SW1` give a non-empty reply; a display request is made only for `DZ1` (room panel) or `DS1` (set-point panel), for zone 1, and never together with an exception; the only exception is `NumberFormatException`, from `DZ1` or `DS1` |
| Environment.SwitchReply | Environment.java:163-177 | the `SW1` reply is `SW1\|` plus a T/F for each button plus `\|&`; it has no leading `*`, so framing it as an NIO packet yields nothing |
| Environment.FahrenheitReply | Environment.java:152-157 | the `GZ1` reply is one NIO packet carrying the Fahrenheit text |
| Environment.PointAfterNumber | Environment.java:181 | the first `.` after an `int`'s text is the one right after it |
| Environment.DisplayRoundTrip | Environment.java:179-202 | `DZ1`/`DS1` with data `<int>.<fraction>` asks the HMI to show exactly that `int` for zone 1 on the room or set-point panel, and replies `""` |
| Environment.DisplayWithoutPoint | Environment.java:181-182 | display data with no `.`, or with `.` first, does nothing and replies `""` |
| Environment.DisplayBadInteger | Environment.java:183 | a non-integer before the first `.` raises `NumberFormatException` |
| Environment.OtherCommandsQuiet | Environment.java:159-212 | `GZ2`, `DZ2`, `DS2` and unknown commands reply `""` and show nothing |

## Left out

- Sockets, the selector loop, accepting connections and the `while (true)` serving loop of both servers. Only the steps inside them are modelled: startup validation, classifying a read, framing and draining.
- Reading into the 1024-byte buffer. A read is the text it decodes to; the buffer's zero padding is removed by `trim` like any other character at or below U+0020.
- Threads, `run()` as a `Runnable`, and `Thread.yield`. `run()` appears only through the status field it leaves.
- Console output (`System.out`, `System.err`, `say`) and commented-out code.
- The NIO server's `ui` reference. The command handler is a function parameter of the drain step, and "the key is writable" is a boolean.
- NioServer.NIOserver.Drain and NioServer.NIOserver.OnReadable: assume a handler that always returns a reply. A handler that raises is not modelled. `HMIui`'s `GZ1` with non-integer data, such as the chunk `*GZ1|abc|&`, raises `NumberFormatException` in `Integer.parseInt`. In Java that stops the drain with the remaining packets still queued, ends `startServer`, and `run()` then sets `EXIT_FAILURE`.
- The HMI window: Swing layout, images and scaling. A panel is the triple of glyphs its three labels show; the layout's initial icons are unspecified.
- `Environment.runEnvironment`: floats, randomness and the wall clock.
- Environment's float state and the Fahrenheit conversion in `GZ1`. The formatted Fahrenheit text is a parameter.
- The `ui.cmdUpClicked()`, `ui.cmdDownClicked()` and two-argument `showRoomTemperature`/`showSetTemperature` calls that Environment makes. The shown `HMIui` has no such methods. The button states are parameters, and a display call is returned as a `UiRequest` value.
- `HVACsim.java`: startup wiring only.
- JavaLang.ParseInt: accepts only ASCII digits `0`-`9`; Java's `Integer.parseInt` also accepts other Unicode decimal digits.
- A character here is a Unicode scalar value, as Dafny's `char` is, not a Java UTF-16 code unit. Text outside the Basic Multilingual Plane therefore has a different length and different indices than in Java. `trim`, `indexOf` and the NIO format look only at ASCII characters and are not affected.
- TcpFramer.TcpData: the declared length counts UTF-16 code units in Java and scalar values here. For data outside the Basic Multilingual Plane the model therefore cuts a different substring or raises where Java does not. For the chunk `*1|2|😀`, Java queues `("1", "😀")`, while the model raises `StringIndexOutOfBoundsException`.
- TcpFramer.TcpFrame scans character by character for `*`. `TcpFramer.TcpFrameSeek` proves that this finds the same start marker as `indexOf`.
- `TcpServer.TCPserver.QueuePacket`'s loop body is split into two helper methods, `ReadMessage` and `ReadData`. The same pointers, branches and exits are kept.
