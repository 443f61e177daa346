/**
 * The simulated environment's handler for commands from the server
 * sessions. It holds no state the handler changes: it answers with a reply
 * string and, for the display commands, asks the HMI to show a value. The
 * HMI is reached through an abstract interface: the state of its two
 * set-point buttons is passed in, and a display request is returned as a
 * value. The zone-1 temperature is a float; its Fahrenheit text is passed
 * in already formatted.
 */
module Environment {
  import opened JavaLang
  import opened Packets
  import NioFramer

  /** What the handler asks the HMI to display, for which zone. */
  datatype UiRequest =
    | ShowRoomTemperature(zone: int, temperature: int32)
    | ShowSetTemperature(zone: int, temperature: int32)

  /** The handler's outcome: the reply string, a display request if any, an exception if one is raised. */
  datatype Reply = Reply(response: string, request: Option<UiRequest>, raised: Option<JavaException>)

  const Quiet: Reply := Reply("", None, None)

  /** A button state as the `SW1` reply spells it. */
  function Flag(clicked: bool): char
  {
    if clicked then 'T' else 'F'
  }

  /**
   * The integer before the first `.` of a display command's data: nothing
   * when there is no `.` or it comes first, otherwise that prefix parsed as
   * an `int`, which may raise.
   */
  function IntegerPart(commandData: string): Result<Option<int32>, JavaException>
  {
    var pointPosn := IndexOf(commandData, '.', 0);
    if pointPosn > 0 then
      match ParseInt(commandData[..pointPosn])
      case Success(t) => Success(Some(t))
      case Failure(e) => Failure(e)
    else Success(None)
  }

  /** The reply to a display command for zone 1: `show` is the HMI call it makes. */
  function Display(commandData: string, show: int32 -> UiRequest): Reply
  {
    match IntegerPart(commandData)
    case Success(None) => Quiet
    case Success(Some(t)) => Reply("", Some(show(t)), None)
    case Failure(e) => Reply("", None, Some(e))
  }

  /**
   * `GZ1` replies with the zone-1 temperature in Fahrenheit. `SW1` replies
   * with the state of the set-up and set-down buttons. `DZ1` and `DS1` show
   * the integer part of their data as the zone-1 temperature or set point.
   * Every other command, `GZ2`, `DZ2` and `DS2` included, gets the empty
   * reply.
   */
  function ExternalEventHandler(command: string, commandData: string, fahrenheitText: string,
                                upClicked: bool, downClicked: bool): (r: Reply)
    ensures r.response != [] <==> command == "GZ1" || command == "SW1"
    ensures r.request.Some? ==>
              r.raised == None && r.request.value.zone == 1 &&
              ((command == "DZ1" && r.request.value.ShowRoomTemperature?) ||
               (command == "DS1" && r.request.value.ShowSetTemperature?))
    ensures r.raised.Some? ==> r.raised == Some(NumberFormatException) && (command == "DZ1" || command == "DS1")
  {
    if command == "GZ1" then Reply("*GZ1|" + fahrenheitText + "|&", None, None)
    else if command == "SW1" then Reply("SW1|" + [Flag(upClicked), Flag(downClicked)] + "|&", None, None)
    else if command == "DZ1" then Display(commandData, t => ShowRoomTemperature(1, t))
    else if command == "DS1" then Display(commandData, t => ShowSetTemperature(1, t))
    else Quiet
  }

  /**
   * The `SW1` reply is eight characters whose fifth and sixth spell the two
   * button states, and it has no start marker, so a peer framing it as an
   * NIO packet finds nothing.
   */
  lemma SwitchReply(upClicked: bool, downClicked: bool, commandData: string, fahrenheitText: string)
    ensures var r := ExternalEventHandler("SW1", commandData, fahrenheitText, upClicked, downClicked);
            r.request == None && r.raised == None && |r.response| == 8 &&
            r.response[..4] == "SW1|" && r.response[6..] == "|&" &&
            (r.response[4] == 'T' <==> upClicked) && (r.response[5] == 'T' <==> downClicked) &&
            NioFramer.Frame(r.response, 0) == []
  {
    var s := "SW1|" + [Flag(upClicked), Flag(downClicked)] + "|&";
    IndexOfAbsent(s, NioFramer.StartOfPacket, 0);
    NioFramer.FrameStops(s, 0);
  }

  /**
   * The `GZ1` reply is one NIO packet carrying the Fahrenheit text, when
   * that text holds no delimiter.
   */
  lemma FahrenheitReply(commandData: string, fahrenheitText: string, upClicked: bool, downClicked: bool)
    requires NioFramer.NoDelimiters(fahrenheitText)
    ensures var r := ExternalEventHandler("GZ1", commandData, fahrenheitText, upClicked, downClicked);
            r.request == None && r.raised == None &&
            NioFramer.Frame(r.response, 0) == [Packet("GZ1", fahrenheitText)]
  {
    var p := Packet("GZ1", fahrenheitText);
    NioFramer.RoundTrip([p], ["", ""]);
    assert NioFramer.Wire([p], ["", ""]) == "*GZ1|" + fahrenheitText + "|&" by {
      assert NioFramer.Wire([], [""]) == "";
    }
  }

  /** The text of an `int` holds no `.`, so a `.` after it is the first one. */
  lemma PointAfterNumber(t: int32, fraction: string)
    ensures IndexOf(IntToString(t as int) + "." + fraction, '.', 0) == |IntToString(t as int)|
  {
    var n := IntToString(t as int);
    var s := n + "." + fraction;
    IntToStringChars(t as int);
    forall i | 0 <= i < |n| ensures s[i] != '.' {
      assert s[i] == n[i];
    }
    IndexOfAt(s, '.', 0, |n|);
  }

  /**
   * A display command whose data is an `int`'s text, a `.` and any
   * fraction shows exactly that `int`, on the room panel for `DZ1` and on
   * the set-point panel for `DS1`, and replies with nothing.
   */
  lemma DisplayRoundTrip(t: int32, fraction: string, fahrenheitText: string, upClicked: bool, downClicked: bool)
    ensures ExternalEventHandler("DZ1", IntToString(t as int) + "." + fraction, fahrenheitText, upClicked, downClicked) ==
            Reply("", Some(ShowRoomTemperature(1, t)), None)
    ensures ExternalEventHandler("DS1", IntToString(t as int) + "." + fraction, fahrenheitText, upClicked, downClicked) ==
            Reply("", Some(ShowSetTemperature(1, t)), None)
  {
    var n := IntToString(t as int);
    var s := n + "." + fraction;
    PointAfterNumber(t, fraction);
    assert s[..|n|] == n;
    ParseIntOfIntToString(t);
  }

  /** Display data with no `.`, or with `.` first, shows nothing and replies with nothing. */
  lemma DisplayWithoutPoint(command: string, commandData: string, fahrenheitText: string, upClicked: bool, downClicked: bool)
    requires command == "DZ1" || command == "DS1"
    requires '.' !in commandData || commandData[0] == '.'
    ensures ExternalEventHandler(command, commandData, fahrenheitText, upClicked, downClicked) == Quiet
  {
    if '.' !in commandData {
      IndexOfAbsent(commandData, '.', 0);
    } else {
      IndexOfAt(commandData, '.', 0, 0);
    }
  }

  /** Display data whose text before the first `.` is not an `int` raises and shows nothing. */
  lemma DisplayBadInteger(command: string, commandData: string, k: nat, fahrenheitText: string, upClicked: bool, downClicked: bool)
    requires command == "DZ1" || command == "DS1"
    requires 0 < k < |commandData| && commandData[k] == '.' && '.' !in commandData[..k]
    requires ParseInt(commandData[..k]).Failure?
    ensures ExternalEventHandler(command, commandData, fahrenheitText, upClicked, downClicked) ==
            Reply("", None, Some(NumberFormatException))
  {
    forall i | 0 <= i < k ensures commandData[i] != '.' {
      assert commandData[i] == commandData[..k][i];
    }
    IndexOfAt(commandData, '.', 0, k);
  }

  /** Every command other than `GZ1`, `SW1`, `DZ1` and `DS1` gets the empty reply and shows nothing. */
  lemma OtherCommandsQuiet(command: string, commandData: string, fahrenheitText: string, upClicked: bool, downClicked: bool)
    requires command != "GZ1" && command != "SW1" && command != "DZ1" && command != "DS1"
    ensures ExternalEventHandler(command, commandData, fahrenheitText, upClicked, downClicked) == Quiet
  {
  }
}
