/**
 * The HMI's state and behaviour once its window is laid out: the zone
 * temperatures and set points it holds, the room and set-point LED panels,
 * the set-point buttons and the handler for commands from the server
 * sessions. Window layout and images are not part of this model; a panel
 * is the triple of glyphs its three labels show.
 */
module Hmi {
  import opened JavaLang
  import opened Led
  import opened Packets
  import NioFramer

  class HMIui {
    var zone1Temperature: int32
    var zone2Temperature: int32
    var zone3Temperature: int32
    var zone1SetTemperature: int32
    var zone2SetTemperature: int32
    var zone3SetTemperature: int32
    /** The large room-temperature panel. */
    var roomPanel: Panel
    /** The small set-point panel. */
    var setPanel: Panel

    /** The zone fields start at their declared values; the panels are whatever the layout drew. */
    constructor ()
      ensures zone1Temperature == 15 && zone2Temperature == 10 && zone3Temperature == 15
      ensures zone1SetTemperature == 10 && zone2SetTemperature == 10 && zone3SetTemperature == 10
    {
      zone1Temperature := 15;
      zone2Temperature := 10;
      zone3Temperature := 15;
      zone1SetTemperature := 10;
      zone2SetTemperature := 10;
      zone3SetTemperature := 10;
    }

    /** The set-up button: the zone-1 set point goes up by one, with Java `int` overflow. */
    method SetUpClicked()
      modifies this`zone1SetTemperature
      ensures zone1SetTemperature == Wrap(old(zone1SetTemperature) as int + 1)
      ensures old(zone1SetTemperature) < MaxInt ==> zone1SetTemperature as int == old(zone1SetTemperature) as int + 1
    {
      zone1SetTemperature := Wrap(zone1SetTemperature as int + 1);
    }

    /** The set-down button: the zone-1 set point goes down by one, with Java `int` overflow. */
    method SetDownClicked()
      modifies this`zone1SetTemperature
      ensures zone1SetTemperature == Wrap(old(zone1SetTemperature) as int - 1)
      ensures old(zone1SetTemperature) > MinInt ==> zone1SetTemperature as int == old(zone1SetTemperature) as int - 1
    {
      zone1SetTemperature := Wrap(zone1SetTemperature as int - 1);
    }

    /** Records `t` as the zone-1 temperature and draws it on the room panel. */
    method ShowRoomTemperature(t: int32)
      modifies this`zone1Temperature, this`roomPanel
      ensures zone1Temperature == t && roomPanel == ShowPanel(t)
    {
      zone1Temperature := t;
      roomPanel := ShowPanel(t);
    }

    /** Draws `t` on the set-point panel; no zone field changes. */
    method ShowSetTemperature(t: int32)
      modifies this`setPanel
      ensures setPanel == ShowPanel(t)
    {
      setPanel := ShowPanel(t);
    }

    method GetSetTemperature() returns (t: int32)
      ensures t == zone1SetTemperature
    {
      t := zone1SetTemperature;
    }

    /**
     * A command from a server session. `GZ1` carries the zone-1 temperature
     * as a decimal integer: it is recorded and shown, the set point is
     * redrawn, and the reply carries the set point; data that is not an
     * integer raises and changes nothing. `GZ2` replies with the zone-2
     * temperature. Any other command gets the empty reply.
     */
    method ExternalEventHandler(command: string, commandData: string) returns (responsePacket: string, raised: Option<JavaException>)
      modifies this`zone1Temperature, this`roomPanel, this`setPanel
      ensures zone2Temperature == old(zone2Temperature) && zone1SetTemperature == old(zone1SetTemperature)
      ensures command == "GZ1" && ParseInt(commandData).Success? ==>
                var t := ParseInt(commandData).value;
                zone1Temperature == t && roomPanel == ShowPanel(t) && setPanel == ShowPanel(zone1SetTemperature) &&
                responsePacket == "*GZ1|" + IntToString(zone1SetTemperature as int) + "|&" && raised == None
      ensures command == "GZ1" && ParseInt(commandData).Failure? ==>
                raised == Some(NumberFormatException) &&
                zone1Temperature == old(zone1Temperature) && roomPanel == old(roomPanel) && setPanel == old(setPanel)
      ensures command != "GZ1" ==>
                raised == None && zone1Temperature == old(zone1Temperature) &&
                roomPanel == old(roomPanel) && setPanel == old(setPanel)
      ensures command == "GZ2" ==> responsePacket == "*GZ2|" + IntToString(zone2Temperature as int) + "|&"
      ensures command != "GZ1" && command != "GZ2" ==> responsePacket == ""
    {
      responsePacket := "";
      raised := None;
      if command == "GZ1" {
        var parsed := ParseInt(commandData);
        if parsed.Failure? {
          raised := Some(parsed.error);
          return;
        }
        ShowRoomTemperature(parsed.value);
        ShowSetTemperature(zone1SetTemperature);
        var setTemperature := GetSetTemperature();
        responsePacket := "*GZ1|" + IntToString(setTemperature as int) + "|&";
      } else if command == "GZ2" {
        responsePacket := "*GZ2|" + IntToString(zone2Temperature as int) + "|&";
      }
    }
  }

  /** Pressing set-down after set-up restores the set point, across the overflow too. */
  lemma UpThenDown(x: int32)
    ensures Wrap(Wrap(x as int + 1) as int - 1) == x
  {
  }

  /** Pressing set-up after set-down restores the set point, across the overflow too. */
  lemma DownThenUp(x: int32)
    ensures Wrap(Wrap(x as int - 1) as int + 1) == x
  {
  }

  /**
   * A reply carrying a number, `*command|n|&`, is one well-formed NIO
   * packet: framed by a peer, it yields the command and the number's text,
   * which reads back as the number. The `GZ1` and `GZ2` replies are of this
   * form.
   */
  lemma NumberReplyFrames(command: string, n: int32)
    requires |command| > 0 && NioFramer.NoDelimiters(command)
    ensures NioFramer.Frame("*" + command + "|" + IntToString(n as int) + "|&", 0) == [Packet(command, IntToString(n as int))]
    ensures ParseInt(IntToString(n as int)) == Success(n)
  {
    var p := Packet(command, IntToString(n as int));
    IntToStringChars(n as int);
    assert NioFramer.NoDelimiters(p.commandData);
    NioFramer.RoundTrip([p], ["", ""]);
    assert NioFramer.Wire([p], ["", ""]) == NioFramer.Encode(p) by {
      assert NioFramer.Wire([], [""]) == "";
    }
    assert "*" + command + "|" + IntToString(n as int) + "|&" == NioFramer.Encode(p);
    ParseIntOfIntToString(n);
  }

  lemma TwentyOneText(s: string)
    requires s == "21"
    ensures ParseInt(s) == Success(21)
  {
    assert s == IntToString(21);
    ParseIntOfIntToString(21);
  }

  /**
   * A fresh HMI told the zone-1 temperature is 21: it shows 21 on the room
   * panel and replies with its initial set point, `*GZ1|10|&`.
   */
  method Gz1Example() returns (reply: string, room: Panel, zone1: int32)
    ensures reply == "*GZ1|10|&" && zone1 == 21
    ensures room == Panel(Digit(1), Digit(2), Blank)
  {
    var ui := new HMIui();
    TwentyOneText("21");
    var raised;
    reply, raised := ui.ExternalEventHandler("GZ1", "21");
    assert IntToString(10) == "10";
    room, zone1 := ui.roomPanel, ui.zone1Temperature;
    TensSlot(21);
    HundredsSlot(21);
  }
}
