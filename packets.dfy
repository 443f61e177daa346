/**
 * The two packet records: the NIO server's `(command, commandData)` pair and
 * the TCP server's `(SIFB instance ID, data)` pair. Each is an object with a
 * getter and a setter per field; the queues hold their values.
 */
module Packets {

  /** The value of one NIO packet, as queued and dispatched. */
  datatype Packet = Packet(command: string, commandData: string)

  /** The value of one TCP packet, as queued. */
  datatype TcpPacket = TcpPacket(sifbInstanceId: string, dataPacket: string)

  class NIOpacket {
    var command: string
    var commandData: string

    /** A fresh packet has both fields empty. */
    constructor ()
      ensures command == "" && commandData == ""
    {
      command := "";
      commandData := "";
    }

    function Command(): string
      reads this
    {
      command
    }

    function CommandData(): string
      reads this
    {
      commandData
    }

    /** The packet's current value. */
    function Value(): (p: Packet)
      reads this
      ensures p.command == Command() && p.commandData == CommandData()
    {
      Packet(command, commandData)
    }

    /** Overwrites the command and nothing else. */
    method SetCommand(c: string)
      modifies this
      ensures Command() == c
      ensures CommandData() == old(CommandData())
    {
      command := c;
    }

    /** Overwrites the command data and nothing else. */
    method SetCommandData(d: string)
      modifies this
      ensures CommandData() == d
      ensures Command() == old(Command())
    {
      commandData := d;
    }
  }

  class TCPserverPacket {
    var sifbInstanceId: string
    var dataPacket: string

    /** A fresh packet has both fields empty. */
    constructor ()
      ensures sifbInstanceId == "" && dataPacket == ""
    {
      sifbInstanceId := "";
      dataPacket := "";
    }

    function SifbInstanceId(): string
      reads this
    {
      sifbInstanceId
    }

    function DataPacket(): string
      reads this
    {
      dataPacket
    }

    /** The packet's current value. */
    function Value(): (p: TcpPacket)
      reads this
      ensures p.sifbInstanceId == SifbInstanceId() && p.dataPacket == DataPacket()
    {
      TcpPacket(sifbInstanceId, dataPacket)
    }

    /** Overwrites the instance ID and nothing else. */
    method SetSifbInstanceId(id: string)
      modifies this
      ensures SifbInstanceId() == id
      ensures DataPacket() == old(DataPacket())
    {
      sifbInstanceId := id;
    }

    /** Overwrites the data and nothing else. */
    method SetDataPacket(d: string)
      modifies this
      ensures DataPacket() == d
      ensures SifbInstanceId() == old(SifbInstanceId())
    {
      dataPacket := d;
    }
  }

  /** Building a packet field by field, as the framers do, yields exactly the two values set. */
  method BuildNIOpacket(c: string, d: string) returns (p: Packet)
    ensures p == Packet(c, d)
  {
    var packet := new NIOpacket();
    packet.SetCommand(c);
    packet.SetCommandData(d);
    p := packet.Value();
  }

  /** The same for the TCP packet record. */
  method BuildTCPserverPacket(id: string, d: string) returns (p: TcpPacket)
    ensures p == TcpPacket(id, d)
  {
    var packet := new TCPserverPacket();
    packet.SetSifbInstanceId(id);
    packet.SetDataPacket(d);
    p := packet.Value();
  }
}
