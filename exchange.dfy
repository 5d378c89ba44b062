// One request/response exchange between the host client and the firmware:
// the host's SET_REPORT reaches the vendor HID device, which stages a
// response in the USB manager's mailbox; the host's GET_REPORT collects it.

module Exchange {
  import opened Bytes
  import opened Wrappers
  import Config
  import VP = VendorProtocol
  import Host = HostProtocol
  import UM = UsbManager
  import VendorHid

  /** The reply buffer the host reads back: report ID, then the packet the device wrote. */
  function ReplyBuffer(p: VP.VendorPacket): (b: seq<byte>)
    ensures |b| == 1 + VP.PacketSize
  {
    [Config.VendorReportId as byte] + VP.Encode(p)
  }

  /** What the firmware stages for a request the host built. */
  function FirmwareAnswer(command: byte, sequence: u32, status: VP.StatusPayload): Option<VP.VendorPacket>
  {
    VP.ResponseFor(VP.Decode(Host.CommandBuffer(command, sequence)[1..]), status)
  }

  lemma AnswerToHostRequest(command: byte, sequence: u32, status: VP.StatusPayload)
    ensures FirmwareAnswer(command, sequence, status).Some?
            <==> command in {VP.CmdPing, VP.CmdGetStatus, VP.CmdGetInfo}
    ensures FirmwareAnswer(command, sequence, status).Some? ==>
      FirmwareAnswer(command, sequence, status).value.sequence == sequence
  {
    Host.CommandBufferDecodes(command, sequence);
  }

  /** Every ping the host sends is answered with a PONG it accepts. */
  lemma PingRoundTrip(sequence: u32, status: VP.StatusPayload)
    ensures FirmwareAnswer(VP.CmdPing, sequence, status).Some?
    ensures Host.Ping(true, Some(ReplyBuffer(FirmwareAnswer(VP.CmdPing, sequence, status).value)), sequence)
  {
    AnswerToHostRequest(VP.CmdPing, sequence, status);
    Host.ReceiveAcceptsAnyCommand(FirmwareAnswer(VP.CmdPing, sequence, status).value);
  }

  /** The host's status request returns exactly the status the firmware encoded. */
  lemma GetStatusRoundTrip(sequence: u32, status: VP.StatusPayload)
    ensures FirmwareAnswer(VP.CmdGetStatus, sequence, status).Some?
    ensures Host.GetStatus(true, true, Some(ReplyBuffer(FirmwareAnswer(VP.CmdGetStatus, sequence, status).value)),
                           sequence) == Some(status)
  {
    AnswerToHostRequest(VP.CmdGetStatus, sequence, status);
    Host.ReceiveAcceptsAnyCommand(FirmwareAnswer(VP.CmdGetStatus, sequence, status).value);
  }

  /** The host's info request returns exactly the firmware's info payload. */
  lemma GetInfoRoundTrip(sequence: u32, status: VP.StatusPayload)
    ensures FirmwareAnswer(VP.CmdGetInfo, sequence, status).Some?
    ensures Host.GetInfo(true, true, Some(ReplyBuffer(FirmwareAnswer(VP.CmdGetInfo, sequence, status).value)),
                         sequence) == Some(VP.BuildInfoPayload())
  {
    AnswerToHostRequest(VP.CmdGetInfo, sequence, status);
    var p := FirmwareAnswer(VP.CmdGetInfo, sequence, status).value;
    Host.ReceiveAcceptsAnyCommand(p);
    Host.DecodeEncodeInfo(VP.BuildInfoPayload());
    assert Host.DecodeInfo(p.payload) == Host.DecodeInfo(p.payload[..VP.InfoPayloadSize]);
  }

  /** With nothing staged the host reads the error packet, which fails every check. */
  lemma ErrorPacketRejected(sequence: u32)
    ensures Host.ReceiveResponse(true, Some(ReplyBuffer(VP.ErrorPacket()))) == Some(VP.ErrorPacket())
    ensures !Host.Ping(true, Some(ReplyBuffer(VP.ErrorPacket())), sequence)
    ensures Host.GetStatus(true, true, Some(ReplyBuffer(VP.ErrorPacket())), sequence).None?
    ensures Host.GetInfo(true, true, Some(ReplyBuffer(VP.ErrorPacket())), sequence).None?
  {
    Host.ReceiveAcceptsAnyCommand(VP.ErrorPacket());
  }

  /**
   * A whole exchange through the device objects: the host's request buffer
   * is written with SET_REPORT, then the 32 bytes the device writes for
   * GET_REPORT are read back after the report ID.
   */
  method RoundTrip(hid: VendorHid.GripDeckVendorHid, command: byte, sequence: u32, status: VP.StatusPayload)
    returns (reply: seq<byte>)
    requires hid.Valid()
    modifies hid.manager
    ensures hid.Valid()
    ensures |reply| == 1 + VP.PacketSize
    ensures hid.manager != null && hid.manager.hidEnabled && FirmwareAnswer(command, sequence, status).Some? ==>
      reply == ReplyBuffer(FirmwareAnswer(command, sequence, status).value)
    ensures hid.manager == null ==> reply == ReplyBuffer(VP.ErrorPacket())
  {
    var request := Host.BuildCommandBuffer(command, sequence);
    hid.OnSetFeature(request[0], request[1..], status);
    var data := new byte[VP.PacketSize](_ => 0);
    var n := hid.OnGetFeature(Config.VendorReportId as byte, data, VP.PacketSize as u16);
    reply := [Config.VendorReportId as byte] + data[..];
  }

  /** A host ping against a device with HID enabled always succeeds. */
  method PingDevice(hid: VendorHid.GripDeckVendorHid, sequence: u32, status: VP.StatusPayload) returns (ok: bool)
    requires hid.Valid() && hid.manager != null && hid.manager.hidEnabled
    modifies hid.manager
    ensures hid.Valid()
    ensures ok
  {
    var reply := RoundTrip(hid, VP.CmdPing, sequence, status);
    PingRoundTrip(sequence, status);
    ok := Host.Ping(true, Some(reply), sequence);
  }
}
