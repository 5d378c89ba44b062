// The host-side test client of the vendor protocol: it writes a request
// with SET_REPORT, reads the reply with GET_REPORT and checks it. The
// hidraw ioctls are parameters: a send either succeeds or fails, and a read
// either fails or yields the 33-byte feature buffer (report ID first).

module HostProtocol {
  import Seqs
  import opened Bytes
  import opened Wrappers
  import Config
  import VP = VendorProtocol

  /** The 33-byte feature buffer of a request: report ID, then the packet. */
  function CommandBuffer(command: byte, sequence: u32): (b: seq<byte>)
    ensures |b| == 1 + VP.PacketSize && b[0] == Config.VendorReportId
  {
    [Config.VendorReportId as byte] + VP.Encode(VP.Request(command, sequence))
  }

  /** The request travels intact: the packet after the report ID reads back as the request. */
  lemma CommandBufferDecodes(command: byte, sequence: u32)
    ensures var b := CommandBuffer(command, sequence);
      VP.Decode(b[1..]) == VP.Request(command, sequence)
      && VP.HeaderValid(VP.Decode(b[1..]))
      && b[1..3] == [0x44, 0x47] && b[3] == 0x01 && b[4] == command
      && b[9..] == Zeros(VP.PayloadSize)
  {
    var b := CommandBuffer(command, sequence);
    assert b[1..] == VP.Encode(VP.Request(command, sequence));
    VP.DecodeEncode(VP.Request(command, sequence));
  }

  /** `gripdeck_send_command`: a zeroed packet with the header set, after report ID 6. */
  method BuildCommandBuffer(command: byte, sequence: u32) returns (buffer: array<byte>)
    ensures fresh(buffer)
    ensures buffer[..] == CommandBuffer(command, sequence)
  {
    var packet := VP.ZeroedPacket(command, sequence);
    buffer := new byte[1 + VP.PacketSize](_ => 0);
    buffer[0] := Config.VendorReportId as byte;
    CopyInto(buffer, 1, VP.Encode(packet));
    assert buffer[..] == buffer[..1] + buffer[1..1 + VP.PacketSize];
  }

  /**
   * `gripdeck_receive_response`: fails for a missing destination, a failed
   * read, a wrong magic or a wrong version; the command and the sequence are
   * not looked at.
   */
  function ReceiveResponse(hasDestination: bool, reply: Option<seq<byte>>): (r: Option<VP.VendorPacket>)
    requires reply.Some? ==> |reply.value| == 1 + VP.PacketSize
    ensures r.Some? <==> hasDestination && reply.Some? && VP.HeaderValid(VP.Decode(reply.value[1..]))
    ensures r.Some? ==> VP.Encode(r.value) == reply.value[1..]
  {
    if !hasDestination || reply.None? then None
    else
      var response := VP.Decode(reply.value[1..]);
      VP.EncodeDecode(reply.value[1..]);
      if response.magic != Config.ProtocolMagic then None
      else if response.version != Config.ProtocolVersion then None
      else Some(response)
  }

  /** Any well-formed packet is accepted, whatever its command or sequence. */
  lemma ReceiveAcceptsAnyCommand(p: VP.VendorPacket)
    requires VP.HeaderValid(p)
    ensures ReceiveResponse(true, Some([Config.VendorReportId as byte] + VP.Encode(p))) == Some(p)
  {
    assert ([Config.VendorReportId as byte] + VP.Encode(p))[1..] == VP.Encode(p);
    VP.DecodeEncode(p);
  }

  /** The reply to a command, once it has passed `gripdeck_receive_response`. */
  function Reply(sent: bool, reply: Option<seq<byte>>): (r: Option<VP.VendorPacket>)
    requires reply.Some? ==> |reply.value| == 1 + VP.PacketSize
    ensures r.Some? <==> sent && ReceiveResponse(true, reply).Some?
    ensures r.Some? ==> r == ReceiveResponse(true, reply)
  {
    if sent then ReceiveResponse(true, reply) else None
  }

  /** A reply matches a request when it has the expected code and the request's sequence. */
  predicate Matches(p: VP.VendorPacket, expected: byte, sequence: u32)
  {
    p.command == expected && p.sequence == sequence
  }

  /** `gripdeck_ping`: the reply must be PONG with the ping's own sequence. */
  function Ping(sent: bool, reply: Option<seq<byte>>, sequence: u32): (ok: bool)
    requires reply.Some? ==> |reply.value| == 1 + VP.PacketSize
    ensures ok ==> reply.Some? && reply.value[4] == VP.RespPong
                   && VP.Decode(reply.value[1..]).sequence == sequence
    ensures ok <==> Reply(sent, reply).Some? && Matches(Reply(sent, reply).value, VP.RespPong, sequence)
  {
    var r := Reply(sent, reply);
    r.Some? && r.value.command == VP.RespPong && r.value.sequence == sequence
  }

  /** `gripdeck_get_status`: the payload read as a status, for a STATUS reply with the same sequence. */
  function GetStatus(hasDestination: bool, sent: bool, reply: Option<seq<byte>>, sequence: u32)
    : (r: Option<VP.StatusPayload>)
    requires reply.Some? ==> |reply.value| == 1 + VP.PacketSize
    ensures r.Some? <==> hasDestination && Reply(sent, reply).Some?
                         && Matches(Reply(sent, reply).value, VP.RespStatus, sequence)
    ensures r.Some? ==> VP.EncodeStatus(r.value) == reply.value[9..]
  {
    if !hasDestination then None
    else
      var p := Reply(sent, reply);
      if p.Some? && p.value.command == VP.RespStatus && p.value.sequence == sequence then
        EncodeDecodeStatus(p.value.payload);
        Some(VP.DecodeStatus(p.value.payload))
      else None
  }

  /** Reading 24 bytes as a status and writing it back gives the same bytes. */
  lemma EncodeDecodeStatus(b: seq<byte>)
    requires |b| == VP.PayloadSize
    ensures VP.EncodeStatus(VP.DecodeStatus(b)) == b
  {
    ReadLeU16Encode(b, 0);
    ReadLeU16Encode(b, 2);
    ReadLeU32Encode(b, 4);
    ReadLeU16Encode(b, 8);
    ReadLeU16Encode(b, 10);
    ReadLeU32Encode(b, 12);
    ReadLeU16Encode(b, 16);
    ReadLeU32Encode(b, 20);
    assert b[18..20] == [b[18], b[19]];
    Seqs.PrefixExtend(b, 2, 4);
    Seqs.PrefixExtend(b, 4, 8);
    Seqs.PrefixExtend(b, 8, 10);
    Seqs.PrefixExtend(b, 10, 12);
    Seqs.PrefixExtend(b, 12, 16);
    Seqs.PrefixExtend(b, 16, 18);
    Seqs.PrefixExtend(b, 18, 20);
    Seqs.PrefixExtend(b, 20, 24);
    assert b[0..2] == b[..2];
    Seqs.PrefixWhole(b);
  }

  /** `info_payload_t` read from the first 22 payload bytes. */
  function DecodeInfo(b: seq<byte>): (p: VP.InfoPayload)
    requires |b| >= VP.InfoPayloadSize
    ensures |p.serialNumber| == VP.SerialNumberSize
  {
    VP.InfoPayload(ReadLeU16(b, 0), b[2..2 + VP.SerialNumberSize])
  }

  lemma DecodeEncodeInfo(p: VP.InfoPayload)
    requires |p.serialNumber| == VP.SerialNumberSize
    ensures DecodeInfo(VP.EncodeInfo(p)) == p
  {
    LeU16RoundTrip(p.firmwareVersion, p.serialNumber + Zeros(8), []);
    assert VP.EncodeInfo(p) == [] + LeU16(p.firmwareVersion) + (p.serialNumber + Zeros(8));
    assert VP.EncodeInfo(p)[2..14] == p.serialNumber;
  }

  /** `gripdeck_get_info`: the payload read as info, for an INFO reply with the same sequence. */
  function GetInfo(hasDestination: bool, sent: bool, reply: Option<seq<byte>>, sequence: u32)
    : (r: Option<VP.InfoPayload>)
    requires reply.Some? ==> |reply.value| == 1 + VP.PacketSize
    ensures r.Some? <==> hasDestination && Reply(sent, reply).Some?
                         && Matches(Reply(sent, reply).value, VP.RespInfo, sequence)
    ensures r.Some? ==> r.value.firmwareVersion == ReadLeU16(reply.value, 9)
                        && r.value.serialNumber == reply.value[11..23]
  {
    if !hasDestination then None
    else
      var p := Reply(sent, reply);
      if p.Some? && p.value.command == VP.RespInfo && p.value.sequence == sequence then
        var b := p.value.payload;
        assert b == reply.value[9..];
        Some(DecodeInfo(b))
      else None
  }

  /** Hours and minutes of a duration in seconds, or None for 0 (shown as "N/A"). */
  function TimeSplit(s: u32): (r: Option<(nat, nat)>)
    ensures r.None? <==> s == 0
    ensures r.Some? ==>
      r.value.1 < 60 && r.value.0 * 3600 + r.value.1 * 60 <= s < r.value.0 * 3600 + r.value.1 * 60 + 60
  {
    if s > 0 then Some((s / 3600, (s % 3600) / 60)) else None
  }
}
