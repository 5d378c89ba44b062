// The vendor feature-report protocol shared by the firmware, the host test
// client and the Linux battery driver: a packed 32-byte packet (magic,
// version, command, sequence, 24-byte payload) carried in HID feature
// report 6, and the two payloads the firmware answers with.

module VendorProtocol {
  import opened Bytes
  import opened Wrappers
  import Config

  const PacketSize: nat := 32
  const PayloadSize: nat := 24

  // Commands (host to device) and responses (device to host)
  const CmdPing: byte := 0x01
  const CmdGetStatus: byte := 0x02
  const CmdGetInfo: byte := 0x03
  const CmdReserved: byte := 0xFF
  const RespPong: byte := 0x81
  const RespStatus: byte := 0x82
  const RespInfo: byte := 0x83
  const RespError: byte := 0xFF

  type Payload = s: seq<byte> | |s| == 24 witness seq(24, _ => 0)

  /** The packed `VendorPacket` / `vendor_packet_t`. */
  datatype VendorPacket = VendorPacket(
    magic: u16,
    version: byte,
    command: byte,
    sequence: u32,
    payload: Payload)

  /** The packet's bytes in memory: fields in order, little-endian, no padding. */
  function Encode(p: VendorPacket): (b: seq<byte>)
    ensures |b| == PacketSize
  {
    LeU16(p.magic) + [p.version, p.command] + LeU32(p.sequence) + p.payload
  }

  /** Reading 32 bytes as a packet (the firmware's `reinterpret_cast`, the host's `memcpy`). */
  function Decode(b: seq<byte>): VendorPacket
    requires |b| == PacketSize
  {
    VendorPacket(ReadLeU16(b, 0), b[2], b[3], ReadLeU32(b, 4), b[8..])
  }

  lemma DecodeEncode(p: VendorPacket)
    ensures Decode(Encode(p)) == p
  {
    var b := Encode(p);
    LeU16RoundTrip(p.magic, [p.version, p.command] + LeU32(p.sequence) + p.payload, []);
    assert b == [] + LeU16(p.magic) + ([p.version, p.command] + LeU32(p.sequence) + p.payload);
    LeU32RoundTrip(p.sequence, p.payload, LeU16(p.magic) + [p.version, p.command]);
    assert b == (LeU16(p.magic) + [p.version, p.command]) + LeU32(p.sequence) + p.payload;
    assert b[8..] == p.payload;
  }

  lemma EncodeDecode(b: seq<byte>)
    requires |b| == PacketSize
    ensures Encode(Decode(b)) == b
  {
    ReadLeU16Encode(b, 0);
    ReadLeU32Encode(b, 4);
    assert b == b[0..2] + [b[2], b[3]] + b[4..8] + b[8..];
  }

  /** Header fields are set and everything else is zero (`= {}` then assignments). */
  function ZeroedPacket(command: byte, sequence: u32): (p: VendorPacket)
    ensures p.magic == Config.ProtocolMagic && p.version == Config.ProtocolVersion
    ensures p.command == command && p.sequence == sequence
    ensures forall i :: 0 <= i < PayloadSize ==> p.payload[i] == 0
  {
    VendorPacket(Config.ProtocolMagic, Config.ProtocolVersion, command, sequence, Zeros(24))
  }

  /** A request as the host client and the driver build it. */
  function Request(command: byte, sequence: u32): VendorPacket
  {
    ZeroedPacket(command, sequence)
  }

  /** The packet answered when no response is staged. */
  function ErrorPacket(): VendorPacket
  {
    ZeroedPacket(RespError, 0)
  }

  /** The header checks the firmware applies before dispatching a request. */
  predicate HeaderValid(p: VendorPacket)
  {
    p.magic == Config.ProtocolMagic && p.version == Config.ProtocolVersion
  }

  /**
   * `sendVendorResponse`: a zeroed packet with the response code and the
   * request's sequence, and the first min(|data|, 24) bytes of the payload.
   */
  function Response(request: VendorPacket, responseType: byte, data: seq<byte>): (p: VendorPacket)
    ensures HeaderValid(p) && p.command == responseType && p.sequence == request.sequence
    ensures forall i :: 0 <= i < PayloadSize ==>
      p.payload[i] == if i < |data| then data[i] else 0
  {
    var n := if |data| > PayloadSize then PayloadSize else |data|;
    VendorPacket(Config.ProtocolMagic, Config.ProtocolVersion, responseType, request.sequence,
                 data[..n] + Zeros(PayloadSize - n))
  }

  // ---------------------------------------------------------------------
  // Status payload (24 bytes)

  /** `status_payload_t`, the firmware's `StatusPayload`. */
  datatype StatusPayload = StatusPayload(
    batteryVoltageMv: u16,
    batteryCurrentMa: i16,
    toFullyDischargeS: u32,
    chargerVoltageMv: u16,
    chargerCurrentMa: i16,
    toFullyChargeS: u32,
    chargerPowerMw: u16,
    chargerConnected: byte,
    batteryPercentage: byte,
    uptimeSeconds: u32)

  function EncodeStatus(s: StatusPayload): (b: seq<byte>)
    ensures |b| == PayloadSize
  {
    LeU16(s.batteryVoltageMv) + LeU16(FromSigned16(s.batteryCurrentMa)) + LeU32(s.toFullyDischargeS)
    + LeU16(s.chargerVoltageMv) + LeU16(FromSigned16(s.chargerCurrentMa)) + LeU32(s.toFullyChargeS)
    + LeU16(s.chargerPowerMw) + [s.chargerConnected, s.batteryPercentage] + LeU32(s.uptimeSeconds)
  }

  function DecodeStatus(b: seq<byte>): StatusPayload
    requires |b| == PayloadSize
  {
    StatusPayload(
      ReadLeU16(b, 0), ToSigned16(ReadLeU16(b, 2)), ReadLeU32(b, 4),
      ReadLeU16(b, 8), ToSigned16(ReadLeU16(b, 10)), ReadLeU32(b, 12),
      ReadLeU16(b, 16), b[18], b[19], ReadLeU32(b, 20))
  }

  /** Byte offsets of the packed fields. */
  lemma StatusLayout(s: StatusPayload)
    ensures var b := EncodeStatus(s);
      b[0..2] == LeU16(s.batteryVoltageMv) && b[2..4] == LeU16(FromSigned16(s.batteryCurrentMa))
      && b[4..8] == LeU32(s.toFullyDischargeS) && b[8..10] == LeU16(s.chargerVoltageMv)
      && b[10..12] == LeU16(FromSigned16(s.chargerCurrentMa)) && b[12..16] == LeU32(s.toFullyChargeS)
      && b[16..18] == LeU16(s.chargerPowerMw) && b[18] == s.chargerConnected
      && b[19] == s.batteryPercentage && b[20..24] == LeU32(s.uptimeSeconds)
  {
  }

  lemma DecodeEncodeStatus(s: StatusPayload)
    ensures DecodeStatus(EncodeStatus(s)) == s
  {
    var b := EncodeStatus(s);
    StatusLayout(s);
    Le16At(b, 0, s.batteryVoltageMv);
    Le16At(b, 2, FromSigned16(s.batteryCurrentMa));
    SignedRoundTrip(s.batteryCurrentMa);
    Le32At(b, 4, s.toFullyDischargeS);
    Le16At(b, 8, s.chargerVoltageMv);
    Le16At(b, 10, FromSigned16(s.chargerCurrentMa));
    SignedRoundTrip(s.chargerCurrentMa);
    Le32At(b, 12, s.toFullyChargeS);
    Le16At(b, 16, s.chargerPowerMw);
    Le32At(b, 20, s.uptimeSeconds);
  }

  lemma Le16At(b: seq<byte>, off: nat, x: u16)
    requires off + 2 <= |b| && b[off..off + 2] == LeU16(x)
    ensures ReadLeU16(b, off) == x
  {
    assert b[off] == b[off..off + 2][0] && b[off + 1] == b[off..off + 2][1];
  }

  lemma Le32At(b: seq<byte>, off: nat, x: u32)
    requires off + 4 <= |b| && b[off..off + 4] == LeU32(x)
    ensures ReadLeU32(b, off) == x
  {
    LeU32RoundTrip(x, [], []);
    assert LeU32(x) == [] + LeU32(x) + [];
    var w := b[off..off + 4];
    assert ReadLeU32(w, 0) == x;
    assert b[off] == w[0] && b[off + 1] == w[1] && b[off + 2] == w[2] && b[off + 3] == w[3];
  }

  // ---------------------------------------------------------------------
  // Info payload (22 bytes)

  /** `info_payload_t`: firmware version, NUL-padded serial number, reserved bytes. */
  datatype InfoPayload = InfoPayload(firmwareVersion: u16, serialNumber: seq<byte>)

  const SerialNumberSize: nat := 12
  const InfoPayloadSize: nat := 22

  function EncodeInfo(p: InfoPayload): (b: seq<byte>)
    requires |p.serialNumber| == SerialNumberSize
    ensures |b| == InfoPayloadSize
  {
    LeU16(p.firmwareVersion) + p.serialNumber + Zeros(8)
  }

  /** Character codes of an ASCII string. */
  function AsciiBytes(s: string): (b: seq<byte>)
    requires forall i :: 0 <= i < |s| ==> s[i] as int < 128
    ensures |b| == |s| && forall i :: 0 <= i < |s| ==> b[i] == s[i] as int
  {
    if s == [] then [] else [s[0] as int] + AsciiBytes(s[1..])
  }

  /**
   * `buildInfoPayload`: the firmware version and the serial number copied by
   * `strncpy` into 12 bytes (zero padded, last byte forced to NUL).
   */
  function BuildInfoPayload(): (p: InfoPayload)
    ensures |p.serialNumber| == SerialNumberSize
  {
    var serial := AsciiBytes(Config.UsbSerialNumber);
    InfoPayload(Config.FirmwareVersion, serial + Zeros(SerialNumberSize - |serial|))
  }

  /** The info payload reads back as version 0x0100 and serial "GD001", NUL-terminated. */
  lemma InfoPayloadContents()
    ensures var b := EncodeInfo(BuildInfoPayload());
      ReadLeU16(b, 0) == 0x0100
      && b[2..7] == AsciiBytes("GD001") && b[7] == 0
      && forall i :: 7 <= i < InfoPayloadSize ==> b[i] == 0
  {
    var p := BuildInfoPayload();
    var b := EncodeInfo(p);
    assert b[2..14] == p.serialNumber;
    assert b[2..7] == p.serialNumber[..5];
  }

  // ---------------------------------------------------------------------
  // Dispatch of a request received in a SET_REPORT

  /**
   * What `handleVendorReport` stages for a 32-byte request: nothing for a
   * bad header or an unknown command; otherwise PONG with an empty payload,
   * STATUS with the status payload or INFO with the info payload.
   */
  function ResponseFor(request: VendorPacket, status: StatusPayload): (r: Option<VendorPacket>)
    ensures r.Some? <==> HeaderValid(request) && request.command in {CmdPing, CmdGetStatus, CmdGetInfo}
    ensures r.Some? ==> HeaderValid(r.value) && r.value.sequence == request.sequence
    ensures r.Some? ==> r.value.command as int == request.command as int + 0x80
    ensures r.Some? && request.command == CmdPing ==> r.value == ZeroedPacket(RespPong, request.sequence)
    ensures r.Some? && request.command == CmdGetStatus ==>
      r.value.command == RespStatus && DecodeStatus(r.value.payload) == status
    ensures r.Some? && request.command == CmdGetInfo ==>
      r.value.command == RespInfo && r.value.payload[..InfoPayloadSize] == EncodeInfo(BuildInfoPayload())
  {
    if !HeaderValid(request) then None
    else if request.command == CmdPing then
      var p := Response(request, RespPong, []);
      assert p.payload == Zeros(24);
      Some(p)
    else if request.command == CmdGetStatus then
      var p := Response(request, RespStatus, EncodeStatus(status));
      assert p.payload == EncodeStatus(status);
      DecodeEncodeStatus(status);
      Some(p)
    else if request.command == CmdGetInfo then
      var p := Response(request, RespInfo, EncodeInfo(BuildInfoPayload()));
      assert p.payload[..InfoPayloadSize] == EncodeInfo(BuildInfoPayload());
      Some(p)
    else None
  }

  // ---------------------------------------------------------------------
  // Report descriptor

  /** The vendor report descriptor handed to the USB stack. */
  const ReportDescriptor: seq<byte> := [
    0x06, 0x00, 0xFF, 0x09, 0x01, 0xA1, 0x01, 0x85, 0x06, 0x09, 0x01,
    0x15, 0x00, 0x25, 0xFF, 0x75, 0x08, 0x95, 0x20, 0xB1, 0x02, 0xC0]

  /** A short item of a HID report descriptor (section 6.2.2.2 of HID 1.11). */
  datatype HidItem = HidItem(tag: nat, kind: nat, data: seq<byte>)

  const KindMain: nat := 0
  const KindGlobal: nat := 1
  const TagFeature: nat := 0xB
  const TagReportSize: nat := 0x7
  const TagReportId: nat := 0x8
  const TagReportCount: nat := 0x9

  function DataSize(prefix: byte): (n: nat)
    ensures n <= 4
  {
    var code := prefix % 4;
    if code == 3 then 4 else code
  }

  /** Splits a descriptor into its short items, or None when one is cut off. */
  function ParseItems(d: seq<byte>): Option<seq<HidItem>>
    decreases |d|
  {
    if d == [] then Some([])
    else
      var n := DataSize(d[0]);
      if 1 + n > |d| then None
      else
        match ParseItems(d[1 + n..])
        case None => None
        case Some(rest) => Some([HidItem(d[0] / 16, (d[0] / 4) % 4, d[1..1 + n])] + rest)
  }

  /** Unsigned little-endian value of an item's data. */
  function ItemValue(data: seq<byte>): nat
  {
    if data == [] then 0 else data[0] + 256 * ItemValue(data[1..])
  }

  /**
   * The feature reports the items declare, as (report ID, size in bits),
   * following the global Report ID, Report Size and Report Count in force
   * at each Feature main item.
   */
  function FeatureReports(items: seq<HidItem>, id: nat, size: nat, count: nat): seq<(nat, nat)>
  {
    if items == [] then []
    else
      var it := items[0];
      var v := ItemValue(it.data);
      if it.kind == KindGlobal && it.tag == TagReportId then FeatureReports(items[1..], v, size, count)
      else if it.kind == KindGlobal && it.tag == TagReportSize then FeatureReports(items[1..], id, v, count)
      else if it.kind == KindGlobal && it.tag == TagReportCount then FeatureReports(items[1..], id, size, v)
      else if it.kind == KindMain && it.tag == TagFeature then [(id, size * count)] + FeatureReports(items[1..], id, size, count)
      else FeatureReports(items[1..], id, size, count)
  }

  /** The prefix byte of a short item (bTag, bType, bSize) followed by its data. */
  function EncodeItem(it: HidItem): (b: seq<byte>)
    ensures |b| == 1 + |it.data| && b[1..] == it.data
  {
    var code := if |it.data| == 4 then 3 else |it.data| % 4;
    [(it.tag * 16 + it.kind * 4 + code) % 0x100] + it.data
  }

  function EncodeItems(items: seq<HidItem>): seq<byte>
  {
    if items == [] then [] else EncodeItem(items[0]) + EncodeItems(items[1..])
  }

  /** A short item the prefix byte can describe: 4-bit tag, 2-bit type, 0/1/2/4 data bytes. */
  predicate WellFormed(it: HidItem)
  {
    it.tag < 16 && it.kind < 4 && |it.data| in {0, 1, 2, 4}
  }

  lemma ParseEncodeItem(it: HidItem, rest: seq<byte>)
    requires WellFormed(it)
    ensures ParseItems(EncodeItem(it) + rest) ==
      match ParseItems(rest)
      case None => None
      case Some(items) => Some([it] + items)
  {
    var d := EncodeItem(it) + rest;
    var n := |it.data|;
    PrefixDecodes(it);
    assert d[0] == EncodeItem(it)[0];
    assert d[1..1 + n] == it.data;
    assert d[1 + n..] == rest;
  }

  /** The prefix byte of a well-formed item gives back its tag, type and data size. */
  lemma PrefixDecodes(it: HidItem)
    requires WellFormed(it)
    ensures DataSize(EncodeItem(it)[0]) == |it.data|
    ensures EncodeItem(it)[0] / 16 == it.tag && (EncodeItem(it)[0] / 4) % 4 == it.kind
  {
    var code := if |it.data| == 4 then 3 else |it.data| % 4;
    var low := it.kind * 4 + code;
    assert 0 <= low < 16;
    var v := it.tag * 16 + low;
    assert v < 0x100;
    assert EncodeItem(it)[0] == v;
    assert v / 16 == it.tag;
    assert v / 4 == it.tag * 4 + it.kind;
    assert v % 4 == code;
  }

  /** Parsing undoes encoding for any list of well-formed short items. */
  lemma {:induction false} ParseEncodeItems(items: seq<HidItem>)
    requires forall i :: 0 <= i < |items| ==> WellFormed(items[i])
    ensures ParseItems(EncodeItems(items)) == Some(items)
  {
    if items != [] {
      ParseEncodeItems(items[1..]);
      ParseEncodeItem(items[0], EncodeItems(items[1..]));
      assert [items[0]] + items[1..] == items;
    }
  }

  /** The items of the vendor report descriptor, in order. */
  const VendorDescriptorItems: seq<HidItem> := [
    HidItem(0, 1, [0x00, 0xFF]),  // Usage Page (vendor 0xFF00)
    HidItem(0, 2, [0x01]),        // Usage (1)
    HidItem(0xA, 0, [0x01]),      // Collection (Application)
    HidItem(8, 1, [0x06]),        // Report ID (6)
    HidItem(0, 2, [0x01]),        // Usage (1)
    HidItem(1, 1, [0x00]),        // Logical Minimum (0)
    HidItem(2, 1, [0xFF]),        // Logical Maximum (255)
    HidItem(7, 1, [0x08]),        // Report Size (8)
    HidItem(9, 1, [0x20]),        // Report Count (32)
    HidItem(0xB, 0, [0x02]),      // Feature (Data, Var, Abs)
    HidItem(0xC, 0, [])]          // End Collection

  lemma EncodeItemsStep(items: seq<HidItem>, k: nat)
    requires k < |items|
    ensures EncodeItems(items[k..]) == EncodeItem(items[k]) + EncodeItems(items[k + 1..])
  {
    assert items[k..][1..] == items[k + 1..];
  }

  /** Both sides of the descriptor equality below, unfolded item by item. */
  lemma EncodeVendorItems()
    ensures EncodeItems(VendorDescriptorItems) ==
      EncodeItem(VendorDescriptorItems[0]) + (EncodeItem(VendorDescriptorItems[1]) + (EncodeItem(VendorDescriptorItems[2])
      + (EncodeItem(VendorDescriptorItems[3]) + (EncodeItem(VendorDescriptorItems[4]) + (EncodeItem(VendorDescriptorItems[5])
      + (EncodeItem(VendorDescriptorItems[6]) + (EncodeItem(VendorDescriptorItems[7]) + (EncodeItem(VendorDescriptorItems[8])
      + (EncodeItem(VendorDescriptorItems[9]) + (EncodeItem(VendorDescriptorItems[10]) + []))))))))))
  {
    assert VendorDescriptorItems[0..] == VendorDescriptorItems;
    EncodeItemsStep(VendorDescriptorItems, 0);
    EncodeItemsStep(VendorDescriptorItems, 1);
    EncodeItemsStep(VendorDescriptorItems, 2);
    EncodeItemsStep(VendorDescriptorItems, 3);
    EncodeItemsStep(VendorDescriptorItems, 4);
    EncodeItemsStep(VendorDescriptorItems, 5);
    EncodeItemsStep(VendorDescriptorItems, 6);
    EncodeItemsStep(VendorDescriptorItems, 7);
    EncodeItemsStep(VendorDescriptorItems, 8);
    EncodeItemsStep(VendorDescriptorItems, 9);
    EncodeItemsStep(VendorDescriptorItems, 10);
    assert VendorDescriptorItems[11..] == [];
  }

  lemma ReportDescriptorBytes()
    ensures ReportDescriptor ==
      EncodeItem(VendorDescriptorItems[0]) + (EncodeItem(VendorDescriptorItems[1]) + (EncodeItem(VendorDescriptorItems[2])
      + (EncodeItem(VendorDescriptorItems[3]) + (EncodeItem(VendorDescriptorItems[4]) + (EncodeItem(VendorDescriptorItems[5])
      + (EncodeItem(VendorDescriptorItems[6]) + (EncodeItem(VendorDescriptorItems[7]) + (EncodeItem(VendorDescriptorItems[8])
      + (EncodeItem(VendorDescriptorItems[9]) + (EncodeItem(VendorDescriptorItems[10]) + []))))))))))
  {
    FirstItemEncodings();
    LastItemEncodings();
    DescriptorChunks();
  }

  /** The descriptor bytes cut at the item boundaries. */
  lemma DescriptorChunks()
    ensures ReportDescriptor == [0x06, 0x00, 0xFF] + ([0x09, 0x01] + ([0xA1, 0x01] + ([0x85, 0x06] + ([0x09, 0x01]
      + ([0x15, 0x00] + ([0x25, 0xFF] + ([0x75, 0x08] + ([0x95, 0x20] + ([0xB1, 0x02] + ([0xC0] + []))))))))))
  {
  }

  lemma FirstItemEncodings()
    ensures EncodeItem(VendorDescriptorItems[0]) == [0x06, 0x00, 0xFF]
    ensures EncodeItem(VendorDescriptorItems[1]) == [0x09, 0x01]
    ensures EncodeItem(VendorDescriptorItems[2]) == [0xA1, 0x01]
    ensures EncodeItem(VendorDescriptorItems[3]) == [0x85, 0x06]
    ensures EncodeItem(VendorDescriptorItems[4]) == [0x09, 0x01]
  {
  }

  lemma LastItemEncodings()
    ensures EncodeItem(VendorDescriptorItems[5]) == [0x15, 0x00]
    ensures EncodeItem(VendorDescriptorItems[6]) == [0x25, 0xFF]
    ensures EncodeItem(VendorDescriptorItems[7]) == [0x75, 0x08]
    ensures EncodeItem(VendorDescriptorItems[8]) == [0x95, 0x20]
    ensures EncodeItem(VendorDescriptorItems[9]) == [0xB1, 0x02]
    ensures EncodeItem(VendorDescriptorItems[10]) == [0xC0]
  {
  }

  /** The feature reports the item list declares. */
  lemma VendorItemsFeatureReports()
    ensures FeatureReports(VendorDescriptorItems, 0, 0, 0) == [(6, 256)]
  {
    var it := VendorDescriptorItems;
    LastFeatureReports();
    assert it[5..][1..] == it[6..];
    assert FeatureReports(it[5..], 6, 0, 0) == [(6, 256)];
    assert it[4..][1..] == it[5..];
    assert FeatureReports(it[4..], 6, 0, 0) == [(6, 256)];
    assert it[3..][1..] == it[4..];
    assert FeatureReports(it[3..], 0, 0, 0) == [(6, 256)];
    assert it[2..][1..] == it[3..];
    assert FeatureReports(it[2..], 0, 0, 0) == [(6, 256)];
    assert it[1..][1..] == it[2..];
    assert FeatureReports(it[1..], 0, 0, 0) == [(6, 256)];
    assert it[0..][1..] == it[1..];
    assert FeatureReports(it[0..], 0, 0, 0) == [(6, 256)];
    assert it[0..] == it;
  }

  /** The feature reports of the items after Logical Minimum. */
  lemma LastFeatureReports()
    ensures FeatureReports(VendorDescriptorItems[6..], 6, 0, 0) == [(6, 256)]
  {
    var it := VendorDescriptorItems;
    assert it[11..] == [];
    assert it[10..][1..] == it[11..];
    assert FeatureReports(it[10..], 6, 8, 32) == [];
    assert it[9..][1..] == it[10..];
    assert FeatureReports(it[9..], 6, 8, 32) == [(6, 256)];
    assert it[8..][1..] == it[9..];
    assert FeatureReports(it[8..], 6, 8, 0) == [(6, 256)];
    assert it[7..][1..] == it[8..];
    assert FeatureReports(it[7..], 6, 0, 0) == [(6, 256)];
    assert it[6..][1..] == it[7..];
  }

  /**
   * The descriptor parses completely into the item list above, which
   * declares exactly one feature report: ID VENDOR_REPORT_ID,
   * VENDOR_REPORT_SIZE bytes long.
   */
  lemma DescriptorDeclaresVendorReport()
    ensures |ReportDescriptor| == 22
    ensures ParseItems(ReportDescriptor) == Some(VendorDescriptorItems)
    ensures FeatureReports(VendorDescriptorItems, 0, 0, 0)
         == [(Config.VendorReportId, 8 * Config.VendorReportSize)]
  {
    ReportDescriptorEncodesItems();
    VendorItemsWellFormed();
    ParseEncodeItems(VendorDescriptorItems);
    VendorItemsFeatureReports();
  }

  /** The descriptor bytes are the encoding of the item list. */
  lemma ReportDescriptorEncodesItems()
    ensures ReportDescriptor == EncodeItems(VendorDescriptorItems)
  {
    EncodeVendorItems();
    ReportDescriptorBytes();
  }

  lemma VendorItemsWellFormed()
    ensures forall i :: 0 <= i < |VendorDescriptorItems| ==> WellFormed(VendorDescriptorItems[i])
  {
  }
}
