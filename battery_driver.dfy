// The Linux power-supply driver: every 2 s it asks the device for its
// status over the vendor feature report, caches the decoded fields and
// answers power-supply property reads from that cache.

module BatteryDriver {
  import opened Bytes
  import opened Wrappers
  import Config
  import VP = VendorProtocol
  import Host = HostProtocol
  import Exchange
  import Telemetry
  import UsbManager

  /** The fields the driver caches (`batt_mv` … `capacity`). */
  datatype Snapshot = Snapshot(
    battMv: u16,
    battMa: i16,
    toEmptyS: u32,
    chargMv: u16,
    chargMa: i16,
    toFullS: u32,
    capacity: byte)

  const FeatureReportSize: nat := 1 + VP.PacketSize
  const PollIntervalMs: nat := 2000

  /** What a status payload means to the driver: its battery and charger fields. */
  function FromStatus(s: VP.StatusPayload): Snapshot
  {
    Snapshot(s.batteryVoltageMv, s.batteryCurrentMa, s.toFullyDischargeS,
             s.chargerVoltageMv, s.chargerCurrentMa, s.toFullyChargeS, s.batteryPercentage)
  }

  /** Little-endian fields read at fixed offsets of the 33-byte buffer, capacity at `capacityAt`. */
  function DecodeAt(buf: seq<byte>, capacityAt: nat): Snapshot
    requires |buf| == FeatureReportSize && capacityAt < FeatureReportSize
  {
    Snapshot(ReadLeU16(buf, 9), ToSigned16(ReadLeU16(buf, 11)), ReadLeU32(buf, 13),
             ReadLeU16(buf, 17), ToSigned16(ReadLeU16(buf, 19)), ReadLeU32(buf, 21),
             buf[capacityAt])
  }

  /** The decoding in `gripdeck_update_work`: capacity read at buf + 25. */
  function DecodeAsWritten(buf: seq<byte>): Snapshot
    requires |buf| == FeatureReportSize
  {
    DecodeAt(buf, 25)
  }

  /** Capacity read where the payload keeps `battery_percentage`: byte 19, buf + 28. */
  function DecodeCorrected(buf: seq<byte>): Snapshot
    requires |buf| == FeatureReportSize
  {
    DecodeAt(buf, 9 + 19)
  }

  /** Every other field is at the payload offset of `status_payload_t`, shifted by 9. */
  lemma DecodeCorrectedIsStatus(buf: seq<byte>)
    requires |buf| == FeatureReportSize
    ensures DecodeCorrected(buf) == FromStatus(VP.DecodeStatus(buf[9..]))
  {
    var b := buf[9..];
    assert forall k :: 0 <= k < 24 ==> b[k] == buf[9 + k];
  }

  /** The driver, with the fix, caches exactly the status the firmware reports. */
  lemma DriverReadsStatus(sequence: u32, status: VP.StatusPayload)
    ensures Exchange.FirmwareAnswer(VP.CmdGetStatus, sequence, status).Some?
    ensures DecodeCorrected(Exchange.ReplyBuffer(Exchange.FirmwareAnswer(VP.CmdGetStatus, sequence, status).value))
            == FromStatus(status)
  {
    Exchange.AnswerToHostRequest(VP.CmdGetStatus, sequence, status);
    var p := Exchange.FirmwareAnswer(VP.CmdGetStatus, sequence, status).value;
    var buf := Exchange.ReplyBuffer(p);
    DecodeCorrectedIsStatus(buf);
    assert buf[9..] == p.payload;
  }

  /** As written, the cached capacity is the low byte of the charger power. */
  lemma AsWrittenCapacityIsChargerPower(sequence: u32, status: VP.StatusPayload)
    ensures Exchange.FirmwareAnswer(VP.CmdGetStatus, sequence, status).Some?
    ensures DecodeAsWritten(Exchange.ReplyBuffer(Exchange.FirmwareAnswer(VP.CmdGetStatus, sequence, status).value))
            .capacity == status.chargerPowerMw % 0x100
  {
    Exchange.AnswerToHostRequest(VP.CmdGetStatus, sequence, status);
    var p := Exchange.FirmwareAnswer(VP.CmdGetStatus, sequence, status).value;
    var buf := Exchange.ReplyBuffer(p);
    VP.StatusLayout(status);
    assert buf[25] == p.payload[16] == VP.EncodeStatus(status)[16..18][0];
  }

  /** A half-charged battery with no charger power is reported as empty. */
  lemma AsWrittenCapacityCounterexample()
    ensures var status := VP.StatusPayload(3700, -300, 0, 0, 0, 0, 0, 0, 50, 60);
      var p := Exchange.FirmwareAnswer(VP.CmdGetStatus, 1, status);
      p.Some? && DecodeAsWritten(Exchange.ReplyBuffer(p.value)).capacity == 0
      && DecodeCorrected(Exchange.ReplyBuffer(p.value)).capacity == 50
  {
    var status := VP.StatusPayload(3700, -300, 0, 0, 0, 0, 0, 0, 50, 60);
    AsWrittenCapacityIsChargerPower(1, status);
    DriverReadsStatus(1, status);
  }

  /** No reply field is checked, so the firmware's error packet zeroes the cache, with or without the fix. */
  lemma ErrorPacketZeroesCache()
    ensures DecodeAsWritten(Exchange.ReplyBuffer(VP.ErrorPacket())) == Snapshot(0, 0, 0, 0, 0, 0, 0)
    ensures DecodeCorrected(Exchange.ReplyBuffer(VP.ErrorPacket())) == Snapshot(0, 0, 0, 0, 0, 0, 0)
  {
    var buf := Exchange.ReplyBuffer(VP.ErrorPacket());
    assert buf[9..] == Zeros(24);
    DecodeCorrectedIsStatus(buf);
    assert buf[25] == buf[9..][16] == 0;
  }

  // ---------------------------------------------------------------------
  // Property reads

  datatype Property = Status | VoltageNow | CurrentNow | Capacity | TimeToEmptyNow | TimeToFullNow
                    | OtherProperty(code: nat)

  /** Linux `POWER_SUPPLY_STATUS_*` values. */
  const StatusCharging: int := 1
  const StatusDischarging: int := 2
  const StatusNotCharging: int := 3
  const StatusFull: int := 4
  const EINVAL: int := 22

  /** Storing a `u32` in the `int` of `power_supply_propval`. */
  function ToInt32(x: u32): (r: int)
    ensures -0x8000_0000 <= r < 0x8000_0000 && (r - x) % 0x1_0000_0000 == 0
    ensures x < 0x8000_0000 ==> r == x
  {
    if x < 0x8000_0000 then x else x - 0x1_0000_0000
  }

  function ChargeStatus(s: Snapshot): (r: int)
    ensures r == StatusFull <==> s.capacity >= 100
    ensures r == StatusCharging <==> s.capacity < 100 && s.chargMa > 0
    ensures r == StatusDischarging <==> s.capacity < 100 && s.chargMa <= 0 && s.battMa < 0
    ensures r == StatusNotCharging <==> s.capacity < 100 && s.chargMa <= 0 && s.battMa >= 0
  {
    if s.capacity >= 100 then StatusFull
    else if s.chargMa > 0 then StatusCharging
    else if s.battMa < 0 then StatusDischarging
    else StatusNotCharging
  }

  /** `gripdeck_get_property`: the value of a property, or -EINVAL for one it does not list. */
  function GetProperty(s: Snapshot, p: Property): (r: Result<int, int>)
    ensures r.Err? <==> p.OtherProperty?
    ensures r.Err? ==> r.error == -EINVAL
    ensures p == VoltageNow ==> r == Ok(s.battMv * 1000)
    ensures p == CurrentNow ==> r == Ok(s.battMa * 1000)
    ensures p == Capacity ==> r == Ok(s.capacity as int)
    ensures p == Status ==> r.Ok? && r.value in {StatusFull, StatusCharging, StatusDischarging, StatusNotCharging}
  {
    match p
    case Status => Ok(ChargeStatus(s))
    case VoltageNow => Ok(s.battMv * 1000)
    case CurrentNow => Ok(s.battMa * 1000)
    case Capacity => Ok(s.capacity)
    case TimeToEmptyNow => Ok(ToInt32(s.toEmptyS))
    case TimeToFullNow => Ok(ToInt32(s.toFullS))
    case OtherProperty(_) => Err(-EINVAL)
  }

  /**
   * The driver never reports an empty battery time: the firmware's battery
   * record is built from the channel readings with a zero discharge estimate,
   * and the status payload carries that estimate in seconds.
   */
  lemma TimeToEmptyAlwaysZero(voltage: real, current: real, batteryMv: u16, batteryMa: i16,
                              chargerMv: u16, chargerMa: i16, chargerMw: u16, chargerConnected: bool,
                              percentage: byte, nowMs: u32, toFullyChargeMs: u32, sequence: u32)
    ensures var status := UsbManager.BuildStatusPayload(batteryMv, batteryMa, chargerMv, chargerMa, chargerMw,
              chargerConnected, percentage, nowMs,
              Telemetry.BatteryFromReadings(voltage, current).toFullyDischargeMs, toFullyChargeMs);
      var answer := Exchange.FirmwareAnswer(VP.CmdGetStatus, sequence, status);
      answer.Some? && GetProperty(DecodeAsWritten(Exchange.ReplyBuffer(answer.value)), TimeToEmptyNow) == Ok(0)
  {
    var battery := Telemetry.BatteryFromReadings(voltage, current);
    var status := UsbManager.BuildStatusPayload(batteryMv, batteryMa, chargerMv, chargerMa, chargerMw,
                    chargerConnected, percentage, nowMs, battery.toFullyDischargeMs, toFullyChargeMs);
    assert status.toFullyDischargeS == 0;
    DriverReadsStatus(sequence, status);
  }

  // ---------------------------------------------------------------------
  // The polling work

  class GripdeckBattery {
    /** The `atomic_t seq` counter, read as `unsigned int`. */
    var sequence: u32
    var cache: Snapshot

    /** `kzalloc` and `atomic_set(&st->seq, 0)`. */
    constructor()
      ensures sequence == 0 && cache == Snapshot(0, 0, 0, 0, 0, 0, 0)
    {
      sequence := 0;
      cache := Snapshot(0, 0, 0, 0, 0, 0, 0);
    }

    /**
     * `gripdeck_update_work`: bumps the sequence, sends a GET_STATUS request
     * carrying it and, when the allocation and both transfers succeed,
     * overwrites the cache from the reply, decoded as written (capacity at
     * buf + 25); in every case it asks to run again
     * in 2000 ms. The transfers are parameters: whether SET_REPORT succeeds,
     * and the 33-byte buffer GET_REPORT fills, if it succeeds.
     */
    method UpdateWork(allocOk: bool, setOk: bool, reply: Option<seq<byte>>)
      returns (request: Option<seq<byte>>, rescheduleMs: nat)
      requires reply.Some? ==> |reply.value| == FeatureReportSize
      modifies this
      ensures sequence == (old(sequence) + 1) % 0x1_0000_0000
      ensures request == if allocOk then Some(Host.CommandBuffer(VP.CmdGetStatus, sequence)) else None
      ensures allocOk && setOk && reply.Some? ==> cache == DecodeAsWritten(reply.value)
      ensures !(allocOk && setOk && reply.Some?) ==> cache == old(cache)
      ensures rescheduleMs == PollIntervalMs
    {
      sequence := (sequence + 1) % 0x1_0000_0000;
      request := None;
      if allocOk {
        var buf := Host.BuildCommandBuffer(VP.CmdGetStatus, sequence);
        request := Some(buf[..]);
        if setOk && reply.Some? {
          CopyInto(buf, 0, reply.value);
          assert buf[..] == buf[..FeatureReportSize];
          cache := DecodeAsWritten(buf[..]);
        }
      }
      rescheduleMs := PollIntervalMs;
    }
  }
}
