// Power telemetry: decoding of the INA3221 registers, the state of charge
// read off the discharge curve (with the voltage-sag correction under load)
// and the time-to-full estimate. Arithmetic the firmware does in `float`
// is done here over `real`.

module Telemetry {
  import opened Bytes
  import opened Wrappers
  import Config

  // ---------------------------------------------------------------------
  // Register decoding

  /**
   * `readRegister`: the two bytes the device answers, most significant
   * first, or 0 when the write is not acknowledged or fewer than two bytes
   * arrive (None).
   */
  function ReadRegister(reply: Option<(byte, byte)>): (r: u16)
    ensures reply.None? ==> r == 0
    ensures reply.Some? ==> r / 0x100 == reply.value.0 && r % 0x100 == reply.value.1
  {
    if reply.None? then 0 else reply.value.0 * 0x100 + reply.value.1
  }

  /** The register a channel's bus or shunt value is read from; None outside 1..3. */
  function ChannelRegister(channel: nat, bus: bool): (r: Option<nat>)
    ensures r.Some? <==> 1 <= channel <= 3
    ensures r.Some? ==> r.value == 2 * channel - (if bus then 0 else 1)
  {
    if 1 <= channel <= 3 then
      Some(if bus then Config.Ina3221BusRegisters[channel - 1] else Config.Ina3221ShuntRegisters[channel - 1])
    else None
  }

  /**
   * `readBusVoltage` in mV: the register shifted right by 3, in steps of
   * 8 mV; 0 for an invalid channel or a failed read.
   */
  function BusMillivolts(channel: nat, reply: Option<(byte, byte)>): (mv: nat)
    ensures mv % 8 == 0
    ensures ChannelRegister(channel, true).Some? ==>
      mv <= ReadRegister(reply) < mv + 8
    ensures ChannelRegister(channel, true).None? || reply.None? ==> mv == 0
  {
    if ChannelRegister(channel, true).None? || reply.None? then 0
    else (ReadRegister(reply) / 8) * 8
  }

  /**
   * `readShuntVoltage` in µV: the register read as `int16_t`, shifted right
   * arithmetically by 3, in steps of 40 µV.
   */
  function ShuntMicrovolts(channel: nat, reply: Option<(byte, byte)>): (uv: int)
    ensures uv % 40 == 0
    ensures ChannelRegister(channel, false).Some? ==>
      uv <= 5 * ToSigned16(ReadRegister(reply)) < uv + 40
    ensures ChannelRegister(channel, false).None? || reply.None? ==> uv == 0
  {
    if ChannelRegister(channel, false).None? || reply.None? then 0
    else (ToSigned16(ReadRegister(reply)) / 8) * 40
  }

  function BusVoltage(channel: nat, reply: Option<(byte, byte)>): real
  {
    BusMillivolts(channel, reply) as real / 1000.0
  }

  /** `readCurrent`: shunt voltage over the 0.1 Ω shunt, in A. */
  function Current(channel: nat, reply: Option<(byte, byte)>): (a: real)
    ensures a * 100000.0 == ShuntMicrovolts(channel, reply) as real
  {
    (ShuntMicrovolts(channel, reply) as real / 1000000.0) / Config.ShuntResistanceOhm
  }

  // ---------------------------------------------------------------------
  // State of charge

  /** The table `calculateBatteryPercentage` keeps locally. */
  const LocalVoltagePoints: seq<real> := [3.0, 3.3, 3.5, 3.6, 3.7, 3.8, 3.9, 4.0, 4.1, 4.2]
  const LocalPercentagePoints: seq<real> := [0.0, 5.0, 15.0, 25.0, 40.0, 60.0, 75.0, 85.0, 95.0, 100.0]
  const LipoMinVoltage: real := 3.0
  const LipoMaxVoltage: real := 4.2

  /** The local table is the configured curve of the chemistry the firmware is built for. */
  lemma LocalTableIsConfigured()
    ensures LocalVoltagePoints == Config.VoltagePoints(Config.BuiltChemistry)
    ensures LocalPercentagePoints == Config.PercentagePoints
    ensures Config.StrictlyIncreasing(LocalVoltagePoints) && Config.StrictlyIncreasing(LocalPercentagePoints)
  {
    Config.CurveWellFormed(Config.BuiltChemistry);
  }

  /** Both columns of the local table rise strictly. */
  lemma LocalTableRises()
    ensures Config.StrictlyIncreasing(LocalVoltagePoints) && Config.StrictlyIncreasing(LocalPercentagePoints)
  {
    LocalTableIsConfigured();
  }

  predicate InSegment(v: real, k: nat)
    requires k < 9
  {
    LocalVoltagePoints[k] <= v <= LocalVoltagePoints[k + 1]
  }

  /** The table scan: the first segment from `i` on whose end points enclose `v`. */
  function Segment(v: real, i: nat): (r: Option<nat>)
    requires i <= 9
    ensures r.Some? ==> i <= r.value < 9 && InSegment(v, r.value)
    ensures r.Some? ==> forall j :: i <= j < r.value ==> !InSegment(v, j)
    ensures r.None? ==> forall j :: i <= j < 9 ==> !InSegment(v, j)
    decreases 9 - i
  {
    if i == 9 then None
    else if InSegment(v, i) then Some(i)
    else Segment(v, i + 1)
  }

  /** Linear interpolation on segment k. */
  function Interpolate(v: real, k: nat): real
    requires k < 9
  {
    var vs, ps := LocalVoltagePoints, LocalPercentagePoints;
    ps[k] + (v - vs[k]) / (vs[k + 1] - vs[k]) * (ps[k + 1] - ps[k])
  }

  /** The interpolated percentage of a voltage on the curve, or None off the curve. */
  function CurvePercentage(v: real): Option<real>
  {
    match Segment(v, 0)
    case None => None
    case Some(k) => Some(Interpolate(v, k))
  }

  function Clamp(x: real): (r: real)
    ensures 0.0 <= r <= 100.0
    ensures 0.0 <= x <= 100.0 ==> r == x
  {
    if x < 0.0 then 0.0 else if x > 100.0 then 100.0 else x
  }

  function Abs(x: real): (r: real)
    ensures r >= 0.0 && (r == x || r == -x)
  {
    if x < 0.0 then -x else x
  }

  /** The voltage the cell would show without the sag of a discharge current. */
  function CompensatedVoltage(current: real, voltage: real): real
  {
    voltage + Abs(current) * 0.1
  }

  /**
   * `calculateBatteryPercentage`: 0 below 3.0 V, 100 from 4.2 V; otherwise
   * the curve value, replaced by the curve value at the compensated voltage
   * when more than 0.5 A is drawn and that voltage is still on the curve;
   * clamped to [0, 100].
   */
  function BatteryPercentage(current: real, voltage: real): (r: real)
    ensures 0.0 <= r <= 100.0
    ensures voltage < LipoMinVoltage ==> r == 0.0
    ensures voltage >= LipoMaxVoltage ==> r == 100.0
  {
    if voltage < LipoMinVoltage then 0.0
    else if voltage >= LipoMaxVoltage then 100.0
    else
      var base := match CurvePercentage(voltage) case None => 0.0 case Some(p) => p;
      var compensation :=
        if current < -0.5 then
          match CurvePercentage(CompensatedVoltage(current, voltage))
          case None => 0.0
          case Some(p) => p - base
        else 0.0;
      Clamp(base + compensation)
  }

  // Properties of the curve

  /** Every voltage between the first and last table point lies on some segment. */
  lemma OnCurve(v: real)
    requires LipoMinVoltage <= v <= LipoMaxVoltage
    ensures Segment(v, 0).Some?
  {
    var vs := LocalVoltagePoints;
    var k := 0;
    while k < 8 && !InSegment(v, k)
      invariant 0 <= k <= 8 && vs[k] <= v
    {
      k := k + 1;
    }
    assert InSegment(v, k);
  }

  /** On segment k the interpolated value lies between the segment's percentages. */
  lemma InterpolateBounds(v: real, k: nat)
    requires k < 9 && InSegment(v, k)
    ensures LocalPercentagePoints[k] <= Interpolate(v, k) <= LocalPercentagePoints[k + 1]
  {
    var vs, ps := LocalVoltagePoints, LocalPercentagePoints;
    LocalTableRises();
    var t := (v - vs[k]) / (vs[k + 1] - vs[k]);
    assert 0.0 <= t <= 1.0;
    assert ps[k] <= ps[k + 1];
    MulBounds(t, ps[k + 1] - ps[k]);
  }

  lemma MulBounds(t: real, d: real)
    requires 0.0 <= t <= 1.0 && d >= 0.0
    ensures 0.0 <= t * d <= d
  {
  }

  /** Interpolation on one segment rises with the voltage. */
  lemma InterpolateMonotone(v1: real, v2: real, k: nat)
    requires k < 9 && v1 <= v2
    ensures Interpolate(v1, k) <= Interpolate(v2, k)
  {
    var vs, ps := LocalVoltagePoints, LocalPercentagePoints;
    LocalTableRises();
    var d := vs[k + 1] - vs[k];
    assert d > 0.0 && ps[k + 1] - ps[k] >= 0.0;
    DivMonotone(v1 - vs[k], v2 - vs[k], d);
    MulMonotone((v1 - vs[k]) / d, (v2 - vs[k]) / d, ps[k + 1] - ps[k]);
  }

  lemma DivMonotone(a: real, b: real, d: real)
    requires a <= b && d > 0.0
    ensures a / d <= b / d
  {
  }

  lemma MulMonotone(a: real, b: real, c: real)
    requires a <= b && c >= 0.0
    ensures a * c <= b * c
  {
  }

  /** A higher voltage never falls on an earlier segment. */
  lemma SegmentMonotone(v1: real, v2: real)
    requires v1 <= v2 && Segment(v1, 0).Some? && Segment(v2, 0).Some?
    ensures Segment(v1, 0).value <= Segment(v2, 0).value
  {
    var k1, k2 := Segment(v1, 0).value, Segment(v2, 0).value;
    LocalTableRises();
  }

  /** The curve value rises with the voltage. */
  lemma CurveMonotone(v1: real, v2: real)
    requires v1 <= v2 && CurvePercentage(v1).Some? && CurvePercentage(v2).Some?
    ensures 0.0 <= CurvePercentage(v1).value <= CurvePercentage(v2).value <= 100.0
  {
    var ps := LocalPercentagePoints;
    var k1, k2 := Segment(v1, 0).value, Segment(v2, 0).value;
    assert CurvePercentage(v1).value == Interpolate(v1, k1);
    assert CurvePercentage(v2).value == Interpolate(v2, k2);
    SegmentMonotone(v1, v2);
    InterpolateBounds(v1, k1);
    InterpolateBounds(v2, k2);
    LocalTableRises();
    assert 0.0 == ps[0] <= ps[k1];
    assert ps[k2 + 1] <= ps[9] == 100.0;
    if k1 == k2 {
      InterpolateMonotone(v1, v2, k1);
    } else {
      assert ps[k1 + 1] <= ps[k2];
    }
  }

  /** Without sag compensation the percentage never falls as the voltage rises. */
  lemma PercentageMonotone(c1: real, c2: real, v1: real, v2: real)
    requires c1 >= -0.5 && c2 >= -0.5 && v1 <= v2
    ensures BatteryPercentage(c1, v1) <= BatteryPercentage(c2, v2)
  {
    if LipoMinVoltage <= v1 && v2 < LipoMaxVoltage {
      OnCurve(v1);
      OnCurve(v2);
      CurveMonotone(v1, v2);
    } else if LipoMinVoltage <= v1 < LipoMaxVoltage {
      OnCurve(v1);
      InterpolateBounds(v1, Segment(v1, 0).value);
    }
  }

  /** Under load the compensation only ever raises the percentage. */
  lemma CompensationRaises(current: real, voltage: real)
    ensures BatteryPercentage(current, voltage) >= BatteryPercentage(0.0, voltage)
  {
    if LipoMinVoltage <= voltage < LipoMaxVoltage {
      OnCurve(voltage);
      InterpolateBounds(voltage, Segment(voltage, 0).value);
      var cv := CompensatedVoltage(current, voltage);
      if current < -0.5 && CurvePercentage(cv).Some? {
        CurveMonotone(voltage, cv);
      }
    }
  }

  /** At a table voltage, without compensation, the percentage is the table's. */
  lemma PercentageAtTablePoint(current: real, k: nat)
    requires current >= -0.5 && k < 10
    ensures BatteryPercentage(current, LocalVoltagePoints[k]) == LocalPercentagePoints[k]
  {
    LocalTableRises();
    if 0 < k < 9 {
      InnerTablePoint(k);
    } else if k == 0 {
      assert Segment(LocalVoltagePoints[0], 0) == Some(0);
    }
  }

  /** An inner table voltage closes the segment before it, at that segment's top percentage. */
  lemma InnerTablePoint(k: nat)
    requires 0 < k < 9
    ensures CurvePercentage(LocalVoltagePoints[k]) == Some(LocalPercentagePoints[k])
  {
    InnerPointSegment(k);
    SegmentEnd(k - 1);
  }

  /** The scan stops at the segment that ends at an inner table voltage. */
  lemma InnerPointSegment(k: nat)
    requires 0 < k < 9
    ensures Segment(LocalVoltagePoints[k], 0) == Some(k - 1)
  {
    var vs := LocalVoltagePoints;
    LocalTableRises();
    var v := vs[k];
    assert InSegment(v, k - 1);
    forall j | 0 <= j < k - 1 ensures !InSegment(v, j) {
      assert vs[j + 1] < vs[k];
    }
  }

  /** Interpolation at a segment's upper end gives the segment's upper percentage. */
  lemma SegmentEnd(k: nat)
    requires k < 9
    ensures Interpolate(LocalVoltagePoints[k + 1], k) == LocalPercentagePoints[k + 1]
  {
    var vs, ps := LocalVoltagePoints, LocalPercentagePoints;
    LerpAtEnd(vs[k], vs[k + 1], ps[k], ps[k + 1]);
  }

  lemma LerpAtEnd(v0: real, v1: real, p0: real, p1: real)
    requires v0 < v1
    ensures p0 + (v1 - v0) / (v1 - v0) * (p1 - p0) == p1
  {
    SelfRatio(v1 - v0);
  }

  lemma SelfRatio(d: real)
    requires d > 0.0
    ensures d / d == 1.0
  {
  }

  /** 3.7 V at rest is 40 %. */
  lemma NominalVoltageIsForty()
    ensures BatteryPercentage(0.0, 3.7) == 40.0
  {
    PercentageAtTablePoint(0.0, 4);
  }

  // ---------------------------------------------------------------------
  // Time to full charge

  /**
   * `calculateEstimatedTimeToFullyCharge`: 0 unless current flows in at a
   * charging voltage; otherwise the remaining percentage over the charge
   * rate (percent per hour for the 4500 mAh cell), in ms.
   */
  function TimeToFullyChargeMs(current: real, voltage: real, percentage: real): (ms: real)
    ensures current <= 0.0 || voltage < Config.MinBatteryChargingVoltage ==> ms == 0.0
    ensures current > 0.0 && voltage >= Config.MinBatteryChargingVoltage ==>
      ms * current == (100.0 - percentage) * 4500.0 * 1000.0
  {
    if current <= 0.0 || voltage < Config.MinBatteryChargingVoltage then 0.0
    else
      var chargeRate := current * 3600.0 / Config.BatteryCapacityMah as real;
      (100.0 - percentage) / chargeRate * 3600000.0
  }

  /** The estimate is never negative for a percentage of at most 100, and 0 at 100. */
  lemma TimeToFullyChargeBounds(current: real, voltage: real, percentage: real)
    requires percentage <= 100.0
    ensures TimeToFullyChargeMs(current, voltage, percentage) >= 0.0
    ensures percentage == 100.0 ==> TimeToFullyChargeMs(current, voltage, percentage) == 0.0
  {
    var ms := TimeToFullyChargeMs(current, voltage, percentage);
    if current > 0.0 && voltage >= Config.MinBatteryChargingVoltage {
      assert ms * current >= 0.0;
      SignOfQuotient(ms, current);
    }
  }

  lemma SignOfQuotient(x: real, c: real)
    requires c > 0.0 && x * c >= 0.0
    ensures x >= 0.0
  {
  }

  /** The conversion of a `float` to `uint32_t`: truncation, 0 where C leaves it undefined. */
  function ToU32(x: real): (r: u32)
    ensures 0.0 <= x < 4294967296.0 ==> r as real <= x < r as real + 1.0
  {
    if 0.0 <= x < 4294967296.0 then x.Floor else 0
  }

  // ---------------------------------------------------------------------
  // Channel readings

  datatype BatteryData = BatteryData(voltage: real, current: real, power: real, percentage: real,
                                     toFullyDischargeMs: u32)

  datatype ChargerData = ChargerData(voltage: real, current: real, power: real, connected: bool,
                                     toFullyChargeMs: u32)

  /** The battery record built from one channel's readings; the discharge estimate stays 0. */
  function BatteryFromReadings(voltage: real, current: real): (b: BatteryData)
    ensures b.voltage == voltage && b.current == current && b.power == voltage * current
    ensures b.percentage == BatteryPercentage(current, voltage) && 0.0 <= b.percentage <= 100.0
    ensures b.toFullyDischargeMs == 0
  {
    BatteryData(voltage, current, voltage * current, BatteryPercentage(current, voltage), 0)
  }

  /**
   * The charger record built from one channel's readings: connected from
   * 4.0 V, and the time to full computed from the charger's own voltage and
   * current, so it is 0 from 4.2 V on.
   */
  function ChargerFromReadings(voltage: real, current: real): (c: ChargerData)
    ensures c.voltage == voltage && c.current == current && c.power == voltage * current
    ensures c.connected <==> voltage >= Config.MinBatteryChargingVoltage
    ensures voltage >= LipoMaxVoltage ==> c.connected && c.toFullyChargeMs == 0
    ensures current <= 0.0 || voltage < Config.MinBatteryChargingVoltage ==> c.toFullyChargeMs == 0
  {
    TimeToFullyChargeBounds(current, voltage, BatteryPercentage(current, voltage));
    ChargerData(voltage, current, voltage * current, voltage >= Config.MinBatteryChargingVoltage,
                ToU32(TimeToFullyChargeMs(current, voltage, BatteryPercentage(current, voltage))))
  }

  /** `readBatteryChannel`: bus voltage and current of the battery channel. */
  function ReadBatteryChannel(bus: Option<(byte, byte)>, shunt: Option<(byte, byte)>): BatteryData
  {
    BatteryFromReadings(BusVoltage(Config.Ina3221ChannelBattery, bus), Current(Config.Ina3221ChannelBattery, shunt))
  }

  /** `readChargerChannel`: bus voltage and current of the charger channel. */
  function ReadChargerChannel(bus: Option<(byte, byte)>, shunt: Option<(byte, byte)>): ChargerData
  {
    ChargerFromReadings(BusVoltage(Config.Ina3221ChannelCharger, bus), Current(Config.Ina3221ChannelCharger, shunt))
  }
}
