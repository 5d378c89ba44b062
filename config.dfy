// Build-time configuration of the firmware: protocol constants, timings,
// thresholds, and the battery discharge curve chosen by the chemistry macros.

module Config {
  import opened Wrappers

  const FirmwareVersion: nat := 0x0100

  // Pins
  const PinPowerButton: nat := 11
  const PinPowerInputDetect: nat := 12

  // INA3221 power monitor: channel assignment and register addresses
  const Ina3221ChannelCharger: nat := 1
  const Ina3221ChannelBattery: nat := 2
  const Ina3221ShuntRegisters: seq<nat> := [0x01, 0x03, 0x05]
  const Ina3221BusRegisters: seq<nat> := [0x02, 0x04, 0x06]

  // Power management
  const BatteryMinPercentage: nat := 5
  const BatteryCapacityMah: nat := 4500
  const BatterySavingMode: nat := 15
  const MinBatteryChargingVoltage: real := 4.0
  const ShuntResistanceOhm: real := 0.1

  // Power button (ms)
  const PowerButtonDebounce: nat := 50
  const ShortPressMin: nat := 50
  const ShortPressMax: nat := 2000
  const LongPressMin: nat := 3000

  // LEDs
  const LedBrightnessMax: nat := 255
  const LedBrightnessPowerSave: nat := 64
  const LedBrightnessOff: nat := 0
  const LedBlinkFast: nat := 200
  const LedBlinkSlow: nat := 1000
  const LedBlinkDuration: nat := 3000
  const LedPulseCycle: nat := 2000

  // USB
  const UsbVid: nat := 0x1209
  const UsbPid: nat := 0x2078
  const UsbSerialNumber: string := "GD001"
  const DisableUsbHid: bool := false
  const UsbHidKeyboardPressDelay: nat := 50
  const UsbHidMousePressDelay: nat := 50

  // Vendor HID feature report
  const VendorReportId: nat := 6
  const VendorReportSize: nat := 32
  const ProtocolVersion: nat := 0x01
  const ProtocolMagic: nat := 0x4744

  // BLE command syntax and replies
  const BleCmdPartSeparator: char := ':'
  const BleCmdDataSeparator: char := '|'
  const BleCmdWasSuccessful: string := "1"
  const BleCmdWasFailure: string := "0"

  const QueueSizeCommands: nat := 10

  // Deep sleep
  const DeepSleepWatchdogTimeoutMs: nat := 30000
  /** The GPIO mask of the pins that wake the chip: the power button and the input detect. */
  const WakeUpPinMask: bv64 := (1 << PinPowerButton) | (1 << PinPowerInputDetect)

  predicate BitSet(mask: bv64, bit: nat)
    requires bit < 64
  {
    (mask >> bit) & 1 == 1
  }

  /** The wake mask selects exactly the two wake-up pins, bits 11 and 12. */
  lemma WakeMaskBits(bit: nat)
    requires bit < 64
    ensures BitSet(WakeUpPinMask, bit) <==> bit == PinPowerButton || bit == PinPowerInputDetect
    ensures WakeUpPinMask == 0x1800
  {
  }

  /**
   * The thresholds nest: an SBC may still start in power-saving mode
   * (5 < 15), a short press is at least the debounce time, and between the
   * longest short press and the shortest long press lies a band where a
   * release does nothing.
   */
  lemma ThresholdsOrdered()
    ensures BatteryMinPercentage < BatterySavingMode
    ensures PowerButtonDebounce <= ShortPressMin <= ShortPressMax < LongPressMin
    ensures LongPressMin - ShortPressMax - 1 == 999
  {
  }

  /** The two supported battery chemistries. */
  datatype Chemistry = LiPo | LiIon

  /**
   * The `#if defined(…) / #elif defined(…) / #else #error` chain: the first
   * defined macro wins, and none defined stops the build (None).
   */
  function SelectedChemistry(lipoDefined: bool, liIonDefined: bool): (c: Option<Chemistry>)
    ensures c == None <==> !lipoDefined && !liIonDefined
    ensures lipoDefined ==> c == Some(LiPo)
  {
    if lipoDefined then Some(LiPo) else if liIonDefined then Some(LiIon) else None
  }

  /** The build defines both chemistry macros. */
  const BuiltChemistry: Chemistry := LiPo

  lemma BuiltChemistryIsSelected()
    ensures SelectedChemistry(true, true) == Some(BuiltChemistry)
  {
  }

  function MinVoltage(c: Chemistry): real
  {
    match c
    case LiPo => 3.0
    case LiIon => 2.5
  }

  function MaxVoltage(c: Chemistry): real { 4.2 }

  function InternalResistance(c: Chemistry): real
  {
    match c
    case LiPo => 0.04
    case LiIon => 0.08
  }

  /** Open-circuit voltage at each point of the discharge curve. */
  function VoltagePoints(c: Chemistry): (vs: seq<real>)
    ensures |vs| == 10
  {
    match c
    case LiPo => [3.0, 3.3, 3.5, 3.6, 3.7, 3.8, 3.9, 4.0, 4.1, 4.2]
    case LiIon => [2.5, 2.9, 3.2, 3.4, 3.6, 3.7, 3.8, 3.9, 4.0, 4.2]
  }

  /** State of charge at each point of the discharge curve. */
  const PercentagePoints: seq<real> := [0.0, 5.0, 15.0, 25.0, 40.0, 60.0, 75.0, 85.0, 95.0, 100.0]

  const NumPoints: nat := 10

  predicate StrictlyIncreasing(s: seq<real>)
  {
    forall i, j :: 0 <= i < j < |s| ==> s[i] < s[j]
  }

  /**
   * The curves are well formed: both tables have kNumPoints entries, the
   * voltages rise strictly from kMinVoltage to kMaxVoltage and the
   * percentages rise strictly from 0 to 100.
   */
  lemma CurveWellFormed(c: Chemistry)
    ensures |VoltagePoints(c)| == |PercentagePoints| == NumPoints
    ensures VoltagePoints(c)[0] == MinVoltage(c) && VoltagePoints(c)[NumPoints - 1] == MaxVoltage(c)
    ensures PercentagePoints[0] == 0.0 && PercentagePoints[NumPoints - 1] == 100.0
    ensures StrictlyIncreasing(VoltagePoints(c)) && StrictlyIncreasing(PercentagePoints)
  {
    var vs := VoltagePoints(c);
    forall i, j | 0 <= i < j < |vs| ensures vs[i] < vs[j] {
      StepIncreasing(vs, i, j);
    }
    forall i, j | 0 <= i < j < |PercentagePoints| ensures PercentagePoints[i] < PercentagePoints[j] {
      StepIncreasing(PercentagePoints, i, j);
    }
  }

  /** A sequence that rises at every step rises between any two positions. */
  lemma {:induction false} StepIncreasing(s: seq<real>, i: nat, j: nat)
    requires forall k :: 0 <= k < |s| - 1 ==> s[k] < s[k + 1]
    requires i < j < |s|
    ensures s[i] < s[j]
    decreases j - i
  {
    if i + 1 < j {
      StepIncreasing(s, i + 1, j);
    }
  }
}
