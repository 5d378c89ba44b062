// The power manager: it samples both INA3221 channels at a fixed interval,
// keeps the latest readings under a mutex, derives the power-saving flag
// and drives the LED PWM and the SBC power pin.

module PowerManager {
  import opened Bytes
  import opened Wrappers
  import Config
  import Text
  import opened Telemetry

  datatype PowerData = PowerData(battery: BatteryData, charger: ChargerData, timestamp: u32,
                                 powerSavingMode: bool)

  /** The aggregate initialiser of `powerData`: every reading 0. */
  const InitialPowerData: PowerData :=
    PowerData(BatteryData(0.0, 0.0, 0.0, 0.0, 0), ChargerData(0.0, 0.0, 0.0, false, 0), 0, false)

  /** Power saving: running on battery at 15 % or less. */
  predicate SavingMode(battery: BatteryData, charger: ChargerData)
  {
    !charger.connected && battery.percentage <= Config.BatterySavingMode as real
  }

  /** `ledcWrite`'s duty: a nonzero brightness is quartered in power-saving mode. */
  function LedDuty(brightness: byte, powerSaving: bool): (duty: byte)
    ensures brightness == 0 ==> duty == 0
    ensures duty <= brightness
    ensures powerSaving && brightness > 0 ==> duty * 4 <= brightness < duty * 4 + 4
    ensures !powerSaving ==> duty == brightness
  {
    if powerSaving && brightness > 0 then brightness / 4 else brightness
  }

  class PowerManager {
    /** `UPDATE_INTERVAL`, not part of the configuration shown. */
    const updateIntervalMs: nat

    var powerData: PowerData
    /** `powerStateMutex != nullptr`, `powerDataMutex != nullptr` */
    var stateMutexCreated: bool
    var dataMutexCreated: bool
    var ledsEnabled: bool
    /** The last duty written to the LED PWM channel. */
    var ledDuty: byte
    /** The level of the SBC power MOSFET pin. */
    var sbcPin: bool
    var lastUpdateTime: u32

    constructor(updateIntervalMs: nat, sbcPin: bool)
      ensures this.updateIntervalMs == updateIntervalMs && this.sbcPin == sbcPin
      ensures powerData == InitialPowerData && !stateMutexCreated && !dataMutexCreated
      ensures !ledsEnabled && ledDuty == 0 && lastUpdateTime == 0
    {
      this.updateIntervalMs := updateIntervalMs;
      this.sbcPin := sbcPin;
      powerData := InitialPowerData;
      stateMutexCreated := false;
      dataMutexCreated := false;
      ledsEnabled := false;
      ledDuty := 0;
      lastUpdateTime := 0;
    }

    /** `isPowerSavingMode`: the stored flag, false without a mutex or when the lock times out. */
    function IsPowerSavingMode(lockOk: bool): (r: bool)
      reads this
      ensures r <==> dataMutexCreated && lockOk && powerData.powerSavingMode
    {
      dataMutexCreated && lockOk && powerData.powerSavingMode
    }

    /** `canPowerOnSBC`: at least 5 %, false without a mutex or when the lock times out. */
    function CanPowerOnSBC(lockOk: bool): (r: bool)
      reads this
      ensures r ==> powerData.battery.percentage >= Config.BatteryMinPercentage as real
      ensures !dataMutexCreated || !lockOk ==> !r
    {
      dataMutexCreated && lockOk && powerData.battery.percentage >= Config.BatteryMinPercentage as real
    }

    /** `getPowerData`: a copy of the readings, or None (an uninitialised copy) when the lock fails. */
    function GetPowerData(lockOk: bool): (r: Option<PowerData>)
      reads this
      ensures r.Some? <==> dataMutexCreated && lockOk
      ensures r.Some? ==> r.value == powerData
    {
      if dataMutexCreated && lockOk then Some(powerData) else None
    }

    /** `areLEDsEnabled` */
    function AreLEDsEnabled(): bool
      reads this
    {
      ledsEnabled
    }

    /** `isSBCPowerOn`: the level of the SBC power pin. */
    function IsSBCPowerOn(): bool
      reads this
    {
      sbcPin
    }

    /** `forceSetSBCPower`: drives the SBC power pin. */
    method ForceSetSBCPower(on: bool)
      modifies this`sbcPin
      ensures IsSBCPowerOn() == on
    {
      sbcPin := on;
    }

    /**
     * `setPowerData`: under the lock, stores both readings, the time and the
     * power-saving flag; without the lock nothing changes.
     */
    method SetPowerData(battery: BatteryData, charger: ChargerData, nowMs: u32, lockOk: bool)
      modifies this`powerData
      ensures dataMutexCreated && lockOk ==>
        powerData == PowerData(battery, charger, nowMs, SavingMode(battery, charger))
      ensures !(dataMutexCreated && lockOk) ==> powerData == old(powerData)
    {
      if dataMutexCreated && lockOk {
        powerData := PowerData(battery, charger, nowMs, SavingMode(battery, charger));
      }
    }

    /**
     * `setLEDPower`: the LEDs count as enabled exactly when the brightness is
     * nonzero, and the PWM gets the brightness, quartered in power-saving mode.
     */
    method SetLEDPower(brightness: byte, lockOk: bool)
      modifies this`ledsEnabled, this`ledDuty
      ensures AreLEDsEnabled() <==> brightness > 0
      ensures ledDuty == LedDuty(brightness, IsPowerSavingMode(lockOk))
    {
      if !ledsEnabled && brightness > 0 {
        ledsEnabled := true;
      } else if ledsEnabled && brightness == 0 {
        ledsEnabled := false;
      }
      ledDuty := LedDuty(brightness, IsPowerSavingMode(lockOk));
    }

    /** `enableLEDs`: sets the flag; disabling also writes a zero duty. */
    method EnableLEDs(enable: bool, lockOk: bool)
      modifies this`ledsEnabled, this`ledDuty
      ensures ledsEnabled == enable
      ensures !enable ==> ledDuty == 0
      ensures enable ==> ledDuty == old(ledDuty)
    {
      ledsEnabled := enable;
      if !enable {
        SetLEDPower(0, lockOk);
      }
    }

    /**
     * `begin`: creates both mutexes and checks the monitor, stopping at the
     * first failure; on success the LEDs are switched off.
     */
    method Begin(stateMutexOk: bool, dataMutexOk: bool, monitorOk: bool, lockOk: bool) returns (ok: bool)
      modifies this`stateMutexCreated, this`dataMutexCreated, this`ledsEnabled, this`ledDuty
      ensures ok <==> stateMutexOk && dataMutexOk && monitorOk
      ensures stateMutexCreated == stateMutexOk
      ensures dataMutexCreated == if stateMutexOk then dataMutexOk else old(dataMutexCreated)
      ensures ok ==> !ledsEnabled && ledDuty == 0
      ensures !ok ==> ledsEnabled == old(ledsEnabled) && ledDuty == old(ledDuty)
    {
      stateMutexCreated := stateMutexOk;
      if !stateMutexOk {
        return false;
      }
      dataMutexCreated := dataMutexOk;
      if !dataMutexOk {
        return false;
      }
      if !monitorOk {
        return false;
      }
      SetLEDPower(0, lockOk);
      return true;
    }

    /**
     * `update`: unless less than the update interval has passed since the
     * last sample (on the wrapping millisecond clock), reads both channels,
     * stores them with the power-saving flag they imply and records the time.
     */
    method Update(nowMs: u32, batteryBus: Option<(byte, byte)>, batteryShunt: Option<(byte, byte)>,
                  chargerBus: Option<(byte, byte)>, chargerShunt: Option<(byte, byte)>, lockOk: bool)
      modifies this`powerData, this`lastUpdateTime
      ensures Elapsed(nowMs, old(lastUpdateTime)) < updateIntervalMs ==>
        powerData == old(powerData) && lastUpdateTime == old(lastUpdateTime)
      ensures Elapsed(nowMs, old(lastUpdateTime)) >= updateIntervalMs ==>
        lastUpdateTime == nowMs
        && (dataMutexCreated && lockOk ==>
              powerData.battery == ReadBatteryChannel(batteryBus, batteryShunt)
              && powerData.charger == ReadChargerChannel(chargerBus, chargerShunt)
              && powerData.timestamp == nowMs
              && powerData.powerSavingMode == SavingMode(powerData.battery, powerData.charger))
        && (!(dataMutexCreated && lockOk) ==> powerData == old(powerData))
    {
      if Elapsed(nowMs, lastUpdateTime) < updateIntervalMs {
        return;
      }
      var battery := ReadBatteryChannel(batteryBus, batteryShunt);
      var charger := ReadChargerChannel(chargerBus, chargerShunt);
      SetPowerData(battery, charger, nowMs, lockOk);
      lastUpdateTime := nowMs;
    }

    /** `getPowerInfo` for the copy it could take, None when the copy is uninitialised. */
    function GetPowerInfo(lockOk: bool): (r: Option<string>)
      reads this
      ensures r.Some? <==> dataMutexCreated && lockOk
      ensures r.Some? ==> r.value == PowerInfo(powerData)
    {
      match GetPowerData(lockOk)
      case None => None
      case Some(d) => Some(PowerInfo(d))
    }
  }

  // ---------------------------------------------------------------------
  // Text renderings

  /** The seven numbers of `POWER_INFO`, each as `%.3f` or `%.1f`. */
  function PowerInfoFields(d: PowerData): (fs: seq<string>)
    ensures |fs| == 7
    ensures forall i :: 0 <= i < 7 ==> Text.IsNumeral(fs[i]) && |fs[i]| > 0
  {
    Numerals([(d.battery.voltage, 3), (d.battery.current, 3), (d.battery.toFullyDischargeMs as real / 1000.0, 3),
              (d.charger.voltage, 3), (d.charger.current, 3), (d.charger.toFullyChargeMs as real / 1000.0, 3),
              (d.battery.percentage, 1)])
  }

  /** Each value printed with its number of decimals (`%.<d>f`). */
  function Numerals(vs: seq<(real, nat)>): (fs: seq<string>)
    ensures |fs| == |vs|
    ensures forall i :: 0 <= i < |fs| ==> fs[i] == Text.FormatFixed(vs[i].0, vs[i].1)
    ensures forall i :: 0 <= i < |fs| ==> Text.IsNumeral(fs[i]) && |fs[i]| > 0
  {
    seq(|vs|, i requires 0 <= i < |vs| => Text.FormatFixed(vs[i].0, vs[i].1))
  }

  const PowerInfoPrefix: string := "POWER_INFO:"

  /** `getPowerInfo`'s `snprintf` into 256 bytes. */
  function PowerInfo(d: PowerData): (r: string)
    ensures |r| <= 255
  {
    Text.BoundedCopy(PowerInfoPrefix + Text.Join(PowerInfoFields(d), '|'), 256)
  }

  /** A numeral holds no character other than digits, '.' and '-'. */
  lemma NumeralExcludes(s: string, c: char)
    requires Text.IsNumeral(s) && !Text.IsDigit(c) && c != '.' && c != '-'
    ensures c !in s
  {
  }

  /** Joined numerals hold no character other than digits, '.', '-' and the separator. */
  lemma {:induction false} JoinExcludes(fs: seq<string>, sep: char, c: char)
    requires forall i :: 0 <= i < |fs| ==> Text.IsNumeral(fs[i])
    requires !Text.IsDigit(c) && c != '.' && c != '-' && c != sep
    ensures c !in Text.Join(fs, sep)
    decreases |fs|
  {
    if |fs| == 1 {
      NumeralExcludes(fs[0], c);
    } else if |fs| > 1 {
      NumeralExcludes(fs[0], c);
      JoinExcludes(fs[1..], sep, c);
    }
  }

  /**
   * When it fits the buffer, the info text is "POWER_INFO:" followed by the
   * seven numbers, which `|` splits apart again.
   */
  lemma PowerInfoShape(d: PowerData)
    requires |PowerInfoPrefix + Text.Join(PowerInfoFields(d), '|')| <= 255
    ensures PowerInfo(d)[..|PowerInfoPrefix|] == PowerInfoPrefix
    ensures Text.Tokens(PowerInfo(d)[|PowerInfoPrefix|..], '|') == PowerInfoFields(d)
  {
    var fs := PowerInfoFields(d);
    var s := PowerInfoPrefix + Text.Join(fs, '|');
    JoinExcludes(fs, '|', '\0');
    assert '\0' !in PowerInfoPrefix;
    assert '\0' !in s;
    assert PowerInfo(d) == s;
    forall i | 0 <= i < |fs| ensures Text.IsToken(fs[i], '|') {
      NumeralExcludes(fs[i], '|');
    }
    Text.TokensJoin(fs, '|');
    assert s[|PowerInfoPrefix|..] == Text.Join(fs, '|');
  }

  /** `BatteryData::toString`; the ETA part after the `return` is never reached. */
  function BatteryToString(b: BatteryData): string
  {
    "Battery: " + Text.FormatFixed(b.voltage, 3) + "V, " + Text.FormatFixed(b.current, 3) + "A, "
    + Text.FormatFixed(b.power, 3) + "W, " + Text.FormatFixed(b.percentage, 1) + "%"
  }

  /** The battery text never mentions an ETA: it holds no 'E' at all. */
  lemma BatteryStringHasNoEta(b: BatteryData)
    ensures 'E' !in BatteryToString(b)
  {
    NumeralExcludes(Text.FormatFixed(b.voltage, 3), 'E');
    NumeralExcludes(Text.FormatFixed(b.current, 3), 'E');
    NumeralExcludes(Text.FormatFixed(b.power, 3), 'E');
    NumeralExcludes(Text.FormatFixed(b.percentage, 1), 'E');
    assert 'E' !in "Battery: " && 'E' !in "V, " && 'E' !in "A, " && 'E' !in "W, " && 'E' !in "%";
  }

  /** Minutes and seconds of a time in ms, None for 0 (shown as "N/A"). */
  function EtaSplit(ms: u32): (r: Option<(nat, nat)>)
    ensures r.None? <==> ms == 0
    ensures r.Some? ==> r.value.1 < 60 && r.value.0 * 60 + r.value.1 == ms / 1000
  {
    if ms > 0 then
      var totalSeconds := ms / 1000;
      Some((totalSeconds / 60, totalSeconds % 60))
    else None
  }

  function EtaString(ms: u32): string
  {
    match EtaSplit(ms)
    case None => "N/A"
    case Some((minutes, seconds)) => Text.NatToString(minutes) + "m " + Text.NatToString(seconds) + "s"
  }

  /** `ChargerData::toString`. */
  function ChargerToString(c: ChargerData): string
  {
    "Charger: " + Text.FormatFixed(c.voltage, 3) + "V, " + Text.FormatFixed(c.current, 3) + "A, "
    + Text.FormatFixed(c.power, 3) + "W, " + (if c.connected then "Connected" else "Disconnected")
    + ", ETA: " + EtaString(c.toFullyChargeMs)
  }

  /** `PowerData::toString`, the debug dump `update` writes. */
  function PowerDataToString(d: PowerData): string
  {
    "PowerData [" + Text.NatToString(d.timestamp) + "ms]:\n"
    + "  " + BatteryToString(d.battery) + "\n"
    + "  " + ChargerToString(d.charger) + "\n"
    + "  Power Saving: " + (if d.powerSavingMode then "ON" else "OFF")
  }
}
