// The system manager: debounces the power button and turns a release into
// an SBC power action by how long the button was held, and renders the
// SYSTEM_INFO line with the Bluetooth MAC grouped in pairs.

module SystemManager {
  import Seqs
  import opened Bytes
  import opened Wrappers
  import Config
  import Text
  import PM = PowerManager

  /** How a press is classified by its duration. */
  datatype PressKind = ShortPress | LongPress | NoPress

  function Classify(duration: nat): (k: PressKind)
  {
    if Config.ShortPressMin <= duration <= Config.ShortPressMax then ShortPress
    else if duration >= Config.LongPressMin then LongPress
    else NoPress
  }

  /**
   * Short presses last 50 to 2000 ms, long ones at least 3000 ms, and
   * anything shorter than 50 ms or between 2001 and 2999 ms does nothing.
   */
  lemma ClassifyBands(duration: nat)
    ensures Classify(duration) == ShortPress <==> 50 <= duration <= 2000
    ensures Classify(duration) == LongPress <==> duration >= 3000
    ensures Classify(duration) == NoPress <==> duration < 50 || 2000 < duration < 3000
  {
  }

  /** What a button edge asks of the power manager. */
  datatype ButtonAction = NoAction | TrySetSbcPower(on: bool) | ForceSbcOff

  class SystemManager {
    var lastButtonTime: u32
    var lastButtonState: bool
    var buttonPressed: bool
    var buttonPressStartTime: u32

    /** The fields have no initialiser: until `begin` they hold whatever they are given. */
    constructor(lastButtonTime: u32, lastButtonState: bool, buttonPressed: bool, buttonPressStartTime: u32)
      ensures this.lastButtonTime == lastButtonTime && this.lastButtonState == lastButtonState
      ensures this.buttonPressed == buttonPressed && this.buttonPressStartTime == buttonPressStartTime
    {
      this.lastButtonTime := lastButtonTime;
      this.lastButtonState := lastButtonState;
      this.buttonPressed := buttonPressed;
      this.buttonPressStartTime := buttonPressStartTime;
    }

    /** `begin`: a released button, no press in progress, both times 0. */
    method Begin() returns (ok: bool)
      modifies this
      ensures ok
      ensures lastButtonTime == 0 && !lastButtonState && !buttonPressed && buttonPressStartTime == 0
    {
      lastButtonTime := 0;
      lastButtonState := false;
      buttonPressed := false;
      buttonPressStartTime := 0;
      return true;
    }

    /** An edge counts when the level changed more than 50 ms after the last accepted one. */
    predicate AcceptsEdge(pressed: bool, now: u32)
      reads this
    {
      pressed != lastButtonState && Elapsed(now, lastButtonTime) > Config.PowerButtonDebounce
    }

    /**
     * `checkPowerButton`, with `pressed` the active-low pin read as a
     * press: an accepted press edge starts timing; an accepted release of a
     * timed press toggles the SBC on a short press and forces it off on a
     * long one. A rejected edge, or a release with no timed press, changes
     * nothing but what `checkPowerButton` itself records.
     */
    method CheckPowerButton(pressed: bool, now: u32, power: PM.PowerManager) returns (action: ButtonAction)
      modifies this, power`sbcPin
      ensures !old(AcceptsEdge(pressed, now)) ==>
        action == NoAction && lastButtonState == old(lastButtonState) && lastButtonTime == old(lastButtonTime)
        && buttonPressed == old(buttonPressed) && buttonPressStartTime == old(buttonPressStartTime)
        && power.sbcPin == old(power.sbcPin)
      ensures old(AcceptsEdge(pressed, now)) ==> lastButtonState == pressed && lastButtonTime == now
      ensures old(AcceptsEdge(pressed, now)) && pressed ==>
        buttonPressed && buttonPressStartTime == now && action == NoAction && power.sbcPin == old(power.sbcPin)
      ensures old(AcceptsEdge(pressed, now)) && !pressed && !old(buttonPressed) ==>
        action == NoAction && !buttonPressed && buttonPressStartTime == old(buttonPressStartTime)
        && power.sbcPin == old(power.sbcPin)
      ensures old(AcceptsEdge(pressed, now)) && !pressed && old(buttonPressed) ==>
        !buttonPressed && buttonPressStartTime == old(buttonPressStartTime)
        && match Classify(Elapsed(now, old(buttonPressStartTime)))
           case ShortPress => action == TrySetSbcPower(!old(power.sbcPin)) && power.sbcPin == old(power.sbcPin)
           case LongPress => action == ForceSbcOff && !power.IsSBCPowerOn()
           case NoPress => action == NoAction && power.sbcPin == old(power.sbcPin)
    {
      action := NoAction;
      if pressed != lastButtonState && Elapsed(now, lastButtonTime) > Config.PowerButtonDebounce {
        lastButtonState := pressed;
        lastButtonTime := now;
        if pressed {
          buttonPressed := true;
          buttonPressStartTime := now;
        } else if buttonPressed {
          buttonPressed := false;
          var pressDuration := Elapsed(now, buttonPressStartTime);
          if Config.ShortPressMin <= pressDuration <= Config.ShortPressMax {
            action := TrySetSbcPower(!power.IsSBCPowerOn());
          } else if pressDuration >= Config.LongPressMin {
            power.ForceSetSBCPower(false);
            action := ForceSbcOff;
          }
        }
      }
    }
  }

  // ---------------------------------------------------------------------
  // MAC formatting

  /** Where the last two-character group of an `n`-character string starts. */
  function LastGroupStart(n: nat): (k: nat)
    requires n > 0
    ensures k % 2 == 0 && k < n && n - k <= 2
  {
    ((n - 1) / 2) * 2
  }

  /** The characters in groups of two, `:` between consecutive groups. */
  function MacGroups(s: string): (r: string)
    decreases |s|
  {
    if |s| <= 2 then s else MacGroups(s[..LastGroupStart(|s|)]) + ":" + s[LastGroupStart(|s|)..]
  }

  /** The string without its `:` characters. */
  function RemoveColons(s: string): (r: string)
    ensures |r| <= |s|
  {
    if s == [] then [] else RemoveColons(s[..|s| - 1]) + (if s[|s| - 1] == ':' then [] else [s[|s| - 1]])
  }

  lemma {:induction false} RemoveColonsConcat(a: string, b: string)
    ensures RemoveColons(a + b) == RemoveColons(a) + RemoveColons(b)
    decreases |b|
  {
    if b != [] {
      var b' := b[..|b| - 1];
      var x := b[|b| - 1];
      RemoveColonsConcat(a, b');
      assert (a + b)[..|a + b| - 1] == a + b';
      assert (a + b)[|a + b| - 1] == x;
      calc {
        RemoveColons(a + b);
        RemoveColons(a + b') + (if x == ':' then [] else [x]);
        RemoveColons(a) + RemoveColons(b') + (if x == ':' then [] else [x]);
        RemoveColons(a) + RemoveColons(b);
      }
    } else {
      assert a + b == a;
    }
  }

  lemma {:induction false} RemoveColonsNone(s: string)
    requires ':' !in s
    ensures RemoveColons(s) == s
    decreases |s|
  {
    if s != [] {
      RemoveColonsNone(s[..|s| - 1]);
    }
  }

  /** Removing the `:` separators gives back the hexadecimal text. */
  lemma {:induction false} MacGroupsInverse(s: string)
    requires ':' !in s
    ensures RemoveColons(MacGroups(s)) == s
    decreases |s|
  {
    if |s| <= 2 {
      RemoveColonsNone(s);
    } else {
      var k := LastGroupStart(|s|);
      var g := MacGroups(s[..k]);
      var t := s[k..];
      assert MacGroups(s) == g + ":" + t;
      MacGroupsInverse(s[..k]);
      assert ':' !in t;
      RemoveColonsJoin(g, t, s[..k]);
      Seqs.SplitAt(s, k);
    }
  }

  /** One more separator and a colon-free group after text that loses its colons to `p`. */
  lemma RemoveColonsJoin(g: string, t: string, p: string)
    requires RemoveColons(g) == p && ':' !in t
    ensures RemoveColons(g + ":" + t) == p + t
  {
    RemoveColonsConcat(g + ":", t);
    RemoveColonsConcat(g, ":");
    assert RemoveColons(":") == [];
    RemoveColonsNone(t);
    assert p + [] == p;
  }

  /** Grouping adds one separator per two characters after the first pair. */
  lemma {:induction false} MacGroupsLength(s: string)
    requires |s| > 0
    ensures |MacGroups(s)| == |s| + (|s| - 1) / 2
    decreases |s|
  {
    if |s| > 2 {
      MacGroupsLength(s[..LastGroupStart(|s|)]);
    }
  }

  /** Grouping brings in no character but `:`. */
  lemma {:induction false} MacGroupsChars(s: string, c: char)
    requires c != ':' && c !in s
    ensures c !in MacGroups(s)
    decreases |s|
  {
    if |s| > 2 {
      var k := LastGroupStart(|s|);
      MacGroupsChars(s[..k], c);
      assert c !in s[k..];
    }
  }

  /** The loop in `getSystemInfo` that copies two characters at a time, `:` before each but the first. */
  method FormatMac(hex: string) returns (r: string)
    ensures r == MacGroups(hex)
  {
    r := "";
    var i := 0;
    while i < |hex|
      invariant 0 <= i <= |hex| + 1 && i % 2 == 0
      invariant i <= |hex| ==> r == MacGroups(hex[..i])
      invariant i > |hex| ==> r == MacGroups(hex)
      decreases |hex| - i
    {
      var end := if i + 2 < |hex| then i + 2 else |hex|;
      MacGroupsExtend(hex, i, end);
      EvenStep(i);
      if i > 0 {
        r := r + ":";
      }
      r := r + hex[i..end];
      assert r == MacGroups(hex[..end]);
      if end == |hex| {
        Seqs.PrefixWhole(hex);
      }
      i := i + 2;
    }
    Seqs.PrefixWhole(hex);
  }

  lemma EvenStep(i: nat)
    requires i % 2 == 0
    ensures (i + 2) % 2 == 0
  {
  }

  /** The grouping of a longer prefix: the next pair, after a `:` unless it is the first. */
  lemma MacGroupsExtend(hex: string, i: nat, end: nat)
    requires i < |hex| && i % 2 == 0 && end == if i + 2 < |hex| then i + 2 else |hex|
    ensures i > 0 ==> MacGroups(hex[..end]) == (MacGroups(hex[..i]) + ":") + hex[i..end]
    ensures i == 0 ==> MacGroups(hex[..end]) == MacGroups(hex[..i]) + hex[i..end]
  {
    var p := hex[..end];
    if i > 0 {
      assert LastGroupStart(|p|) == i;
      assert p[..i] == hex[..i];
      assert p[i..] == hex[i..end];
    } else {
      assert MacGroups(hex[..i]) == [];
      assert p == hex[i..end];
    }
  }

  // ---------------------------------------------------------------------
  // SYSTEM_INFO

  const SystemInfoTag: string := "SYSTEM_INFO"

  /** The `|`-separated fields of the line: tag, Wi-Fi MAC, grouped BT MAC, version, uptime in s. */
  function SystemInfoFields(wifiMac: string, btMac: string, nowMs: u32): seq<string>
  {
    [SystemInfoTag, Text.CStr(wifiMac), btMac, Text.Hex4(Config.FirmwareVersion), Text.NatToString(nowMs / 1000)]
  }

  /** `getSystemInfo`'s `snprintf` into 256 bytes. */
  function SystemInfo(wifiMac: string, btMac: string, nowMs: u32): (r: string)
    ensures |r| <= 255
  {
    Text.BoundedCopy(Text.Join(SystemInfoFields(wifiMac, btMac, nowMs), '|'), 256)
  }

  /**
   * `getSystemInfo`: the efuse MAC in upper-case hexadecimal, grouped in
   * pairs, in the SYSTEM_INFO line. The Wi-Fi MAC and the clock are inputs.
   */
  method GetSystemInfo(wifiMac: string, efuseMac: nat, nowMs: u32) returns (info: string)
    ensures info == SystemInfo(wifiMac, MacGroups(Text.HexString(efuseMac)), nowMs)
  {
    var btMac := Text.HexString(efuseMac);
    var formatted := FormatMac(btMac);
    info := SystemInfo(wifiMac, formatted, nowMs);
  }

  lemma HexStringExcludes(n: nat, c: char)
    requires Text.HexValue(c).None?
    ensures c !in Text.HexString(n)
  {
  }

  /** A text without NUL is its own C string. */
  lemma CStrWhole(s: string)
    requires '\0' !in s
    ensures Text.CStr(s) == s
  {
  }

  /** The grouped MAC is a `|`-free, NUL-free token. */
  lemma MacToken(efuseMac: nat)
    ensures Text.IsToken(MacGroups(Text.HexString(efuseMac)), '|')
    ensures '\0' !in MacGroups(Text.HexString(efuseMac))
  {
    var hex := Text.HexString(efuseMac);
    HexStringExcludes(efuseMac, '|');
    HexStringExcludes(efuseMac, '\0');
    MacGroupsChars(hex, '|');
    MacGroupsChars(hex, '\0');
    MacGroupsLength(hex);
  }

  /**
   * When it fits the buffer, splitting the line on `|` gives back the five
   * fields: the Wi-Fi MAC whole, and the grouped MAC, whose `:` separators
   * come off to leave the hexadecimal text.
   */
  lemma SystemInfoShape(wifiMac: string, efuseMac: nat, nowMs: u32)
    requires |wifiMac| > 0 && '|' !in wifiMac && '\0' !in wifiMac
    requires |Text.Join(SystemInfoFields(wifiMac, MacGroups(Text.HexString(efuseMac)), nowMs), '|')| <= 255
    ensures Text.Tokens(SystemInfo(wifiMac, MacGroups(Text.HexString(efuseMac)), nowMs), '|')
            == SystemInfoFields(wifiMac, MacGroups(Text.HexString(efuseMac)), nowMs)
    ensures SystemInfoFields(wifiMac, MacGroups(Text.HexString(efuseMac)), nowMs)[1] == wifiMac
    ensures RemoveColons(SystemInfoFields(wifiMac, MacGroups(Text.HexString(efuseMac)), nowMs)[2])
            == Text.HexString(efuseMac)
  {
    SystemInfoTokens(wifiMac, MacGroups(Text.HexString(efuseMac)), nowMs, efuseMac);
    var hex := Text.HexString(efuseMac);
    CStrWhole(wifiMac);
    HexStringExcludes(efuseMac, ':');
    MacGroupsInverse(hex);
  }

  lemma SystemInfoTokens(wifiMac: string, btMac: string, nowMs: u32, efuseMac: nat)
    requires |wifiMac| > 0 && '|' !in wifiMac && '\0' !in wifiMac
    requires btMac == MacGroups(Text.HexString(efuseMac))
    requires |Text.Join(SystemInfoFields(wifiMac, btMac, nowMs), '|')| <= 255
    ensures Text.Tokens(SystemInfo(wifiMac, btMac, nowMs), '|') == SystemInfoFields(wifiMac, btMac, nowMs)
  {
    var fs := SystemInfoFields(wifiMac, btMac, nowMs);
    MacToken(efuseMac);
    FieldsAreTokens(wifiMac, btMac, nowMs);
    JoinExcludes(fs, '|', '\0');
    CStrWhole(Text.Join(fs, '|'));
    Text.TokensJoin(fs, '|');
  }

  lemma FieldsAreTokens(wifiMac: string, btMac: string, nowMs: u32)
    requires |wifiMac| > 0 && '|' !in wifiMac && '\0' !in wifiMac
    requires Text.IsToken(btMac, '|') && '\0' !in btMac
    ensures var fs := SystemInfoFields(wifiMac, btMac, nowMs);
      forall i :: 0 <= i < |fs| ==> Text.IsToken(fs[i], '|') && '\0' !in fs[i]
  {
    CStrWhole(wifiMac);
    var h4 := Text.Hex4(Config.FirmwareVersion);
    var up := Text.NatToString(nowMs / 1000);
    assert '|' !in h4 && '\0' !in h4;
    assert '|' !in up && '\0' !in up;
  }

  /** Fields free of a character other than the separator join into a text without it. */
  lemma {:induction false} JoinExcludes(fs: seq<string>, sep: char, c: char)
    requires c != sep && forall i :: 0 <= i < |fs| ==> c !in fs[i]
    ensures c !in Text.Join(fs, sep)
    decreases |fs|
  {
    if |fs| > 1 {
      JoinExcludes(fs[1..], sep, c);
    }
  }
}
