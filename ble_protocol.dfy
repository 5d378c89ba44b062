// The BLE text protocol: the keyword table and help text, how a written
// value is cleaned and cut into fields, what each command asks of the rest
// of the device, and how a reply is cut into notifications.

module BleProtocol {
  import opened Bytes
  import opened Wrappers
  import Config
  import Text
  import Hid = UsbHid
  import SM = StatusManager

  /** Size of `BLEMessage::rawData`, including the terminating NUL. */
  const RawDataSize: nat := 128
  /** Number of `BLEMessage::parsedData` fields. */
  const MaxFields: nat := 8
  /** Size of each parsed field, including the terminating NUL. */
  const FieldSize: nat := 32
  /** Largest notification payload `sendResponse` ever uses. */
  const MaxPacket: nat := 160
  /** ATT_MTU before any exchange. */
  const DefaultMtu: u16 := 23

  /**
   * `BLECommand`. The last six are the labels `handleCommand` switches on
   * without the enumeration declaring them; no keyword maps to them.
   */
  datatype BleCommand =
    | Status | PowerOn | PowerOff | Shutdown
    | KeyboardPress | KeyboardHold | KeyboardRelease | KeyboardType
    | MouseMove | MousePress | MouseHold | MouseRelease | MouseScroll
    | GamepadPress | GamepadHold | GamepadRelease | GamepadRightAxis | GamepadLeftAxis
    | SystemPower | GetSystemInfo | Help | SyntaxError | Unknown
    | PowerInfo | SystemInfo | SystemRestart | DeepSleepInfo | DeepSleepEnable | DeepSleepDisable

  /** `BLEMessage`, with `dataCount` as the length of `fields`. */
  datatype BleMessage = BleMessage(command: BleCommand, rawData: string, fields: seq<string>, timestamp: u32)

  // ---------------------------------------------------------------------
  // Keywords

  /** `commandMap`, in table order. */
  const CommandMap: seq<(string, BleCommand)> := [
    ("STATUS", Status),
    ("POWER_ON", PowerOn),
    ("POWER_OFF", PowerOff),
    ("SHUTDOWN", Shutdown),
    ("HID_KEYBOARD_PRESS", KeyboardPress),
    ("HID_KEYBOARD_HOLD", KeyboardHold),
    ("HID_KEYBOARD_RELEASE", KeyboardRelease),
    ("HID_KEYBOARD_TYPE", KeyboardType),
    ("HID_MOUSE_MOVE", MouseMove),
    ("HID_MOUSE_PRESS", MousePress),
    ("HID_MOUSE_HOLD", MouseHold),
    ("HID_MOUSE_RELEASE", MouseRelease),
    ("HID_MOUSE_SCROLL", MouseScroll),
    ("HID_GAMEPAD_PRESS", GamepadPress),
    ("HID_GAMEPAD_HOLD", GamepadHold),
    ("HID_GAMEPAD_RELEASE", GamepadRelease),
    ("HID_GAMEPAD_RIGHT_AXIS", GamepadRightAxis),
    ("HID_GAMEPAD_LEFT_AXIS", GamepadLeftAxis),
    ("HID_SYSTEM_POWER", SystemPower),
    ("GET_SYSTEM_INFO", GetSystemInfo),
    ("HELP", Help)
  ]

  /** The first entry of `table` whose keyword is `name`, else UNKNOWN. */
  function LookupIn(table: seq<(string, BleCommand)>, name: string): BleCommand
  {
    if table == [] then Unknown
    else if table[0].0 == name then table[0].1
    else LookupIn(table[1..], name)
  }

  /** The exact, case-sensitive keyword lookup of `parseCommand`. */
  function Lookup(name: string): BleCommand
  {
    LookupIn(CommandMap, name)
  }

  /** The lookup result is the entry of the first match, or UNKNOWN when none matches. */
  lemma {:induction false} LookupInCases(table: seq<(string, BleCommand)>, name: string)
    ensures (LookupIn(table, name) == Unknown && forall j :: 0 <= j < |table| ==> table[j].0 != name)
         || exists i :: 0 <= i < |table| && table[i].0 == name && LookupIn(table, name) == table[i].1
              && forall j :: 0 <= j < i ==> table[j].0 != name
    decreases |table|
  {
    if table != [] && table[0].0 != name {
      LookupInCases(table[1..], name);
      if LookupIn(table[1..], name) == Unknown && forall j :: 0 <= j < |table| - 1 ==> table[1..][j].0 != name {
        forall j | 0 <= j < |table| ensures table[j].0 != name {
          if j > 0 { assert table[j] == table[1..][j - 1]; }
        }
      } else {
        var i :| 0 <= i < |table| - 1 && table[1..][i].0 == name && LookupIn(table[1..], name) == table[1..][i].1
              && forall j :: 0 <= j < i ==> table[1..][j].0 != name;
        assert table[i + 1] == table[1..][i];
        forall j | 0 <= j < i + 1 ensures table[j].0 != name {
          if j > 0 { assert table[j] == table[1..][j - 1]; }
        }
      }
    }
  }

  /** The 21 keywords are pairwise distinct. */
  lemma KeywordsDistinct()
    ensures forall i, j :: 0 <= i < j < |CommandMap| ==> CommandMap[i].0 != CommandMap[j].0
  {
  }

  /**
   * Every keyword finds its own command, and a name finds UNKNOWN exactly
   * when it is none of the keywords.
   */
  lemma LookupKeywords(name: string)
    ensures forall i :: 0 <= i < |CommandMap| ==> Lookup(CommandMap[i].0) == CommandMap[i].1
    ensures Lookup(name) == Unknown <==> forall i :: 0 <= i < |CommandMap| ==> CommandMap[i].0 != name
  {
    KeywordsDistinct();
    forall k | 0 <= k < |CommandMap| ensures Lookup(CommandMap[k].0) == CommandMap[k].1 {
      LookupInDistinct(CommandMap, k);
    }
    LookupInCases(CommandMap, name);
    NoUnknownEntry();
  }

  /** No keyword maps to UNKNOWN. */
  lemma NoUnknownEntry()
    ensures forall i :: 0 <= i < |CommandMap| ==> CommandMap[i].1 != Unknown
  {
  }

  /** A table entry that does not match is skipped. */
  lemma LookupInSkip(table: seq<(string, BleCommand)>, i: nat, name: string)
    requires i < |table| && table[i].0 != name
    ensures LookupIn(table[i..], name) == LookupIn(table[i + 1..], name)
  {
    assert table[i..][0] == table[i] && table[i..][1..] == table[i + 1..];
  }

  /** In a table whose keywords are distinct, each keyword finds its own entry. */
  lemma {:induction false} LookupInDistinct(table: seq<(string, BleCommand)>, k: nat)
    requires k < |table|
    requires forall i, j :: 0 <= i < j < |table| ==> table[i].0 != table[j].0
    ensures LookupIn(table, table[k].0) == table[k].1
    decreases k
  {
    if k > 0 {
      var rest := table[1..];
      assert rest[k - 1] == table[k];
      forall i, j | 0 <= i < j < |rest| ensures rest[i].0 != rest[j].0 {
        assert rest[i] == table[i + 1] && rest[j] == table[j + 1];
      }
      LookupInDistinct(rest, k - 1);
    }
  }

  /**
   * Lookup never yields SYNTAX_ERROR nor any of the labels the enumeration
   * does not declare: those `handleCommand` branches cannot be reached.
   */
  lemma LookupReachable(name: string)
    ensures Lookup(name) !in {SyntaxError, PowerInfo, SystemInfo, SystemRestart, DeepSleepInfo, DeepSleepEnable, DeepSleepDisable}
    ensures Lookup(name) == Unknown || exists i :: 0 <= i < |CommandMap| && CommandMap[i].0 == name
  {
    LookupInCases(CommandMap, name);
    CommandMapTargets();
  }

  lemma CommandMapTargets()
    ensures forall i :: 0 <= i < |CommandMap| ==>
      CommandMap[i].1 !in {SyntaxError, PowerInfo, SystemInfo, SystemRestart, DeepSleepInfo, DeepSleepEnable, DeepSleepDisable}
  {
  }

  // ---------------------------------------------------------------------
  // Fixed replies

  /** Concatenation of a sequence of strings. */
  function Concat(ss: seq<string>): (r: string)
    ensures ss == [] ==> r == []
  {
    if ss == [] then [] else ss[0] + Concat(ss[1..])
  }

  lemma {:induction false} ConcatAppend(a: seq<string>, b: seq<string>)
    ensures Concat(a + b) == Concat(a) + Concat(b)
    decreases |a|
  {
    if a == [] {
      assert a + b == b;
    } else {
      assert (a + b)[1..] == a[1..] + b;
      ConcatAppend(a[1..], b);
    }
  }

  /** `BLE_HELP_STRING`, one source line per element. */
  const HelpLines: seq<string> := [
    "Available Commands:\n",
    "\n",
    "=== System Commands ===\n",
    "STATUS" + " - Get battery/power status\n",
    "POWER_ON" + " - Turn on SBC power\n",
    "POWER_OFF" + " - Turn off SBC power\n",
    "SHUTDOWN" + " - Shutdown system\n",
    "GET_SYSTEM_INFO" + " - Get system information\n",
    "\n",
    "=== HID Keyboard Commands ===\n",
    "HID_KEYBOARD_PRESS" + ":KEY - Press and release key (ASCII code)\n",
    "HID_KEYBOARD_HOLD" + ":KEY - Hold key down (ASCII code)\n",
    "HID_KEYBOARD_RELEASE" + ":KEY - Release held key (ASCII code)\n",
    "HID_KEYBOARD_TYPE" + ":TEXT - Type text string\n",
    "\n",
    "=== HID Mouse Commands ===\n",
    "HID_MOUSE_MOVE" + ":X:Y - Move mouse by X,Y pixels\n",
    "HID_MOUSE_PRESS" + ":BTN - Press and release mouse button\n",
    "HID_MOUSE_HOLD" + ":BTN - Hold mouse button down\n",
    "HID_MOUSE_RELEASE" + ":BTN - Release held mouse button\n",
    "HID_MOUSE_SCROLL" + ":X:Y - Scroll mouse wheel X,Y units\n",
    "\n",
    "=== HID Gamepad Commands ===\n",
    "HID_GAMEPAD_PRESS" + ":BTN - Press and release gamepad button\n",
    "HID_GAMEPAD_HOLD" + ":BTN - Hold gamepad button down\n",
    "HID_GAMEPAD_RELEASE" + ":BTN - Release held gamepad button\n",
    "HID_GAMEPAD_RIGHT_AXIS" + ":AXIS:VALUE - Set right stick axis\n",
    "HID_GAMEPAD_LEFT_AXIS" + ":AXIS:VALUE - Set left stick axis\n",
    "\n",
    "=== HID System Commands ===\n",
    "HID_SYSTEM_POWER" + " - Send system power key\n",
    "\n",
    "=== Help ===\n",
    "HELP" + " - Show this command list\n",
    "\n",
    "Format: CMD:DATA|DATA... (use : for command data, | for separators)"
  ]

  const HelpString: string := Concat(HelpLines)

  /** `BLE_CMD_UNKNOWN_STRING` */
  const UnknownString: string := "Unknown command, type 'HELP' for a list of available commands."

  /** The help line that documents each `commandMap` entry, in table order. */
  const HelpLineOf: seq<nat> := [3, 4, 5, 6, 10, 11, 12, 13, 16, 17, 18, 19, 20, 23, 24, 25, 26, 27, 30, 7, 33]

  /** A help line documents `name` when it starts with it, followed by a space or `:`. */
  predicate Documents(line: string, name: string)
  {
    |name| < |line| && line[..|name|] == name && (line[|name|] == ' ' || line[|name|] == ':')
  }

  /** Each keyword's help line starts with it; every line but the last ends the line. */
  lemma HelpLinesDocumentKeywords()
    ensures |HelpLineOf| == |CommandMap|
    ensures forall i :: 0 <= i < |CommandMap| ==>
      0 < HelpLineOf[i] < |HelpLines| && Documents(HelpLines[HelpLineOf[i]], CommandMap[i].0)
    ensures forall k :: 0 <= k < |HelpLines| - 1 ==> |HelpLines[k]| > 0 && HelpLines[k][|HelpLines[k]| - 1] == '\n'
  {
    KeywordLinesDocument();
    HelpLinesEnded();
  }

  lemma KeywordLinesDocument()
    ensures |HelpLineOf| == |CommandMap|
    ensures forall i :: 0 <= i < |CommandMap| ==>
      0 < HelpLineOf[i] < |HelpLines| && Documents(HelpLines[HelpLineOf[i]], CommandMap[i].0)
  {
    forall i | 0 <= i < |CommandMap|
      ensures 0 < HelpLineOf[i] < |HelpLines| && Documents(HelpLines[HelpLineOf[i]], CommandMap[i].0)
    {
      KeywordLineDocuments(i);
    }
  }

  /** The help line of entry `i` is its keyword followed by the rest of the line. */
  lemma KeywordLineDocuments(i: nat)
    requires i < |CommandMap|
    ensures 0 < HelpLineOf[i] < |HelpLines| && Documents(HelpLines[HelpLineOf[i]], CommandMap[i].0)
  {
    if i < 7 {
      SystemKeywordLines(i);
    } else if i < 14 {
      InputKeywordLines(i);
    } else {
      LastKeywordLines(i);
    }
  }

  lemma SystemKeywordLines(i: nat)
    requires i < 7
    ensures 0 < HelpLineOf[i] < |HelpLines| && Documents(HelpLines[HelpLineOf[i]], CommandMap[i].0)
  {
    if i == 0 {
      DocumentsPrefix("STATUS", " - Get battery/power status\n");
    } else if i == 1 {
      DocumentsPrefix("POWER_ON", " - Turn on SBC power\n");
    } else if i == 2 {
      DocumentsPrefix("POWER_OFF", " - Turn off SBC power\n");
    } else if i == 3 {
      DocumentsPrefix("SHUTDOWN", " - Shutdown system\n");
    } else if i == 4 {
      DocumentsPrefix("HID_KEYBOARD_PRESS", ":KEY - Press and release key (ASCII code)\n");
    } else if i == 5 {
      DocumentsPrefix("HID_KEYBOARD_HOLD", ":KEY - Hold key down (ASCII code)\n");
    } else {
      DocumentsPrefix("HID_KEYBOARD_RELEASE", ":KEY - Release held key (ASCII code)\n");
    }
  }

  lemma InputKeywordLines(i: nat)
    requires 7 <= i < 14
    ensures 0 < HelpLineOf[i] < |HelpLines| && Documents(HelpLines[HelpLineOf[i]], CommandMap[i].0)
  {
    if i == 7 {
      DocumentsPrefix("HID_KEYBOARD_TYPE", ":TEXT - Type text string\n");
    } else if i == 8 {
      DocumentsPrefix("HID_MOUSE_MOVE", ":X:Y - Move mouse by X,Y pixels\n");
    } else if i == 9 {
      DocumentsPrefix("HID_MOUSE_PRESS", ":BTN - Press and release mouse button\n");
    } else if i == 10 {
      DocumentsPrefix("HID_MOUSE_HOLD", ":BTN - Hold mouse button down\n");
    } else if i == 11 {
      DocumentsPrefix("HID_MOUSE_RELEASE", ":BTN - Release held mouse button\n");
    } else if i == 12 {
      DocumentsPrefix("HID_MOUSE_SCROLL", ":X:Y - Scroll mouse wheel X,Y units\n");
    } else {
      DocumentsPrefix("HID_GAMEPAD_PRESS", ":BTN - Press and release gamepad button\n");
    }
  }

  lemma LastKeywordLines(i: nat)
    requires 14 <= i < 21
    ensures 0 < HelpLineOf[i] < |HelpLines| && Documents(HelpLines[HelpLineOf[i]], CommandMap[i].0)
  {
    if i == 14 {
      DocumentsPrefix("HID_GAMEPAD_HOLD", ":BTN - Hold gamepad button down\n");
    } else if i == 15 {
      DocumentsPrefix("HID_GAMEPAD_RELEASE", ":BTN - Release held gamepad button\n");
    } else if i == 16 {
      DocumentsPrefix("HID_GAMEPAD_RIGHT_AXIS", ":AXIS:VALUE - Set right stick axis\n");
    } else if i == 17 {
      DocumentsPrefix("HID_GAMEPAD_LEFT_AXIS", ":AXIS:VALUE - Set left stick axis\n");
    } else if i == 18 {
      DocumentsPrefix("HID_SYSTEM_POWER", " - Send system power key\n");
    } else if i == 19 {
      DocumentsPrefix("GET_SYSTEM_INFO", " - Get system information\n");
    } else {
      DocumentsPrefix("HELP", " - Show this command list\n");
    }
  }

  /** A keyword followed by a space or `:` is documented by that line. */
  lemma DocumentsPrefix(name: string, rest: string)
    requires |rest| > 0 && (rest[0] == ' ' || rest[0] == ':')
    ensures Documents(name + rest, name)
  {
    assert (name + rest)[..|name|] == name;
  }

  lemma HelpLinesEnded()
    ensures forall k :: 0 <= k < |HelpLines| - 1 ==> |HelpLines[k]| > 0 && HelpLines[k][|HelpLines[k]| - 1] == '\n'
  {
  }

  /** A line documenting `name` after a finished line puts `name` at the start of a line of the text. */
  lemma {:induction false} ConcatDocuments(ls: seq<string>, k: nat, name: string) returns (before: string, after: string)
    requires 0 < k < |ls| && Documents(ls[k], name)
    requires |ls[k - 1]| > 0 && ls[k - 1][|ls[k - 1]| - 1] == '\n'
    ensures Concat(ls) == before + name + after
    ensures |after| > 0 && (after[0] == ' ' || after[0] == ':')
    ensures |before| > 0 && before[|before| - 1] == '\n'
  {
    var line := ls[k];
    var prev := ls[k - 1];
    assert ls == ls[..k - 1] + [prev] + [line] + ls[k + 1..];
    ConcatAppend(ls[..k - 1] + [prev] + [line], ls[k + 1..]);
    ConcatAppend(ls[..k - 1] + [prev], [line]);
    ConcatAppend(ls[..k - 1], [prev]);
    assert Concat([line]) == line + Concat([]);
    assert Concat([prev]) == prev + Concat([]);
    before := Concat(ls[..k - 1]) + prev;
    after := line[|name|..] + Concat(ls[k + 1..]);
    assert line == name + line[|name|..];
    assert Concat(ls) == before + name + after;
    assert after[0] == line[|name|];
    assert before[|before| - 1] == prev[|prev| - 1];
  }

  /** Every keyword of `commandMap` appears in the help text as a whole word at the start of a line. */
  lemma HelpMentionsEveryKeyword(i: nat) returns (before: string, after: string)
    requires i < |CommandMap|
    ensures HelpString == before + CommandMap[i].0 + after
    ensures |after| > 0 && (after[0] == ' ' || after[0] == ':')
    ensures |before| > 0 && before[|before| - 1] == '\n'
  {
    HelpLinesDocumentKeywords();
    var k := HelpLineOf[i];
    var name := CommandMap[i].0;
    assert 0 < k < |HelpLines| && Documents(HelpLines[k], name);
    assert |HelpLines[k - 1]| > 0 && HelpLines[k - 1][|HelpLines[k - 1]| - 1] == '\n';
    before, after := ConcatDocuments(HelpLines, k, name);
  }

  // ---------------------------------------------------------------------
  // Cleaning and splitting

  predicate IsTrailingBlank(c: char)
  {
    c == '\n' || c == '\r' || c == ' '
  }

  /** The trim loop of `parseCommand`: drops `\n`, `\r` and space from the end only. */
  function TrimTrailing(s: string): (r: string)
    ensures |r| <= |s| && r == s[..|r|]
    ensures forall i :: |r| <= i < |s| ==> IsTrailingBlank(s[i])
    ensures r == [] || !IsTrailingBlank(r[|r| - 1])
    decreases |s|
  {
    if s != [] && IsTrailingBlank(s[|s| - 1]) then TrimTrailing(s[..|s| - 1]) else s
  }

  /** Trimming is idempotent, and keeps every text ending in anything else (a tab, say) whole. */
  lemma TrimTrailingStable(s: string)
    ensures TrimTrailing(TrimTrailing(s)) == TrimTrailing(s)
    ensures s != [] && !IsTrailingBlank(s[|s| - 1]) ==> TrimTrailing(s) == s
  {
  }

  /** `cleanData`: the first 127 characters of the C string, trimmed at the end. */
  function Clean(data: string): (r: string)
    ensures |r| < RawDataSize && '\0' !in r
  {
    TrimTrailing(Text.BoundedCopy(data, RawDataSize))
  }

  /** Each token cut to a parsed field (`strncpy` into 32 bytes). */
  function CopyFields(ts: seq<string>): (r: seq<string>)
    ensures |r| == |ts|
    ensures forall i :: 0 <= i < |r| ==> |r[i]| < FieldSize && '\0' !in r[i]
  {
    seq(|ts|, i requires 0 <= i < |ts| => Text.BoundedCopy(ts[i], FieldSize))
  }

  /** Copying one more token appends its copy. */
  lemma CopyFieldsSnoc(ts: seq<string>, t: string)
    ensures CopyFields(ts + [t]) == CopyFields(ts) + [Text.BoundedCopy(t, FieldSize)]
  {
  }

  /**
   * Once the `|` tokens of `rest` are `taken` followed by those of
   * `remaining`, and the loop has stopped (no token left, or seven taken),
   * `taken` are the data tokens kept.
   */
  lemma DataTokensTaken(rest: string, taken: seq<string>, remaining: string)
    requires Text.Tokens(rest, Config.BleCmdDataSeparator) == taken + Text.Tokens(remaining, Config.BleCmdDataSeparator)
    requires |taken| < MaxFields
    requires Text.Strtok(remaining, Config.BleCmdDataSeparator).None? || |taken| == MaxFields - 1
    ensures DataTokens(rest) == taken
  {
    var all := Text.Tokens(rest, Config.BleCmdDataSeparator);
    if Text.Strtok(remaining, Config.BleCmdDataSeparator).None? {
      assert all == taken;
    } else {
      assert all[..MaxFields - 1] == taken;
    }
  }

  /** The data tokens `parseDataComponents` keeps: at most seven, split on `|` only. */
  function DataTokens(rest: string): (r: seq<string>)
    ensures |r| < MaxFields
  {
    var ts := Text.Tokens(rest, Config.BleCmdDataSeparator);
    if |ts| < MaxFields then ts else ts[..MaxFields - 1]
  }

  /**
   * `parseDataComponents`: field 0 is the first `:` token, the rest of the
   * text is split on `|`; text with no token becomes field 0 whole.
   */
  function Fields(clean: string): (r: seq<string>)
    ensures 1 <= |r| <= MaxFields
    ensures forall i :: 0 <= i < |r| ==> |r[i]| < FieldSize && '\0' !in r[i]
  {
    var buffer := Text.BoundedCopy(clean, RawDataSize);
    match Text.Strtok(buffer, Config.BleCmdPartSeparator)
    case Some((cmd, rest)) =>
      [Text.BoundedCopy(cmd, FieldSize)] + CopyFields(DataTokens(rest))
    case None =>
      [Text.BoundedCopy(clean, FieldSize)]
  }

  /** `parseCommand` as a whole. */
  function Parse(data: string, now: u32): (m: BleMessage)
    ensures 1 <= |m.fields| <= MaxFields && |m.rawData| < RawDataSize
    ensures m.command == Lookup(m.fields[0])
  {
    var fields := Fields(Clean(data));
    BleMessage(Lookup(fields[0]), Text.BoundedCopy(data, RawDataSize), fields, now)
  }

  /** A parse never reports a syntax error: `parseDataComponents` cannot fail. */
  lemma ParseNeverSyntaxError(data: string, now: u32)
    ensures Parse(data, now).command != SyntaxError
  {
    LookupReachable(Parse(data, now).fields[0]);
  }

  lemma CStrWhole(s: string)
    requires '\0' !in s
    ensures Text.CStr(s) == s
  {
  }

  lemma BoundedCopyWhole(s: string, size: nat)
    requires size > 0 && '\0' !in s && |s| < size
    ensures Text.BoundedCopy(s, size) == s
  {
    CStrWhole(s);
  }

  /** Text a client would send: a keyword, then its data fields after `:`, separated by `|`. */
  function Format(cmd: string, data: seq<string>): string
  {
    if data == [] then cmd else cmd + [Config.BleCmdPartSeparator] + Text.Join(data, Config.BleCmdDataSeparator)
  }

  lemma StrtokWhole(s: string, d: char)
    requires Text.IsToken(s, d)
    ensures Text.Strtok(s, d) == Some((s, []))
  {
    Text.SkipDelimsNone(s, d);
    Text.IndexOfPrefix(s, [], d);
    assert s + [] == s;
  }

  lemma StrtokHead(c: string, d: char, rest: string)
    requires Text.IsToken(c, d)
    ensures Text.Strtok(c + [d] + rest, d) == Some((c, rest))
  {
    var s := c + [d] + rest;
    assert s == c + ([d] + rest);
    Text.SkipDelimsNone(s, d);
    Text.IndexOfPrefix(c, [d] + rest, d);
    assert s[..|c|] == c;
    assert s[|c| + 1..] == rest;
  }

  /**
   * Splitting what `Format` builds gives back the keyword and the data
   * fields, when the keyword has no `:`, no field is empty or holds `|`,
   * none holds a NUL or exceeds 31 characters, there are at most seven
   * and the whole text fits the 127-character buffer.
   */
  lemma FieldsFormat(cmd: string, data: seq<string>)
    requires Text.IsToken(cmd, Config.BleCmdPartSeparator) && '\0' !in cmd && |cmd| < FieldSize
    requires |data| < MaxFields
    requires forall i :: 0 <= i < |data| ==>
      Text.IsToken(data[i], Config.BleCmdDataSeparator) && '\0' !in data[i] && |data[i]| < FieldSize
    requires '\0' !in Format(cmd, data) && |Format(cmd, data)| < RawDataSize
    ensures Fields(Format(cmd, data)) == [cmd] + data
  {
    var s := Format(cmd, data);
    BoundedCopyWhole(s, RawDataSize);
    BoundedCopyWhole(cmd, FieldSize);
    var rest := Text.Join(data, Config.BleCmdDataSeparator);
    if data == [] {
      StrtokWhole(cmd, Config.BleCmdPartSeparator);
      assert Text.Tokens([], Config.BleCmdDataSeparator) == [];
    } else {
      StrtokHead(cmd, Config.BleCmdPartSeparator, rest);
      Text.TokensJoin(data, Config.BleCmdDataSeparator);
    }
    assert DataTokens(rest) == data;
    forall i | 0 <= i < |data| ensures CopyFields(data)[i] == data[i] {
      BoundedCopyWhole(data[i], FieldSize);
    }
  }

  // ---------------------------------------------------------------------
  // Dispatch

  /** One call `handleCommand` makes on the USB manager. */
  datatype HidRequest =
    | PressKey(key: byte) | HoldKey(key: byte) | ReleaseKey(key: byte) | TypeText(text: string)
    | MoveMouse(x: i16, y: i16) | PressMouse(button: byte) | HoldMouse(button: byte) | ReleaseMouse(button: byte)
    | Scroll(sx: i8, sy: i8) | PadButton(button: byte, pressed: bool)
    | RightStick(x: i16, y: i16) | LeftStick(x: i16, y: i16) | PowerKey

  /**
   * A reply: fixed text, the help text, the unknown-command text, or
   * "1"/"0" according to the HID call's result.
   */
  datatype Reply = Fixed(text: string) | HelpText | UnknownText | FromHid

  /** The two long reply texts of the header: the help and the unknown-command text. */
  datatype Replies = Replies(help: string, unknown: string)

  const HeaderReplies: Replies := Replies(HelpString, UnknownString)

  /** The texts of the replies that come from other managers. */
  datatype InfoTexts = InfoTexts(power: string, system: string, deepSleep: string)

  /**
   * What one command asks for: an SBC power request (`trySetSBCPower`), a
   * status with its duration, a HID call, and the reply.
   */
  datatype Plan = Plan(sbcPower: Option<bool>, status: Option<(SM.DeviceStatus, u32)>, hid: Option<HidRequest>, reply: Reply)

  /** `(uint8_t)atoi(…)`, `(int16_t)atoi(…)` and `(int8_t)atoi(…)` */
  function ToByte(s: string): byte { WrapU8(Text.Atoi(s)) }
  function ToI16(s: string): i16 { WrapI16(Text.Atoi(s)) }
  function ToI8(s: string): i8 { WrapI8(Text.Atoi(s)) }

  /** The number of fields (keyword included) a HID command needs; 0 for the others. */
  function Arity(cmd: BleCommand): nat
  {
    match cmd
    case KeyboardPress | KeyboardHold | KeyboardRelease | KeyboardType => 2
    case MousePress | MouseHold | MouseRelease => 2
    case GamepadPress | GamepadHold | GamepadRelease => 2
    case MouseMove | MouseScroll | GamepadRightAxis | GamepadLeftAxis => 3
    case SystemPower => 1
    case _ => 0
  }

  /** The HID call of a HID command whose fields suffice, with its arguments converted. */
  function Request(cmd: BleCommand, fields: seq<string>): (r: Option<HidRequest>)
    ensures r.Some? ==> Arity(cmd) > 0 && |fields| >= Arity(cmd)
  {
    if |fields| < Arity(cmd) then None
    else match cmd
      case KeyboardPress => Some(PressKey(ToByte(fields[1])))
      case KeyboardHold => Some(HoldKey(ToByte(fields[1])))
      case KeyboardRelease => Some(ReleaseKey(ToByte(fields[1])))
      case KeyboardType => Some(TypeText(fields[1]))
      case MouseMove => Some(MoveMouse(ToI16(fields[1]), ToI16(fields[2])))
      case MousePress => Some(PressMouse(ToByte(fields[1])))
      case MouseHold => Some(HoldMouse(ToByte(fields[1])))
      case MouseRelease => Some(ReleaseMouse(ToByte(fields[1])))
      case MouseScroll => Some(Scroll(ToI8(fields[1]), ToI8(fields[2])))
      case GamepadPress => Some(PadButton(ToByte(fields[1]), true))
      case GamepadHold => Some(PadButton(ToByte(fields[1]), false))
      case GamepadRelease => Some(PadButton(ToByte(fields[1]), false))
      case GamepadRightAxis => Some(RightStick(ToI16(fields[1]), ToI16(fields[2])))
      case GamepadLeftAxis => Some(LeftStick(ToI16(fields[1]), ToI16(fields[2])))
      case SystemPower => Some(PowerKey)
      case _ => None
  }

  /** The `switch` of `handleCommand`. */
  function Dispatch(cmd: BleCommand, fields: seq<string>, info: InfoTexts): (p: Plan)
  {
    match cmd
    case PowerInfo => Plan(None, None, None, Fixed(info.power))
    case PowerOn => Plan(Some(true), Some((SM.PowerOn, Config.LedBlinkDuration)), None, Fixed(Config.BleCmdWasSuccessful))
    case PowerOff => Plan(Some(false), Some((SM.PowerOff, Config.LedBlinkDuration)), None, Fixed(Config.BleCmdWasSuccessful))
    case Shutdown => Plan(Some(false), Some((SM.Shutdown, 0)), None, Fixed(Config.BleCmdWasSuccessful))
    case SystemInfo => Plan(None, None, None, Fixed(info.system))
    case SystemRestart => Plan(None, Some((SM.Shutdown, Config.LedBlinkDuration)), None, Fixed(Config.BleCmdWasSuccessful))
    case DeepSleepInfo => Plan(None, None, None, Fixed(info.deepSleep))
    case DeepSleepEnable | DeepSleepDisable => Plan(None, None, None, Fixed(Config.BleCmdWasSuccessful))
    case Help => Plan(None, None, None, HelpText)
    case Status | GetSystemInfo | SyntaxError | Unknown =>
      Plan(None, Some((SM.BleCmdError, Config.LedBlinkDuration)), None, UnknownText)
    case _ =>
      var req := Request(cmd, fields);
      if req.Some? then Plan(None, None, req, FromHid) else Plan(None, None, None, Fixed(Config.BleCmdWasFailure))
  }

  /**
   * The arity rule: a HID command with too few fields makes no HID call and
   * replies "0"; with enough fields it makes exactly one call and replies
   * with its result. No HID command touches SBC power or the status queue.
   */
  lemma DispatchArity(cmd: BleCommand, fields: seq<string>, info: InfoTexts)
    requires Arity(cmd) > 0
    ensures Dispatch(cmd, fields, info).sbcPower.None? && Dispatch(cmd, fields, info).status.None?
    ensures |fields| < Arity(cmd) ==> Dispatch(cmd, fields, info) == Plan(None, None, None, Fixed(Config.BleCmdWasFailure))
    ensures |fields| >= Arity(cmd) ==> Dispatch(cmd, fields, info).hid.Some? && Dispatch(cmd, fields, info).reply == FromHid
  {
  }

  /** Only POWER_ON (on), POWER_OFF and SHUTDOWN (off) request SBC power. */
  lemma DispatchSbcPower(cmd: BleCommand, fields: seq<string>, info: InfoTexts)
    ensures Dispatch(cmd, fields, info).sbcPower ==
      if cmd == PowerOn then Some(true) else if cmd == PowerOff || cmd == Shutdown then Some(false) else None
  {
    match cmd
    case PowerOn =>
    case PowerOff =>
    case Shutdown =>
    case _ =>
  }

  /** HID_GAMEPAD_HOLD asks for exactly what HID_GAMEPAD_RELEASE does: the button with pressed = false. */
  lemma GamepadHoldIsRelease(fields: seq<string>, info: InfoTexts)
    ensures Dispatch(GamepadHold, fields, info) == Dispatch(GamepadRelease, fields, info)
    ensures |fields| >= 2 ==> Dispatch(GamepadHold, fields, info).hid == Some(PadButton(ToByte(fields[1]), false))
  {
    DispatchHid(GamepadHold, fields, info);
    DispatchHid(GamepadRelease, fields, info);
    RequestGamepad(fields);
  }

  /** A HID command's plan is its request and the HID reply, or "0" without a request. */
  lemma DispatchHid(cmd: BleCommand, fields: seq<string>, info: InfoTexts)
    requires Arity(cmd) > 0
    ensures Dispatch(cmd, fields, info)
         == if Request(cmd, fields).Some? then Plan(None, None, Request(cmd, fields), FromHid)
            else Plan(None, None, None, Fixed(Config.BleCmdWasFailure))
  {
  }

  lemma RequestGamepad(fields: seq<string>)
    ensures Request(GamepadHold, fields) == Request(GamepadRelease, fields)
    ensures |fields| >= 2 ==> Request(GamepadHold, fields) == Some(PadButton(ToByte(fields[1]), false))
  {
    if |fields| >= 2 {
      var b := ToByte(fields[1]);
      assert Request(GamepadHold, fields) == Some(PadButton(b, false));
      assert Request(GamepadRelease, fields) == Some(PadButton(b, false));
    }
  }

  /**
   * Parsing what `Format` builds, when it does not end in a blank, gives the
   * keyword's command, the fields back, and the text itself as raw data.
   */
  lemma ParseFormat(cmd: string, data: seq<string>, now: u32)
    requires Text.IsToken(cmd, Config.BleCmdPartSeparator) && '\0' !in cmd && |cmd| < FieldSize
    requires |data| < MaxFields
    requires forall i :: 0 <= i < |data| ==>
      Text.IsToken(data[i], Config.BleCmdDataSeparator) && '\0' !in data[i] && |data[i]| < FieldSize
    requires '\0' !in Format(cmd, data) && |Format(cmd, data)| < RawDataSize
    requires !IsTrailingBlank(Format(cmd, data)[|Format(cmd, data)| - 1])
    ensures Parse(Format(cmd, data), now) == BleMessage(Lookup(cmd), Format(cmd, data), [cmd] + data, now)
  {
    var s := Format(cmd, data);
    BoundedCopyWhole(s, RawDataSize);
    TrimTrailingStable(s);
    FieldsFormat(cmd, data);
  }

  /** Each keyword finds its own command. */
  lemma LookupEntry(i: nat)
    requires i < |CommandMap|
    ensures Lookup(CommandMap[i].0) == CommandMap[i].1
  {
    LookupKeywords(CommandMap[i].0);
  }

  /** STATUS and GET_SYSTEM_INFO parse to their own commands, with no data. */
  lemma ParseStatusKeywords(now: u32)
    ensures Parse("STATUS", now) == BleMessage(Status, "STATUS", ["STATUS"], now)
    ensures Parse("GET_SYSTEM_INFO", now) == BleMessage(GetSystemInfo, "GET_SYSTEM_INFO", ["GET_SYSTEM_INFO"], now)
  {
    ParseStatus(now);
    ParseSystemInfo(now);
  }

  lemma ParseStatus(now: u32)
    ensures Parse("STATUS", now) == BleMessage(Status, "STATUS", ["STATUS"], now)
  {
    ParseFormat("STATUS", [], now);
    LookupEntry(0);
  }

  lemma ParseSystemInfo(now: u32)
    ensures Parse("GET_SYSTEM_INFO", now) == BleMessage(GetSystemInfo, "GET_SYSTEM_INFO", ["GET_SYSTEM_INFO"], now)
  {
    ParseFormat("GET_SYSTEM_INFO", [], now);
    LookupEntry(19);
  }

  /**
   * STATUS and GET_SYSTEM_INFO reach the default branch of `handleCommand`:
   * the unknown-command reply and a BLE_CMD_ERROR blink.
   */
  lemma StatusAndSystemInfoAreUnknown(fields: seq<string>, info: InfoTexts)
    ensures Dispatch(Status, fields, info) == Dispatch(GetSystemInfo, fields, info)
         == Plan(None, Some((SM.BleCmdError, Config.LedBlinkDuration)), None, UnknownText)
  {
  }

  lemma MouseMoveText()
    ensures Format("HID_MOUSE_MOVE", ["10:-5"]) == "HID_MOUSE_MOVE:10:-5"
    ensures Text.IsToken("HID_MOUSE_MOVE", Config.BleCmdPartSeparator) && '\0' !in "HID_MOUSE_MOVE"
    ensures Text.IsToken("10:-5", Config.BleCmdDataSeparator) && '\0' !in "10:-5"
    ensures '\0' !in "HID_MOUSE_MOVE:10:-5" && !IsTrailingBlank('5')
  {
    assert Text.Join(["10:-5"], Config.BleCmdDataSeparator) == "10:-5";
  }

  /**
   * `HID_MOUSE_MOVE:10:-5` is split into the keyword and the single data
   * field "10:-5": two fields where the command needs three.
   */
  lemma ParseMouseMoveWithColons(now: u32)
    ensures Parse("HID_MOUSE_MOVE:10:-5", now) == BleMessage(MouseMove, "HID_MOUSE_MOVE:10:-5", ["HID_MOUSE_MOVE", "10:-5"], now)
  {
    var s := Format("HID_MOUSE_MOVE", ["10:-5"]);
    assert s == "HID_MOUSE_MOVE:10:-5" by { MouseMoveText(); }
    assert Parse(s, now) == BleMessage(Lookup("HID_MOUSE_MOVE"), s, ["HID_MOUSE_MOVE", "10:-5"], now) by {
      MouseMoveText();
      ParseFormat("HID_MOUSE_MOVE", ["10:-5"], now);
    }
    assert Lookup("HID_MOUSE_MOVE") == MouseMove by { LookupMouseMove(); }
  }

  lemma LookupMouseMove()
    ensures Lookup("HID_MOUSE_MOVE") == MouseMove
  {
    assert CommandMap[8] == ("HID_MOUSE_MOVE", MouseMove);
    LookupEntry(8);
  }

  /**
   * So that command replies "0" and moves nothing: with the message
   * `ParseMouseMoveWithColons` gives, `handleCommand` finds too few fields.
   */
  lemma MouseMoveWithColonsFails(info: InfoTexts, now: u32)
    ensures var m := BleMessage(MouseMove, "HID_MOUSE_MOVE:10:-5", ["HID_MOUSE_MOVE", "10:-5"], now);
      Dispatch(m.command, m.fields, info) == Plan(None, None, None, Fixed(Config.BleCmdWasFailure))
  {
    DispatchArity(MouseMove, ["HID_MOUSE_MOVE", "10:-5"], info);
  }

  // ---------------------------------------------------------------------
  // Notifications

  /** The notification size `sendResponse` uses for a peer MTU: min(160, mtu > 3 ? mtu - 3 : 20). */
  function PacketCap(mtu: u16): (n: nat)
    ensures 0 < n <= MaxPacket
    ensures n <= (if mtu > 3 then mtu - 3 else 20)
    ensures n == MaxPacket || n == (if mtu > 3 then mtu - 3 else 20)
  {
    var payload := if mtu > 3 then mtu - 3 else 20;
    if payload > MaxPacket then MaxPacket else payload
  }

  /** With the default ATT_MTU of 23 a notification carries 20 bytes. */
  lemma DefaultMtuCap()
    ensures PacketCap(DefaultMtu) == 20
  {
  }

  /** The packets of a reply: the whole reply when it fits, else consecutive slices of `n`. */
  function Chunks(s: string, n: nat): (r: seq<string>)
    requires n > 0
    ensures |r| > 0
    ensures |s| <= n ==> r == [s]
    decreases |s|
  {
    if |s| <= n then [s] else [s[..n]] + Chunks(s[n..], n)
  }

  /** The packets reassemble to the reply. */
  lemma {:induction false} ChunksConcat(s: string, n: nat)
    requires n > 0
    ensures Concat(Chunks(s, n)) == s
    decreases |s|
  {
    if |s| > n {
      var r := Chunks(s, n);
      assert r[1..] == Chunks(s[n..], n);
      ChunksConcat(s[n..], n);
      assert s == s[..n] + s[n..];
    }
  }

  /**
   * Every packet but the last is exactly `n` long, the last is at most `n`
   * long, and none is empty unless the reply is.
   */
  lemma {:induction false} ChunkSizes(s: string, n: nat)
    requires n > 0
    ensures forall i :: 0 <= i < |Chunks(s, n)| - 1 ==> |Chunks(s, n)[i]| == n
    ensures |Chunks(s, n)[|Chunks(s, n)| - 1]| <= n
    ensures s != [] ==> forall i :: 0 <= i < |Chunks(s, n)| ==> |Chunks(s, n)[i]| > 0
    decreases |s|
  {
    if |s| > n {
      var r := Chunks(s, n);
      var t := Chunks(s[n..], n);
      assert r == [s[..n]] + t;
      ChunkSizes(s[n..], n);
      forall i | 0 <= i < |r| - 1 ensures |r[i]| == n {
        if i > 0 { assert r[i] == t[i - 1]; }
      }
      forall i | 0 <= i < |r| ensures |r[i]| > 0 {
        if i > 0 { assert r[i] == t[i - 1]; }
      }
    }
  }

  /** A reply longer than `n` takes more than one packet, and the packets number ceil(|s| / n). */
  lemma {:induction false} ChunkCount(s: string, n: nat)
    requires n > 0
    ensures |s| > n ==> |Chunks(s, n)| > 1
    ensures (|Chunks(s, n)| - 1) * n < |s| || s == []
    ensures |s| <= |Chunks(s, n)| * n
    decreases |s|
  {
    if |s| > n {
      ChunkCount(s[n..], n);
      var k := |Chunks(s[n..], n)|;
      assert |Chunks(s, n)| == k + 1;
      assert (k + 1 - 1) * n == (k - 1) * n + n;
      assert (k + 1) * n == k * n + n;
    }
  }
}
