// HID messages queued by the USB manager and the rules by which
// `executeHIDCommand` turns one message into calls on the keyboard, mouse,
// gamepad and consumer-control devices. The device calls are recorded as
// actions; their effect on which keys and buttons are held is given by a
// small state so that the rules can be checked against what they achieve.

module UsbHid {
  import opened Bytes

  /** `HIDCommand`: the kinds of message the HID queue carries. */
  datatype HidCommand =
    | KeyboardPress | KeyboardHold | KeyboardRelease | KeyboardType
    | MouseMove | MousePress | MouseHold | MouseRelease | MouseScroll
    | GamepadPress | GamepadHold | GamepadRelease | GamepadButton
    | GamepadAxisRight | GamepadAxisLeft | SystemPower

  /** `HIDMessage`: one queued command with its arguments and enqueue time. */
  datatype HidMessage = HidMessage(
    command: HidCommand,
    key: byte,
    x: i16,
    y: i16,
    buttons: byte,
    text: string,
    timestamp: u32)

  /** Mouse button bits, as the Arduino mouse library numbers them. */
  const MouseLeft: byte := 0x01
  const MouseRight: byte := 0x02
  const MouseMiddle: byte := 0x04

  /** Bit of `buttons` that selects press over release for HID_GAMEPAD_BUTTON. */
  const GamepadPressedBit: byte := 0x80

  /** Consumer-control usage of the power key. */
  const ConsumerControlPower: nat := 0x30

  /** One call on a HID device, or the activity notification before it. */
  datatype HidAction =
    | NotifyActivity
    | KeyPress(key: byte)
    | KeyRelease(key: byte)
    | KeyReleaseAll
    | KeyPrint(text: string)
    | MouseMoveBy(dx: int, dy: int, wheel: int, pan: int)
    | MouseButtonPress(button: byte)
    | MouseButtonRelease(button: byte)
    | PadButtonPress(button: byte)
    | PadButtonRelease(button: byte)
    | PadRightStick(sx: int, sy: int)
    | PadLeftStick(sx: int, sy: int)
    | ConsumerPress(usage: nat)
    | ConsumerRelease

  /** True when bit `mask` (a power of two) is set in `b`. */
  predicate HasBit(b: byte, mask: nat)
    requires mask > 0
  {
    (b / mask) % 2 == 1
  }

  /**
   * `isValidKey`: every switch arm and the fall-through return true, so every
   * key code is accepted, with HID enabled or not.
   */
  function IsValidKey(key: byte, hidEnabled: bool): (r: bool)
    ensures r
  {
    if !hidEnabled then true
    else if 32 <= key <= 126 then true
    else if key in {0x08, 0x09, 0x0A, 0x0D, 0x1B, 0x20, 0x7F} then true
    else if 194 <= key <= 205 || 215 <= key <= 218 then true
    else true
  }

  /** `isValidMouseButton`: 1..7 when HID is enabled, anything otherwise. */
  function IsValidMouseButton(button: byte, hidEnabled: bool): (r: bool)
    ensures r <==> !hidEnabled || (button != 0 && button < 8)
  {
    if !hidEnabled then true else button > 0 && button <= 7
  }

  /** The scroll clamp: the int8 value nearest to `v`. */
  function ClampI8(v: int): (r: i8)
    ensures forall w: i8 :: Distance(r, v) <= Distance(w, v)
  {
    if v > 127 then 127 else if v < -128 then -128 else v
  }

  function Distance(a: int, b: int): nat
  {
    if a < b then b - a else a - b
  }

  /** Gamepad buttons are numbered 1..16. */
  predicate ValidPadButton(key: byte)
  {
    key != 0 && key <= 16
  }

  /** Mouse press: each selected button, in the order left, right, middle, is clicked. */
  function ClickButtons(buttons: byte): (r: seq<HidAction>)
  {
    (if HasBit(buttons, 1) then [MouseButtonPress(MouseLeft), MouseButtonRelease(MouseLeft)] else [])
    + (if HasBit(buttons, 2) then [MouseButtonPress(MouseRight), MouseButtonRelease(MouseRight)] else [])
    + (if HasBit(buttons, 4) then [MouseButtonPress(MouseMiddle), MouseButtonRelease(MouseMiddle)] else [])
  }

  /** Mouse hold: each selected button is pressed. */
  function PressButtons(buttons: byte): (r: seq<HidAction>)
  {
    (if HasBit(buttons, 1) then [MouseButtonPress(MouseLeft)] else [])
    + (if HasBit(buttons, 2) then [MouseButtonPress(MouseRight)] else [])
    + (if HasBit(buttons, 4) then [MouseButtonPress(MouseMiddle)] else [])
  }

  /** Mouse release: each selected button is released. */
  function ReleaseButtons(buttons: byte): (r: seq<HidAction>)
  {
    (if HasBit(buttons, 1) then [MouseButtonRelease(MouseLeft)] else [])
    + (if HasBit(buttons, 2) then [MouseButtonRelease(MouseRight)] else [])
    + (if HasBit(buttons, 4) then [MouseButtonRelease(MouseMiddle)] else [])
  }

  /**
   * The device calls of one command once the HID mutex is held (the switch).
   * Move and stick values are `int16_t` passed to the library's `int8_t`
   * parameters, so they wrap; only the scroll values are clamped.
   */
  function DeviceCalls(m: HidMessage): seq<HidAction>
  {
    match m.command
    case KeyboardPress =>
      if m.key == 0 then [] else [KeyPress(m.key), KeyRelease(m.key), KeyReleaseAll]
    case KeyboardHold =>
      if m.key == 0 then [] else [KeyPress(m.key)]
    case KeyboardRelease => [KeyRelease(m.key)]
    case KeyboardType => [KeyPrint(m.text)]
    case MouseMove => [MouseMoveBy(WrapI8(m.x), WrapI8(m.y), 0, 0)]
    case MousePress => ClickButtons(m.buttons)
    case MouseHold => PressButtons(m.buttons)
    case MouseRelease => ReleaseButtons(m.buttons)
    case MouseScroll => [MouseMoveBy(0, 0, ClampI8(m.y), ClampI8(m.x))]
    case GamepadPress =>
      if !ValidPadButton(m.key) then [] else [PadButtonPress(m.key), PadButtonRelease(m.key)]
    case GamepadHold =>
      if !ValidPadButton(m.key) then [] else [PadButtonPress(m.key)]
    case GamepadRelease =>
      if !ValidPadButton(m.key) then [] else [PadButtonRelease(m.key)]
    case GamepadButton =>
      if !ValidPadButton(m.key) then []
      else if HasBit(m.buttons, 0x80) then [PadButtonPress(m.key)]
      else [PadButtonRelease(m.key)]
    case GamepadAxisRight => [PadRightStick(WrapI8(m.x), WrapI8(m.y))]
    case GamepadAxisLeft => [PadLeftStick(WrapI8(m.x), WrapI8(m.y))]
    case SystemPower => [ConsumerPress(ConsumerControlPower), ConsumerRelease]
  }

  /**
   * `executeHIDCommand`: nothing happens when HID is disabled, the manager
   * is not initialised or the host is not connected; otherwise activity is
   * notified, and the device calls follow only if the mutex was obtained.
   */
  function Execute(m: HidMessage, hidEnabled: bool, initialized: bool, connected: bool,
                   lockTaken: bool): (r: seq<HidAction>)
    ensures !hidEnabled || !initialized || !connected ==> r == []
    ensures hidEnabled && initialized && connected ==>
      |r| >= 1 && r[0] == NotifyActivity && r[1..] == (if lockTaken then DeviceCalls(m) else [])
  {
    if !hidEnabled || !initialized || !connected then []
    else [NotifyActivity] + (if lockTaken then DeviceCalls(m) else [])
  }

  // ---------------------------------------------------------------------
  // What the device calls achieve

  /** Keys, mouse buttons and gamepad buttons currently held down. */
  datatype Held = Held(keys: set<byte>, mouse: set<byte>, pad: set<byte>)

  function Apply(h: Held, a: HidAction): Held
  {
    match a
    case KeyPress(k) => h.(keys := h.keys + {k})
    case KeyRelease(k) => h.(keys := h.keys - {k})
    case KeyReleaseAll => h.(keys := {})
    case MouseButtonPress(b) => h.(mouse := h.mouse + {b})
    case MouseButtonRelease(b) => h.(mouse := h.mouse - {b})
    case PadButtonPress(b) => h.(pad := h.pad + {b})
    case PadButtonRelease(b) => h.(pad := h.pad - {b})
    case _ => h
  }

  function ApplyAll(h: Held, acts: seq<HidAction>): Held
    decreases |acts|
  {
    if acts == [] then h else ApplyAll(Apply(h, acts[0]), acts[1..])
  }

  lemma {:induction false} ApplyAllConcat(h: Held, a: seq<HidAction>, b: seq<HidAction>)
    ensures ApplyAll(h, a + b) == ApplyAll(ApplyAll(h, a), b)
    decreases |a|
  {
    if a != [] {
      assert (a + b)[0] == a[0] && (a + b)[1..] == a[1..] + b;
      ApplyAllConcat(Apply(h, a[0]), a[1..], b);
    } else {
      assert a + b == b;
    }
  }

  /** The mouse buttons a `buttons` byte selects (bits 0x01, 0x02, 0x04). */
  function SelectedButtons(buttons: byte): (r: set<byte>)
    ensures r <= {MouseLeft, MouseRight, MouseMiddle}
    ensures MouseLeft in r <==> HasBit(buttons, 1)
    ensures MouseRight in r <==> HasBit(buttons, 2)
    ensures MouseMiddle in r <==> HasBit(buttons, 4)
  {
    (if HasBit(buttons, 1) then {MouseLeft} else {})
    + (if HasBit(buttons, 2) then {MouseRight} else {})
    + (if HasBit(buttons, 4) then {MouseMiddle} else {})
  }

  /** A key press is a full click: afterwards no key at all is held (releaseAll). */
  lemma KeyboardPressReleasesAll(h: Held, m: HidMessage)
    requires m.command == KeyboardPress && m.key != 0
    ensures ApplyAll(h, DeviceCalls(m)).keys == {}
    ensures ApplyAll(h, DeviceCalls(m)).mouse == h.mouse && ApplyAll(h, DeviceCalls(m)).pad == h.pad
  {
    var acts := DeviceCalls(m);
    assert acts == [KeyPress(m.key)] + ([KeyRelease(m.key)] + [KeyReleaseAll]);
    ApplyAllConcat(h, [KeyPress(m.key)], [KeyRelease(m.key)] + [KeyReleaseAll]);
    var h1 := Apply(h, KeyPress(m.key));
    ApplyAllConcat(h1, [KeyRelease(m.key)], [KeyReleaseAll]);
  }

  /** Key code 0 is never sent to the keyboard by a press or a hold. */
  lemma KeyZeroRejected(m: HidMessage)
    requires m.command in {KeyboardPress, KeyboardHold} && m.key == 0
    ensures forall i :: 0 <= i < |DeviceCalls(m)| ==> !DeviceCalls(m)[i].KeyPress?
  {
  }

  /** Hold then release of the same key leaves the other held keys as they were. */
  lemma KeyboardHoldThenRelease(h: Held, key: byte, t: u32)
    requires key != 0
    ensures var hold := HidMessage(KeyboardHold, key, 0, 0, 0, "", t);
      var release := HidMessage(KeyboardRelease, key, 0, 0, 0, "", t);
      ApplyAll(ApplyAll(h, DeviceCalls(hold)), DeviceCalls(release)).keys == h.keys - {key}
      && key in ApplyAll(h, DeviceCalls(hold)).keys
  {
    var hold := HidMessage(KeyboardHold, key, 0, 0, 0, "", t);
    var release := HidMessage(KeyboardRelease, key, 0, 0, 0, "", t);
    assert ApplyAll(h, DeviceCalls(hold)) == ApplyAll(Apply(h, KeyPress(key)), []);
    var h1 := Apply(h, KeyPress(key));
    assert ApplyAll(h1, DeviceCalls(release)) == ApplyAll(Apply(h1, KeyRelease(key)), []);
  }

  lemma Apply3(h: Held, a: seq<HidAction>, b: seq<HidAction>, c: seq<HidAction>)
    ensures ApplyAll(h, a + b + c) == ApplyAll(ApplyAll(ApplyAll(h, a), b), c)
  {
    ApplyAllConcat(h, a + b, c);
    ApplyAllConcat(h, a, b);
  }

  /**
   * Mouse hold presses exactly the selected buttons, mouse release lets go
   * of exactly them, and a mouse press (click) leaves them released.
   */
  lemma MouseButtonsEffect(h: Held, buttons: byte)
    ensures ApplyAll(h, PressButtons(buttons)) == h.(mouse := h.mouse + SelectedButtons(buttons))
    ensures ApplyAll(h, ReleaseButtons(buttons)) == h.(mouse := h.mouse - SelectedButtons(buttons))
    ensures ApplyAll(h, ClickButtons(buttons)) == h.(mouse := h.mouse - SelectedButtons(buttons))
  {
    MousePressEffect(h, buttons);
    MouseReleaseEffect(h, buttons);
    MouseClickEffect(h, buttons);
  }

  lemma MousePressEffect(h: Held, buttons: byte)
    ensures ApplyAll(h, PressButtons(buttons)) == h.(mouse := h.mouse + SelectedButtons(buttons))
  {
    var l := if HasBit(buttons, 1) then [MouseButtonPress(MouseLeft)] else [];
    var r := if HasBit(buttons, 2) then [MouseButtonPress(MouseRight)] else [];
    var m := if HasBit(buttons, 4) then [MouseButtonPress(MouseMiddle)] else [];
    Apply3(h, l, r, m);
  }

  lemma MouseReleaseEffect(h: Held, buttons: byte)
    ensures ApplyAll(h, ReleaseButtons(buttons)) == h.(mouse := h.mouse - SelectedButtons(buttons))
  {
    var l := if HasBit(buttons, 1) then [MouseButtonRelease(MouseLeft)] else [];
    var r := if HasBit(buttons, 2) then [MouseButtonRelease(MouseRight)] else [];
    var m := if HasBit(buttons, 4) then [MouseButtonRelease(MouseMiddle)] else [];
    Apply3(h, l, r, m);
  }

  lemma MouseClickEffect(h: Held, buttons: byte)
    ensures ApplyAll(h, ClickButtons(buttons)) == h.(mouse := h.mouse - SelectedButtons(buttons))
  {
    var lc := if HasBit(buttons, 1) then [MouseButtonPress(MouseLeft), MouseButtonRelease(MouseLeft)] else [];
    var rc := if HasBit(buttons, 2) then [MouseButtonPress(MouseRight), MouseButtonRelease(MouseRight)] else [];
    var mc := if HasBit(buttons, 4) then [MouseButtonPress(MouseMiddle), MouseButtonRelease(MouseMiddle)] else [];
    Apply3(h, lc, rc, mc);
    ClickOne(h, HasBit(buttons, 1), MouseLeft);
    ClickOne(ApplyAll(h, lc), HasBit(buttons, 2), MouseRight);
    ClickOne(ApplyAll(ApplyAll(h, lc), rc), HasBit(buttons, 4), MouseMiddle);
  }

  lemma ClickOne(h: Held, selected: bool, b: byte)
    ensures ApplyAll(h, if selected then [MouseButtonPress(b), MouseButtonRelease(b)] else [])
         == h.(mouse := if selected then h.mouse - {b} else h.mouse)
  {
    if selected {
      ApplyAllConcat(h, [MouseButtonPress(b)], [MouseButtonRelease(b)]);
      assert [MouseButtonPress(b), MouseButtonRelease(b)] == [MouseButtonPress(b)] + [MouseButtonRelease(b)];
    }
  }

  /**
   * HID_GAMEPAD_BUTTON presses the button when bit 0x80 is set and releases
   * it otherwise; a button outside 1..16 changes nothing.
   */
  lemma GamepadButtonEffect(h: Held, m: HidMessage)
    requires m.command == GamepadButton
    ensures !ValidPadButton(m.key) ==> ApplyAll(h, DeviceCalls(m)) == h
    ensures ValidPadButton(m.key) && HasBit(m.buttons, 0x80) ==>
      ApplyAll(h, DeviceCalls(m)) == h.(pad := h.pad + {m.key})
    ensures ValidPadButton(m.key) && !HasBit(m.buttons, 0x80) ==>
      ApplyAll(h, DeviceCalls(m)) == h.(pad := h.pad - {m.key})
  {
    if ValidPadButton(m.key) {
      assert ApplyAll(h, DeviceCalls(m)) == ApplyAll(Apply(h, DeviceCalls(m)[0]), []);
    }
  }

  /** Scrolling sends the clamped values as wheel (vertical) and pan (horizontal). */
  lemma ScrollClamped(m: HidMessage)
    requires m.command == MouseScroll
    ensures |DeviceCalls(m)| == 1 && DeviceCalls(m)[0].MouseMoveBy?
    ensures var a := DeviceCalls(m)[0];
      a.dx == 0 && a.dy == 0 && -128 <= a.wheel <= 127 && -128 <= a.pan <= 127
      && (-128 <= m.y <= 127 ==> a.wheel == m.y) && (-128 <= m.x <= 127 ==> a.pan == m.x)
  {
  }

  /** A value an `int16_t` to `int8_t` conversion can give for `v`: in range, and equal modulo 256. */
  predicate NarrowedFrom(r: int, v: int)
  {
    -128 <= r <= 127 && (r - v) % 0x100 == 0
  }

  /** Moves and stick positions are narrowed by wrap-around; in-range values pass unchanged. */
  lemma MoveAndSticksWrap(m: HidMessage)
    requires m.command == MouseMove || m.command == GamepadAxisRight || m.command == GamepadAxisLeft
    ensures |DeviceCalls(m)| == 1
    ensures m.command == MouseMove ==> var a := DeviceCalls(m)[0];
      a.MouseMoveBy? && a.wheel == 0 && a.pan == 0 && NarrowedFrom(a.dx, m.x) && NarrowedFrom(a.dy, m.y)
    ensures m.command == GamepadAxisRight ==> var a := DeviceCalls(m)[0];
      a.PadRightStick? && NarrowedFrom(a.sx, m.x) && NarrowedFrom(a.sy, m.y)
    ensures m.command == GamepadAxisLeft ==> var a := DeviceCalls(m)[0];
      a.PadLeftStick? && NarrowedFrom(a.sx, m.x) && NarrowedFrom(a.sy, m.y)
    ensures -128 <= m.x <= 127 && -128 <= m.y <= 127 ==>
      DeviceCalls(m)[0] in {MouseMoveBy(m.x, m.y, 0, 0), PadRightStick(m.x, m.y), PadLeftStick(m.x, m.y)}
  {
  }

  /** The same out-of-range value moves the pointer backwards but scrolls by the maximum. */
  lemma MoveWrapsWhereScrollClamps()
    ensures var move := HidMessage(MouseMove, 0, 200, 0, 0, "", 0);
      DeviceCalls(move) == [MouseMoveBy(-56, 0, 0, 0)]
    ensures var scroll := HidMessage(MouseScroll, 0, 200, 0, 0, "", 0);
      DeviceCalls(scroll) == [MouseMoveBy(0, 0, 0, 127)]
  {
  }
}
