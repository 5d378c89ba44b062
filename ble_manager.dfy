// The BLE manager: the queue that the write callback fills, the connection
// flags, the parse and dispatch of each queued command, and the
// notifications that carry the replies back.

module BleManager {
  import Seqs
  import opened Bytes
  import opened Wrappers
  import Config
  import Text
  import opened BleProtocol
  import Hid = UsbHid
  import UM = UsbManager
  import SM = StatusManager

  /** Capacity of the command queue (`xQueueCreate(QUEUE_SIZE_COMMANDS, …)`). */
  const CommandQueueCapacity: nat := Config.QueueSizeCommands

  /** A zero-wait `xQueueSend`: the message is appended unless the queue is full. */
  function Offer(q: seq<BleMessage>, m: BleMessage): (r: seq<BleMessage>)
    ensures |q| < CommandQueueCapacity ==> r == q + [m]
    ensures |q| >= CommandQueueCapacity ==> r == q
  {
    if |q| < CommandQueueCapacity then q + [m] else q
  }

  // ---------------------------------------------------------------------
  // What handling a command does

  /** The part of the USB manager its send methods consult. */
  datatype UsbView = UsbView(hidEnabled: bool, ready: bool, textCapacity: nat)

  /** The HID message each send method queues. */
  function HidMessageOf(req: HidRequest, textCapacity: nat, now: u32): Hid.HidMessage
    requires textCapacity > 0
  {
    match req
    case PressKey(k) => Hid.HidMessage(Hid.KeyboardPress, k, 0, 0, 0, "", now)
    case HoldKey(k) => Hid.HidMessage(Hid.KeyboardHold, k, 0, 0, 0, "", now)
    case ReleaseKey(k) => Hid.HidMessage(Hid.KeyboardRelease, k, 0, 0, 0, "", now)
    case TypeText(t) => Hid.HidMessage(Hid.KeyboardType, 0, 0, 0, 0, Text.BoundedCopy(t, textCapacity), now)
    case MoveMouse(x, y) => Hid.HidMessage(Hid.MouseMove, 0, x, y, 0, "", now)
    case PressMouse(b) => Hid.HidMessage(Hid.MousePress, 0, 0, 0, b, "", now)
    case HoldMouse(b) => Hid.HidMessage(Hid.MouseHold, 0, 0, 0, b, "", now)
    case ReleaseMouse(b) => Hid.HidMessage(Hid.MouseRelease, 0, 0, 0, b, "", now)
    case Scroll(x, y) => Hid.HidMessage(Hid.MouseScroll, 0, x, y, 0, "", now)
    case PadButton(b, p) => Hid.HidMessage(Hid.GamepadButton, b, 0, 0, if p then Hid.GamepadPressedBit else 0, "", now)
    case RightStick(x, y) => Hid.HidMessage(Hid.GamepadAxisRight, 0, x, y, 0, "", now)
    case LeftStick(x, y) => Hid.HidMessage(Hid.GamepadAxisLeft, 0, x, y, 0, "", now)
    case PowerKey => Hid.HidMessage(Hid.SystemPower, 0, 0, 0, 0, "", now)
  }

  /** The argument check of each send method: text must be non-empty, mouse buttons 1..7. */
  predicate Accepted(req: HidRequest)
  {
    match req
    case TypeText(t) => |Text.CStr(t)| > 0
    case PressMouse(b) => 1 <= b <= 7
    case HoldMouse(b) => 1 <= b <= 7
    case ReleaseMouse(b) => 1 <= b <= 7
    case _ => true
  }

  /** The result and the new HID queue of one send call. */
  function HidResult(req: HidRequest, usb: UsbView, q: seq<Hid.HidMessage>, now: u32): (r: (bool, seq<Hid.HidMessage>))
    requires usb.textCapacity > 0
    ensures !usb.hidEnabled ==> r == (true, q)
    ensures usb.hidEnabled ==> (r.0 <==> Accepted(req) && usb.ready && |q| < UM.QueueCapacity)
    ensures r.0 && usb.hidEnabled ==> r.1 == q + [HidMessageOf(req, usb.textCapacity, now)]
    ensures !r.0 ==> r.1 == q
  {
    if !usb.hidEnabled then (true, q)
    else UM.Push(q, HidMessageOf(req, usb.textCapacity, now), Accepted(req) && usb.ready)
  }

  /** The text a reply stands for, given the HID call's result. */
  function ReplyText(reply: Reply, ok: bool, replies: Replies): (t: string)
    ensures reply.FromHid? ==> t == (if ok then Config.BleCmdWasSuccessful else Config.BleCmdWasFailure)
    ensures reply.Fixed? ==> t == reply.text
    ensures reply.HelpText? ==> t == replies.help
    ensures reply.UnknownText? ==> t == replies.unknown
  {
    match reply
    case Fixed(t) => t
    case HelpText => replies.help
    case UnknownText => replies.unknown
    case FromHid => if ok then Config.BleCmdWasSuccessful else Config.BleCmdWasFailure
  }

  /** Whether replies can go out (connected, TX characteristic present) and the peer's MTU. */
  datatype Link = Link(up: bool, mtu: u16)

  /** The notifications `sendResponse` adds for `response`: none when the link is down. */
  function Notify(sent: seq<string>, link: Link, response: string): (r: seq<string>)
    ensures !link.up ==> r == sent
    ensures link.up ==> |r| > |sent| && r[..|sent|] == sent && Concat(r[|sent|..]) == Text.CStr(response)
  {
    var packets := Chunks(Text.CStr(response), PacketCap(link.mtu));
    ChunksConcat(Text.CStr(response), PacketCap(link.mtu));
    assert (sent + packets)[|sent|..] == packets;
    if link.up then sent + packets else sent
  }

  /** Cutting the next packet off the unsent part of a reply. */
  lemma ChunksStep(text: string, offset: nat, cap: nat)
    requires cap > 0 && offset + cap < |text|
    ensures Chunks(text[offset..], cap) == [text[offset..offset + cap]] + Chunks(text[offset + cap..], cap)
  {
    assert text[offset..][..cap] == text[offset..offset + cap];
    assert text[offset..][cap..] == text[offset + cap..];
  }

  /** The notifications sent, the HID and status queues, and the SBC power requests made so far. */
  datatype World = World(sent: seq<string>, hidQueue: seq<Hid.HidMessage>, statusQueue: seq<SM.StatusMessage>, sbcRequests: seq<bool>)

  /** `handleCommand` on a parsed message; `hasStatus` says whether a status manager exists. */
  function Handle(w: World, m: BleMessage, usb: UsbView, hasStatus: bool, link: Link, now: u32, info: InfoTexts, replies: Replies): World
    requires usb.textCapacity > 0
  {
    var p := Dispatch(m.command, m.fields, info);
    var hid := if p.hid.Some? then HidResult(p.hid.value, usb, w.hidQueue, now) else (true, w.hidQueue);
    World(
      Notify(w.sent, link, ReplyText(p.reply, hid.0, replies)),
      hid.1,
      if hasStatus && p.status.Some? then SM.Enqueue(w.statusQueue, SM.StatusMessage(p.status.value.0, now, p.status.value.1))
      else w.statusQueue,
      w.sbcRequests + (if p.sbcPower.Some? then [p.sbcPower.value] else []))
  }

  /** `processCommands`: every queued message, oldest first, parsed from its raw text and handled. */
  function HandleAll(w: World, msgs: seq<BleMessage>, usb: UsbView, hasStatus: bool, link: Link, now: u32, info: InfoTexts, replies: Replies): World
    requires usb.textCapacity > 0
    decreases |msgs|, 1
  {
    if msgs == [] then w else HandleLast(w, msgs, usb, hasStatus, link, now, info, replies)
  }

  /** The drain of a non-empty queue: all but the last message, then the last. */
  function HandleLast(w: World, msgs: seq<BleMessage>, usb: UsbView, hasStatus: bool, link: Link, now: u32, info: InfoTexts, replies: Replies): World
    requires usb.textCapacity > 0 && msgs != []
    decreases |msgs|, 0
  {
    Handle(HandleAll(w, msgs[..|msgs| - 1], usb, hasStatus, link, now, info, replies), Parse(msgs[|msgs| - 1].rawData, now),
           usb, hasStatus, link, now, info, replies)
  }

  /** The SBC power request a command makes: on for POWER_ON, off for POWER_OFF and SHUTDOWN. */
  function SbcRequestOf(cmd: BleCommand): seq<bool>
  {
    if cmd == PowerOn then [true] else if cmd == PowerOff || cmd == Shutdown then [false] else []
  }

  /**
   * Handling one command: with the link up the reply goes out as packets
   * that reassemble to it, and with the link down nothing is sent; the
   * queues never exceed their capacities; and SBC power is requested only
   * by POWER_ON (on), POWER_OFF and SHUTDOWN (off).
   */
  lemma HandleEffects(w: World, m: BleMessage, usb: UsbView, hasStatus: bool, link: Link, now: u32, info: InfoTexts, replies: Replies)
    requires usb.textCapacity > 0
    requires |w.hidQueue| <= UM.QueueCapacity && |w.statusQueue| <= SM.StatusQueueLength
    ensures var r := Handle(w, m, usb, hasStatus, link, now, info, replies);
      && |r.hidQueue| <= UM.QueueCapacity && |r.statusQueue| <= SM.StatusQueueLength
      && (!link.up ==> r.sent == w.sent)
      && (link.up ==> |r.sent| > |w.sent| && r.sent[..|w.sent|] == w.sent)
      && r.sbcRequests == w.sbcRequests + SbcRequestOf(m.command)
  {
    DispatchSbcPower(m.command, m.fields, info);
  }

  /**
   * A message that is not a HID command leaves the HID queue alone, and
   * one without a status leaves the status queue alone.
   */
  lemma HandleQueuesUntouched(w: World, m: BleMessage, usb: UsbView, hasStatus: bool, link: Link, now: u32, info: InfoTexts, replies: Replies)
    requires usb.textCapacity > 0
    ensures Arity(m.command) == 0 ==> Handle(w, m, usb, hasStatus, link, now, info, replies).hidQueue == w.hidQueue
    ensures !hasStatus ==> Handle(w, m, usb, hasStatus, link, now, info, replies).statusQueue == w.statusQueue
    ensures Arity(m.command) > 0 ==> Handle(w, m, usb, hasStatus, link, now, info, replies).statusQueue == w.statusQueue
  {
    var p := Dispatch(m.command, m.fields, info);
    if Arity(m.command) > 0 {
      DispatchArity(m.command, m.fields, info);
      assert p.status.None?;
    } else {
      assert p.hid.None?;
    }
  }

  /**
   * Draining the queue keeps both queues within capacity, sends at least
   * one notification per command while the link is up and none while it
   * is down, and only ever extends what was sent.
   */
  lemma {:induction false} HandleAllEffects(w: World, msgs: seq<BleMessage>, usb: UsbView, hasStatus: bool, link: Link, now: u32, info: InfoTexts, replies: Replies)
    requires usb.textCapacity > 0
    requires |w.hidQueue| <= UM.QueueCapacity && |w.statusQueue| <= SM.StatusQueueLength
    ensures var r := HandleAll(w, msgs, usb, hasStatus, link, now, info, replies);
      && |r.hidQueue| <= UM.QueueCapacity && |r.statusQueue| <= SM.StatusQueueLength
      && |r.sent| >= |w.sent| && r.sent[..|w.sent|] == w.sent
      && (!link.up ==> r.sent == w.sent)
      && (link.up ==> |r.sent| >= |w.sent| + |msgs|)
    decreases |msgs|
  {
    if msgs != [] {
      var init := msgs[..|msgs| - 1];
      HandleAllEffects(w, init, usb, hasStatus, link, now, info, replies);
      var mid := HandleAll(w, init, usb, hasStatus, link, now, info, replies);
      HandleEffects(mid, Parse(msgs[|msgs| - 1].rawData, now), usb, hasStatus, link, now, info, replies);
      var r := HandleAll(w, msgs, usb, hasStatus, link, now, info, replies);
      assert r.sent[..|mid.sent|] == mid.sent;
      assert r.sent[..|w.sent|] == mid.sent[..|w.sent|];
    }
  }

  /** Handling one more queued message extends the drain by one step. */
  lemma HandleAllSnoc(w: World, done: seq<BleMessage>, next: BleMessage, usb: UsbView, hasStatus: bool, link: Link, now: u32, info: InfoTexts, replies: Replies)
    requires usb.textCapacity > 0
    ensures HandleAll(w, done + [next], usb, hasStatus, link, now, info, replies)
         == Handle(HandleAll(w, done, usb, hasStatus, link, now, info, replies), Parse(next.rawData, now), usb, hasStatus, link, now, info, replies)
  {
    assert (done + [next])[..|done|] == done;
  }

  /** Taking the head of the rest of a queue moves it to the end of what is done. */
  lemma QueueStep<T>(q0: seq<T>, done: seq<T>, rest: seq<T>)
    requires rest != [] && q0 == done + rest
    ensures q0 == (done + [rest[0]]) + rest[1..]
  {
    assert rest == [rest[0]] + rest[1..];
  }

  function OptionSeq(o: Option<bool>): (r: seq<bool>)
    ensures o.None? ==> r == []
    ensures o.Some? ==> r == [o.value]
  {
    if o.Some? then [o.value] else []
  }

  // ---------------------------------------------------------------------
  // The manager

  /** The view of a USB manager that `HidResult` needs. */
  function UsbViewOf(usb: UM.UsbManager): (v: UsbView)
    reads usb`initialized, usb`queueCreated
    ensures v.textCapacity == usb.textCapacity
  {
    UsbView(usb.hidEnabled, usb.initialized && usb.queueCreated, usb.textCapacity)
  }

  /** The status queue, or none when there is no status manager. */
  function StatusQueueOf(status: SM.StatusManager?): seq<SM.StatusMessage>
    reads if status == null then {} else {status}
  {
    if status == null then [] else status.queue
  }

  class BleManager {
    /** The command queue's contents, oldest first. */
    var commandQueue: seq<BleMessage>
    /** `commandQueue != nullptr` */
    var queueCreated: bool
    /** `bleMutex != nullptr` */
    var mutexCreated: bool
    /** `pTxCharacteristic != nullptr` */
    var txReady: bool
    var deviceConnected: bool
    var oldDeviceConnected: bool
    /** How many times advertising has been started. */
    var advertisingStarts: nat
    /** Every notification sent, in order. */
    var sent: seq<string>
    /** The help and unknown-command reply texts. */
    const replies: Replies

    ghost predicate Valid()
      reads this
    {
      |commandQueue| <= CommandQueueCapacity && (!queueCreated ==> commandQueue == [])
    }

    function LinkOf(mtu: u16): Link
      reads this`deviceConnected, this`txReady
    {
      Link(deviceConnected && txReady, mtu)
    }

    constructor()
      ensures Valid()
      ensures commandQueue == [] && !queueCreated && !mutexCreated && !txReady
      ensures !deviceConnected && !oldDeviceConnected && advertisingStarts == 0 && sent == []
      ensures replies == HeaderReplies
    {
      replies := HeaderReplies;
      commandQueue := [];
      queueCreated := false;
      mutexCreated := false;
      txReady := false;
      deviceConnected := false;
      oldDeviceConnected := false;
      advertisingStarts := 0;
      sent := [];
    }

    /**
     * `begin`: a failed queue creation stops before the mutex; a failed
     * mutex creation stops before the BLE stack. On success the TX
     * characteristic exists and advertising starts.
     */
    method Begin(queueOk: bool, mutexOk: bool) returns (ok: bool)
      modifies this
      ensures Valid()
      ensures ok == (queueOk && mutexOk)
      ensures queueCreated == queueOk && commandQueue == []
      ensures mutexCreated == (if queueOk then mutexOk else old(mutexCreated))
      ensures txReady == (ok || old(txReady))
      ensures advertisingStarts == old(advertisingStarts) + (if ok then 1 else 0)
      ensures deviceConnected == old(deviceConnected) && oldDeviceConnected == old(oldDeviceConnected)
      ensures sent == old(sent)
    {
      commandQueue := [];
      queueCreated := queueOk;
      if !queueOk {
        return false;
      }
      mutexCreated := mutexOk;
      if !mutexOk {
        return false;
      }
      txReady := true;
      advertisingStarts := advertisingStarts + 1;
      ok := true;
    }

    method OnConnect()
      modifies this`deviceConnected
      ensures deviceConnected
    {
      deviceConnected := true;
    }

    method OnDisconnect()
      modifies this`deviceConnected
      ensures !deviceConnected
    {
      deviceConnected := false;
    }

    /**
     * `CharacteristicCallbacks::onWrite`: a value of 1 to 127 characters
     * counts as activity and is queued (if there is room) as raw text, with
     * the command left at HELP until it is parsed; any other length is
     * ignored. The callback exists only once `begin` has made the queue.
     */
    method OnWrite(value: string, now: u32) returns (activity: bool)
      requires Valid() && queueCreated
      modifies this`commandQueue
      ensures Valid()
      ensures activity <==> 0 < |value| < RawDataSize
      ensures commandQueue == if activity then Offer(old(commandQueue), BleMessage(Help, Text.BoundedCopy(value, RawDataSize), [], now))
                              else old(commandQueue)
    {
      activity := 0 < |value| < RawDataSize;
      if activity {
        var message := BleMessage(Help, Text.BoundedCopy(value, RawDataSize), [], now);
        if |commandQueue| < CommandQueueCapacity {
          commandQueue := commandQueue + [message];
        }
      }
    }

    /**
     * `sendResponse`: refused when not connected or without a TX
     * characteristic; otherwise one notification when the reply fits the
     * packet size, else consecutive slices of that size.
     */
    method SendResponse(response: string, mtu: u16) returns (ok: bool)
      modifies this`sent
      ensures ok == (deviceConnected && txReady)
      ensures sent == Notify(old(sent), LinkOf(mtu), response)
    {
      if !deviceConnected || !txReady {
        return false;
      }
      var cap := PacketCap(mtu);
      var text := Text.CStr(response);
      if |text| <= cap {
        sent := sent + [text];
      } else {
        var offset := 0;
        while offset < |text|
          invariant 0 <= offset <= |text|
          invariant offset < |text| ==> sent + Chunks(text[offset..], cap) == old(sent) + Chunks(text, cap)
          invariant offset == |text| ==> sent == old(sent) + Chunks(text, cap)
          decreases |text| - offset
        {
          var size := if |text| - offset > cap then cap else |text| - offset;
          if |text| - offset > cap {
            ChunksStep(text, offset, cap);
            assert (sent + [text[offset..offset + size]]) + Chunks(text[offset + size..], cap)
                == sent + Chunks(text[offset..], cap);
          } else {
            assert text[offset..offset + size] == text[offset..];
          }
          sent := sent + [text[offset..offset + size]];
          offset := offset + size;
        }
      }
      ok := true;
    }

    /**
     * `parseDataComponents`: `strtok` on `:` for the keyword, then
     * `strtok` on `|` over the rest of the text for at most seven data
     * fields, each cut to 31 characters.
     */
    method ParseDataComponents(data: string) returns (fields: seq<string>)
      ensures fields == Fields(data)
    {
      var buffer := Text.BoundedCopy(data, RawDataSize);
      var head := Text.Strtok(buffer, Config.BleCmdPartSeparator);
      if head.None? {
        fields := [Text.BoundedCopy(data, FieldSize)];
      } else {
        var values := [];
        if head.value.1 != [] {
          values := ParseDataPart(head.value.1);
        }
        fields := [Text.BoundedCopy(head.value.0, FieldSize)] + values;
      }
    }

    /** The `|` loop of `parseDataComponents`, field 0 already taken. */
    method ParseDataPart(rest: string) returns (values: seq<string>)
      ensures values == CopyFields(DataTokens(rest))
    {
      values := [];
      var dataCount := 1;
      var remaining := rest;
      var token := Text.Strtok(remaining, Config.BleCmdDataSeparator);
      ghost var taken: seq<string> := [];
      while token.Some? && dataCount < MaxFields
        invariant dataCount == |taken| + 1 <= MaxFields
        invariant values == CopyFields(taken)
        invariant token == Text.Strtok(remaining, Config.BleCmdDataSeparator)
        invariant Text.Tokens(rest, Config.BleCmdDataSeparator) == taken + Text.Tokens(remaining, Config.BleCmdDataSeparator)
        decreases |remaining|
      {
        var t := token.value.0;
        Text.TokensAfter(rest, taken, remaining, Config.BleCmdDataSeparator);
        CopyFieldsSnoc(taken, t);
        values := values + [Text.BoundedCopy(t, FieldSize)];
        dataCount := dataCount + 1;
        taken := taken + [t];
        remaining := token.value.1;
        token := Text.Strtok(remaining, Config.BleCmdDataSeparator);
      }
      DataTokensTaken(rest, taken, remaining);
    }

    /**
     * `parseCommand`: the first 127 characters, trimmed of trailing
     * `\n`, `\r` and spaces, are split into fields and field 0 is looked up
     * in the keyword table, first match winning.
     */
    method ParseCommand(data: string, now: u32) returns (message: BleMessage)
      ensures message == Parse(data, now)
    {
      var clean := TrimData(data);
      var rawData := Text.BoundedCopy(data, RawDataSize);
      var fields := ParseDataComponents(clean);
      var command := LookupName(fields[0]);
      message := BleMessage(command, rawData, fields, now);
    }

    /** The copy of `data` into `cleanData`, then the loop that cuts trailing blanks. */
    method TrimData(data: string) returns (clean: string)
      ensures clean == Clean(data)
    {
      var cleanData := Text.BoundedCopy(data, RawDataSize);
      var len := |cleanData|;
      Seqs.PrefixWhole(cleanData);
      while len > 0 && IsTrailingBlank(cleanData[len - 1])
        invariant 0 <= len <= |cleanData|
        invariant TrimTrailing(cleanData[..len]) == TrimTrailing(cleanData)
        decreases len
      {
        Seqs.PrefixOfPrefix(cleanData, len - 1, len);
        len := len - 1;
      }
      clean := cleanData[..len];
    }

    /** The scan of `commandMap` for the first entry whose keyword is `name`. */
    method LookupName(name: string) returns (command: BleCommand)
      ensures command == Lookup(name)
    {
      var i := 0;
      while i < |CommandMap| && CommandMap[i].0 != name
        invariant 0 <= i <= |CommandMap|
        invariant LookupIn(CommandMap[i..], name) == Lookup(name)
        decreases |CommandMap| - i
      {
        LookupInSkip(CommandMap, i, name);
        i := i + 1;
      }
      assert CommandMap[i..] != [] ==> CommandMap[i..][0] == CommandMap[i];
      command := if i < |CommandMap| then CommandMap[i].1 else Unknown;
    }

    /** One HID call on the USB manager. */
    method SendHid(req: HidRequest, usb: UM.UsbManager, now: u32) returns (ok: bool)
      requires usb.Valid()
      modifies usb`hidQueue
      ensures usb.Valid()
      ensures (ok, usb.hidQueue) == HidResult(req, UsbViewOf(usb), old(usb.hidQueue), now)
    {
      match req
      case PressKey(k) => ok := usb.SendKeyPress(k, now);
      case HoldKey(k) => ok := usb.SendKeyHold(k, now);
      case ReleaseKey(k) => ok := usb.SendKeyRelease(k, now);
      case TypeText(t) => ok := usb.TypeText(t, now);
      case MoveMouse(x, y) => ok := usb.SendMouseMove(x, y, now);
      case PressMouse(b) => ok := usb.SendMousePress(b, now);
      case HoldMouse(b) => ok := usb.SendMouseHold(b, now);
      case ReleaseMouse(b) => ok := usb.SendMouseRelease(b, now);
      case Scroll(x, y) => ok := usb.SendMouseScroll(x, y, now);
      case PadButton(b, p) => ok := usb.SendGamepadButton(b, p, now);
      case RightStick(x, y) => ok := usb.SendGamepadRightAxis(x, y, now);
      case LeftStick(x, y) => ok := usb.SendGamepadLeftAxis(x, y, now);
      case PowerKey => ok := usb.SendSystemPowerKey(now);
    }

    /**
     * `handleCommand`: the `switch` picks the plan (`Dispatch`); the SBC
     * power request is returned (the power manager's `trySetSBCPower` has
     * no body here), the status goes to the status manager when there is
     * one, the HID call goes to the USB manager, and the reply is sent.
     */
    method HandleCommand(message: BleMessage, usb: UM.UsbManager, status: SM.StatusManager?, mtu: u16, now: u32, info: InfoTexts,
                         ghost requests: seq<bool>, ghost view: UsbView, ghost link: Link)
      returns (sbcPower: Option<bool>)
      requires usb.Valid() && UsbViewOf(usb) == view && LinkOf(mtu) == link
      modifies this`sent, usb`hidQueue, status
      ensures usb.Valid() && UsbViewOf(usb) == view && LinkOf(mtu) == link
      ensures World(sent, usb.hidQueue, StatusQueueOf(status), requests + OptionSeq(sbcPower))
           == Handle(World(old(sent), old(usb.hidQueue), old(StatusQueueOf(status)), requests), message,
                     view, status != null, link, now, info, replies)
    {
      var plan := Dispatch(message.command, message.fields, info);
      sbcPower := plan.sbcPower;
      if plan.status.Some? && status != null {
        status.SetStatus(plan.status.value.0, plan.status.value.1, now);
      }
      var ok := true;
      if plan.hid.Some? {
        ok := SendHid(plan.hid.value, usb, now);
      }
      var reply := ReplyText(plan.reply, ok, replies);
      var delivered := SendResponse(reply, mtu);
    }

    /**
     * One turn of the drain: the queued text is parsed again and handled,
     * which extends the drain of the messages `done` so far by one.
     */
    method ProcessOne(next: BleMessage, usb: UM.UsbManager, status: SM.StatusManager?, mtu: u16, now: u32, info: InfoTexts,
                      ghost w0: World, ghost done: seq<BleMessage>, ghost requests: seq<bool>, ghost view: UsbView, ghost link: Link)
      returns (sbcPower: Option<bool>)
      requires usb.Valid() && UsbViewOf(usb) == view && LinkOf(mtu) == link
      requires World(sent, usb.hidQueue, StatusQueueOf(status), requests)
            == HandleAll(w0, done, view, status != null, link, now, info, replies)
      modifies this`sent, usb`hidQueue, status
      ensures usb.Valid() && UsbViewOf(usb) == view && LinkOf(mtu) == link
      ensures World(sent, usb.hidQueue, StatusQueueOf(status), requests + OptionSeq(sbcPower))
           == HandleAll(w0, done + [next], view, status != null, link, now, info, replies)
    {
      var message := ParseCommand(next.rawData, now);
      sbcPower := HandleCommand(message, usb, status, mtu, now, info, requests, view, link);
      HandleAllSnoc(w0, done, next, view, status != null, link, now, info, replies);
    }

    /** `processCommands`: drains the queue, parsing and handling each message in order. */
    method ProcessCommands(usb: UM.UsbManager, status: SM.StatusManager?, mtu: u16, now: u32, info: InfoTexts)
      returns (sbcRequests: seq<bool>)
      requires Valid() && usb.Valid()
      modifies this`commandQueue, this`sent, usb`hidQueue, status
      ensures Valid() && usb.Valid() && commandQueue == [] && UsbViewOf(usb) == old(UsbViewOf(usb))
      ensures World(sent, usb.hidQueue, StatusQueueOf(status), sbcRequests)
           == HandleAll(World(old(sent), old(usb.hidQueue), old(StatusQueueOf(status)), []), old(commandQueue),
                        UsbViewOf(usb), status != null, LinkOf(mtu), now, info, replies)
    {
      ghost var w0 := World(sent, usb.hidQueue, StatusQueueOf(status), []);
      ghost var view, link := UsbViewOf(usb), LinkOf(mtu);
      ghost var done: seq<BleMessage> := [];
      sbcRequests := [];
      while commandQueue != []
        invariant old(commandQueue) == done + commandQueue
        invariant usb.Valid() && UsbViewOf(usb) == view && LinkOf(mtu) == link
        invariant World(sent, usb.hidQueue, StatusQueueOf(status), sbcRequests)
               == HandleAll(w0, done, view, status != null, link, now, info, replies)
        decreases |commandQueue|
      {
        var next := commandQueue[0];
        QueueStep(old(commandQueue), done, commandQueue);
        commandQueue := commandQueue[1..];
        var sbc := ProcessOne(next, usb, status, mtu, now, info, w0, done, sbcRequests, view, link);
        sbcRequests := sbcRequests + OptionSeq(sbc);
        done := done + [next];
      }
      assert done + [] == done;
    }

    /**
     * `update`: a change of the connection flag is noted, and a
     * disconnection restarts advertising; then the queue is drained.
     */
    method Update(usb: UM.UsbManager, status: SM.StatusManager?, mtu: u16, now: u32, info: InfoTexts)
      returns (sbcRequests: seq<bool>)
      requires Valid() && usb.Valid()
      modifies this`oldDeviceConnected, this`advertisingStarts, this`commandQueue, this`sent, usb`hidQueue, status
      ensures Valid() && usb.Valid() && commandQueue == []
      ensures oldDeviceConnected == deviceConnected
      ensures advertisingStarts == old(advertisingStarts)
        + (if deviceConnected != old(oldDeviceConnected) && !deviceConnected then 1 else 0)
      ensures World(sent, usb.hidQueue, StatusQueueOf(status), sbcRequests)
           == HandleAll(World(old(sent), old(usb.hidQueue), old(StatusQueueOf(status)), []), old(commandQueue),
                        UsbViewOf(usb), status != null, LinkOf(mtu), now, info, replies)
    {
      NoteConnection();
      sbcRequests := ProcessCommands(usb, status, mtu, now, info);
    }

    /** The connection-change check at the top of `update`. */
    method NoteConnection()
      modifies this`oldDeviceConnected, this`advertisingStarts
      ensures oldDeviceConnected == deviceConnected
      ensures advertisingStarts == old(advertisingStarts)
        + (if deviceConnected != old(oldDeviceConnected) && !deviceConnected then 1 else 0)
    {
      if deviceConnected != oldDeviceConnected {
        if !deviceConnected {
          advertisingStarts := advertisingStarts + 1;
        }
        oldDeviceConnected := deviceConnected;
      }
    }
  }
}
