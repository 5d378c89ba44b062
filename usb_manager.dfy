// The USB manager: the host-connection flag, the bounded HID command queue
// that the BLE side fills and the USB task drains, and the single-slot
// mailbox that holds the vendor response staged by a SET_REPORT until the
// next GET_REPORT collects it.

module UsbManager {
  import Seqs
  import opened Bytes
  import opened Wrappers
  import opened UsbHid
  import Config
  import Text
  import VP = VendorProtocol

  /** Capacity of the HID queue (`xQueueCreate(10, …)`). */
  const QueueCapacity: nat := Config.QueueSizeCommands

  /** `arduino_usb_event_t` as far as `handleUSBEvent` distinguishes it. */
  datatype UsbEvent = Started | Stopped | Suspend | Resume | OtherEvent(code: int)

  /**
   * `handleUSBEvent`: STARTED and RESUME mean connected, STOPPED means
   * disconnected, SUSPEND and anything else keep the flag; with HID
   * disabled the event is ignored.
   */
  function NextConnected(connected: bool, e: UsbEvent, hidEnabled: bool): (r: bool)
    ensures !hidEnabled ==> r == connected
    ensures hidEnabled && (e.Started? || e.Resume?) ==> r
    ensures hidEnabled && e.Stopped? ==> !r
    ensures e.Suspend? || e.OtherEvent? ==> r == connected
  {
    if !hidEnabled then connected
    else match e
      case Started => true
      case Stopped => false
      case Resume => true
      case _ => connected
  }

  /**
   * A zero-wait `xQueueSend`: an admitted message is appended unless the
   * queue is full; otherwise the queue is unchanged. The flag is the result.
   */
  function Push(q: seq<HidMessage>, m: HidMessage, admitted: bool): (r: (bool, seq<HidMessage>))
    ensures r.0 <==> admitted && |q| < QueueCapacity
    ensures r.0 ==> r.1 == q + [m] && r.1[|q|] == m
    ensures !r.0 ==> r.1 == q
  {
    if admitted && |q| < QueueCapacity then (true, q + [m]) else (false, q)
  }

  /** Whether the command at position `k` of a drain obtained the HID mutex. */
  predicate LockTaken(lockFailed: set<nat>, k: nat)
  {
    k !in lockFailed
  }

  /**
   * The device calls of draining `q` in order; `lockFailed` holds the
   * positions, counted from the start of the drain, of the commands that
   * did not obtain the HID mutex within its timeout.
   */
  function ExecuteAll(q: seq<HidMessage>, hidEnabled: bool, initialized: bool, connected: bool,
                      lockFailed: set<nat>, k: nat): seq<HidAction>
    decreases |q|
  {
    if q == [] then []
    else Execute(q[0], hidEnabled, initialized, connected, LockTaken(lockFailed, k))
         + ExecuteAll(q[1..], hidEnabled, initialized, connected, lockFailed, k + 1)
  }

  /** Draining is first in, first out: a message pushed last is executed last. */
  lemma {:induction false} ExecuteAllSnoc(q: seq<HidMessage>, m: HidMessage, hidEnabled: bool,
                                           initialized: bool, connected: bool,
                                           lockFailed: set<nat>, k: nat)
    ensures ExecuteAll(q + [m], hidEnabled, initialized, connected, lockFailed, k)
         == ExecuteAll(q, hidEnabled, initialized, connected, lockFailed, k)
            + Execute(m, hidEnabled, initialized, connected, LockTaken(lockFailed, k + |q|))
    decreases |q|
  {
    if q == [] {
      assert [] + [m] == [m];
      assert [m][1..] == [];
    } else {
      assert (q + [m])[0] == q[0] && (q + [m])[1..] == q[1..] + [m];
      ExecuteAllSnoc(q[1..], m, hidEnabled, initialized, connected, lockFailed, k + 1);
      assert k + 1 + |q[1..]| == k + |q|;
      Seqs.AppendAssoc(Execute(q[0], hidEnabled, initialized, connected, LockTaken(lockFailed, k)),
                       ExecuteAll(q[1..], hidEnabled, initialized, connected, lockFailed, k + 1),
                       Execute(m, hidEnabled, initialized, connected, LockTaken(lockFailed, k + |q|)));
    }
  }

  /** One turn of the drain loop: executing the next message extends the log by its calls. */
  lemma DrainStep(q0: seq<HidMessage>, k: nat, a0: seq<HidAction>, acts: seq<HidAction>,
                  hidEnabled: bool, initialized: bool, connected: bool, lockFailed: set<nat>)
    requires k < |q0| && acts == a0 + ExecuteAll(q0[..k], hidEnabled, initialized, connected, lockFailed, 0)
    ensures q0[k..][1..] == q0[k + 1..]
    ensures acts + Execute(q0[k], hidEnabled, initialized, connected, LockTaken(lockFailed, k))
         == a0 + ExecuteAll(q0[..k + 1], hidEnabled, initialized, connected, lockFailed, 0)
  {
    assert q0[..k + 1] == q0[..k] + [q0[k]];
    LogSnoc(q0[..k], q0[k], a0, hidEnabled, initialized, connected, lockFailed);
  }

  lemma LogSnoc(pre: seq<HidMessage>, m: HidMessage, a0: seq<HidAction>,
                hidEnabled: bool, initialized: bool, connected: bool, lockFailed: set<nat>)
    ensures a0 + ExecuteAll(pre, hidEnabled, initialized, connected, lockFailed, 0)
            + Execute(m, hidEnabled, initialized, connected, LockTaken(lockFailed, |pre|))
         == a0 + ExecuteAll(pre + [m], hidEnabled, initialized, connected, lockFailed, 0)
  {
    var done := ExecuteAll(pre, hidEnabled, initialized, connected, lockFailed, 0);
    var last := Execute(m, hidEnabled, initialized, connected, LockTaken(lockFailed, |pre|));
    ExecuteAllSnoc(pre, m, hidEnabled, initialized, connected, lockFailed, 0);
    assert ExecuteAll(pre + [m], hidEnabled, initialized, connected, lockFailed, 0) == done + last;
    Seqs.AppendAssoc(a0, done, last);
  }

  /** Messages are drained in the order they were pushed, with nothing lost or reordered. */
  lemma {:induction false} ExecuteAllConcat(a: seq<HidMessage>, b: seq<HidMessage>, hidEnabled: bool,
                                             initialized: bool, connected: bool,
                                             lockFailed: set<nat>, k: nat)
    ensures ExecuteAll(a + b, hidEnabled, initialized, connected, lockFailed, k)
         == ExecuteAll(a, hidEnabled, initialized, connected, lockFailed, k)
            + ExecuteAll(b, hidEnabled, initialized, connected, lockFailed, k + |a|)
    decreases |a|
  {
    if a == [] {
      assert a + b == b;
    } else {
      assert (a + b)[0] == a[0] && (a + b)[1..] == a[1..] + b;
      ExecuteAllConcat(a[1..], b, hidEnabled, initialized, connected, lockFailed, k + 1);
      assert k + 1 + |a[1..]| == k + |a|;
      Seqs.AppendAssoc(Execute(a[0], hidEnabled, initialized, connected, LockTaken(lockFailed, k)),
                  ExecuteAll(a[1..], hidEnabled, initialized, connected, lockFailed, k + 1),
                  ExecuteAll(b, hidEnabled, initialized, connected, lockFailed, k + |a|));
    }
  }

  /**
   * `buildStatusPayload`, from the readings already converted to integer
   * mV, mA and mW: the uptime and both time estimates go from ms to s.
   */
  function BuildStatusPayload(batteryMv: u16, batteryMa: i16, chargerMv: u16, chargerMa: i16,
                              chargerMw: u16, chargerConnected: bool, percentage: byte,
                              nowMs: u32, toFullyDischargeMs: u32, toFullyChargeMs: u32)
    : (p: VP.StatusPayload)
    ensures p.uptimeSeconds * 1000 <= nowMs < (p.uptimeSeconds + 1) * 1000
    ensures p.toFullyChargeS * 1000 <= toFullyChargeMs < (p.toFullyChargeS + 1) * 1000
    ensures p.toFullyDischargeS * 1000 <= toFullyDischargeMs < (p.toFullyDischargeS + 1) * 1000
    ensures p.chargerConnected == (if chargerConnected then 1 else 0)
  {
    VP.StatusPayload(batteryMv, batteryMa, toFullyDischargeMs / 1000, chargerMv, chargerMa,
                     toFullyChargeMs / 1000, chargerMw, if chargerConnected then 1 else 0,
                     percentage, nowMs / 1000)
  }

  class UsbManager {
    /** `isUSBHIDEnabled()`, i.e. `!DISABLE_USB_HID`. */
    const hidEnabled: bool
    /** Size of `HIDMessage::text`, including the terminating NUL. */
    const textCapacity: nat

    var usbConnected: bool
    var initialized: bool
    /** `hidQueue != nullptr` */
    var queueCreated: bool
    /** `hidMutex != nullptr` */
    var mutexCreated: bool
    var hidQueue: seq<HidMessage>
    /** Every device call made so far, in order. */
    var actions: seq<HidAction>
    var vendorResponse: VP.VendorPacket
    var vendorResponseReady: bool

    ghost predicate Valid()
      reads this
    {
      textCapacity > 0 && |hidQueue| <= QueueCapacity
      && (!queueCreated ==> hidQueue == []) && (queueCreated ==> initialized)
    }

    constructor(hidEnabled: bool, textCapacity: nat)
      requires textCapacity > 0
      ensures Valid()
      ensures this.hidEnabled == hidEnabled && this.textCapacity == textCapacity
      ensures !usbConnected && !initialized && !queueCreated && !mutexCreated
      ensures hidQueue == [] && actions == []
      ensures !vendorResponseReady && vendorResponse == VP.VendorPacket(0, 0, 0, 0, Zeros(24))
    {
      this.hidEnabled := hidEnabled;
      this.textCapacity := textCapacity;
      usbConnected := false;
      initialized := false;
      queueCreated := false;
      mutexCreated := false;
      hidQueue := [];
      actions := [];
      vendorResponse := VP.VendorPacket(0, 0, 0, 0, Zeros(24));
      vendorResponseReady := false;
    }

    method HandleUsbEvent(e: UsbEvent)
      requires Valid()
      modifies this
      ensures Valid()
      ensures usbConnected == NextConnected(old(usbConnected), e, hidEnabled)
      ensures initialized == old(initialized) && queueCreated == old(queueCreated)
      ensures mutexCreated == old(mutexCreated) && hidQueue == old(hidQueue) && actions == old(actions)
      ensures vendorResponse == old(vendorResponse) && vendorResponseReady == old(vendorResponseReady)
    {
      if !hidEnabled {
        return;
      }
      match e
      case Started => usbConnected := true;
      case Stopped => usbConnected := false;
      case Suspend =>
      case Resume => usbConnected := true;
      case OtherEvent(_) =>
    }

    /**
     * `initializeFreeRTOSResources`, with the outcome of creating the queue
     * and the mutex as parameters. A failed mutex deletes the queue again.
     */
    method InitializeFreeRTOSResources(queueOk: bool, mutexOk: bool) returns (ok: bool)
      requires Valid()
      modifies this
      ensures Valid()
      ensures !hidEnabled ==> ok && initialized && queueCreated == old(queueCreated)
      ensures hidEnabled && old(initialized) ==> ok && unchanged(this)
      ensures hidEnabled && !old(initialized) ==>
        ok == (queueOk && mutexOk) && initialized == ok && queueCreated == ok
      ensures ok ==> initialized
      ensures usbConnected == old(usbConnected) && hidQueue == old(hidQueue) && actions == old(actions)
      ensures vendorResponse == old(vendorResponse) && vendorResponseReady == old(vendorResponseReady)
    {
      if !hidEnabled {
        initialized := true;
        return true;
      }
      if initialized {
        return true;
      }
      if !queueOk {
        return false;
      }
      queueCreated := true;
      if !mutexOk {
        queueCreated := false;
        return false;
      }
      mutexCreated := true;
      initialized := true;
      return true;
    }

    /**
     * `begin`: with HID disabled, not connected and initialised; otherwise
     * false when the USB stack does not start, and else the connection flag
     * of `checkInitialUSBStatus` (mounted, but only after the first 5 s).
     */
    method Begin(usbStarted: bool, nowMs: u32, mounted: bool) returns (ok: bool)
      requires Valid()
      modifies this
      ensures Valid()
      ensures !hidEnabled ==> ok && !usbConnected && initialized
      ensures hidEnabled ==> ok == usbStarted && initialized == old(initialized)
      ensures hidEnabled && usbStarted ==> usbConnected == (nowMs > 5000 && mounted)
      ensures hidEnabled && !usbStarted ==> usbConnected == old(usbConnected)
      ensures queueCreated == old(queueCreated) && hidQueue == old(hidQueue) && actions == old(actions)
      ensures vendorResponse == old(vendorResponse) && vendorResponseReady == old(vendorResponseReady)
    {
      if !hidEnabled {
        usbConnected := false;
        initialized := true;
        return true;
      }
      if !usbStarted {
        return false;
      }
      usbConnected := nowMs > 5000 && mounted;
      return true;
    }

    /**
     * `processHIDCommands`: every queued command is taken out in order and
     * executed; nothing happens before initialisation or without a queue.
     */
    method ProcessHidCommands(lockFailed: set<nat>)
      requires Valid()
      modifies this`hidQueue, this`actions
      ensures Valid()
      ensures hidEnabled && initialized && queueCreated ==>
        hidQueue == [] && actions == old(actions) + ExecuteAll(old(hidQueue), hidEnabled, initialized, usbConnected, lockFailed, 0)
      ensures !(hidEnabled && initialized && queueCreated) ==> hidQueue == old(hidQueue) && actions == old(actions)
    {
      if !hidEnabled || !initialized || !queueCreated {
        return;
      }
      ghost var q0 := hidQueue;
      ghost var a0 := actions;
      var enabled, ready, connected := hidEnabled, initialized, usbConnected;
      var k := 0;
      while hidQueue != []
        invariant k <= |q0| && hidQueue == q0[k..]
        invariant actions == a0 + ExecuteAll(q0[..k], enabled, ready, connected, lockFailed, 0)
        decreases |hidQueue|
      {
        var m := hidQueue[0];
        DrainStep(q0, k, a0, actions, enabled, ready, connected, lockFailed);
        hidQueue := hidQueue[1..];
        actions := actions + Execute(m, enabled, ready, connected, LockTaken(lockFailed, k));
        k := k + 1;
      }
      assert q0[..k] == q0;
      assert actions == a0 + ExecuteAll(q0, enabled, ready, connected, lockFailed, 0);
    }

    /**
     * `update`: initialise on first use, take the connection state from the
     * stack (mounted, and only after the first 5 s), then drain the queue.
     */
    method Update(nowMs: u32, mounted: bool, queueOk: bool, mutexOk: bool, lockFailed: set<nat>)
      requires Valid()
      modifies this
      ensures Valid()
      ensures !hidEnabled ==> unchanged(this)
      ensures hidEnabled && !old(initialized) && !(queueOk && mutexOk) ==>
        usbConnected == old(usbConnected) && hidQueue == old(hidQueue) && actions == old(actions) && !initialized
      ensures hidEnabled && initialized ==>
        usbConnected == (nowMs > 5000 && mounted) && hidQueue == [] &&
        actions == old(actions) + ExecuteAll(old(hidQueue), hidEnabled, true, usbConnected, lockFailed, 0)
      ensures vendorResponse == old(vendorResponse) && vendorResponseReady == old(vendorResponseReady)
    {
      if !hidEnabled {
        return;
      }
      if !initialized {
        var ok := InitializeFreeRTOSResources(queueOk, mutexOk);
        if !ok {
          return;
        }
      }
      var current := false;
      if nowMs > 5000 {
        current := mounted;
      }
      if current != usbConnected {
        usbConnected := current;
      }
      ProcessHidCommands(lockFailed);
    }

    /**
     * The common tail of every `send*` method: with HID disabled report
     * success and queue nothing; otherwise a message is queued only when it
     * passes its check, the manager is initialised and the queue has room.
     */
    method Enqueue(m: HidMessage, valid: bool) returns (ok: bool)
      requires Valid()
      modifies this`hidQueue
      ensures Valid()
      ensures !hidEnabled ==> ok && hidQueue == old(hidQueue)
      ensures hidEnabled ==> (ok, hidQueue) == Push(old(hidQueue), m, valid && initialized && queueCreated)
    {
      if !hidEnabled {
        return true;
      }
      if !valid || !initialized || !queueCreated {
        return false;
      }
      var pushed := Push(hidQueue, m, true);
      ok, hidQueue := pushed.0, pushed.1;
    }

    method SendKeyPress(key: byte, nowMs: u32) returns (ok: bool)
      requires Valid()
      modifies this`hidQueue
      ensures Valid()
      ensures !hidEnabled ==> ok && hidQueue == old(hidQueue)
      ensures hidEnabled ==>
        (ok, hidQueue) == Push(old(hidQueue), HidMessage(KeyboardPress, key, 0, 0, 0, "", nowMs), initialized && queueCreated)
    {
      ok := Enqueue(HidMessage(KeyboardPress, key, 0, 0, 0, "", nowMs), IsValidKey(key, hidEnabled));
    }

    method SendKeyHold(key: byte, nowMs: u32) returns (ok: bool)
      requires Valid()
      modifies this`hidQueue
      ensures Valid()
      ensures !hidEnabled ==> ok && hidQueue == old(hidQueue)
      ensures hidEnabled ==>
        (ok, hidQueue) == Push(old(hidQueue), HidMessage(KeyboardHold, key, 0, 0, 0, "", nowMs), initialized && queueCreated)
    {
      ok := Enqueue(HidMessage(KeyboardHold, key, 0, 0, 0, "", nowMs), IsValidKey(key, hidEnabled));
    }

    method SendKeyRelease(key: byte, nowMs: u32) returns (ok: bool)
      requires Valid()
      modifies this`hidQueue
      ensures Valid()
      ensures !hidEnabled ==> ok && hidQueue == old(hidQueue)
      ensures hidEnabled ==>
        (ok, hidQueue) == Push(old(hidQueue), HidMessage(KeyboardRelease, key, 0, 0, 0, "", nowMs), initialized && queueCreated)
    {
      ok := Enqueue(HidMessage(KeyboardRelease, key, 0, 0, 0, "", nowMs), IsValidKey(key, hidEnabled));
    }

    /** `typeText`: empty text is refused; longer text is cut to the buffer. */
    method TypeText(text: string, nowMs: u32) returns (ok: bool)
      requires Valid()
      modifies this`hidQueue
      ensures Valid()
      ensures !hidEnabled ==> ok && hidQueue == old(hidQueue)
      ensures hidEnabled ==>
        (ok, hidQueue) == Push(old(hidQueue), HidMessage(KeyboardType, 0, 0, 0, 0, Text.BoundedCopy(text, textCapacity), nowMs),
             |Text.CStr(text)| > 0 && initialized && queueCreated)
      ensures ok && hidEnabled ==> |hidQueue[|hidQueue| - 1].text| < textCapacity
    {
      var m := HidMessage(KeyboardType, 0, 0, 0, 0, Text.BoundedCopy(text, textCapacity), nowMs);
      ok := Enqueue(m, |Text.CStr(text)| > 0);
    }

    method SendMouseMove(x: i16, y: i16, nowMs: u32) returns (ok: bool)
      requires Valid()
      modifies this`hidQueue
      ensures Valid()
      ensures !hidEnabled ==> ok && hidQueue == old(hidQueue)
      ensures hidEnabled ==>
        (ok, hidQueue) == Push(old(hidQueue), HidMessage(MouseMove, 0, x, y, 0, "", nowMs), initialized && queueCreated)
    {
      ok := Enqueue(HidMessage(MouseMove, 0, x, y, 0, "", nowMs), true);
    }

    method SendMousePress(button: byte, nowMs: u32) returns (ok: bool)
      requires Valid()
      modifies this`hidQueue
      ensures Valid()
      ensures !hidEnabled ==> ok && hidQueue == old(hidQueue)
      ensures hidEnabled ==>
        (ok, hidQueue) == Push(old(hidQueue), HidMessage(MousePress, 0, 0, 0, button, "", nowMs),
             1 <= button <= 7 && initialized && queueCreated)
    {
      ok := Enqueue(HidMessage(MousePress, 0, 0, 0, button, "", nowMs), IsValidMouseButton(button, hidEnabled));
    }

    method SendMouseHold(button: byte, nowMs: u32) returns (ok: bool)
      requires Valid()
      modifies this`hidQueue
      ensures Valid()
      ensures !hidEnabled ==> ok && hidQueue == old(hidQueue)
      ensures hidEnabled ==>
        (ok, hidQueue) == Push(old(hidQueue), HidMessage(MouseHold, 0, 0, 0, button, "", nowMs),
             1 <= button <= 7 && initialized && queueCreated)
    {
      ok := Enqueue(HidMessage(MouseHold, 0, 0, 0, button, "", nowMs), IsValidMouseButton(button, hidEnabled));
    }

    method SendMouseRelease(button: byte, nowMs: u32) returns (ok: bool)
      requires Valid()
      modifies this`hidQueue
      ensures Valid()
      ensures !hidEnabled ==> ok && hidQueue == old(hidQueue)
      ensures hidEnabled ==>
        (ok, hidQueue) == Push(old(hidQueue), HidMessage(MouseRelease, 0, 0, 0, button, "", nowMs),
             1 <= button <= 7 && initialized && queueCreated)
    {
      ok := Enqueue(HidMessage(MouseRelease, 0, 0, 0, button, "", nowMs), IsValidMouseButton(button, hidEnabled));
    }

    method SendMouseScroll(x: i16, y: i16, nowMs: u32) returns (ok: bool)
      requires Valid()
      modifies this`hidQueue
      ensures Valid()
      ensures !hidEnabled ==> ok && hidQueue == old(hidQueue)
      ensures hidEnabled ==>
        (ok, hidQueue) == Push(old(hidQueue), HidMessage(MouseScroll, 0, x, y, 0, "", nowMs), initialized && queueCreated)
    {
      ok := Enqueue(HidMessage(MouseScroll, 0, x, y, 0, "", nowMs), true);
    }

    /** `sendGamepadButton`: the button in `key`, pressed as bit 0x80 of `buttons`. */
    method SendGamepadButton(button: byte, pressed: bool, nowMs: u32) returns (ok: bool)
      requires Valid()
      modifies this`hidQueue
      ensures Valid()
      ensures !hidEnabled ==> ok && hidQueue == old(hidQueue)
      ensures hidEnabled ==>
        (ok, hidQueue) == Push(old(hidQueue), HidMessage(GamepadButton, button, 0, 0, if pressed then 0x80 else 0, "", nowMs),
             initialized && queueCreated)
    {
      var m := HidMessage(GamepadButton, button, 0, 0, if pressed then 0x80 else 0, "", nowMs);
      ok := Enqueue(m, true);
    }

    method SendGamepadRightAxis(x: i16, y: i16, nowMs: u32) returns (ok: bool)
      requires Valid()
      modifies this`hidQueue
      ensures Valid()
      ensures !hidEnabled ==> ok && hidQueue == old(hidQueue)
      ensures hidEnabled ==>
        (ok, hidQueue) == Push(old(hidQueue), HidMessage(GamepadAxisRight, 0, x, y, 0, "", nowMs), initialized && queueCreated)
    {
      ok := Enqueue(HidMessage(GamepadAxisRight, 0, x, y, 0, "", nowMs), true);
    }

    method SendGamepadLeftAxis(x: i16, y: i16, nowMs: u32) returns (ok: bool)
      requires Valid()
      modifies this`hidQueue
      ensures Valid()
      ensures !hidEnabled ==> ok && hidQueue == old(hidQueue)
      ensures hidEnabled ==>
        (ok, hidQueue) == Push(old(hidQueue), HidMessage(GamepadAxisLeft, 0, x, y, 0, "", nowMs), initialized && queueCreated)
    {
      ok := Enqueue(HidMessage(GamepadAxisLeft, 0, x, y, 0, "", nowMs), true);
    }

    method SendSystemPowerKey(nowMs: u32) returns (ok: bool)
      requires Valid()
      modifies this`hidQueue
      ensures Valid()
      ensures !hidEnabled ==> ok && hidQueue == old(hidQueue)
      ensures hidEnabled ==>
        (ok, hidQueue) == Push(old(hidQueue), HidMessage(SystemPower, 0, 0, 0, 0, "", nowMs), initialized && queueCreated)
    {
      ok := Enqueue(HidMessage(SystemPower, 0, 0, 0, 0, "", nowMs), true);
    }

    /**
     * `handleVendorReport`: a 32-byte report 6 whose header is valid and
     * whose command is known stages its response, overwriting any response
     * not yet collected; anything else leaves the mailbox as it was.
     */
    method HandleVendorReport(reportId: byte, buffer: seq<byte>, status: VP.StatusPayload)
      requires Valid()
      modifies this`vendorResponse, this`vendorResponseReady
      ensures Valid()
      ensures hidEnabled && reportId == Config.VendorReportId && |buffer| == VP.PacketSize
              && VP.ResponseFor(VP.Decode(buffer), status).Some? ==>
        vendorResponseReady && vendorResponse == VP.ResponseFor(VP.Decode(buffer), status).value
      ensures !(hidEnabled && reportId == Config.VendorReportId && |buffer| == VP.PacketSize
              && VP.ResponseFor(VP.Decode(buffer), status).Some?) ==>
        vendorResponseReady == old(vendorResponseReady) && vendorResponse == old(vendorResponse)
    {
      if !hidEnabled || reportId != Config.VendorReportId || |buffer| != VP.PacketSize {
        return;
      }
      var request := VP.Decode(buffer);
      var staged := VP.ResponseFor(request, status);
      if staged.Some? {
        vendorResponse := staged.value;
        vendorResponseReady := true;
      }
    }

    /**
     * `getVendorResponse`: None for a null destination; otherwise the staged
     * response, collected once, or else the error packet with sequence 0.
     */
    method GetVendorResponse(hasDestination: bool) returns (response: Option<VP.VendorPacket>)
      requires Valid()
      modifies this`vendorResponseReady
      ensures Valid()
      ensures !hasDestination ==> response.None? && vendorResponseReady == old(vendorResponseReady)
      ensures hasDestination && old(vendorResponseReady) ==>
        response == Some(vendorResponse) && !vendorResponseReady
      ensures hasDestination && !old(vendorResponseReady) ==>
        response == Some(VP.ErrorPacket()) && !vendorResponseReady
    {
      if !hasDestination {
        return None;
      }
      if vendorResponseReady {
        vendorResponseReady := false;
        return Some(vendorResponse);
      }
      return Some(VP.ErrorPacket());
    }
  }
}
