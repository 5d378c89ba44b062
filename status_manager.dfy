// The status manager: a queue of status messages drives a small state
// machine that chooses an LED pattern and brightness; each update steps the
// pattern, hands a brightness to the power manager's `setLEDPower`, and
// returns a temporary status to idle once its blink period is over.
// The millisecond clock is a parameter, read once per call.

module StatusManager {
  import opened Bytes
  import opened Wrappers
  import Config

  datatype DeviceStatus = Idle | BleConnected | BleDisconnected | PowerOn | PowerOff | LowPowerMode
                        | BleCmdError | HidConnected | HidDisconnected | Charging | Shutdown

  datatype LedPattern = Off | Steady | BlinkFast | BlinkSlow | Pulse | FadeOut

  datatype StatusMessage = StatusMessage(status: DeviceStatus, timestamp: u32, duration: u32)

  /** The status, pattern and brightness `handleStatusChange` rewrites. */
  datatype LedState = LedState(status: DeviceStatus, pattern: LedPattern, brightness: byte)

  /** `xQueueCreate(10, sizeof(StatusMessage))` */
  const StatusQueueLength: nat := 10
  /** The fade-out length in `updateFadeOutPattern`. */
  const FadeTimeMs: nat := 2000

  /** `isTemporaryStatus`: the statuses that fall back to idle after their blink. */
  predicate IsTemporaryStatus(s: DeviceStatus)
  {
    match s
    case BleConnected | BleDisconnected | HidConnected | HidDisconnected | BleCmdError => true
    case _ => false
  }

  /** `getLEDBrightness` */
  function LedBrightness(lowPower: bool): (b: byte)
    ensures b == if lowPower then Config.LedBrightnessPowerSave else Config.LedBrightnessMax
  {
    if lowPower then Config.LedBrightnessPowerSave as byte else Config.LedBrightnessMax as byte
  }

  /** The pattern and brightness `handleStatusChange` selects for a new status. */
  function Transition(st: LedState, status: DeviceStatus, lowPower: bool): (r: LedState)
    ensures r.status == status
    ensures r.pattern == BlinkFast <==> IsTemporaryStatus(status)
    ensures r.pattern == Steady <==> status == Idle || status == LowPowerMode
    ensures r.pattern == BlinkSlow <==> status == PowerOn || status == PowerOff
    ensures r.pattern == Pulse <==> status == Charging
    ensures r.pattern == FadeOut <==> status == Shutdown
    ensures r.pattern != Off
    ensures status == LowPowerMode ==> r.brightness == Config.LedBrightnessPowerSave
    ensures status == Shutdown ==> r.brightness == st.brightness
    ensures status != LowPowerMode && status != Shutdown ==> r.brightness == LedBrightness(lowPower)
  {
    match status
    case Idle => LedState(status, Steady, LedBrightness(lowPower))
    case BleConnected | BleDisconnected | HidConnected | HidDisconnected =>
      LedState(status, BlinkFast, LedBrightness(lowPower))
    case PowerOn | PowerOff => LedState(status, BlinkSlow, LedBrightness(lowPower))
    case LowPowerMode => LedState(status, Steady, Config.LedBrightnessPowerSave as byte)
    case Charging => LedState(status, Pulse, LedBrightness(lowPower))
    case BleCmdError => LedState(status, BlinkFast, LedBrightness(lowPower))
    case Shutdown => LedState(status, FadeOut, st.brightness)
  }

  /** The state after handling a run of queued messages, oldest first. */
  function ApplyAll(st: LedState, msgs: seq<StatusMessage>, lowPower: bool): LedState
    decreases |msgs|
  {
    if |msgs| == 0 then st
    else Transition(ApplyAll(st, msgs[..|msgs| - 1], lowPower), msgs[|msgs| - 1].status, lowPower)
  }

  /** Handling one more message of a run applies its transition to the state reached so far. */
  lemma ApplyAllStep(st: LedState, msgs: seq<StatusMessage>, k: nat, lowPower: bool)
    requires k < |msgs|
    ensures ApplyAll(st, msgs[..k + 1], lowPower) == Transition(ApplyAll(st, msgs[..k], lowPower), msgs[k].status, lowPower)
  {
    assert msgs[..k + 1][..k] == msgs[..k];
  }

  /**
   * After draining the queue the newest message decides the status, and
   * the pattern is the one that status maps to.
   */
  lemma ApplyAllLastWins(st: LedState, msgs: seq<StatusMessage>, lowPower: bool)
    requires |msgs| > 0
    ensures ApplyAll(st, msgs, lowPower).status == msgs[|msgs| - 1].status
    ensures ApplyAll(st, msgs, lowPower).pattern
            == Transition(st, msgs[|msgs| - 1].status, lowPower).pattern
  {
  }

  /**
   * Only a shutdown keeps an old brightness, so without one in the queue
   * the brightness after draining is the one the last status asks for.
   */
  lemma {:induction false} ApplyAllBrightness(st: LedState, msgs: seq<StatusMessage>, lowPower: bool)
    requires forall i :: 0 <= i < |msgs| ==> msgs[i].status != Shutdown
    ensures ApplyAll(st, msgs, lowPower).brightness
            == if |msgs| == 0 then st.brightness
               else if msgs[|msgs| - 1].status == LowPowerMode then Config.LedBrightnessPowerSave
               else LedBrightness(lowPower)
    ensures ApplyAll(st, msgs, lowPower).brightness in {st.brightness, Config.LedBrightnessPowerSave as byte,
                                                        Config.LedBrightnessMax as byte}
    decreases |msgs|
  {
    if |msgs| > 0 {
      ApplyAllBrightness(st, msgs[..|msgs| - 1], lowPower);
    }
  }

  /** The two statuses queued when the low-power flag flips. */
  function LowPowerStatus(enabled: bool): DeviceStatus
  {
    if enabled then LowPowerMode else Idle
  }

  /** `xQueueSend` with no wait: a full queue drops the message. */
  function Enqueue(q: seq<StatusMessage>, msg: StatusMessage): (r: seq<StatusMessage>)
    ensures |q| < StatusQueueLength ==> r == q + [msg]
    ensures |q| >= StatusQueueLength ==> r == q
  {
    if |q| < StatusQueueLength then q + [msg] else q
  }

  function EnqueueAll(q: seq<StatusMessage>, msgs: seq<StatusMessage>): seq<StatusMessage>
    decreases |msgs|
  {
    if |msgs| == 0 then q else Enqueue(EnqueueAll(q, msgs[..|msgs| - 1]), msgs[|msgs| - 1])
  }

  /** Queueing at most one more message after a prefix. */
  lemma EnqueueAllStep(q: seq<StatusMessage>, a: seq<StatusMessage>, e: seq<StatusMessage>)
    requires |e| <= 1
    ensures EnqueueAll(q, a + e) == if e == [] then EnqueueAll(q, a) else Enqueue(EnqueueAll(q, a), e[0])
  {
    if e == [] {
      assert a + e == a;
    } else {
      assert (a + e)[..|a + e| - 1] == a;
    }
  }

  /** A queue that holds at most ten messages never grows beyond ten. */
  lemma {:induction false} EnqueueAllBounded(q: seq<StatusMessage>, msgs: seq<StatusMessage>)
    requires |q| <= StatusQueueLength
    ensures |EnqueueAll(q, msgs)| <= StatusQueueLength
    ensures |EnqueueAll(q, msgs)| == if |q| + |msgs| <= StatusQueueLength then |q| + |msgs| else StatusQueueLength
    decreases |msgs|
  {
    if |msgs| > 0 {
      EnqueueAllBounded(q, msgs[..|msgs| - 1]);
    }
  }

  /** The message one changed input produces, nothing for an unchanged one. */
  function EdgeEvent(prev: bool, now: bool, rising: DeviceStatus, falling: DeviceStatus, ms: u32, duration: u32)
    : (r: seq<StatusMessage>)
    ensures |r| == if prev != now then 1 else 0
    ensures prev != now ==> r[0] == StatusMessage(if now then rising else falling, ms, duration)
  {
    if prev == now then [] else [StatusMessage(if now then rising else falling, ms, duration)]
  }

  /**
   * `checkConnectionStates`: the messages for BLE, USB and charger changes,
   * in that order; connection events blink for `LED_BLINK_DURATION`.
   */
  function ConnectionEvents(prevBle: bool, ble: bool, prevUsb: bool, usb: bool,
                            prevCharging: bool, charging: bool, ms: u32): seq<StatusMessage>
  {
    EdgeEvent(prevBle, ble, BleConnected, BleDisconnected, ms, Config.LedBlinkDuration as u32)
    + EdgeEvent(prevUsb, usb, HidConnected, HidDisconnected, ms, Config.LedBlinkDuration as u32)
    + EdgeEvent(prevCharging, charging, Charging, Idle, ms, 0)
  }

  function Changed(a: bool, b: bool): nat
  {
    if a != b then 1 else 0
  }

  /** One message per changed input and none for an unchanged one, each naming the new state. */
  lemma ConnectionEventsPerChange(prevBle: bool, ble: bool, prevUsb: bool, usb: bool,
                                  prevCharging: bool, charging: bool, ms: u32)
    ensures var e := ConnectionEvents(prevBle, ble, prevUsb, usb, prevCharging, charging, ms);
      |e| == Changed(prevBle, ble) + Changed(prevUsb, usb) + Changed(prevCharging, charging)
      && (prevBle != ble ==> e[0].status == (if ble then BleConnected else BleDisconnected))
      && (prevCharging != charging ==> e[|e| - 1].status == (if charging then Charging else Idle))
      && (forall i :: 0 <= i < |e| ==> e[i].timestamp == ms)
      && (forall i :: 0 <= i < |e| ==> (e[i].duration > 0 <==> IsTemporaryStatus(e[i].status)))
  {
  }

  /** `updateFadeOutPattern`'s level: the brightness scaled by the time left of 2000 ms. */
  function FadeBrightness(brightness: byte, elapsed: nat): (b: byte)
    requires elapsed < FadeTimeMs
    ensures b <= brightness
    ensures elapsed == 0 ==> b == brightness
  {
    ScaleDown(brightness, FadeTimeMs - elapsed, FadeTimeMs);
    brightness * (FadeTimeMs - elapsed) / FadeTimeMs
  }

  /** Scaling by a fraction of at most one never grows a value, and by one keeps it. */
  lemma ScaleDown(x: nat, num: nat, den: nat)
    requires 0 < den && num <= den
    ensures x * num / den <= x
    ensures num == den ==> x * num / den == x
  {
    MulLeftMonotone(x, num, den);
    assert x * den / den == x;
  }

  /** The fade never brightens: a later point is at most as bright as an earlier one. */
  lemma FadeMonotone(brightness: byte, e1: nat, e2: nat)
    requires e1 <= e2 < FadeTimeMs
    ensures FadeBrightness(brightness, e2) <= FadeBrightness(brightness, e1)
  {
    var a := brightness * (FadeTimeMs - e2);
    var b := brightness * (FadeTimeMs - e1);
    assert a <= b by {
      MulLeftMonotone(brightness, FadeTimeMs - e2, FadeTimeMs - e1);
    }
  }

  lemma MulLeftMonotone(x: nat, y1: nat, y2: nat)
    requires y1 <= y2
    ensures x * y1 <= x * y2
  {
    assert x * y2 == x * y1 + x * (y2 - y1);
  }

  /** `updatePulsePattern`'s level for a sine value mapped into [0, 1]. */
  function PulseBrightness(brightness: byte, sine: real): (b: byte)
    requires 0.0 <= sine <= 1.0
    ensures brightness / 5 <= b <= brightness
  {
    var low: nat := brightness / 5;
    var span: nat := brightness - low;
    FloorScaled(span, sine);
    low + (span as real * sine).Floor
  }

  /** A whole number scaled by a factor in [0, 1] and rounded down stays in [0, n]. */
  lemma FloorScaled(n: nat, f: real)
    requires 0.0 <= f <= 1.0
    ensures 0 <= (n as real * f).Floor <= n
  {
    var x := n as real * f;
    assert 0.0 <= x <= n as real by {
      ScaleBelow(n as real, f);
    }
  }

  lemma ScaleBelow(x: real, f: real)
    requires 0.0 <= x && 0.0 <= f <= 1.0
    ensures 0.0 <= x * f <= x
  {
    assert x - x * f == x * (1.0 - f);
  }

  class StatusManager {
    /** The status queue's contents, oldest first. */
    var queue: seq<StatusMessage>
    var statusMutexCreated: bool
    var currentStatus: DeviceStatus
    var currentPattern: LedPattern
    var currentBrightness: byte
    var patternStartTime: u32
    var lastBlinkTime: u32
    var blinkState: bool
    var isLowPowerMode: bool
    var prevBleConnected: bool
    var prevUsbConnected: bool
    var prevLowPowerMode: bool
    var prevCharging: bool

    /** The queue holds at most ten messages. */
    ghost predicate Valid()
      reads this
    {
      |queue| <= StatusQueueLength
    }

    function State(): LedState
      reads this
    {
      LedState(currentStatus, currentPattern, currentBrightness)
    }

    constructor()
      ensures Valid() && queue == []
      ensures State() == LedState(Idle, Off, 0)
      ensures patternStartTime == 0 && lastBlinkTime == 0 && !blinkState && !isLowPowerMode
      ensures !prevBleConnected && !prevUsbConnected && !prevLowPowerMode && !prevCharging
    {
      queue := [];
      statusMutexCreated := false;
      currentStatus := Idle;
      currentPattern := Off;
      currentBrightness := 0;
      patternStartTime := 0;
      lastBlinkTime := 0;
      blinkState := false;
      isLowPowerMode := false;
      prevBleConnected := false;
      prevUsbConnected := false;
      prevLowPowerMode := false;
      prevCharging := false;
    }

    /** `setLEDPattern`: a new pattern restarts both timers with the LED off phase. */
    method SetLedPattern(pattern: LedPattern, brightness: byte, now: u32)
      modifies this`currentPattern, this`currentBrightness, this`patternStartTime, this`lastBlinkTime,
               this`blinkState
      ensures currentPattern == pattern && currentBrightness == brightness
      ensures patternStartTime == now && lastBlinkTime == now && !blinkState
    {
      currentPattern := pattern;
      currentBrightness := brightness;
      patternStartTime := now;
      lastBlinkTime := now;
      blinkState := false;
    }

    /**
     * `begin`: creates the queue and the mutex, stopping at the first
     * failure, then shows a steady idle light.
     */
    method Begin(queueOk: bool, mutexOk: bool, now: u32) returns (ok: bool)
      modifies this
      ensures ok <==> queueOk && mutexOk
      ensures ok ==> State() == LedState(Idle, Steady, LedBrightness(isLowPowerMode))
                     && patternStartTime == now && !blinkState
      ensures !ok ==> State() == old(State())
      ensures queue == old(queue) && isLowPowerMode == old(isLowPowerMode)
      ensures statusMutexCreated == (queueOk && mutexOk) || (!queueOk && old(statusMutexCreated))
    {
      if !queueOk {
        return false;
      }
      statusMutexCreated := mutexOk;
      if !mutexOk {
        return false;
      }
      SetLedPattern(Steady, LedBrightness(isLowPowerMode), now);
      currentStatus := Idle;
      return true;
    }

    /** `setStatus`: queues a message stamped with the time, dropping it when the queue is full. */
    method SetStatus(status: DeviceStatus, duration: u32, now: u32)
      modifies this`queue
      ensures queue == Enqueue(old(queue), StatusMessage(status, now, duration))
    {
      if |queue| < StatusQueueLength {
        queue := queue + [StatusMessage(status, now, duration)];
      }
    }

    /**
     * `setLowPowerMode`: under the lock, a change of the flag records it
     * and queues LOW_POWER_MODE or IDLE; setting the flag it already has
     * queues nothing.
     */
    method SetLowPowerMode(enabled: bool, lockOk: bool, now: u32)
      modifies this`isLowPowerMode, this`queue
      ensures lockOk ==> isLowPowerMode == enabled
      ensures !lockOk ==> isLowPowerMode == old(isLowPowerMode)
      ensures lockOk && old(isLowPowerMode) != enabled ==>
        queue == Enqueue(old(queue), StatusMessage(LowPowerStatus(enabled), now, 0))
      ensures !lockOk || old(isLowPowerMode) == enabled ==> queue == old(queue)
    {
      if lockOk {
        if isLowPowerMode != enabled {
          isLowPowerMode := enabled;
          SetStatus(LowPowerStatus(enabled), 0, now);
        }
      }
    }

    /** `handleStatusChange`: records the status and starts the pattern it maps to. */
    method HandleStatusChange(status: DeviceStatus, duration: u32, now: u32)
      modifies this`currentStatus, this`currentPattern, this`currentBrightness, this`patternStartTime,
               this`lastBlinkTime, this`blinkState
      ensures State() == Transition(old(State()), status, isLowPowerMode)
      ensures patternStartTime == now && lastBlinkTime == now && !blinkState
    {
      currentStatus := status;
      patternStartTime := now;
      match status {
        case Idle => SetLedPattern(Steady, LedBrightness(isLowPowerMode), now);
        case BleConnected | BleDisconnected | HidConnected | HidDisconnected =>
          SetLedPattern(BlinkFast, LedBrightness(isLowPowerMode), now);
        case PowerOn | PowerOff => SetLedPattern(BlinkSlow, LedBrightness(isLowPowerMode), now);
        case LowPowerMode => SetLedPattern(Steady, Config.LedBrightnessPowerSave as byte, now);
        case Charging => SetLedPattern(Pulse, LedBrightness(isLowPowerMode), now);
        case BleCmdError => SetLedPattern(BlinkFast, LedBrightness(isLowPowerMode), now);
        case Shutdown => SetLedPattern(FadeOut, currentBrightness, now);
      }
    }

    /** `processStatusQueue`: handles every queued message, oldest first, and empties the queue. */
    method ProcessStatusQueue(now: u32)
      modifies this`queue, this`currentStatus, this`currentPattern, this`currentBrightness,
               this`patternStartTime, this`lastBlinkTime, this`blinkState
      ensures queue == []
      ensures State() == ApplyAll(old(State()), old(queue), isLowPowerMode)
      ensures |old(queue)| > 0 ==> patternStartTime == now && lastBlinkTime == now && !blinkState
      ensures |old(queue)| == 0 ==> patternStartTime == old(patternStartTime)
                                    && lastBlinkTime == old(lastBlinkTime) && blinkState == old(blinkState)
    {
      ghost var k := 0;
      while |queue| > 0
        invariant 0 <= k <= |old(queue)| && queue == old(queue)[k..]
        invariant State() == ApplyAll(old(State()), old(queue)[..k], isLowPowerMode)
        invariant k > 0 ==> patternStartTime == now && lastBlinkTime == now && !blinkState
        invariant k == 0 ==> patternStartTime == old(patternStartTime)
                             && lastBlinkTime == old(lastBlinkTime) && blinkState == old(blinkState)
        decreases |queue|
      {
        var msg := queue[0];
        queue := queue[1..];
        ApplyAllStep(old(State()), old(queue), k, isLowPowerMode);
        HandleStatusChange(msg.status, msg.duration, now);
        k := k + 1;
      }
      assert old(queue)[..k] == old(queue);
    }

    /**
     * `checkConnectionStates`: queues one message per input that changed
     * since the last call and records the new values. `charging` is the
     * charger flag of the power manager's data.
     */
    method CheckConnectionStates(ble: bool, usb: bool, charging: bool, now: u32)
      modifies this`queue, this`prevBleConnected, this`prevUsbConnected, this`prevCharging,
               this`prevLowPowerMode
      ensures queue == EnqueueAll(old(queue), ConnectionEvents(old(prevBleConnected), ble, old(prevUsbConnected), usb,
                                                               old(prevCharging), charging, now))
      ensures prevBleConnected == ble && prevUsbConnected == usb && prevCharging == charging
      ensures prevLowPowerMode == isLowPowerMode
    {
      ghost var q0 := queue;
      ghost var e1 := EdgeEvent(prevBleConnected, ble, BleConnected, BleDisconnected, now, Config.LedBlinkDuration as u32);
      ghost var e2 := EdgeEvent(prevUsbConnected, usb, HidConnected, HidDisconnected, now, Config.LedBlinkDuration as u32);
      ghost var e3 := EdgeEvent(prevCharging, charging, Charging, Idle, now, 0);
      ghost var events := ConnectionEvents(prevBleConnected, ble, prevUsbConnected, usb, prevCharging, charging, now);
      assert events == e1 + e2 + e3;
      QueueEdge(prevBleConnected, ble, BleConnected, BleDisconnected, Config.LedBlinkDuration as u32, now, q0, []);
      prevBleConnected := ble;
      QueueEdge(prevUsbConnected, usb, HidConnected, HidDisconnected, Config.LedBlinkDuration as u32, now, q0, e1);
      prevUsbConnected := usb;
      QueueEdge(prevCharging, charging, Charging, Idle, 0, now, q0, e1 + e2);
      prevCharging := charging;
      prevLowPowerMode := isLowPowerMode;
    }

    /**
     * One input of `checkConnectionStates`: when it changed, the status of
     * its new value is queued; otherwise nothing is.
     */
    method QueueEdge(prev: bool, cur: bool, rising: DeviceStatus, falling: DeviceStatus, duration: u32, now: u32,
                     ghost q0: seq<StatusMessage>, ghost before: seq<StatusMessage>)
      requires queue == EnqueueAll(q0, before)
      modifies this`queue
      ensures queue == EnqueueAll(q0, before + EdgeEvent(prev, cur, rising, falling, now, duration))
    {
      EnqueueAllStep(q0, before, EdgeEvent(prev, cur, rising, falling, now, duration));
      if cur != prev {
        SetStatus(if cur then rising else falling, duration, now);
      }
    }

    /**
     * `updateBlinkPattern`: once the interval has passed since the last
     * toggle the phase flips and the LED gets the brightness or 0; before
     * that nothing is written.
     */
    method UpdateBlinkPattern(interval: nat, now: u32) returns (led: Option<byte>)
      modifies this`blinkState, this`lastBlinkTime
      ensures Elapsed(now, old(lastBlinkTime)) >= interval ==>
        blinkState == !old(blinkState) && lastBlinkTime == now
        && led == Some(if blinkState then currentBrightness else 0)
      ensures Elapsed(now, old(lastBlinkTime)) < interval ==>
        led.None? && blinkState == old(blinkState) && lastBlinkTime == old(lastBlinkTime)
    {
      led := None;
      if Elapsed(now, lastBlinkTime) >= interval {
        blinkState := !blinkState;
        lastBlinkTime := now;
        led := Some(if blinkState then currentBrightness else 0);
      }
    }

    /** `updateFadeOutPattern`: the scaled level, then off for good after 2000 ms. */
    method UpdateFadeOutPattern(now: u32) returns (led: Option<byte>)
      modifies this`currentPattern
      ensures Elapsed(now, patternStartTime) >= FadeTimeMs ==> led == Some(0) && currentPattern == Off
      ensures Elapsed(now, patternStartTime) < FadeTimeMs ==>
        led == Some(FadeBrightness(currentBrightness, Elapsed(now, patternStartTime)))
        && currentPattern == old(currentPattern)
    {
      var elapsed := Elapsed(now, patternStartTime);
      if elapsed >= FadeTimeMs {
        led := Some(0);
        currentPattern := Off;
      } else {
        led := Some(FadeBrightness(currentBrightness, elapsed));
      }
    }

    /**
     * What one LED step shows for a state: nothing lit when off, the level
     * when steady, the sine-scaled level when pulsing, and never more than
     * the state's brightness.
     */
    predicate LedShows(st: LedState, led: Option<byte>, sine: real)
      requires 0.0 <= sine <= 1.0
    {
      (st.pattern == Off ==> led == Some(0))
      && (st.pattern == Steady ==> led == Some(st.brightness))
      && (st.pattern == Pulse ==> led == Some(PulseBrightness(st.brightness, sine)))
      && (led.Some? ==> led.value <= st.brightness)
    }

    /**
     * `updateLEDPattern`: steps the current pattern, returning the level it
     * hands to `setLEDPower` (None when it writes nothing), then sends an
     * expired temporary status back to idle. `sine` stands for the
     * `(sin(phase) + 1) / 2` of the pulse pattern.
     */
    method UpdateLedPattern(now: u32, sine: real) returns (led: Option<byte>)
      requires 0.0 <= sine <= 1.0
      modifies this`currentStatus, this`currentPattern, this`currentBrightness, this`patternStartTime,
               this`lastBlinkTime, this`blinkState
      ensures old(currentPattern) == Off ==> led == Some(0)
      ensures old(currentPattern) == Steady ==> led == Some(old(currentBrightness))
      ensures old(currentPattern) == Pulse ==> led == Some(PulseBrightness(old(currentBrightness), sine))
      ensures old(currentPattern) in {BlinkFast, BlinkSlow} ==>
        (led.Some? <==> Elapsed(now, old(lastBlinkTime))
                        >= if old(currentPattern) == BlinkFast then Config.LedBlinkFast else Config.LedBlinkSlow)
      ensures led.Some? ==> led.value <= old(currentBrightness)
      ensures LedShows(old(State()), led, sine)
      ensures IsTemporaryStatus(old(currentStatus))
              && Elapsed(now, old(patternStartTime)) >= Config.LedBlinkDuration ==>
        State() == Transition(old(State()), Idle, isLowPowerMode) && patternStartTime == now
      ensures !(IsTemporaryStatus(old(currentStatus))
                && Elapsed(now, old(patternStartTime)) >= Config.LedBlinkDuration) ==>
        currentStatus == old(currentStatus) && currentBrightness == old(currentBrightness)
        && patternStartTime == old(patternStartTime)
    {
      match currentPattern {
        case Off => led := Some(0);
        case Steady => led := Some(currentBrightness);
        case BlinkFast => led := UpdateBlinkPattern(Config.LedBlinkFast, now);
        case BlinkSlow => led := UpdateBlinkPattern(Config.LedBlinkSlow, now);
        case Pulse => led := Some(PulseBrightness(currentBrightness, sine));
        case FadeOut => led := UpdateFadeOutPattern(now);
      }
      if IsTemporaryStatus(currentStatus) && Elapsed(now, patternStartTime) >= Config.LedBlinkDuration {
        HandleStatusChange(Idle, 0, now);
      }
    }

    /**
     * `update`: under the lock, drains the queue, checks the connection
     * inputs and steps the LED pattern of the state the drain left; without
     * the lock nothing happens. A status that was just applied has not yet
     * run out, and a blink it starts begins dark.
     */
    method Update(lockOk: bool, ble: bool, usb: bool, charging: bool, now: u32, sine: real)
      returns (led: Option<byte>)
      requires 0.0 <= sine <= 1.0
      requires Valid()
      modifies this
      ensures Valid()
      ensures !lockOk ==> led.None? && queue == old(queue) && State() == old(State())
      ensures lockOk ==>
        queue == EnqueueAll([], ConnectionEvents(old(prevBleConnected), ble, old(prevUsbConnected), usb,
                                                 old(prevCharging), charging, now))
        && prevBleConnected == ble && prevUsbConnected == usb && prevCharging == charging
      ensures lockOk ==> LedShows(ApplyAll(old(State()), old(queue), old(isLowPowerMode)), led, sine)
      ensures lockOk && |old(queue)| > 0 ==> var drained := ApplyAll(old(State()), old(queue), old(isLowPowerMode));
        currentStatus == drained.status && currentBrightness == drained.brightness
        && (drained.pattern in {BlinkFast, BlinkSlow} ==> led.None?)
    {
      led := None;
      if lockOk {
        ghost var events := ConnectionEvents(prevBleConnected, ble, prevUsbConnected, usb, prevCharging, charging, now);
        ghost var drained := ApplyAll(State(), queue, isLowPowerMode);
        ghost var hadMessages := |queue| > 0;
        ProcessStatusQueue(now);
        assert State() == drained;
        assert hadMessages ==> Elapsed(now, patternStartTime) == 0 && Elapsed(now, lastBlinkTime) == 0;
        CheckConnectionStates(ble, usb, charging, now);
        assert queue == EnqueueAll([], events);
        EnqueueAllBounded([], events);
        led := UpdateLedPattern(now, sine);
        assert LedShows(drained, led, sine);
        assert hadMessages ==> currentStatus == drained.status && currentBrightness == drained.brightness
                               && (drained.pattern in {BlinkFast, BlinkSlow} ==> led.None?);
      }
    }
  }
}
