# GripDeck in Dafny

GripDeck is an ESP32-S3 board that sits between a battery pack and a
single-board computer (SBC). Its firmware measures the battery and the
charger on an INA3221 monitor. It also switches the SBC and the status LEDs,
debounces a power button, and presents itself over USB as a HID keyboard,
mouse, gamepad and system-control device. Over Bluetooth LE it accepts
textual commands (`CMD:DATA|DATA…`). A 32-byte vendor feature report (report
ID 6) carries a binary ping/status/info protocol. Two host programs speak
that protocol: a Linux power-supply driver and a C test client.

This project models that core. Each source component is one Dafny module:

| module | file | models |
|---|---|---|
| `Config` | config.dfy | `Config.h`: pins, thresholds, wake mask, battery chemistry tables |
| `Bytes`, `Text`, `Seqs`, `Wrappers` | bytes.dfy, text.dfy, seqs.dfy, wrappers.dfy | fixed-width integers, little-endian codecs, C strings, `atoi`, `%d`/`%.3f`/`%X`, `strtok` |
| `VendorProtocol` | vendor_protocol.dfy | the vendor packet, its codes, status/info payloads, the report descriptor |
| `UsbHid` | usb_hid.dfy | `executeHIDCommand`, the validators, the HID calls and the buttons they leave held |
| `UsbManager` | usb_manager.dfy | the `USBManager` class: HID queue, vendor mailbox, connection tracking |
| `VendorHid` | vendor_hid.dfy | the `GripDeckVendorHID` callbacks that write into the USB stack's buffer |
| `HostProtocol` | host_protocol.dfy | the host test client `gripdeck_protocol.c` |
| `Exchange` | exchange.dfy | host and firmware composed: what the client reads back for each request |
| `BatteryDriver` | battery_driver.dfy | the Linux driver `gripdeck_battery.c` |
| `Telemetry` | telemetry.dfy | INA3221 register decoding, state-of-charge interpolation, time to full |
| `PowerManager` | power_manager.dfy | the `PowerManager` class and the `toString`/`getPowerInfo` texts |
| `StatusManager` | status_manager.dfy | the `StatusManager` class: status queue, LED pattern state machine |
| `SystemManager` | system_manager.dfy | power-button debouncing, MAC grouping, the SYSTEM_INFO line |
| `BleProtocol` | ble_protocol.dfy | BLE command parsing, keyword lookup, dispatch, help text, notification chunks |
| `BleManager` | ble_manager.dfy | the `BLEManager` class: command queue, parse methods, `sendResponse`, `handleCommand` |

Objects whose fields the firmware updates in place are classes with
`modifies` frames. These are the managers, the vendor HID shim and the
driver's state. Parsing, encoding and arithmetic are functions. Each loop
in the source is a method with a `while` loop, proved against the function
that specifies it: `sendResponse`, the `strtok` loop, the trim loop, the
command lookup, the two queue drains and the MAC grouping loop.

Side effects become values:

- The clock, I2C replies, lock and allocation outcomes, the MTU and the
  BLE/USB link state are parameters.
- HID device calls are a `seq<HidAction>` log.
- A BLE notification is a string appended to `sent`.
- SBC power requests are returned to the caller.

Floating-point quantities are `real`. Integer widths are explicit:

- `u8`/`i8`/`i16`/`u16`/`u32` subset types;
- `atoi` results narrowed by wrap-around as C's casts do;
- `uint32_t` time differences taken modulo 2^32.

### Where the code and the project's own description differ

The model follows the code in each case.

- `handleCommand` has no case for `BLE_CMD_STATUS` or `BLE_CMD_GET_SYSTEM_INFO`.
  - Its cases are for `BLE_CMD_POWER_INFO` and `BLE_CMD_SYSTEM_INFO`, which no keyword maps to.
  - So `STATUS` and `GET_SYSTEM_INFO` get the unknown-command text and an error blink.
  - This is stated by `BleProtocol.StatusAndSystemInfoAreUnknown`.
- `HID_MOUSE_MOVE:10:-5` replies `"0"`.
  - The data part is split on `|`, so `10:-5` is one field, and the command needs two.
  - This is stated by `BleProtocol.MouseMoveWithColonsFails`.
- `HID_GAMEPAD_HOLD` releases the button, exactly as `HID_GAMEPAD_RELEASE` does.
- `isValidKey` accepts every key code.
  - Key 0 is still dropped later, inside `executeHIDCommand`.
- `calculateBatteryPercentage` does not use the configured battery constants.
  - Its voltage-sag compensation uses a fixed 0.1 Ω, not `kInternalR`.
  - It has its own LiPo table, not `kVoltagePoints`; the two tables are equal (`Telemetry.LocalTableIsConfigured`).
- The battery's time to full discharge is never computed; it is always 0.
  - `BatteryData::toString` prints no ETA.

## Model

| member | source | states |
|---|---|---|
| Config.WakeMaskBits | firmware/include/config/Config.h:158 | the wake mask selects exactly GPIO 11 (power button) and GPIO 12 (input detect), i.e. 0x1800 |
| Config.ThresholdsOrdered | firmware/include/config/Config.h:50-63 | the startup minimum lies below the power-saving level; debounce ≤ short-press minimum ≤ short-press maximum < long-press minimum, with a 999 ms dead band between |
| Config.SelectedChemistry | firmware/include/config/Config.h:171-199 | the first defined chemistry macro wins; none defined is a build error (None) |
| Config.BuiltChemistryIsSelected | firmware/include/config/Config.h:52-53 | with both macros defined, the LiPo table is the one built |
| Config.CurveWellFormed | firmware/include/config/Config.h:171-202 | both chemistry tables have kNumPoints = 10 entries, run from kMinVoltage to kMaxVoltage and from 0 % to 100 %, and rise strictly |
| Text.AtoiIntToString | firmware/src/managers/BLEManager.cpp:313-330 | `atoi` reads back every `int` that `%d` prints |
| VendorProtocol.DecodeEncode | firmware/tests/gripdeck_protocol.h:30-36 | decoding the 32 encoded bytes of a vendor packet gives the packet back |
| VendorProtocol.EncodeDecode | firmware/tests/gripdeck_protocol.h:30-36 | every 32-byte buffer is the encoding of the packet it decodes to |
| VendorProtocol.ZeroedPacket | firmware/src/managers/USBManager.cpp:687-702 | a response header carries the magic 0x4744, version 1, the given code and sequence, and a zeroed payload |
| VendorProtocol.Response | firmware/src/managers/USBManager.cpp:687-702 | `sendVendorResponse`: a valid header echoing the request's sequence, with the data copied into the payload and zeros after it |
| VendorProtocol.StatusLayout | firmware/tests/gripdeck_protocol.h:38-49 | the packed status payload puts each field little-endian at its offset: 0, 2, 4, 8, 10, 12, 16, 18, 19 and 20 |
| VendorProtocol.DecodeEncodeStatus | firmware/tests/gripdeck_protocol.h:38-49 | decoding an encoded status payload gives every field back |
| VendorProtocol.InfoPayloadContents | firmware/src/managers/USBManager.cpp:736-745 | the info payload holds version 0x0100 then "GD001" NUL-terminated and zero-padded |
| VendorProtocol.ResponseFor | firmware/src/managers/USBManager.cpp:655-716 | a request gets a reply iff its magic and version are right and its command is PING, GET_STATUS or GET_INFO; the reply echoes the sequence and carries the command's code + 0x80; PONG has a zero payload, STATUS decodes back to the live status, INFO carries the info payload |
| VendorProtocol.ParseEncodeItems | firmware/src/classes/GripDeckVendorHID.cpp:7-19 | short HID items parse back from their encoding |
| VendorProtocol.DescriptorDeclaresVendorReport | firmware/src/classes/GripDeckVendorHID.cpp:7-19 | the 22-byte descriptor parses into its items and declares exactly one feature report: ID 6, 32 × 8 bits |
| VendorProtocol.ReportDescriptorEncodesItems | firmware/src/classes/GripDeckVendorHID.cpp:7-19 | the descriptor bytes are exactly the encoding of the vendor-page collection's items |
| UsbHid.IsValidKey | firmware/src/managers/USBManager.cpp:747-791 | every key code is accepted, whether HID is enabled or not |
| UsbHid.IsValidMouseButton | firmware/src/managers/USBManager.cpp:793-796 | a button mask is valid iff HID is disabled or it is 1..7 |
| UsbHid.ClampI8 | firmware/src/managers/USBManager.cpp:332-341 | the scroll clamp returns the `int8_t` nearest to the value |
| UsbHid.Execute | firmware/src/managers/USBManager.cpp:221-409 | nothing happens when HID is disabled, uninitialised or disconnected; otherwise activity is noted first, then the device calls are made only if the lock was taken |
| UsbHid.SelectedButtons | firmware/src/managers/USBManager.cpp:299-331 | the mouse buttons touched are exactly those whose bit (1, 2, 4) is set |
| UsbHid.KeyboardPressReleasesAll | firmware/src/managers/USBManager.cpp:250-272 | a key press of a non-zero key leaves no key held and mouse and gamepad untouched |
| UsbHid.KeyZeroRejected | firmware/src/managers/USBManager.cpp:250-283 | key 0 is never pressed |
| UsbHid.KeyboardHoldThenRelease | firmware/src/managers/USBManager.cpp:274-288 | holding a key then releasing it leaves the held set as before minus that key, and the key is held in between |
| UsbHid.MouseButtonsEffect | firmware/src/managers/USBManager.cpp:299-331 | press adds the selected buttons to the held set, release and click remove them |
| UsbHid.GamepadButtonEffect | firmware/src/managers/USBManager.cpp:371-384 | a valid gamepad button is held when bit 0x80 is set and released otherwise; an invalid one changes nothing |
| UsbHid.ScrollClamped | firmware/src/managers/USBManager.cpp:332-341 | a scroll is one mouse move with no pointer motion and wheel/pan clamped to `int8_t`, equal to y/x when they fit |
| UsbHid.MoveAndSticksWrap | firmware/src/managers/USBManager.cpp:293-391 | a mouse move or a stick position is one call whose values are the `int16_t` inputs narrowed to `int8_t` by wrap-around (in range, equal modulo 256), unchanged when they fit |
| UsbHid.MoveWrapsWhereScrollClamps | firmware/src/managers/USBManager.cpp:293-341 | an x of 200 moves the pointer by -56 but scrolls by the maximum 127 |
| UsbHid.ApplyAllConcat | firmware/src/managers/USBManager.cpp:221-409 | replaying two logs of device calls in turn is replaying their concatenation |
| UsbManager.NextConnected | firmware/src/managers/USBManager.cpp:47-73 | STARTED and RESUME connect, STOPPED disconnects, SUSPEND and others keep the state; nothing changes with HID disabled |
| UsbManager.Push | firmware/src/managers/USBManager.cpp:430-445 | a send succeeds iff it is admitted and the 10-deep queue has room, and then appends exactly that message |
| UsbManager.ExecuteAllConcat | firmware/src/managers/USBManager.cpp:411-428 | draining two queued runs in turn produces the two action logs one after the other |
| UsbManager.BuildStatusPayload | firmware/src/managers/USBManager.cpp:718-734 | uptime and charge times are the millisecond values divided down to whole seconds; the charger flag is 1 or 0 |
| UsbManager.UsbManager.HandleUsbEvent | firmware/src/managers/USBManager.cpp:47-73 | the connection flag becomes `NextConnected` of the event and nothing else changes |
| UsbManager.UsbManager.InitializeFreeRTOSResources | firmware/src/managers/USBManager.cpp:75-104 | initialisation succeeds iff queue and mutex are created; it is a no-op once initialised and always succeeds with HID disabled |
| UsbManager.UsbManager.Begin | firmware/src/managers/USBManager.cpp:106-192 | with HID disabled it succeeds disconnected; otherwise it succeeds iff USB starts, and then the device counts as connected iff mounted after 5 s |
| UsbManager.UsbManager.ProcessHidCommands | firmware/src/managers/USBManager.cpp:411-428 | when ready, the queue empties and the action log grows by the execution of every queued message in order; otherwise nothing changes |
| UsbManager.UsbManager.Update | firmware/src/managers/USBManager.cpp:194-219 | lazily initialises, refreshes the connection from the mount state after 5 s and drains the HID queue |
| UsbManager.UsbManager.Enqueue | firmware/src/managers/USBManager.cpp:430-445 | the message is pushed iff the check passes and the manager is initialised; with HID disabled the call succeeds and queues nothing |
| UsbManager.UsbManager.SendKeyPress | firmware/src/managers/USBManager.cpp:430-445 | queues a KEYBOARD_PRESS message with the key, as `Push` |
| UsbManager.UsbManager.SendKeyHold | firmware/src/managers/USBManager.cpp:447-462 | queues a KEYBOARD_HOLD message with the key, as `Push` |
| UsbManager.UsbManager.SendKeyRelease | firmware/src/managers/USBManager.cpp:464-479 | queues a KEYBOARD_RELEASE message with the key, as `Push` |
| UsbManager.UsbManager.TypeText | firmware/src/managers/USBManager.cpp:481-498 | an empty text is refused; otherwise a KEYBOARD_TYPE message with the text truncated to the buffer is queued |
| UsbManager.UsbManager.SendMouseMove | firmware/src/managers/USBManager.cpp:500-515 | queues a MOUSE_MOVE message with x and y |
| UsbManager.UsbManager.SendMousePress | firmware/src/managers/USBManager.cpp:517-532 | a mask outside 1..7 is refused; otherwise a MOUSE_PRESS message is queued |
| UsbManager.UsbManager.SendMouseHold | firmware/src/managers/USBManager.cpp:534-549 | a mask outside 1..7 is refused; otherwise a MOUSE_HOLD message is queued |
| UsbManager.UsbManager.SendMouseRelease | firmware/src/managers/USBManager.cpp:551-566 | a mask outside 1..7 is refused; otherwise a MOUSE_RELEASE message is queued |
| UsbManager.UsbManager.SendMouseScroll | firmware/src/managers/USBManager.cpp:568-583 | queues a MOUSE_SCROLL message with x and y |
| UsbManager.UsbManager.SendGamepadButton | firmware/src/managers/USBManager.cpp:585-600 | queues a GAMEPAD_BUTTON message whose buttons byte is 0x80 for a press and 0 for a release |
| UsbManager.UsbManager.SendGamepadRightAxis | firmware/src/managers/USBManager.cpp:602-617 | queues a GAMEPAD_AXIS_RIGHT message with x and y |
| UsbManager.UsbManager.SendGamepadLeftAxis | firmware/src/managers/USBManager.cpp:619-634 | queues a GAMEPAD_AXIS_LEFT message with x and y |
| UsbManager.UsbManager.SendSystemPowerKey | firmware/src/managers/USBManager.cpp:636-653 | queues a SYSTEM_POWER message |
| UsbManager.UsbManager.HandleVendorReport | firmware/src/managers/USBManager.cpp:655-685 | a 32-byte report 6 with a well-formed known request stages `ResponseFor` and marks it ready; anything else leaves the mailbox as it was |
| UsbManager.UsbManager.GetVendorResponse | firmware/src/managers/USBManager.cpp:816-835 | with a destination, a staged response is handed out once and the flag cleared, and with none staged an ERROR packet is returned; without a destination nothing changes |
| VendorHid.FeatureReply | firmware/src/classes/GripDeckVendorHID.cpp:50-74 | with no manager or nothing staged the reply is the ERROR packet (valid header, sequence 0), else the staged response |
| VendorHid.GripDeckVendorHid.OnGetDescriptor | firmware/src/classes/GripDeckVendorHID.cpp:44-48 | copies the 22 descriptor bytes into the buffer, leaves the rest alone and returns 22 |
| VendorHid.GripDeckVendorHid.OnGetFeature | firmware/src/classes/GripDeckVendorHID.cpp:50-74 | a wrong report ID or a buffer under 32 bytes gets 0 and an untouched buffer; otherwise the 32-byte encoding of the reply is written, the ready flag is consumed and 32 is returned |
| VendorHid.GripDeckVendorHid.OnSetFeature | firmware/src/classes/GripDeckVendorHID.cpp:76-82 | forwards the report to `handleVendorReport`, with the same staging rule |
| HostProtocol.CommandBufferDecodes | firmware/tests/gripdeck_protocol.c:101-120 | the 33-byte command buffer is report ID 6 followed by a valid request header (magic "DG" on the wire, version 1, the command, the sequence) and a zero payload |
| HostProtocol.BuildCommandBuffer | firmware/tests/gripdeck_protocol.c:101-120 | fills a fresh array with exactly that buffer |
| HostProtocol.ReceiveResponse | firmware/tests/gripdeck_protocol.c:122-151 | a reply is accepted iff there is a destination, the read succeeded and magic and version are right; the packet is the bytes after the report ID |
| HostProtocol.ReceiveAcceptsAnyCommand | firmware/tests/gripdeck_protocol.c:122-151 | any well-headed packet is accepted whatever its command, which is left to the callers |
| HostProtocol.Ping | firmware/tests/gripdeck_protocol.c:153-178 | a ping succeeds iff the reply is PONG (byte 4 is 0x81) with the same sequence |
| HostProtocol.GetStatus | firmware/tests/gripdeck_protocol.c:180-207 | status is returned iff the reply is STATUS with the same sequence, and it is the payload the firmware encoded |
| HostProtocol.DecodeEncodeInfo | firmware/tests/gripdeck_protocol.h:51-55 | decoding an encoded info payload gives it back |
| HostProtocol.GetInfo | firmware/tests/gripdeck_protocol.c:209-236 | info is returned iff the reply is INFO with the same sequence; version and serial are read from their offsets |
| HostProtocol.TimeSplit | firmware/tests/gripdeck_protocol.c:246-263 | a non-zero time in seconds is shown as hours and minutes under 60 that add up to it (within a minute); 0 shows no time |
| Exchange.AnswerToHostRequest | firmware/src/managers/USBManager.cpp:655-716 | the firmware answers a client request iff its command is known, echoing the sequence |
| Exchange.PingRoundTrip | firmware/tests/gripdeck_protocol.c:153-178 | the client's ping succeeds on the firmware's answer for every sequence |
| Exchange.GetStatusRoundTrip | firmware/tests/gripdeck_protocol.c:180-207 | the client reads back exactly the status the firmware reported |
| Exchange.GetInfoRoundTrip | firmware/tests/gripdeck_protocol.c:209-236 | the client reads back exactly the firmware's info payload |
| Exchange.ErrorPacketRejected | firmware/tests/gripdeck_protocol.c:153-236 | the ERROR packet passes the header check but fails ping, status and info |
| Exchange.RoundTrip | firmware/src/classes/GripDeckVendorHID.cpp:50-82 | a SET_REPORT then GET_REPORT through the shim returns the encoded answer, or the ERROR packet when there is no manager |
| BatteryDriver.DecodeCorrectedIsStatus | driver/gripdeck_battery.c:140-146 | reading the buffer at the packed offsets is decoding the status payload that follows the header |
| BatteryDriver.DriverReadsStatus | driver/gripdeck_battery.c:140-146 | at the corrected offset, the driver caches exactly the fields the firmware reported |
| BatteryDriver.AsWrittenCapacityIsChargerPower | driver/gripdeck_battery.c:146 | as written, the cached capacity is the low byte of the charger power, not the battery percentage |
| BatteryDriver.AsWrittenCapacityCounterexample | driver/gripdeck_battery.c:146 | a status at 50 % with no charger power is read as 0 % as written and 50 % when corrected |
| BatteryDriver.ErrorPacketZeroesCache | driver/gripdeck_battery.c:140-146 | an ERROR reply caches all zeros, with the offsets as written and with the corrected capacity offset |
| BatteryDriver.ChargeStatus | driver/gripdeck_battery.c:64-73 | FULL iff capacity ≥ 100; CHARGING iff below that with charger current > 0; DISCHARGING iff neither and battery current < 0; NOT_CHARGING otherwise |
| BatteryDriver.GetProperty | driver/gripdeck_battery.c:55-94 | voltage and current are scaled to µV/µA, capacity is passed through, status is one of the four, and an unknown property is -EINVAL |
| BatteryDriver.TimeToEmptyAlwaysZero | driver/gripdeck_battery.c:83-85 | for any channel readings, the battery record has no discharge estimate, so the status payload built from it carries 0 seconds and the driver (as written) reports a time to empty of 0 |
| BatteryDriver.ToInt32 | driver/gripdeck_battery.c:83-88 | a `u32` field read as `int` is the value reduced into 32-bit two's complement |
| BatteryDriver.GripdeckBattery.UpdateWork | driver/gripdeck_battery.c:104-155 | the sequence advances modulo 2^32, a GET_STATUS request goes out if the buffer was allocated, the cache is replaced by the reply decoded as written (capacity from `buf + 25`) only when both transfers succeed, and work is rescheduled in 2000 ms |
| Telemetry.ReadRegister | firmware/src/managers/PowerManager.cpp:96-112 | a register is the two bytes read high first, or 0 when the bus fails |
| Telemetry.ChannelRegister | firmware/src/managers/PowerManager.cpp:114-160 | channels 1..3 map to shunt registers 1, 3, 5 and bus registers 2, 4, 6; any other channel reads 0 |
| Telemetry.BusMillivolts | firmware/src/managers/PowerManager.cpp:138-160 | the bus reading is the register with its 3 low bits dropped, in mV (8 mV steps) |
| Telemetry.ShuntMicrovolts | firmware/src/managers/PowerManager.cpp:114-136 | the shunt reading is the signed register shifted right 3 times 40 µV |
| Telemetry.Current | firmware/src/managers/PowerManager.cpp:162-164 | current is shunt voltage over the 0.1 Ω shunt |
| Telemetry.LocalTableIsConfigured | firmware/src/managers/PowerManager.cpp:252-253 | the function's own table equals the configured LiPo table |
| Telemetry.BatteryPercentage | firmware/src/managers/PowerManager.cpp:245-289 | the percentage is within 0..100, 0 below the minimum voltage and 100 at or above the maximum |
| Telemetry.PercentageMonotone | firmware/src/managers/PowerManager.cpp:245-289 | without sag compensation (current of -0.5 A or more) a higher voltage never gives a lower percentage |
| Telemetry.CompensationRaises | firmware/src/managers/PowerManager.cpp:268-281 | the sag compensation never lowers the estimate |
| Telemetry.PercentageAtTablePoint | firmware/src/managers/PowerManager.cpp:245-289 | at each table voltage the percentage is the table's percentage |
| Telemetry.NominalVoltageIsForty | firmware/src/managers/PowerManager.cpp:245-289 | 3.7 V at rest is 40 % |
| Telemetry.TimeToFullyChargeMs | firmware/src/managers/PowerManager.cpp:291-296 | 0 unless charging above 4.0 V; otherwise the missing charge of 4500 mAh over the current, in ms |
| Telemetry.TimeToFullyChargeBounds | firmware/src/managers/PowerManager.cpp:291-296 | the estimate is never negative and is 0 when full |
| Telemetry.ToU32 | firmware/src/managers/PowerManager.cpp:182 | the float-to-`uint32_t` cast truncates in range |
| Telemetry.BatteryFromReadings | firmware/src/managers/PowerManager.cpp:166-171 | battery data holds the readings, their product and the percentage, with no discharge estimate |
| Telemetry.ChargerFromReadings | firmware/src/managers/PowerManager.cpp:173-184 | the charger counts as connected iff it is at 4.0 V or more; at 4.2 V or more it is connected and needs no more time |
| PowerManager.LedDuty | firmware/src/managers/PowerManager.cpp:74-87 | full duty normally; in power saving a quarter, rounded down; 0 stays 0 |
| PowerManager.PowerInfoShape | firmware/include/managers/PowerManager.h:165-182 | the POWER_INFO line is its tag then exactly the seven numeric fields, recovered by splitting on `|` |
| PowerManager.BatteryStringHasNoEta | firmware/include/managers/PowerManager.h:22-28 | the battery text carries no ETA |
| PowerManager.EtaSplit | firmware/include/managers/PowerManager.h:38-55 | the charger's ETA shows whole minutes and seconds under 60 that make up the whole seconds; 0 shows none |
| PowerManager.PowerManager.IsPowerSavingMode | firmware/include/managers/PowerManager.h:148-159 | true iff the data lock exists and is taken and the stored data says power saving |
| PowerManager.PowerManager.CanPowerOnSBC | firmware/include/managers/PowerManager.h:131-146 | never without the lock; only when the battery is at the 5 % minimum or more |
| PowerManager.PowerManager.GetPowerData | firmware/include/managers/PowerManager.h:113-120 | the stored data iff the lock is taken |
| PowerManager.PowerManager.ForceSetSBCPower | firmware/include/managers/PowerManager.h:123-125 | the SBC pin takes the requested level |
| PowerManager.PowerManager.SetPowerData | firmware/include/managers/PowerManager.h:81-89 | under the lock, stores the readings, the timestamp and the power-saving flag derived from them |
| PowerManager.PowerManager.SetLEDPower | firmware/src/managers/PowerManager.cpp:74-87 | LEDs are enabled iff the brightness is non-zero, and the duty is `LedDuty` of the current mode |
| PowerManager.PowerManager.EnableLEDs | firmware/src/managers/PowerManager.cpp:89-94 | records the flag; disabling zeroes the duty |
| PowerManager.PowerManager.Begin | firmware/src/managers/PowerManager.cpp:19-45 | succeeds iff both mutexes and the monitor come up, and then starts with the LEDs off |
| PowerManager.PowerManager.Update | firmware/src/managers/PowerManager.cpp:47-61 | once the interval has passed, stores fresh readings of both channels, the timestamp and the power-saving flag they imply under the lock, and notes the time; before that nothing changes |
| PowerManager.PowerManager.GetPowerInfo | firmware/include/managers/PowerManager.h:165-182 | the POWER_INFO text of the stored data iff the lock is taken |
| StatusManager.LedBrightness | firmware/src/managers/StatusManager.cpp:304-309 | 64 in low-power mode, 255 otherwise |
| StatusManager.Transition | firmware/src/managers/StatusManager.cpp:162-211 | each status maps to its pattern (fast blink iff temporary, slow blink for power on/off, pulse iff charging, fade iff shutdown, steady otherwise); shutdown keeps the brightness, low power dims it |
| StatusManager.ApplyAllLastWins | firmware/src/managers/StatusManager.cpp:107-112 | after draining the queue, the newest message's status and pattern are in force |
| StatusManager.ApplyAllBrightness | firmware/src/managers/StatusManager.cpp:107-112 | without a shutdown queued, the brightness after draining is the one the last status asks for |
| StatusManager.Enqueue | firmware/src/managers/StatusManager.cpp:78-87 | a full 10-message queue drops the new message; otherwise it is appended |
| StatusManager.EnqueueAllBounded | firmware/src/managers/StatusManager.cpp:78-87 | the queue never exceeds ten messages, and holds min(10, old + new) |
| StatusManager.EdgeEvent | firmware/src/managers/StatusManager.cpp:122-132 | one message when the input changed, naming its new state; none otherwise |
| StatusManager.ConnectionEventsPerChange | firmware/src/managers/StatusManager.cpp:114-160 | one message per changed input, BLE first and charging last, all stamped now; only connection events carry a blink duration |
| StatusManager.FadeBrightness | firmware/src/managers/StatusManager.cpp:289-302 | the fade starts at full brightness and never exceeds it |
| StatusManager.FadeMonotone | firmware/src/managers/StatusManager.cpp:289-302 | the fade never brightens over time |
| StatusManager.PulseBrightness | firmware/src/managers/StatusManager.cpp:275-287 | the pulse stays between a fifth of the brightness and the brightness |
| StatusManager.StatusManager.SetStatus | firmware/src/managers/StatusManager.cpp:78-87 | queues a message stamped with the time, as `Enqueue` |
| StatusManager.StatusManager.SetLowPowerMode | firmware/src/managers/StatusManager.cpp:89-105 | under the lock a change of the flag records it and queues LOW_POWER_MODE or IDLE; no change queues nothing |
| StatusManager.StatusManager.Begin | firmware/src/managers/StatusManager.cpp:38-61 | succeeds iff queue and mutex are created, then shows a steady idle light |
| StatusManager.StatusManager.HandleStatusChange | firmware/src/managers/StatusManager.cpp:162-211 | the LED state becomes `Transition` of the old one and restarts its timers |
| StatusManager.StatusManager.ProcessStatusQueue | firmware/src/managers/StatusManager.cpp:107-112 | empties the queue and applies every message in order |
| StatusManager.StatusManager.CheckConnectionStates | firmware/src/managers/StatusManager.cpp:114-160 | queues `ConnectionEvents` of the old and new inputs and records the new inputs |
| StatusManager.StatusManager.UpdateBlinkPattern | firmware/src/managers/StatusManager.cpp:264-273 | once the interval has passed the phase flips and the LED gets the brightness or 0; before that nothing is written |
| StatusManager.StatusManager.UpdateFadeOutPattern | firmware/src/managers/StatusManager.cpp:289-302 | after 2000 ms the LED goes off for good; before, it gets the scaled level |
| StatusManager.StatusManager.UpdateLedPattern | firmware/src/managers/StatusManager.cpp:223-258 | each pattern writes its level, never above the brightness; a temporary status reverts to idle once 3000 ms have passed |
| StatusManager.StatusManager.Update | firmware/src/managers/StatusManager.cpp:63-76 | under the lock, drains the queue, leaves in it exactly the connection events and shows the LED level of the state the drain reached (off, steady, pulse, never above its brightness); after a non-empty drain that status and brightness stay and a blink starts dark; without the lock nothing changes |
| SystemManager.ClassifyBands | firmware/src/managers/SystemManager.cpp:50-58 | a short press is 50..2000 ms, a long one at least 3000 ms, and anything else does nothing |
| SystemManager.SystemManager.Begin | firmware/src/managers/SystemManager.cpp:14-24 | resets the button state and succeeds |
| SystemManager.SystemManager.CheckPowerButton | firmware/src/managers/SystemManager.cpp:30-61 | only an edge more than 50 ms after the last counts; a press starts timing; a release of a timed press toggles the SBC on a short press and forces it off on a long one |
| SystemManager.MacGroupsInverse | firmware/src/managers/SystemManager.cpp:70-74 | removing the `:` separators from the grouped MAC gives the hexadecimal text back |
| SystemManager.MacGroupsLength | firmware/src/managers/SystemManager.cpp:70-74 | grouping adds one `:` per pair after the first |
| SystemManager.FormatMac | firmware/src/managers/SystemManager.cpp:70-74 | the loop builds exactly the grouped MAC |
| SystemManager.GetSystemInfo | firmware/src/managers/SystemManager.cpp:63-88 | the line is the SYSTEM_INFO format over the grouped, upper-case efuse MAC |
| SystemManager.SystemInfoShape | firmware/src/managers/SystemManager.cpp:76-86 | when it fits 256 bytes, splitting the line on `|` gives the tag, the Wi-Fi MAC, the grouped MAC (which ungroups to the hexadecimal MAC), the version and the uptime |
| BleProtocol.LookupKeywords | firmware/src/managers/BLEManager.cpp:223-231 | each keyword of the table looks up its own command, and a name is UNKNOWN iff it is no keyword |
| BleProtocol.KeywordsDistinct | firmware/include/managers/BLEManager.h:48-73 | the 21 keywords are pairwise distinct |
| BleProtocol.LookupReachable | firmware/src/managers/BLEManager.cpp:223-231 | lookup never yields SYNTAX_ERROR or one of the undeclared commands `handleCommand` switches on |
| BleProtocol.HelpMentionsEveryKeyword | firmware/include/managers/BLEManager.h:75-111 | every keyword starts a line of the help text, followed by a space or `:` |
| BleProtocol.TrimTrailing | firmware/src/managers/BLEManager.cpp:200-207 | the trimmed text is a prefix, only blanks were removed, and it does not end in a blank |
| BleProtocol.TrimTrailingStable | firmware/src/managers/BLEManager.cpp:200-207 | trimming is idempotent and keeps a text that does not end in a blank |
| BleProtocol.Clean | firmware/src/managers/BLEManager.cpp:200-212 | the stored raw data is under 128 characters and NUL-free |
| BleProtocol.DataTokens | firmware/src/managers/BLEManager.cpp:250-265 | at most 7 data tokens are taken after the keyword |
| BleProtocol.Fields | firmware/src/managers/BLEManager.cpp:240-274 | between 1 and 8 fields, each under 32 characters and NUL-free |
| BleProtocol.Parse | firmware/src/managers/BLEManager.cpp:193-238 | the command is the lookup of the first field, with 1..8 fields and raw data under 128 characters |
| BleProtocol.ParseNeverSyntaxError | firmware/src/managers/BLEManager.cpp:214-221 | the syntax-error branch is unreachable: the field splitter always yields a field |
| BleProtocol.FieldsFormat | firmware/src/managers/BLEManager.cpp:240-274 | splitting `CMD:D1|D2…` gives back the keyword and the data when none contains a separator |
| BleProtocol.ParseFormat | firmware/src/managers/BLEManager.cpp:193-238 | parsing a formatted command yields its lookup, raw text and fields |
| BleProtocol.Request | firmware/src/managers/BLEManager.cpp:313-476 | a HID request is built only for a HID command with enough fields |
| BleProtocol.DispatchArity | firmware/src/managers/BLEManager.cpp:313-476 | a HID command with too few fields replies "0" and does nothing; with enough, it sends the request and replies with its outcome |
| BleProtocol.DispatchSbcPower | firmware/src/managers/BLEManager.cpp:289-311 | POWER_ON asks for the SBC on, POWER_OFF and SHUTDOWN for it off, nothing else touches it |
| BleProtocol.GamepadHoldIsRelease | firmware/src/managers/BLEManager.cpp:427-447 | HID_GAMEPAD_HOLD behaves exactly as HID_GAMEPAD_RELEASE |
| BleProtocol.StatusAndSystemInfoAreUnknown | firmware/src/managers/BLEManager.cpp:516-521 | STATUS and GET_SYSTEM_INFO get the unknown-command text and an error blink |
| BleProtocol.ParseMouseMoveWithColons | firmware/src/managers/BLEManager.cpp:250-265 | `HID_MOUSE_MOVE:10:-5` parses into the keyword and a single field `10:-5` |
| BleProtocol.MouseMoveWithColonsFails | firmware/src/managers/BLEManager.cpp:359-369 | that message replies "0" and moves nothing |
| BleProtocol.PacketCap | firmware/src/managers/BLEManager.cpp:128-138 | the packet size is the MTU less 3 (20 if the MTU is 3 or less), capped at 160 |
| BleProtocol.DefaultMtuCap | firmware/src/managers/BLEManager.cpp:128-138 | the default MTU of 23 gives 20-byte packets |
| BleProtocol.ChunksConcat | firmware/src/managers/BLEManager.cpp:150-171 | the packets concatenate back to the response |
| BleProtocol.ChunkSizes | firmware/src/managers/BLEManager.cpp:150-171 | every packet but the last is full-sized, the last at most that, and none is empty |
| BleProtocol.ChunkCount | firmware/src/managers/BLEManager.cpp:150-171 | a response longer than one packet is split, into the fewest packets that hold it |
| BleManager.Offer | firmware/src/managers/BLEManager.cpp:533-548 | a full 10-message command queue drops the message; otherwise it is appended |
| BleManager.HidResult | firmware/src/managers/BLEManager.cpp:313-476 | with HID disabled the call succeeds; otherwise it succeeds iff the request is valid, the manager ready and the queue not full, and only then is the message queued |
| BleManager.ReplyText | firmware/src/managers/BLEManager.cpp:313-514 | a HID outcome replies "1" or "0"; HELP replies the help text, unknown commands the unknown text |
| BleManager.Notify | firmware/src/managers/BLEManager.cpp:101-177 | with no link nothing is sent; otherwise at least one packet is appended and the new packets concatenate to the response |
| BleManager.HandleEffects | firmware/src/managers/BLEManager.cpp:276-523 | handling a command keeps both queues within their bounds, only appends notifications (at least one on a live link) and records the SBC request of the command |
| BleManager.HandleQueuesUntouched | firmware/src/managers/BLEManager.cpp:276-523 | non-HID commands do not touch the HID queue, and HID commands do not touch the status queue |
| BleManager.HandleAllEffects | firmware/src/managers/BLEManager.cpp:179-191 | draining the command queue keeps both queues bounded and sends at least one notification per command on a live link |
| BleManager.BleManager.Begin | firmware/src/managers/BLEManager.cpp:33-84 | succeeds iff queue and mutex are created, and then starts advertising |
| BleManager.BleManager.OnConnect | firmware/src/managers/BLEManager.cpp:525-527 | marks the device connected |
| BleManager.BleManager.OnDisconnect | firmware/src/managers/BLEManager.cpp:529-531 | marks the device disconnected |
| BleManager.BleManager.OnWrite | firmware/src/managers/BLEManager.cpp:533-548 | a write counts as activity iff it is 1..127 characters, and then it is offered to the queue |
| BleManager.BleManager.SendResponse | firmware/src/managers/BLEManager.cpp:101-177 | succeeds iff connected with a TX characteristic, and the notifications are `Notify` of the response |
| BleManager.BleManager.ParseDataComponents | firmware/src/managers/BLEManager.cpp:240-274 | the loop yields `Fields` of the text |
| BleManager.BleManager.ParseDataPart | firmware/src/managers/BLEManager.cpp:250-265 | the `strtok` loop yields the bounded copies of the data tokens |
| BleManager.BleManager.ParseCommand | firmware/src/managers/BLEManager.cpp:193-238 | yields `Parse` of the data |
| BleManager.BleManager.TrimData | firmware/src/managers/BLEManager.cpp:200-212 | the trim loop yields `Clean` of the data |
| BleManager.BleManager.LookupName | firmware/src/managers/BLEManager.cpp:223-231 | the table scan yields `Lookup` of the name |
| BleManager.BleManager.SendHid | firmware/src/managers/BLEManager.cpp:313-476 | the outcome and the USB queue are `HidResult` |
| BleManager.BleManager.HandleCommand | firmware/src/managers/BLEManager.cpp:276-523 | notifications, HID queue, status queue and SBC request are `Handle` of the message |
| BleManager.BleManager.ProcessCommands | firmware/src/managers/BLEManager.cpp:179-191 | empties the command queue, and the world afterwards is `HandleAll` of the queued messages |
| BleManager.BleManager.Update | firmware/src/managers/BLEManager.cpp:86-99 | restarts advertising on a disconnect edge, records the connection and processes the queue |

## Left out

- The SBC power handshake is not modelled: `trySetSBCPower` and `shouldSBCBePoweredOn` are declared in the headers, but their bodies are not part of this model. `handleCommand` and `checkPowerButton` return the request instead.
- `setSBCPower` in `PowerManager.cpp` only logs, so it is not modelled; `forceSetSBCPower` sets the pin.
- The deep-sleep watchdog is not modelled: `notifyActivity`, `enableDeepSleep`/`disableDeepSleep` and `getDeepSleepInfo` are in `main.cpp`, which is not part of this model. Their texts are parameters (`InfoTexts`), and `notifyActivity` is an action in the HID log.
- SYSTEM_RESTART's `delay` and `esp_restart` are not modelled. Only its reply is.
- FreeRTOS, the BLE stack, TinyUSB and I2C are outside the model.
  - Queue and mutex creation and lock outcomes are boolean parameters.
  - A register read is two bytes or a failure.
  - The MTU, the link state and the clock are parameters.
  - The HID device calls are a log of actions.
  - The HID library is not part of this model. Its `move` and stick parameters are taken to be `int8_t`, as in the ESP32 Arduino core, so move and stick values are wrapped (`UsbHid.DeviceCalls`).
- IEEE single precision is not modelled. Voltages, currents and percentages are `real`.
  - A float-to-integer cast is truncation (`Telemetry.ToU32`).
  - `UsbManager.BuildStatusPayload` takes the already-converted millivolt and milliamp integers as inputs.
- `%.3f` and `%.1f` print the exactly rounded value of a real (`Text.FormatFixed`), not of a binary float.
- The pulse pattern's sine is a parameter in 0..1 (`StatusManager.StatusManager.UpdateLedPattern`).
- `PowerManager.PowerManager.SetLEDPower`: the `ledcWrite` duty is a field; the PWM hardware is not modelled.
- `UPDATE_INTERVAL` and the `HIDMessage` text capacity are constructor parameters. `USBManager.h` does not give their values.
- `DISABLE_USB_HID` is a constructor parameter (`hidEnabled`), so both builds are covered.
- `isConnected`, `isUSBConnected` and similar one-line getters are read as fields.
- `main.cpp`, `main_test.cpp`, `DebugSerial`, `gripdeck_test.c` and the client's device discovery and `ioctl` calls are not part of this model. The same goes for the driver's probe/remove and its power-supply registration.
- The status manager's queue is a field of the class. Its mutex is a lock outcome.
- The BLE manager and the USB manager are separate objects, and `HandleCommand` reaches the USB manager only through its HID queue.
- `BleManager.BleManager.HandleCommand`: the power-info, system-info and deep-sleep replies are the parameter texts. Their own contents are stated by `PowerManager.PowerInfoShape` and `SystemManager.SystemInfoShape`.
- Telemetry.PercentageMonotone: monotonicity in the voltage is stated only for currents of -0.5 A or more, where no sag compensation applies. Below that the estimate depends on the current too; `Telemetry.CompensationRaises` states that compensation never lowers it.

## Findings

| source | as written | input that shows it | evidently intended | confidence | as-written member | corrected member |
|---|---|---|---|---|---|---|
| driver/gripdeck_battery.c:146 | the capacity is read from `buf + 25`, which is status-payload byte 16, the low byte of `charger_power_mw` | a status with `battery_percentage` 50 and `charger_power_mw` 0 is cached as capacity 0 | read `buf + 28`, payload byte 19, `battery_percentage` (offset 19 in the packed `status_payload_t`, plus the report ID and the 8-byte header) | not executed | BatteryDriver.AsWrittenCapacityCounterexample | BatteryDriver.DriverReadsStatus |

`BatteryDriver.GripdeckBattery.UpdateWork` keeps the driver's decoding as written. `BatteryDriver.DecodeCorrected` is the corrected decoding, and the end-to-end property `BatteryDriver.DriverReadsStatus` is proved of it.
