# ESP8266 multi-device sync light — a Dafny model

The firmware keeps several ESP8266 lights blinking the same pattern in the same
phase over ESP-NOW, with no fixed leader. One node is the controller: it
periodically sends the index of its blink routine to every other member and
restarts its own waveform at that instant. The other nodes are slaves: on every
received record they adopt the mode, or resynchronise when it is the current
one, at the arrival instant. A slave that hears nothing for `startup_delay`
milliseconds promotes itself, and a controller that hears anyone demotes itself.
At boot the stored mode is run and its successor is stored as a tentative value,
so repeated unclean restarts step through the patterns. Once `startup_delay` has
passed, the running mode is stored again as the confirmed value.

The model has three layers, one Dafny module per concern:

- `BlinkRoutines` (blink_routines.dfy): the routine classes as one datatype.
  `Render` is `loop(t)` and `GetDuration` is `getDuration`. The C++ truncating
  `%` is written out as `CRem`.
- `LedDriver` (led.dfy): class `Led` with the fields `offset` and `routine`.
  Its methods are proved against the value-level functions `Synchronized`,
  `WithRoutine` and `LevelAt`.
- `Peers` (peers.dfy): the member list and the filter "every member except
  self, in list order" used by `setupPeers` and `sendUpdateToPeers`.
- `Coordination` (coordination.dfy): the globals of `main.cpp` as a record
  `NodeState`. `setup`, `OnDataRecv` and `loop` are the functions `Setup`,
  `Receive` and `Tick`. The protocol's properties are lemmas about them.
- `NodeRuntime` (node.dfy): class `Node` holds the same globals as fields.
  Its methods `Setup`, `OnDataRecv` and `Loop` update them in place and are
  proved to follow `Setup`, `Receive` and `Tick`. `SetupPeers` and
  `SendUpdateToPeers` keep their `for` loops.

The radio, the EEPROM and the PWM pin are recorded effects:

- `eeprom` is the single stored byte.
- `selfRole` is the last value given to `esp_now_set_self_role`.
- `peers` holds the registrations of the last `setupPeers`.
- `outbox` holds every packet sent.
- `radioUp` says whether `esp_now_init` succeeded. It is a parameter of `Setup`.
- `loop` returns the PWM level instead of writing it.

Clock readings (`millis()`) and arrival instants are parameters. `startup_delay`
(`10000 + random(500)`) is a fixed field of `Config`.

Two defects of the firmware are modelled as written rather than hidden:

- **Unchecked mode index.** The received mode and the stored byte index the
  four-entry routine table without a range check. `Receive` and `Setup` return
  `OutOfBounds` with the state written before the faulting read.
  `ReceiveFaultsExactly` states exactly when that happens.
  `SetupFaultsOnUnknownMode` shows that an erased cell (255) faults once and
  the next boot runs.
- **Narrowing.** `blinkRoutineIndex` is a `uint8_t` assigned from an `int`.
  `ToByte` reduces modulo 256. `NarrowedModeAliases` shows that mode `m + 256k`
  acts as `m`, except that it rewrites the EEPROM.

Two behaviours of the firmware are easy to misread; the model follows the code:

- The single blink is on while the remainder is `<= on_state`, so it is on for
  `on + 1` ms per period, not `on` ms (`SingleBlinkOnTime`).
- Phases use C++'s truncating `%`, not a true modulo. A clock reading before
  the sync instant gives a non-positive remainder and shows "on"
  (`NegativePhaseIsOn`).

## Model

| member | source | states |
|---|---|---|
| `BlinkRoutines.SingleBlinkOf` | src/BlinkRoutines.h:41-46 | the two-argument single blink keeps both times and its period is their sum |
| `BlinkRoutines.DoubleBlinkOf` | src/BlinkRoutines.h:65-71 | the four-argument double blink stores running sums: successive thresholds differ by the given interval lengths |
| `BlinkRoutines.FadeOf` | src/BlinkRoutines.h:91-94 | a fade routine reports the period it was built with |
| `BlinkRoutines.GetDuration` | src/BlinkRoutines.h:15-18 | `getDuration` answers the routine's stored period |
| `BlinkRoutines.DefaultSingleBlink` | src/BlinkRoutines.h:35-40 | the default single blink is the two-argument one built from 80 ms on and 900 ms off |
| `BlinkRoutines.DefaultDoubleBlink` | src/BlinkRoutines.h:61-64 | the default double blink (80/160/240, period 1000) is the four-argument one with intervals 80, 80, 80 and 760 ms |
| `BlinkRoutines.CRem` | src/BlinkRoutines.h:49 | the C++ remainder: `t` is the quotient truncated toward zero times `d`, plus the remainder; the remainder has the dividend's sign and is smaller in magnitude than the divisor |
| `BlinkRoutines.Render` | src/BlinkRoutines.h:47-81 | a level is produced exactly for the single and double blink, and it is always `LED_MAX` (0) or `LED_MIN` (1024) |
| `BlinkRoutines.SingleBlinkLevel` | src/BlinkRoutines.h:47-50 | single blink is `LED_MAX` iff `t % duration <= on_state` and `LED_MIN` iff it is greater |
| `BlinkRoutines.DoubleBlinkLevel` | src/BlinkRoutines.h:72-81 | double blink is on up to `on_state`, off up to `off_state`, on up to `on_state_2`, off beyond |
| `BlinkRoutines.DoubleBlinkThresholdsOrdered` | src/BlinkRoutines.h:65-71 | with non-negative lengths, `0 <= on_state <= off_state <= on_state_2 <= duration` |
| `BlinkRoutines.Defaults` | src/BlinkRoutines.h:15-64 | default single blink is 80/900 with period 980; default double blink is 80/160/240 with the base period 1000; `getDuration` returns the period |
| `BlinkRoutines.CRemPeriodic` | src/BlinkRoutines.h:49 | for `t >= 0`, adding whole periods leaves the remainder unchanged |
| `BlinkRoutines.RenderPeriodic` | src/BlinkRoutines.h:47-81 | for `t >= 0`, `loop(t + k * duration) == loop(t)` for every routine |
| `BlinkRoutines.NegativePhaseIsOn` | src/BlinkRoutines.h:47-81 | a negative phase renders single and double blink as on, because C++ `%` truncates |
| `BlinkRoutines.SingleBlinkOnTime` | src/BlinkRoutines.h:47-50 | with `0 <= on < duration`, the single blink is on for exactly `on + 1` ms of a period |
| `LedDriver.Synchronized` | src/LED.h:31-35 | `synchronize(t)` sets the origin to `t` and keeps the routine |
| `LedDriver.WithRoutine` | src/LED.h:36-41 | `setRoutine(r, s)` selects `r`, synchronises to `s`, and answers `r`'s period |
| `LedDriver.LevelAt` | src/LED.h:27-30 | the LED shows a level exactly when its routine is a single or double blink, and that level is `LED_MAX` or `LED_MIN` |
| `LedDriver.SynchronizeIdempotent` | src/LED.h:31-35 | synchronising twice to the same instant equals synchronising once |
| `LedDriver.SetRoutineStartsAtPhaseZero` | src/LED.h:27-41 | right after `setRoutine(r, s)`, the reading `s` shows `r` at phase 0 |
| `LedDriver.SynchronizedAgree` | src/LED.h:27-35 | two LEDs with the same routine synchronised to the same instant show the same level at every reading |
| `LedDriver.SynchronizedPeriodic` | src/LED.h:27-35 | after a sync at `s`, readings whole periods later repeat the level at `s` |
| `LedDriver.Led.constructor` | src/LED.h:18-25 | a new LED has offset 0 and no routine selected |
| `LedDriver.Led.Loop` | src/LED.h:27-30 | the level driven at `t` is the routine's level at `t - offset`, and is one of the two levels |
| `LedDriver.Led.Synchronize` | src/LED.h:31-35 | the new state is the old one synchronised to `t` |
| `LedDriver.Led.SetRoutine` | src/LED.h:36-41 | the new state and the answer are those of `setRoutine(r, sync)` |
| `Peers.Others` | src/main.cpp:60-86 | the members both loops address, those other than the node's own address, are never more than the list holds |
| `Peers.Registrations` | src/main.cpp:60-70 | `setupPeers` makes one registration per addressed member |
| `Peers.Sends` | src/main.cpp:72-86 | `sendUpdateToPeers` sends one packet per addressed member |
| `Peers.OthersMembers` | src/main.cpp:60-70 | an address is addressed iff it is a member and not the node's own address |
| `Peers.OthersAppend` | src/main.cpp:62-69 | the filter distributes over concatenation, so addresses keep list order |
| `Peers.OthersLength` | src/main.cpp:60-70 | exactly the occurrences of the node's own address are skipped |
| `Peers.RegistrationsAt` | src/main.cpp:64-68 | the i-th registration is the i-th addressed member with the given role |
| `Peers.SendsAt` | src/main.cpp:74-84 | the i-th packet goes to the i-th addressed member and carries the mode |
| `Peers.CountDistinct` | src/main.cpp:10-17 | in a list without repetitions every member occurs once |
| `Peers.MembersTalkToFiveOthers` | src/main.cpp:10-17 | each of the six installed nodes addresses the five others |
| `Coordination.Routines` | src/main.cpp:153-156 | the table has four routines, all with positive periods |
| `Coordination.ToByte` | src/main.cpp:114 | the `uint8_t` conversion gives a byte congruent to the value mod 256, and keeps values that fit |
| `Coordination.PowerOn` | src/main.cpp:19-38 | at power-on the node is a slave with index and tentative mode 1, `last_msg_from_master` and `lastTime` 0, `timerDelay` 2000, an LED at offset 0 with no routine, no peers, nothing sent, the radio down, and the EEPROM byte the previous run left |
| `Coordination.SetupPeers` | src/main.cpp:60-70 | only the peer table changes, and it gets one entry per other member |
| `Coordination.Setup` | src/main.cpp:133-172 | a boot runs the stored byte as its index and stores `(byte + 1) % 4`; it faults iff the byte is 4 or more, and otherwise shows that routine synchronised at 0; role, last arrival, timer and outbox are left as they were |
| `Coordination.Demote` | src/main.cpp:122-130 | after a received record the node is a slave; its mode, LED and EEPROM are untouched, and a slave is left as it was |
| `Coordination.Receive` | src/main.cpp:99-131 | a record always records its arrival time; it faults iff its mode differs from the index and its low byte is 4 or more; otherwise the node ends a slave with its LED synchronised to the arrival |
| `Coordination.Broadcast` | src/main.cpp:177-185 | a heartbeat sends one packet per other member, restarts the timer at `t` with the routine's period as the new delay, and restarts the routine at `t`; mode, role and EEPROM stay |
| `Coordination.Heartbeat` | src/main.cpp:177-185 | the heartbeat step keeps mode, role, EEPROM, tentative mode and peers, and sends only for a controller whose timer ran out |
| `Coordination.ConfirmMode` | src/main.cpp:187-195 | after `startup_delay` the tentative mode becomes the index; before it nothing changes; mode, role, LED and outbox always stay |
| `Coordination.Failover` | src/main.cpp:197-205 | the node is a controller afterwards iff it was one or heard nothing for longer than `startup_delay`; mode, LED, EEPROM and outbox stay |
| `Coordination.Tick` | src/main.cpp:174-206 | a loop keeps the mode and the last arrival time, and any level it writes is `LED_MAX` or `LED_MIN` |
| `Coordination.SetupRotatesMode` | src/main.cpp:144-157 | booting from a valid stored mode runs it, stores `(stored + 1) % 4` as tentative, syncs the LED at 0, and registers the others as controllers when the radio is up |
| `Coordination.SetupFaultsOnUnknownMode` | src/main.cpp:144-157 | a stored byte of 4 to 255 reaches the out-of-bounds read, but the byte it stored first lets the next boot run |
| `Coordination.SetupStoresSuccessor` | src/main.cpp:144-146 | whatever byte a boot reads, with or without radio, it stores the next mode of the rotation, `(stored + 1) % 4`, before the table read |
| `Coordination.BootsRotate` | src/main.cpp:144-146 | `n >= 1` steps of that rotation from any byte land on `(stored + n) % 4`, a valid mode, so `n` boots cut short before the grace period run the patterns in turn |
| `Coordination.ReceiveFaultsExactly` | src/main.cpp:101-117 | a record faults iff its mode differs from the index and its low byte is not below 4; the arrival time is always recorded |
| `Coordination.ReceiveAdoptsMode` | src/main.cpp:112-117 | a different valid mode becomes the index and the EEPROM byte, and its routine starts at the arrival instant |
| `Coordination.ReceiveResyncsSameMode` | src/main.cpp:118-121 | the current mode leaves the index, EEPROM, tentative mode, routine, timer and outbox alone and moves the origin to the arrival instant |
| `Coordination.ReceiveDemotes` | src/main.cpp:122-130 | after a handled record the node is a slave; a former controller re-registers the others as controllers |
| `Coordination.ReceivePreservesInv` | src/main.cpp:99-131 | a handled record keeps the index valid, the LED on the index's routine, and the EEPROM on the index or the tentative mode |
| `Coordination.ReceiveIdempotent` | src/main.cpp:99-131 | receiving the same valid record twice at the same instant equals receiving it once |
| `Coordination.NarrowedModeAliases` | src/main.cpp:112-116 | mode `m + 256k` with `k != 0` is truncated to `m` and acts like `m`, but always rewrites the EEPROM |
| `Coordination.TickBroadcasts` | src/main.cpp:177-186 | a controller with `t - lastTime >= timerDelay` sends its index to every other member, sets `lastTime := t`, sets `timerDelay` to the routine's period, and renders phase 0 |
| `Coordination.TickQuiet` | src/main.cpp:177-186 | otherwise nothing is sent, timer and LED stay, and the level is the routine's at `t - offset` |
| `Coordination.TickPreservesInv` | src/main.cpp:174-206 | the loop keeps the invariant and never changes the index |
| `Coordination.GraceConfirms` | src/main.cpp:187-195 | after `startup_delay`, the tentative mode and the EEPROM both equal the running index |
| `Coordination.NoConfirmDuringGrace` | src/main.cpp:187-195 | before `startup_delay` has passed, the tentative mode stays stored |
| `Coordination.ConfirmationIsIdempotent` | src/main.cpp:187-195 | once confirmed, a later loop writes nothing to the EEPROM |
| `Coordination.SlaveFailover` | src/main.cpp:197-205 | a slave becomes controller and registers the others as slaves iff `last_msg_from_master + startup_delay < t` |
| `Coordination.ControllerStaysController` | src/main.cpp:197-205 | the loop never demotes or re-registers a controller |
| `Coordination.PromotedFollowerBroadcasts` | src/main.cpp:177-205 | a follower whose timer started no later than its last record and whose delay is at most `startup_delay` promotes itself after that silence, and its next loop sends its mode to every other member |
| `Coordination.BootedNodeTakesOver` | src/main.cpp:133-205 | a node that boots from a valid byte and hears nothing becomes controller once `startup_delay` (at least 2000 ms) has passed, and its next loop sends the stored mode to every other member |
| `Coordination.RaceLeavesNoController` | src/main.cpp:112-130 | two controllers that hear each other both become slaves and swap modes |
| `Coordination.FollowerConfirmsReceivedMode` | src/main.cpp:112-195 | a slave that received valid mode `m`, then loops after the grace period, runs `m` with `m` confirmed in the EEPROM |
| `Coordination.HeartbeatLocksPhase` | src/main.cpp:112-183 | a heartbeat at `t0`, received at `t0`, leaves controller and follower on the same mode with the same LED state (routine and origin), hence the same level at every later reading |
| `NodeRuntime.Node.constructor` | src/main.cpp:19-38 | the globals start at their initialisers, and the EEPROM holds the byte left by the previous run |
| `NodeRuntime.Node.SaveModeToEeprom` | src/main.cpp:45-50 | the cell becomes the byte of the mode and nothing else changes |
| `NodeRuntime.Node.GetModeFromEeprom` | src/main.cpp:52-58 | the answer is the stored byte, in 0..255 |
| `NodeRuntime.Node.SetupPeers` | src/main.cpp:60-70 | the peer table becomes every other member with the given role, in list order |
| `NodeRuntime.Node.SendUpdateToPeers` | src/main.cpp:72-86 | one packet carrying the index is appended per other member, in list order |
| `NodeRuntime.Node.Setup` | src/main.cpp:133-172 | the new state is `Coordination.Setup`'s, and the answer says whether the table read was in bounds |
| `NodeRuntime.Node.OnDataRecv` | src/main.cpp:99-131 | the new state is `Coordination.Receive`'s, and the answer says whether the table read was in bounds |
| `NodeRuntime.Node.Heartbeat` | src/main.cpp:177-185 | the heartbeat step updates the fields as `Coordination.Heartbeat` says |
| `NodeRuntime.Node.ConfirmMode` | src/main.cpp:187-195 | the grace-period step updates the fields as `Coordination.ConfirmMode` says |
| `NodeRuntime.Node.Failover` | src/main.cpp:197-205 | the failover step updates the fields as `Coordination.Failover` says |
| `NodeRuntime.Node.Loop` | src/main.cpp:174-206 | the new state and level are `Coordination.Tick`'s, and the invariant is kept |

## Left out

- ESP-NOW, WiFi and EEPROM library calls (`esp_now_*`, `WiFi.*`, `EEPROM.begin/commit`) are foreign I/O. Only their effects are recorded.
- For each member in turn, `setupPeers` deletes it and re-adds it unless it is the node itself. The model rebuilds the table from empty, which gives the same table because nothing else adds peers.
- Serial debug output and `OnDataSent` only log, so they are left out.
- `analogWrite` and `pinMode` are hardware output. `Led.Loop` returns the level instead.
- `FadeRoutine::loop` uses `double` arithmetic and a truncating cast, so its level is not modelled. `Render` answers `None` for it.
- `DoubleBlinkSemiRoutine` is used at src/main.cpp:156, but src/BlinkRoutines.h does not define it. The model keeps it as a routine with a configured period and no modelled level.
- `random(500)` in `startup_delay` is randomness, so the delay is a fixed configuration value.
- `millis()` wrap-around is left out. So is the conversion of the signed `t` to `unsigned long` in `t - lastTime` and the 32-bit overflow of sums of times and durations. Times are unbounded integers.
- The receive callback runs in interrupt context and shares the `data` record with `sendUpdateToPeers`. Both are left out: `OnDataRecv` is one atomic event between loop iterations.
- The `len` of a received record is not checked in the firmware. The model takes the record's `int` mode as given.
- `esp_now_init` can fail, and then no receive callback is registered and later sends and registrations fail. `radioUp` is recorded but not read: `outbox` and `peers` record the calls made, not their success, and the model lets a node whose radio is down receive records, which the firmware never does.
- A routine with period 0, such as `SingleBlinkRoutine(0, 0)`, divides by zero in `loop`. `Render` and `LevelAt` require a non-zero period. No entry of the routine table has period 0.
- `Node.Setup`, `Node.OnDataRecv`: after an out-of-bounds table read the firmware's behaviour is undefined. The model stops there and reports it instead of continuing.
