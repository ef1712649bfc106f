# Wheelchair controller core in Dafny

This project models the safety-relevant core of the ESP32 wheelchair
controller firmware and proves properties of it. The core has three parts:

- **The motor governor** (`governor.dfy`, `convergence.dfy`). Each wheel has a
  commanded (target) speed and an applied (actual) speed, in percent. A command
  clips the targets to -100..100 and stamps a watchdog clock. A 10 ms timer tick
  does three things in order:
  - if the last command is 300 ms old or more, it forces both targets to zero;
  - it moves each applied speed at most one slew step (100·10/300 %) toward its
    target, snapping when within a step and otherwise rounding half away from zero;
  - it writes the PWM duty and the DIR level for each motor.
  The emergency stop zeroes everything at once.
- **The MQTT emergency-stop gate** (`gate.dfy`). A global flag locks motor
  commands out. STOP, a disconnect and shutting the client down set it; START
  and a new connection clear it. Incoming messages are routed by `strncmp` over
  the received topic's length, and the state publisher stays silent while the
  gate is closed.
- **The `.env` parser** (`env_parser.dfy`). Each line is split with
  `strtok(line, "=")` and then `strtok(NULL, "\n")`. One pair of surrounding
  quotes is removed. Keys are cut to 31 characters and values to 63. At most 10
  entries are stored. Lookup returns the first entry whose key is equal to the
  query.

Every operation is a pure function over immutable state. The system clock
(`esp_timer_get_time`) is a `now` parameter in microseconds. The JSON library's
result arrives already decoded as a `MotorJson`. The file is a sequence of lines,
or `None` when it cannot be opened.

Numbers the code gives that its own comments do not state:

- **Effective slew step.** The exact slew delta is 10/3. After rounding, every
  step the governor takes is 3.
- **Time to stop.** The header of `motor_control.c` speaks of a linear 300 ms
  decay. Going from full speed to standstill actually takes 34 ticks (340 ms).
- **Stop latency.** The 10 ms timer runs freely, so a command can arrive at any
  point of a timer period. The watchdog fires at the 30th tick after the
  command, or the 31st when the command fell between two tick readings. The
  wheels are at rest from the 64th tick on (under 640 ms), and from the 63rd
  (630 ms) when the command coincided with a tick reading. Both bounds are exact.
- **Duty at half speed.** The duty is truncated, so half speed in reverse drives
  duty 511.

## Model

| member | source | states |
|---|---|---|
| `Governor.Actuate` | wheelchair_controller/main/motor_control.c:149-166 | DIR is reverse exactly for negative speeds; duty is the integer part of \|v\|·1023/100, within 0..1023 for valid speeds, 0 only at speed 0 and 1023 only at ±100 |
| `Governor.DutyBounds` | wheelchair_controller/main/motor_control.c:151-161 | for every speed in -100..100 the duty lies in 0..1023, so it never exceeds the 10-bit maximum |
| `Governor.HalfReverseDuty` | wheelchair_controller/main/motor_control.c:154-155 | speed -50 drives duty 511 in reverse, because the conversion truncates |
| `Governor.RoundHalfAway` | wheelchair_controller/main/motor_control.c:173-174 | `roundf` lands within half a unit of its argument, and halfway cases go away from zero |
| `Governor.Slew` | wheelchair_controller/main/motor_control.c:169-175 | for any non-negative delta, one step never passes the target and moves at most delta + 1/2 |
| `Governor.SlewIsStepOfThree` | wheelchair_controller/main/motor_control.c:25-28 | with the configured delta 10/3, the float slew equals an integer step of 3 toward the target, snapping when within 3 |
| `Governor.SlewSnapsIff` | wheelchair_controller/main/motor_control.c:171-172 | the slew returns the target exactly when the gap is at most delta, equivalently at most 3 |
| `Governor.SlewBounded` | wheelchair_controller/main/motor_control.c:169-175 | a step stays between the current and target speeds, moves at most delta, and shrinks the gap to max(0, gap - 3) |
| `Governor.SlewSettled` | wheelchair_controller/main/motor_control.c:171-172 | a wheel already at its target stays there for any non-negative delta |
| `Governor.Clamp` | wheelchair_controller/main/motor_control.c:114-118 | the result is a valid speed, equals the input when the input is valid, and is the valid speed nearest the input |
| `Governor.SetSpeeds` | wheelchair_controller/main/motor_control.c:112-125 | targets are the clipped commands (saturating at ±100), the clock is the command time, applied speeds and driver outputs are untouched, and validity is kept |
| `Governor.GetSpeeds` | wheelchair_controller/main/motor_control.c:127-131 | returns applied speeds, which are in range, and whose sign agrees with the DIR level written for each wheel |
| `Governor.EStop` | wheelchair_controller/main/motor_control.c:133-142 | targets, applied speeds and duties are all zero and the clock is refreshed |
| `Governor.Init` | wheelchair_controller/main/motor_control.c:97-98 | the governor starts valid and at rest, with the start-up time as its clock |
| `Governor.Watchdog` | wheelchair_controller/main/motor_control.c:180-184 | a stale command (age ≥ 300 000 µs) has both targets replaced by zero; a fresh one leaves the state unchanged; the clock is never refreshed |
| `Governor.Tick` | wheelchair_controller/main/motor_control.c:178-190 | after the watchdog, each applied speed moves by at most 3 toward the effective target without passing it; drivers show the new applied speeds; validity is kept |
| `Governor.EStopIdempotent` | wheelchair_controller/main/motor_control.h:86-87 | a second brake equals a single brake at the later time, and both drivers are at duty 0 forward |
| `Governor.WatchdogIff` | wheelchair_controller/main/motor_control.h:58-60 | with a non-zero target, a tick zeroes the targets exactly when the command is at least 300 ms old |
| `Governor.TickKeepsRest` | wheelchair_controller/main/motor_control.c:178-190 | a governor at rest stays at rest under any tick |
| `Governor.TickClosesGap` | wheelchair_controller/main/motor_control.c:186-187 | in one tick the gap between each applied speed and its effective target becomes max(0, gap - 3) |
| `Governor.ReadAfterSetIsActual` | wheelchair_controller/main/motor_control.h:83-84 | reading right after a command returns the previously applied speeds, not the commanded ones |
| `Governor.FirstTickRamp` | wheelchair_controller/main/motor_control.c:186-189 | from start-up, commanding (100, -100) and ticking once within the watchdog window gives applied (3, -3) and duty 30 forward / 30 reverse |
| `Convergence.SlewNGap` | wheelchair_controller/main/motor_control.c:169-175 | after n slew steps toward a fixed target the gap is max(0, gap - 3n), and the speed stays between start and target |
| `Convergence.SettleTime` | wheelchair_controller/main/motor_control.c:169-175 | the target is reached after n steps if and only if 3n ≥ gap, that is n ≥ ceil(gap/3) |
| `Convergence.FullStopTakes34Ticks` | wheelchair_controller/main/motor_control.c:25-28 | from ±100 the wheel reaches 0 exactly when at least 34 steps have run; after 33 it still turns at ±1 |
| `Convergence.TicksAppend` | wheelchair_controller/main/motor_control.c:178-190 | running two batches of ticks is running their concatenation |
| `Convergence.TicksKeepClock` | wheelchair_controller/main/motor_control.c:178-190 | ticks never move the watchdog clock and keep validity |
| `Convergence.FreshTicksFollowTarget` | wheelchair_controller/main/motor_control.c:180-187 | while the command is fresh, targets stay and each wheel follows the n-step slew toward its target |
| `Convergence.StaleTicksSlewToZero` | wheelchair_controller/main/motor_control.c:180-187 | once the command is stale, targets are zero and each wheel follows the n-step slew toward zero |
| `Convergence.CommandReached` | wheelchair_controller/main/motor_control.h:76-81 | after a valid command followed by fresh ticks, each wheel equals its command exactly when 3 × ticks ≥ its initial gap |
| `Convergence.FreshPrefix` | wheelchair_controller/main/motor_control.c:180-181 | with the free-running timer in any phase, the first 29 ticks after a command (30 when it fell between tick readings) see it fresh |
| `Convergence.WatchdogSplit` | wheelchair_controller/main/motor_control.c:180-184 | the ticks after a command split into the fresh ones and the rest, every one of which sees it stale; the clock and validity are kept across the fresh ones |
| `Convergence.StaleTicksStop` | wheelchair_controller/main/motor_control.c:180-189 | 34 or more stale ticks bring any valid state to rest with zero duty |
| `Convergence.StopWithin64Ticks` | wheelchair_controller/main/motor_control.c:178-190 | for every phase of the 10 ms timer, from any valid state, both wheels are at rest with zero duty from the 64th tick after the last command on, and from the 63rd when the command coincided with a tick reading |
| `Convergence.CruiseStopsExactly` | wheelchair_controller/main/motor_control.c:178-190 | a valid state cruising at ±100 stops at precisely the 64th tick after its last command (the 63rd when the command coincided with a tick reading), so both bounds are exact |
| `Gate.StrNEqIsPrefix` | wheelchair_controller/main/mqtt_client_app.c:104-106 | for NUL-free strings, `strncmp` over the received length succeeds exactly when the received topic is a prefix of the subscribed one |
| `Gate.CString` | wheelchair_controller/main/mqtt_client_app.c:179-183 | the payload read as a C string is the prefix of the data before the first NUL and contains no NUL |
| `Gate.Route` | wheelchair_controller/main/mqtt_client_app.c:103-110 | a NUL-free topic goes to the motor handler iff it is a prefix of the motor topic, otherwise to the emergency handler iff it is a prefix of the emergency topic |
| `Gate.RouteSubscribedTopics` | wheelchair_controller/main/mqtt_client_app.c:20-22 | the two command topics reach their handlers, the empty topic reaches the motor handler, and the state topic is unexpected |
| `Gate.HandleMotor` | wheelchair_controller/main/mqtt_client_app.c:142-176 | while stopped, or when the JSON is unparsable or either member is not a number, nothing changes; otherwise the governor receives the two integer values unclipped |
| `Gate.HandleEmergency` | wheelchair_controller/main/mqtt_client_app.c:178-204 | STOP latches the flag and brakes only if not already stopped; START clears the flag without touching the motors; any other payload changes nothing |
| `Gate.Step` | wheelchair_controller/main/mqtt_client_app.c:50-111 | connect clears the flag; disconnect sets it and brakes; a message keeps the client and is handled by the motor handler, the emergency handler or nobody, as its topic routes; shutdown with a client sets the flag, drops the client and brakes; the flag is cleared only by connect or START |
| `Gate.Publish` | wheelchair_controller/main/mqtt_client_app.c:218-225 | state is published iff there is a client and the gate is open, and what is published is the applied speeds |
| `Gate.Start` | wheelchair_controller/main/mqtt_client_app.c:27 | the application starts with the gate open and the governor valid and at rest |
| `Gate.ApplyKeepsSafe` | wheelchair_controller/main/mqtt_client_app.c:142-146 | any single MQTT event or timer tick keeps the governor valid and, while stopped, at rest |
| `Gate.RunKeepsSafe` | wheelchair_controller/main/mqtt_client_app.c:81-82 | under every interleaving of events and ticks, while the flag is set both wheels are at rest with zero duty |
| `Gate.StoppedIgnoresMotor` | wheelchair_controller/main/mqtt_client_app.c:143-146 | a message routed to the motor handler while stopped changes nothing at all, whatever its payload |
| `Gate.OpenGateForwards` | wheelchair_controller/main/mqtt_client_app.c:104-105 | with the gate open, two numbers on (a prefix of) the motor topic become the governor's clipped targets, stamped with the receive time, and the applied speeds wait for the next tick |
| `EnvParser.SkipDelimsSpec` | wheelchair_controller/main/env_parser.c:74 | `strtok` skips exactly the leading run of delimiters |
| `EnvParser.FindDelimSpec` | wheelchair_controller/main/env_parser.c:74-75 | a token ends at the first delimiter or at the end of the string |
| `EnvParser.Strtok` | wheelchair_controller/main/env_parser.c:74-75 | there is no token iff the string is all delimiters; a token is non-empty and contains no delimiter |
| `EnvParser.StrtokShape` | wheelchair_controller/main/env_parser.c:74-75 | the input is the skipped delimiters, the token, then either nothing or one delimiter followed by the rest |
| `EnvParser.SplitLine` | wheelchair_controller/main/env_parser.c:74-77 | a line yields a non-empty key without `=` and a non-empty value without a newline, or nothing |
| `EnvParser.Unquote` | wheelchair_controller/main/env_parser.c:79-82 | the value either stays, or loses one surrounding pair of quotes, or (a lone quote) becomes empty |
| `EnvParser.Truncate` | wheelchair_controller/main/env_parser.c:85-88 | the copy is a prefix of at most size - 1 characters, and equals the input when it fits |
| `EnvParser.ParseLine` | wheelchair_controller/main/env_parser.c:74-88 | a line gives an entry iff it splits; the entry's key is a non-empty prefix of under 32 characters and its value a prefix of the unquoted value of under 64 |
| `EnvParser.Candidates` | wheelchair_controller/main/env_parser.c:73-77 | each line's contribution, in file order; every present one fits the buffers |
| `EnvParser.Fill` | wheelchair_controller/main/env_parser.c:84-93 | the table only grows, and stays within 10 entries that fit their buffers |
| `EnvParser.ParseLines` | wheelchair_controller/main/env_parser.c:73-95 | the table only grows and stays well formed |
| `EnvParser.ParseEnvFile` | wheelchair_controller/main/env_parser.c:57-70 | when the file system or the file cannot be opened nothing is stored; otherwise the table grows and stays well formed |
| `EnvParser.FillTakesFirst` | wheelchair_controller/main/env_parser.c:84-93 | the loop stores exactly the first entries present, in order, up to the free capacity, and then stops |
| `EnvParser.ParseLinesTakesFirstEntries` | wheelchair_controller/main/env_parser.c:73-95 | parsing appends the file's entries in order, truncated to the remaining of the 10 slots |
| `EnvParser.Lookup` | wheelchair_controller/main/env_parser.c:100-107 | no value iff no key equals the query; otherwise the value of the first entry whose key equals it |
| `EnvParser.StrtokOf` | wheelchair_controller/main/env_parser.c:74-75 | delimiters, then a token, then the end or a delimiter, yield that token and resume after the delimiter |
| `EnvParser.StrtokUnpadded` | wheelchair_controller/main/env_parser.c:75 | a token followed by a delimiter or the end is returned as is |
| `EnvParser.KeyToken` | wheelchair_controller/main/env_parser.c:74 | after any run of `=`, the key token is everything up to the next `=`, and scanning resumes just after it |
| `EnvParser.KeySplit` | wheelchair_controller/main/env_parser.c:74 | the key token of a written line is its key, and scanning resumes after the `=` |
| `EnvParser.LineRoundTrip` | wheelchair_controller/main/env_parser.c:74-77 | splitting a written line `KEY=VALUE`, with any leading `=` and with or without a newline, gives back the key and the value |
| `EnvParser.SkipExactly` | wheelchair_controller/main/env_parser.c:74 | skipping over a run of delimiters in front of a non-delimiter lands exactly after the run |
| `EnvParser.FindExactly` | wheelchair_controller/main/env_parser.c:75 | a token free of the delimiter ends exactly at its own length |
| `EnvParser.ParseLineOf` | wheelchair_controller/main/env_parser.c:74-88 | a written line stores its key and its unquoted value, each cut to its buffer |
| `EnvParser.QuotedValuesStored` | wheelchair_controller/main/env_parser.c:79-82 | `KEY="v"` stores v, and `KEY="` stores an empty value |
| `EnvParser.EmptyValueAddsNothing` | wheelchair_controller/main/env_parser.c:77 | `KEY=`, `KEY=` with a newline, and a bare `KEY` store nothing |
| `EnvParser.UnquoteRoundTrip` | wheelchair_controller/main/env_parser.c:79-82 | unquoting a quoted value gives back the value |
| `EnvParser.LongQueryNeverFound` | wheelchair_controller/main/env_parser.c:85-86 | a query of 32 characters or more is never found, because stored keys are cut to 31 |

## Left out

- Hardware: GPIO and LEDC configuration, `ledc_set_duty`/`ledc_update_duty`, timer creation, and `ESP_ERROR_CHECK` aborts. The model records the duty and DIR level that would be written.
- Concurrency: the MQTT task, the timer callback and the publisher run concurrently on the device. The model treats each event handler and each tick as atomic and proves the gate invariant under every interleaving of them. A tick interrupted half-way through is not modelled.
- Floating point: `MOTOR_SLEW_DELTA`, `fabsf`, the float comparison in `slew` and the float duty computation use exact reals. For speeds in -100..100 the float results agree with the exact ones, but that is not proved.
- Integer widths: the 64-bit clock and its subtraction never wrap. Speeds are unbounded integers, and validity keeps them in -100..100, which fits an `int16_t`. `cJSON`'s saturation of `valueint` happens inside the library and is part of the decoded input.
- The JSON library is abstracted. Parsing, `cJSON_GetObjectItemCaseSensitive` and the JSON built by the publisher are not modelled; the handler receives `Unparsable` or the two members.
- MQTT transport: `mqtt_app_start`, subscriptions, the remaining event kinds (which only log), and creating or deleting the publishing task. `Publish` models one wake-up of the publisher loop.
- Gate.Route: a NULL topic pointer is not modelled, and its contract describes only NUL-free topics.
- Line reading: `fgets` on a 98-byte buffer splits longer lines into several, and the `.env` file is read on SPIFFS. The model receives the file as its lines and `None` for a failed mount or open.
- Characters after an embedded NUL in a `.env` line are not modelled, since lines are taken as NUL-free.
- `wifi_manager.c`, `web_server.c`, `main.c` and the web controller are not part of this model.
