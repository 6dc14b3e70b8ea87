# sven-api desk control: night mode and bus mirror

A model of the state handling in `src/main.rs` of sven-api, a service that
sits between an HTTP front end and an MQTT bus controlling a motorised desk
("Sven"). Two parts of that file hold logic:

- **The night-mode task** wakes up, reads the desk's last-known state, and
  tries four guards in order: the desk is already at 845 mm or higher (sleep
  60 s); the local hour is in [6, 23) (sleep until 23:00:00 today); the
  watched host answers a ping (sleep 60 s); otherwise publish
  `AbsoluteHeight 850` and sleep 60 s. `NightMode.Cycle` is that decision as a
  pure function of the state, the local time `(hour, minute, second)` and the
  ping's answer. It returns an `Action`: `Sleep(secs)` or
  `PublishThenSleep(cmd, secs)`.
- **The bus mirror** polls the MQTT event loop. A `sven/state` message that
  decodes as a `SvenState` replaces the stored state. A `sven/status` payload
  that is valid UTF-8 replaces the stored status. Every other event leaves
  the store alone. `BusMirror.Store` is the shared store, and its `Apply`
  method handles one event. `BusMirror.Step` and `BusMirror.Replay` give the
  same behaviour as functions on a `Snapshot`. The lemmas about them state
  last-write-wins per topic.

Modules: `Wrappers` (Option), `SvenTypes` (the bus data types, `u32`/`u64`,
topic names), `NightMode`, `BusMirror`, `Convergence` (lemmas that use both
parts).

The height 0 stands for "never observed". It is not excluded before the
first guard: 0 is below 845, so an unknown height goes on to the time guard
and can trigger the command. The model keeps this behaviour
(`NightMode.UnknownHeightIsEligible`).

Integer details made explicit: heights and command values are `u32`. The wait
before the night window is chrono's `num_seconds()` (an `i64`) cast with
`as u64`, which reinterprets bits. `NightMode.WrapToU64` models that cast, and
`NightMode.WaitEndsAtNightStart` proves that it never wraps on that path.
chrono's `with_second(0)` keeps the sub-second part of `now`, so the
difference is a whole number of seconds and the model works in whole seconds.

## Model

| member | source | states |
|---|---|---|
| `NightMode.NightModeCommand` | src/main.rs:109-125 | The night-mode command is an `AbsoluteHeight` whose value is at least the 845 mm threshold. |
| `NightMode.SecondsUntilNightStart` | src/main.rs:190-197 | The wait to 23:00:00 today is positive exactly when the hour is before 23. |
| `NightMode.WrapToU64` | src/main.rs:202-204 | `as u64` on an `i64` yields a `u64` congruent to it modulo 2^64. |
| `NightMode.WaitEndsAtNightStart` | src/main.rs:184-207 | Outside the window the wait lies in [1, 61200] and starts at the reading itself. The cast leaves it unchanged. The sleep ends exactly at 23:00:00. No earlier second of the sleep is inside the window. |
| `NightMode.ClockAtSecondOfDay` | src/main.rs:187-188 | A clock reading and its second of the day determine each other (reading to seconds and back). |
| `NightMode.SecondOfDayClockAt` | src/main.rs:187-188 | The same correspondence, from seconds to reading and back. |
| `NightMode.InNightWindow` | src/main.rs:184-188 | The night window is hour at least 23 or below 6, the negation of the source's outside-window test `hour < 23 && hour >= 6`. `Cycle`'s contract is stated against it. |
| `NightMode.Cycle` | src/main.rs:167-221 | A cycle publishes iff height < 845, the hour is in the night window and nobody is present. What it publishes is the night-mode command followed by a 60 s sleep. Every sleep is at least 1 s. |
| `NightMode.AlreadyLowSleeps` | src/main.rs:173-182 | At height >= 845 the cycle sleeps 60 s and publishes nothing, whatever the time or presence. |
| `NightMode.OutsideWindowWaitsForNight` | src/main.rs:184-207 | Below the threshold, any hour in [6, 23) sleeps `82800 - (3600h + 60m + s)` seconds, which is in [1, 61200], and publishes nothing. |
| `NightMode.PresenceBlocksTrigger` | src/main.rs:209-213 | Inside the window and below the threshold, a present user means a 60 s sleep and no command. |
| `NightMode.AbsentUserTriggers` | src/main.rs:215-220 | Inside the window, below the threshold and with nobody present, exactly `AbsoluteHeight 850` is published, then the cycle sleeps 60 s. |
| `NightMode.UnknownHeightIsEligible` | src/main.rs:173-175 | The unknown height 0 does not count as night position. It can trigger the command. |
| `NightMode.ProbeConsultedLast` | src/main.rs:173-213 | The presence answer changes nothing when the height guard or the time guard fires. |
| `NightMode.ClockConsultedAfterHeight` | src/main.rs:173-188 | The time of day changes nothing when the height guard fires. |
| `NightMode.HostIsActive` | src/main.rs:129-143 | Presence is reported only when ping ran and exited successfully. Failing to run it reads as absent. |
| `NightMode.FailedProbeDoesNotBlock` | src/main.rs:137-141 | A ping that cannot be started never holds back the trigger. |
| `BusMirror.Step` | src/main.rs:226-264 | An event changes at most one of state and status. The state changes only to a successfully decoded `sven/state` payload. The status changes only to a valid UTF-8 `sven/status` payload. |
| `BusMirror.StateMessageReplacesState` | src/main.rs:233-239 | A decoded state message replaces the whole state and keeps the status. |
| `BusMirror.StatusMessageReplacesStatus` | src/main.rs:244-248 | A valid UTF-8 status message replaces the status and keeps the state. |
| `BusMirror.IgnoredEventsChangeNothing` | src/main.rs:240-264 | These events leave the store unchanged: failed decodes, invalid UTF-8, unknown topics, outgoing publishes, other events and transport errors. |
| `BusMirror.OwnCommandsAreIgnored` | src/main.rs:253 | The service's own `sven/command` publishes come back under the `sven/#` subscription. They are treated as an unknown topic and change nothing. |
| `BusMirror.StepIdempotent` | src/main.rs:235-247 | Applying the same event twice is the same as applying it once. |
| `BusMirror.Replay` | src/main.rs:224-266 | The store after the mirror's loop has handled a sequence of events in arrival order: `Step` folded from left to right. `Store.Drain` is proved equal to it, and the four lemmas below characterise it. |
| `BusMirror.ReplayStateIsLastUpdate` | src/main.rs:225-243 | After any event sequence, the state is the one carried by the last successfully decoded state message. |
| `BusMirror.ReplayStatusIsLastUpdate` | src/main.rs:225-252 | After any event sequence, the status is the one carried by the last valid status message. |
| `BusMirror.ReplayKeepsStateWithoutUpdate` | src/main.rs:225-243 | A sequence with no decodable state message leaves the state as it was. |
| `BusMirror.ReplayKeepsStatusWithoutUpdate` | src/main.rs:244-252 | A sequence with no valid status message leaves the status as it was. |
| `BusMirror.Store.constructor` | src/main.rs:156-163 | The store starts as height 0, position `Custom`, status "offline". |
| `BusMirror.Store.Apply` | src/main.rs:226-264 | Handling one event leaves the store equal to `Step` of its old contents. |
| `BusMirror.Store.Drain` | src/main.rs:224-266 | Handling a sequence of events in order leaves the store equal to `Replay` of its old contents. |
| `BusMirror.Store.NightModeCycle` | src/main.rs:169-172 | A cycle copies the state out of the store and decides on that copy. It does not modify the store. |
| `Convergence.MirroredTargetStopsTrigger` | src/main.rs:173-175 | Once the mirror has applied a state message reporting the commanded 850 mm, with no later state message, every cycle sleeps 60 s without publishing. |
| `Convergence.UnconfirmedCommandIsReissued` | src/main.rs:215-220 | Until some state message arrives, a store that started with height 0 re-publishes the command at every unattended night cycle. |

## Left out

- The HTTP handlers, router and CORS setup (`handle_command`, `get_sven_state`, `get_sven_status`, src/main.rs:57-108, 268-297). They only pass requests through to the MQTT client and the stored values.
- The MQTT client, event-loop polling and publish transport. A publish appears only as the command carried in `Action.PublishThenSleep`. Polling appears as the sequence of `Event`s given to `Drain`.
- JSON encoding and decoding and the UTF-8 check. An incoming publish carries the outcome of each decode as an `Option`.
- The `ping` subprocess. Its outcome is the `PingOutcome` input to `HostIsActive`, and `Cycle` takes the resulting boolean.
- Local time, time zones and DST, including the cases where chrono's `with_hour(...).unwrap()` would panic. The clock is an input `(hour, minute, second)` with `hour < 24`, `minute < 60` and `second < 60`.
- The tokio tasks, the sleeps and the mutexes. Each night-mode cycle and each mirror event is one sequential step. Sleeps are returned durations. The two tasks interleave only through the store.
- The one-second sleep after an outgoing publish (src/main.rs:256-259). It is timing only and does not touch the store.
- Logging and the `Display` implementation of `SvenCommand`, which exists only for printing.
