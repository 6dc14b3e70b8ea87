/**
 * One cycle of the night-mode task (src/main.rs:167-221): read the desk's
 * last-known state, the local time of day and the presence probe, and decide
 * whether to publish the night-mode command before sleeping.
 *
 * The four guards are tried in order: already low enough, outside the night
 * window, someone present, and otherwise trigger.
 */
module NightMode {
  import opened SvenTypes

  /** `NIGHT_TIME_THRESHOLD_MM`: a desk at least this high counts as in night position. */
  const NightHeightThresholdMm: u32 := 845
  /** `NIGHT_TIME_START` and `NIGHT_TIME_END`: the window is [23:00, 06:00) across midnight. */
  const NightStartHour: nat := 23
  const NightEndHour: nat := 6
  /** The sleep after every guard except the outside-window one. */
  const ShortSleepSecs: u64 := 60
  const SecondsPerDay: nat := 86400

  /** A local wall-clock time of day, as chrono's `hour()`, `minute()`, `second()`. */
  datatype Clock = Clock(hour: nat, minute: nat, second: nat) {
    predicate Valid() {
      hour < 24 && minute < 60 && second < 60
    }
  }

  /** What one cycle does: sleep, or publish a command and then sleep. */
  datatype Action =
    | Sleep(secs: u64)
    | PublishThenSleep(cmd: DeskCommand, secs: u64)

  /** The number of seconds since midnight. */
  function SecondOfDay(c: Clock): (x: nat)
    requires c.Valid()
    ensures x < SecondsPerDay
  {
    3600 * c.hour + 60 * c.minute + c.second
  }

  /** The time of day `x` seconds after midnight. */
  function ClockAt(x: nat): (c: Clock)
    requires x < SecondsPerDay
    ensures c.Valid()
  {
    Clock(x / 3600, (x % 3600) / 60, x % 60)
  }

  /** The time of day `k` seconds after `now`, wrapping past midnight. */
  function ClockAfter(now: Clock, k: nat): (c: Clock)
    requires now.Valid()
    ensures c.Valid()
  {
    ClockAt((SecondOfDay(now) + k) % SecondsPerDay)
  }

  /** Division by a constant divisor is determined by quotient and remainder. */
  lemma {:induction false} DivMod3600(x: int, q: int, r: int)
    requires 0 <= r < 3600 && x == 3600 * q + r
    ensures x / 3600 == q && x % 3600 == r
  {
  }

  lemma {:induction false} DivMod60(x: int, q: int, r: int)
    requires 0 <= r < 60 && x == 60 * q + r
    ensures x / 60 == q && x % 60 == r
  {
  }

  /** Seconds of the day and clock readings determine each other, both ways round. */
  lemma {:induction false} ClockAtSecondOfDay(c: Clock)
    requires c.Valid()
    ensures ClockAt(SecondOfDay(c)) == c
  {
    var x := SecondOfDay(c);
    var r := 60 * c.minute + c.second;
    DivMod3600(x, c.hour, r);
    DivMod60(r, c.minute, c.second);
    DivMod60(x, 60 * c.hour + c.minute, c.second);
  }

  lemma {:induction false} SecondOfDayClockAt(x: nat)
    requires x < SecondsPerDay
    ensures SecondOfDay(ClockAt(x)) == x
  {
    var h, r := x / 3600, x % 3600;
    var m, sec := r / 60, r % 60;
    assert x == 3600 * h + r;
    assert r == 60 * m + sec;
    DivMod60(x, 60 * h + m, sec);
  }

  /** The night window: from 23:00 until just before 06:00. */
  predicate InNightWindow(c: Clock) {
    c.hour >= NightStartHour || c.hour < NightEndHour
  }

  /** The command `set_to_night_mode` publishes (src/main.rs:118-121). */
  function NightModeCommand(): (cmd: DeskCommand)
    ensures cmd.command == AbsoluteHeight
    ensures cmd.value >= NightHeightThresholdMm
  {
    DeskCommand(AbsoluteHeight, 850)
  }

  /**
   * `now.with_hour(23).with_minute(0).with_second(0) - now`, in whole seconds.
   * The sub-second part of `now` is kept by all three setters, so it cancels.
   * Negative when `now` is already past 23:00.
   */
  function SecondsUntilNightStart(now: Clock): (w: int)
    requires now.Valid()
    ensures w > 0 <==> now.hour < NightStartHour
  {
    3600 * NightStartHour - SecondOfDay(now)
  }

  /**
   * `wait_time.num_seconds() as u64`: Rust reinterprets the bits of an `i64`
   * as a `u64`, so the result is the value modulo 2^64.
   */
  function WrapToU64(n: int): (r: u64)
    requires -0x8000_0000_0000_0000 <= n < 0x8000_0000_0000_0000
    ensures (r as int - n) % 0x1_0000_0000_0000_0000 == 0
  {
    if n >= 0 then n as u64 else (n + 0x1_0000_0000_0000_0000) as u64
  }

  /**
   * Outside the window the wait is positive and at most 17 hours, so the cast
   * never wraps; it ends exactly at 23:00:00, and no earlier second of the
   * wait falls inside the window.
   */
  lemma {:induction false} WaitEndsAtNightStart(now: Clock)
    requires now.Valid() && !InNightWindow(now)
    ensures 1 <= SecondsUntilNightStart(now) <= 61200
    ensures WrapToU64(SecondsUntilNightStart(now)) as int == SecondsUntilNightStart(now)
    ensures ClockAfter(now, 0) == now
    ensures ClockAfter(now, SecondsUntilNightStart(now)) == Clock(NightStartHour, 0, 0)
    ensures forall k: nat :: k < SecondsUntilNightStart(now) ==> !InNightWindow(ClockAfter(now, k))
  {
    ClockAtSecondOfDay(now);
    var x := SecondOfDay(now);
    assert x >= 3600 * NightEndHour;
    forall k: nat | k < SecondsUntilNightStart(now)
      ensures !InNightWindow(ClockAfter(now, k))
    {
      NightHoursBetween(x + k);
    }
  }

  /** Every second of the day in [06:00:00, 23:00:00) has an hour in [6, 23). */
  lemma {:induction false} NightHoursBetween(y: nat)
    requires 3600 * NightEndHour <= y < 3600 * NightStartHour
    ensures NightEndHour <= y / 3600 < NightStartHour
  {
    assert 3600 * (y / 3600) <= y < 3600 * (y / 3600) + 3600;
  }

  /**
   * The decision of one night-mode cycle, given the state read from the store,
   * the local time and what the presence probe would report. The probe is
   * only run when the first two guards let the cycle through.
   */
  function Cycle(st: SvenState, now: Clock, hostActive: bool): (a: Action)
    requires now.Valid()
    ensures a.secs >= 1
    ensures a.PublishThenSleep? <==>
              st.heightMm < NightHeightThresholdMm && InNightWindow(now) && !hostActive
    ensures a.PublishThenSleep? ==> a.cmd == NightModeCommand() && a.secs == ShortSleepSecs
  {
    if st.heightMm >= NightHeightThresholdMm then
      Sleep(ShortSleepSecs)
    else if now.hour < NightStartHour && now.hour >= NightEndHour then
      WaitEndsAtNightStart(now);
      Sleep(WrapToU64(SecondsUntilNightStart(now)))
    else if hostActive then
      Sleep(ShortSleepSecs)
    else
      PublishThenSleep(NightModeCommand(), ShortSleepSecs)
  }

  /** Guard 1: a desk already at the threshold or above is left alone, whatever the time or presence. */
  lemma AlreadyLowSleeps(st: SvenState, now: Clock, hostActive: bool)
    requires now.Valid() && st.heightMm >= NightHeightThresholdMm
    ensures Cycle(st, now, hostActive) == Sleep(ShortSleepSecs)
  {
  }

  /** Guard 2: any hour in [6, 23) sleeps until 23:00:00 the same day and publishes nothing. */
  lemma OutsideWindowWaitsForNight(st: SvenState, now: Clock, hostActive: bool)
    requires now.Valid() && st.heightMm < NightHeightThresholdMm
    requires NightEndHour <= now.hour < NightStartHour
    ensures Cycle(st, now, hostActive).Sleep?
    ensures Cycle(st, now, hostActive).secs as int ==
              82800 - (3600 * now.hour + 60 * now.minute + now.second)
    ensures 1 <= Cycle(st, now, hostActive).secs <= 61200
  {
    WaitEndsAtNightStart(now);
  }

  /** Guard 3: inside the window and below the threshold, a present user blocks the trigger. */
  lemma PresenceBlocksTrigger(st: SvenState, now: Clock)
    requires now.Valid() && st.heightMm < NightHeightThresholdMm && InNightWindow(now)
    ensures Cycle(st, now, true) == Sleep(ShortSleepSecs)
  {
  }

  /** Guard 4: otherwise exactly one `AbsoluteHeight 850` is published, then a short sleep. */
  lemma AbsentUserTriggers(st: SvenState, now: Clock)
    requires now.Valid() && st.heightMm < NightHeightThresholdMm && InNightWindow(now)
    ensures Cycle(st, now, false) ==
              PublishThenSleep(DeskCommand(AbsoluteHeight, 850), ShortSleepSecs)
  {
  }

  /** The initial "unknown" height 0 is below the threshold, so it does not count as night position. */
  lemma UnknownHeightIsEligible(position: SvenPosition, now: Clock)
    requires now.Valid() && InNightWindow(now)
    ensures Cycle(SvenState(0, position), now, false).PublishThenSleep?
  {
  }

  /**
   * Guard order: the probe's answer is irrelevant unless the first two guards
   * pass, and the clock is irrelevant when the first guard fires.
   */
  lemma ProbeConsultedLast(st: SvenState, now: Clock, p: bool, q: bool)
    requires now.Valid()
    requires st.heightMm >= NightHeightThresholdMm || !InNightWindow(now)
    ensures Cycle(st, now, p) == Cycle(st, now, q)
  {
  }

  lemma ClockConsultedAfterHeight(st: SvenState, now: Clock, later: Clock, hostActive: bool)
    requires now.Valid() && later.Valid() && st.heightMm >= NightHeightThresholdMm
    ensures Cycle(st, now, hostActive) == Cycle(st, later, hostActive)
  {
  }

  /**
   * The outcome of `ping -c 1` on the watched host: the process ran and
   * exited with some status, or it could not be started.
   */
  datatype PingOutcome = Exited(success: bool) | FailedToRun

  /** `host_is_active`: present only when the ping ran and succeeded; every failure reads as absent. */
  function HostIsActive(p: PingOutcome): (active: bool)
    ensures active <==> p == Exited(true)
  {
    match p
    case Exited(success) => success
    case FailedToRun => false
  }

  /** A probe that cannot run never holds back the trigger. */
  lemma FailedProbeDoesNotBlock(st: SvenState, now: Clock)
    requires now.Valid() && st.heightMm < NightHeightThresholdMm && InNightWindow(now)
    ensures Cycle(st, now, HostIsActive(FailedToRun)) == PublishThenSleep(NightModeCommand(), ShortSleepSecs)
  {
  }
}
