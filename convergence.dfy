/**
 * The night-mode cycle and the bus mirror together: the cycle only reads the
 * store, and the command it publishes is confirmed only through a later
 * state message that the mirror applies.
 */
module Convergence {
  import opened NightMode
  import opened BusMirror

  /**
   * Level-triggered, but self-limiting: once the mirror has applied a state
   * message reporting the commanded height (and no later state message came),
   * every following cycle sleeps without publishing, whatever the time and
   * presence.
   */
  lemma {:induction false} MirroredTargetStopsTrigger(
    s: Snapshot, evs: seq<Event>, i: nat, now: Clock, hostActive: bool)
    requires now.Valid()
    requires i < |evs| && IsStateUpdate(evs[i])
    requires evs[i].decodedState.value.heightMm == NightModeCommand().value
    requires forall j :: i < j < |evs| ==> !IsStateUpdate(evs[j])
    ensures Cycle(Replay(s, evs).state, now, hostActive) == Sleep(ShortSleepSecs)
  {
    ReplayStateIsLastUpdate(s, evs, i);
  }

  /**
   * While no state message arrives, a store that started with the unknown
   * height 0 keeps triggering the night-mode command at every night cycle in
   * which nobody is present: status messages and ignored events cannot
   * stop it.
   */
  lemma {:induction false} UnconfirmedCommandIsReissued(evs: seq<Event>, now: Clock)
    requires now.Valid() && InNightWindow(now)
    requires forall j :: 0 <= j < |evs| ==> !IsStateUpdate(evs[j])
    ensures Cycle(Replay(InitialSnapshot, evs).state, now, false) ==
              PublishThenSleep(NightModeCommand(), ShortSleepSecs)
  {
    ReplayKeepsStateWithoutUpdate(InitialSnapshot, evs);
  }
}
