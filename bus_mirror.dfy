/**
 * The shared store and the task that mirrors the bus into it
 * (src/main.rs:156-163, 224-266).
 *
 * Each event polled from the bus is routed by topic: a state message that
 * decodes replaces the whole desk state, a status message that is valid
 * UTF-8 replaces the status text, and everything else leaves the store as it
 * was. The JSON decoder and the UTF-8 check are outside this model: an
 * incoming publish carries their outcomes.
 */
module BusMirror {
  import opened Wrappers
  import opened SvenTypes
  import NightMode

  /** One result of polling the bus event loop. */
  datatype Event =
      /** An incoming publish, with what decoding its payload as a `SvenState`
          and as UTF-8 text gives. */
    | IncomingPublish(topic: string, decodedState: Option<SvenState>, decodedText: Option<string>)
    | OutgoingPublish
    | OtherEvent
    | TransportError

  /** The two stored values, `sven_state` and `sven_status`. */
  datatype Snapshot = Snapshot(state: SvenState, status: string)

  /** What the store holds when the process starts: height unknown, position `Custom`, status "offline". */
  const InitialSnapshot: Snapshot := Snapshot(SvenState(0, Custom), "offline")

  /** The event replaces the desk state. */
  predicate IsStateUpdate(ev: Event) {
    ev.IncomingPublish? && ev.topic == StateTopic && ev.decodedState.Some?
  }

  /** The event replaces the status text. */
  predicate IsStatusUpdate(ev: Event) {
    ev.IncomingPublish? && ev.topic == StatusTopic && ev.decodedText.Some?
  }

  /**
   * The store after one event. Each event touches at most one of the two
   * values, and a value changes only to what a well-formed message on its
   * own topic carried.
   */
  function Step(s: Snapshot, ev: Event): (r: Snapshot)
    ensures r.state == s.state || r.status == s.status
    ensures r.state != s.state ==> IsStateUpdate(ev) && ev.decodedState == Some(r.state)
    ensures r.status != s.status ==> IsStatusUpdate(ev) && ev.decodedText == Some(r.status)
  {
    match ev
    case IncomingPublish(topic, decodedState, decodedText) =>
      if topic == StateTopic then
        match decodedState
        case Some(st) => s.(state := st)
        case None => s
      else if topic == StatusTopic then
        match decodedText
        case Some(text) => s.(status := text)
        case None => s
      else
        s
    case OutgoingPublish => s
    case OtherEvent => s
    case TransportError => s
  }

  /** A decoded state message replaces the whole state and nothing else. */
  lemma StateMessageReplacesState(s: Snapshot, st: SvenState, text: Option<string>)
    ensures Step(s, IncomingPublish(StateTopic, Some(st), text)) == Snapshot(st, s.status)
  {
  }

  /** A valid UTF-8 status message replaces the status and nothing else. */
  lemma StatusMessageReplacesStatus(s: Snapshot, text: string, decodedState: Option<SvenState>)
    ensures Step(s, IncomingPublish(StatusTopic, decodedState, Some(text))) == Snapshot(s.state, text)
  {
  }

  /**
   * A failed decode, an unknown topic (the desk's own commands among them,
   * since the subscription is `sven/#`), an outgoing publish, any other
   * event and a transport error all leave the store as it was.
   */
  lemma IgnoredEventsChangeNothing(s: Snapshot, ev: Event)
    requires !IsStateUpdate(ev) && !IsStatusUpdate(ev)
    ensures Step(s, ev) == s
  {
  }

  lemma OwnCommandsAreIgnored(s: Snapshot, decodedState: Option<SvenState>, decodedText: Option<string>)
    ensures Step(s, IncomingPublish(CommandTopic, decodedState, decodedText)) == s
  {
  }

  /** Applying the same message twice is the same as applying it once. */
  lemma StepIdempotent(s: Snapshot, ev: Event)
    ensures Step(Step(s, ev), ev) == Step(s, ev)
  {
  }

  /** The store after the events, in arrival order. */
  function Replay(s: Snapshot, evs: seq<Event>): (r: Snapshot)
    decreases |evs|
  {
    if evs == [] then s else Step(Replay(s, evs[..|evs| - 1]), evs[|evs| - 1])
  }

  /**
   * Last write wins: after any sequence of events the state is the one
   * carried by the last state update, and the status the one carried by the
   * last status update, whatever came after them.
   */
  lemma {:induction false} ReplayStateIsLastUpdate(s: Snapshot, evs: seq<Event>, i: nat)
    requires i < |evs| && IsStateUpdate(evs[i])
    requires forall j :: i < j < |evs| ==> !IsStateUpdate(evs[j])
    ensures Replay(s, evs).state == evs[i].decodedState.value
  {
    if i < |evs| - 1 {
      var prefix := evs[..|evs| - 1];
      assert forall j :: i < j < |prefix| ==> prefix[j] == evs[j];
      ReplayStateIsLastUpdate(s, prefix, i);
    }
  }

  lemma {:induction false} ReplayStatusIsLastUpdate(s: Snapshot, evs: seq<Event>, i: nat)
    requires i < |evs| && IsStatusUpdate(evs[i])
    requires forall j :: i < j < |evs| ==> !IsStatusUpdate(evs[j])
    ensures Replay(s, evs).status == evs[i].decodedText.value
  {
    if i < |evs| - 1 {
      var prefix := evs[..|evs| - 1];
      assert forall j :: i < j < |prefix| ==> prefix[j] == evs[j];
      ReplayStatusIsLastUpdate(s, prefix, i);
    }
  }

  /** Without a state update, the state is as before; likewise for the status. */
  lemma {:induction false} ReplayKeepsStateWithoutUpdate(s: Snapshot, evs: seq<Event>)
    requires forall j :: 0 <= j < |evs| ==> !IsStateUpdate(evs[j])
    ensures Replay(s, evs).state == s.state
  {
    if evs != [] {
      var prefix := evs[..|evs| - 1];
      assert forall j :: 0 <= j < |prefix| ==> prefix[j] == evs[j];
      ReplayKeepsStateWithoutUpdate(s, prefix);
    }
  }

  lemma {:induction false} ReplayKeepsStatusWithoutUpdate(s: Snapshot, evs: seq<Event>)
    requires forall j :: 0 <= j < |evs| ==> !IsStatusUpdate(evs[j])
    ensures Replay(s, evs).status == s.status
  {
    if evs != [] {
      var prefix := evs[..|evs| - 1];
      assert forall j :: 0 <= j < |prefix| ==> prefix[j] == evs[j];
      ReplayKeepsStatusWithoutUpdate(s, prefix);
    }
  }

  /** The shared store of `AppState`, written only by the bus mirror. */
  class Store {
    var state: SvenState
    var status: string

    function Read(): (snap: Snapshot)
      reads this
    {
      Snapshot(state, status)
    }

    /** The values `AppState` is created with. */
    constructor ()
      ensures Read() == InitialSnapshot
    {
      state := SvenState(0, Custom);
      status := "offline";
    }

    /** Handle one polled event (one turn of the mirror's loop). */
    method Apply(ev: Event)
      modifies this
      ensures Read() == Step(old(Read()), ev)
    {
      match ev {
        case IncomingPublish(topic, decodedState, decodedText) =>
          if topic == StateTopic {
            if decodedState.Some? {
              state := decodedState.value;
            }
          } else if topic == StatusTopic {
            if decodedText.Some? {
              status := decodedText.value;
            }
          }
        case OutgoingPublish =>
        case OtherEvent =>
        case TransportError =>
      }
    }

    /** The mirror's polling loop, run over a finite stretch of events. */
    method Drain(evs: seq<Event>)
      modifies this
      ensures Read() == Replay(old(Read()), evs)
    {
      var i := 0;
      while i < |evs|
        invariant i <= |evs|
        invariant Read() == Replay(old(Read()), evs[..i])
      {
        Apply(evs[i]);
        assert evs[..i + 1][..i] == evs[..i];
        i := i + 1;
      }
      assert evs[..|evs|] == evs;
    }

    /**
     * One night-mode cycle: copy the state out of the store, then decide.
     * The store is only read, never written.
     */
    method NightModeCycle(now: NightMode.Clock, hostActive: bool) returns (a: NightMode.Action)
      requires now.Valid()
      ensures a == NightMode.Cycle(state, now, hostActive)
    {
      var snapshot := state;
      a := NightMode.Cycle(snapshot, now, hostActive);
    }
  }
}
