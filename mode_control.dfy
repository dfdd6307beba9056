/** The display-mode state machine of the gesture backend, as values.
    Every timestamp is an integer number of milliseconds; the wall clock
    is never read here, callers pass the current time as `now`. */
module ModeControl {

  datatype Option<T> = None | Some(value: T)
  {
    function GetOr(default: T): T {
      match this
      case Some(v) => v
      case None => default
    }
  }

  /** Minimum time between two accepted mode changes (MODE_COOLDOWN, 0.5 s). */
  const ModeCooldownMs: int := 500

  /** The autoplay timer advances the photo only once MORE than this has elapsed (2.5 s). */
  const AutoplayPeriodMs: int := 2500

  /** Gesture label stored when an input event carries no gesture. */
  const NoGesture: string := "NONE"

  datatype Mode = Tree | Scatter | Next | Heart | Autoplay

  /** The name under which a mode is sent to viewers. */
  function ModeName(m: Mode): string {
    match m
    case Tree => "TREE"
    case Scatter => "SCATTER"
    case Next => "NEXT"
    case Heart => "HEART"
    case Autoplay => "AUTOPLAY"
  }

  /** Viewers can tell the modes apart by name. */
  lemma ModeNameInjective(m1: Mode, m2: Mode)
    ensures ModeName(m1) == ModeName(m2) <==> m1 == m2
  {
  }

  /** The mode a gesture label selects, if the label is one of the five recognised ones. */
  function Selects(gesture: string): Option<Mode> {
    if gesture == "FIST" then Some(Tree)
    else if gesture == "OPEN" then Some(Scatter)
    else if gesture == "PINCH" then Some(Next)
    else if gesture == "PEACE" then Some(Heart)
    else if gesture == "THUMBS_UP" then Some(Autoplay)
    else None
  }

  /** The gesture that selects a mode: the inverse of `Selects`. */
  function GestureFor(m: Mode): string {
    match m
    case Tree => "FIST"
    case Scatter => "OPEN"
    case Next => "PINCH"
    case Heart => "PEACE"
    case Autoplay => "THUMBS_UP"
  }

  /** Each mode is selected by exactly one gesture label, and "NONE" selects nothing. */
  lemma SelectsExactly(gesture: string, m: Mode)
    ensures Selects(gesture) == Some(m) <==> gesture == GestureFor(m)
    ensures Selects(NoGesture) == None
  {
  }

  /** Position of the hand as sent by the frontend; copied through unchanged. */
  datatype HandPosition = HandPosition(x: real, y: real, detected: bool)

  const InitialHand: HandPosition := HandPosition(0.0, 0.0, false)

  /** The six global variables of the backend. */
  datatype SessionState = SessionState(
    gesture: string,
    mode: Mode,
    hand: HandPosition,
    photoIndex: nat,
    autoPlay: bool,
    lastModeChange: int)

  /** The autoplay flag is set exactly when the display is in AUTOPLAY mode. */
  predicate AutoplayConsistent(s: SessionState) {
    s.autoPlay <==> s.mode == Autoplay
  }

  /** The state at process start: no gesture, TREE, no hand, photo 0, autoplay off, last change at time 0. */
  function InitialSession(): (s: SessionState)
    ensures AutoplayConsistent(s)
    ensures s.mode == Tree && s.photoIndex == 0 && s.gesture == NoGesture
    ensures s.hand == InitialHand && !s.hand.detected
    ensures s.lastModeChange == 0
  {
    SessionState(NoGesture, Tree, InitialHand, 0, false, 0)
  }

  /** The cooldown guard: a call at `now` is acted on only if at least the cooldown has passed. */
  predicate CooldownPassed(s: SessionState, now: int) {
    now - s.lastModeChange >= ModeCooldownMs
  }

  /** update_mode: apply a gesture label to the session at time `now`. */
  function UpdateMode(s: SessionState, gesture: string, now: int): (r: SessionState)
    ensures r.gesture == s.gesture && r.hand == s.hand
    ensures r.photoIndex == s.photoIndex || r.photoIndex == s.photoIndex + 1
    ensures AutoplayConsistent(s) ==> AutoplayConsistent(r)
    ensures r == s || r.lastModeChange == now
  {
    if !CooldownPassed(s, now) then s
    else
      match Selects(gesture)
      case None => s.(lastModeChange := now)
      case Some(m) =>
        s.(mode := m,
           autoPlay := m == Autoplay,
           photoIndex := if m == Next then s.photoIndex + 1 else s.photoIndex,
           lastModeChange := now)
  }

  /** Inside the cooldown window nothing changes at all. */
  lemma CooldownIsNoOp(s: SessionState, gesture: string, now: int)
    requires now - s.lastModeChange < ModeCooldownMs
    ensures UpdateMode(s, gesture, now) == s
  {
  }

  /** Past the cooldown the timestamp moves to `now` for every label, recognised or not. */
  lemma AcceptRefreshesTimestamp(s: SessionState, gesture: string, now: int)
    requires CooldownPassed(s, now)
    ensures UpdateMode(s, gesture, now).lastModeChange == now
  {
  }

  /** Past the cooldown, a recognised gesture sets its mode, sets autoplay exactly for
      THUMBS_UP, and advances the photo by one exactly for PINCH (whatever the previous mode). */
  lemma TransitionTable(s: SessionState, gesture: string, m: Mode, now: int)
    requires CooldownPassed(s, now)
    requires gesture == GestureFor(m)
    ensures UpdateMode(s, gesture, now).mode == m
    ensures UpdateMode(s, gesture, now).autoPlay <==> gesture == "THUMBS_UP"
    ensures UpdateMode(s, gesture, now).photoIndex
              == if gesture == "PINCH" then s.photoIndex + 1 else s.photoIndex
  {
  }

  /** Past the cooldown, an unrecognised label (NONE included) only moves the timestamp. */
  lemma UnrecognisedOnlyMovesTimestamp(s: SessionState, gesture: string, now: int)
    requires CooldownPassed(s, now)
    requires Selects(gesture) == None
    ensures UpdateMode(s, gesture, now) == s.(lastModeChange := now)
  {
  }

  /** The data of an input event: a record whose fields may each be absent, or a value
      that is not a record at all, on which the field lookup fails before anything is stored. */
  datatype GesturePayload =
    | Payload(gesture: Option<string>, hand: Option<HandPosition>)
    | Malformed

  /** handle_gesture: store the gesture (default NONE) and the hand (default: the previous
      hand), then run update_mode on the stored gesture. A malformed payload changes nothing. */
  function HandleGesture(s: SessionState, p: GesturePayload, now: int): (r: SessionState)
    ensures p.Malformed? ==> r == s
    ensures p.Payload? ==> r.gesture == (if p.gesture.Some? then p.gesture.value else NoGesture)
    ensures p.Payload? ==> r.hand == (if p.hand.Some? then p.hand.value else s.hand)
    ensures r.photoIndex >= s.photoIndex
    ensures AutoplayConsistent(s) ==> AutoplayConsistent(r)
  {
    match p
    case Malformed => s
    case Payload(gesture, hand) =>
      var g := gesture.GetOr(NoGesture);
      UpdateMode(s.(gesture := g, hand := hand.GetOr(s.hand)), g, now)
  }

  /** The stored gesture and hand are overwritten even when the cooldown blocks the mode change. */
  lemma HandleGestureInsideCooldown(s: SessionState, p: GesturePayload, now: int)
    requires now - s.lastModeChange < ModeCooldownMs
    ensures HandleGesture(s, p, now)
              == if p.Malformed? then s
                 else s.(gesture := p.gesture.GetOr(NoGesture), hand := p.hand.GetOr(s.hand))
  {
  }

  /** The session together with the background loop's private `last_auto` timer. */
  datatype ServerState = ServerState(session: SessionState, lastAuto: int)

  /** The autoplay timer fires: autoplay is on and strictly more than the period has elapsed. */
  predicate AutoplayDue(st: ServerState, now: int) {
    st.session.autoPlay && now - st.lastAuto > AutoplayPeriodMs
  }

  /** One pass of the background loop before its broadcast: advance the photo if the timer fired. */
  function AutoplayAdvance(st: ServerState, now: int): (r: ServerState)
    ensures r.session == st.session.(photoIndex := r.session.photoIndex)
    ensures r.session.photoIndex == st.session.photoIndex + (if AutoplayDue(st, now) then 1 else 0)
    ensures r.lastAuto == if AutoplayDue(st, now) then now else st.lastAuto
    ensures AutoplayConsistent(st.session) ==> AutoplayConsistent(r.session)
  {
    if st.session.autoPlay && now - st.lastAuto > AutoplayPeriodMs then
      ServerState(st.session.(photoIndex := st.session.photoIndex + 1), now)
    else st
  }

  /** The message sent to viewers, on connection and on every loop pass. */
  datatype Snapshot = Snapshot(
    gesture: string,
    mode: string,
    hand: HandPosition,
    photoIndex: nat,
    autoPlay: bool)

  /** The snapshot carries the five visible fields; on a consistent session a viewer sees
      autoPlay exactly when the mode name is AUTOPLAY. */
  function SnapshotOf(s: SessionState): (snap: Snapshot)
    ensures snap.photoIndex == s.photoIndex && snap.gesture == s.gesture && snap.hand == s.hand
    ensures snap.autoPlay == s.autoPlay
    ensures snap.mode == ModeName(s.mode)
    ensures AutoplayConsistent(s) ==> (snap.autoPlay <==> snap.mode == "AUTOPLAY")
  {
    ModeNameInjective(s.mode, Autoplay);
    Snapshot(s.gesture, ModeName(s.mode), s.hand, s.photoIndex, s.autoPlay)
  }

  /** Everything that changes the state, in the order it is applied: a gesture input
      handled at time `at`, or one pass of the background loop at time `at`. */
  datatype Event = GestureInput(payload: GesturePayload, at: int) | LoopPass(at: int)

  function Step(st: ServerState, e: Event): ServerState {
    match e
    case GestureInput(p, now) => st.(session := HandleGesture(st.session, p, now))
    case LoopPass(now) => AutoplayAdvance(st, now)
  }

  function Run(st: ServerState, events: seq<Event>): ServerState
    decreases |events|
  {
    if events == [] then st else Run(Step(st, events[0]), events[1..])
  }

  /** The process state after start-up: the background loop took its first timestamp at `start`. */
  function Start(start: int): ServerState {
    ServerState(InitialSession(), start)
  }

  /** The event is a well-formed input that passes the mode-change cooldown. */
  predicate Accepted(st: ServerState, e: Event) {
    e.GestureInput? && e.payload.Payload? && CooldownPassed(st.session, e.at)
  }

  /** The event is a PINCH that passes the cooldown. */
  predicate AcceptedPinch(st: ServerState, e: Event) {
    Accepted(st, e) && e.payload.gesture == Some("PINCH")
  }

  /** A malformed input leaves the whole process state as it was. */
  lemma MalformedInputIsNoOp(st: ServerState, now: int)
    ensures Step(st, GestureInput(Malformed, now)) == st
  {
  }

  /** The event is a loop pass on which the autoplay timer fires. */
  predicate Advances(st: ServerState, e: Event) {
    e.LoopPass? && AutoplayDue(st, e.at)
  }

  /** The photo moves on by exactly one per accepted PINCH and per autoplay advance, and never otherwise. */
  lemma StepPhotoIndex(st: ServerState, e: Event)
    ensures Step(st, e).session.photoIndex
              == st.session.photoIndex
                 + (if AcceptedPinch(st, e) then 1 else 0)
                 + (if Advances(st, e) then 1 else 0)
  {
  }

  function AcceptedPinches(st: ServerState, events: seq<Event>): nat
    decreases |events|
  {
    if events == [] then 0
    else (if AcceptedPinch(st, events[0]) then 1 else 0) + AcceptedPinches(Step(st, events[0]), events[1..])
  }

  function AutoplayAdvances(st: ServerState, events: seq<Event>): nat
    decreases |events|
  {
    if events == [] then 0
    else (if Advances(st, events[0]) then 1 else 0) + AutoplayAdvances(Step(st, events[0]), events[1..])
  }

  function AcceptedCount(st: ServerState, events: seq<Event>): nat
    decreases |events|
  {
    if events == [] then 0
    else (if Accepted(st, events[0]) then 1 else 0) + AcceptedCount(Step(st, events[0]), events[1..])
  }

  /** Over any interleaving of inputs and loop passes the photo index grows by exactly the
      number of accepted PINCHes plus the number of autoplay advances; so it never decreases. */
  lemma {:induction false} RunPhotoIndex(st: ServerState, events: seq<Event>)
    ensures Run(st, events).session.photoIndex
              == st.session.photoIndex + AcceptedPinches(st, events) + AutoplayAdvances(st, events)
    ensures Run(st, events).session.photoIndex >= st.session.photoIndex
    decreases |events|
  {
    if events != [] {
      StepPhotoIndex(st, events[0]);
      RunPhotoIndex(Step(st, events[0]), events[1..]);
    }
  }

  /** Autoplay is on exactly in AUTOPLAY mode, from start-up on and after any sequence of events. */
  lemma {:induction false} RunKeepsAutoplayConsistent(st: ServerState, events: seq<Event>)
    requires AutoplayConsistent(st.session)
    ensures AutoplayConsistent(Run(st, events).session)
    decreases |events|
  {
    if events != [] {
      RunKeepsAutoplayConsistent(Step(st, events[0]), events[1..]);
    }
  }

  lemma StartIsConsistent(start: int, events: seq<Event>)
    ensures AutoplayConsistent(Run(Start(start), events).session)
    ensures Run(Start(start), events).session.photoIndex
              == AcceptedPinches(Start(start), events) + AutoplayAdvances(Start(start), events)
  {
    RunKeepsAutoplayConsistent(Start(start), events);
    RunPhotoIndex(Start(start), events);
  }

  /** Each accepted event pushes the cooldown timestamp on by at least the cooldown. */
  lemma {:induction false} RunCooldownSpacing(st: ServerState, events: seq<Event>)
    ensures Run(st, events).session.lastModeChange
              >= st.session.lastModeChange + ModeCooldownMs * AcceptedCount(st, events)
    decreases |events|
  {
    if events != [] {
      RunCooldownSpacing(Step(st, events[0]), events[1..]);
    }
  }

  /** Each autoplay advance pushes the autoplay timestamp on by more than the period. */
  lemma {:induction false} RunAutoplaySpacing(st: ServerState, events: seq<Event>)
    ensures Run(st, events).lastAuto
              >= st.lastAuto + (AutoplayPeriodMs + 1) * AutoplayAdvances(st, events)
    decreases |events|
  {
    if events != [] {
      RunAutoplaySpacing(Step(st, events[0]), events[1..]);
    }
  }

  /** Once the autoplay timer has fired, its timestamp is the time of some event. */
  lemma {:induction false} RunLastAutoBounded(st: ServerState, events: seq<Event>, clock: int)
    requires forall i :: 0 <= i < |events| ==> events[i].at <= clock
    ensures AutoplayAdvances(st, events) == 0 ==> Run(st, events).lastAuto == st.lastAuto
    ensures AutoplayAdvances(st, events) > 0 ==> Run(st, events).lastAuto <= clock
    decreases |events|
  {
    if events != [] {
      RunLastAutoBounded(Step(st, events[0]), events[1..], clock);
    }
  }

  /** However often the loop runs, the photo advances by autoplay at most once per
      2.5 s (and a bit) of clock time elapsed since the autoplay timer was last set. */
  lemma AutoplayRateBound(st: ServerState, events: seq<Event>, clock: int)
    requires forall i :: 0 <= i < |events| ==> events[i].at <= clock
    ensures (AutoplayPeriodMs + 1) * AutoplayAdvances(st, events) <= clock - st.lastAuto
              || AutoplayAdvances(st, events) == 0
  {
    RunAutoplaySpacing(st, events);
    RunLastAutoBounded(st, events, clock);
  }

  /** Once a mode change has been accepted, its timestamp is the time of some event. */
  lemma {:induction false} RunLastModeChangeBounded(st: ServerState, events: seq<Event>, clock: int)
    requires forall i :: 0 <= i < |events| ==> events[i].at <= clock
    ensures AcceptedCount(st, events) == 0 ==>
              Run(st, events).session.lastModeChange == st.session.lastModeChange
    ensures AcceptedCount(st, events) > 0 ==> Run(st, events).session.lastModeChange <= clock
    decreases |events|
  {
    if events != [] {
      RunLastModeChangeBounded(Step(st, events[0]), events[1..], clock);
    }
  }

  /** However fast inputs arrive, at most one is acted on per 0.5 s of clock time. */
  lemma CooldownRateBound(st: ServerState, events: seq<Event>, clock: int)
    requires forall i :: 0 <= i < |events| ==> events[i].at <= clock
    ensures ModeCooldownMs * AcceptedCount(st, events) <= clock - st.session.lastModeChange
              || AcceptedCount(st, events) == 0
  {
    RunCooldownSpacing(st, events);
    RunLastModeChangeBounded(st, events, clock);
  }

  /** Two inputs 100 ms apart: the second neither changes the mode nor moves the timestamp. */
  lemma SecondInputInsideCooldown(st: ServerState, first: GesturePayload, second: GesturePayload, t: int)
    requires CooldownPassed(st.session, t)
    requires first.Payload?
    ensures var after := Run(st, [GestureInput(first, t), GestureInput(second, t + 100)]).session;
            after.lastModeChange == t
            && after.mode == HandleGesture(st.session, first, t).mode
            && after.gesture == (if second.Payload? then second.gesture.GetOr(NoGesture)
                                 else first.gesture.GetOr(NoGesture))
  {
    var events := [GestureInput(first, t), GestureInput(second, t + 100)];
    var mid := Step(st, events[0]);
    AcceptRefreshesTimestamp(st.session.(gesture := first.gesture.GetOr(NoGesture),
                                         hand := first.hand.GetOr(st.session.hand)),
                             first.gesture.GetOr(NoGesture), t);
    assert mid.session.lastModeChange == t;
    HandleGestureInsideCooldown(mid.session, second, t + 100);
    assert events[1..] == [GestureInput(second, t + 100)];
    assert Run(st, events) == Run(mid, events[1..]);
    assert Run(mid, events[1..]) == Run(Step(mid, events[1]), []);
  }
}
