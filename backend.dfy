/** The backend's mutable globals and the handlers that rebind them, each proved
    against the corresponding function of ModeControl. */
module Backend {
  import opened ModeControl

  /** The module-level globals of the backend: one object per process. */
  class Session {
    var gesture: string
    var mode: Mode
    var hand: HandPosition
    var photoIndex: nat
    var autoPlay: bool
    var lastModeChange: int

    function State(): SessionState
      reads this
    {
      SessionState(gesture, mode, hand, photoIndex, autoPlay, lastModeChange)
    }

    /** The globals as initialised when the module is loaded. */
    constructor ()
      ensures State() == InitialSession()
      ensures AutoplayConsistent(State())
    {
      gesture := NoGesture;
      mode := Tree;
      hand := InitialHand;
      photoIndex := 0;
      autoPlay := false;
      lastModeChange := 0;
    }

    /** update_mode, with the clock reading passed in as `now`. */
    method UpdateMode(g: string, now: int)
      modifies this
      ensures State() == ModeControl.UpdateMode(old(State()), g, now)
      ensures AutoplayConsistent(old(State())) ==> AutoplayConsistent(State())
      ensures photoIndex >= old(photoIndex)
    {
      if now - lastModeChange < ModeCooldownMs {
        return;
      }
      if g == "FIST" {
        mode := Tree;
        autoPlay := false;
      } else if g == "OPEN" {
        mode := Scatter;
        autoPlay := false;
      } else if g == "PINCH" {
        mode := Next;
        photoIndex := photoIndex + 1;
        autoPlay := false;
      } else if g == "PEACE" {
        mode := Heart;
        autoPlay := false;
      } else if g == "THUMBS_UP" {
        mode := Autoplay;
        autoPlay := true;
      }
      lastModeChange := now;
    }

    /** The "gesture_input" handler: fill in missing fields, store them, then update the mode. */
    method HandleGesture(p: GesturePayload, now: int)
      modifies this
      ensures State() == ModeControl.HandleGesture(old(State()), p, now)
      ensures p.Payload? ==> gesture == p.gesture.GetOr(NoGesture)
      ensures p.Payload? ==> hand == p.hand.GetOr(old(hand))
      ensures p.Malformed? ==> State() == old(State())
    {
      if p.Malformed? {
        return;
      }
      gesture := p.gesture.GetOr(NoGesture);
      hand := p.hand.GetOr(hand);
      UpdateMode(gesture, now);
    }

    /** The "connect" handler: the snapshot sent to the new viewer; nothing changes. */
    method Connect() returns (snap: Snapshot)
      ensures snap == SnapshotOf(State())
      ensures snap.photoIndex == photoIndex && snap.mode == ModeName(mode) && snap.autoPlay == autoPlay
    {
      snap := Snapshot(gesture, ModeName(mode), hand, photoIndex, autoPlay);
    }
  }

  /** The background thread's own state: the time of the last autoplay advance. */
  class BackgroundLoop {
    var lastAuto: int

    /** The thread reads the clock once when it starts. */
    constructor (start: int)
      ensures lastAuto == start
    {
      lastAuto := start;
    }

    /** One pass of the loop body at time `now`: advance the photo if autoplay is due,
        then return the snapshot that is broadcast to every viewer. */
    method Pass(s: Session, now: int) returns (snap: Snapshot)
      modifies this, s`photoIndex
      ensures ServerState(s.State(), lastAuto)
                == AutoplayAdvance(ServerState(old(s.State()), old(lastAuto)), now)
      ensures snap == SnapshotOf(s.State())
    {
      if s.autoPlay && now - lastAuto > AutoplayPeriodMs {
        s.photoIndex := s.photoIndex + 1;
        lastAuto := now;
      }
      snap := Snapshot(s.gesture, ModeName(s.mode), s.hand, s.photoIndex, s.autoPlay);
    }
  }

  /** A usage scenario, not a handler of the backend: thumbs-up then, a second later,
      a pinch, starting from the initial globals. */
  method ThumbsUpThenPinch(now: int)
    requires now >= 0
  {
    var s := new Session();
    s.HandleGesture(Payload(Some("THUMBS_UP"), None), now + 1000);
    assert s.mode == Autoplay && s.autoPlay;
    s.HandleGesture(Payload(Some("PINCH"), None), now + 2000);
    assert s.mode == Next && !s.autoPlay && s.photoIndex == 1;
  }
}
