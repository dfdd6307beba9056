# Gesture-controlled display backend: the mode state machine

This project models the state machine in the backend of an interactive photo display. Viewers'
browsers send hand-gesture labels (`FIST`, `OPEN`, `PINCH`, `PEACE`, `THUMBS_UP`) over a socket.
The backend maps each label to a display mode (`TREE`, `SCATTER`, `NEXT`, `HEART`, `AUTOPLAY`).
A cooldown of 0.5 s separates accepted inputs. `PINCH` advances a photo index. `THUMBS_UP`
starts an autoplay slideshow, and a background loop advances the photo every 2.5 s while it
runs. The same loop broadcasts a snapshot of the state to every viewer, and a newly connected
viewer receives one snapshot.

Layout:

- `mode_control.dfy`, module `ModeControl`: the state as values. It holds the transition
  function `UpdateMode`, the input handler `HandleGesture`, the autoplay step `AutoplayAdvance`
  and the snapshot `SnapshotOf`. It also defines `Run`, which folds any interleaving of gesture
  inputs and loop passes (`Event`). The lemmas state the transition table and the invariants
  over every such run.
- `backend.dfy`, module `Backend`: the source's form, which rebinds module globals in place.
  Class `Session` holds the six globals. Its methods `UpdateMode`, `HandleGesture` and `Connect`
  are the handlers. Class `BackgroundLoop` holds the loop's local `last_auto`, and its method
  `Pass` is one iteration of the loop body. Each method is proved equal to the matching
  `ModeControl` function applied to the old state.

Time is an integer number of milliseconds and is passed in as `now`. The source reads the wall
clock with `time.time()` (float seconds); the model uses a cooldown of 500 and an autoplay
period of 2500.

The model does what the code does, which is simpler than the debounce one might expect:

- The cooldown timestamp moves to `now` on every call that passes the cooldown. This includes
  `NONE` and unrecognised labels (app.py:70 is outside the `if`/`elif` chain). So a stream of
  `NONE` inputs keeps deferring the next accepted gesture. Moving the timestamp is not
  reserved for inputs that change the mode.
- There is no "already in this mode" suppression and no confirmation count. A repeated `FIST`
  past the cooldown is acted on again.
- The autoplay timer fires only when strictly more than 2.5 s has elapsed (`>` at app.py:111),
  not "at least".
- An input whose data is not a record makes the field lookup at app.py:87 fail before any
  global is written. The model represents it as `Malformed`, and it changes nothing.

## Model

| member | source | states |
|---|---|---|
| ModeControl.InitialSession | app.py:23-35 | The start state is gesture NONE, mode TREE, hand at (0, 0) not detected, photo 0, autoplay off, last mode change at time 0. So the first input passes the cooldown. It satisfies the autoplay-iff-AUTOPLAY invariant. |
| ModeControl.SelectsExactly | app.py:49-68 | Each mode is selected by exactly one gesture label (both directions). `NONE` selects no mode. |
| ModeControl.UpdateMode | app.py:42-70 | update_mode never touches the gesture or hand fields. The photo index stays or grows by one. The call preserves autoplay-iff-AUTOPLAY. It either changes nothing or sets the timestamp to `now`. |
| ModeControl.CooldownIsNoOp | app.py:45-47 | If less than 500 ms has passed since the last change, the state is unchanged: mode, autoplay, photo index and timestamp. |
| ModeControl.AcceptRefreshesTimestamp | app.py:46-70 | Once the cooldown has passed, the timestamp becomes `now` for every label, recognised or not. |
| ModeControl.TransitionTable | app.py:49-68 | Past the cooldown: FIST→TREE, OPEN→SCATTER, PINCH→NEXT, PEACE→HEART, THUMBS_UP→AUTOPLAY. Autoplay is on exactly for THUMBS_UP. The photo index grows by one exactly for PINCH, whatever the previous mode. |
| ModeControl.UnrecognisedOnlyMovesTimestamp | app.py:49-70 | Past the cooldown, an unrecognised label leaves everything unchanged except the timestamp, which becomes `now`. |
| ModeControl.HandleGesture | app.py:87-90 | The stored gesture is the payload's, or NONE when it is missing. The stored hand is the payload's, or the previous hand when it is missing. A payload that is not a record changes nothing. The photo index does not decrease, and the autoplay invariant is preserved. |
| ModeControl.HandleGestureInsideCooldown | app.py:87-90 | Inside the cooldown, a record payload still overwrites the gesture and hand. Nothing else changes, and a malformed payload changes nothing at all. |
| ModeControl.MalformedInputIsNoOp | app.py:87 | An input whose data is not a record leaves the whole process state unchanged. |
| ModeControl.AutoplayAdvance | app.py:111-113 | The loop step changes only the photo index and `last_auto`. It adds one and sets `last_auto` to `now` exactly when autoplay is on and more than 2500 ms has elapsed. Otherwise nothing changes. The autoplay invariant is preserved. |
| ModeControl.SnapshotOf | app.py:94-100 | The snapshot carries exactly the gesture, the mode's name, the hand, the photo index and the autoplay flag of any state. On a consistent state, autoPlay is true exactly when the mode name is "AUTOPLAY". |
| ModeControl.ModeNameInjective | app.py:50-67 | Different modes are sent under different names. |
| ModeControl.StepPhotoIndex | app.py:57-113 | One event raises the photo index by one for an accepted PINCH and by one for an autoplay advance, and by nothing otherwise. |
| ModeControl.RunPhotoIndex | app.py:42-113 | Over any interleaving of inputs and loop passes, the photo index grows by exactly the accepted PINCHes plus the autoplay advances. So it never decreases. |
| ModeControl.RunKeepsAutoplayConsistent | app.py:42-113 | Autoplay-iff-AUTOPLAY holds after any sequence of events if it held before. |
| ModeControl.StartIsConsistent | app.py:23-113 | From start-up, the invariant holds after every run. The photo index equals the number of accepted PINCHes plus autoplay advances. |
| ModeControl.RunCooldownSpacing | app.py:45-70 | Each input that passes the cooldown pushes the cooldown timestamp on by at least 500 ms. |
| ModeControl.RunLastModeChangeBounded | app.py:45-70 | The cooldown timestamp is unchanged if no input was accepted. Otherwise it is no later than the latest event time. |
| ModeControl.CooldownRateBound | app.py:45-70 | However fast inputs arrive, at most one is acted on per 500 ms of clock time. |
| ModeControl.RunAutoplaySpacing | app.py:108-113 | Each autoplay advance pushes `last_auto` on by at least 2501 ms. |
| ModeControl.RunLastAutoBounded | app.py:108-113 | `last_auto` is unchanged if the timer never fired. Otherwise it is no later than the latest event time. |
| ModeControl.AutoplayRateBound | app.py:108-113 | However often the loop runs, autoplay advances the photo at most once per 2501 ms of clock time since `last_auto` was set. |
| ModeControl.SecondInputInsideCooldown | app.py:76-90 | Two inputs 100 ms apart, the first a record: the second stores its gesture (if it is a record) but does not change the mode or move the timestamp. |
| Backend.Session.constructor | app.py:23-35 | The globals start at the initial session, which is consistent. |
| Backend.Session.UpdateMode | app.py:42-70 | The in-place update_mode leaves the globals equal to `ModeControl.UpdateMode` of their old values. It keeps the invariant, and the photo index does not decrease. |
| Backend.Session.HandleGesture | app.py:76-90 | The handler stores the defaulted gesture and hand, then runs update_mode. A malformed payload leaves the globals unchanged. The new globals equal `ModeControl.HandleGesture` of the old ones. |
| Backend.Session.Connect | app.py:92-100 | The connect handler returns the snapshot of the current globals and changes nothing. |
| Backend.BackgroundLoop.constructor | app.py:108 | `last_auto` starts at the clock reading taken when the thread starts. |
| Backend.BackgroundLoop.Pass | app.py:110-121 | One loop iteration changes only `photo_index` and `last_auto`, as `ModeControl.AutoplayAdvance` says. It returns the snapshot that is broadcast. |

## Left out

- Flask app, Socket.IO setup, the `emit`/`socketio.emit` transport, the `/` route, the start-up
  banner and `socketio.run` (app.py:1-17, 129-155). These are framework plumbing. The snapshot a
  handler would emit is returned instead.
- The `while True` loop, `time.sleep(0.033)` and the background thread (app.py:106-123,
  145-148). `BackgroundLoop.Pass` is one iteration. `ModeControl.Run` takes any interleaving of
  whole handler calls and whole loop passes.
- Unsynchronised mutation of the globals from two threads: the model assumes each handler call
  and each loop pass runs without interruption. A torn interleaving inside one of them is not
  modelled.
- The wall clock: `now` is a parameter in integer milliseconds instead of float seconds, so
  float rounding at the 0.5 s and 2.5 s boundaries is not modelled. At app.py:113, `last_auto`
  is set from a second clock reading; the model uses the same `now` as the test at line 111.
- The hand record is a fixed record of two reals and a flag, copied through unchanged. In the
  source it is whatever dictionary the client sent.
- HandleGesture: a payload that is not a record is one case, `Malformed`, which changes
  nothing. The exception it raises in the handler is not modelled.
- The gesture field is modelled as absent or a string. A payload whose `gesture` is present but
  not a string (for example `null`) is not modelled. Such a value matches no branch, exactly
  like an unrecognised string.
- Landmark feature extraction, gesture classification, the majority-vote smoother and its
  confirmation count are not part of this model. They do not occur in app.py.
