# ion-gesture: the pointer state machine, in Dafny

This project models the `Gesture` class of the `ion-gesture` component
(`src/components/gesture/gesture.ts`). The component turns touch and mouse
down/move/up events into gesture lifecycle callbacks (`canStart`, `onStart`,
`onMove`, `onEnd`, `notCaptured`). It asks a `GestureDelegate` for permission to
start and to capture, and feeds positions to a `PanRecognizer`.

The model follows the code as written, not an idealised IDLE → TRACKING → CAPTURED
machine.

- `gesture_spec.dfy`, module `GestureSpec`: the component's state as a value
  (`GestureState`: the detail record, `lastTouch`, the four toggled listener flags,
  and whether it has been unloaded). Every handler of the class, and the helpers
  `pointerDown`, `pointerMove`, `tryToCapture`, `abortGesture` and `pointerUp`, is a function from
  the old state to the new state plus the ordered list of outbound calls
  (`Call`): delegate calls (`Release`, `Start`, `Capture`, `Destroy`), recognizer
  calls with their answers (`RecognizerStart`, `Detect`, `IsGesture`) and callback
  invocations with the detail snapshot each one is handed. The ensures clauses of
  these functions state what each handler promises. The listener toggles
  `enableMouse`/`enableTouch`/`enable` are functions from `Listeners` to `Listeners`
  and make no call, and `now` is a function from an event and the clock reading to an
  integer. `Run` delivers a sequence of events, each only while its listener is subscribed.
- `gesture.dfy`, module `GestureComponent`: the class `Gesture`, whose fields are
  updated in place, one method per source method, with a ghost log `calls`. Every
  method is proved to leave the fields and the log exactly as the `GestureSpec`
  function of the same name says.
- `gesture_properties.dfy`, module `GestureProperties`: what holds of every run.
  - The callbacks follow a fixed automaton, and `captured` is true exactly when a session is open.
  - The calls come in a fixed local order (start right after release, capture right after a nonzero verdict, and so on).
  - Ignored mouse events change nothing.
  - Two reachable quirks of the code as written.

Collaborators are inputs. Each event comes with an `Answers` value: whether
`canStart` returned exactly `false`, the answers of `GestureDelegate.start` and
`.capture`, of `PanRecognizer.detect` and `.isGesture`, and the value of `Date.now()`
(read only when the event's own timestamp is 0). `pointerCoordX/Y` are the event's
integer `x`, `y`.

Two behaviours of the code as written are stated and proved, not corrected:

- `onTouchStart` turns the touch listeners on before `pointerDown` can refuse, and
  `pointerMove` does not look at `started`. A vetoed touchstart followed by a
  touchmove can therefore capture, provided the gesture controller grants `capture()`
  to a delegate whose `start()` was not called for this touch (the controller is not modelled, so
  this is the `captureOk` answer of the move). Then `onStart` fires and `captured` holds, although the
  delegate was not asked to start for this touch (`CaptureWithoutStart`).
- From that state, a granted touchstart or mousedown resets `captured` without firing `onEnd` or
  `notCaptured` (`DownDropsCapture`, `MouseDownDropsCapture`). The callback automaton in
  `GestureProperties.SessionStep` therefore closes an open session on a granted
  start as well as on `onEnd`.

## Model

| member | source | states |
|---|---|---|
| GestureSpec.Now | src/components/gesture/gesture.ts:234-236 | The event's own timestamp when it is nonzero, else the clock reading; 0 exactly when both are 0. |
| GestureSpec.PointerDown | src/components/gesture/gesture.ts:71-98 | If unloaded or already started: returns false, nothing changes, nothing is called. Otherwise the start/current point and event are overwritten even when canStart vetoes. On a veto only canStart is asked and started/captured are untouched. Past canStart, release comes right before start. A refused start makes exactly those three calls, leaves started/captured as they were and does not seed the recognizer. A granted start gives started, not captured, and the recognizer seeded exactly at (startX, startY). Returns true iff all of that succeeded. |
| GestureSpec.OnTouchStart | src/components/gesture/gesture.ts:46-54 | lastTouch and detail.timeStamp become now(ev). Touch move/end are on and mouse move/up off, whether or not the down succeeds. started afterwards iff it was already or canStart did not veto and start was granted. |
| GestureSpec.OnMouseDown | src/components/gesture/gesture.ts:57-68 | Processed iff lastTouch is 0 or lastTouch + 2500 < now(ev), with a strict comparison. Otherwise nothing changes and nothing is called. When processed: timeStamp is now(ev), lastTouch is unchanged, mouse listeners are on and touch listeners off, and started as for a down. |
| GestureSpec.PointerMove | src/components/gesture/gesture.ts:121-139 | Always records current x/y and the event. Start point, timeStamp and lastTouch are unchanged. When captured: exactly one onMove with the updated detail and no other call; started/captured/listeners unchanged. When not captured, detect is asked first. With no positive detect or a zero verdict: no callback, no capture or release, only the position changes. Capture granted: exactly one onStart, seen while captured is still false, then captured. Capture refused: started and captured false, a release, all four listeners off, exactly one notCaptured. |
| GestureSpec.ConsultRecognizer | src/components/gesture/gesture.ts:132-138 | The branch taken while not captured. detect is asked first, and only started and captured can change in the detail. With no positive detect or a zero verdict nothing changes and no callback or delegate call happens. A granted capture gives exactly one onStart, seen before captured is set. A refused capture makes exactly the calls detect, isGesture, capture, release, notCaptured (with the reset detail), and every listener is off. |
| GestureSpec.TryToCapture | src/components/gesture/gesture.ts:141-152 | Asks capture first and succeeds iff capture is granted. On refusal nothing changes. On success the event is recorded and exactly one onStart fires with the detail before captured is set; then captured is true. |
| GestureSpec.AbortGesture | src/components/gesture/gesture.ts:154-160 | started and captured become false and every listener is off. The calls are exactly a release followed by notCaptured, which sees the reset detail. |
| GestureSpec.OnTouchMove | src/components/gesture/gesture.ts:103-108 | lastTouch and timeStamp become now(ev), and the current position becomes the event's. |
| GestureSpec.OnMoveMove | src/components/gesture/gesture.ts:111-119 | Processed iff lastTouch + 2500 < now(ev), with no exception for lastTouch 0. Otherwise nothing changes and nothing is called. When processed, timeStamp is now(ev), lastTouch is unchanged and the position is updated. |
| GestureSpec.PointerUp | src/components/gesture/gesture.ts:185-201 | Always releases first. Then exactly one callback: onEnd iff captured, notCaptured iff not captured, even if nothing was started. It sees the detail with the up event before the reset. Afterwards started and captured are false; listeners and lastTouch are unchanged. |
| GestureSpec.OnTouchEnd | src/components/gesture/gesture.ts:165-171 | lastTouch and timeStamp become now(ev). The touch listeners are off afterwards and the mouse listeners as before. started and captured are false. The first call is a release and the only callback is onEnd if captured before, else notCaptured. |
| GestureSpec.OnMouseUp | src/components/gesture/gesture.ts:174-183 | Processed iff lastTouch + 2500 < now(ev); otherwise nothing changes and nothing is called. When processed: timeStamp is now(ev), lastTouch is unchanged, the mouse listeners are off, and the up effect is as for onTouchEnd. |
| GestureSpec.IonViewWillUnload | src/components/gesture/gesture.ts:224-227 | The component is unloaded. The delegate is destroyed once, only if it was still held. Every later pointerDown returns false and changes and calls nothing. |
| GestureSpec.Run | src/components/gesture/gesture.ts:44-201 | No sequence of pointer events drops the delegate, the recognizer or the detail. |
| GestureComponent.Gesture.constructor | src/components/gesture/gesture.ts:14-41 | Starts with the empty detail, lastTouch 0, the move/end listeners off and an empty call log. |
| GestureComponent.Gesture.OnTouchStart | src/components/gesture/gesture.ts:46-54 | The fields and the call log change exactly as GestureSpec.OnTouchStart says. |
| GestureComponent.Gesture.OnMouseDown | src/components/gesture/gesture.ts:57-68 | The fields and the call log change exactly as GestureSpec.OnMouseDown says. |
| GestureComponent.Gesture.PointerDown | src/components/gesture/gesture.ts:71-98 | The fields, the call log and the result are exactly as GestureSpec.PointerDown says. |
| GestureComponent.Gesture.OnTouchMove | src/components/gesture/gesture.ts:103-108 | The fields and the call log change exactly as GestureSpec.OnTouchMove says. |
| GestureComponent.Gesture.OnMoveMove | src/components/gesture/gesture.ts:111-119 | The fields and the call log change exactly as GestureSpec.OnMoveMove says. |
| GestureComponent.Gesture.PointerMove | src/components/gesture/gesture.ts:121-139 | The fields and the call log change exactly as GestureSpec.PointerMove says. |
| GestureComponent.Gesture.TryToCapture | src/components/gesture/gesture.ts:141-152 | The fields, the call log and the result are exactly as GestureSpec.TryToCapture says. |
| GestureComponent.Gesture.AbortGesture | src/components/gesture/gesture.ts:154-160 | The fields and the call log change exactly as GestureSpec.AbortGesture says. |
| GestureComponent.Gesture.OnTouchEnd | src/components/gesture/gesture.ts:165-171 | The fields and the call log change exactly as GestureSpec.OnTouchEnd says. |
| GestureComponent.Gesture.OnMouseUp | src/components/gesture/gesture.ts:174-183 | The fields and the call log change exactly as GestureSpec.OnMouseUp says. |
| GestureComponent.Gesture.PointerUp | src/components/gesture/gesture.ts:185-201 | The fields and the call log change exactly as GestureSpec.PointerUp says. |
| GestureComponent.Gesture.EnableMouse | src/components/gesture/gesture.ts:206-209 | Only the mousemove/mouseup flags change, both to the given value. No call is made. |
| GestureComponent.Gesture.EnableTouch | src/components/gesture/gesture.ts:212-215 | Only the touchmove/touchend flags change, both to the given value. No call is made. |
| GestureComponent.Gesture.Enable | src/components/gesture/gesture.ts:218-221 | All four flags take the given value. Nothing else changes. |
| GestureComponent.Gesture.IonViewWillUnload | src/components/gesture/gesture.ts:224-227 | The fields and the call log change exactly as GestureSpec.IonViewWillUnload says. |
| GestureProperties.RunKeepsSession | src/components/gesture/gesture.ts:121-201 | In every run from any loaded state the callbacks follow the session automaton, and captured afterwards is exactly "a session is open": onMove and onEnd only inside a session, onStart and notCaptured only outside one. |
| GestureProperties.CallbacksWellNested | src/components/gesture/gesture.ts:16-201 | The same, from construction on, starting with no session open. |
| GestureProperties.HandleKeepsSession | src/components/gesture/gesture.ts:44-201 | One delivered event keeps captured equal to "a session is open". |
| GestureProperties.DownDropsCapture | src/components/gesture/gesture.ts:46-98 | A granted touchstart while captured but not started resets captured, and canStart is the only callback it fires. |
| GestureProperties.MouseDownDropsCapture | src/components/gesture/gesture.ts:57-98 | A granted mousedown outside the debounce window, while captured but not started, resets captured; the only callback is canStart, with no onEnd or notCaptured. |
| GestureProperties.RunKeepsProtocol | src/components/gesture/gesture.ts:71-201 | In every run: each delegate start directly follows a release, and the recognizer is seeded directly after a granted start. Capture is asked directly after a positive detect and a nonzero isGesture. onStart directly follows capture. onEnd and notCaptured directly follow a release. |
| GestureProperties.SuppressedMouseRun | src/components/gesture/gesture.ts:57-183 | A run of mouse events, each inside the debounce window, changes no state, toggles no listener and calls nothing. |
| GestureProperties.TouchSilencesMouse | src/components/gesture/gesture.ts:46-183 | After a delivered touch event with a nonzero timestamp, the mouse events stamped at most 2500 ms later have no effect. |
| GestureProperties.TouchClosesZeroException | src/components/gesture/gesture.ts:46-108 | A delivered touch event whose own timestamp or clock reading is nonzero leaves lastTouch nonzero, so from then on the mousedown debounce is the same strict window as mousemove and mouseup, without its "no touch yet" exception. |
| GestureProperties.MouseWaitIsStrict | src/components/gesture/gesture.ts:57-183 | A mouse event exactly 2500 ms after the last touch is still ignored, for mousedown, mousemove and mouseup alike. |
| GestureProperties.CaptureWithoutStart | src/components/gesture/gesture.ts:46-139 | From every loaded state that is neither started nor captured, a vetoed touchstart followed by a capturing touchmove gives captured but not started. The touchmove listener was on, the callbacks are exactly canStart then onStart, and the delegate was not asked to start for this touch. |
| GestureProperties.UnsubscribedRun | src/components/gesture/gesture.ts:204-221 | A listener switched off by enableMouse/enableTouch/enable delivers nothing: any run of inputs whose listeners are all off leaves the state unchanged and calls nothing. |
| GestureProperties.TouchStartSubscribes | src/components/gesture/gesture.ts:46-54 | After a touchstart, touchmove and touchend reach their handlers, and any run of mousemove/mouseup inputs has no effect. |
| GestureProperties.MouseDownSubscribes | src/components/gesture/gesture.ts:57-68 | After a mousedown outside the debounce window, mousemove and mouseup reach their handlers, and any run of touchmove/touchend inputs has no effect. |
| GestureProperties.TouchEndSilencesTouch | src/components/gesture/gesture.ts:165-171 | After a touchend, any run of touchmove/touchend inputs has no effect. |
| GestureProperties.MouseUpSilencesMouse | src/components/gesture/gesture.ts:174-183 | After a mouseup outside the debounce window, any run of mousemove/mouseup inputs has no effect. |
| GestureProperties.AbortSilencesAll | src/components/gesture/gesture.ts:154-160 | After abortGesture, any run of move and end inputs has no effect; only touchstart and mousedown are delivered. |
| GestureProperties.RefusedCaptureSilencesAll | src/components/gesture/gesture.ts:132-138 | After a move whose capture the delegate refuses, any run of move and end inputs has no effect. |

## Left out

- Framework wiring is not modelled: the component decorators, the property defaults and the global `Ionic.controllers.gesture` lookup. The model starts from the state the constructor leaves.
- A `type` other than `'pan'` is not modelled. With one, the source leaves the recognizer unset, so `pointerDown` always refuses and a later touchmove dereferences the missing recognizer.
- The `GestureController` arbitration and priorities are not modelled. Their source is not part of this model, so the answers of `start`/`capture` are inputs.
- The `PanRecognizer` threshold and angle arithmetic is not modelled. It is floating point and its source is not part of this model, so the answers of `detect`/`isGesture` are inputs.
- `Ionic.listener.enable` is reduced to the four flags, and `Run` delivers an event only while its flag is on.
- Coordinates and timestamps are integers; the source's are floating point. `pointerCoordX/Y` and the DOM event objects are reduced to `PointerEvent(x, y, timeStamp)`. `now` falls back to `Date.now()` only for a timestamp of 0, not for other falsy values such as NaN.
- `Date.now()` is an input (`Answers.dateNow`), not a clock.
- The source starts the detail as `{}`, so on the first down `canStart` sees `started`, `captured` and the coordinates as `undefined`. The model starts them at `false`, `false` and 0, and the event at `None`.
- The callbacks are assumed not to change the detail object they are handed, and nothing but `canStart`'s answer comes back from them.
- The detail is a value held in a field. Aliasing of the detail object by callbacks that keep a reference is not modelled.
- The handlers require a component that has not been unloaded. After `ionViewWillUnload` the source sets the detail to null, so a touch event, or a mouse event outside the debounce window, would throw (a suppressed mouse event reads only `lastTouch` and returns); that crash path is not modelled. `PointerDown` itself takes any state and refuses once unloaded.
- The `this.gesture &&` tests in `tryToCapture` and `pointerUp` are dropped. The delegate is always present while the component is loaded, and the handlers require that.
- The commented-out debouncer calls are not modelled; they are dead code.
