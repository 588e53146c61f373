/** What holds of every sequence of pointer events delivered to the component:
    the order in which it calls the delegate, the recognizer and the callbacks,
    the touch/mouse debounce, and one run showing that `captured` does not imply
    `started`. */
module GestureProperties {
  import opened GestureSpec

  // THE CALLBACK GRAMMAR

  /** The order of the lifecycle callbacks, as an automaton whose state `open` says
      whether an onStart is still waiting for its end; None when a callback comes out
      of turn. A session opens with onStart, carries any number of onMove, and is
      closed by onEnd. notCaptured only comes while no session is open. A session is
      also closed, with no callback at all, by a granted start (the recognizer being
      seeded): pointerDown resets `captured` without firing anything.
      canStart and the other delegate and recognizer calls leave it as it is. */
  function SessionStep(open: bool, c: Call): Option<bool>
  {
    match c
    case Invoke(OnStartHook, _) => if open then None else Some(true)
    case Invoke(OnMoveHook, _) => if open then Some(true) else None
    case Invoke(OnEndHook, _) => if open then Some(false) else None
    case Invoke(NotCapturedHook, _) => if open then None else Some(false)
    case RecognizerStart(_, _) => Some(false)
    case _ => Some(open)
  }

  function Session(open: bool, calls: seq<Call>): Option<bool>
    decreases |calls|
  {
    if calls == [] then Some(open)
    else
      match SessionStep(open, calls[0])
      case None => None
      case Some(next) => Session(next, calls[1..])
  }

  lemma {:induction false} SessionConcat(open: bool, a: seq<Call>, b: seq<Call>)
    ensures Session(open, a + b) ==
      match Session(open, a)
      case None => None
      case Some(next) => Session(next, b)
    decreases |a|
  {
    if a == [] {
      assert a + b == b;
    } else {
      assert (a + b)[1..] == a[1..] + b;
      match SessionStep(open, a[0])
      case None =>
      case Some(next) => SessionConcat(next, a[1..], b);
    }
  }

  lemma SessionPair(open: bool, c: Call, c': Call)
    ensures Session(open, [c, c']) ==
      match SessionStep(open, c)
      case None => None
      case Some(next) => SessionStep(next, c')
  {
    assert [c, c'][1..] == [c'];
    assert [c'][1..] == [];
    match SessionStep(open, c)
    case None =>
    case Some(next) =>
      assert Session(next, [c']) == SessionStep(next, c');
  }

  /** One handled event keeps the `captured` flag equal to "a session is open". */
  lemma HandleKeepsSession(s: GestureState, i: Input)
    requires !s.unloaded
    ensures Session(s.detail.captured, Handle(s, i).calls) == Some(Handle(s, i).s.detail.captured)
  {
    var a := i.answers;
    var ev := i.ev;
    match i.handler
    case TouchStart =>
      var t := Now(ev, a.dateNow);
      var s1 := s.(lastTouch := t, detail := s.detail.(timeStamp := t),
                   listeners := EnableTouch(EnableMouse(s.listeners, false), true));
      DownKeepsSession(s1, ev, a);
    case MouseDown =>
      var t := Now(ev, a.dateNow);
      var s1 := s.(detail := s.detail.(timeStamp := t),
                   listeners := EnableTouch(EnableMouse(s.listeners, true), false));
      if MouseDownAllowed(s.lastTouch, t) {
        DownKeepsSession(s1, ev, a);
      }
    case TouchMove =>
      var t := Now(ev, a.dateNow);
      MoveKeepsSession(s.(lastTouch := t, detail := s.detail.(timeStamp := t)), ev, a);
    case MouseMove =>
      var t := Now(ev, a.dateNow);
      if MouseAllowed(s.lastTouch, t) {
        MoveKeepsSession(s.(detail := s.detail.(timeStamp := t)), ev, a);
      }
    case TouchEnd =>
      var t := Now(ev, a.dateNow);
      UpKeepsSession(s.(lastTouch := t, detail := s.detail.(timeStamp := t)), ev);
    case MouseUp =>
      var t := Now(ev, a.dateNow);
      if MouseAllowed(s.lastTouch, t) {
        UpKeepsSession(s.(detail := s.detail.(timeStamp := t)), ev);
      }
  }

  lemma DownKeepsSession(s: GestureState, ev: PointerEvent, a: Answers)
    ensures Session(s.detail.captured, PointerDown(s, ev, a).calls) == Some(PointerDown(s, ev, a).s.detail.captured)
  {
    var r := PointerDown(s, ev, a);
    if !s.unloaded && !s.detail.started {
      var c := s.detail.captured;
      if a.canStartVetoed {
        assert r.calls == [r.calls[0]];
        SessionConcat(c, [r.calls[0]], []);
      } else if !a.startOk {
        assert r.calls == [r.calls[0]] + [Release, Start];
        SessionConcat(c, [r.calls[0]], [Release, Start]);
        SessionPair(c, Release, Start);
      } else {
        assert r.calls == [r.calls[0], Release] + [Start, r.calls[3]];
        SessionConcat(c, [r.calls[0], Release], [Start, r.calls[3]]);
        SessionPair(c, r.calls[0], Release);
        SessionPair(c, Start, r.calls[3]);
      }
    }
  }

  /** The calls of a move that captures open a session. */
  lemma CapturedSession(detect: Call, isGesture: Call, onStart: Call)
    requires detect.Detect? && isGesture.IsGesture? && onStart.Invoke? && onStart.hook == OnStartHook
    ensures Session(false, [detect, isGesture] + [Capture, onStart]) == Some(true)
  {
    assert [detect, isGesture] + [Capture, onStart] == [detect] + ([isGesture] + ([Capture] + ([onStart] + [])));
    SessionCons(false, onStart, []);
    SessionCons(false, Capture, [onStart] + []);
    SessionCons(false, isGesture, [Capture] + ([onStart] + []));
    SessionCons(false, detect, [isGesture] + ([Capture] + ([onStart] + [])));
  }

  /** The calls of a move whose capture is refused leave no session open. */
  lemma AbortedSession(detect: Call, isGesture: Call, notCaptured: Call)
    requires detect.Detect? && isGesture.IsGesture? && notCaptured.Invoke? && notCaptured.hook == NotCapturedHook
    ensures Session(false, [detect, isGesture] + [Capture, Release, notCaptured]) == Some(false)
  {
    var tail := [Release] + ([notCaptured] + []);
    assert [detect, isGesture] + [Capture, Release, notCaptured] == [detect] + ([isGesture] + ([Capture] + tail));
    SessionCons(false, notCaptured, []);
    SessionCons(false, Release, [notCaptured] + []);
    SessionCons(false, Capture, tail);
    SessionCons(false, isGesture, [Capture] + tail);
    SessionCons(false, detect, [isGesture] + ([Capture] + tail));
  }

  lemma MoveKeepsSession(s: GestureState, ev: PointerEvent, a: Answers)
    requires !s.unloaded
    ensures Session(s.detail.captured, PointerMove(s, ev, a).calls) == Some(PointerMove(s, ev, a).s.detail.captured)
  {
    MoveCalls(s, ev, a);
    var d := s.detail.(currentX := ev.x, currentY := ev.y, event := Some(ev));
    var asked := [Detect(ev.x, ev.y, true), IsGesture(a.verdict)];
    if s.detail.captured {
      SessionCons(true, Invoke(OnMoveHook, d), []);
      assert [Invoke(OnMoveHook, d)] + [] == [Invoke(OnMoveHook, d)];
    } else if !a.detected {
      SessionCons(false, Detect(ev.x, ev.y, false), []);
      assert [Detect(ev.x, ev.y, false)] + [] == [Detect(ev.x, ev.y, false)];
    } else if a.verdict == 0 {
      SessionCons(false, asked[1], []);
      SessionCons(false, asked[0], [asked[1]] + []);
      assert [asked[0]] + ([asked[1]] + []) == asked;
    } else if a.captureOk {
      CapturedSession(asked[0], asked[1], Invoke(OnStartHook, d));
    } else {
      AbortedSession(asked[0], asked[1], Invoke(NotCapturedHook, d.(started := false, captured := false)));
    }
  }

  lemma UpKeepsSession(s: GestureState, ev: PointerEvent)
    requires !s.unloaded
    ensures Session(s.detail.captured, PointerUp(s, ev).calls) == Some(PointerUp(s, ev).s.detail.captured)
  {
    var r := PointerUp(s, ev);
    assert r.calls == [r.calls[0], r.calls[1]];
    SessionPair(s.detail.captured, r.calls[0], r.calls[1]);
  }

  /** In every run the callbacks follow the automaton of SessionStep, and the
      `captured` flag says exactly whether a session is open: onMove and onEnd only
      fire inside a session, onStart never fires inside one, and notCaptured never
      interrupts one. */
  lemma {:induction false} RunKeepsSession(s: GestureState, inputs: seq<Input>)
    requires !s.unloaded
    ensures Session(s.detail.captured, Run(s, inputs).calls) == Some(Run(s, inputs).s.detail.captured)
    decreases |inputs|
  {
    if inputs != [] {
      var first := Dispatch(s, inputs[0]);
      if Subscribed(s.listeners, inputs[0].handler) {
        HandleKeepsSession(s, inputs[0]);
      }
      RunKeepsSession(first.s, inputs[1..]);
      SessionConcat(s.detail.captured, first.calls, Run(first.s, inputs[1..]).calls);
    }
  }

  /** From construction on, the callbacks of every run follow the grammar. */
  lemma CallbacksWellNested(inputs: seq<Input>)
    ensures Session(false, Run(Initial, inputs).calls) == Some(Run(Initial, inputs).s.detail.captured)
  {
    RunKeepsSession(Initial, inputs);
  }

  /** A down that is granted while the component is captured but not started (see
      CaptureWithoutStart) drops the session: `captured` becomes false and the only
      callback is canStart, so that onStart gets neither onEnd nor notCaptured. */
  lemma DownDropsCapture(s: GestureState, ev: PointerEvent, a: Answers)
    requires !s.unloaded && s.detail.captured && !s.detail.started
    requires !a.canStartVetoed && a.startOk
    ensures !OnTouchStart(s, ev, a).s.detail.captured
    ensures Hooks(OnTouchStart(s, ev, a).calls) == [CanStartHook]
  {
    var calls := OnTouchStart(s, ev, a).calls;
    assert calls == [calls[0], Release] + [Start, calls[3]];
    HooksConcat([calls[0], Release], [Start, calls[3]]);
    HooksPair(calls[0], Release);
    HooksPair(Start, calls[3]);
  }

  /** The same for a mousedown outside the debounce window. */
  lemma MouseDownDropsCapture(s: GestureState, ev: PointerEvent, a: Answers)
    requires !s.unloaded && s.detail.captured && !s.detail.started
    requires MouseDownAllowed(s.lastTouch, Now(ev, a.dateNow))
    requires !a.canStartVetoed && a.startOk
    ensures !OnMouseDown(s, ev, a).s.detail.captured
    ensures Hooks(OnMouseDown(s, ev, a).calls) == [CanStartHook]
  {
    var calls := OnMouseDown(s, ev, a).calls;
    assert calls == [calls[0], Release] + [Start, calls[3]];
    HooksConcat([calls[0], Release], [Start, calls[3]]);
    HooksPair(calls[0], Release);
    HooksPair(Start, calls[3]);
  }

  // THE ORDER OF OUTBOUND CALLS

  /** What must come right before the call at index i: start after the fallback
      release; the recognizer is seeded right after a granted start; capture is
      asked right after a positive detect and a nonzero verdict; onStart right after
      capture; onEnd and notCaptured right after a release. */
  predicate Preceded(calls: seq<Call>, i: int)
    requires 0 <= i < |calls|
  {
    match calls[i]
    case Start => i >= 1 && calls[i - 1] == Release
    case RecognizerStart(_, _) => i >= 1 && calls[i - 1] == Start
    case Capture =>
      && i >= 2
      && calls[i - 1].IsGesture? && calls[i - 1].verdict != 0
      && calls[i - 2].Detect? && calls[i - 2].found
    case Invoke(hook, _) =>
      && (hook == OnStartHook ==> i >= 1 && calls[i - 1] == Capture)
      && (hook == OnEndHook || hook == NotCapturedHook ==> i >= 1 && calls[i - 1] == Release)
    case _ => true
  }

  predicate Protocol(calls: seq<Call>)
  {
    forall i | 0 <= i < |calls| :: Preceded(calls, i)
  }

  lemma ProtocolConcat(a: seq<Call>, b: seq<Call>)
    requires Protocol(a) && Protocol(b)
    ensures Protocol(a + b)
  {
    var ab := a + b;
    forall i | 0 <= i < |ab|
      ensures Preceded(ab, i)
    {
      if i < |a| {
        assert ab[i] == a[i];
        assert Preceded(a, i);
        if i >= 1 { assert ab[i - 1] == a[i - 1]; }
        if i >= 2 { assert ab[i - 2] == a[i - 2]; }
      } else {
        var j := i - |a|;
        assert ab[i] == b[j];
        assert Preceded(b, j);
        if j >= 1 { assert ab[i - 1] == b[j - 1]; }
        if j >= 2 { assert ab[i - 2] == b[j - 2]; }
      }
    }
  }

  lemma HandleKeepsProtocol(s: GestureState, i: Input)
    requires !s.unloaded
    ensures Protocol(Handle(s, i).calls)
  {
    var a := i.answers;
    var ev := i.ev;
    match i.handler
    case TouchStart =>
      var t := Now(ev, a.dateNow);
      DownProtocol(s.(lastTouch := t, detail := s.detail.(timeStamp := t),
                      listeners := EnableTouch(EnableMouse(s.listeners, false), true)), ev, a);
    case MouseDown =>
      var t := Now(ev, a.dateNow);
      DownProtocol(s.(detail := s.detail.(timeStamp := t),
                      listeners := EnableTouch(EnableMouse(s.listeners, true), false)), ev, a);
    case TouchMove =>
      var t := Now(ev, a.dateNow);
      MoveProtocol(s.(lastTouch := t, detail := s.detail.(timeStamp := t)), ev, a);
    case MouseMove =>
      var t := Now(ev, a.dateNow);
      MoveProtocol(s.(detail := s.detail.(timeStamp := t)), ev, a);
    case TouchEnd =>
      var t := Now(ev, a.dateNow);
      UpProtocol(s.(lastTouch := t, detail := s.detail.(timeStamp := t)), ev);
    case MouseUp =>
      var t := Now(ev, a.dateNow);
      UpProtocol(s.(detail := s.detail.(timeStamp := t)), ev);
  }

  lemma DownProtocol(s: GestureState, ev: PointerEvent, a: Answers)
    ensures Protocol(PointerDown(s, ev, a).calls)
  {
    var calls := PointerDown(s, ev, a).calls;
    forall i | 0 <= i < |calls|
      ensures Preceded(calls, i)
    {
      assert i == 0 || i == 1 || i == 2 || i == 3;
    }
  }

  lemma MoveProtocol(s: GestureState, ev: PointerEvent, a: Answers)
    requires !s.unloaded
    ensures Protocol(PointerMove(s, ev, a).calls)
  {
    var calls := PointerMove(s, ev, a).calls;
    if !s.detail.captured && a.detected && a.verdict != 0 {
      var d := s.detail.(currentX := ev.x, currentY := ev.y, event := Some(ev));
      if a.captureOk {
        assert calls == [Detect(ev.x, ev.y, true), IsGesture(a.verdict), Capture, Invoke(OnStartHook, d)];
      } else {
        var d' := d.(started := false, captured := false);
        assert calls == [Detect(ev.x, ev.y, true), IsGesture(a.verdict), Capture, Release, Invoke(NotCapturedHook, d')];
      }
    }
    forall i | 0 <= i < |calls|
      ensures Preceded(calls, i)
    {
      assert i == 0 || i == 1 || i == 2 || i == 3 || i == 4;
    }
  }

  lemma UpProtocol(s: GestureState, ev: PointerEvent)
    requires !s.unloaded
    ensures Protocol(PointerUp(s, ev).calls)
  {
    var calls := PointerUp(s, ev).calls;
    forall i | 0 <= i < |calls|
      ensures Preceded(calls, i)
    {
      assert i == 0 || i == 1;
    }
  }

  /** In every run: each delegate start directly follows a release; the recognizer
      is seeded directly after each granted start; capture is only asked directly
      after a positive detect and a nonzero verdict; onStart directly follows a
      capture; onEnd and notCaptured directly follow a release. */
  lemma {:induction false} RunKeepsProtocol(s: GestureState, inputs: seq<Input>)
    requires !s.unloaded
    ensures Protocol(Run(s, inputs).calls)
    decreases |inputs|
  {
    if inputs != [] {
      var first := Dispatch(s, inputs[0]);
      if Subscribed(s.listeners, inputs[0].handler) {
        HandleKeepsProtocol(s, inputs[0]);
      }
      RunKeepsProtocol(first.s, inputs[1..]);
      ProtocolConcat(first.calls, Run(first.s, inputs[1..]).calls);
    }
  }

  // TOUCH/MOUSE DEBOUNCE

  /** A mouse input that its handler ignores in state s. */
  predicate Suppressed(s: GestureState, i: Input)
  {
    match i.handler
    case MouseDown => !MouseDownAllowed(s.lastTouch, Now(i.ev, i.answers.dateNow))
    case MouseMove => !MouseAllowed(s.lastTouch, Now(i.ev, i.answers.dateNow))
    case MouseUp => !MouseAllowed(s.lastTouch, Now(i.ev, i.answers.dateNow))
    case _ => false
  }

  /** A run of ignored mouse inputs changes nothing and calls nothing. */
  lemma {:induction false} SuppressedMouseRun(s: GestureState, inputs: seq<Input>)
    requires !s.unloaded
    requires forall k | 0 <= k < |inputs| :: Suppressed(s, inputs[k])
    ensures Run(s, inputs) == Outcome(s, [])
    decreases |inputs|
  {
    if inputs != [] {
      assert Suppressed(s, inputs[0]);
      assert Dispatch(s, inputs[0]) == Outcome(s, []);
      forall k | 0 <= k < |inputs[1..]|
        ensures Suppressed(s, inputs[1..][k])
      {
        assert inputs[1..][k] == inputs[k + 1];
      }
      SuppressedMouseRun(s, inputs[1..]);
    }
  }

  /** A delivered touch event (with a nonzero timestamp) silences every mouse event
      stamped at most MouseWait milliseconds after it: the whole run has the effect of
      the touch event alone. */
  lemma TouchSilencesMouse(s: GestureState, touch: Input, mice: seq<Input>)
    requires !s.unloaded
    requires touch.handler.TouchStart? || touch.handler.TouchMove? || touch.handler.TouchEnd?
    requires Subscribed(s.listeners, touch.handler)
    requires Now(touch.ev, touch.answers.dateNow) != 0
    requires forall k | 0 <= k < |mice| ::
      && (mice[k].handler.MouseDown? || mice[k].handler.MouseMove? || mice[k].handler.MouseUp?)
      && Now(mice[k].ev, mice[k].answers.dateNow) <= Now(touch.ev, touch.answers.dateNow) + MouseWait
    ensures Run(s, [touch] + mice) == Dispatch(s, touch)
  {
    var first := Dispatch(s, touch);
    assert first.s.lastTouch == Now(touch.ev, touch.answers.dateNow);
    forall k | 0 <= k < |mice|
      ensures Suppressed(first.s, mice[k])
    {
    }
    SuppressedMouseRun(first.s, mice);
    assert ([touch] + mice)[1..] == mice;
    assert first.calls + [] == first.calls;
  }

  /** A delivered touch event with a nonzero time stamps lastTouch with it, so from
      then on the "no touch seen yet" exception of the mousedown debounce is gone and
      mousedown obeys the same window as mousemove and mouseup. */
  lemma TouchClosesZeroException(s: GestureState, touch: Input)
    requires !s.unloaded
    requires touch.handler.TouchStart? || touch.handler.TouchMove? || touch.handler.TouchEnd?
    requires Subscribed(s.listeners, touch.handler)
    requires touch.ev.timeStamp != 0 || touch.answers.dateNow != 0
    ensures var after := Dispatch(s, touch).s;
      && after.lastTouch != 0
      && forall t :: MouseDownAllowed(after.lastTouch, t) == MouseAllowed(after.lastTouch, t)
  {
    assert Dispatch(s, touch).s.lastTouch == Now(touch.ev, touch.answers.dateNow);
  }

  /** The mousedown window is strict: a mousedown exactly MouseWait milliseconds after
      a touch is still ignored, and so are mousemove and mouseup. */
  lemma MouseWaitIsStrict(s: GestureState, ev: PointerEvent, a: Answers)
    requires !s.unloaded && s.lastTouch != 0
    requires Now(ev, a.dateNow) == s.lastTouch + MouseWait
    ensures OnMouseDown(s, ev, a) == Outcome(s, [])
    ensures OnMoveMove(s, ev, a) == Outcome(s, [])
    ensures OnMouseUp(s, ev, a) == Outcome(s, [])
  {
  }

  // CAPTURED WITHOUT STARTED

  /** touchstart enables the touch listeners before pointerDown can refuse, and
      pointerMove does not look at `started`: from any loaded state that is neither
      started nor captured, a touchstart that canStart vetoes followed by a touchmove
      that the recognizer and the delegate accept ends captured, with onStart fired,
      although the delegate was not asked to start for this touch and `started` is false. The
      recognizer may still hold the origin of an earlier gesture, since a vetoed
      down does not seed it. */
  lemma CaptureWithoutStart(s: GestureState, down: Input, move: Input)
    requires !s.unloaded && !s.detail.started && !s.detail.captured
    requires down.handler == TouchStart && down.answers.canStartVetoed
    requires move.handler == TouchMove
    requires move.answers.detected && move.answers.verdict != 0 && move.answers.captureOk
    ensures
      var r := Run(s, [down, move]);
      && Subscribed(Dispatch(s, down).s.listeners, TouchMove)
      && r.s.detail.captured && !r.s.detail.started
      && Hooks(r.calls) == [CanStartHook, OnStartHook]
      && Start !in r.calls
  {
    var first := Dispatch(s, down);
    assert first == OnTouchStart(s, down.ev, down.answers);
    assert first.s.listeners.touchMove && !first.s.detail.started && !first.s.detail.captured;
    assert |first.calls| == 1 && first.calls[0].Invoke? && first.calls[0].hook == CanStartHook;
    var second := Dispatch(first.s, move);
    assert second == OnTouchMove(first.s, move.ev, move.answers);
    assert second.s.detail.captured && !second.s.detail.started;
    assert Hooks(second.calls) == [OnStartHook] && Start !in second.calls;
    RunTwo(s, down, move);
    HooksConcat(first.calls, second.calls);
    HooksPair(first.calls[0], first.calls[0]);
    assert first.calls == [first.calls[0]];
  }

  // LISTENER TOGGLES AND DELIVERY

  /** Inputs whose listener is off have no effect, however many of them arrive. */
  lemma {:induction false} UnsubscribedRun(s: GestureState, inputs: seq<Input>)
    requires !s.unloaded
    requires forall i | i in inputs :: !Subscribed(s.listeners, i.handler)
    ensures Run(s, inputs) == Outcome(s, [])
    decreases |inputs|
  {
    if inputs != [] {
      assert inputs[0] in inputs;
      assert Dispatch(s, inputs[0]) == Outcome(s, []);
      UnsubscribedRun(s, inputs[1..]);
    }
  }

  /** After a touchstart, touchmove and touchend reach their handlers, and mousemove
      and mouseup are not delivered at all. */
  lemma TouchStartSubscribes(s: GestureState, ev: PointerEvent, a: Answers, i: Input, mice: seq<Input>)
    requires !s.unloaded
    requires forall m | m in mice :: m.handler == MouseMove || m.handler == MouseUp
    ensures var after := OnTouchStart(s, ev, a).s;
      && (i.handler == TouchMove || i.handler == TouchEnd ==> Dispatch(after, i) == Handle(after, i))
      && Run(after, mice) == Outcome(after, [])
  {
    UnsubscribedRun(OnTouchStart(s, ev, a).s, mice);
  }

  /** After a mousedown that is not suppressed, mousemove and mouseup reach their
      handlers, and touchmove and touchend are not delivered at all. */
  lemma MouseDownSubscribes(s: GestureState, ev: PointerEvent, a: Answers, i: Input, touches: seq<Input>)
    requires !s.unloaded
    requires MouseDownAllowed(s.lastTouch, Now(ev, a.dateNow))
    requires forall t | t in touches :: t.handler == TouchMove || t.handler == TouchEnd
    ensures var after := OnMouseDown(s, ev, a).s;
      && (i.handler == MouseMove || i.handler == MouseUp ==> Dispatch(after, i) == Handle(after, i))
      && Run(after, touches) == Outcome(after, [])
  {
    UnsubscribedRun(OnMouseDown(s, ev, a).s, touches);
  }

  /** After a touchend, no touchmove or touchend is delivered until the next touchstart. */
  lemma TouchEndSilencesTouch(s: GestureState, ev: PointerEvent, a: Answers, inputs: seq<Input>)
    requires !s.unloaded
    requires forall i | i in inputs :: i.handler == TouchMove || i.handler == TouchEnd
    ensures var after := OnTouchEnd(s, ev, a).s;
      Run(after, inputs) == Outcome(after, [])
  {
    var after := OnTouchEnd(s, ev, a).s;
    UnsubscribedRun(after, inputs);
  }

  /** After a mouseup that is not suppressed, no mousemove or mouseup is delivered
      until the next mousedown. */
  lemma MouseUpSilencesMouse(s: GestureState, ev: PointerEvent, a: Answers, inputs: seq<Input>)
    requires !s.unloaded
    requires MouseAllowed(s.lastTouch, Now(ev, a.dateNow))
    requires forall i | i in inputs :: i.handler == MouseMove || i.handler == MouseUp
    ensures var after := OnMouseUp(s, ev, a).s;
      Run(after, inputs) == Outcome(after, [])
  {
    var after := OnMouseUp(s, ev, a).s;
    UnsubscribedRun(after, inputs);
  }

  /** After abortGesture, only touchstart and mousedown are delivered. */
  lemma AbortSilencesAll(s: GestureState, inputs: seq<Input>)
    requires !s.unloaded
    requires forall i | i in inputs :: i.handler != TouchStart && i.handler != MouseDown
    ensures var after := AbortGesture(s).s;
      Run(after, inputs) == Outcome(after, [])
  {
    UnsubscribedRun(AbortGesture(s).s, inputs);
  }

  /** A move whose capture the delegate refuses aborts the gesture: after it, only
      touchstart and mousedown are delivered. */
  lemma RefusedCaptureSilencesAll(s: GestureState, ev: PointerEvent, a: Answers, inputs: seq<Input>)
    requires !s.unloaded && !s.detail.captured
    requires a.detected && a.verdict != 0 && !a.captureOk
    requires forall i | i in inputs :: i.handler != TouchStart && i.handler != MouseDown
    ensures var after := PointerMove(s, ev, a).s;
      Run(after, inputs) == Outcome(after, [])
  {
    var after := PointerMove(s, ev, a).s;
    UnsubscribedRun(after, inputs);
  }

  // HELPER LEMMAS

  /** One call, then the rest. */
  lemma SessionCons(open: bool, c: Call, rest: seq<Call>)
    ensures Session(open, [c] + rest) ==
      match SessionStep(open, c)
      case None => None
      case Some(next) => Session(next, rest)
  {
    assert ([c] + rest)[1..] == rest;
  }

  /** The calls of pointerMove, case by case. */
  lemma MoveCalls(s: GestureState, ev: PointerEvent, a: Answers)
    requires !s.unloaded
    ensures
      var calls := PointerMove(s, ev, a).calls;
      var d := s.detail.(currentX := ev.x, currentY := ev.y, event := Some(ev));
      var asked := [Detect(ev.x, ev.y, true), IsGesture(a.verdict)];
      && (s.detail.captured ==> calls == [Invoke(OnMoveHook, d)])
      && (!s.detail.captured && !a.detected ==> calls == [Detect(ev.x, ev.y, false)])
      && (!s.detail.captured && a.detected && a.verdict == 0 ==> calls == asked)
      && (!s.detail.captured && a.detected && a.verdict != 0 && a.captureOk ==>
            calls == asked + [Capture, Invoke(OnStartHook, d)])
      && (!s.detail.captured && a.detected && a.verdict != 0 && !a.captureOk ==>
            calls == asked + [Capture, Release, Invoke(NotCapturedHook, d.(started := false, captured := false))])
  {
  }

  /** Two inputs in a row. */
  lemma RunTwo(s: GestureState, i: Input, j: Input)
    requires !s.unloaded
    ensures
      var first := Dispatch(s, i);
      var second := Dispatch(first.s, j);
      Run(s, [i, j]) == Outcome(second.s, first.calls + second.calls)
  {
    var first := Dispatch(s, i);
    var second := Dispatch(first.s, j);
    assert [i, j][1..] == [j];
    assert [j][1..] == [];
    assert Run(first.s, [j]) == Outcome(second.s, second.calls + []);
    assert second.calls + [] == second.calls;
  }
}
