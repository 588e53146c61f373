/** The `ion-gesture` component as the object it is: its handlers update its
    fields in place. Each method is proved to have exactly the effect that the
    function of the same name in GestureSpec gives it, on the fields and on the
    ghost log of outbound calls. */
module GestureComponent {
  import opened GestureSpec

  class Gesture {
    var detail: Detail
    var lastTouch: int
    var touchMoveOn: bool
    var touchEndOn: bool
    var mouseMoveOn: bool
    var mouseUpOn: bool
    /** The delegate, the recognizer and the detail have been dropped. */
    var unloaded: bool
    /** Every call made on the delegate, the recognizer and the callbacks so far. */
    ghost var calls: seq<Call>

    /** The fields, as a GestureState value. */
    function Model(): GestureState
      reads this
    {
      GestureState(detail, lastTouch, Listeners(touchMoveOn, touchEndOn, mouseMoveOn, mouseUpOn), unloaded)
    }

    /** A fresh component: empty detail, no touch seen, move/end listeners off. */
    constructor ()
      ensures Model() == Initial && calls == []
    {
      detail := EmptyDetail;
      lastTouch := 0;
      touchMoveOn, touchEndOn, mouseMoveOn, mouseUpOn := false, false, false, false;
      unloaded := false;
      calls := [];
    }

    // DOWN

    method OnTouchStart(ev: PointerEvent, a: Answers)
      requires !unloaded
      modifies this
      ensures Model() == GestureSpec.OnTouchStart(old(Model()), ev, a).s
      ensures calls == old(calls) + GestureSpec.OnTouchStart(old(Model()), ev, a).calls
    {
      var t := Now(ev, a.dateNow);
      lastTouch := t;
      detail := detail.(timeStamp := t);
      EnableMouse(false);
      EnableTouch(true);
      var _ := PointerDown(ev, a);
    }

    method OnMouseDown(ev: PointerEvent, a: Answers)
      requires !unloaded
      modifies this
      ensures Model() == GestureSpec.OnMouseDown(old(Model()), ev, a).s
      ensures calls == old(calls) + GestureSpec.OnMouseDown(old(Model()), ev, a).calls
    {
      var t := Now(ev, a.dateNow);
      if lastTouch == 0 || lastTouch + MouseWait < t {
        detail := detail.(timeStamp := t);
        EnableMouse(true);
        EnableTouch(false);
        var _ := PointerDown(ev, a);
      }
    }

    method PointerDown(ev: PointerEvent, a: Answers) returns (ok: bool)
      modifies this
      ensures var r := GestureSpec.PointerDown(old(Model()), ev, a);
        Model() == r.s && calls == old(calls) + r.calls && ok == r.ok
    {
      if unloaded || detail.started {
        return false;
      }
      detail := detail.(startX := ev.x, currentX := ev.x);
      detail := detail.(startY := ev.y, currentY := ev.y);
      detail := detail.(event := Some(ev));

      calls := calls + [Invoke(CanStartHook, detail)];
      if a.canStartVetoed {
        return false;
      }

      // release fallback
      calls := calls + [Release];

      calls := calls + [Start];
      if !a.startOk {
        return false;
      }

      detail := detail.(started := true, captured := false);
      calls := calls + [RecognizerStart(detail.startX, detail.startY)];
      return true;
    }

    // MOVE

    method OnTouchMove(ev: PointerEvent, a: Answers)
      requires !unloaded
      modifies this
      ensures Model() == GestureSpec.OnTouchMove(old(Model()), ev, a).s
      ensures calls == old(calls) + GestureSpec.OnTouchMove(old(Model()), ev, a).calls
    {
      var t := Now(ev, a.dateNow);
      lastTouch := t;
      detail := detail.(timeStamp := t);
      PointerMove(ev, a);
    }

    /** The mousemove handler (the source names it onMoveMove). */
    method OnMoveMove(ev: PointerEvent, a: Answers)
      requires !unloaded
      modifies this
      ensures Model() == GestureSpec.OnMoveMove(old(Model()), ev, a).s
      ensures calls == old(calls) + GestureSpec.OnMoveMove(old(Model()), ev, a).calls
    {
      var t := Now(ev, a.dateNow);
      if lastTouch + MouseWait < t {
        detail := detail.(timeStamp := t);
        PointerMove(ev, a);
      }
    }

    method PointerMove(ev: PointerEvent, a: Answers)
      requires !unloaded
      modifies this
      ensures Model() == GestureSpec.PointerMove(old(Model()), ev, a).s
      ensures calls == old(calls) + GestureSpec.PointerMove(old(Model()), ev, a).calls
    {
      detail := detail.(currentX := ev.x, currentY := ev.y, event := Some(ev));

      if detail.captured {
        calls := calls + [Invoke(OnMoveHook, detail)];
      } else {
        calls := calls + [Detect(ev.x, ev.y, a.detected)];
        if a.detected {
          calls := calls + [IsGesture(a.verdict)];
          if a.verdict != 0 {
            var captured := TryToCapture(ev, a);
            if !captured {
              AbortGesture();
            }
          }
        }
      }
    }

    method TryToCapture(ev: PointerEvent, a: Answers) returns (ok: bool)
      requires !unloaded
      modifies this
      ensures var r := GestureSpec.TryToCapture(old(Model()), ev, a);
        Model() == r.s && calls == old(calls) + r.calls && ok == r.ok
    {
      calls := calls + [Capture];
      if !a.captureOk {
        return false;
      }
      detail := detail.(event := Some(ev));
      calls := calls + [Invoke(OnStartHook, detail)];
      detail := detail.(captured := true);
      return true;
    }

    method AbortGesture()
      requires !unloaded
      modifies this
      ensures Model() == GestureSpec.AbortGesture(old(Model())).s
      ensures calls == old(calls) + GestureSpec.AbortGesture(old(Model())).calls
    {
      detail := detail.(started := false, captured := false);
      calls := calls + [Release];
      Enable(false);
      calls := calls + [Invoke(NotCapturedHook, detail)];
    }

    // END

    method OnTouchEnd(ev: PointerEvent, a: Answers)
      requires !unloaded
      modifies this
      ensures Model() == GestureSpec.OnTouchEnd(old(Model()), ev, a).s
      ensures calls == old(calls) + GestureSpec.OnTouchEnd(old(Model()), ev, a).calls
    {
      var t := Now(ev, a.dateNow);
      lastTouch := t;
      detail := detail.(timeStamp := t);
      PointerUp(ev);
      EnableTouch(false);
    }

    method OnMouseUp(ev: PointerEvent, a: Answers)
      requires !unloaded
      modifies this
      ensures Model() == GestureSpec.OnMouseUp(old(Model()), ev, a).s
      ensures calls == old(calls) + GestureSpec.OnMouseUp(old(Model()), ev, a).calls
    {
      var t := Now(ev, a.dateNow);
      if lastTouch + MouseWait < t {
        detail := detail.(timeStamp := t);
        PointerUp(ev);
        EnableMouse(false);
      }
    }

    method PointerUp(ev: PointerEvent)
      requires !unloaded
      modifies this
      ensures Model() == GestureSpec.PointerUp(old(Model()), ev).s
      ensures calls == old(calls) + GestureSpec.PointerUp(old(Model()), ev).calls
    {
      calls := calls + [Release];
      detail := detail.(event := Some(ev));
      if detail.captured {
        calls := calls + [Invoke(OnEndHook, detail)];
      } else {
        calls := calls + [Invoke(NotCapturedHook, detail)];
      }
      detail := detail.(captured := false);
      detail := detail.(started := false);
    }

    // ENABLE LISTENERS

    method EnableMouse(on: bool)
      modifies this
      ensures Model() == old(Model()).(listeners := GestureSpec.EnableMouse(old(Model()).listeners, on))
      ensures calls == old(calls)
    {
      mouseMoveOn := on;
      mouseUpOn := on;
    }

    method EnableTouch(on: bool)
      modifies this
      ensures Model() == old(Model()).(listeners := GestureSpec.EnableTouch(old(Model()).listeners, on))
      ensures calls == old(calls)
    {
      touchMoveOn := on;
      touchEndOn := on;
    }

    method Enable(on: bool)
      modifies this
      ensures Model() == old(Model()).(listeners := GestureSpec.Enable(old(Model()).listeners, on))
      ensures calls == old(calls)
    {
      EnableMouse(on);
      EnableTouch(on);
    }

    // UNLOAD

    method IonViewWillUnload()
      modifies this
      ensures Model() == GestureSpec.IonViewWillUnload(old(Model())).s
      ensures calls == old(calls) + GestureSpec.IonViewWillUnload(old(Model())).calls
    {
      if !unloaded {
        calls := calls + [Destroy];
      }
      unloaded := true;
    }
  }
}
