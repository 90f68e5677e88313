/**
 The capture view of the security camera as a pure state machine.

 The view holds the last displayed frame, an optional registered background
 and the time of the last alert. A timer tick reads a frame, runs the
 coverage test against the background when one is registered, passes a
 positive result through the cooldown gate, and converts the captured frame
 for display. A SPACE key press registers the displayed frame as the
 background.

 Frames are an abstract type `F`. The two foreign image operations are
 fields of `Vision`: `subtract`, the foreground mask a fresh background
 subtractor yields after seeing the background and then the current frame,
 and `toRgb`, the BGR-to-RGB conversion done for display.
 */
module Controller {
  import opened Coverage
  import opened Throttle

  datatype Option<T> = None | Some(value: T)

  /** Qt's key code for the space bar (`Qt.Key_Space`). */
  const KeySpace: int := 0x20

  /** The foreign image operations the view depends on. */
  datatype Vision<!F> = Vision(subtract: (F, F) -> Mask, toRgb: F -> F)

  /**
   The decision state of the view: the frame last shown (already converted
   to RGB), the registered background, and the time of the last alert.
   */
  datatype View<F> = View(frame: Option<F>, background: Option<F>, lastAlert: int)

  /** An alert handed to the notifier: its time and the captured frame. */
  datatype Alert<F> = Alert(at: int, image: F)

  /** A tick either ends the program (failed read) or yields a new state and maybe an alert. */
  datatype Outcome<F> = Halted | Running(next: View<F>, alert: Option<Alert<F>>)

  /**
   The state the constructor sets up (security_camera.py:46-52), before the
   constructor's own first tick.
   */
  function Initial<F>(): (s: View<F>)
    ensures s.background.None? && s.frame.None?
    ensures s.lastAlert == Start2000
  {
    View(None, None, Start2000)
  }

  /** A background is registered, so detection runs on every tick. */
  predicate Armed<F>(s: View<F>)
  {
    s.background.Some?
  }

  /** An armed view has already shown a frame. */
  predicate Consistent<F>(s: View<F>)
  {
    Armed(s) ==> s.frame.Some?
  }

  /**
   One timer tick. `capture` is the result of reading the camera (`None`
   when the read fails); `now` is the clock reading, which the source takes
   only after a positive detection.
   */
  function Tick<F>(v: Vision<F>, s: View<F>, capture: Option<F>, now: int): (o: Outcome<F>)
    ensures o.Halted? <==> capture.None?
    ensures o.Running? ==> o.next.background == s.background
    ensures o.Running? ==> o.next.frame == Some(v.toRgb(capture.value))
    ensures o.Running? && o.alert.Some? ==>
              && Armed(s)
              && Detects(v.subtract(s.background.value, capture.value))
              && now - s.lastAlert > Cooldown
              && o.alert.value == Alert(now, capture.value)
              && o.next.lastAlert == now
    ensures o.Running? && o.alert.None? ==> o.next.lastAlert == s.lastAlert
  {
    match capture
    case None => Halted
    case Some(c) =>
      var shown := Some(v.toRgb(c));
      if s.background.Some? && Detects(v.subtract(s.background.value, c)) then
        var g := Gate(now, s.lastAlert);
        Running(View(shown, s.background, g.last), if g.fire then Some(Alert(now, c)) else None)
      else
        Running(s.(frame := shown), None)
  }

  /** A key press: SPACE registers the shown frame as background; other keys change nothing. */
  function KeyPress<F>(s: View<F>, key: int): (t: View<F>)
    ensures t.frame == s.frame && t.lastAlert == s.lastAlert
    ensures key == KeySpace ==> t.background == s.frame
    ensures key != KeySpace ==> t == s
  {
    if key == KeySpace then s.(background := s.frame) else s
  }

  // ---------------------------------------------------------------------
  // Single-step properties
  // ---------------------------------------------------------------------

  /**
   Without a background a successful tick only updates the shown frame:
   no mask is computed, the clock is not read, nothing is alerted.
   */
  lemma UnarmedTickOnlyShows<F>(v: Vision<F>, s: View<F>, c: F, now: int)
    requires !Armed(s)
    ensures Tick(v, s, Some(c), now) == Running(s.(frame := Some(v.toRgb(c))), None)
  {
  }

  /** The converse of Tick's alert clause: a detection past the cooldown always alerts. */
  lemma TickAlertsWhenDue<F>(v: Vision<F>, s: View<F>, c: F, now: int)
    requires Armed(s)
    requires Detects(v.subtract(s.background.value, c))
    requires now - s.lastAlert > Cooldown
    ensures Tick(v, s, Some(c), now) == Running(View(Some(v.toRgb(c)), s.background, now), Some(Alert(now, c)))
  {
  }

  /** A failed read halts the program; nothing is alerted. */
  lemma FailedReadHalts<F>(v: Vision<F>, s: View<F>, now: int)
    ensures Tick(v, s, None, now) == Halted
  {
  }

  /**
   SPACE right after a tick registers the tick's frame as converted for
   display, not the frame as captured.
   */
  lemma SpaceRegistersShownFrame<F>(v: Vision<F>, s: View<F>, c: F, now: int)
    requires Tick(v, s, Some(c), now).Running?
    ensures KeyPress(Tick(v, s, Some(c), now).next, KeySpace).background == Some(v.toRgb(c))
  {
  }

  /** Both steps keep the view consistent; from then on SPACE always arms it and nothing disarms it. */
  lemma StepsPreserveConsistent<F>(v: Vision<F>, s: View<F>, capture: Option<F>, now: int, key: int)
    requires Consistent(s)
    ensures Consistent(KeyPress(s, key))
    ensures Tick(v, s, capture, now).Running? ==> Consistent(Tick(v, s, capture, now).next)
    ensures Armed(s) ==> Armed(KeyPress(s, key))
    ensures s.frame.Some? ==> Armed(KeyPress(s, KeySpace))
  {
  }

  // ---------------------------------------------------------------------
  // Runs: sequences of ticks and key presses
  // ---------------------------------------------------------------------

  /** An input to the view: a timer tick with its read result and clock reading, or a key press. */
  datatype Event<F> = Capture(read: Option<F>, now: int) | Key(code: int)

  /** The result of a run: the final state, the alerts in order, and whether it halted. */
  datatype Trace<F> = Trace(last: View<F>, alerts: seq<Alert<F>>, halted: bool)

  function AlertList<F>(a: Option<Alert<F>>): seq<Alert<F>>
  {
    if a.Some? then [a.value] else []
  }

  /** A timer tick whose camera read failed. */
  predicate FailedRead<F>(e: Event<F>)
  {
    e.Capture? && e.read.None?
  }

  /**
   Feed the events to the view in order, stopping at the first failed read.
   A run halts exactly when some read fails, and emits at most one alert
   per event.
   */
  function Run<F>(v: Vision<F>, s: View<F>, evs: seq<Event<F>>): (t: Trace<F>)
    ensures t.halted <==> exists k :: 0 <= k < |evs| && FailedRead(evs[k])
    ensures |t.alerts| <= |evs|
    decreases |evs|
  {
    if |evs| == 0 then Trace(s, [], false)
    else
      assert forall k :: 0 <= k < |evs| - 1 ==> evs[1..][k] == evs[k + 1];
      match evs[0]
      case Key(k) => Run(v, KeyPress(s, k), evs[1..])
      case Capture(read, now) =>
        match Tick(v, s, read, now)
        case Halted => Trace(s, [], true)
        case Running(next, a) =>
          var t := Run(v, next, evs[1..]);
          Trace(t.last, AlertList(a) + t.alerts, t.halted)
  }

  /** The last-alert time after a list of alerts, starting from `last`. */
  function LastAlertAfter<F>(last: int, alerts: seq<Alert<F>>): int
  {
    if |alerts| == 0 then last else alerts[|alerts| - 1].at
  }

  /** Each alert comes strictly more than the cooldown after the one before it (or after `last`). */
  predicate Spaced<F>(last: int, alerts: seq<Alert<F>>)
  {
    && (|alerts| > 0 ==> alerts[0].at - last > Cooldown)
    && (forall k :: 0 < k < |alerts| ==> alerts[k].at - alerts[k - 1].at > Cooldown)
  }

  lemma {:induction false} SpacedCons<F>(last: int, a: Alert<F>, rest: seq<Alert<F>>)
    requires a.at - last > Cooldown
    requires Spaced(a.at, rest)
    ensures Spaced(last, [a] + rest)
    ensures LastAlertAfter(last, [a] + rest) == LastAlertAfter(a.at, rest)
  {
    var all := [a] + rest;
    forall k | 0 < k < |all|
      ensures all[k].at - all[k - 1].at > Cooldown
    {
      assert all[k] == rest[k - 1];
      if k > 1 {
        assert all[k - 1] == rest[k - 2];
      }
    }
  }

  /**
   The cooldown invariant over any run: consecutive alerts, and the first
   alert and the starting last-alert time, are strictly more than the
   cooldown apart, and the final last-alert time is the last alert's time.
   No assumption on the clock is needed.
   */
  lemma {:induction false} RunAlertsSpaced<F>(v: Vision<F>, s: View<F>, evs: seq<Event<F>>)
    ensures Spaced(s.lastAlert, Run(v, s, evs).alerts)
    ensures Run(v, s, evs).last.lastAlert == LastAlertAfter(s.lastAlert, Run(v, s, evs).alerts)
    decreases |evs|
  {
    if |evs| > 0 {
      match evs[0]
      case Key(k) =>
        RunAlertsSpaced(v, KeyPress(s, k), evs[1..]);
      case Capture(read, now) =>
        match Tick(v, s, read, now)
        case Halted =>
        case Running(next, a) =>
          RunAlertsSpaced(v, next, evs[1..]);
          var t := Run(v, next, evs[1..]);
          if a.Some? {
            SpacedCons(s.lastAlert, a.value, t.alerts);
          } else {
            assert AlertList(a) + t.alerts == t.alerts;
          }
    }
  }

  /** In a spaced list every later alert is more than the cooldown after every earlier one. */
  lemma {:induction false} SpacedPairwise<F>(last: int, alerts: seq<Alert<F>>, i: int, j: int)
    requires Spaced(last, alerts)
    requires 0 <= i < j < |alerts|
    ensures alerts[j].at - alerts[i].at > Cooldown
    ensures alerts[i].at - last > Cooldown
    decreases j
  {
    if i + 1 < j {
      SpacedPairwise(last, alerts, i, j - 1);
    }
    if i > 0 {
      SpacedPairwise(last, alerts, i - 1, i);
    }
  }

  /** Any two alerts of a run are strictly more than ten seconds apart, in order. */
  lemma RunAlertsPairwiseApart<F>(v: Vision<F>, s: View<F>, evs: seq<Event<F>>, i: int, j: int)
    requires 0 <= i < j < |Run(v, s, evs).alerts|
    ensures Run(v, s, evs).alerts[j].at - Run(v, s, evs).alerts[i].at > Cooldown
  {
    RunAlertsSpaced(v, s, evs);
    SpacedPairwise(s.lastAlert, Run(v, s, evs).alerts, i, j);
  }

  /** The events contain no SPACE key press. */
  predicate NoSpace<F>(evs: seq<Event<F>>)
  {
    forall k :: 0 <= k < |evs| ==> !(evs[k].Key? && evs[k].code == KeySpace)
  }

  /**
   Until SPACE is pressed nothing is detected: a run from an unarmed state
   with no SPACE press emits no alert, keeps the last-alert time and stays
   unarmed.
   */
  lemma {:induction false} UnarmedRunIsSilent<F>(v: Vision<F>, s: View<F>, evs: seq<Event<F>>)
    requires !Armed(s)
    requires NoSpace(evs)
    ensures Run(v, s, evs).alerts == []
    ensures Run(v, s, evs).last.lastAlert == s.lastAlert
    ensures !Armed(Run(v, s, evs).last)
    decreases |evs|
  {
    if |evs| > 0 {
      assert NoSpace(evs[1..]) by {
        assert forall k :: 0 <= k < |evs| - 1 ==> evs[1..][k] == evs[k + 1];
      }
      match evs[0]
      case Key(k) =>
        UnarmedRunIsSilent(v, KeyPress(s, k), evs[1..]);
      case Capture(read, now) =>
        match Tick(v, s, read, now)
        case Halted =>
        case Running(next, a) =>
          UnarmedRunIsSilent(v, next, evs[1..]);
    }
  }

  /**
   Runs compose: running `a + b` is running `a` and then, unless it halted,
   running `b` from where `a` stopped.
   */
  lemma {:induction false} RunAppend<F>(v: Vision<F>, s: View<F>, a: seq<Event<F>>, b: seq<Event<F>>)
    ensures var ta := Run(v, s, a);
            var tb := Run(v, ta.last, b);
            Run(v, s, a + b) == if ta.halted then ta else Trace(tb.last, ta.alerts + tb.alerts, tb.halted)
    decreases |a|
  {
    if |a| == 0 {
      assert a + b == b;
    } else {
      assert (a + b)[0] == a[0];
      assert (a + b)[1..] == a[1..] + b;
      match a[0]
      case Key(k) =>
        RunAppend(v, KeyPress(s, k), a[1..], b);
      case Capture(read, now) =>
        match Tick(v, s, read, now)
        case Halted =>
        case Running(next, x) =>
          RunAppend(v, next, a[1..], b);
          var ta' := Run(v, next, a[1..]);
          var tb := Run(v, ta'.last, b);
          assert AlertList(x) + (ta'.alerts + tb.alerts) == (AlertList(x) + ta'.alerts) + tb.alerts;
    }
  }

  /**
   The first positive detection more than ten seconds after 2000-01-01
   alerts at once: after any run from the initial state that has not
   alerted yet, an armed tick whose mask passes the coverage test alerts.
   */
  lemma FirstDetectionAlerts<F>(v: Vision<F>, evs: seq<Event<F>>, c: F, now: int)
    requires Run(v, Initial(), evs).alerts == []
    requires Armed(Run(v, Initial(), evs).last)
    requires Detects(v.subtract(Run(v, Initial(), evs).last.background.value, c))
    requires now > Start2000 + Cooldown
    ensures Tick(v, Run(v, Initial(), evs).last, Some(c), now).Running?
    ensures Tick(v, Run(v, Initial(), evs).last, Some(c), now).alert == Some(Alert(now, c))
  {
    RunAlertsSpaced(v, Initial(), evs);
  }

  /**
   The end-to-end scenario: show frame `b`, press SPACE, then two captures
   whose masks pass the coverage test, less than the cooldown apart.
   Exactly one alert is emitted, for the first capture.
   */
  lemma RegisterThenTwoDetections<F>(v: Vision<F>, b: F, c1: F, c2: F, t0: int, t1: int, t2: int)
    requires Detects(v.subtract(v.toRgb(b), c1))
    requires Detects(v.subtract(v.toRgb(b), c2))
    requires t1 > Start2000 + Cooldown
    requires t2 - t1 <= Cooldown
    ensures Run(v, Initial(), [Capture(Some(b), t0), Key(KeySpace), Capture(Some(c1), t1), Capture(Some(c2), t2)]).alerts
            == [Alert(t1, c1)]
  {
    var evs := [Capture(Some(b), t0), Key(KeySpace), Capture(Some(c1), t1), Capture(Some(c2), t2)];
    var s0: View<F> := Initial();
    var s1 := View(Some(v.toRgb(b)), None, Start2000);
    assert Tick(v, s0, Some(b), t0) == Running(s1, None);
    var s2 := KeyPress(s1, KeySpace);
    assert s2.background == Some(v.toRgb(b));
    var s3 := View(Some(v.toRgb(c1)), s2.background, t1);
    assert Tick(v, s2, Some(c1), t1) == Running(s3, Some(Alert(t1, c1)));
    var s4 := View(Some(v.toRgb(c2)), s2.background, t1);
    assert Tick(v, s3, Some(c2), t2) == Running(s4, None);
    var e3 := [Capture(Some(c2), t2)];
    var e2 := [Capture(Some(c1), t1)] + e3;
    var e1 := [Key(KeySpace)] + e2;
    assert evs == [Capture(Some(b), t0)] + e1;
    assert e3[1..] == [];
    assert Run(v, s3, e3) == Trace(s4, [], false);
    assert e2[1..] == e3;
    assert Run(v, s2, e2) == Trace(s4, [Alert(t1, c1)], false);
    assert e1[1..] == e2;
    assert Run(v, s1, e1) == Run(v, s2, e2);
    assert evs[1..] == e1;
  }

  // ---------------------------------------------------------------------
  // Where the background comes from
  // ---------------------------------------------------------------------

  /** `f` is the display conversion of a frame successfully captured in `evs`. */
  ghost predicate ShownFrom<F>(v: Vision<F>, evs: seq<Event<F>>, f: Option<F>)
  {
    exists k :: 0 <= k < |evs| && evs[k].Capture? && evs[k].read.Some? && f == Some(v.toRgb(evs[k].read.value))
  }

  lemma ShownFromTail<F>(v: Vision<F>, evs: seq<Event<F>>, f: Option<F>)
    requires |evs| > 0
    requires ShownFrom(v, evs[1..], f)
    ensures ShownFrom(v, evs, f)
  {
    var k :| 0 <= k < |evs| - 1 && evs[1..][k].Capture? && evs[1..][k].read.Some?
             && f == Some(v.toRgb(evs[1..][k].read.value));
    assert evs[1..][k] == evs[k + 1];
  }

  /**
   Over any run, the shown frame is the starting one or the conversion of a
   captured frame, and the background is the starting background, the
   starting shown frame, or the conversion of a captured frame.
   */
  lemma {:induction false} RunProvenance<F>(v: Vision<F>, s: View<F>, evs: seq<Event<F>>)
    ensures Run(v, s, evs).last.frame == s.frame || ShownFrom(v, evs, Run(v, s, evs).last.frame)
    ensures || Run(v, s, evs).last.background == s.background
            || Run(v, s, evs).last.background == s.frame
            || ShownFrom(v, evs, Run(v, s, evs).last.background)
    decreases |evs|
  {
    if |evs| > 0 {
      var t := Run(v, s, evs);
      match evs[0]
      case Key(k) =>
        RunProvenance(v, KeyPress(s, k), evs[1..]);
        if ShownFrom(v, evs[1..], t.last.frame) {
          ShownFromTail(v, evs, t.last.frame);
        }
        if ShownFrom(v, evs[1..], t.last.background) {
          ShownFromTail(v, evs, t.last.background);
        }
      case Capture(read, now) =>
        match Tick(v, s, read, now)
        case Halted =>
        case Running(next, a) =>
          RunProvenance(v, next, evs[1..]);
          assert ShownFrom(v, evs, next.frame) by {
            assert evs[0].Capture? && evs[0].read.Some? && next.frame == Some(v.toRgb(evs[0].read.value));
          }
          if ShownFrom(v, evs[1..], t.last.frame) {
            ShownFromTail(v, evs, t.last.frame);
          }
          if ShownFrom(v, evs[1..], t.last.background) {
            ShownFromTail(v, evs, t.last.background);
          }
    }
  }

  /**
   From start-up, a registered background is always the display conversion
   of a frame the camera captured during the run.
   */
  lemma BackgroundFromCapture<F>(v: Vision<F>, evs: seq<Event<F>>)
    requires Armed(Run(v, Initial(), evs).last)
    ensures ShownFrom(v, evs, Run(v, Initial(), evs).last.background)
  {
    RunProvenance(v, Initial(), evs);
  }
}
