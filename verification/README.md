# Security camera: detection and alert logic

A Dafny model of the decision logic of the security camera's capture view
(`VideoCaptureView` in `security_camera.py`). The camera shows a live
webcam feed. Pressing SPACE registers the shown frame as the background.
On every timer tick the view reads a frame. If a background is registered,
it runs background subtraction and tests whether more than 10% of the
pixels are foreground. A positive test alerts only when more than ten
seconds have passed since the last alert.

The model is a pure state machine:

- `coverage.dfy`, module `Coverage`: the foreground mask and the coverage
  test. A mask is a rectangular `seq<seq<int>>` with entries in `0..255`.
  The floating-point test `sum(mask / 255) > h * w * 0.1` is stated exactly
  over integers as `10 * sum(mask) > 255 * h * w`. It is proved equal to the
  exact real-valued reading of the source expression, which divides each
  entry by 255 first.
- `throttle.dfy`, module `Throttle`: the cooldown gate. Timestamps are
  integer microseconds since `datetime.min`, which is Python `datetime`
  resolution. The starting value `datetime(2000, 1, 1)` is 730119 days after
  that origin. The cooldown is 10 000 000 microseconds.
- `controller.dfy`, module `Controller`: the view state
  (`View`: shown frame, optional background, last-alert time), `Tick` for
  the timer callback, `KeyPress` for the key handler, and `Run` for a
  sequence of events. Frames are a type parameter. Two image operations
  come from foreign code and are supplied as the fields of `Vision`:
  - the mask that a fresh background subtractor yields after seeing the
    background and then the current frame;
  - the BGR-to-RGB conversion done for display.

The wall clock is a parameter of each tick. A failed camera read is the
`Halted` outcome, which ends a run.

One quirk is modelled as written. After detection the tick replaces the
view's frame with its RGB conversion (security_camera.py:86). SPACE stores
that converted frame as the background (security_camera.py:151). Later
ticks compare it with freshly captured BGR frames.
`SpaceRegistersShownFrame` states this. For the same reason the model does
not claim that a background identical to the capture yields an empty mask.

Three details of the code that the model keeps as written:

- The first alert is gated against the `datetime(2000, 1, 1)` sentinel
  (security_camera.py:50-51). A clock that reads earlier than
  2000-01-01 00:00:10 therefore never alerts.
- The gap test at security_camera.py:79 is strict, so two consecutive alerts
  are always more than ten seconds apart.
- `send_alert` (security_camera.py:80) is not wrapped in a `try`. Alert
  delivery is outside the model.

## Model

| member | source | states |
|---|---|---|
| `Coverage.RowSum` | security_camera.py:116 | the sum of a row of 8-bit mask entries lies between 0 and 255 times the row length |
| `Coverage.NormSumScales` | security_camera.py:111-116 | dividing every mask entry by 255 and then summing equals the raw sum divided by 255 |
| `Coverage.Sum` | security_camera.py:116 | `fgmask.sum()`: for 8-bit entries the sum lies between 0 and 255 times the number of entries |
| `Coverage.Detects` | security_camera.py:111-119 | the integer test `10 * sum > 255 * h * w` holds exactly when the normalised mask sum is strictly greater than `h * w * 0.1` (both directions) |
| `Coverage.CellsOfRectangular` | security_camera.py:112 | for a rectangular mask, the count of entries taken row by row equals `height * width` |
| `Coverage.SumBounds` | security_camera.py:108-116 | the raw sum of a mask is between 0 and 255 per pixel |
| `Coverage.AllZeroNeverDetects` | security_camera.py:111-119 | a mask with no foreground pixel never counts as motion |
| `Coverage.AllForegroundDetects` | security_camera.py:111-119 | a mask that is foreground at every pixel, with at least one pixel, counts as motion |
| `Coverage.SumMonotone` | security_camera.py:116 | raising mask entries, keeping the shape, never lowers the sum |
| `Coverage.DetectsMonotone` | security_camera.py:111-119 | if a mask counts as motion, every same-shaped mask that is at least as large everywhere does too |
| `Coverage.RaiseEntryKeepsDetection` | security_camera.py:111-119 | raising any one entry of a detecting mask, up to 255, keeps it a valid mask that detects |
| `Coverage.SumOfBinary` | security_camera.py:111-116 | on a 0/255 mask the raw sum is 255 times the number of foreground pixels |
| `Coverage.BinaryDetectsIff` | security_camera.py:114-119 | a 0/255 mask detects exactly when strictly more than 10% of its pixels are foreground; exactly 10% does not detect |
| `Throttle.Gate` | security_camera.py:79-81 | an alert moves the last-alert time to `now`, which is more than 10 s after the previous one; no alert means the gap is at most 10 s and the time is unchanged |
| `Throttle.GateBoundary` | security_camera.py:52 | a gap of exactly 10 s does not alert; 10 s plus one microsecond does |
| `Throttle.GateMonotone` | security_camera.py:79 | if the gate alerts at some time, it alerts at every later time with the same last-alert time |
| `Throttle.GateClosesAfterAlert` | security_camera.py:79-81 | after an alert, no further alert comes within the next 10 s, including at the same instant |
| `Throttle.FirstGateAfter2000Fires` | security_camera.py:50-52 | starting from 2000-01-01, any time more than 10 s later alerts and becomes the new last-alert time |
| `Controller.Initial` | security_camera.py:46-52 | the state the constructor sets up, before its own first tick: no background, no frame, and a last-alert time of 2000-01-01 |
| `Controller.Tick` | security_camera.py:67-86 | a failed read halts. Otherwise the background is kept and the shown frame becomes the converted capture. An alert requires a background, a detecting mask and a gap over 10 s; it carries `now` and the captured frame, and `now` becomes the last-alert time. Without an alert the last-alert time is unchanged |
| `Controller.KeyPress` | security_camera.py:149-152 | SPACE sets the background to the shown frame and replaces any earlier one. Any other key changes nothing. The shown frame and last-alert time are never changed |
| `Controller.UnarmedTickOnlyShows` | security_camera.py:74-81 | without a background, a successful tick only updates the shown frame. The mask is not consulted, the clock is not used, and no alert is raised |
| `Controller.TickAlertsWhenDue` | security_camera.py:74-81 | with a background, a detecting mask and a gap of more than 10 s, the tick alerts with `now` and the captured frame |
| `Controller.FailedReadHalts` | security_camera.py:68-72 | a failed read halts the tick without an alert |
| `Controller.SpaceRegistersShownFrame` | security_camera.py:149-151 | SPACE after a tick registers the RGB-converted frame of that tick, not the captured one |
| `Controller.StepsPreserveConsistent` | security_camera.py:143-154 | ticks and key presses keep "an armed view has already shown a frame". Once a frame is shown, SPACE arms the view, and no step disarms an armed view |
| `Controller.Run` | security_camera.py:63-72 | the timer-driven loop over ticks and key presses: it halts exactly when some camera read fails, and emits at most one alert per event |
| `Controller.RunProvenance` | security_camera.py:149-151 | over any run, the shown frame is the starting one or the conversion of a captured frame; the background is the starting background, the starting shown frame, or the conversion of a captured frame |
| `Controller.BackgroundFromCapture` | security_camera.py:149-151 | from start-up, a registered background is always the display conversion of a frame captured during the run |
| `Controller.RunAlertsSpaced` | security_camera.py:79-81 | over any event sequence and any clock readings: the first alert is more than 10 s after the starting last-alert time; each later alert is more than 10 s after the one before; the final last-alert time is the time of the last alert |
| `Controller.SpacedPairwise` | security_camera.py:79-81 | in a list with that spacing, every later alert is more than 10 s after every earlier one |
| `Controller.RunAlertsPairwiseApart` | security_camera.py:75-81 | any two alerts of a run are in time order and more than 10 s apart |
| `Controller.UnarmedRunIsSilent` | security_camera.py:74-81 | from a state without a background, a run with no SPACE press emits no alert, keeps the last-alert time and stays unarmed |
| `Controller.RunAppend` | security_camera.py:63-72 | running two event sequences back to back equals running the first and then, unless it halted, the second from where the first stopped |
| `Controller.FirstDetectionAlerts` | security_camera.py:50-81 | after any run from start-up with no alert yet, the first detecting tick of an armed view more than 10 s after 2000-01-01 alerts at once |
| `Controller.RegisterThenTwoDetections` | security_camera.py:67-154 | show a frame, press SPACE, then capture two detecting frames less than 10 s apart: exactly one alert, for the first capture |

## Left out

- Background subtraction (`createBackgroundSubtractorMOG` and `apply`, security_camera.py:107-109) is foreign statistical code. It is the abstract function `Vision.subtract`, and each call is a function of the two frames only. Its only assumed property is that it returns a well-formed 8-bit mask.
- Floating point: the source divides by 255 and multiplies by 0.1 in doubles. The model uses exact integer and rational arithmetic, so float rounding in the sum and the threshold is not modelled.
- The BGR-to-RGB conversion (`cvtColor`) is the abstract function `Vision.toRgb`. QImage, pixmap and scene handling, the main window, and the 33 ms timer cadence are display plumbing and are left out. A run is any sequence of ticks and key presses.
- `send_alert` (JPEG encoding, the Slack upload, `strftime` for the message) is foreign code and network I/O. An alert is the event `Alert(at, image)`. A failed JPEG encoding, which silently sends nothing, and errors raised by the upload are not modelled.
- Console `print` calls and the `sys.exit` exit status are not modelled. A failed read is the `Halted` outcome.
- `settings.py` only reads two environment variables and holds no logic.
- Timestamps are unbounded integers. The `datetime` range limit (years 1 to 9999) is not modelled, because only differences between readings are compared.
- Identical frames giving an empty mask is not stated, because the subtractor is abstract and the background is stored RGB-converted.
