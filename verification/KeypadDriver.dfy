/** The static state of exword-keypad.c and the functions that update it, step by step. */
module KeypadDriver {
  import opened Keypad

  class Driver {
    const cal: Calibration
    var held: set<int>
    var pressed: set<int>
    var enterSeen: bool
    var taps: nat
    var mouse: bool
    var repeats: nat
    var sources: seq<Sources>
    var log: seq<Event>
    var touch: Touch

    function View(): Pad
      reads this
    {
      Pad(held, pressed, enterSeen, taps, mouse, repeats, sources, log, touch)
    }

    ghost predicate Valid()
      reads this
    {
      cal.Sane() && Inv(View())
    }

    /** The state exword_prime_scanner leaves. */
    constructor (calibration: Calibration, primed: set<int>, available: bool)
      requires calibration.Sane()
      ensures Valid() && View() == Primed(primed, available)
    {
      cal := calibration;
      var p := Primed(primed, available);
      held, pressed, enterSeen, taps, mouse, repeats := p.held, p.pressed, p.enterSeen, p.taps, p.mouse, p.repeats;
      sources, log, touch := p.sources, p.log, p.touch;
    }

    /** exword_set_pointer_button; tells whether the button changed. */
    method SetPointerButton(button: int, byTouch: bool, down: bool) returns (changed: bool)
      requires |sources| == 3 && button < 3
      modifies `sources, `log
      ensures button < 0 ==> !changed && unchanged(this)
      ensures button >= 0 ==> View() == SetButton(old(View()), button, byTouch, down) && (changed <==> log != old(log))
    {
      if button < 0 {
        return false;
      }
      var previous := sources[button];
      sources := sources[button := if byTouch then previous.(touch := down) else previous.(keypad := down)];
      if previous.On() == sources[button].On() {
        return false;
      }
      log := log + [Button(button, sources[button].On())];
      return true;
    }

    /** exword_toggle_mouse_mode. */
    method ToggleMouseMode()
      requires |sources| == 3
      modifies `mouse, `repeats, `pressed, `sources, `log
      ensures View() == ToggleMouse(old(View()))
    {
      mouse := !mouse;
      repeats := 0;
      if mouse {
        pressed := pressed - ACTIONS;
      } else {
        var _ := SetPointerButton(0, false, false);
        var _ := SetPointerButton(1, false, false);
        var _ := SetPointerButton(2, false, false);
      }
    }

    /** The loop body of exword_scan_once; tells whether a direction key went down in mouse mode. */
    method ScanKey(scan: int, down: bool) returns (edge: bool)
      requires |sources| == 3
      modifies `held, `pressed, `enterSeen, `taps, `mouse, `repeats, `sources, `log
      ensures View() == KeyStep(old(View()), scan, down)
      ensures edge <==>
              down && scan !in old(held) && old(mouse) && (scan == UP || scan == DOWN || scan == LEFT || scan == RIGHT)
    {
      edge := false;
      if down == (scan in held) {
        return;
      }
      held := if down then held + {scan} else held - {scan};
      if scan == TOGGLE {
        if down {
          ToggleMouseMode();
        }
        return;
      }
      if mouse && scan in ACTIONS {
        if ButtonOf(scan) >= 0 {
          var _ := SetPointerButton(ButtonOf(scan), false, down);
        } else if down {
          edge := true;
        }
        return;
      }
      if scan == ENTER {
        if down || !enterSeen {
          taps := taps + 1;
        }
        pressed := pressed - {ENTER};
        enterSeen := down;
        return;
      }
      pressed := if down then pressed + {scan} else pressed - {scan};
    }

    /** The key loop of exword_scan_once. */
    method ScanKeys(sample: set<int>) returns (edge: bool)
      requires |sources| == 3
      modifies `held, `pressed, `enterSeen, `taps, `mouse, `repeats, `sources, `log
      ensures View() == KeySteps(old(View()), KEYS, sample) && edge == DirectionEdge(old(View()), KEYS, sample)
    {
      hide KeyStep, KEYS;
      edge := false;
      for i := 0 to |KEYS|
        invariant |sources| == 3
        invariant KeySteps(old(View()), KEYS, sample) == KeySteps(View(), KEYS[i..], sample)
        invariant DirectionEdge(old(View()), KEYS, sample) == (edge || DirectionEdge(View(), KEYS[i..], sample))
      {
        ghost var p := View();
        KeyStepHeld(p, KEYS[i], KEYS[i] in sample);
        assert KEYS[i..][0] == KEYS[i] && KEYS[i..][1..] == KEYS[i + 1..];
        var e := ScanKey(KEYS[i], KEYS[i] in sample);
        edge := edge || e;
      }
    }

    method ReportMotion(dx: int, dy: int)
      modifies `log
      ensures View() == Motion(old(View()), dx, dy)
    {
      if dx != 0 || dy != 0 {
        log := log + [Move(dx, dy)];
      }
    }

    /** exword_touch_release_active. */
    method TouchReleaseActive()
      requires |sources| == 3
      modifies `sources, `log, `touch
      ensures View() == ReleaseActive(old(View()))
    {
      var _ := SetPointerButton(TouchButton(touch.active), true, false);
      touch := touch.(active := NoZone, repeats := 0);
    }

    /** exword_touch_report_motion. */
    method TouchReportMotion(z: Zone)
      modifies `log
      ensures View() == TouchMotion(old(View()), z)
    {
      var dx, dy := 0, 0;
      match z {
        case ZoneLeft => dx := -TOUCH_MOUSE_STEP;
        case ZoneUp => dy := -TOUCH_MOUSE_STEP;
        case ZoneRight => dx := TOUCH_MOUSE_STEP;
        case ZoneDown => dy := TOUCH_MOUSE_STEP;
        case _ => return;
      }
      ReportMotion(dx, dy);
    }

    /** exword_touch_poll without a valid reading. */
    method TouchLost(r: Reading)
      requires |sources| == 3
      modifies `sources, `log, `touch
      ensures View() == PollLost(old(View()), r)
    {
      if r.TimedOut? {
        touch := touch.(available := false);
      }
      touch := touch.(candidate := NoZone, samples := 0);
      if touch.active != NoZone {
        touch := touch.(release := touch.release + 1);
        if touch.release >= TOUCH_RELEASE_DEBOUNCE {
          touch := touch.(release := 0);
          TouchReleaseActive();
        }
      }
    }

    /** exword_touch_poll with a valid reading while a zone is active. */
    method TouchLatched()
      modifies `log, `touch
      ensures View() == PollLatched(old(View()))
    {
      touch := touch.(release := 0);
      if TouchButton(touch.active) < 0 {
        touch := touch.(repeats := touch.repeats + 1);
        if touch.repeats >= TOUCH_REPEAT_POLLS {
          touch := touch.(repeats := 0);
          TouchReportMotion(touch.active);
        }
      }
    }

    /** exword_touch_poll with a valid reading while no zone is active. */
    method TouchCandidate(zone: Zone, x: int, y: int)
      requires |sources| == 3
      modifies `sources, `log, `touch
      ensures View() == PollFree(old(View()), zone, x, y)
    {
      hide Confirms;
      touch := if Confirms(touch, zone, x, y) then touch.(samples := touch.samples + 1)
               else touch.(candidate := zone, samples := 1);
      touch := touch.(release := 0, candidate := zone, x := x, y := y);
      if touch.samples < TOUCH_DEBOUNCE {
        return;
      }
      touch := touch.(active := zone, candidate := NoZone, samples := 0, repeats := 0);
      if TouchButton(zone) >= 0 {
        var _ := SetPointerButton(TouchButton(zone), true, true);
      } else {
        TouchReportMotion(zone);
      }
    }

    /** exword_touch_poll. */
    method TouchPoll(r: Reading)
      requires |sources| == 3 && cal.Sane()
      modifies `sources, `log, `touch
      ensures View() == Poll(old(View()), r, cal)
    {
      hide PollLost, PollLatched, PollFree;
      if !touch.available || !r.Contact? {
        TouchLost(r);
      } else if touch.active != NoZone {
        TouchLatched();
      } else {
        TouchCandidate(ZoneOf(cal, r.x, r.y), r.x, r.y);
      }
    }

    /** The end of exword_scan_once: every so many scans the enabled pad is polled. */
    method PollWhenDue(r: Reading)
      requires |sources| == 3 && cal.Sane()
      modifies `sources, `log, `touch
      ensures View() == TouchTurn(old(View()), r, cal)
    {
      hide Poll;
      if !touch.enabled {
        touch := touch.(polls := 0);
        return;
      }
      touch := touch.(polls := touch.polls + 1);
      if touch.polls >= TOUCH_POLL_SCANS {
        touch := touch.(polls := 0);
        TouchPoll(r);
      }
    }

    /** The mouse motion of exword_scan_once. */
    method ScanMotion(sample: set<int>, edge: bool)
      modifies `repeats, `log
      ensures View() == MouseMotion(old(View()), sample, edge)
    {
      if !mouse || sample * {UP, DOWN, LEFT, RIGHT} == {} {
        repeats := 0;
        return;
      }
      repeats := repeats + 1;
      if edge || repeats >= MOUSE_REPEAT_SCANS {
        repeats := 0;
        ReportMotion(Axis(sample, LEFT, RIGHT), Axis(sample, UP, DOWN));
      }
    }

    /** exword_scan_once. */
    method ScanOnce(sample: set<int>, r: Reading)
      requires Valid()
      modifies this
      ensures Valid() && View() == Scan(old(View()), sample, r, cal)
    {
      ScanKeeps(View(), sample, r, cal);
      hide KeySteps, DirectionEdge, KEYS, TouchTurn, MouseMotion, PointerInv, KeypadInv, TouchInv;
      KeyStepsKeep(View(), KEYS, sample);
      var edge := ScanKeys(sample);
      MouseMotionKeeps(View(), sample, edge);
      ScanMotion(sample, edge);
      PollWhenDue(r);
    }

    /** exword_service_subpad_mode. */
    method ServiceSubpadMode(requested: int, ready: bool)
      requires Valid()
      modifies `sources, `log, `touch
      ensures Valid() && View() == Service(old(View()), requested, ready)
    {
      ServiceKeeps(View(), requested, ready);
      hide PointerInv, KeypadInv, TouchInv;
      var mode := Mode(requested);
      if mode == touch.applied {
        return;
      }
      if !WantsTouch(mode) && touch.enabled {
        touch := touch.(enabled := false);
        TouchReleaseActive();
        touch := touch.(polls := 0, candidate := NoZone, samples := 0, release := 0, repeats := 0);
      }
      if WantsTouch(mode) {
        if !touch.prepared {
          touch := touch.(prepared := true);
          touch := touch.(enabled := touch.available && ready, available := touch.available && ready);
        } else {
          touch := touch.(enabled := touch.available);
        }
      }
      touch := touch.(applied := mode);
    }
  }
}
