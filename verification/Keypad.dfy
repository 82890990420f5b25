/** The keypad and touch-pad driver of exword-keypad.c as values: two sources share the pointer
    buttons, a mode key turns some keys into mouse keys, and the touch pad debounces and latches.
    A keyboard key is named by its scan code, since every key has a key code of its own. */
module Keypad {
  const TOGGLE: int := 10
  const ZOOM: int := 64
  const BACK: int := 75
  const ENTER: int := 76
  const UP: int := 77
  const DOWN: int := 86
  const LEFT: int := 87
  const RIGHT: int := 88

  const MOUSE_REPEAT_SCANS: nat := 16384
  const MOUSE_STEP: int := 4
  const TOUCH_POLL_SCANS: nat := 4096
  const TOUCH_DEBOUNCE: nat := 2
  const TOUCH_RELEASE_DEBOUNCE: nat := 2
  const TOUCH_REPEAT_POLLS: nat := 3
  const TOUCH_MOUSE_STEP: int := 6
  const TOUCH_JITTER: int := 96

  /** The scan codes of exword_keys, in the order they are examined: first the function and page
      keys, then the mode key, then all others. */
  const KEYS: seq<int> := FRONT + [TOGGLE] + BEHIND
  const FRONT: seq<int> := [21, 31, 41, 51, 61, 22, 71, 81, 83, 84]
  const BEHIND: seq<int> := [
    53, 58, 48, ENTER, BACK, 73, ZOOM, 74, 68, UP, DOWN, LEFT, RIGHT,
    23, 33, 24, 25, 35, 57, 26, 36, 27, 28, 43, 34, 44, 45, 67, 66, 46, 37, 38, 63, 54, 55, 65, 85, 56, 47]

  const ACTIONS: set<int> := {ZOOM, BACK, ENTER, UP, DOWN, LEFT, RIGHT}

  datatype Zone = NoZone | ZoneLeft | ZoneUp | ZoneRight | ZoneButtonLeft | ZoneDown | ZoneButtonRight

  /** Who holds a pointer button down. Buttons are left 0, middle 1, right 2. */
  datatype Sources = Sources(keypad: bool, touch: bool) {
    predicate On() { keypad || touch }
  }

  datatype Event = Button(button: nat, level: bool) | Move(dx: int, dy: int)

  datatype Touch = Touch(
    enabled: bool, available: bool, prepared: bool, polls: nat,
    candidate: Zone, x: int, y: int, samples: nat,
    active: Zone, release: nat, repeats: nat, applied: int)

  datatype Pad = Pad(
    held: set<int>,         // keys down in the last scan
    pressed: set<int>,      // keyboard keys last reported down
    enterSeen: bool,
    taps: nat,              // Enter taps reported
    mouse: bool,
    repeats: nat,
    sources: seq<Sources>,
    log: seq<Event>,        // what the pointer device has reported
    touch: Touch)

  function ButtonOf(scan: int): int {
    if scan == ENTER then 0 else if scan == ZOOM then 1 else if scan == BACK then 2 else -1
  }

  function ScanOf(button: nat): int {
    if button == 0 then ENTER else if button == 1 then ZOOM else BACK
  }

  // ----- pointer buttons

  /** exword_set_pointer_button: only a change of the button as a whole is reported. */
  function SetButton(p: Pad, b: nat, byTouch: bool, down: bool): Pad
    requires |p.sources| == 3 && b < 3
  {
    var was := p.sources[b];
    var now := if byTouch then was.(touch := down) else was.(keypad := down);
    p.(sources := p.sources[b := now], log := if was.On() == now.On() then p.log else p.log + [Button(b, now.On())])
  }

  /** exword_toggle_mouse_mode. */
  function ToggleMouse(p: Pad): Pad
    requires |p.sources| == 3
  {
    var q := p.(mouse := !p.mouse, repeats := 0);
    if q.mouse then q.(pressed := q.pressed - ACTIONS)
    else SetButton(SetButton(SetButton(q, 0, false, false), 1, false, false), 2, false, false)
  }

  /** The body of the key loop of exword_scan_once for the key with that scan code. */
  function KeyStep(p: Pad, scan: int, down: bool): Pad
    requires |p.sources| == 3
  {
    if down == (scan in p.held) then p
    else
      var q := p.(held := if down then p.held + {scan} else p.held - {scan});
      if scan == TOGGLE then (if down then ToggleMouse(q) else q)
      else if q.mouse && scan in ACTIONS then
        (if ButtonOf(scan) >= 0 then SetButton(q, ButtonOf(scan), false, down) else q)
      else KeyboardKey(q, scan, down)
  }

  /** A key edge that goes to the keyboard. Enter is tapped, that is reported down and up at once,
      on a press and on a release whose press was never seen. */
  function KeyboardKey(p: Pad, scan: int, down: bool): Pad {
    if scan == ENTER then
      p.(pressed := p.pressed - {ENTER}, taps := if down || !p.enterSeen then p.taps + 1 else p.taps, enterSeen := down)
    else p.(pressed := if down then p.pressed + {scan} else p.pressed - {scan})
  }

  function KeySteps(p: Pad, keys: seq<int>, sample: set<int>): (q: Pad)
    requires |p.sources| == 3
    ensures |q.sources| == 3
    decreases |keys|
  {
    if keys == [] then p else KeySteps(KeyStep(p, keys[0], keys[0] in sample), keys[1..], sample)
  }

  /** A direction key went down in this scan while mouse mode was on. */
  function DirectionEdge(p: Pad, keys: seq<int>, sample: set<int>): bool
    requires |p.sources| == 3
    decreases |keys|
  {
    if keys == [] then false
    else
      var k := keys[0];
      || (k in sample && k !in p.held && p.mouse && (k == UP || k == DOWN || k == LEFT || k == RIGHT))
      || DirectionEdge(KeyStep(p, k, k in sample), keys[1..], sample)
  }

  function Axis(sample: set<int>, minus: int, plus: int): int {
    (if plus in sample then MOUSE_STEP else 0) - (if minus in sample then MOUSE_STEP else 0)
  }

  function Motion(p: Pad, dx: int, dy: int): Pad {
    if dx == 0 && dy == 0 then p else p.(log := p.log + [Move(dx, dy)])
  }

  /** The mouse motion of exword_scan_once. */
  function MouseMotion(p: Pad, sample: set<int>, edge: bool): Pad {
    if !p.mouse || sample * {UP, DOWN, LEFT, RIGHT} == {} then p.(repeats := 0)
    else if edge || p.repeats + 1 >= MOUSE_REPEAT_SCANS then
      Motion(p.(repeats := 0), Axis(sample, LEFT, RIGHT), Axis(sample, UP, DOWN))
    else p.(repeats := p.repeats + 1)
  }

  // ----- the touch pad

  /** What one attempt to read the pad gives. A timeout switches the pad off for good. */
  datatype Reading = PenUp | Invalid | TimedOut | Contact(x: int, y: int)

  datatype Calibration = Calibration(xOrigin: int, yOrigin: int, xSpan: int, ySpan: int) {
    /** exword_touch_calibration_sane. */
    predicate Sane() {
      && 0 <= xOrigin <= 1023 && 0 <= yOrigin <= 1023 && 128 <= xSpan <= 8192 && 128 <= ySpan <= 8192
    }
  }

  /** Division as C does it, towards zero. */
  function Quotient(n: int, d: int): int
    requires d > 0
  {
    if n >= 0 then n / d else -((-n) / d)
  }

  /** exword_touch_coordinate: always inside the panel. */
  function Coordinate(raw: int, origin: int, span: int, limit: nat): (c: int)
    requires span > 0 && limit > 0
    ensures 0 <= c < limit
  {
    var v := Quotient((raw - origin) * 256, span);
    if v < 0 then 0 else if v >= limit then limit - 1 else v
  }

  /** exword_touch_sample_zone. */
  function ZoneOf(cal: Calibration, x: int, y: int): (z: Zone)
    requires cal.Sane()
    ensures z != NoZone
  {
    var px, py := Coordinate(x, cal.xOrigin, cal.xSpan, 240), Coordinate(y, cal.yOrigin, cal.ySpan, 96);
    if py < 48 then (if px < 80 then ZoneLeft else if px < 160 then ZoneUp else ZoneRight)
    else if px < 80 then ZoneButtonLeft else if px < 160 then ZoneDown else ZoneButtonRight
  }

  function TouchButton(z: Zone): int {
    if z.ZoneButtonLeft? then 0 else if z.ZoneButtonRight? then 2 else -1
  }

  /** exword_touch_report_motion. */
  function TouchMotion(p: Pad, z: Zone): Pad {
    Motion(p, if z.ZoneLeft? then -TOUCH_MOUSE_STEP else if z.ZoneRight? then TOUCH_MOUSE_STEP else 0,
              if z.ZoneUp? then -TOUCH_MOUSE_STEP else if z.ZoneDown? then TOUCH_MOUSE_STEP else 0)
  }

  /** exword_touch_release_active. */
  function ReleaseActive(p: Pad): Pad
    requires |p.sources| == 3
  {
    var b := TouchButton(p.touch.active);
    var q := if b >= 0 then SetButton(p, b, true, false) else p;
    q.(touch := q.touch.(active := NoZone, repeats := 0))
  }

  /** exword_touch_activate_zone. */
  function Activate(p: Pad, z: Zone): Pad
    requires |p.sources| == 3
  {
    if TouchButton(z) >= 0 then SetButton(p, TouchButton(z), true, true) else TouchMotion(p, z)
  }

  function Abs(n: int): int { if n < 0 then -n else n }

  /** The sample continues the candidate of the poll before. */
  predicate Confirms(t: Touch, z: Zone, x: int, y: int) {
    z == t.candidate && Abs(x - t.x) <= TOUCH_JITTER && Abs(y - t.y) <= TOUCH_JITTER
  }

  /** exword_touch_poll without a valid reading. */
  function PollLost(p: Pad, r: Reading): Pad
    requires |p.sources| == 3
  {
    var t := p.touch;
    var lost := t.(available := t.available && !r.TimedOut?, candidate := NoZone, samples := 0);
    if t.active == NoZone then p.(touch := lost)
    else if t.release + 1 >= TOUCH_RELEASE_DEBOUNCE then ReleaseActive(p.(touch := lost.(release := 0)))
    else p.(touch := lost.(release := t.release + 1))
  }

  /** A reading while a zone is active: directions repeat, buttons stay down. */
  function PollLatched(p: Pad): Pad {
    var t := p.touch.(release := 0);
    if TouchButton(t.active) >= 0 then p.(touch := t)
    else if t.repeats + 1 >= TOUCH_REPEAT_POLLS then TouchMotion(p.(touch := t.(repeats := 0)), t.active)
    else p.(touch := t.(repeats := t.repeats + 1))
  }

  /** A reading in zone z while none is active: the second of two that agree activates it. */
  function PollFree(p: Pad, z: Zone, x: int, y: int): Pad
    requires |p.sources| == 3
  {
    var t := p.touch;
    var n := if Confirms(t, z, x, y) then t.samples + 1 else 1;
    var seen := t.(release := 0, candidate := z, samples := n, x := x, y := y);
    if n < TOUCH_DEBOUNCE then p.(touch := seen)
    else Activate(p.(touch := seen.(active := z, candidate := NoZone, samples := 0, repeats := 0)), z)
  }

  /** exword_touch_poll. */
  function Poll(p: Pad, r: Reading, cal: Calibration): Pad
    requires |p.sources| == 3 && cal.Sane()
  {
    if !p.touch.available || !r.Contact? then PollLost(p, r)
    else if p.touch.active != NoZone then PollLatched(p)
    else PollFree(p, ZoneOf(cal, r.x, r.y), r.x, r.y)
  }

  /** The end of exword_scan_once: every so many scans the enabled pad is polled. */
  function TouchTurn(p: Pad, r: Reading, cal: Calibration): Pad
    requires |p.sources| == 3 && cal.Sane()
  {
    if !p.touch.enabled then p.(touch := p.touch.(polls := 0))
    else if p.touch.polls + 1 >= TOUCH_POLL_SCANS then Poll(p.(touch := p.touch.(polls := 0)), r, cal)
    else p.(touch := p.touch.(polls := p.touch.polls + 1))
  }

  /** exword_scan_once. */
  function Scan(p: Pad, sample: set<int>, r: Reading, cal: Calibration): Pad
    requires |p.sources| == 3 && cal.Sane()
  {
    TouchTurn(MouseMotion(KeySteps(p, KEYS, sample), sample, DirectionEdge(p, KEYS, sample)), r, cal)
  }

  function Mode(requested: int): int { if requested < 0 then 0 else requested % 8 }

  predicate WantsTouch(mode: int) { mode / 2 % 2 == 1 }

  /** exword_service_subpad_mode, as far as the touch pad goes. `ready` tells whether preparing the
      hardware succeeds, should it be attempted. */
  function Service(p: Pad, requested: int, ready: bool): Pad
    requires |p.sources| == 3
  {
    var mode := Mode(requested);
    if mode == p.touch.applied then p
    else
      var q := if !WantsTouch(mode) && p.touch.enabled then Withdraw(p) else p;
      q.(touch := Offer(q.touch, mode, ready))
  }

  /** The pad is switched off: its button is let go and its bookkeeping cleared. */
  function Withdraw(p: Pad): Pad
    requires |p.sources| == 3
  {
    var s := ReleaseActive(p.(touch := p.touch.(enabled := false)));
    s.(touch := s.touch.(polls := 0, candidate := NoZone, samples := 0, release := 0, repeats := 0))
  }

  /** The pad is prepared when it is first wanted, and later enabled as long as it is available. */
  function Offer(t: Touch, mode: int, ready: bool): Touch {
    if !WantsTouch(mode) then t.(applied := mode)
    else if !t.prepared then
      t.(prepared := true, enabled := t.available && ready, available := t.available && ready, applied := mode)
    else t.(enabled := t.available, applied := mode)
  }

  // ----- what every reachable state satisfies

  /** The level a button was last reported at; before any report it is up. */
  function LastLevel(log: seq<Event>, b: nat): bool {
    if log == [] then false
    else
      var e := log[|log| - 1];
      if e.Button? && e.button == b then e.level else LastLevel(log[..|log| - 1], b)
  }

  /** Each report of a button differs from the report before it. */
  predicate Alternates(log: seq<Event>) {
    log == [] ||
    var front, e := log[..|log| - 1], log[|log| - 1];
    Alternates(front) && (e.Button? ==> e.level != LastLevel(front, e.button))
  }

  ghost predicate Inv(p: Pad) {
    |p.sources| == 3 && PointerInv(p) && KeypadInv(p) && TouchInv(p)
  }

  ghost predicate Reported(p: Pad, b: nat)
    requires |p.sources| == 3 && b < 3
  {
    LastLevel(p.log, b) == p.sources[b].On()
  }

  /** The reports are the buttons: each is down exactly when some source holds it. */
  ghost predicate PointerInv(p: Pad)
    requires |p.sources| == 3
  {
    Alternates(p.log) && Reported(p, 0) && Reported(p, 1) && Reported(p, 2)
  }

  /** No key sticks: whatever is reported down is held; Enter is only ever tapped; in mouse mode the
      action keys are up, and only in mouse mode do they hold buttons. */
  ghost predicate KeypadInv(p: Pad)
    requires |p.sources| == 3
  {
    && p.pressed <= p.held && ENTER !in p.pressed && TOGGLE !in p.pressed
    && (p.mouse ==> p.pressed !! ACTIONS)
    && KeyHolds(p, 0) && KeyHolds(p, 1) && KeyHolds(p, 2)
  }

  ghost predicate KeyHolds(p: Pad, b: nat)
    requires |p.sources| == 3 && b < 3
  {
    p.sources[b].keypad ==> p.mouse && ScanOf(b) in p.held
  }

  /** The touch pad holds exactly the button of its active zone. */
  ghost predicate TouchInv(p: Pad)
    requires |p.sources| == 3
  {
    && p.sources[0].touch == p.touch.active.ZoneButtonLeft? && !p.sources[1].touch
    && p.sources[2].touch == p.touch.active.ZoneButtonRight?
    && p.touch.samples < TOUCH_DEBOUNCE && p.touch.release < TOUCH_RELEASE_DEBOUNCE
    && p.touch.repeats < TOUCH_REPEAT_POLLS
    && (p.touch.samples > 0 ==> p.touch.candidate != NoZone)
  }

  lemma LogAppend(log: seq<Event>, e: Event, b: nat)
    ensures LastLevel(log + [e], b) == if e.Button? && e.button == b then e.level else LastLevel(log, b)
    ensures Alternates(log + [e]) <==> Alternates(log) && (e.Button? ==> e.level != LastLevel(log, e.button))
  {
    assert (log + [e])[..|log + [e]| - 1] == log;
  }

  lemma SetButtonKeeps(p: Pad, b: nat, byTouch: bool, down: bool)
    requires |p.sources| == 3 && b < 3 && PointerInv(p)
    ensures PointerInv(SetButton(p, b, byTouch, down))
  {
    hide Alternates, LastLevel;
    var was := p.sources[b];
    var now := if byTouch then was.(touch := down) else was.(keypad := down);
    LogAppend(p.log, Button(b, now.On()), 0);
    LogAppend(p.log, Button(b, now.On()), 1);
    LogAppend(p.log, Button(b, now.On()), 2);
  }

  lemma MotionKeeps(p: Pad, dx: int, dy: int)
    requires Inv(p)
    ensures Inv(Motion(p, dx, dy))
  {
    hide Alternates, LastLevel;
    LogAppend(p.log, Move(dx, dy), 0);
    LogAppend(p.log, Move(dx, dy), 1);
    LogAppend(p.log, Move(dx, dy), 2);
  }

  lemma ToggleKeeps(p: Pad)
    requires Inv(p)
    ensures Inv(ToggleMouse(p))
  {
    var q := p.(mouse := !p.mouse, repeats := 0);
    if p.mouse {
      SetButtonKeeps(q, 0, false, false);
      var q1 := SetButton(q, 0, false, false);
      SetButtonKeeps(q1, 1, false, false);
      SetButtonKeeps(SetButton(q1, 1, false, false), 2, false, false);
    }
  }

  lemma KeyStepKeeps(p: Pad, scan: int, down: bool)
    requires Inv(p)
    ensures Inv(KeyStep(p, scan, down))
  {
    hide PointerInv, TouchInv, SetButton, ToggleMouse, KeyboardKey, ACTIONS;
    var q := p.(held := if down then p.held + {scan} else p.held - {scan});
    if down != (scan in p.held) {
      if scan == TOGGLE {
        ToggleEdge(p, down);
        ToggleKeeps(q);
      } else if p.mouse && scan in ACTIONS {
        MouseKeyKeeps(p, scan, down);
      } else {
        KeyboardKeyKeeps(p, scan, down);
      }
    }
  }

  lemma ToggleEdge(p: Pad, down: bool)
    requires Inv(p)
    ensures Inv(p.(held := if down then p.held + {TOGGLE} else p.held - {TOGGLE}))
  {
    hide Alternates, LastLevel;
  }

  lemma MouseKeyKeeps(p: Pad, scan: int, down: bool)
    requires Inv(p) && p.mouse && scan in ACTIONS
    ensures var q := p.(held := if down then p.held + {scan} else p.held - {scan});
            Inv(if ButtonOf(scan) >= 0 then SetButton(q, ButtonOf(scan), false, down) else q)
  {
    hide Alternates, LastLevel, SetButton;
    var q := p.(held := if down then p.held + {scan} else p.held - {scan});
    if ButtonOf(scan) >= 0 {
      SetButtonKeeps(q, ButtonOf(scan), false, down);
      SetButtonChanges(q, ButtonOf(scan), false, down);
    }
  }

  lemma KeyboardKeyKeeps(p: Pad, scan: int, down: bool)
    requires Inv(p) && scan != TOGGLE && !(p.mouse && scan in ACTIONS)
    ensures Inv(KeyboardKey(p.(held := if down then p.held + {scan} else p.held - {scan}), scan, down))
  {
    hide Alternates, LastLevel;
  }

  /** Setting a button changes nothing but its source and the log. */
  lemma SetButtonChanges(p: Pad, b: nat, byTouch: bool, down: bool)
    requires |p.sources| == 3 && b < 3
    ensures var q := SetButton(p, b, byTouch, down);
            && q == p.(sources := q.sources, log := q.log) && |q.sources| == 3
            && q.sources[b] == (if byTouch then p.sources[b].(touch := down) else p.sources[b].(keypad := down))
            && (b != 0 ==> q.sources[0] == p.sources[0])
            && (b != 1 ==> q.sources[1] == p.sources[1])
            && (b != 2 ==> q.sources[2] == p.sources[2])
  {
  }

  lemma {:induction false} KeyStepsKeep(p: Pad, keys: seq<int>, sample: set<int>)
    requires Inv(p)
    ensures Inv(KeySteps(p, keys, sample))
    decreases |keys|
  {
    if keys != [] {
      KeyStepKeeps(p, keys[0], keys[0] in sample);
      KeyStepsKeep(KeyStep(p, keys[0], keys[0] in sample), keys[1..], sample);
    }
  }

  lemma ReleaseKeeps(p: Pad)
    requires Inv(p)
    ensures Inv(ReleaseActive(p))
  {
    var b := TouchButton(p.touch.active);
    if b >= 0 {
      SetButtonKeeps(p, b, true, false);
    }
  }

  lemma ActivateKeeps(p: Pad, z: Zone)
    requires Inv(p) && p.touch.active == NoZone && z != NoZone
    ensures var q := p.(touch := p.touch.(active := z, candidate := NoZone, samples := 0, repeats := 0));
            Inv(Activate(q, z))
  {
    var q := p.(touch := p.touch.(active := z, candidate := NoZone, samples := 0, repeats := 0));
    if TouchButton(z) >= 0 {
      SetButtonKeeps(q, TouchButton(z), true, true);
    } else {
      assert Inv(q);
      MotionKeeps(q, if z.ZoneLeft? then -TOUCH_MOUSE_STEP else if z.ZoneRight? then TOUCH_MOUSE_STEP else 0,
                     if z.ZoneUp? then -TOUCH_MOUSE_STEP else if z.ZoneDown? then TOUCH_MOUSE_STEP else 0);
    }
  }

  lemma MouseMotionKeeps(p: Pad, sample: set<int>, edge: bool)
    requires Inv(p)
    ensures Inv(MouseMotion(p, sample, edge))
  {
    hide Alternates, LastLevel, Motion;
    MotionKeeps(p.(repeats := 0), Axis(sample, LEFT, RIGHT), Axis(sample, UP, DOWN));
  }

  lemma PollLostKeeps(p: Pad, r: Reading)
    requires Inv(p)
    ensures Inv(PollLost(p, r))
  {
    hide PointerInv, KeypadInv, ReleaseActive;
    var t := p.touch;
    var lost := t.(available := t.available && !r.TimedOut?, candidate := NoZone, samples := 0);
    TouchOnly(p, lost);
    TouchOnly(p, lost.(release := 0));
    TouchOnly(p, lost.(release := t.release + 1));
    ReleaseKeeps(p.(touch := lost.(release := 0)));
  }

  lemma PollLatchedKeeps(p: Pad)
    requires Inv(p) && p.touch.active != NoZone
    ensures Inv(PollLatched(p))
  {
    hide PointerInv, KeypadInv, TouchMotion;
    var t := p.touch.(release := 0);
    TouchOnly(p, t);
    TouchOnly(p, t.(repeats := 0));
    TouchOnly(p, t.(repeats := t.repeats + 1));
    TouchMotionKeeps(p.(touch := t.(repeats := 0)), t.active);
  }

  lemma PollFreeKeeps(p: Pad, z: Zone, x: int, y: int)
    requires Inv(p) && p.touch.active == NoZone && z != NoZone
    ensures Inv(PollFree(p, z, x, y))
  {
    hide PointerInv, KeypadInv, Activate, Confirms;
    var t := p.touch;
    var n := if Confirms(t, z, x, y) then t.samples + 1 else 1;
    var seen := t.(release := 0, candidate := z, samples := n, x := x, y := y);
    TouchOnly(p, seen);
    var q := p.(touch := seen.(samples := 0));
    TouchOnly(p, q.touch);
    if n >= TOUCH_DEBOUNCE {
      ActivateKeeps(q, z);
      assert q.(touch := q.touch.(active := z, candidate := NoZone, samples := 0, repeats := 0))
             == p.(touch := seen.(active := z, candidate := NoZone, samples := 0, repeats := 0));
    }
  }

  /** Changing the touch pad's bookkeeping touches neither keys nor buttons. */
  lemma TouchOnly(p: Pad, t: Touch)
    requires Inv(p)
    ensures var q := p.(touch := t); |q.sources| == 3 && PointerInv(q) && KeypadInv(q)
  {
    hide Alternates, LastLevel;
  }

  lemma TouchMotionKeeps(p: Pad, z: Zone)
    requires Inv(p)
    ensures Inv(TouchMotion(p, z))
  {
    hide Alternates, LastLevel, Motion;
    MotionKeeps(p, if z.ZoneLeft? then -TOUCH_MOUSE_STEP else if z.ZoneRight? then TOUCH_MOUSE_STEP else 0,
                   if z.ZoneUp? then -TOUCH_MOUSE_STEP else if z.ZoneDown? then TOUCH_MOUSE_STEP else 0);
  }

  lemma ScanKeeps(p: Pad, sample: set<int>, r: Reading, cal: Calibration)
    requires Inv(p) && cal.Sane()
    ensures Inv(Scan(p, sample, r, cal))
  {
    hide PointerInv, KeypadInv, TouchInv, KeySteps, MouseMotion, TouchTurn, DirectionEdge;
    KeyStepsKeep(p, KEYS, sample);
    MouseMotionKeeps(KeySteps(p, KEYS, sample), sample, DirectionEdge(p, KEYS, sample));
    TouchTurnKeeps(MouseMotion(KeySteps(p, KEYS, sample), sample, DirectionEdge(p, KEYS, sample)), r, cal);
  }

  lemma TouchTurnKeeps(p: Pad, r: Reading, cal: Calibration)
    requires Inv(p) && cal.Sane()
    ensures Inv(TouchTurn(p, r, cal))
  {
    hide PointerInv, KeypadInv, PollLost, PollLatched, PollFree, ZoneOf;
    TouchOnly(p, p.touch.(polls := 0));
    TouchOnly(p, p.touch.(polls := p.touch.polls + 1));
    var q := p.(touch := p.touch.(polls := 0));
    PollLostKeeps(q, r);
    if q.touch.active != NoZone {
      PollLatchedKeeps(q);
    } else if r.Contact? {
      PollFreeKeeps(q, ZoneOf(cal, r.x, r.y), r.x, r.y);
    }
  }

  lemma ServiceKeeps(p: Pad, requested: int, ready: bool)
    requires Inv(p)
    ensures Inv(Service(p, requested, ready))
  {
    hide PointerInv, KeypadInv, Withdraw;
    var mode := Mode(requested);
    WithdrawKeeps(p);
    var q := if !WantsTouch(mode) && p.touch.enabled then Withdraw(p) else p;
    TouchOnly(q, Offer(q.touch, mode, ready));
  }

  lemma WithdrawKeeps(p: Pad)
    requires Inv(p)
    ensures Inv(Withdraw(p))
  {
    hide PointerInv, KeypadInv, ReleaseActive;
    var q := p.(touch := p.touch.(enabled := false));
    TouchOnly(p, q.touch);
    ReleaseKeeps(q);
    var s := ReleaseActive(q);
    TouchOnly(s, s.touch.(polls := 0, candidate := NoZone, samples := 0, release := 0, repeats := 0));
  }

  // ----- runs

  /** One turn of the scan thread's work: a scan, or the service of a mode request. */
  datatype Turn = ScanTurn(sample: set<int>, reading: Reading) | ServiceTurn(requested: int, ready: bool)

  function Step(p: Pad, turn: Turn, cal: Calibration): (q: Pad)
    requires |p.sources| == 3 && cal.Sane()
  {
    match turn
    case ScanTurn(sample, reading) => Scan(p, sample, reading, cal)
    case ServiceTurn(requested, ready) => Service(p, requested, ready)
  }

  ghost function Run(p: Pad, turns: seq<Turn>, cal: Calibration): Pad
    requires Inv(p) && cal.Sane()
    decreases |turns|
  {
    if turns == [] then p
    else
      StepKeeps(p, turns[0], cal);
      Run(Step(p, turns[0], cal), turns[1..], cal)
  }

  lemma StepKeeps(p: Pad, turn: Turn, cal: Calibration)
    requires Inv(p) && cal.Sane()
    ensures Inv(Step(p, turn, cal))
  {
    hide Inv, Scan, Service;
    match turn
    case ScanTurn(sample, reading) => ScanKeeps(p, sample, reading, cal);
    case ServiceTurn(requested, ready) => ServiceKeeps(p, requested, ready);
  }

  /** The state after exword_prime_scanner: any keys may be held, nothing has been reported. */
  function Primed(held: set<int>, available: bool): Pad {
    Pad(held, {}, false, 0, false, 0, [Sources(false, false), Sources(false, false), Sources(false, false)], [],
        Touch(false, available, false, 0, NoZone, 0, 0, 0, NoZone, 0, 0, -1))
  }

  /** After any run: each button's last report is whether a source holds it, and its reports
      alternate; the keypad holds buttons in mouse mode only; the touch pad holds exactly its active
      button; in mouse mode the action keys are up; and no keyboard key is down that is not held. */
  lemma {:induction false} RunKeeps(p: Pad, turns: seq<Turn>, cal: Calibration)
    requires Inv(p) && cal.Sane()
    ensures Inv(Run(p, turns, cal))
    decreases |turns|
  {
    hide PointerInv, KeypadInv, TouchInv, Step;
    if turns != [] {
      StepKeeps(p, turns[0], cal);
      RunKeeps(Step(p, turns[0], cal), turns[1..], cal);
    }
  }

  lemma PrimedIsFine(held: set<int>, available: bool)
    ensures Inv(Primed(held, available))
  {
  }

  // ----- keys, exactly

  function SetOf(keys: seq<int>): set<int> { set k | k in keys }

  lemma KeyStepHeld(p: Pad, scan: int, down: bool)
    requires |p.sources| == 3
    ensures KeyStep(p, scan, down).held == if down then p.held + {scan} else p.held - {scan}
    ensures |KeyStep(p, scan, down).sources| == 3
  {
  }

  /** A scan records exactly which of the examined keys are down. */
  lemma {:induction false} HeldFollowsSample(p: Pad, keys: seq<int>, sample: set<int>)
    requires |p.sources| == 3
    ensures KeySteps(p, keys, sample).held == p.held - SetOf(keys) + SetOf(keys) * sample
    decreases |keys|
  {
    hide KeyStep;
    if keys != [] {
      var down := keys[0] in sample;
      KeyStepHeld(p, keys[0], down);
      HeldFollowsSample(KeyStep(p, keys[0], down), keys[1..], sample);
      assert SetOf(keys) == {keys[0]} + SetOf(keys[1..]);
    }
  }

  predicate OrdinaryKey(k: int) { k !in ACTIONS && k != TOGGLE }

  lemma KeyStepOrdinary(p: Pad, scan: int, down: bool, k: int)
    requires |p.sources| == 3 && OrdinaryKey(k)
    ensures k in KeyStep(p, scan, down).pressed <==> if scan == k && down != (k in p.held) then down else k in p.pressed
  {
  }

  /** An ordinary key is reported on every edge and never otherwise, in mouse mode or out of it. */
  lemma {:induction false} OrdinaryKeyFollowsEdges(p: Pad, keys: seq<int>, sample: set<int>, k: int)
    requires |p.sources| == 3 && OrdinaryKey(k)
    ensures k in KeySteps(p, keys, sample).pressed
            <==> if k in keys && (k in sample) != (k in p.held) then k in sample else k in p.pressed
    decreases |keys|
  {
    hide KeyStep;
    if keys != [] {
      var down := keys[0] in sample;
      KeyStepHeld(p, keys[0], down);
      KeyStepOrdinary(p, keys[0], down, k);
      OrdinaryKeyFollowsEdges(KeyStep(p, keys[0], down), keys[1..], sample, k);
      assert k in keys <==> k == keys[0] || k in keys[1..];
    }
  }

  // ----- touch, exactly

  /** A zone becomes active exactly on the second of two readings in a row that agree. */
  lemma ActivatesIff(p: Pad, r: Reading, cal: Calibration)
    requires Inv(p) && cal.Sane() && p.touch.active == NoZone
    ensures Poll(p, r, cal).touch.active != NoZone
            <==> p.touch.available && r.Contact? && p.touch.samples == 1
                 && Confirms(p.touch, ZoneOf(cal, r.x, r.y), r.x, r.y)
    ensures Poll(p, r, cal).touch.active != NoZone ==> Poll(p, r, cal).touch.active == ZoneOf(cal, r.x, r.y)
  {
    hide ZoneOf, PointerInv, KeypadInv;
  }

  /** An active zone stays until the second of two readings in a row without contact. */
  lemma ReleasesIff(p: Pad, r: Reading, cal: Calibration)
    requires Inv(p) && cal.Sane() && p.touch.active != NoZone
    ensures Poll(p, r, cal).touch.active != p.touch.active
            <==> (!p.touch.available || !r.Contact?) && p.touch.release == 1
    ensures Poll(p, r, cal).touch.active != p.touch.active ==> Poll(p, r, cal).touch.active == NoZone
  {
    hide PointerInv, KeypadInv;
  }

  /** The pad's button is stuck: it holds a pointer button, is no longer polled, and has been
      switched off by a timeout. */
  predicate Stuck(p: Pad) {
    p.touch.prepared && !p.touch.available && !p.touch.enabled && TouchButton(p.touch.active) >= 0
  }

  /** Servicing a mode request leaves the pad's pressed button stuck exactly when the new mode wants
      a touch pad that a timeout has switched off since; a mode without touch lets it go. */
  lemma ServiceSticksIff(p: Pad, requested: int, ready: bool)
    requires Inv(p) && p.touch.prepared && p.touch.enabled && TouchButton(p.touch.active) >= 0
    ensures Stuck(Service(p, requested, ready))
            <==> Mode(requested) != p.touch.applied && WantsTouch(Mode(requested)) && !p.touch.available
  {
    hide Mode, WantsTouch, PointerInv, KeypadInv;
  }

  lemma StuckStep(p: Pad, turn: Turn, cal: Calibration)
    requires Inv(p) && cal.Sane() && Stuck(p)
    ensures Stuck(Step(p, turn, cal)) && Step(p, turn, cal).touch.active == p.touch.active
  {
    match turn
    case ScanTurn(sample, reading) =>
      hide PointerInv, KeypadInv, KeySteps, DirectionEdge, KEYS;
      KeyStepsTouch(p, KEYS, sample);
    case ServiceTurn(requested, ready) =>
      hide PointerInv, KeypadInv, Mode, WantsTouch;
  }

  lemma {:induction false} KeyStepsTouch(p: Pad, keys: seq<int>, sample: set<int>)
    requires |p.sources| == 3
    ensures KeySteps(p, keys, sample).touch == p.touch
    decreases |keys|
  {
    if keys != [] {
      assert KeyStep(p, keys[0], keys[0] in sample).touch == p.touch;
      KeyStepsTouch(KeyStep(p, keys[0], keys[0] in sample), keys[1..], sample);
    }
  }

  /** A stuck button is never let go again, whatever is scanned or requested. */
  lemma {:induction false} StuckForever(p: Pad, turns: seq<Turn>, cal: Calibration)
    requires Inv(p) && cal.Sane() && Stuck(p)
    ensures var q := Run(p, turns, cal);
            && |q.sources| == 3 && q.touch.active == p.touch.active
            && q.sources[TouchButton(p.touch.active)].touch && LastLevel(q.log, TouchButton(p.touch.active))
    decreases |turns|
  {
    hide Step, Alternates, LastLevel;
    if turns != [] {
      StepKeeps(p, turns[0], cal);
      StuckStep(p, turns[0], cal);
      StuckForever(Step(p, turns[0], cal), turns[1..], cal);
    }
  }
}
