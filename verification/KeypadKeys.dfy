/** What a scan of exword-keypad.c makes of the mode key, the action keys and the touch pad, key by
    key and by number: which source holds which button, which keys are typed, and where the pointer
    goes. */
module KeypadKeys {
  import opened Keypad

  // ----- the key loop, in front of the mode key and behind it

  lemma {:induction false} StepsAppend(p: Pad, a: seq<int>, b: seq<int>, sample: set<int>)
    requires |p.sources| == 3
    ensures KeySteps(p, a + b, sample) == KeySteps(KeySteps(p, a, sample), b, sample)
    ensures DirectionEdge(p, a + b, sample)
            <==> DirectionEdge(p, a, sample) || DirectionEdge(KeySteps(p, a, sample), b, sample)
    decreases |a|
  {
    hide KeyStep;
    if a == [] {
      assert a + b == b;
    } else {
      KeyStepHeld(p, a[0], a[0] in sample);
      assert (a + b)[1..] == a[1..] + b;
      StepsAppend(KeyStep(p, a[0], a[0] in sample), a[1..], b, sample);
    }
  }

  /** Key k changes in this scan. */
  predicate Changes(p: Pad, sample: set<int>, k: int) { (k in sample) != (k in p.held) }

  /** The button that holds on to a key, by number: Enter is left, zoom middle, back right. */
  function KeyOf(b: nat): int { if b == 0 then 76 else if b == 1 then 64 else 75 }

  predicate Direction(k: int) { k == 77 || k == 86 || k == 87 || k == 88 }

  lemma PlainStep(p: Pad, scan: int, down: bool)
    requires |p.sources| == 3 && scan != 10
    ensures var q := KeyStep(p, scan, down);
            && |q.sources| == 3 && q.mouse == p.mouse
            && q.held == if down then p.held + {scan} else p.held - {scan}
  {
  }

  lemma ButtonStep(p: Pad, scan: int, down: bool, b: nat)
    requires |p.sources| == 3 && scan != 10 && b < 3
    ensures var q := KeyStep(p, scan, down);
            && |q.sources| == 3
            && q.sources[b] == if p.mouse && scan == KeyOf(b) && down != (scan in p.held)
                               then p.sources[b].(keypad := down) else p.sources[b]
  {
  }

  /** Over a row of keys without the mode key, a button's keypad source follows the edges of its key
      in mouse mode, and stays otherwise. */
  lemma {:induction false} ButtonSteps(p: Pad, keys: seq<int>, sample: set<int>, b: nat)
    requires |p.sources| == 3 && 10 !in keys && b < 3
    ensures var q, k := KeySteps(p, keys, sample), KeyOf(b);
            && q.mouse == p.mouse
            && q.sources[b] == if p.mouse && k in keys && Changes(p, sample, k)
                               then p.sources[b].(keypad := k in sample) else p.sources[b]
    decreases |keys|
  {
    hide KeyStep;
    if keys != [] {
      var k := keys[0];
      PlainStep(p, k, k in sample);
      ButtonStep(p, k, k in sample, b);
      ButtonSteps(KeyStep(p, k, k in sample), keys[1..], sample, b);
      assert KeyOf(b) in keys <==> KeyOf(b) == k || KeyOf(b) in keys[1..];
    }
  }

  lemma TypedStep(p: Pad, scan: int, down: bool, k: int)
    requires |p.sources| == 3 && scan != 10 && k in {64, 75, 77, 86, 87, 88}
    ensures k in KeyStep(p, scan, down).pressed
            <==> if !p.mouse && scan == k && down != (scan in p.held) then down else k in p.pressed
  {
  }

  /** Out of mouse mode the other action keys are typed on every edge. */
  lemma {:induction false} TypedSteps(p: Pad, keys: seq<int>, sample: set<int>, k: int)
    requires |p.sources| == 3 && 10 !in keys && k in {64, 75, 77, 86, 87, 88}
    ensures k in KeySteps(p, keys, sample).pressed
            <==> if !p.mouse && k in keys && Changes(p, sample, k) then k in sample else k in p.pressed
    decreases |keys|
  {
    hide KeyStep;
    if keys != [] {
      var j := keys[0];
      PlainStep(p, j, j in sample);
      TypedStep(p, j, j in sample, k);
      TypedSteps(KeyStep(p, j, j in sample), keys[1..], sample, k);
      assert k in keys <==> k == j || k in keys[1..];
    }
  }

  lemma EnterStep(p: Pad, scan: int, down: bool)
    requires |p.sources| == 3 && scan != 10
    ensures var q, typed := KeyStep(p, scan, down), !p.mouse && scan == 76 && down != (scan in p.held);
            && q.enterSeen == (if typed then down else p.enterSeen)
            && q.taps == p.taps + if typed && (down || !p.enterSeen) then 1 else 0
  {
  }

  /** Out of mouse mode Enter is tapped on every press, and on a release whose press was not seen. */
  lemma {:induction false} EnterSteps(p: Pad, keys: seq<int>, sample: set<int>)
    requires |p.sources| == 3 && 10 !in keys
    ensures var q, typed := KeySteps(p, keys, sample), !p.mouse && 76 in keys && Changes(p, sample, 76);
            && q.enterSeen == (if typed then 76 in sample else p.enterSeen)
            && q.taps == p.taps + if typed && (76 in sample || !p.enterSeen) then 1 else 0
    decreases |keys|
  {
    hide KeyStep;
    if keys != [] {
      var j := keys[0];
      PlainStep(p, j, j in sample);
      EnterStep(p, j, j in sample);
      EnterSteps(KeyStep(p, j, j in sample), keys[1..], sample);
      assert 76 in keys <==> 76 == j || 76 in keys[1..];
    }
  }

  lemma {:induction false} EdgeSteps(p: Pad, keys: seq<int>, sample: set<int>)
    requires |p.sources| == 3 && 10 !in keys
    ensures DirectionEdge(p, keys, sample)
            <==> p.mouse && exists k :: k in keys && Direction(k) && k in sample && k !in p.held
    decreases |keys|
  {
    hide KeyStep;
    if keys != [] {
      var j := keys[0];
      PlainStep(p, j, j in sample);
      EdgeSteps(KeyStep(p, j, j in sample), keys[1..], sample);
      assert forall k :: k in keys <==> k == j || k in keys[1..];
    }
  }

  // ----- the whole key loop

  /** No action key is examined in front of the mode key, and every one behind it. */
  lemma ModeKeyFirst()
    ensures 10 !in FRONT && 10 !in BEHIND
    ensures forall k :: k in {64, 75, 76, 77, 86, 87, 88} ==> k in BEHIND && k !in FRONT
  {
    hide FRONT, BEHIND;
    NotInFront();
    NotBehind();
    Behind();
  }

  lemma NotInFront()
    ensures forall k :: k in {10, 64, 75, 76, 77, 86, 87, 88} ==> k !in FRONT
  {
  }

  lemma NotBehind()
    ensures 10 !in BEHIND
  {
  }

  lemma Behind()
    ensures {64, 75, 76, 77, 86, 87, 88} <= SetOf(BEHIND)
  {
    assert BEHIND[3] == 76 && BEHIND[4] == 75 && BEHIND[6] == 64;
    assert BEHIND[9] == 77 && BEHIND[10] == 86 && BEHIND[11] == 87 && BEHIND[12] == 88;
  }

  /** Is mouse mode on behind the mode key? */
  predicate MouseAfter(p: Pad, sample: set<int>) { p.mouse != (10 in sample && 10 !in p.held) }

  /** What the mode key does to the state in front of the action keys. */
  lemma ModeStep(p: Pad, sample: set<int>)
    requires Inv(p)
    ensures var q := KeyStep(KeySteps(p, FRONT, sample), 10, 10 in sample);
            && |q.sources| == 3 && q.mouse == MouseAfter(p, sample)
            && q.taps == p.taps && q.enterSeen == p.enterSeen
            && (forall k :: k in {64, 75, 76, 77, 86, 87, 88} ==> (k in q.held <==> k in p.held))
            && (forall b :: 0 <= b < 3 ==>
                  && q.sources[b].touch == p.sources[b].touch
                  && q.sources[b].keypad == (q.mouse && p.sources[b].keypad))
            && (forall k :: k in {64, 75, 77, 86, 87, 88} ==> (k in q.pressed <==> !q.mouse && k in p.pressed))
  {
    hide KEYS, FRONT, BEHIND, KeySteps, Alternates, LastLevel;
    ModeKeyFirst();
    var f := KeySteps(p, FRONT, sample);
    HeldFollowsSample(p, FRONT, sample);
    ButtonSteps(p, FRONT, sample, 0);
    ButtonSteps(p, FRONT, sample, 1);
    ButtonSteps(p, FRONT, sample, 2);
    EnterSteps(p, FRONT, sample);
    forall k | k in {64, 75, 77, 86, 87, 88} ensures k in f.pressed <==> k in p.pressed {
      TypedSteps(p, FRONT, sample, k);
    }
  }

  /** A scan of the keys: the mode key switches mouse mode on its press. Then Enter (76), zoom (64)
      and back (75) hold the left, middle and right button exactly while they are down, from an edge
      seen in mouse mode on; out of it nothing of the keypad does. */
  lemma ScanHoldsButtons(p: Pad, sample: set<int>)
    requires Inv(p)
    ensures var q, mouse := KeySteps(p, KEYS, sample), p.mouse != (10 in sample && 10 !in p.held);
            && q.mouse == mouse
            && (forall b :: 0 <= b < 3 ==> q.sources[b].touch == p.sources[b].touch)
            && q.sources[0].keypad == (mouse && if Changes(p, sample, 76) then 76 in sample else p.sources[0].keypad)
            && q.sources[1].keypad == (mouse && if Changes(p, sample, 64) then 64 in sample else p.sources[1].keypad)
            && q.sources[2].keypad == (mouse && if Changes(p, sample, 75) then 75 in sample else p.sources[2].keypad)
  {
    hide KEYS, FRONT, BEHIND, KeySteps, DirectionEdge, Alternates, LastLevel;
    ModeKeyFirst();
    ModeStep(p, sample);
    Split(p, sample);
    var m := KeyStep(KeySteps(p, FRONT, sample), 10, 10 in sample);
    ButtonSteps(m, BEHIND, sample, 0);
    ButtonSteps(m, BEHIND, sample, 1);
    ButtonSteps(m, BEHIND, sample, 2);
  }

  lemma Split(p: Pad, sample: set<int>)
    requires |p.sources| == 3
    ensures var m := KeyStep(KeySteps(p, FRONT, sample), 10, 10 in sample);
            && |m.sources| == 3
            && KeySteps(p, KEYS, sample) == KeySteps(m, BEHIND, sample)
            && (DirectionEdge(p, KEYS, sample) <==>
                  DirectionEdge(p, FRONT + [10], sample) || DirectionEdge(m, BEHIND, sample))
            && (DirectionEdge(p, FRONT + [10], sample) <==>
                  DirectionEdge(p, FRONT, sample) || DirectionEdge(KeySteps(p, FRONT, sample), [10], sample))
  {
    hide FRONT, BEHIND, KeyStep;
    StepsAppend(p, FRONT, [10], sample);
    StepsAppend(p, FRONT + [10], BEHIND, sample);
    var f := KeySteps(p, FRONT, sample);
    KeyStepHeld(f, 10, 10 in sample);
    assert KeySteps(f, [10], sample) == KeySteps(KeyStep(f, 10, 10 in sample), [10][1..], sample);
  }

  /** And the same keys are typed exactly out of mouse mode: an edge is reported, Enter tapped once
      for a press or for a release whose press was not seen; in mouse mode none of them is down. */
  lemma ScanTypesKeys(p: Pad, sample: set<int>)
    requires Inv(p)
    ensures var q, mouse := KeySteps(p, KEYS, sample), p.mouse != (10 in sample && 10 !in p.held);
            && (forall k :: k in {64, 75, 77, 86, 87, 88} ==>
                  (k in q.pressed <==> !mouse && if Changes(p, sample, k) then k in sample else k in p.pressed))
            && q.enterSeen == (if !mouse && Changes(p, sample, 76) then 76 in sample else p.enterSeen)
            && q.taps == p.taps
                 + if !mouse && Changes(p, sample, 76) && (76 in sample || !p.enterSeen) then 1 else 0
  {
    hide KEYS, FRONT, BEHIND, KeySteps, DirectionEdge, Alternates, LastLevel;
    ModeKeyFirst();
    ModeStep(p, sample);
    Split(p, sample);
    var m := KeyStep(KeySteps(p, FRONT, sample), 10, 10 in sample);
    EnterSteps(m, BEHIND, sample);
    forall k | k in {64, 75, 77, 86, 87, 88} ensures k in KeySteps(m, BEHIND, sample).pressed
      <==> if !m.mouse && Changes(m, sample, k) then k in sample else k in m.pressed
    {
      TypedSteps(m, BEHIND, sample, k);
    }
  }

  /** A press of a direction key in mouse mode, and nothing else, is an edge that moves the pointer. */
  lemma ScanEdgeIff(p: Pad, sample: set<int>)
    requires Inv(p)
    ensures DirectionEdge(p, KEYS, sample) <==>
            && p.mouse != (10 in sample && 10 !in p.held)
            && exists k :: k in {77, 86, 87, 88} && k in sample && k !in p.held
  {
    hide KEYS, FRONT, BEHIND, KeySteps, Alternates, LastLevel;
    ModeKeyFirst();
    ModeStep(p, sample);
    Split(p, sample);
    EdgeSteps(p, FRONT, sample);
    var m := KeyStep(KeySteps(p, FRONT, sample), 10, 10 in sample);
    EdgeSteps(m, BEHIND, sample);
  }

  // ----- where the pointer goes

  /** The move a scan reports: right and down are positive, four steps, opposite keys cancel, at an
      edge and after every 16384 scans in a row with a direction held in mouse mode. */
  lemma MotionIs(p: Pad, sample: set<int>, edge: bool)
    ensures var q := MouseMotion(p, sample, edge);
            var dx := (if 88 in sample then 4 else 0) - (if 87 in sample then 4 else 0);
            var dy := (if 86 in sample then 4 else 0) - (if 77 in sample then 4 else 0);
            var held := 77 in sample || 86 in sample || 87 in sample || 88 in sample;
            && q.log == p.log + (if p.mouse && held && (edge || p.repeats >= 16383) && (dx != 0 || dy != 0)
                                 then [Move(dx, dy)] else [])
            && q.repeats == (if p.mouse && held && !edge && p.repeats < 16383 then p.repeats + 1 else 0)
            && q == p.(log := q.log, repeats := q.repeats)
  {
    assert sample * {77, 86, 87, 88} == {} <==> 77 !in sample && 86 !in sample && 87 !in sample && 88 !in sample by {
      if sample * {77, 86, 87, 88} == {} {
        forall k | k in {77, 86, 87, 88} ensures k !in sample {
          assert k !in sample * {77, 86, 87, 88};
        }
      }
    }
  }

  /** A whole scan, from any state that a run reaches: buttons and keys as above, whatever the touch
      pad does meanwhile. */
  lemma ScanFollowsKeys(p: Pad, sample: set<int>, r: Reading, cal: Calibration)
    requires Inv(p) && cal.Sane()
    ensures var q, mouse := Scan(p, sample, r, cal), p.mouse != (10 in sample && 10 !in p.held);
            && Inv(q) && q.mouse == mouse
            && q.sources[0].keypad == (mouse && if Changes(p, sample, 76) then 76 in sample else p.sources[0].keypad)
            && q.sources[1].keypad == (mouse && if Changes(p, sample, 64) then 64 in sample else p.sources[1].keypad)
            && q.sources[2].keypad == (mouse && if Changes(p, sample, 75) then 75 in sample else p.sources[2].keypad)
  {
    hide KEYS, KeySteps, DirectionEdge, PointerInv, KeypadInv, TouchInv, MouseMotion, TouchTurn;
    ScanKeeps(p, sample, r, cal);
    ScanHoldsButtons(p, sample);
    var q := KeySteps(p, KEYS, sample);
    var e := DirectionEdge(p, KEYS, sample);
    MotionIs(q, sample, e);
    TouchKeepsKeypad(MouseMotion(q, sample, e), r, cal);
  }

  /** The keypad's side of the state, and the log only longer. */
  predicate SameKeypad(p: Pad, q: Pad)
    requires |p.sources| == 3
  {
    && |q.sources| == 3 && q.mouse == p.mouse && p.log <= q.log
    && q.held == p.held && q.pressed == p.pressed && q.taps == p.taps && q.enterSeen == p.enterSeen
    && q.sources[0].keypad == p.sources[0].keypad
    && q.sources[1].keypad == p.sources[1].keypad
    && q.sources[2].keypad == p.sources[2].keypad
  }

  lemma TouchButtonKeeps(p: Pad, b: nat, down: bool)
    requires |p.sources| == 3 && b < 3
    ensures SameKeypad(p, SetButton(p, b, true, down)) && SetButton(p, b, true, down).touch == p.touch
  {
  }

  lemma ReleaseKeepsKeypad(p: Pad)
    requires |p.sources| == 3
    ensures SameKeypad(p, ReleaseActive(p))
  {
    hide SetButton;
    if TouchButton(p.touch.active) >= 0 {
      TouchButtonKeeps(p, TouchButton(p.touch.active), false);
    }
  }

  lemma ActivateKeepsKeypad(p: Pad, z: Zone)
    requires |p.sources| == 3
    ensures SameKeypad(p, Activate(p, z))
  {
    hide SetButton;
    if TouchButton(z) >= 0 {
      TouchButtonKeeps(p, TouchButton(z), true);
    }
  }

  lemma TouchKeepsKeypad(p: Pad, r: Reading, cal: Calibration)
    requires |p.sources| == 3 && cal.Sane()
    ensures SameKeypad(p, TouchTurn(p, r, cal))
  {
    hide ZoneOf, Confirms, ReleaseActive, Activate, TouchMotion;
    var q := p.(touch := p.touch.(polls := 0));
    LostKeepsKeypad(q, r);
    LatchedKeepsKeypad(q);
    if r.Contact? {
      FreeKeepsKeypad(q, ZoneOf(cal, r.x, r.y), r.x, r.y);
    }
    hide PollLost, PollLatched, PollFree;
  }

  lemma LostKeepsKeypad(p: Pad, r: Reading)
    requires |p.sources| == 3
    ensures SameKeypad(p, PollLost(p, r))
  {
    hide ReleaseActive;
    var t := p.touch;
    var lost := t.(available := t.available && !r.TimedOut?, candidate := NoZone, samples := 0);
    ReleaseKeepsKeypad(p.(touch := lost.(release := 0)));
  }

  lemma LatchedKeepsKeypad(p: Pad)
    requires |p.sources| == 3
    ensures SameKeypad(p, PollLatched(p))
  {
  }

  lemma FreeKeepsKeypad(p: Pad, z: Zone, x: int, y: int)
    requires |p.sources| == 3
    ensures SameKeypad(p, PollFree(p, z, x, y))
  {
    hide Activate, Confirms;
    var n := if Confirms(p.touch, z, x, y) then p.touch.samples + 1 else 1;
    var seen := p.touch.(release := 0, candidate := z, samples := n, x := x, y := y);
    ActivateKeepsKeypad(p.(touch := seen.(active := z, candidate := NoZone, samples := 0, repeats := 0)), z);
  }

  /** In mouse mode, with no key held: Enter pressed reports the left button down, and let go again
      reports it up, unless the touch pad holds it. */
  lemma EnterClicks(p: Pad, first: Reading, second: Reading, cal: Calibration)
    requires Inv(p) && cal.Sane() && p.mouse && p.held == {}
    ensures var q := Scan(p, {76}, first, cal);
            && |q.sources| == 3 && LastLevel(q.log, 0)
            && var r := Scan(q, {}, second, cal); |r.sources| == 3 && LastLevel(r.log, 0) == r.sources[0].touch
  {
    hide Scan, Alternates, LastLevel;
    ScanFollowsKeys(p, {76}, first, cal);
    var q := Scan(p, {76}, first, cal);
    ScanHeld(p, {76}, first, cal);
    ScanFollowsKeys(q, {}, second, cal);
  }

  /** After a scan exactly the examined keys of the sample are held. */
  lemma ScanHeld(p: Pad, sample: set<int>, r: Reading, cal: Calibration)
    requires Inv(p) && cal.Sane()
    ensures Scan(p, sample, r, cal).held == p.held - SetOf(KEYS) + SetOf(KEYS) * sample
    ensures 76 in SetOf(KEYS) && 10 in SetOf(KEYS)
  {
    hide KeySteps, DirectionEdge, KEYS, MouseMotion, TouchTurn, PointerInv, KeypadInv, TouchInv;
    HeldFollowsSample(p, KEYS, sample);
    KeyStepsKeep(p, KEYS, sample);
    var q := KeySteps(p, KEYS, sample);
    var e := DirectionEdge(p, KEYS, sample);
    MotionIs(q, sample, e);
    TouchKeepsKeypad(MouseMotion(q, sample, e), r, cal);
    EnterExamined();
  }

  lemma EnterExamined()
    ensures 76 in SetOf(KEYS) && 10 in SetOf(KEYS)
  {
    assert KEYS[14] == 76 && KEYS[10] == 10;
  }

  // ----- the touch pad, by number

  /** A coordinate lies below c exactly if the raw value scaled by the calibration does. */
  lemma CoordinateBelow(raw: int, origin: int, span: int, limit: nat, c: nat)
    requires span > 0 && 0 < c < limit
    ensures Coordinate(raw, origin, span, limit) < c <==> (raw - origin) * 256 < c * span
  {
    var n := (raw - origin) * 256;
    if n >= 0 {
      QuotientBelow(n, span, c);
    } else {
      QuotientBelow(-n, span, c);
      assert c * span > 0;
    }
  }

  lemma QuotientBelow(n: nat, d: nat, c: nat)
    requires d > 0
    ensures n / d < c <==> n < c * d
  {
    var q, r := n / d, n % d;
    assert n == q * d + r;
    if q < c {
      assert (q + 1) * d <= c * d;
    } else {
      assert c * d <= q * d;
    }
  }

  /** The zones: the panel is 240 by 96, cut in thirds across and in halves down. */
  lemma ZoneIs(cal: Calibration, x: int, y: int)
    requires cal.Sane()
    ensures var upper := (y - cal.yOrigin) * 256 < 48 * cal.ySpan;
            var first := (x - cal.xOrigin) * 256 < 80 * cal.xSpan;
            var second := (x - cal.xOrigin) * 256 < 160 * cal.xSpan;
            && (ZoneOf(cal, x, y) == ZoneLeft <==> upper && first)
            && (ZoneOf(cal, x, y) == ZoneUp <==> upper && !first && second)
            && (ZoneOf(cal, x, y) == ZoneRight <==> upper && !first && !second)
            && (ZoneOf(cal, x, y) == ZoneButtonLeft <==> !upper && first)
            && (ZoneOf(cal, x, y) == ZoneDown <==> !upper && !first && second)
            && (ZoneOf(cal, x, y) == ZoneButtonRight <==> !upper && !first && !second)
  {
    hide Coordinate;
    CoordinateBelow(y, cal.yOrigin, cal.ySpan, 96, 48);
    CoordinateBelow(x, cal.xOrigin, cal.xSpan, 240, 80);
    CoordinateBelow(x, cal.xOrigin, cal.xSpan, 240, 160);
    assert 80 * cal.xSpan < 160 * cal.xSpan;
  }

  /** The move that a direction zone stands for: six steps, right and down positive. */
  function ZoneMove(z: Zone): seq<Event> {
    match z
    case ZoneLeft => [Move(-6, 0)]
    case ZoneRight => [Move(6, 0)]
    case ZoneUp => [Move(0, -6)]
    case ZoneDown => [Move(0, 6)]
    case _ => []
  }

  /** What a poll reports: the second of two readings that agree moves the pointer or presses the
      button of the zone; while the zone is held, every third reading moves it again. */
  lemma PollReports(p: Pad, r: Reading, cal: Calibration)
    requires Inv(p) && cal.Sane() && p.touch.available && r.Contact?
    ensures var q, z := Poll(p, r, cal), ZoneOf(cal, r.x, r.y);
            var second := p.touch.samples == 1 && z == p.touch.candidate
                          && -96 <= r.x - p.touch.x <= 96 && -96 <= r.y - p.touch.y <= 96;
            && |q.sources| == 3 && q.touch.release == 0
            && (p.touch.active == NoZone ==>
                  && q.touch.active == (if second then z else NoZone)
                  && (second && z != ZoneButtonLeft && z != ZoneButtonRight ==> q.log == p.log + ZoneMove(z))
                  && (!second ==> q.log == p.log && q.touch.candidate == z && q.touch.samples == 1
                                  && q.touch.x == r.x && q.touch.y == r.y))
            && (p.touch.active != NoZone && p.touch.active != ZoneButtonLeft && p.touch.active != ZoneButtonRight ==>
                  && q.log == p.log + (if p.touch.repeats == 2 then ZoneMove(p.touch.active) else [])
                  && q.touch.repeats == (p.touch.repeats + 1) % 3)
  {
    hide ZoneOf, PointerInv, KeypadInv;
  }

  /** A poll without contact: after the second in a row the zone is given up, and nothing else. */
  lemma PollLoses(p: Pad, r: Reading, cal: Calibration)
    requires Inv(p) && cal.Sane() && (!p.touch.available || !r.Contact?)
    ensures var q := Poll(p, r, cal);
            && |q.sources| == 3
            && q.touch.available == (p.touch.available && r != TimedOut)
            && q.touch.candidate == NoZone && q.touch.samples == 0
            && (p.touch.active == NoZone ==> q.log == p.log)
            && (p.touch.active != NoZone && p.touch.release == 0 ==> q.touch.release == 1 && q.log == p.log)
            && (p.touch.active != NoZone && p.touch.release == 1 ==> q.touch.active == NoZone && q.touch.release == 0)
            && q.touch.enabled == p.touch.enabled
  {
    hide PointerInv, KeypadInv;
  }

  /** The enabled pad is polled at every 4096th scan. */
  lemma PolledWhen(p: Pad, r: Reading, cal: Calibration)
    requires |p.sources| == 3 && cal.Sane()
    ensures !p.touch.enabled ==> TouchTurn(p, r, cal) == p.(touch := p.touch.(polls := 0))
    ensures p.touch.enabled && p.touch.polls < 4095 ==>
              TouchTurn(p, r, cal) == p.(touch := p.touch.(polls := p.touch.polls + 1))
    ensures p.touch.enabled && p.touch.polls >= 4095 ==>
              TouchTurn(p, r, cal) == Poll(p.(touch := p.touch.(polls := 0)), r, cal)
  {
    hide Poll;
  }

  /** A mode request, by number: negative ones are zero, and bit one of the three low bits asks for
      the touch pad. Only a change does something. A pad that is wanted is prepared once, and enabled
      if it is available; one that is not wanted any more is switched off and lets its button go. */
  lemma ServiceIs(p: Pad, requested: int, ready: bool)
    requires Inv(p)
    ensures var q, mode := Service(p, requested, ready), if requested < 0 then 0 else requested % 8;
            var wanted := mode in {2, 3, 6, 7};
            && (mode == p.touch.applied ==> q == p)
            && (mode != p.touch.applied ==>
                  && q.touch.applied == mode && |q.sources| == 3
                  && q.touch.enabled == (if wanted then p.touch.available && (p.touch.prepared || ready) else false)
                  && q.touch.prepared == (p.touch.prepared || wanted)
                  && q.touch.available == (p.touch.available && (!wanted || p.touch.prepared || ready))
                  && (!wanted && p.touch.enabled ==>
                        && q.touch.active == NoZone && !q.sources[0].touch && !q.sources[2].touch
                        && q.touch.polls == 0 && q.touch.candidate == NoZone && q.touch.samples == 0)
                  && (wanted || !p.touch.enabled ==> q.touch.active == p.touch.active && q.log == p.log))
  {
    hide PointerInv, KeypadInv, Withdraw;
    var mode := Mode(requested);
    ModeIs(requested);
    WithdrawIs(p);
    ServiceKeeps(p, requested, ready);
  }

  lemma ModeIs(requested: int)
    ensures Mode(requested) == if requested < 0 then 0 else requested % 8
    ensures WantsTouch(Mode(requested)) <==> Mode(requested) in {2, 3, 6, 7}
  {
  }

  lemma WithdrawIs(p: Pad)
    requires |p.sources| == 3
    ensures var q := Withdraw(p);
            && |q.sources| == 3 && !q.touch.enabled && q.touch.active == NoZone
            && q.touch.polls == 0 && q.touch.candidate == NoZone && q.touch.samples == 0
            && q.touch.prepared == p.touch.prepared && q.touch.available == p.touch.available
  {
    hide SetButton;
    if TouchButton(p.touch.active) >= 0 {
      SetButtonChanges(p.(touch := p.touch.(enabled := false)), TouchButton(p.touch.active), true, false);
    }
  }
}
