/** A run of exword-keypad.c from the primed scanner to a touch button that is stuck. */
module KeypadStuck {
  import opened Keypad

  function Times(t: Turn, n: nat): (turns: seq<Turn>)
    ensures |turns| == n
  {
    if n == 0 then [] else [t] + Times(t, n - 1)
  }

  lemma {:induction false} RunAppend(p: Pad, a: seq<Turn>, b: seq<Turn>, cal: Calibration)
    requires Inv(p) && cal.Sane()
    ensures Inv(Run(p, a, cal)) && Run(p, a + b, cal) == Run(Run(p, a, cal), b, cal)
    decreases |a|
  {
    hide PointerInv, KeypadInv, TouchInv, Step;
    if a == [] {
      assert a + b == b;
    } else {
      StepKeeps(p, a[0], cal);
      RunAppend(Step(p, a[0], cal), a[1..], b, cal);
      assert (a + b)[1..] == a[1..] + b;
    }
  }

  lemma {:induction false} HeldKeysRest(p: Pad, keys: seq<int>)
    requires |p.sources| == 3
    ensures KeySteps(p, keys, p.held) == p
    decreases |keys|
  {
    if keys != [] {
      HeldKeysRest(p, keys[1..]);
    }
  }

  /** The scanner is in keyboard mode and the touch pad is polled. */
  predicate Polled(p: Pad) { !p.mouse && p.repeats == 0 && p.touch.enabled }

  /** Scanning the keys that are held already changes the count of scans only, up to the scan that
      polls the touch pad. */
  lemma HeldScan(p: Pad, r: Reading, cal: Calibration)
    requires |p.sources| == 3 && cal.Sane() && Polled(p)
    ensures Scan(p, p.held, r, cal) ==
      if p.touch.polls + 1 < TOUCH_POLL_SCANS then p.(touch := p.touch.(polls := p.touch.polls + 1))
      else Poll(p.(touch := p.touch.(polls := 0)), r, cal)
  {
    hide KEYS, KeySteps, DirectionEdge, Poll;
    HeldKeysRest(p, KEYS);
  }

  /** As many such scans as are missing poll the touch pad once. */
  lemma {:induction false} ScansPoll(p: Pad, r: Reading, cal: Calibration, n: nat)
    requires Inv(p) && cal.Sane() && Polled(p) && n > 0 && p.touch.polls + n == TOUCH_POLL_SCANS
    ensures |p.sources| == 3
    ensures Run(p, Times(ScanTurn(p.held, r), n), cal) == Poll(p.(touch := p.touch.(polls := 0)), r, cal)
    decreases n
  {
    hide PointerInv, KeypadInv, TouchInv, Poll, Scan;
    var t := ScanTurn(p.held, r);
    HeldScan(p, r, cal);
    StepKeeps(p, t, cal);
    assert Times(t, n)[1..] == Times(t, n - 1);
    if n == 1 {
      assert Times(t, 0) == [];
    } else {
      ScansPoll(Step(p, t, cal), r, cal, n - 1);
    }
  }

  /** The primed scanner after a request for touch. */
  function Asked(held: set<int>): Pad {
    Primed(held, true).(touch := Touch(true, true, true, 0, NoZone, 0, 0, 0, NoZone, 0, 0, 2))
  }

  /** And after the second of two agreeing contacts in the left button zone. */
  function Touched(held: set<int>, x: int, y: int): Pad {
    var up := Sources(false, false);
    Asked(held).(sources := [Sources(false, true), up, up], log := [Button(0, true)],
                 touch := Touch(true, true, true, 0, NoZone, x, y, 0, ZoneButtonLeft, 0, 0, 2))
  }

  lemma AskForTouch(held: set<int>)
    ensures Service(Primed(held, true), 2, true) == Asked(held) && Inv(Asked(held)) && Polled(Asked(held))
  {
    PrimedIsFine(held, true);
    ServiceKeeps(Primed(held, true), 2, true);
  }

  lemma TwoContacts(held: set<int>, x: int, y: int, cal: Calibration)
    requires cal.Sane() && ZoneOf(cal, x, y) == ZoneButtonLeft
    ensures var once := Poll(Asked(held), Contact(x, y), cal);
            && |once.sources| == 3 && once.held == held && once.touch.polls == 0 && Polled(once)
            && Poll(once, Contact(x, y), cal) == Touched(held, x, y)
  {
    hide ZoneOf;
    assert [Button(0, true)] == [] + [Button(0, true)];
  }

  lemma TimeoutThenRequest(held: set<int>, x: int, y: int, cal: Calibration)
    requires cal.Sane()
    ensures var off := Poll(Touched(held, x, y), TimedOut, cal); |off.sources| == 3 && Stuck(Service(off, 3, true))
  {
  }

  /** The run: touch is asked for, two polls in a row find the left button zone touched, a poll
      times out, and another mode with touch is asked for. */
  function StickingRun(held: set<int>, x: int, y: int): seq<Turn> {
    var contacts := Times(ScanTurn(held, Contact(x, y)), TOUCH_POLL_SCANS);
    [ServiceTurn(2, true)] + contacts + contacts
    + Times(ScanTurn(held, TimedOut), TOUCH_POLL_SCANS) + [ServiceTurn(3, true)]
  }

  /** From the primed scanner, whatever keys are held, that run ends with the left button stuck. */
  lemma ButtonSticks(held: set<int>, x: int, y: int, cal: Calibration)
    requires cal.Sane() && ZoneOf(cal, x, y) == ZoneButtonLeft
    ensures Inv(Primed(held, true)) && Stuck(Run(Primed(held, true), StickingRun(held, x, y), cal))
  {
    hide Inv, Step, Poll, Service, Times, Stuck, Primed, Asked, Touched;
    var p0, contact, n := Primed(held, true), ScanTurn(held, Contact(x, y)), TOUCH_POLL_SCANS;
    var first, last := [ServiceTurn(2, true)], [ServiceTurn(3, true)];
    var contacts, lost := Times(contact, n), Times(ScanTurn(held, TimedOut), n);
    PrimedIsFine(held, true);
    RunAppend(p0, first + contacts + contacts + lost, last, cal);
    RunAppend(p0, first + contacts + contacts, lost, cal);
    RunAppend(p0, first + contacts, contacts, cal);
    RunAppend(p0, first, contacts, cal);
    AskForTouch(held);
    OneTurn(p0, first[0], cal);
    TouchFields(held, x, y);
    TwoContacts(held, x, y, cal);
    ScansPoll(Asked(held), Contact(x, y), cal, n);
    ScansPoll(Poll(Asked(held), Contact(x, y), cal), Contact(x, y), cal, n);
    ScansPoll(Touched(held, x, y), TimedOut, cal, n);
    TimeoutThenRequest(held, x, y, cal);
    OneTurn(Poll(Touched(held, x, y), TimedOut, cal), last[0], cal);
  }

  lemma OneTurn(p: Pad, t: Turn, cal: Calibration)
    requires Inv(p) && cal.Sane()
    ensures |p.sources| == 3 && Run(p, [t], cal) == Step(p, t, cal)
    ensures t.ServiceTurn? ==> Run(p, [t], cal) == Service(p, t.requested, t.ready)
  {
    hide PointerInv, KeypadInv, TouchInv, Scan, Service;
    StepKeeps(p, t, cal);
    assert [t][1..] == [];
  }

  lemma TouchFields(held: set<int>, x: int, y: int)
    ensures var p, q := Asked(held), Touched(held, x, y);
            && p.held == q.held == held && Polled(p) && Polled(q) && p.touch.polls == q.touch.polls == 0
            && p == p.(touch := p.touch.(polls := 0)) && q == q.(touch := q.touch.(polls := 0))
  {
  }

  /** There is such a contact. */
  lemma LeftZoneExists()
    ensures var cal := Calibration(0, 0, 256, 256); cal.Sane() && ZoneOf(cal, 0, 50) == ZoneButtonLeft
  {
  }
}
