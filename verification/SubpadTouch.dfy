/** The main loop of subpad-mouse.c: six zones, debounced and latched, turned into pointer events. */
module SubpadTouch {
  import opened Subpad

  const RAW_X_FIRST: nat := 349
  const RAW_X_SECOND: nat := 650
  const RAW_Y_SPLIT: nat := 522
  const MOVE_STEP: int := 6
  const MOVE_REPEAT_POLLS: nat := 3
  const DEBOUNCE_POLLS: nat := 2
  const RELEASE_POLLS: nat := 2
  const RAW_JITTER_LIMIT: nat := 96

  datatype Zone = NoZone | GoLeft | GoUp | GoRight | ButtonLeft | GoDown | ButtonRight

  /** sample_zone. */
  function SampleZone(s: Sample): (z: Zone)
    ensures z != NoZone
  {
    if s.y < RAW_Y_SPLIT then
      if s.x < RAW_X_FIRST then GoLeft else if s.x < RAW_X_SECOND then GoUp else GoRight
    else if s.x < RAW_X_FIRST then ButtonLeft
    else if s.x < RAW_X_SECOND then GoDown
    else ButtonRight
  }

  predicate Directs(z: Zone) { z == GoLeft || z == GoUp || z == GoRight || z == GoDown }

  datatype Event = Motion(dx: int, dy: int) | Press(button: nat) | Release(button: nat)

  /** emit_zone and release_zone. */
  function Emitted(z: Zone): seq<Event> {
    match z
    case GoLeft => [Motion(-MOVE_STEP, 0)]
    case GoUp => [Motion(0, -MOVE_STEP)]
    case GoRight => [Motion(MOVE_STEP, 0)]
    case GoDown => [Motion(0, MOVE_STEP)]
    case ButtonLeft => [Press(1)]
    case ButtonRight => [Press(3)]
    case NoZone => []
  }

  function Released(z: Zone): seq<Event> {
    if z == ButtonLeft then [Release(1)] else if z == ButtonRight then [Release(3)] else []
  }

  datatype Touch = Touch(
    candidate: Zone, active: Zone, candidatePolls: nat, releasePolls: nat, repeatPolls: nat, last: Sample)

  const START: Touch := Touch(NoZone, NoZone, 0, 0, 0, Sample(0, 0))

  /** What a poll finds: no touch that counts, or a sample. */
  datatype Input = Nothing | Touched(sample: Sample)

  predicate Near(s: Sample, t: Sample) {
    SmallAbs(s.x - t.x) <= RAW_JITTER_LIMIT && SmallAbs(s.y - t.y) <= RAW_JITTER_LIMIT
  }

  /** What becomes of a request: the server takes it, or the program sees it refused, and then it
      may have had its effect or not. */
  datatype Reply = Accepted | Refused(effective: bool)

  /** The events of a request that have an effect. */
  function Effect(events: seq<Event>, reply: Reply): seq<Event> {
    if reply == Refused(false) then [] else events
  }

  /** One turn of the loop: the state, the events that have an effect, and whether it goes on. A
      request that is refused ends it. */
  function Poll(t: Touch, input: Input, reply: Reply): (Touch, seq<Event>, bool) {
    match input
    case Nothing =>
      var u := t.(candidate := NoZone, candidatePolls := 0);
      if t.active == NoZone then (u, [], true)
      else if t.releasePolls + 1 < RELEASE_POLLS then (u.(releasePolls := t.releasePolls + 1), [], true)
      else if Released(t.active) != [] && reply != Accepted then
        (u.(releasePolls := t.releasePolls + 1), Effect(Released(t.active), reply), false)
      else (u.(active := NoZone, releasePolls := 0, repeatPolls := 0), Released(t.active), true)
    case Touched(s) =>
      var u := t.(releasePolls := 0);
      if t.active != NoZone then
        if !Directs(t.active) then (u, [], true)
        else if t.repeatPolls + 1 < MOVE_REPEAT_POLLS then (u.(repeatPolls := t.repeatPolls + 1), [], true)
        else (u.(repeatPolls := 0), Effect(Emitted(t.active), reply), reply == Accepted)
      else
        var z := SampleZone(s);
        var n := if z != t.candidate || !Near(s, t.last) then 1 else t.candidatePolls + 1;
        if n < DEBOUNCE_POLLS then (u.(candidate := z, candidatePolls := n, last := s), [], true)
        else (Touch(NoZone, z, 0, 0, 0, s), Effect(Emitted(z), reply), reply == Accepted)
  }

  // ----- what every poll keeps

  ghost predicate Inv(t: Touch) {
    && t.candidatePolls < DEBOUNCE_POLLS && t.releasePolls < RELEASE_POLLS && t.repeatPolls < MOVE_REPEAT_POLLS
    && (t.candidate == NoZone <==> t.candidatePolls == 0)
    && (t.candidate != NoZone ==> t.active == NoZone && t.candidate == SampleZone(t.last))
    && (t.active == NoZone ==> t.releasePolls == 0)
  }

  lemma PollKeeps(t: Touch, input: Input, reply: Reply)
    requires Inv(t)
    ensures Poll(t, input, reply).2 ==> Inv(Poll(t, input, reply).0)
  {
  }

  /** A zone becomes active exactly when two polls running touch it, close together. */
  lemma TwoPollsActivate(t: Touch, first: Input, second: Input, z: Zone)
    requires Inv(t) && t.active == NoZone && t.candidate == NoZone && z != NoZone
    ensures Poll(Poll(t, first, Accepted).0, second, Accepted).0.active == z
            <==> first.Touched? && second.Touched? && SampleZone(first.sample) == z == SampleZone(second.sample)
                 && Near(second.sample, first.sample)
  {
  }

  /** An active zone lets go exactly when two polls running find no touch. */
  lemma TwoPollsRelease(t: Touch, first: Input, second: Input)
    requires Inv(t) && t.active != NoZone && t.releasePolls == 0
    ensures Poll(t, first, Accepted).0.active == t.active
    ensures Poll(Poll(t, first, Accepted).0, second, Accepted).0.active == NoZone
            <==> first == Nothing && second == Nothing
  {
  }

  // ----- buttons

  function Buttons(z: Zone): set<nat> {
    if z == ButtonLeft then {1} else if z == ButtonRight then {3} else {}
  }

  function After(down: set<nat>, e: Event): set<nat> {
    match e
    case Press(b) => down + {b}
    case Release(b) => down - {b}
    case Motion(_, _) => down
  }

  /** The buttons that a sequence of events leaves down. */
  function Down(events: seq<Event>): set<nat> {
    if events == [] then {} else After(Down(events[..|events| - 1]), events[|events| - 1])
  }

  /** No button goes down while another, or it itself, is down. */
  ghost predicate OneAtATime(events: seq<Event>) {
    forall k :: 0 <= k < |events| && events[k].Press? ==> Down(events[..k]) == {}
  }

  function Run(t: Touch, polls: seq<(Input, Reply)>): (Touch, seq<Event>, bool)
    decreases |polls|
  {
    if polls == [] then (t, [], true)
    else
      var n := |polls| - 1;
      var (u, events, going) := Run(t, polls[..n]);
      if !going then (u, events, false)
      else
        var (v, more, on) := Poll(u, polls[n].0, polls[n].1);
        (v, events + more, on)
  }

  lemma DownAppend(events: seq<Event>, e: Event)
    ensures Down(events + [e]) == After(Down(events), e)
  {
    assert (events + [e])[..|events|] == events;
  }

  lemma OneAtATimeAppend(events: seq<Event>, e: Event)
    requires OneAtATime(events) && (e.Press? ==> Down(events) == {})
    ensures OneAtATime(events + [e])
  {
    var all := events + [e];
    forall k | 0 <= k < |all| && all[k].Press? ensures Down(all[..k]) == {} {
      assert all[..k] == events[..k];
      if k == |events| {
        assert events[..k] == events;
      }
    }
  }

  lemma PollButtons(t: Touch, input: Input, reply: Reply, events: seq<Event>)
    requires Inv(t) && Down(events) == Buttons(t.active) && OneAtATime(events)
    ensures var (u, more, on) := Poll(t, input, reply);
            && OneAtATime(events + more)
            && (on ==> Down(events + more) == Buttons(u.active))
            && Down(events + more) <= Buttons(u.active)
  {
    hide Down, OneAtATime, Near, SampleZone, SmallAbs;
    var (u, more, on) := Poll(t, input, reply);
    if more == [] {
      assert events + more == events;
    } else {
      assert |more| == 1 && more == [more[0]];
      DownAppend(events, more[0]);
      OneAtATimeAppend(events, more[0]);
    }
  }

  /** Over every run, while the loop goes on, exactly the button of the active zone is down. */
  lemma {:induction false} RunButtons(polls: seq<(Input, Reply)>)
    ensures var (t, events, going) := Run(START, polls);
            && OneAtATime(events) && Down(events) <= Buttons(t.active)
            && (going ==> Inv(t) && Down(events) == Buttons(t.active))
    decreases |polls|
  {
    hide Poll, OneAtATime;
    if polls == [] {
      NothingPressed();
    } else {
      var n := |polls| - 1;
      RunButtons(polls[..n]);
      var (u, events, going) := Run(START, polls[..n]);
      if going {
        PollKeeps(u, polls[n].0, polls[n].1);
        PollButtons(u, polls[n].0, polls[n].1, events);
      }
    }
  }

  lemma NothingPressed()
    ensures OneAtATime([]) && Inv(START)
  {
  }

  /** However the loop ends, refused requests included, its shutdown leaves no button down, unless
      the shutdown's own release is refused without effect; then what was down stays down. */
  lemma ShutdownReleases(polls: seq<(Input, Reply)>, last: Reply)
    ensures var (t, events, going) := Run(START, polls);
            var all := events + Effect(Released(t.active), last);
            && OneAtATime(all) && Down(all) == (if last == Refused(false) then Down(events) else {})
            && Down(events) <= Buttons(t.active) && (going ==> Down(events) == Buttons(t.active))
  {
    hide Run, OneAtATime, Down;
    RunButtons(polls);
    var (t, events, going) := Run(START, polls);
    var more := Effect(Released(t.active), last);
    if more == [] {
      assert events + more == events;
    } else {
      DownAppend(events, more[0]);
      OneAtATimeAppend(events, more[0]);
    }
  }

  /** That case is real: a touch of the left button zone, and a shutdown whose release is lost. */
  lemma LostReleaseSticks()
    ensures var touch := (Touched(Sample(0, 600)), Accepted);
            var (t, events, going) := Run(START, [touch, touch]);
            going && t.active == ButtonLeft && Down(events + Effect(Released(t.active), Refused(false))) == {1}
  {
    var touch := (Touched(Sample(0, 600)), Accepted);
    var once, twice, none: seq<Event> := [touch], [touch, touch], [];
    assert twice[..1] == once && once[..0] == twice[..0] && none + none == none;
    assert Run(START, once[..0]) == (START, none, true);
    var touched := START.(candidate := ButtonLeft, candidatePolls := 1, last := Sample(0, 600));
    assert Run(START, once) == (touched, none, true);
    RunButtons(twice);
    var events := Run(START, twice).1;
    assert events + none == events;
  }

  // ----- movement

  function Touches(s: seq<Sample>): seq<(Input, Reply)> {
    seq(|s|, i requires 0 <= i < |s| => (Touched(s[i]), Accepted))
  }

  /** A direction held for n polls moves the pointer once for every third of them. */
  lemma {:induction false} HoldMoves(t: Touch, samples: seq<Sample>)
    requires Directs(t.active) && t.repeatPolls == 0
    ensures var (u, events, going) := Run(t, Touches(samples));
            && going && u.active == t.active && u.repeatPolls == |samples| % MOVE_REPEAT_POLLS
            && |events| == |samples| / MOVE_REPEAT_POLLS
            && forall k :: 0 <= k < |events| ==> [events[k]] == Emitted(t.active)
    decreases |samples|
  {
    if samples != [] {
      var n := |samples| - 1;
      HoldMoves(t, samples[..n]);
      assert Touches(samples)[..n] == Touches(samples[..n]);
    }
  }

  /** What a place on the pad does, by number: touched in two polls running it moves the pointer by
      six, left and up being negative, or presses button 1 or 3, and letting go releases the button. */
  lemma PlaceDoes(s: Sample)
    ensures var (u, events, going) := Poll(Poll(START, Touched(s), Accepted).0, Touched(s), Accepted);
            && going
            && events == [if s.y < 522 then
                            if s.x < 349 then Motion(-6, 0) else if s.x < 650 then Motion(0, -6) else Motion(6, 0)
                          else if s.x < 349 then Press(1) else if s.x < 650 then Motion(0, 6) else Press(3)]
            && Poll(Poll(u, Nothing, Accepted).0, Nothing, Accepted).1
               == if s.y >= 522 && s.x < 349 then [Release(1)]
                  else if s.y >= 522 && s.x >= 650 then [Release(3)] else []
  {
  }

  /** Two samples are near if neither coordinate differs by more than 96. */
  lemma NearIs(s: Sample, t: Sample)
    ensures Near(s, t) <==> s.x <= t.x + 96 && t.x <= s.x + 96 && s.y <= t.y + 96 && t.y <= s.y + 96
  {
  }

  /** Zones lie side by side: the numbers at which one ends and the next begins. */
  lemma ZonesAre(s: Sample)
    ensures SampleZone(s) in {GoLeft, GoUp, GoRight} <==> s.y < 522
    ensures SampleZone(s) in {GoLeft, ButtonLeft} <==> s.x < 349
    ensures SampleZone(s) in {GoRight, ButtonRight} <==> s.x >= 650
  {
  }

  // ----- the loop in place

  class Pad {
    var candidate: Zone
    var active: Zone
    var candidatePolls: nat
    var releasePolls: nat
    var repeatPolls: nat
    var last: Sample
    var sent: seq<Event>

    ghost function View(): Touch
      reads this
    {
      Touch(candidate, active, candidatePolls, releasePolls, repeatPolls, last)
    }

    constructor ()
      ensures View() == START && sent == []
    {
      candidate, active, candidatePolls, releasePolls, repeatPolls, last := NoZone, NoZone, 0, 0, 0, Sample(0, 0);
      sent := [];
    }

    method Send(events: seq<Event>, reply: Reply) returns (ok: bool)
      modifies `sent
      ensures sent == old(sent) + if events == [] then [] else Effect(events, reply)
      ensures ok <==> events == [] || reply == Accepted
    {
      sent := sent + Effect(events, reply);
      ok := events == [] || reply == Accepted;
    }

    /** One turn of the loop in main. */
    method Turn(input: Input, reply: Reply) returns (on: bool)
      requires Inv(View())
      modifies this
      ensures var (t, events, going) := Poll(old(View()), input, reply);
              View() == t && sent == old(sent) + events && on == going
    {
      hide Near;
      if input == Nothing {
        candidate, candidatePolls := NoZone, 0;
        if active != NoZone {
          releasePolls := releasePolls + 1;
          if releasePolls >= RELEASE_POLLS {
            var ok := Send(Released(active), reply);
            if !ok {
              return false;
            }
            active, releasePolls, repeatPolls := NoZone, 0, 0;
          }
        }
        return true;
      }
      var current := input.sample;
      releasePolls := 0;
      var zone := SampleZone(current);
      if active != NoZone {
        on := true;
        if Directs(active) {
          repeatPolls := repeatPolls + 1;
          if repeatPolls >= MOVE_REPEAT_POLLS {
            repeatPolls := 0;
            on := Send(Emitted(active), reply);
          }
        }
        return;
      }
      if zone != candidate || !Near(current, last) {
        candidate, candidatePolls := zone, 1;
      } else {
        candidatePolls := candidatePolls + 1;
      }
      last := current;
      on := true;
      if candidatePolls >= DEBOUNCE_POLLS {
        active, candidate, candidatePolls, repeatPolls := zone, NoZone, 0, 0;
        on := Send(Emitted(active), reply);
      }
    }
  }
}
