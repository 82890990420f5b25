/** The key loops of the loader's main: when the payload is loaded, and when it is executed. */
module LoaderKeys {
  import Loader

  /** One reading of the keypad: the keys held, and the keys newly pressed. */
  datatype Keys = Keys(
    power: bool, back: bool, enter: bool, powerPressed: bool, backPressed: bool, enterPressed: bool) {
    predicate NoneHeld() { !power && !back && !enter }
  }

  /** The first loop, before the payload is read; the menu with the verdict of the load; the end. */
  datatype Phase = Greeting(released: bool) | Menu(status: Loader.Status, armed: bool) | Over

  /** Where the loader stands, and how often it has loaded and executed the payload. */
  datatype State = State(phase: Phase, loads: nat, executions: nat)

  const START: State := State(Greeting(false), 0, 0)

  /** One round of either loop; status is what the load finds if this round loads. */
  function Round(s: State, k: Keys, status: Loader.Status): State {
    match s.phase
    case Over => s
    case Greeting(was) =>
      var released := was || k.NoneHeld();
      if released && k.enterPressed then State(Menu(status, false), s.loads + 1, s.executions)
      else if released && (k.powerPressed || k.backPressed) then s.(phase := Over)
      else s.(phase := Greeting(released))
    case Menu(st, armed) =>
      if k.power || k.back then s.(phase := Over)
      else if st == Loader.Ok && k.enterPressed then
        if !armed then s.(phase := Menu(st, true)) else State(Menu(st, false), s.loads, s.executions + 1)
      else s
  }

  function Run(rounds: seq<Keys>, status: Loader.Status): State {
    if rounds == [] then START
    else Round(Run(rounds[..|rounds| - 1], status), rounds[|rounds| - 1], status)
  }

  /** The round in which the payload is loaded: the first with a press of Enter at or after a round
      that found all three keys up, unless Power or Back was pressed before it. */
  ghost predicate Loads(rounds: seq<Keys>, at: nat) {
    && at < |rounds| && rounds[at].enterPressed
    && (exists k :: 0 <= k <= at && rounds[k].NoneHeld())
    && Calm(rounds[..at])
  }

  /** No press of Enter, Power or Back at or after a round that found all three keys up. */
  ghost predicate Calm(rounds: seq<Keys>) {
    forall j, k :: 0 <= k <= j < |rounds| && rounds[k].NoneHeld() ==>
      !rounds[j].enterPressed && !rounds[j].powerPressed && !rounds[j].backPressed
  }

  ghost predicate SomeReleased(rounds: seq<Keys>) { exists k :: 0 <= k < |rounds| && rounds[k].NoneHeld() }

  /** The presses of Enter after round at that no press of Power or Back has come before. */
  function Presses(rounds: seq<Keys>, at: nat): nat
    requires at < |rounds|
  {
    if at == |rounds| - 1 then 0
    else
      var n := |rounds| - 1;
      Presses(rounds[..n], at)
      + (if Undisturbed(rounds, at) && rounds[n].enterPressed then 1 else 0)
  }

  predicate Undisturbed(rounds: seq<Keys>, at: nat)
    requires at < |rounds|
  {
    forall j :: at < j < |rounds| ==> !rounds[j].power && !rounds[j].back
  }

  lemma ReleasedAppend(front: seq<Keys>, k: Keys)
    ensures SomeReleased(front + [k]) <==> SomeReleased(front) || k.NoneHeld()
    ensures Calm(front + [k]) <==>
            Calm(front) && (SomeReleased(front + [k]) ==> !k.enterPressed && !k.powerPressed && !k.backPressed)
  {
    var rounds := front + [k];
    assert forall i :: 0 <= i < |front| ==> rounds[i] == front[i];
    assert rounds[|front|] == k;
  }

  /** The first loop goes on exactly while the rounds are calm. */
  lemma {:induction false} GreetsIffCalm(rounds: seq<Keys>, status: Loader.Status)
    ensures Run(rounds, status).phase.Greeting? <==> Calm(rounds)
    ensures Calm(rounds) ==> Run(rounds, status) == State(Greeting(SomeReleased(rounds)), 0, 0)
    decreases |rounds|
  {
    hide Calm, SomeReleased;
    if rounds == [] {
      NoRounds();
    } else {
      var n := |rounds| - 1;
      GreetsIffCalm(rounds[..n], status);
      ReleasedAppend(rounds[..n], rounds[n]);
      assert rounds == rounds[..n] + [rounds[n]];
    }
  }

  lemma NoRounds()
    ensures Calm([]) && !SomeReleased([])
  {
  }

  /** After loading, the payload has been executed once for every second press of Enter, provided
      the load succeeded, and it stands armed after an odd number of them. */
  lemma {:induction false} EverySecondPress(rounds: seq<Keys>, at: nat, status: Loader.Status)
    requires Loads(rounds, at)
    ensures var s, p := Run(rounds, status), Presses(rounds, at);
            && s.loads == 1 && s.executions == (if status == Loader.Ok then p / 2 else 0)
            && (if Undisturbed(rounds, at)
                then s.phase == Menu(status, status == Loader.Ok && p % 2 == 1)
                else s.phase == Over)
    decreases |rounds|
  {
    var n := |rounds| - 1;
    var front := rounds[..n];
    if at == n {
      GreetsIffCalm(front, status);
      LoadingRoundReleased(rounds, at);
    } else {
      assert front[..at] == rounds[..at];
      assert forall k :: 0 <= k < n ==> front[k] == rounds[k];
      EverySecondPress(front, at, status);
      assert Undisturbed(rounds, at) <==> Undisturbed(front, at) && !rounds[n].power && !rounds[n].back;
    }
  }

  lemma LoadingRoundReleased(rounds: seq<Keys>, at: nat)
    requires Loads(rounds, at)
    ensures SomeReleased(rounds[..at]) || rounds[at].NoneHeld()
  {
    var k :| 0 <= k <= at && rounds[k].NoneHeld();
    assert k < at ==> rounds[..at][k] == rounds[k];
  }

  /** Without a loading round the payload is never read and never executed. */
  lemma {:induction false} NoLoadNoExecution(rounds: seq<Keys>, status: Loader.Status)
    requires forall at: nat :: !Loads(rounds, at)
    ensures Run(rounds, status).loads == 0 && Run(rounds, status).executions == 0 && !Run(rounds, status).phase.Menu?
    decreases |rounds|
  {
    if rounds != [] {
      var n := |rounds| - 1;
      var front := rounds[..n];
      forall at: nat ensures Loads(front, at) ==> Loads(rounds, at) {
        LoadsEarlier(rounds, at);
      }
      NoLoadNoExecution(front, status);
      GreetsIffCalm(front, status);
      LastRoundLoads(rounds);
    }
  }

  lemma LoadsEarlier(rounds: seq<Keys>, at: nat)
    requires rounds != []
    ensures Loads(rounds[..|rounds| - 1], at) ==> Loads(rounds, at)
  {
    var front := rounds[..|rounds| - 1];
    if Loads(front, at) {
      assert front[..at] == rounds[..at];
      var k :| 0 <= k <= at && front[k].NoneHeld();
      assert rounds[k].NoneHeld();
    }
  }

  lemma LastRoundLoads(rounds: seq<Keys>)
    requires rounds != []
    ensures var n := |rounds| - 1;
            Calm(rounds[..n]) && (SomeReleased(rounds[..n]) || rounds[n].NoneHeld()) && rounds[n].enterPressed ==>
              Loads(rounds, n)
  {
    var n := |rounds| - 1;
    if SomeReleased(rounds[..n]) {
      var k :| 0 <= k < n && rounds[..n][k].NoneHeld();
      assert rounds[k].NoneHeld();
    }
  }

  // ----- the loops in place

  lemma RunStep(rounds: seq<Keys>, i: nat, status: Loader.Status)
    requires i < |rounds|
    ensures Run(rounds[..i + 1], status) == Round(Run(rounds[..i], status), rounds[i], status)
  {
    assert rounds[..i + 1][..i] == rounds[..i];
  }

  lemma {:induction false} OverStaysOver(rounds: seq<Keys>, i: nat, status: Loader.Status)
    requires i <= |rounds| && Run(rounds[..i], status).phase == Over
    ensures Run(rounds, status) == Run(rounds[..i], status)
    decreases |rounds| - i
  {
    if i < |rounds| {
      RunStep(rounds, i, status);
      OverStaysOver(rounds, i + 1, status);
    } else {
      assert rounds[..i] == rounds;
    }
  }

  /** The two loops of main, for as many readings of the keypad as there are. */
  method KeyLoops(rounds: seq<Keys>, status: Loader.Status) returns (loads: nat, executions: nat, left: bool)
    ensures var s := Run(rounds, status); loads == s.loads && executions == s.executions && left == (s.phase == Over)
  {
    hide Run, Keys.NoneHeld;
    var controlsReleased, i := false, 0;
    loads, executions, left := 0, 0, false;
    assert rounds[..0] == [];
    EmptyRun(status);
    while i < |rounds| && loads == 0
      invariant i <= |rounds| && executions == 0 && loads <= 1
      invariant Run(rounds[..i], status)
                == if loads == 0 then State(Greeting(controlsReleased), 0, 0) else State(Menu(status, false), 1, 0)
      decreases |rounds| - i
    {
      RunStep(rounds, i, status);
      var k := rounds[i];
      i := i + 1;
      if k.NoneHeld() {
        controlsReleased := true;
      }
      if controlsReleased && k.enterPressed {
        loads := 1;
      } else if controlsReleased && (k.powerPressed || k.backPressed) {
        OverStaysOver(rounds, i, status);
        return 0, 0, true;
      }
    }
    if loads == 0 {
      assert rounds[..i] == rounds;
      return;
    }
    var armed := false;
    while i < |rounds|
      invariant i <= |rounds| && Run(rounds[..i], status) == State(Menu(status, armed), 1, executions)
      decreases |rounds| - i
    {
      RunStep(rounds, i, status);
      var k := rounds[i];
      i := i + 1;
      if k.power || k.back {
        OverStaysOver(rounds, i, status);
        return loads, executions, true;
      }
      if status == Loader.Ok && k.enterPressed {
        if !armed {
          armed := true;
        } else {
          executions := executions + 1;
          armed := false;
        }
      }
    }
    assert rounds[..i] == rounds;
  }

  lemma EmptyRun(status: Loader.Status)
    ensures Run([], status) == START
  {
  }
}
