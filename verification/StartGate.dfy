/** The launch gate of x11-start-gate.c as a protocol: the gate stops its parent, and one of three
    processes must let it go again. A step is one call, or a few in a row that no other process can
    tell apart; every outcome of a call and every interleaving is allowed. */
module StartGate {
  datatype Gate = Checking | Forking | Waiting | Executing | Serving | Left

  datatype Notifier = Unborn | Splitting | Leaving | Exited(clean: bool)

  datatype Waiter = NotYet | Opening | Reading | Resuming | Finished | Killed

  /** The pipe holds what the server has written: true stands for an end of line. */
  datatype State = State(
    gate: Gate, notifier: Notifier, waiter: Waiter, stopped: bool, resumes: nat, pipe: seq<bool>)

  const START: State := State(Checking, Unborn, NotYet, false, 0, [])

  datatype Step =
    | Refuse | Stop
    | ForkFails | ForkWorks
    | SplitFails | SplitWorks | NotifierLeaves
    | WaitFails | WaitReturns
    | ExecFails | ExecWorks
    | WaiterOpens | WaiterReads(count: nat) | WaiterFinds(end: bool) | WaiterResumes
    | ServerWrites(line: bool) | ServerExits | GateDies | NotifierDies | WaiterDies

  /** Does a process still hold the writing end of the pipe? */
  predicate Writable(s: State) {
    || s.gate == Forking || s.gate == Waiting || s.gate == Executing || s.gate == Serving
    || s.notifier == Splitting || s.notifier == Leaving
    || s.waiter == Opening
  }

  predicate Alive(w: Waiter) { w == Opening || w == Reading || w == Resuming }

  predicate Enabled(s: State, step: Step) {
    match step
    case Refuse => s.gate == Checking
    case Stop => s.gate == Checking
    case ForkFails => s.gate == Forking
    case ForkWorks => s.gate == Forking
    case SplitFails => s.notifier == Splitting
    case SplitWorks => s.notifier == Splitting
    case NotifierLeaves => s.notifier == Leaving
    case WaitFails => s.gate == Waiting
    case WaitReturns => s.gate == Waiting && s.notifier.Exited?
    case ExecFails => s.gate == Executing
    case ExecWorks => s.gate == Executing
    case WaiterOpens => s.waiter == Opening
    case WaiterReads(count) => s.waiter == Reading && 0 < count <= |s.pipe| && count <= 32
    case WaiterFinds(end) => s.waiter == Reading && (end ==> s.pipe == [] && !Writable(s))
    case WaiterResumes => s.waiter == Resuming
    case ServerWrites(line) => s.gate == Serving
    case ServerExits => s.gate == Serving
    case GateDies => s.gate == Forking || s.gate == Waiting || s.gate == Executing
    case NotifierDies => s.notifier == Splitting || s.notifier == Leaving
    case WaiterDies => Alive(s.waiter)
  }

  /** Steps that the world takes: what the server writes, processes that are killed, failing reads. */
  predicate Outside(step: Step) {
    || step.ServerWrites? || step.ServerExits? || step == WaiterFinds(false)
    || step.GateDies? || step.NotifierDies? || step.WaiterDies?
  }

  function Resumed(s: State): State { s.(resumes := s.resumes + 1) }

  function Apply(s: State, step: Step): State
    requires Enabled(s, step)
  {
    match step
    case Refuse => s.(gate := Left)
    case Stop => s.(gate := Forking, stopped := true)
    case ForkFails => Resumed(s.(gate := Left))
    case ForkWorks => s.(gate := Waiting, notifier := Splitting)
    case SplitFails => Resumed(s.(notifier := Exited(false)))
    case SplitWorks => s.(notifier := Leaving, waiter := Opening)
    case NotifierLeaves => s.(notifier := Exited(true))
    case WaitFails => Resumed(s.(gate := Left))
    case WaitReturns => if s.notifier.clean then s.(gate := Executing) else Resumed(s.(gate := Left))
    case ExecFails => Resumed(s.(gate := Left))
    case ExecWorks => s.(gate := Serving)
    case WaiterOpens => s.(waiter := Reading)
    case WaiterReads(count) =>
      s.(pipe := s.pipe[count..], waiter := if true in s.pipe[..count] then Resuming else Reading)
    case WaiterFinds(end) => s.(waiter := Resuming)
    case WaiterResumes => Resumed(s.(waiter := Finished))
    case ServerWrites(line) => s.(pipe := s.pipe + [line])
    case ServerExits => s.(gate := Left)
    case GateDies => s.(gate := Left)
    case NotifierDies => s.(notifier := Exited(false))
    case WaiterDies => s.(waiter := Killed)
  }

  predicate Stranded(s: State) { s.stopped && s.resumes == 0 }

  // ----- every reachable state

  /** While the parent is stopped, someone is bound to let it go: the gate before its fork, the
      notifier before its own, a gate that will see the notifier fail, or the waiter. */
  predicate Obliged(s: State) {
    || s.gate == Forking || s.notifier == Splitting || Alive(s.waiter)
    || (s.gate == Waiting && s.notifier == Exited(false))
  }

  /** The gate is gone, and there is neither a waiter nor a notifier to make one. */
  predicate Orphaned(s: State) { s.gate == Left && s.notifier != Splitting && s.waiter == NotYet }

  predicate Inv(s: State) {
    && (Stranded(s) ==> Obliged(s) || s.waiter == Killed || Orphaned(s))
    && (s.gate == Checking ==> !s.stopped && s.notifier == Unborn && s.waiter == NotYet)
    && (s.gate == Forking ==> s.notifier == Unborn && s.waiter == NotYet)
    && (s.gate == Waiting || s.gate == Executing || s.gate == Serving ==> s.notifier != Unborn)
    && (s.gate == Executing || s.gate == Serving ==> s.notifier == Exited(true))
    && (s.notifier == Unborn || s.notifier == Splitting ==> s.waiter == NotYet)
    && (s.notifier == Leaving || s.notifier == Exited(true) ==> s.waiter != NotYet)
    && (s.waiter == Finished ==> s.resumes > 0)
    && (s.resumes > 0 || s.notifier != Unborn || s.gate == Forking ==> s.stopped)
  }

  lemma StepKeepsInv(s: State, step: Step)
    requires Inv(s) && Enabled(s, step)
    ensures Inv(Apply(s, step))
  {
  }

  /** A run of the protocol. */
  ghost predicate Run(states: seq<State>, steps: seq<Step>) {
    && |states| == |steps| + 1 && states[0] == START
    && forall i :: 0 <= i < |steps| ==> Enabled(states[i], steps[i]) && states[i + 1] == Apply(states[i], steps[i])
  }

  lemma {:induction false} RunKeepsInv(states: seq<State>, steps: seq<Step>, k: nat)
    requires Run(states, steps) && k < |states|
    ensures Inv(states[k])
  {
    if k > 0 {
      RunKeepsInv(states, steps, k - 1);
      StepKeepsInv(states[k - 1], steps[k - 1]);
    }
  }

  // ----- no path leaves the parent stopped

  /** No process can take a step of its own. */
  ghost predicate Quiet(s: State) { forall step :: Enabled(s, step) ==> Outside(step) }

  /** Whether a run has started the server, lost the gate, or seen the second fork fail; whether the
      server has reported a line; and whether the waiter has found the end of the pipe or an error. */
  datatype Past = Past(started: bool, gateDied: bool, splitFailed: bool, reported: bool, ended: bool)

  function PastOf(steps: seq<Step>): Past {
    Past(ExecWorks in steps, GateDies in steps, SplitFails in steps, ServerWrites(true) in steps,
         WaiterFinds(true) in steps || WaiterFinds(false) in steps)
  }

  /** A line reported stays in the pipe until the waiter has read it; and the waiter lets the parent
      go only after a line, the end of the pipe, or an error. */
  predicate Listens(s: State, past: Past) {
    && (true in s.pipe ==> past.reported)
    && (past.reported && (s.waiter == NotYet || s.waiter == Opening || s.waiter == Reading) ==> true in s.pipe)
    && (s.waiter == Resuming || s.waiter == Finished ==> past.reported || past.ended)
  }

  lemma StepKeepsListens(s: State, steps: seq<Step>, step: Step)
    requires Inv(s) && Listens(s, PastOf(steps)) && Enabled(s, step)
    ensures Listens(Apply(s, step), PastOf(steps + [step]))
  {
    match step
    case WaiterReads(count) => assert s.pipe == s.pipe[..count] + s.pipe[count..];
    case ServerWrites(line) => assert true in s.pipe + [line] <==> true in s.pipe || line;
    case _ =>
  }

  lemma {:induction false} RunKeepsListens(states: seq<State>, steps: seq<Step>, k: nat)
    requires Run(states, steps) && k < |states|
    ensures Listens(states[k], PastOf(steps[..k]))
  {
    if k > 0 {
      hide Listens, PastOf, Enabled, Apply, Inv;
      assert steps[..k] == steps[..k - 1] + [steps[k - 1]];
      RunKeepsInv(states, steps, k - 1);
      RunKeepsListens(states, steps, k - 1);
      assert Enabled(states[k - 1], steps[k - 1]) && states[k] == Apply(states[k - 1], steps[k - 1]);
      hide Run;
      StepKeepsListens(states[k - 1], steps[..k - 1], steps[k - 1]);
    } else {
      assert steps[..0] == [];
    }
  }

  /** After any run: the waiter has let the parent go only if the server had reported a line, or the
      pipe had ended or failed; and a waiter that reads on has not missed a line. */
  lemma WaiterListens(states: seq<State>, steps: seq<Step>, k: nat)
    requires Run(states, steps) && k < |states|
    ensures var s, done := states[k], steps[..k];
            && (s.waiter == Finished ==>
                  ServerWrites(true) in done || WaiterFinds(true) in done || WaiterFinds(false) in done)
            && (s.waiter == Reading && s.pipe == [] ==> ServerWrites(true) !in done)
  {
    RunKeepsListens(states, steps, k);
  }

  /** Once the server has been started, or the gate has been killed, only the waiter can let the
      parent go, unless the notifier has; a gate that ends in any other way has done so itself. */
  predicate Answers(s: State, past: Past) {
    && (past.started ==> (s.gate == Serving || s.gate == Left) && s.notifier == Exited(true) && s.stopped)
    && (past.gateDied ==> s.gate == Left && s.stopped && !past.started)
    && (past.splitFailed ==> s.notifier == Exited(false) && s.resumes > 0)
    && (!past.started ==> s.gate != Serving)
    && (!past.started && !past.gateDied && s.gate == Left && s.stopped ==> s.resumes > 0)
    && (s.gate == Forking ==> s.resumes == 0)
    && (past.started || past.gateDied || s.gate == Executing || s.gate == Waiting ==>
          past.splitFailed || (s.resumes > 0 <==> s.waiter == Finished))
  }

  lemma StepKeepsAnswers(s: State, steps: seq<Step>, step: Step)
    requires Inv(s) && Answers(s, PastOf(steps)) && Enabled(s, step)
    ensures Answers(Apply(s, step), PastOf(steps + [step]))
  {
  }

  lemma {:induction false} RunKeepsAnswers(states: seq<State>, steps: seq<Step>, k: nat)
    requires Run(states, steps) && k < |states|
    ensures Answers(states[k], PastOf(steps[..k]))
  {
    if k > 0 {
      hide Inv, Answers, PastOf, Enabled, Apply;
      assert steps[..k] == steps[..k - 1] + [steps[k - 1]];
      RunKeepsInv(states, steps, k - 1);
      RunKeepsAnswers(states, steps, k - 1);
      assert Enabled(states[k - 1], steps[k - 1]) && states[k] == Apply(states[k - 1], steps[k - 1]);
      hide Run;
      StepKeepsAnswers(states[k - 1], steps[..k - 1], steps[k - 1]);
    } else {
      assert steps[..0] == [];
    }
  }

  /** Where nothing moves any more, the parent is still stopped exactly if the waiter has not done
      its part and nobody else was bound to do it: the server has been started, or the gate was
      killed between the stop and the exec and the second fork did not fail. The waiter was killed,
      or waits for a server that is up and has not reported yet, or was never born. */
  lemma QuietStrandsIff(states: seq<State>, steps: seq<Step>, k: nat)
    requires Run(states, steps) && k < |states| && Quiet(states[k])
    ensures var s, done := states[k], steps[..k];
            && (Stranded(s) <==>
                (ExecWorks in done || (GateDies in done && SplitFails !in done)) && s.waiter != Finished)
            && (Stranded(s) ==>
                  || s.waiter == Killed
                  || (s.gate == Serving && s.waiter == Reading && s.pipe == [] && ServerWrites(true) !in done)
                  || (GateDies in done && s.waiter == NotYet))
  {
    hide Enabled;
    RunKeepsInv(states, steps, k);
    RunKeepsAnswers(states, steps, k);
    WaiterListens(states, steps, k);
    QuietGate(states[k]);
    QuietHelpers(states[k]);
  }

  lemma QuietGate(s: State)
    requires Quiet(s)
    ensures s.gate == Serving || s.gate == Left || (s.gate == Waiting && !s.notifier.Exited?)
  {
    assert !Enabled(s, Stop) && !Enabled(s, ForkWorks) && !Enabled(s, WaitReturns) && !Enabled(s, ExecWorks);
  }

  lemma QuietHelpers(s: State)
    requires Quiet(s)
    ensures s.notifier == Unborn || s.notifier.Exited?
    ensures s.waiter != Opening && s.waiter != Resuming && (s.waiter == Reading ==> s.pipe == [] && Writable(s))
  {
    assert !Enabled(s, SplitWorks) && !Enabled(s, NotifierLeaves);
    assert !Enabled(s, WaiterOpens) && !Enabled(s, WaiterResumes);
    assert !Enabled(s, WaiterReads(1)) && !Enabled(s, WaiterFinds(true));
  }

  /** Every step that a process takes brings the end nearer. */
  function Rank(s: State): nat {
    (match s.gate
     case Checking => 40
     case Forking => 30
     case Waiting => 3
     case Executing => 2
     case Serving => 1
     case Left => 0)
    + (match s.notifier
       case Unborn => 0
       case Splitting => 20
       case Leaving => 1
       case Exited(_) => 0)
    + (match s.waiter
       case NotYet => 0
       case Opening => 3
       case Reading => 2
       case Resuming => 1
       case Finished => 0
       case Killed => 0)
    + |s.pipe|
  }

  lemma RankFalls(s: State, step: Step)
    requires Inv(s) && Enabled(s, step)
    ensures Rank(Apply(s, step)) <= Rank(s) + (if step.ServerWrites? then 1 else 0)
    ensures !step.ServerWrites? ==> Rank(Apply(s, step)) < Rank(s)
  {
  }

  function Writes(steps: seq<Step>): nat {
    if steps == [] then 0 else Writes(steps[..|steps| - 1]) + (if steps[|steps| - 1].ServerWrites? then 1 else 0)
  }

  lemma {:induction false} RankOfRun(states: seq<State>, steps: seq<Step>)
    requires Run(states, steps)
    ensures |steps| + Rank(states[|steps|]) <= 40 + 2 * Writes(steps)
    decreases |steps|
  {
    if steps != [] {
      var n := |steps| - 1;
      assert Run(states[..n + 1], steps[..n]);
      RankOfRun(states[..n + 1], steps[..n]);
      RunKeepsInv(states, steps, n);
      RankFalls(states[n], steps[n]);
    }
  }

  /** A run is no longer than forty steps and two for each write of the server: with finite output
      every run comes to rest. */
  lemma RunsEnd(states: seq<State>, steps: seq<Step>)
    requires Run(states, steps)
    ensures |steps| <= 40 + 2 * Writes(steps)
  {
    RankOfRun(states, steps);
  }

  lemma RunExtends(states: seq<State>, steps: seq<Step>, step: Step) returns (more: seq<State>)
    requires Run(states, steps) && Enabled(states[|steps|], step)
    ensures more == states + [Apply(states[|steps|], step)] && Run(more, steps + [step])
  {
    more := states + [Apply(states[|steps|], step)];
  }

  /** A run in which the gate is about to see the notifier leave, and the waiter has been killed. */
  lemma WaiterKilled() returns (states: seq<State>, steps: seq<Step>)
    ensures Run(states, steps) && states[|steps|] == State(Waiting, Leaving, Killed, true, 0, [])
  {
    hide Run;
    states := NoSteps();
    states := RunExtends(states, [], Stop);
    states := RunExtends(states, [Stop], ForkWorks);
    states := RunExtends(states, [Stop] + [ForkWorks], SplitWorks);
    steps := [Stop] + [ForkWorks] + [SplitWorks];
    states := RunExtends(states, steps, WaiterDies);
    steps := steps + [WaiterDies];
  }

  /** Kill the waiter once the notifier has done its part, and the parent stays stopped. */
  lemma KilledWaiterStrands() returns (states: seq<State>, steps: seq<Step>)
    ensures Run(states, steps) && Stranded(states[|steps|]) && Quiet(states[|steps|])
  {
    hide Run;
    states, steps := WaiterKilled();
    states := RunExtends(states, steps, NotifierLeaves);
    steps := steps + [NotifierLeaves];
    states := RunExtends(states, steps, WaitReturns);
    steps := steps + [WaitReturns];
    states := RunExtends(states, steps, ExecWorks);
    steps := steps + [ExecWorks];
  }

  /** Kill the gate between the stop and its fork, and nobody is left: the server never starts, and
      the parent stays stopped. */
  lemma KilledGateStrands() returns (states: seq<State>, steps: seq<Step>)
    ensures Run(states, steps) && Stranded(states[|steps|]) && Quiet(states[|steps|]) && ExecWorks !in steps
  {
    hide Run;
    states := NoSteps();
    states := RunExtends(states, [], Stop);
    states := RunExtends(states, [Stop], GateDies);
    steps := [Stop] + [GateDies];
  }

  lemma NoSteps() returns (states: seq<State>)
    ensures states == [START] && Run(states, [])
  {
    states := [START];
  }
}
