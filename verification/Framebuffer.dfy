/** The refresh protocol of exwordfb.c as a state machine: any number of tasks draw or pan, one
    work item presents the frame, and every atomic step may interleave with every other. */
module Framebuffer {
  const WORD: nat := 0x1_0000_0000

  /** Where a task stands. A version numbers the drawing operations in the order they finished
      writing video memory; 0 stands for an unblank request, which writes nothing. */
  datatype Task =
    | Idle
    | Drawn(version: nat)     // video memory written, generation not yet counted
    | Counted(version: nat)   // generation counted, work not yet scheduled
    | Cancelling              // inside cancel_work_sync
    | Flushed                 // work cancelled, refresh not yet started
    | Panning                 // pan's own refresh under way

  /** Where the work item stands. */
  datatype Worker = Asleep | Reading | Yielding(seen: nat) | Ready | Refreshing

  datatype Owner = Free | ByWorker | ByTask(id: nat)

  datatype State = State(
    vram: nat,               // versions written so far
    generation: nat,
    pending: bool,           // the work item is queued
    worker: Worker,
    tasks: map<nat, Task>,
    lock: Owner,             // exwordfb_dma_lock
    covered: nat,            // version at the start of the latest refresh
    presented: nat,          // version at the start of the latest refresh that completed
    due: nat)                // newest version whose drawing operation has returned

  function Max(a: nat, b: nat): nat { if a < b then b else a }

  ghost predicate Init(s: State) {
    && s.vram == 0 && s.generation == 0 && !s.pending && s.worker == Asleep && s.lock == Free
    && s.covered == 0 && s.presented == 0 && s.due == 0
    && forall t :: t in s.tasks ==> s.tasks[t] == Idle
  }

  datatype Step =
    | Draw(t: nat) | Unblank(t: nat) | Count(t: nat) | Schedule(t: nat, taken: bool)
    | PanCancel(t: nat) | PanFlush(t: nat) | PanStart(t: nat) | PanEnd(t: nat)
    | WorkStart | WorkRead | WorkCompare | WorkRefresh | WorkEnd

  predicate IsCancelling(s: State) {
    exists t :: t in s.tasks && s.tasks[t].Cancelling?
  }

  /** When a step can be taken. While a task is inside cancel_work_sync the queue may refuse the
      work (`taken` false); outside, it takes it unless it is already queued. */
  predicate Enabled(s: State, a: Step) {
    match a
    case Draw(t) => t in s.tasks && s.tasks[t].Idle?
    case Unblank(t) => t in s.tasks && s.tasks[t].Idle?
    case Count(t) => t in s.tasks && s.tasks[t].Drawn?
    case Schedule(t, taken) => t in s.tasks && s.tasks[t].Counted? && (taken || IsCancelling(s))
    case PanCancel(t) => t in s.tasks && s.tasks[t].Idle? && !IsCancelling(s)
    case PanFlush(t) => t in s.tasks && s.tasks[t].Cancelling? && s.worker.Asleep?
    case PanStart(t) => t in s.tasks && s.tasks[t].Flushed? && s.lock.Free?
    case PanEnd(t) => t in s.tasks && s.tasks[t].Panning?
    case WorkStart => s.worker.Asleep? && s.pending
    case WorkRead => s.worker.Reading?
    case WorkCompare => s.worker.Yielding?
    case WorkRefresh => s.worker.Ready? && s.lock.Free?
    case WorkEnd => s.worker.Refreshing?
  }

  function Next(s: State, a: Step): State
    requires Enabled(s, a)
  {
    match a
    case Draw(t) => s.(vram := s.vram + 1, tasks := s.tasks[t := Drawn(s.vram + 1)])
    case Unblank(t) => s.(tasks := s.tasks[t := Drawn(0)])
    case Count(t) => s.(generation := (s.generation + 1) % WORD, tasks := s.tasks[t := Counted(s.tasks[t].version)])
    case Schedule(t, taken) =>
      s.(pending := s.pending || taken, due := Max(s.due, s.tasks[t].version), tasks := s.tasks[t := Idle])
    case PanCancel(t) => s.(pending := false, tasks := s.tasks[t := Cancelling])
    case PanFlush(t) => s.(tasks := s.tasks[t := Flushed])
    case PanStart(t) => s.(lock := ByTask(t), covered := s.vram, tasks := s.tasks[t := Panning])
    case PanEnd(t) => s.(lock := Free, presented := s.covered, tasks := s.tasks[t := Idle])
    case WorkStart => s.(pending := false, worker := Reading)
    case WorkRead => s.(worker := Yielding(s.generation))
    case WorkCompare => s.(worker := if s.worker.seen == s.generation then Ready else Reading)
    case WorkRefresh => s.(lock := ByWorker, covered := s.vram, worker := Refreshing)
    case WorkEnd => s.(lock := Free, presented := s.covered, worker := Asleep)
  }

  // ----- what every reachable state satisfies

  ghost predicate Inv(s: State) {
    && Ordered(s) && LockMatches(s)
    && (s.due < s.vram ==> InFlight(s))
    && NotStranded(s)
  }

  /** Nothing is presented, covered or returned before it has been drawn. */
  ghost predicate Ordered(s: State) {
    && s.due <= s.vram && s.presented <= s.covered <= s.vram
    && (s.lock.Free? ==> s.presented == s.covered)
    && (forall t :: t in s.tasks && (s.tasks[t].Drawn? || s.tasks[t].Counted?) ==> s.tasks[t].version <= s.vram)
  }

  /** At most one refresh is under way, and whoever runs it holds the lock. */
  ghost predicate LockMatches(s: State) {
    && (s.worker.Refreshing? <==> s.lock == ByWorker)
    && (forall t :: t in s.tasks && s.tasks[t].Panning? ==> s.lock == ByTask(t))
    && (s.lock.ByTask? ==> s.lock.id in s.tasks && s.tasks[s.lock.id].Panning?)
  }

  /** The newest version belongs to a drawing operation that has not returned yet. */
  ghost predicate InFlight(s: State) {
    exists t :: t in s.tasks && (s.tasks[t].Drawn? || s.tasks[t].Counted?) && s.tasks[t].version == s.vram
  }

  ghost predicate PanWillRefresh(s: State) {
    exists t :: t in s.tasks && (s.tasks[t].Cancelling? || s.tasks[t].Flushed?)
  }

  /** A drawing operation that has returned and that no refresh has covered yet has something left
      to present it: queued work, a worker still before its refresh, or a pan about to refresh. */
  ghost predicate NotStranded(s: State) {
    s.due > s.covered ==>
      s.pending || s.worker.Reading? || s.worker.Yielding? || s.worker.Ready? || PanWillRefresh(s)
  }

  lemma InitInv(s: State)
    requires Init(s)
    ensures Inv(s)
  {
  }

  lemma StepKeepsInv(s: State, a: Step)
    requires Inv(s) && Enabled(s, a)
    ensures Inv(Next(s, a))
  {
    hide Next, NotStranded, InFlight;
    StepKeepsOrdered(s, a);
    StepKeepsLock(s, a);
    StepKeepsInFlight(s, a);
    StepKeepsNotStranded(s, a);
  }

  lemma StepKeepsOrdered(s: State, a: Step)
    requires Ordered(s) && LockMatches(s) && Enabled(s, a)
    ensures Ordered(Next(s, a))
  {
  }

  lemma StepKeepsLock(s: State, a: Step)
    requires LockMatches(s) && Enabled(s, a)
    ensures LockMatches(Next(s, a))
  {
  }

  lemma StepKeepsInFlight(s: State, a: Step)
    requires Inv(s) && Enabled(s, a)
    ensures Next(s, a).due < Next(s, a).vram ==> InFlight(Next(s, a))
  {
    var s' := Next(s, a);
    if s'.due < s'.vram {
      if a.Draw? {
        assert s'.tasks[a.t].version == s'.vram;
      } else {
        var u :| u in s.tasks && (s.tasks[u].Drawn? || s.tasks[u].Counted?) && s.tasks[u].version == s.vram;
        assert u in s'.tasks && (s'.tasks[u].Drawn? || s'.tasks[u].Counted?) && s'.tasks[u].version == s'.vram;
      }
    }
  }

  lemma StepKeepsNotStranded(s: State, a: Step)
    requires Inv(s) && Enabled(s, a)
    ensures NotStranded(Next(s, a))
  {
    var s' := Next(s, a);
    if s'.due > s'.covered {
      if a.Schedule? && !a.taken {
        var u :| u in s.tasks && s.tasks[u].Cancelling?;
        assert u in s'.tasks && s'.tasks[u].Cancelling?;
      } else if a.PanCancel? {
        assert s'.tasks[a.t].Cancelling?;
      } else if a.PanFlush? {
        assert s'.tasks[a.t].Flushed?;
      } else if PanWillRefresh(s) {
        var u :| u in s.tasks && (s.tasks[u].Cancelling? || s.tasks[u].Flushed?);
        assert u in s'.tasks && (s'.tasks[u].Cancelling? || s'.tasks[u].Flushed?);
      }
    }
  }

  // ----- runs

  /** A run: steps from an initial state, each enabled where it is taken. */
  ghost predicate Run(s: State, steps: seq<Step>)
    decreases |steps|
  {
    steps != [] ==> Enabled(s, steps[0]) && Run(Next(s, steps[0]), steps[1..])
  }

  ghost function Final(s: State, steps: seq<Step>): State
    requires Run(s, steps)
    decreases |steps|
  {
    if steps == [] then s else Final(Next(s, steps[0]), steps[1..])
  }

  lemma {:induction false} RunKeepsInv(s: State, steps: seq<Step>)
    requires Inv(s) && Run(s, steps)
    ensures Inv(Final(s, steps))
    decreases |steps|
  {
    if steps != [] {
      StepKeepsInv(s, steps[0]);
      RunKeepsInv(Next(s, steps[0]), steps[1..]);
    }
  }

  ghost predicate TasksIdle(s: State) { forall t :: t in s.tasks ==> s.tasks[t].Idle? }

  ghost predicate Quiescent(s: State) { TasksIdle(s) && s.worker.Asleep? && !s.pending }

  /** After any run no drawing is stranded; and when everything has come to rest, the frame on the
      panel is the last one drawn. */
  lemma NoDrawingIsStranded(s: State, steps: seq<Step>)
    requires Init(s) && Run(s, steps)
    ensures NotStranded(Final(s, steps))
    ensures Quiescent(Final(s, steps)) ==> Final(s, steps).presented == Final(s, steps).vram
  {
    InitInv(s);
    RunKeepsInv(s, steps);
  }

  // ----- the worker gets there

  /** The step the worker takes on its own, when it can take one. */
  function WorkStep(w: Worker): Step {
    match w
    case Asleep => WorkStart
    case Reading => WorkRead
    case Yielding(_) => WorkCompare
    case Ready => WorkRefresh
    case Refreshing => WorkEnd
  }

  function Rank(s: State): nat {
    (if s.pending then 6 else 0) +
    match s.worker
    case Asleep => 0
    case Reading => 4
    case Yielding(seen) => if seen == s.generation then 3 else 5
    case Ready => 2
    case Refreshing => 1
  }

  /** Once every task is idle the worker can always move until everything is at rest, and each of
      its steps brings that closer. */
  lemma WorkerAdvances(s: State)
    requires Inv(s) && TasksIdle(s) && !Quiescent(s)
    ensures Enabled(s, WorkStep(s.worker))
    ensures var s' := Next(s, WorkStep(s.worker)); TasksIdle(s') && Rank(s') < Rank(s)
  {
  }

  /** From any reachable state in which all tasks are idle, the worker alone presents the last
      drawing, within as many steps as the rank says. */
  lemma {:induction false} WorkerPresents(s: State) returns (steps: seq<Step>)
    requires Inv(s) && TasksIdle(s)
    ensures |steps| <= Rank(s) && Run(s, steps)
    ensures Quiescent(Final(s, steps)) && Final(s, steps).presented == s.vram
    decreases Rank(s)
  {
    if Quiescent(s) {
      steps := [];
    } else {
      WorkerAdvances(s);
      var a := WorkStep(s.worker);
      StepKeepsInv(s, a);
      var rest := WorkerPresents(Next(s, a));
      steps := [a] + rest;
      assert steps[1..] == rest;
    }
  }

  // ----- batching

  /** Drawing operations counted during some steps. */
  function Counts(steps: seq<Step>): nat {
    if steps == [] then 0 else (if steps[0].Count? then 1 else 0) + Counts(steps[1..])
  }

  predicate ByWorkItem(a: Step) { a.WorkStart? || a.WorkRead? || a.WorkCompare? || a.WorkRefresh? || a.WorkEnd? }

  /** Having read the generation, the worker goes on to refresh exactly when no drawing was counted
      while it yielded, up to a whole wrap of the counter; else it reads again. */
  lemma {:induction false} WorkerWaitsForQuiet(s: State, steps: seq<Step>)
    requires Run(s, steps) && s.worker.Yielding? && s.generation < WORD
    requires forall i :: 0 <= i < |steps| ==> !ByWorkItem(steps[i])
    ensures var f := Final(s, steps);
            && f.worker == s.worker && f.generation == (s.generation + Counts(steps)) % WORD
            && (s.worker.seen == s.generation ==> (Next(f, WorkCompare).worker.Ready? <==> Counts(steps) % WORD == 0))
    decreases |steps|
  {
    if steps != [] {
      assert !ByWorkItem(steps[0]);
      WorkerWaitsForQuiet(Next(s, steps[0]), steps[1..]);
      ModStep(s.generation, Counts(steps[1..]));
    }
    ModZero(s.generation, Counts(steps));
  }

  lemma ModStep(g: nat, n: nat)
    ensures ((g + 1) % WORD + n) % WORD == (g + 1 + n) % WORD
  {
  }

  lemma ModZero(g: nat, n: nat)
    requires g < WORD
    ensures (g + n) % WORD == g <==> n % WORD == 0
  {
  }
}
