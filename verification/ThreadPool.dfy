/** The worker pool: workers take tasks from a shared queue until it is stopped and empty. The
    steps are those that hold the lock, in any order. */
module ThreadPool {

  type Task = nat

  datatype Worker = Waiting | Running(task: Task) | Exited

  /** `submitted` and `completed` are histories. */
  datatype Pool = Pool(workers: seq<Worker>, queue: seq<Task>, stopped: bool, submitted: multiset<Task>,
                       completed: multiset<Task>)

  /** A task is submitted from without, or spawned by a task that a worker runs. */
  datatype Step =
    | Submit(task: Task)
    | Spawn(worker: nat, task: Task)
    | Stop
    | Take(worker: nat)
    | Finish(worker: nat)
    | Exit(worker: nat)

  predicate AllExited(p: Pool) {
    forall w :: 0 <= w < |p.workers| ==> p.workers[w].Exited?
  }

  /** Submitting is not guarded: the pool may be stopped, and its workers may have exited. */
  predicate Enabled(p: Pool, step: Step) {
    match step
    case Submit(_) => true
    case Spawn(w, _) => w < |p.workers| && p.workers[w].Running?
    case Stop => !p.stopped
    case Take(w) => w < |p.workers| && p.workers[w].Waiting? && p.queue != []
    case Finish(w) => w < |p.workers| && p.workers[w].Running?
    case Exit(w) => w < |p.workers| && p.workers[w].Waiting? && p.stopped && p.queue == []
  }

  function Enqueued(p: Pool, task: Task): Pool {
    p.(queue := p.queue + [task], submitted := p.submitted + multiset{task})
  }

  function Next(p: Pool, step: Step): Pool
    requires Enabled(p, step)
  {
    match step
    case Submit(task) => Enqueued(p, task)
    case Spawn(_, task) => Enqueued(p, task)
    case Stop => p.(stopped := true)
    case Take(w) => p.(workers := p.workers[w := Running(p.queue[0])], queue := p.queue[1..])
    case Finish(w) => p.(workers := p.workers[w := Waiting], completed := p.completed + multiset{p.workers[w].task})
    case Exit(w) => p.(workers := p.workers[w := Exited])
  }

  ghost predicate IsStart(p: Pool) {
    && p.workers != [] && (forall w :: 0 <= w < |p.workers| ==> p.workers[w].Waiting?)
    && p.queue == [] && !p.stopped && p.submitted == multiset{} && p.completed == multiset{}
  }

  /** The states along steps that are each enabled. */
  ghost predicate IsRun(states: seq<Pool>, steps: seq<Step>) {
    && |states| == |steps| + 1 && IsStart(states[0])
    && forall i :: 0 <= i < |steps| ==> Enabled(states[i], steps[i]) && states[i + 1] == Next(states[i], steps[i])
  }

  // ---- Every task is somewhere, once ----

  /** The workers that run a task. */
  ghost function RunningCount(workers: seq<Worker>, task: Task): nat {
    if workers == [] then 0
    else RunningCount(workers[..|workers| - 1], task) + Runs(workers[|workers| - 1], task)
  }

  ghost function Runs(w: Worker, task: Task): nat {
    if w == Running(task) then 1 else 0
  }

  lemma {:induction false} RunningUpdate(workers: seq<Worker>, w: nat, worker: Worker, task: Task)
    requires w < |workers|
    ensures RunningCount(workers[w := worker], task) + Runs(workers[w], task) ==
            RunningCount(workers, task) + Runs(worker, task)
    decreases |workers|
  {
    hide Runs;
    var n := |workers| - 1;
    if w < n {
      RunningUpdate(workers[..n], w, worker, task);
      assert workers[w := worker][..n] == workers[..n][w := worker];
    } else {
      assert workers[w := worker][..n] == workers[..n];
    }
  }

  /** A task has been submitted as often as it is queued, is running and has completed. */
  ghost predicate Accounted(p: Pool, task: Task) {
    p.submitted[task] == multiset(p.queue)[task] + RunningCount(p.workers, task) + p.completed[task]
  }

  ghost predicate Conserved(p: Pool) {
    forall task :: Accounted(p, task)
  }

  /** Workers have exited only if the pool is stopped. */
  ghost predicate ExitedStopped(p: Pool) {
    forall w :: 0 <= w < |p.workers| && p.workers[w].Exited? ==> p.stopped
  }

  ghost predicate Invariant(p: Pool) {
    p.workers != [] && Conserved(p) && ExitedStopped(p)
  }

  lemma {:induction false} NextAccounts(p: Pool, step: Step, task: Task)
    requires Enabled(p, step) && Accounted(p, task)
    ensures Accounted(Next(p, step), task)
  {
    hide RunningCount;
    match step
    case Submit(_) =>
    case Spawn(_, _) =>
    case Stop =>
    case Take(w) =>
      RunningUpdate(p.workers, w, Running(p.queue[0]), task);
      assert p.queue == [p.queue[0]] + p.queue[1..];
    case Finish(w) =>
      RunningUpdate(p.workers, w, Waiting, task);
    case Exit(w) =>
      RunningUpdate(p.workers, w, Exited, task);
  }

  lemma {:induction false} NextConserves(p: Pool, step: Step)
    requires Enabled(p, step) && Conserved(p)
    ensures Conserved(Next(p, step))
  {
    forall task
      ensures Accounted(Next(p, step), task)
    {
      assert Accounted(p, task);
      NextAccounts(p, step, task);
    }
  }

  lemma {:induction false} StartInvariant(p: Pool)
    requires IsStart(p)
    ensures Invariant(p) && !AllExited(p)
  {
    forall task
      ensures Accounted(p, task)
    {
      NoneRunning(p.workers, task);
    }
    assert p.workers[0].Waiting?;
  }

  lemma {:induction false} NoneRunning(workers: seq<Worker>, task: Task)
    requires forall w :: 0 <= w < |workers| ==> !workers[w].Running?
    ensures RunningCount(workers, task) == 0
  {
    if workers != [] {
      NoneRunning(workers[..|workers| - 1], task);
    }
  }

  /** In every state of every run the tasks are conserved. */
  lemma {:induction false} RunInvariant(states: seq<Pool>, steps: seq<Step>, i: nat)
    requires IsRun(states, steps) && i <= |steps|
    ensures Invariant(states[i])
    decreases i
  {
    if i == 0 {
      StartInvariant(states[0]);
    } else {
      RunInvariant(states, steps, i - 1);
      NextConserves(states[i - 1], steps[i - 1]);
      hide Conserved, IsStart;
    }
  }

  // ---- Workers exit on an empty queue ----

  /** A worker that has exited did so when the pool was stopped and the queue empty. */
  lemma {:induction false} ExitedOnEmpty(states: seq<Pool>, steps: seq<Step>, i: nat, w: nat) returns (at: nat)
    requires IsRun(states, steps) && i <= |steps| && w < |states[i].workers| && states[i].workers[w].Exited?
    ensures at < i && steps[at] == Exit(w) && states[at].stopped && states[at].queue == []
    decreases i
  {
    if i == 0 {
      assert false;
    } else if states[i - 1].workers[w].Exited? {
      at := ExitedOnEmpty(states, steps, i - 1, w);
    } else {
      at := i - 1;
    }
  }

  /** Yet a task can be queued after a worker has exited, while another still works. */
  lemma {:induction false} ExitedBeforeWork() returns (states: seq<Pool>, steps: seq<Step>)
    ensures steps == [Submit(1), Take(0), Stop, Exit(1), Submit(2)]
    ensures IsRun(states, steps) && states[5].workers == [Running(1), Exited] && states[5].queue == [2]
  {
    var p0 := Pool([Waiting, Waiting], [], false, multiset{}, multiset{});
    var p2 := Next(Next(p0, Submit(1)), Take(0));
    var p4 := Next(Next(p2, Stop), Exit(1));
    assert p2.workers == [Running(1), Waiting] && p4.workers == [Running(1), Exited];
    states := [p0, Next(p0, Submit(1)), p2, Next(p2, Stop), p4, Next(p4, Submit(2))];
    steps := [Submit(1), Take(0), Stop, Exit(1), Submit(2)];
    FiveSteps(states, steps);
  }

  lemma {:induction false} FiveSteps(s: seq<Pool>, t: seq<Step>)
    requires |t| == 5 && |s| == 6 && IsStart(s[0])
    requires Enabled(s[0], t[0]) && s[1] == Next(s[0], t[0])
    requires Enabled(s[1], t[1]) && s[2] == Next(s[1], t[1])
    requires Enabled(s[2], t[2]) && s[3] == Next(s[2], t[2])
    requires Enabled(s[3], t[3]) && s[4] == Next(s[3], t[3])
    requires Enabled(s[4], t[4]) && s[5] == Next(s[4], t[4])
    ensures IsRun(s, t)
  {
    hide Enabled, Next, IsStart;
  }

  // ---- Every task runs, unless it comes too late ----

  /** A submission when no worker is left. */
  predicate Late(p: Pool, step: Step) {
    step.Submit? && AllExited(p)
  }

  ghost predicate NoneLate(states: seq<Pool>, steps: seq<Step>, i: nat)
    requires i <= |steps| < |states|
  {
    forall j :: 0 <= j < i ==> !Late(states[j], steps[j])
  }

  /** Exited workers stay so. */
  lemma {:induction false} ExitedStay(p: Pool, step: Step)
    requires Enabled(p, step) && AllExited(p) && Invariant(p)
    ensures AllExited(Next(p, step)) && step.Submit?
  {
    assert p.workers[0].Exited?;
  }

  lemma {:induction false} LastExit(p: Pool, step: Step)
    requires Enabled(p, step) && !AllExited(p) && AllExited(Next(p, step))
    ensures Next(p, step).queue == []
  {
    var w :| 0 <= w < |p.workers| && !p.workers[w].Exited?;
    assert Next(p, step).workers[w].Exited?;
  }

  lemma {:induction false} NoneExitedBefore(states: seq<Pool>, steps: seq<Step>, i: nat, j: nat)
    requires IsRun(states, steps) && j <= i <= |steps| && !AllExited(states[i])
    ensures !AllExited(states[j])
    decreases i - j
  {
    if j < i {
      RunInvariant(states, steps, j);
      hide Invariant, IsStart;
      if AllExited(states[j]) {
        ExitedStay(states[j], steps[j]);
      }
      NoneExitedBefore(states, steps, i, j + 1);
    }
  }

  /** Once all workers have exited the queue is empty exactly when no submission came too late. */
  lemma {:induction false} QueueLeft(states: seq<Pool>, steps: seq<Step>, i: nat)
    requires IsRun(states, steps) && i <= |steps| && AllExited(states[i])
    ensures states[i].queue == [] <==> NoneLate(states, steps, i)
    decreases i
  {
    if i == 0 {
      StartInvariant(states[0]);
    } else {
      RunInvariant(states, steps, i - 1);
      var p, step := states[i - 1], steps[i - 1];
      if AllExited(p) {
        ExitedStay(p, step);
        QueueLeft(states, steps, i - 1);
        assert Late(states[i - 1], steps[i - 1]);
      } else {
        LastExit(p, step);
        hide Next, Enabled, Invariant, AllExited, IsStart;
        forall j | 0 <= j < i
          ensures !Late(states[j], steps[j])
        {
          NoneExitedBefore(states, steps, i - 1, j);
        }
      }
    }
  }

  /** Over every interleaving, once all workers have exited each submitted task has run exactly once
      if and only if none was submitted when all workers had already exited. */
  lemma {:induction false} AllRunOnce(states: seq<Pool>, steps: seq<Step>, i: nat)
    requires IsRun(states, steps) && i <= |steps| && AllExited(states[i])
    ensures states[i].completed == states[i].submitted <==> NoneLate(states, steps, i)
  {
    RunInvariant(states, steps, i);
    QueueLeft(states, steps, i);
    hide NoneLate, IsRun;
    var p := states[i];
    forall task
      ensures p.submitted[task] == multiset(p.queue)[task] + p.completed[task]
    {
      NoneRunning(p.workers, task);
      assert Accounted(p, task);
    }
    if p.queue != [] {
      var task := p.queue[0];
      assert task in multiset(p.queue);
      assert p.submitted[task] > p.completed[task];
    }
  }

  /** A task submitted to a pool without workers left never runs. */
  lemma {:induction false} LateNeverRuns()
    ensures exists states: seq<Pool>, steps: seq<Step> :: IsRun(states, steps) && AllExited(states[|steps|]) &&
              states[|steps|].completed != states[|steps|].submitted
  {
    var p0 := Pool([Waiting], [], false, multiset{}, multiset{});
    var steps := [Stop, Exit(0), Submit(1)];
    var p1 := Next(p0, steps[0]);
    var p2 := Next(p1, steps[1]);
    var p3 := Next(p2, steps[2]);
    var states := [p0, p1, p2, p3];
    assert IsRun(states, steps);
    assert p3.submitted[1] == 1 && p3.completed[1] == 0;
  }

  // ---- The pool drains ----

  ghost function Work(workers: seq<Worker>): nat {
    if workers == [] then 0
    else Work(workers[..|workers| - 1]) + Weight(workers[|workers| - 1])
  }

  ghost function Weight(w: Worker): nat {
    if w.Running? then 2 else if w.Waiting? then 1 else 0
  }

  lemma {:induction false} WorkUpdate(workers: seq<Worker>, w: nat, worker: Worker)
    requires w < |workers|
    ensures Work(workers[w := worker]) + Weight(workers[w]) == Work(workers) + Weight(worker)
    decreases |workers|
  {
    var n := |workers| - 1;
    if w < n {
      WorkUpdate(workers[..n], w, worker);
      assert workers[w := worker][..n] == workers[..n][w := worker];
    } else {
      assert workers[w := worker][..n] == workers[..n];
    }
  }

  /** What bounds the steps that workers can still take. */
  ghost function Remaining(p: Pool): nat {
    3 * |p.queue| + Work(p.workers)
  }

  predicate IsWorker(step: Step) {
    step.Take? || step.Finish? || step.Exit?
  }

  /** Each step of a worker leaves less, and a task that is submitted or spawned adds three. */
  lemma {:induction false} StepProgress(p: Pool, step: Step)
    requires Enabled(p, step)
    ensures IsWorker(step) ==> Remaining(Next(p, step)) < Remaining(p)
    ensures step.Submit? || step.Spawn? ==> Remaining(Next(p, step)) == Remaining(p) + 3
    ensures step.Stop? ==> Remaining(Next(p, step)) == Remaining(p)
  {
    hide Work;
    match step
    case Submit(_) =>
    case Spawn(_, _) =>
    case Stop =>
    case Take(w) => WorkUpdate(p.workers, w, Running(p.queue[0]));
    case Finish(w) => WorkUpdate(p.workers, w, Waiting);
    case Exit(w) => WorkUpdate(p.workers, w, Exited);
  }

  /** The tasks submitted or spawned from a step on. */
  ghost function Arrivals(steps: seq<Step>, from: nat): nat
    requires from <= |steps|
    decreases |steps| - from
  {
    if from == |steps| then 0
    else (if steps[from].Submit? || steps[from].Spawn? then 1 else 0) + Arrivals(steps, from + 1)
  }

  /** A stopped pool takes only so many steps as its work and the tasks that still arrive allow,
      whatever its workers do. */
  lemma {:induction false} DrainBounded(states: seq<Pool>, steps: seq<Step>, i: nat)
    requires IsRun(states, steps) && i <= |steps| && states[i].stopped
    ensures |steps| - i + Remaining(states[|steps|]) <= Remaining(states[i]) + 4 * Arrivals(steps, i)
    decreases |steps| - i
  {
    if i < |steps| {
      StepProgress(states[i], steps[i]);
      hide Remaining, IsStart;
      DrainBounded(states, steps, i + 1);
    }
  }

  /** A stopped pool whose workers have not all exited has a worker that can step. */
  lemma {:induction false} NoDeadlock(p: Pool) returns (step: Step)
    requires p.stopped && !AllExited(p)
    ensures Enabled(p, step) && IsWorker(step)
  {
    var w :| 0 <= w < |p.workers| && !p.workers[w].Exited?;
    step := if p.workers[w].Running? then Finish(w) else if p.queue != [] then Take(w) else Exit(w);
  }

  /** Steps of the workers alone. */
  ghost predicate WorkersOnly(steps: seq<Step>, from: nat) {
    forall i :: from <= i < |steps| ==> IsWorker(steps[i])
  }

  /** Every run that has stopped the pool, whatever came before and after, can be ended by its workers
      alone, and then every task has run once exactly if none had come too late. */
  lemma {:induction false} Drains(states: seq<Pool>, steps: seq<Step>)
    returns (states': seq<Pool>, steps': seq<Step>)
    requires IsRun(states, steps) && states[|steps|].stopped
    ensures IsRun(states', steps') && |steps| <= |steps'| && steps'[..|steps|] == steps && WorkersOnly(steps', |steps|)
    ensures AllExited(states'[|steps'|])
    ensures states'[|steps'|].completed == states'[|steps'|].submitted <==> NoneLate(states, steps, |steps|)
    decreases Remaining(states[|steps|])
  {
    hide Remaining, Enabled, Next, IsStart;
    var p := states[|steps|];
    if AllExited(p) {
      states', steps' := states, steps;
      AllRunOnce(states, steps, |steps|);
    } else {
      var step := NoDeadlock(p);
      StepProgress(p, step);
      StaysStopped(p, step);
      ExtendRun(states, steps, step);
      var ahead, more := states + [Next(p, step)], steps + [step];
      LateExtended(states, steps, ahead, more);
      states', steps' := Drains(ahead, more);
      assert steps'[..|steps|] == steps'[..|more|][..|steps|] == steps;
      assert steps'[|steps|] == steps'[..|more|][|steps|] == step;
    }
  }

  lemma {:induction false} LateExtended(states: seq<Pool>, steps: seq<Step>, ahead: seq<Pool>, more: seq<Step>)
    requires |steps| < |states| && |more| == |steps| + 1 < |ahead| && more[..|steps|] == steps
    requires |states| <= |ahead| && ahead[..|states|] == states && IsWorker(more[|steps|])
    ensures NoneLate(ahead, more, |more|) <==> NoneLate(states, steps, |steps|)
  {
    hide AllExited;
    forall j | 0 <= j < |steps|
      ensures ahead[j] == states[j] && more[j] == steps[j]
    {
      assert ahead[j] == ahead[..|states|][j] && more[j] == more[..|steps|][j];
    }
    if NoneLate(ahead, more, |more|) {
      forall j | 0 <= j < |steps|
        ensures !Late(states[j], steps[j])
      {
        assert !Late(ahead[j], more[j]);
      }
    }
  }

  lemma {:induction false} StaysStopped(p: Pool, step: Step)
    requires Enabled(p, step) && p.stopped
    ensures Next(p, step).stopped
  {
  }

  lemma {:induction false} ExtendRun(states: seq<Pool>, steps: seq<Step>, step: Step)
    requires IsRun(states, steps) && Enabled(states[|steps|], step)
    ensures IsRun(states + [Next(states[|steps|], step)], steps + [step])
  {
    hide Enabled, IsStart;
    var more, ahead := steps + [step], states + [Next(states[|steps|], step)];
    forall i | 0 <= i < |more|
      ensures Enabled(ahead[i], more[i]) && ahead[i + 1] == Next(ahead[i], more[i])
    {
      if i < |steps| {
        assert ahead[i] == states[i] && more[i] == steps[i] && ahead[i + 1] == states[i + 1];
      }
    }
  }
}
