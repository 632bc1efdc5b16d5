/** Parallel algorithms called from tasks of the worker pool: a task that calls one submits its chunks
    and waits for them, and so keeps its worker. */
module NestedPool {

  /** A task without calls, or one that calls an algorithm over chunks and then goes on. */
  datatype Task = Plain | Call(chunks: seq<Task>, rest: Task)

  /** A queued task, with the number of its future. */
  datatype Job = Job(ticket: nat, task: Task)

  /** A calling worker has chunks left to submit, or waits on those submitted. */
  datatype Worker =
    | Idle
    | Running(ticket: nat, task: Task)
    | Calling(ticket: nat, left: seq<Task>, rest: Task, on: set<nat>)

  datatype Pool = Pool(workers: seq<Worker>, queue: seq<Job>, issued: nat, done: set<nat>)

  datatype Step =
    | Submit(task: Task)
    | Take(worker: nat)
    | Begin(worker: nat)
    | Push(worker: nat)
    | Resume(worker: nat)
    | Finish(worker: nat)

  predicate Enabled(p: Pool, step: Step) {
    if step.Submit? then true
    else
      step.worker < |p.workers| &&
      var worker := p.workers[step.worker];
      match step
      case Take(_) => worker.Idle? && p.queue != []
      case Begin(_) => worker.Running? && worker.task.Call?
      case Push(_) => worker.Calling? && worker.left != []
      case Resume(_) => worker.Calling? && worker.left == [] && worker.on <= p.done
      case Finish(_) => worker.Running? && worker.task.Plain?
  }

  function Enqueued(p: Pool, task: Task): Pool {
    p.(queue := p.queue + [Job(p.issued, task)], issued := p.issued + 1)
  }

  function With(p: Pool, w: nat, worker: Worker): Pool
    requires w < |p.workers|
  {
    p.(workers := p.workers[w := worker])
  }

  function Next(p: Pool, step: Step): Pool
    requires Enabled(p, step)
  {
    match step
    case Submit(task) => Enqueued(p, task)
    case Take(w) => With(p, w, Running(p.queue[0].ticket, p.queue[0].task)).(queue := p.queue[1..])
    case Begin(w) =>
      var worker := p.workers[w];
      With(p, w, Calling(worker.ticket, worker.task.chunks, worker.task.rest, {}))
    case Push(w) =>
      var worker := p.workers[w];
      With(Enqueued(p, worker.left[0]), w, worker.(left := worker.left[1..], on := worker.on + {p.issued}))
    case Resume(w) => With(p, w, Running(p.workers[w].ticket, p.workers[w].rest))
    case Finish(w) => With(p, w, Idle).(done := p.done + {p.workers[w].ticket})
  }

  // ---- Where every task is ----

  ghost predicate Holds(worker: Worker, ticket: nat) {
    !worker.Idle? && worker.ticket == ticket
  }

  ghost predicate Placed(p: Pool, ticket: nat) {
    || ticket in p.done
    || (exists w :: 0 <= w < |p.workers| && Holds(p.workers[w], ticket))
    || (exists k :: 0 <= k < |p.queue| && p.queue[k].ticket == ticket)
  }

  /** A worker holds a task that was submitted, and waits on later ones. */
  ghost predicate IsWorker(worker: Worker, issued: nat) {
    && (!worker.Idle? ==> worker.ticket < issued)
    && (worker.Calling? ==> forall x :: x in worker.on ==> worker.ticket < x < issued)
  }

  ghost predicate Invariant(p: Pool) {
    && p.workers != []
    && (forall w :: 0 <= w < |p.workers| ==> IsWorker(p.workers[w], p.issued))
    && (forall k :: 0 <= k < |p.queue| ==> p.queue[k].ticket < p.issued)
    && (forall ticket: nat :: ticket < p.issued ==> Placed(p, ticket))
  }

  lemma {:induction false} StaysPlaced(p: Pool, step: Step, ticket: nat)
    requires Enabled(p, step) && Placed(p, ticket)
    ensures Placed(Next(p, step), ticket)
  {
    var q := Next(p, step);
    if ticket in p.done {
    } else if w :| 0 <= w < |p.workers| && Holds(p.workers[w], ticket) {
      assert step.Submit? || step.worker != w ==> Holds(q.workers[w], ticket);
      assert !step.Submit? && step.worker == w && !step.Finish? ==> Holds(q.workers[w], ticket);
    } else {
      var k :| 0 <= k < |p.queue| && p.queue[k].ticket == ticket;
      if step.Take? {
        if k == 0 {
          assert Holds(q.workers[step.worker], ticket);
        } else {
          assert q.queue[k - 1].ticket == ticket;
        }
      } else {
        assert q.queue[k].ticket == ticket;
      }
    }
  }

  lemma {:induction false} NewPlaced(p: Pool, step: Step)
    requires Enabled(p, step)
    ensures Next(p, step).issued == p.issued ||
            (Next(p, step).issued == p.issued + 1 && Placed(Next(p, step), p.issued))
  {
    if step.Submit? || step.Push? {
      assert Next(p, step).queue[|p.queue|].ticket == p.issued;
    }
  }

  lemma {:induction false} StaysWorker(p: Pool, step: Step, w: nat)
    requires Enabled(p, step) && Invariant(p) && w < |p.workers|
    ensures IsWorker(Next(p, step).workers[w], Next(p, step).issued)
  {
    assert IsWorker(p.workers[w], p.issued);
  }

  lemma {:induction false} NextInvariant(p: Pool, step: Step)
    requires Enabled(p, step) && Invariant(p)
    ensures Invariant(Next(p, step)) && |Next(p, step).workers| == |p.workers|
  {
    var q := Next(p, step);
    assert |q.workers| == |p.workers|;
    forall w | 0 <= w < |q.workers|
      ensures IsWorker(q.workers[w], q.issued)
    {
      StaysWorker(p, step, w);
    }
    assert forall k :: 0 <= k < |q.queue| ==> q.queue[k].ticket < q.issued;
    NewPlaced(p, step);
    hide IsWorker, Placed;
    forall ticket: nat | ticket < q.issued
      ensures Placed(q, ticket)
    {
      if ticket < p.issued {
        StaysPlaced(p, step, ticket);
      }
    }
  }

  // ---- What is stuck ----

  /** A worker that waits on a task that has not been done. */
  predicate Blocked(p: Pool, w: nat)
    requires w < |p.workers|
  {
    var worker := p.workers[w];
    worker.Calling? && worker.left == [] && !(worker.on <= p.done)
  }

  /** Every worker is blocked. */
  ghost predicate Stuck(p: Pool) {
    forall w :: 0 <= w < |p.workers| ==> Blocked(p, w)
  }

  /** There is nothing left to do. */
  ghost predicate Quiet(p: Pool) {
    p.queue == [] && forall w :: 0 <= w < |p.workers| ==> p.workers[w].Idle?
  }

  /** No worker can take a step. */
  ghost predicate Halted(p: Pool) {
    forall step :: Enabled(p, step) ==> step.Submit?
  }

  lemma {:induction false} HaltedWorker(p: Pool, w: nat)
    requires Halted(p) && w < |p.workers|
    ensures (p.workers[w].Idle? && p.queue == []) || Blocked(p, w)
  {
    assert !Enabled(p, Take(w));
    assert !Enabled(p, Begin(w));
    assert !Enabled(p, Push(w));
    assert !Enabled(p, Resume(w));
    assert !Enabled(p, Finish(w));
  }

  /** A blocked worker and an empty queue leave a worker that holds what it waits on. */
  lemma {:induction false} AwaitedHeld(p: Pool, w: nat) returns (v: nat)
    requires Invariant(p) && w < |p.workers| && Blocked(p, w) && p.queue == []
    ensures v < |p.workers| && !p.workers[v].Idle? && p.workers[v].ticket > p.workers[w].ticket
  {
    var x :| x in p.workers[w].on && x !in p.done;
    assert IsWorker(p.workers[w], p.issued);
    assert Placed(p, x);
    v :| 0 <= v < |p.workers| && Holds(p.workers[v], x);
  }

  /** If a worker is idle then no worker is blocked for ever: the last task held can go on. */
  lemma {:induction false} NoneBlocked(p: Pool, w: nat)
    requires Invariant(p) && Halted(p) && p.queue == [] && w < |p.workers|
    ensures p.workers[w].Idle?
    decreases p.issued - (if p.workers[w].Idle? then 0 else p.workers[w].ticket)
  {
    HaltedWorker(p, w);
    if !p.workers[w].Idle? {
      assert IsWorker(p.workers[w], p.issued);
      var v := AwaitedHeld(p, w);
      assert IsWorker(p.workers[v], p.issued);
      NoneBlocked(p, v);
    }
  }

  /** No worker can step exactly when all work is done or every worker is blocked. */
  lemma {:induction false} HaltedIff(p: Pool)
    requires Invariant(p)
    ensures Halted(p) <==> Quiet(p) || Stuck(p)
  {
    if Halted(p) {
      hide Halted;
      if p.queue == [] {
        forall w | 0 <= w < |p.workers|
          ensures p.workers[w].Idle?
        {
          NoneBlocked(p, w);
        }
      } else {
        forall w | 0 <= w < |p.workers|
          ensures Blocked(p, w)
        {
          HaltedWorker(p, w);
        }
      }
    } else {
      var step :| Enabled(p, step) && !step.Submit?;
      assert !Blocked(p, step.worker);
    }
  }

  lemma {:induction false} QuietDone(p: Pool)
    requires Invariant(p) && Quiet(p)
    ensures forall ticket: nat :: ticket < p.issued ==> ticket in p.done
  {
    forall ticket: nat | ticket < p.issued
      ensures ticket in p.done
    {
      assert Placed(p, ticket);
    }
  }

  // ---- Callers ----

  /** The tasks that call an algorithm, among a task and all that it leads to. */
  ghost function Callers(task: Task): nat
    decreases task, 1
  {
    if task.Plain? then 0 else 1 + Nested(task)
  }

  ghost function Nested(task: Task): nat
    decreases task, 0
  {
    if task.Plain? then 0 else CallersOf(task.chunks) + Nested(task.rest)
  }

  ghost function CallersOf(tasks: seq<Task>): nat
    decreases tasks, 0
  {
    if tasks == [] then 0 else Callers(tasks[0]) + CallersOf(tasks[1..])
  }

  ghost function WorkerCallers(worker: Worker): nat {
    match worker
    case Idle => 0
    case Running(_, task) => Callers(task)
    case Calling(_, left, rest, _) => 1 + CallersOf(left) + Nested(rest)
  }

  ghost function AllCallers(workers: seq<Worker>): nat {
    if workers == [] then 0 else AllCallers(workers[..|workers| - 1]) + WorkerCallers(workers[|workers| - 1])
  }

  ghost function QueueCallers(queue: seq<Job>): nat {
    if queue == [] then 0 else QueueCallers(queue[..|queue| - 1]) + Callers(queue[|queue| - 1].task)
  }

  ghost function PoolCallers(p: Pool): nat {
    AllCallers(p.workers) + QueueCallers(p.queue)
  }

  lemma {:induction false} CallersUpdate(workers: seq<Worker>, w: nat, worker: Worker)
    requires w < |workers|
    ensures AllCallers(workers[w := worker]) + WorkerCallers(workers[w]) == AllCallers(workers) + WorkerCallers(worker)
    decreases |workers|
  {
    hide WorkerCallers;
    var n := |workers| - 1;
    if w < n {
      CallersUpdate(workers[..n], w, worker);
      assert workers[w := worker][..n] == workers[..n][w := worker];
    } else {
      assert workers[w := worker][..n] == workers[..n];
    }
  }

  lemma {:induction false} QueueFirst(queue: seq<Job>)
    requires queue != []
    ensures QueueCallers(queue) == Callers(queue[0].task) + QueueCallers(queue[1..])
    decreases |queue|
  {
    hide Callers;
    if |queue| > 1 {
      var front := queue[..|queue| - 1];
      QueueFirst(front);
      assert front[1..] == queue[1..][..|queue| - 2];
    }
  }

  lemma {:induction false} QueueLast(queue: seq<Job>, job: Job)
    ensures QueueCallers(queue + [job]) == QueueCallers(queue) + Callers(job.task)
  {
    assert (queue + [job])[..|queue|] == queue;
  }

  /** No step of a worker makes more callers. */
  lemma {:induction false} CallersKept(p: Pool, step: Step)
    requires Enabled(p, step)
    ensures PoolCallers(Next(p, step)) <= PoolCallers(p) + if step.Submit? then Callers(step.task) else 0
  {
    var q := Next(p, step);
    hide AllCallers, QueueCallers;
    match step
    case Submit(task) => QueueLast(p.queue, Job(p.issued, task));
    case Take(w) =>
      CallersUpdate(p.workers, w, q.workers[w]);
      QueueFirst(p.queue);
    case Begin(w) =>
      CallersUpdate(p.workers, w, q.workers[w]);
      var task := p.workers[w].task;
      assert Nested(task) == CallersOf(task.chunks) + Nested(task.rest);
    case Push(w) =>
      CallersUpdate(p.workers, w, q.workers[w]);
      QueueLast(p.queue, Job(p.issued, p.workers[w].left[0]));
    case Resume(w) => CallersUpdate(p.workers, w, q.workers[w]);
    case Finish(w) => CallersUpdate(p.workers, w, q.workers[w]);
  }

  lemma {:induction false} BlockedCallers(workers: seq<Worker>)
    requires forall w :: 0 <= w < |workers| ==> workers[w].Calling?
    ensures AllCallers(workers) >= |workers|
    decreases |workers|
  {
    if workers != [] {
      BlockedCallers(workers[..|workers| - 1]);
    }
  }

  /** With fewer callers than workers the pool is not stuck. */
  lemma {:induction false} FewCallers(p: Pool)
    requires p.workers != [] && PoolCallers(p) < |p.workers|
    ensures !Stuck(p)
  {
    if Stuck(p) {
      forall w | 0 <= w < |p.workers|
        ensures p.workers[w].Calling?
      {
        assert Blocked(p, w);
      }
      BlockedCallers(p.workers);
    }
  }

  // ---- Effort ----

  /** The steps of a task and of all that it leads to. */
  ghost function Effort(task: Task): nat {
    if task.Plain? then 1 else 2 + EffortOf(task.chunks) + Effort(task.rest)
  }

  ghost function EffortOf(tasks: seq<Task>): nat {
    if tasks == [] then 0 else Effort(tasks[0]) + 2 + EffortOf(tasks[1..])
  }

  ghost function WorkerEffort(worker: Worker): nat {
    match worker
    case Idle => 0
    case Running(_, task) => Effort(task)
    case Calling(_, left, rest, _) => 1 + EffortOf(left) + Effort(rest)
  }

  ghost function AllEffort(workers: seq<Worker>): nat {
    if workers == [] then 0 else AllEffort(workers[..|workers| - 1]) + WorkerEffort(workers[|workers| - 1])
  }

  ghost function QueueEffort(queue: seq<Job>): nat {
    if queue == [] then 0 else QueueEffort(queue[..|queue| - 1]) + Effort(queue[|queue| - 1].task) + 1
  }

  ghost function PoolEffort(p: Pool): nat {
    AllEffort(p.workers) + QueueEffort(p.queue)
  }

  lemma {:induction false} EffortUpdate(workers: seq<Worker>, w: nat, worker: Worker)
    requires w < |workers|
    ensures AllEffort(workers[w := worker]) + WorkerEffort(workers[w]) == AllEffort(workers) + WorkerEffort(worker)
    decreases |workers|
  {
    hide WorkerEffort;
    var n := |workers| - 1;
    if w < n {
      EffortUpdate(workers[..n], w, worker);
      assert workers[w := worker][..n] == workers[..n][w := worker];
    } else {
      assert workers[w := worker][..n] == workers[..n];
    }
  }

  lemma {:induction false} EffortFirst(queue: seq<Job>)
    requires queue != []
    ensures QueueEffort(queue) == Effort(queue[0].task) + 1 + QueueEffort(queue[1..])
    decreases |queue|
  {
    hide Effort;
    if |queue| > 1 {
      var front := queue[..|queue| - 1];
      EffortFirst(front);
      assert front[1..] == queue[1..][..|queue| - 2];
    }
  }

  lemma {:induction false} EffortLast(queue: seq<Job>, job: Job)
    ensures QueueEffort(queue + [job]) == QueueEffort(queue) + Effort(job.task) + 1
  {
    assert (queue + [job])[..|queue|] == queue;
  }

  /** Each step of a worker leaves fewer. */
  lemma {:induction false} EffortLess(p: Pool, step: Step)
    requires Enabled(p, step) && !step.Submit?
    ensures PoolEffort(Next(p, step)) < PoolEffort(p)
  {
    var q := Next(p, step);
    hide AllEffort, QueueEffort;
    EffortUpdate(p.workers, step.worker, q.workers[step.worker]);
    match step
    case Take(w) => EffortFirst(p.queue);
    case Push(w) => EffortLast(p.queue, Job(p.issued, p.workers[w].left[0]));
    case _ =>
  }

  // ---- Runs of the workers ----

  ghost predicate CanRun(p: Pool, steps: seq<Step>)
    decreases |steps|
  {
    steps == [] || (!steps[0].Submit? && Enabled(p, steps[0]) && CanRun(Next(p, steps[0]), steps[1..]))
  }

  ghost function After(p: Pool, steps: seq<Step>): Pool
    requires CanRun(p, steps)
    decreases |steps|
  {
    if steps == [] then p else After(Next(p, steps[0]), steps[1..])
  }

  /** With fewer callers than workers every run of the workers is bounded, and one that can not go on has
      done every task. */
  lemma {:induction false} NestedCompletes(p: Pool, steps: seq<Step>)
    requires Invariant(p) && PoolCallers(p) < |p.workers| && CanRun(p, steps)
    ensures |steps| <= PoolEffort(p)
    ensures var q := After(p, steps);
      !Stuck(q) && (Halted(q) ==> Quiet(q) && forall ticket: nat :: ticket < q.issued ==> ticket in q.done)
    decreases |steps|
  {
    if steps == [] {
      FewCallers(p);
      HaltedIff(p);
      hide Stuck, Halted, Invariant;
      if Quiet(p) {
        QuietDone(p);
      }
    } else {
      hide Invariant, Stuck, Halted, Quiet, PoolCallers, PoolEffort;
      NextInvariant(p, steps[0]);
      CallersKept(p, steps[0]);
      EffortLess(p, steps[0]);
      NestedCompletes(Next(p, steps[0]), steps[1..]);
    }
  }

  // ---- As many callers as workers ----

  lemma {:induction false} RunsOn(p: Pool, step: Step, steps: seq<Step>)
    requires !step.Submit? && Enabled(p, step) && CanRun(Next(p, step), steps)
    ensures CanRun(p, [step] + steps) && After(p, [step] + steps) == After(Next(p, step), steps)
  {
    hide Enabled, Next;
    assert ([step] + steps)[1..] == steps;
  }

  /** A worker that waits on tasks from a number on. */
  ghost predicate Parked(worker: Worker, from: nat) {
    worker.Calling? && worker.left == [] && worker.on != {} && forall x :: x in worker.on ==> x >= from
  }

  /** The first workers are parked and the others idle, with tasks at the head of the queue. All tasks
      done are from before a number, and all that workers are parked on from then on. */
  ghost predicate Filling(p: Pool, parked: nat, tasks: seq<Task>, from: nat) {
    && parked <= |p.workers| && |tasks| <= |p.queue| && from <= p.issued
    && (forall w :: 0 <= w < parked ==> Parked(p.workers[w], from))
    && (forall w :: parked <= w < |p.workers| ==> p.workers[w].Idle?)
    && (forall k :: 0 <= k < |tasks| ==> p.queue[k].task == tasks[k] && p.queue[k].ticket < from)
    && (forall x :: x in p.done ==> x < from)
  }

  /** The same while the next worker submits chunks. */
  ghost predicate Filled(p: Pool, parked: nat, tasks: seq<Task>, from: nat) {
    && parked < |p.workers| && p.workers[parked].Calling?
    && (forall x :: x in p.workers[parked].on ==> x >= from)
    && Filling(With(p, parked, Idle), parked, tasks, from)
  }

  /** The rest of the chunks are submitted, and then the worker is parked too. */
  lemma {:induction false} ParkNext(p: Pool, parked: nat, tasks: seq<Task>, from: nat) returns (steps: seq<Step>)
    requires Filled(p, parked, tasks, from)
    requires p.workers[parked].left != [] || p.workers[parked].on != {}
    ensures CanRun(p, steps) && Filling(After(p, steps), parked + 1, tasks, from)
    ensures |After(p, steps).workers| == |p.workers|
    decreases |p.workers[parked].left|
  {
    var worker := p.workers[parked];
    if worker.left == [] {
      steps := [];
      var q := With(p, parked, Idle);
      assert forall w :: 0 <= w < |p.workers| && w != parked ==> q.workers[w] == p.workers[w];
    } else {
      var q := Next(p, Push(parked));
      assert With(q, parked, Idle).workers == With(p, parked, Idle).workers;
      assert q.queue == p.queue + [Job(p.issued, worker.left[0])];
      assert p.issued in q.workers[parked].on;
      var more := ParkNext(q, parked, tasks, from);
      RunsOn(p, Push(parked), more);
      steps := [Push(parked)] + more;
    }
  }

  /** Whether every call of a task has chunks. */
  ghost predicate Proper(task: Task) {
    task.Call? ==> task.chunks != []
  }

  ghost function Calls(tasks: seq<Task>): nat {
    if tasks == [] then 0 else (if tasks[0].Call? then 1 else 0) + Calls(tasks[1..])
  }

  /** As many callers in the queue as there are idle workers can keep them all. */
  lemma {:induction false} ReachStuck(p: Pool, parked: nat, tasks: seq<Task>, from: nat) returns (steps: seq<Step>)
    requires Filling(p, parked, tasks, from) && Calls(tasks) >= |p.workers| - parked
    requires forall k :: 0 <= k < |tasks| ==> Proper(tasks[k])
    ensures CanRun(p, steps) && Stuck(After(p, steps))
    decreases |tasks|
  {
    if parked == |p.workers| {
      steps := [];
      AllParked(p, from);
    } else {
      var q := Next(p, Take(parked));
      TakesNext(p, parked, tasks, from);
      if tasks[0].Plain? {
        var r := Next(q, Finish(parked));
        var more := ReachStuck(r, parked, tasks[1..], from);
        RunsOn(q, Finish(parked), more);
        RunsOn(p, Take(parked), [Finish(parked)] + more);
        steps := [Take(parked)] + ([Finish(parked)] + more);
      } else {
        var r := Next(q, Begin(parked));
        var pushes := ParkNext(r, parked, tasks[1..], from);
        var more := ReachStuck(After(r, pushes), parked + 1, tasks[1..], from);
        RunsThen(r, pushes, more);
        RunsOn(q, Begin(parked), pushes + more);
        RunsOn(p, Take(parked), [Begin(parked)] + (pushes + more));
        steps := [Take(parked)] + ([Begin(parked)] + (pushes + more));
      }
    }
  }

  lemma {:induction false} RunsThen(p: Pool, first: seq<Step>, second: seq<Step>)
    requires CanRun(p, first) && CanRun(After(p, first), second)
    ensures CanRun(p, first + second) && After(p, first + second) == After(After(p, first), second)
    decreases |first|
  {
    hide Enabled, Next;
    if first == [] {
      assert first + second == second;
    } else {
      RunsThen(Next(p, first[0]), first[1..], second);
      assert (first + second)[1..] == first[1..] + second;
    }
  }

  lemma {:induction false} AllParked(p: Pool, from: nat)
    requires (forall w :: 0 <= w < |p.workers| ==> Parked(p.workers[w], from)) && forall x :: x in p.done ==> x < from
    ensures Stuck(p)
  {
    forall w | 0 <= w < |p.workers|
      ensures Blocked(p, w)
    {
      assert Parked(p.workers[w], from);
      var x :| x in p.workers[w].on;
    }
  }

  /** The next idle worker takes the first task, which it finishes or begins. */
  lemma {:induction false} TakesNext(p: Pool, parked: nat, tasks: seq<Task>, from: nat)
    requires Filling(p, parked, tasks, from) && parked < |p.workers| && tasks != [] && Proper(tasks[0])
    ensures Enabled(p, Take(parked))
    ensures var q := Next(p, Take(parked));
      && |q.workers| == |p.workers|
      && (tasks[0].Plain? ==> Enabled(q, Finish(parked)) && Filling(Next(q, Finish(parked)), parked, tasks[1..], from))
      && (tasks[0].Call? ==> Enabled(q, Begin(parked)) && Filled(Next(q, Begin(parked)), parked, tasks[1..], from) &&
                             Next(q, Begin(parked)).workers[parked].left != [])
  {
    assert p.workers[parked].Idle? && p.queue[0].task == tasks[0] && p.queue[0].ticket < from;
    var q := Next(p, Take(parked));
    assert forall k :: 0 <= k < |tasks| - 1 ==> q.queue[k] == p.queue[k + 1];
    if tasks[0].Call? {
      var r := Next(q, Begin(parked));
      assert With(r, parked, Idle).workers == p.workers;
    } else {
      assert Next(q, Finish(parked)).workers == p.workers;
    }
  }

  // ---- Calls of one level ----

  /** A task whose chunks call nothing themselves. */
  ghost predicate OneLevel(task: Task) {
    task.Call? ==>
      task.chunks != [] && (forall k :: 0 <= k < |task.chunks| ==> task.chunks[k].Plain?) && OneLevel(task.rest)
  }

  lemma {:induction false} PlainCallers(tasks: seq<Task>)
    requires forall k :: 0 <= k < |tasks| ==> tasks[k].Plain?
    ensures CallersOf(tasks) == 0
    decreases |tasks|
  {
    if tasks != [] {
      PlainCallers(tasks[1..]);
    }
  }

  lemma {:induction false} OneLevelNested(task: Task)
    requires OneLevel(task)
    ensures Nested(task) == 0
  {
    if task.Call? {
      PlainCallers(task.chunks);
      OneLevelNested(task.rest);
    }
  }

  /** A pool of idle workers with tasks in its queue. */
  ghost function Loaded(workers: nat, tasks: seq<Task>): Pool {
    Pool(seq(workers, _ => Idle), seq(|tasks|, k requires 0 <= k < |tasks| => Job(k, tasks[k])), |tasks|, {})
  }

  /** The pool after tasks have been submitted, one by one. */
  ghost function AfterSubmits(p: Pool, tasks: seq<Task>): Pool
    decreases |tasks|
  {
    if tasks == [] || !Enabled(p, Submit(tasks[0])) then p else AfterSubmits(Next(p, Submit(tasks[0])), tasks[1..])
  }

  /** Submitting tasks to a pool with others in its queue leaves it with all of them. */
  lemma {:induction false} LoadedBySubmits(workers: nat, tasks: seq<Task>, more: seq<Task>)
    ensures AfterSubmits(Loaded(workers, tasks), more) == Loaded(workers, tasks + more)
    decreases |more|
  {
    if more == [] {
      assert tasks + more == tasks;
    } else {
      var longer := tasks + [more[0]];
      assert Next(Loaded(workers, tasks), Submit(more[0])) == Loaded(workers, longer);
      LoadedBySubmits(workers, longer, more[1..]);
      assert longer + more[1..] == tasks + more;
    }
  }

  lemma {:induction false} LoadedInvariant(workers: nat, tasks: seq<Task>)
    requires workers > 0
    ensures Invariant(Loaded(workers, tasks)) && Filling(Loaded(workers, tasks), 0, tasks, |tasks|)
  {
    var p := Loaded(workers, tasks);
    forall ticket: nat | ticket < p.issued
      ensures Placed(p, ticket)
    {
      assert p.queue[ticket].ticket == ticket;
    }
  }

  lemma {:induction false} IdleCallers(workers: seq<Worker>)
    requires forall w :: 0 <= w < |workers| ==> workers[w].Idle?
    ensures AllCallers(workers) == 0
    decreases |workers|
  {
    if workers != [] {
      IdleCallers(workers[..|workers| - 1]);
    }
  }

  lemma {:induction false} LoadedQueue(queue: seq<Job>, tasks: seq<Task>)
    requires |queue| == |tasks| && forall k :: 0 <= k < |tasks| ==> queue[k].task == tasks[k] && OneLevel(tasks[k])
    ensures QueueCallers(queue) == Calls(tasks)
    decreases |tasks|
  {
    hide OneLevel, Nested;
    if tasks != [] {
      QueueFirst(queue);
      OneLevelNested(tasks[0]);
      LoadedQueue(queue[1..], tasks[1..]);
    }
  }

  ghost predicate StuckAfter(p: Pool, steps: seq<Step>) {
    CanRun(p, steps) && Stuck(After(p, steps))
  }

  /** Some run of the workers of a pool with tasks in its queue gets stuck if and only if as many of the
      tasks call an algorithm as there are workers. */
  lemma {:induction false} StuckIffCallers(workers: nat, tasks: seq<Task>)
    requires workers > 0 && forall k :: 0 <= k < |tasks| ==> OneLevel(tasks[k])
    ensures (exists steps :: StuckAfter(Loaded(workers, tasks), steps)) <==> Calls(tasks) >= workers
  {
    var p := Loaded(workers, tasks);
    LoadedInvariant(workers, tasks);
    IdleCallers(p.workers);
    LoadedQueue(p.queue, tasks);
    if Calls(tasks) >= workers {
      var steps := ReachStuck(p, 0, tasks, |tasks|);
      assert StuckAfter(p, steps);
    } else {
      forall steps | CanRun(p, steps)
        ensures !StuckAfter(p, steps)
      {
        NestedCompletes(p, steps);
      }
    }
  }
}
