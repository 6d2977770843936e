/** src/common/worker_pool.cpp: a mutex and condition-variable queue drained by N workers. The critical
    sections are atomic; everything between them may interleave in any way, notifications included. */
module WorkerPools {
  import opened Bytes

  type Task = int

  /** Where a worker stands: blocked in `cond_.wait`, about to take the lock and look, running a task, gone. */
  datatype Worker = Waiting | Looking | Running(task: Task) | Exited

  /** The pool's fields and its threads; `owed` counts submitters that pushed and have not notified yet,
      `owedAll` is a destructor that has stopped the pool and not notified yet. The logs are histories. */
  datatype Pool = Pool(
    tasks: seq<Task>,
    stopped: bool,
    workers: seq<Worker>,
    owed: nat,
    owedAll: bool,
    accepted: seq<Task>,
    dequeued: seq<Task>,
    finished: multiset<Task>)

  datatype Step =
    | Submit(task: Task)
    | NotifyOne(woken: Option<nat>)
    | Look(i: nat)
    | Spurious(i: nat)
    | Finish(i: nat)
    | Stop
    | NotifyAll

  function NewPool(n: nat): Pool {
    Pool([], false, seq(n, _ => Looking), 0, false, [], [], multiset{})
  }

  predicate Can(p: Pool, s: Step) {
    match s
    case Submit(_) => true
    case NotifyOne(None) => p.owed > 0 && forall i | 0 <= i < |p.workers| :: !p.workers[i].Waiting?
    case NotifyOne(Some(i)) => p.owed > 0 && i < |p.workers| && p.workers[i].Waiting?
    case Look(i) => i < |p.workers| && p.workers[i].Looking?
    case Spurious(i) => i < |p.workers| && p.workers[i].Waiting?
    case Finish(i) => i < |p.workers| && p.workers[i].Running?
    case Stop => !p.stopped
    case NotifyAll => p.owedAll
  }

  function WokenAll(ws: seq<Worker>): (r: seq<Worker>)
    ensures |r| == |ws|
    ensures forall i | 0 <= i < |ws| :: r[i] == if ws[i].Waiting? then Looking else ws[i]
  {
    if ws == [] then [] else [if ws[0].Waiting? then Looking else ws[0]] + WokenAll(ws[1..])
  }

  function Next(p: Pool, s: Step): Pool
    requires Can(p, s)
  {
    match s
    case Submit(t) =>
      if p.stopped then p
      else p.(tasks := p.tasks + [t], accepted := p.accepted + [t], owed := p.owed + 1)
    case NotifyOne(None) => p.(owed := p.owed - 1)
    case NotifyOne(Some(i)) => p.(owed := p.owed - 1, workers := p.workers[i := Looking])
    case Look(i) =>
      if !p.stopped && p.tasks == [] then p.(workers := p.workers[i := Waiting])
      else if p.tasks == [] then p.(workers := p.workers[i := Exited])
      else
        p.(workers := p.workers[i := Running(p.tasks[0])], tasks := p.tasks[1..], dequeued := p.dequeued + [p.tasks[0]])
    case Spurious(i) => p.(workers := p.workers[i := Looking])
    case Finish(i) => p.(workers := p.workers[i := Looking], finished := p.finished + multiset{p.workers[i].task})
    case Stop => p.(stopped := true, owedAll := true)
    case NotifyAll => p.(owedAll := false, workers := WokenAll(p.workers))
  }

  function TaskOf(w: Worker): multiset<Task> {
    if w.Running? then multiset{w.task} else multiset{}
  }

  /** The tasks being run. */
  function InProgress(ws: seq<Worker>): multiset<Task> {
    if ws == [] then multiset{} else TaskOf(ws[0]) + InProgress(ws[1..])
  }

  ghost predicate Awake(p: Pool) {
    exists i :: 0 <= i < |p.workers| && (p.workers[i].Looking? || p.workers[i].Running?)
  }

  /** Holds in every reachable state. */
  ghost predicate Valid(p: Pool) {
    && p.workers != []
    // No lost wakeup: work that is waiting will be seen.
    && (p.tasks != [] ==> Awake(p) || p.owed > 0 || p.owedAll)
    // Each accepted task leaves the queue once, in order of submission, and is run or being run since.
    && p.accepted == p.dequeued + p.tasks
    && multiset(p.dequeued) == InProgress(p.workers) + p.finished
    // Workers leave only for good reason, and nobody waits behind a stop that has been announced.
    && (p.owedAll ==> p.stopped)
    && (forall i | 0 <= i < |p.workers| && p.workers[i].Exited? :: p.stopped && p.tasks == [])
    && (p.stopped && !p.owedAll ==> forall i | 0 <= i < |p.workers| :: !p.workers[i].Waiting?)
  }

  lemma AddLeft(a: multiset<Task>, x: multiset<Task>, y: multiset<Task>, z: multiset<Task>, w: multiset<Task>)
    requires x + y == z + w
    ensures (a + x) + y == (a + z) + w
  {
    assert (a + x) + y == a + (x + y);
    assert (a + z) + w == a + (z + w);
  }

  lemma Swapped(a: multiset<Task>, b: multiset<Task>, c: multiset<Task>)
    ensures (a + b) + c == (c + b) + a
  {
  }

  lemma {:induction false} ProgressUpdate(ws: seq<Worker>, i: nat, w: Worker)
    requires i < |ws|
    ensures InProgress(ws[i := w]) + TaskOf(ws[i]) == InProgress(ws) + TaskOf(w)
  {
    hide TaskOf;
    var next := ws[i := w];
    if i == 0 {
      assert next[1..] == ws[1..];
      Swapped(TaskOf(w), InProgress(ws[1..]), TaskOf(ws[0]));
    } else {
      assert next[1..] == ws[1..][i - 1 := w];
      ProgressUpdate(ws[1..], i - 1, w);
      AddLeft(TaskOf(ws[0]), InProgress(next[1..]), TaskOf(ws[i]), InProgress(ws[1..]), TaskOf(w));
    }
  }

  lemma ProgressWoken(ws: seq<Worker>)
    ensures InProgress(WokenAll(ws)) == InProgress(ws)
  {
    if ws != [] {
      ProgressWoken(ws[1..]);
      assert WokenAll(ws)[1..] == WokenAll(ws[1..]);
    }
  }

  lemma NewPoolValid(n: nat)
    requires n > 0
    ensures Valid(NewPool(n))
  {
    NothingInProgress(NewPool(n).workers);
  }

  lemma NothingInProgress(ws: seq<Worker>)
    requires forall i | 0 <= i < |ws| :: !ws[i].Running?
    ensures InProgress(ws) == multiset{}
  {
    if ws != [] {
      NothingInProgress(ws[1..]);
    }
  }

  /** Every step of every thread keeps the invariant. */
  lemma NextKeepsValid(p: Pool, s: Step)
    requires Valid(p) && Can(p, s)
    ensures Valid(Next(p, s)) && |Next(p, s).workers| == |p.workers|
  {
    hide InProgress, Valid;
    match s
    case Submit(t) => SubmitKeeps(p, t);
    case NotifyOne(None) => NobodyToNotify(p);
    case NotifyOne(Some(i)) => WakeOne(p, i);
    case Look(i) => if p.tasks == [] { NothingToTake(p, i); } else { TaskTaken(p, i); }
    case Spurious(i) => BackToLooking(p, i, p.finished);
    case Finish(i) => BackToLooking(p, i, p.finished + multiset{p.workers[i].task});
    case Stop => StopKeeps(p);
    case NotifyAll => EveryoneWoken(p);
  }

  lemma SubmitKeeps(p: Pool, t: Task)
    requires Valid(p)
    ensures Valid(Next(p, Submit(t)))
  {
    hide InProgress;
    Assoc(p.dequeued, p.tasks, [t]);
  }

  lemma StopKeeps(p: Pool)
    requires Valid(p) && Can(p, Stop)
    ensures Valid(Next(p, Stop))
  {
    hide InProgress;
  }

  /** With nobody waiting the first worker is awake, or has left an empty queue. */
  lemma NobodyToNotify(p: Pool)
    requires Valid(p) && Can(p, NotifyOne(None))
    ensures Valid(Next(p, NotifyOne(None)))
  {
    hide InProgress;
    assert p.tasks != [] ==> !p.workers[0].Exited? && !p.workers[0].Waiting?;
  }

  lemma WakeOne(p: Pool, i: nat)
    requires Valid(p) && Can(p, NotifyOne(Some(i)))
    ensures Valid(Next(p, NotifyOne(Some(i))))
  {
    hide InProgress;
    var q := p.(workers := p.workers[i := Looking]);
    BackToLooking(p, i, p.finished);
    assert Valid(q) && Awake(q);
    assert q.workers[i].Looking?;
  }

  lemma EveryoneWoken(p: Pool)
    requires Valid(p) && Can(p, NotifyAll)
    ensures Valid(Next(p, NotifyAll))
  {
    hide InProgress;
    ProgressWoken(p.workers);
    assert p.tasks != [] ==> !p.workers[0].Exited?;
  }

  lemma NothingToTake(p: Pool, i: nat)
    requires Valid(p) && Can(p, Look(i)) && p.tasks == []
    ensures Valid(Next(p, Look(i)))
  {
    hide InProgress;
    Balanced(p, i, if p.stopped then Exited else Waiting, multiset(p.dequeued), p.finished);
  }

  lemma BackToLooking(p: Pool, i: nat, finished: multiset<Task>)
    requires Valid(p) && i < |p.workers| && !p.workers[i].Exited? && !p.workers[i].Looking?
    requires finished == p.finished + TaskOf(p.workers[i])
    ensures Valid(p.(workers := p.workers[i := Looking], finished := finished))
    ensures Awake(p.(workers := p.workers[i := Looking], finished := finished))
  {
    hide InProgress;
    Balanced(p, i, Looking, multiset(p.dequeued), finished);
    assert p.workers[i := Looking][i].Looking?;
  }

  lemma TaskTaken(p: Pool, i: nat)
    requires Valid(p) && Can(p, Look(i)) && p.tasks != []
    ensures Valid(Next(p, Look(i)))
  {
    hide InProgress;
    Balanced(p, i, Running(p.tasks[0]), multiset(p.dequeued + [p.tasks[0]]), p.finished);
    assert p.tasks == [p.tasks[0]] + p.tasks[1..];
    Assoc(p.dequeued, [p.tasks[0]], p.tasks[1..]);
    assert Next(p, Look(i)).workers[i].Running?;
  }

  /** Moving a worker from `before` to `w` while `finished` grows by `extra` keeps the account balanced. */
  lemma Balanced(p: Pool, i: nat, w: Worker, dequeued: multiset<Task>, finished: multiset<Task>)
    requires i < |p.workers|
    requires dequeued + TaskOf(p.workers[i]) + p.finished == multiset(p.dequeued) + TaskOf(w) + finished
    requires multiset(p.dequeued) == InProgress(p.workers) + p.finished
    ensures dequeued == InProgress(p.workers[i := w]) + finished
  {
    hide TaskOf, InProgress;
    ProgressUpdate(p.workers, i, w);
    var a, b := InProgress(p.workers[i := w]), InProgress(p.workers);
    forall t ensures dequeued[t] == (a + finished)[t] {
      assert (a + TaskOf(p.workers[i]))[t] == (b + TaskOf(w))[t];
      assert (dequeued + TaskOf(p.workers[i]) + p.finished)[t] == (multiset(p.dequeued) + TaskOf(w) + finished)[t];
      assert multiset(p.dequeued)[t] == (b + p.finished)[t];
    }
  }

  // ---- Whole runs ----

  ghost predicate Run(p: Pool, steps: seq<Step>, q: Pool)
    decreases |steps|
  {
    if steps == [] then p == q else Can(p, steps[0]) && Run(Next(p, steps[0]), steps[1..], q)
  }

  lemma {:induction false} RunKeepsValid(p: Pool, steps: seq<Step>, q: Pool)
    requires Valid(p) && Run(p, steps, q)
    ensures Valid(q) && |q.workers| == |p.workers|
    decreases |steps|
  {
    if steps != [] {
      NextKeepsValid(p, steps[0]);
      RunKeepsValid(Next(p, steps[0]), steps[1..], q);
    }
  }

  /** The tasks given to `submit` in these steps before the pool is stopped, in order. */
  function Submitted(steps: seq<Step>): seq<Task> {
    if steps == [] || steps[0].Stop? then []
    else (if steps[0].Submit? then [steps[0].task] else []) + Submitted(steps[1..])
  }

  lemma StepAccepts(p: Pool, s: Step)
    requires Can(p, s)
    ensures var q := Next(p, s);
      && q.accepted == p.accepted + (if s.Submit? && !p.stopped then [s.task] else [])
      && (q.stopped <==> p.stopped || s.Stop?)
  {
    Units(p.accepted);
  }

  lemma {:induction false} SubmittedIsAccepted(p: Pool, steps: seq<Step>, q: Pool)
    requires Run(p, steps, q)
    ensures q.accepted == if p.stopped then p.accepted else p.accepted + Submitted(steps)
    ensures q.stopped <==> p.stopped || Stop in steps
    decreases |steps|
  {
    hide Next, Can;
    Units(p.accepted);
    if steps != [] {
      var first := if steps[0].Submit? then [steps[0].task] else [];
      StepAccepts(p, steps[0]);
      SubmittedIsAccepted(Next(p, steps[0]), steps[1..], q);
      Assoc(p.accepted, first, Submitted(steps[1..]));
      assert steps == [steps[0]] + steps[1..];
    }
  }

  /** From a pool of `n` workers, whatever the threads do: every task submitted before the stop is dequeued at most
      once and in submission order, it is queued, in progress or finished, and waiting work is never forgotten. */
  lemma NoTaskLost(n: nat, steps: seq<Step>, q: Pool)
    requires n > 0 && Run(NewPool(n), steps, q)
    ensures q.dequeued + q.tasks == Submitted(steps)
    ensures multiset(Submitted(steps)) == multiset(q.tasks) + InProgress(q.workers) + q.finished
    ensures q.tasks != [] ==> Awake(q) || q.owed > 0 || q.owedAll
  {
    NewPoolValid(n);
    RunKeepsValid(NewPool(n), steps, q);
    SubmittedIsAccepted(NewPool(n), steps, q);
    Units(Submitted(steps));
  }

  function Weight(ws: seq<Worker>): nat {
    if ws == [] then 0
    else (match ws[0] case Waiting => 2 case Looking => 1 case Running(_) => 2 case Exited => 0) + Weight(ws[1..])
  }

  /** What is left to do after a stop. */
  function Left(p: Pool): nat {
    3 * |p.tasks| + Weight(p.workers) + p.owed + if p.owedAll then 1 else 0
  }

  lemma WeightUpdate(ws: seq<Worker>, i: nat, w: Worker)
    requires i < |ws|
    ensures Weight(ws[i := w]) + Weight([ws[i]]) == Weight(ws) + Weight([w])
  {
    if i == 0 {
      assert ws[i := w][1..] == ws[1..];
    } else {
      assert ws[i := w][1..] == ws[1..][i - 1 := w];
      WeightUpdate(ws[1..], i - 1, w);
    }
  }

  lemma WeightWoken(ws: seq<Worker>)
    ensures Weight(WokenAll(ws)) <= Weight(ws)
  {
    if ws != [] {
      WeightWoken(ws[1..]);
      assert WokenAll(ws)[1..] == WokenAll(ws[1..]);
    }
  }

  /** After the stop every step but a rejected submission brings the end nearer. */
  lemma StepMakesProgress(p: Pool, s: Step)
    requires Valid(p) && p.stopped && Can(p, s) && !s.Submit?
    ensures Next(p, s).stopped && Left(Next(p, s)) < Left(p)
  {
    match s
    case NotifyOne(Some(i)) => WeightUpdate(p.workers, i, Looking);
    case Look(i) =>
      WeightUpdate(p.workers, i, if p.tasks == [] then Exited else Running(p.tasks[0]));
    case Spurious(i) => WeightUpdate(p.workers, i, Looking);
    case Finish(i) => WeightUpdate(p.workers, i, Looking);
    case NotifyAll => WeightWoken(p.workers);
    case _ =>
  }

  function Count(steps: seq<Step>): nat {
    if steps == [] then 0 else (if steps[0].Submit? then 0 else 1) + Count(steps[1..])
  }

  lemma {:induction false} DrainIsBounded(p: Pool, steps: seq<Step>, q: Pool)
    requires Valid(p) && p.stopped && Run(p, steps, q)
    ensures Count(steps) + Left(q) <= Left(p) && q.stopped && q.accepted == p.accepted
    decreases |steps|
  {
    if steps != [] {
      NextKeepsValid(p, steps[0]);
      if !steps[0].Submit? {
        StepMakesProgress(p, steps[0]);
      }
      DrainIsBounded(Next(p, steps[0]), steps[1..], q);
    }
  }

  /** No thread of the pool, no submitter and no destructor can do anything any more. */
  ghost predicate Quiescent(p: Pool) {
    forall s: Step :: Can(p, s) ==> s.Submit?
  }

  ghost predicate Drained(p: Pool, all: seq<Task>) {
    && p.tasks == [] && p.owed == 0 && !p.owedAll
    && (forall i | 0 <= i < |p.workers| :: p.workers[i].Exited?)
    && p.dequeued == all && p.finished == multiset(all)
  }

  lemma QuiescentIsDrained(p: Pool)
    requires Valid(p) && p.stopped
    ensures Quiescent(p) <==> Drained(p, p.accepted)
  {
    if Quiescent(p) {
      assert !Can(p, NotifyAll);
      forall i | 0 <= i < |p.workers| ensures p.workers[i].Exited? {
        assert !Can(p, Look(i)) && !Can(p, Finish(i));
      }
      assert !Can(p, NotifyOne(None));
      assert p.workers[0].Exited?;
      NothingInProgress(p.workers);
      assert p.dequeued + [] == p.dequeued;
    }
    if Drained(p, p.accepted) {
      assert forall s: Step | Can(p, s) :: s.Submit?;
    }
  }

  /** Stop and drain: from any reachable state the pool was stopped in, a run in which tasks return is bounded,
      and where it can go no further all workers have exited and every task submitted before the stop was run exactly
      once. */
  lemma StopDrains(n: nat, before: seq<Step>, p: Pool, after: seq<Step>, q: Pool)
    requires n > 0 && Run(NewPool(n), before, p) && Stop in before && Run(p, after, q)
    ensures Count(after) <= Left(p)
    ensures Quiescent(q) <==> Drained(q, Submitted(before))
  {
    NewPoolValid(n);
    SubmittedIsAccepted(NewPool(n), before, p);
    RunKeepsValid(NewPool(n), before, p);
    DrainIsBounded(p, after, q);
    RunKeepsValid(p, after, q);
    QuiescentIsDrained(q);
    Units(Submitted(before));
  }

  /** The object itself. The fields of the source are `tasks` and `stopped`; the rest records where the
      threads are. Each method is one critical section or one notification. */
  class WorkerPool {
    var tasks: seq<Task>
    var stopped: bool
    ghost var workers: seq<Worker>
    ghost var owed: nat
    ghost var owedAll: bool
    ghost var accepted: seq<Task>
    ghost var dequeued: seq<Task>
    ghost var finished: multiset<Task>

    ghost function View(): Pool
      reads this
    {
      Pool(tasks, stopped, workers, owed, owedAll, accepted, dequeued, finished)
    }

    constructor (numWorkers: nat)
      requires numWorkers > 0
      ensures View() == NewPool(numWorkers) && Valid(View())
    {
      tasks, stopped, workers, owed, owedAll := [], false, seq(numWorkers, _ => Looking), 0, false;
      accepted, dequeued, finished := [], [], multiset{};
      new;
      NewPoolValid(numWorkers);
    }

    /** `submit` up to the end of its critical section; a stopped pool drops what it is given. */
    method Submit(task: Task) returns (kept: bool)
      requires Valid(View())
      modifies this
      ensures View() == Next(old(View()), Step.Submit(task)) && Valid(View())
      ensures kept == !old(stopped) && stopped == old(stopped)
      ensures tasks == if kept then old(tasks) + [task] else old(tasks)
    {
      hide Valid;
      NextKeepsValid(View(), Step.Submit(task));
      kept := !stopped;
      if kept {
        tasks := tasks + [task];
        accepted, owed := accepted + [task], owed + 1;
      }
    }

    /** The critical section of `worker_loop` for worker `i`: wait, leave, or take the oldest task. */
    method TakeTask(ghost i: nat) returns (task: Option<Task>)
      requires Valid(View()) && i < |workers| && workers[i].Looking?
      modifies this
      ensures View() == Next(old(View()), Look(i)) && Valid(View())
      ensures task == if old(tasks) == [] then None else Some(old(tasks)[0])
      ensures tasks == if old(tasks) == [] then [] else old(tasks)[1..]
    {
      hide Valid;
      NextKeepsValid(View(), Look(i));
      if !stopped && tasks == [] {
        workers := workers[i := Waiting];
        return None;
      }
      if tasks == [] {
        workers := workers[i := Exited];
        return None;
      }
      task := Some(tasks[0]);
      workers, dequeued := workers[i := Running(tasks[0])], dequeued + [tasks[0]];
      tasks := tasks[1..];
    }

    /** The critical section of the destructor. */
    method StopAll()
      requires Valid(View()) && !stopped
      modifies this
      ensures View() == Next(old(View()), Stop) && Valid(View())
    {
      hide Valid;
      NextKeepsValid(View(), Stop);
      stopped := true;
      owedAll := true;
    }
  }
}
