/** The bounded worker pool together with Dispatch (src/runtime/worker_pool.cpp, src/runtime/pipeline_executor.cpp):
    who owns a coroutine frame, and what happens to it, over every interleaving up to and including shutdown. */
module WorkerPool {

  datatype Status = Success | Failed(code: nat)

  datatype Refusal = Cancelled | StageNotFound | QueueFull

  /** Where the wrapper handle of a dispatch currently is. */
  datatype Place = InQueue | AtWorker(worker: nat) | Over

  /** One Dispatch call: its work frame, its wrapper frame and what the caller gets back. */
  datatype Job = Job(place: Place, workResumed: nat, workDestroyed: nat, wrapperCreated: nat, wrapperDestroyed: nat,
                     signals: nat, produced: Status, answer: Answer)

  datatype Answer = Waiting | Returned(result: Status) | Refused(why: Refusal)

  /** Where a thread is inside its loop and inside the wrapper it resumed. Blocked: the work it runs waits for the answer to
      a dispatch of its own. */
  datatype Worker =
    | Free
    | Started(job: nat)
    | Running(job: nat)
    | Blocked(job: nat, on: nat)
    | Ran(job: nat)
    | Destroyed(job: nat)
    | Signalled(job: nat)
    | Exited

  datatype Pool = Pool(capacity: nat, queue: seq<nat>, workers: seq<Worker>, stop: seq<bool>, closing: bool, jobs: seq<Job>)

  /** How far a dispatch gets: stop was requested already, no pool has the stage, or it is submitted to this pool. */
  datatype Arrival = Stopped | UnknownStage | Submitted

  /** What a thread does next: the loop, and the wrapper's statements; RequestStop is done to it by the destructor. */
  datatype Step =
    | Pop
    | ResumeWork
    | Unblock
    | FinishWork(result: Status)
    | DestroyWork
    | Signal
    | EndWrapper
    | RequestStop
    | Exit

  /** Dispatch is called from outside, or by work that is running on a pool thread. */
  datatype Caller = Outside | RunningWork(worker: nat)

  datatype Event = Dispatch(from: Caller, arrival: Arrival) | BeginShutdown | Act(worker: nat, step: Step)

  function New(threads: nat, capacity: nat): Pool {
    Pool(capacity, [], seq(threads, _ => Free), seq(threads, _ => false), false, [])
  }

  predicate WellFormed(p: Pool) {
    |p.stop| == |p.workers|
  }

  predicate MayCall(p: Pool, c: Caller) {
    match c
    case Outside => !p.closing
    case RunningWork(w) => w < |p.workers| && p.workers[w].Running?
  }

  predicate Answered(p: Pool, j: nat) {
    j < |p.jobs| && p.jobs[j].answer != Waiting
  }

  predicate Can(p: Pool, e: Event)
    requires WellFormed(p)
  {
    match e
    case Dispatch(c, _) => MayCall(p, c)
    case BeginShutdown => !p.closing
    case Act(w, step) => w < |p.workers| && CanAct(p, w, step)
  }

  predicate CanAct(p: Pool, w: nat, step: Step)
    requires WellFormed(p) && w < |p.workers|
  {
    var t := p.workers[w];
    match step
    case Pop => t.Free? && p.queue != []
    case ResumeWork => t.Started?
    case Unblock => t.Blocked? && Answered(p, t.on)
    case FinishWork(_) => t.Running?
    case DestroyWork => t.Ran?
    case Signal => t.Destroyed?
    case EndWrapper => t.Signalled?
    // Threads are stopped and joined one after the other.
    case RequestStop => p.closing && !p.stop[w] && forall v :: 0 <= v < w ==> p.workers[v].Exited?
    case Exit => t.Free? && p.stop[w] && p.queue == []
  }

  const NO_JOB := Job(Over, 0, 0, 0, 0, 0, Success, Waiting)

  function JobAt(p: Pool, j: nat): Job {
    if j < |p.jobs| then p.jobs[j] else NO_JOB
  }

  function SetJob(p: Pool, j: nat, job: Job): Pool {
    if j < |p.jobs| then p.(jobs := p.jobs[j := job]) else p
  }

  /** A refused dispatch: its frames are destroyed on the spot, the wrapper only if there was one. */
  function Refuse(p: Pool, why: Refusal): Pool {
    var wrappers := if why == Cancelled then 0 else 1;
    p.(jobs := p.jobs + [Job(Over, 0, 1, wrappers, wrappers, 0, Success, Refused(why))])
  }

  /** An accepted dispatch. A caller that runs on a pool thread blocks that thread until it has its answer. */
  function Accept(p: Pool, c: Caller): Pool
    requires MayCall(p, c)
  {
    var j := |p.jobs|;
    p.(jobs := p.jobs + [Job(InQueue, 0, 0, 1, 0, 0, Success, Waiting)], queue := p.queue + [j],
       workers := if c.RunningWork? then p.workers[c.worker := Blocked(p.workers[c.worker].job, j)] else p.workers)
  }

  function Do(p: Pool, e: Event): Pool
    requires WellFormed(p) && Can(p, e)
  {
    match e
    case Dispatch(_, Stopped) => Refuse(p, Cancelled)
    case Dispatch(_, UnknownStage) => Refuse(p, StageNotFound)
    case Dispatch(c, Submitted) => if |p.queue| >= p.capacity then Refuse(p, QueueFull) else Accept(p, c)
    case BeginShutdown => p.(closing := true)
    case Act(w, step) =>
      match step
      case RequestStop => p.(stop := p.stop[w := true])
      case Exit => p.(workers := p.workers[w := Exited])
      case Pop => PopFront(p, w)
      case _ => Advance(p, w, step)
  }

  function PopFront(p: Pool, w: nat): Pool
    requires w < |p.workers| && p.queue != []
  {
    var j := p.queue[0];
    SetJob(p, j, JobAt(p, j).(place := AtWorker(w))).(queue := p.queue[1..], workers := p.workers[w := Started(j)])
  }

  predicate HasJob(t: Worker) {
    !t.Free? && !t.Exited?
  }

  /** The wrapper resumes the work, destroys it, hands over the result and ends. */
  function Advance(p: Pool, w: nat, step: Step): Pool
    requires w < |p.workers| && HasJob(p.workers[w])
  {
    var j := p.workers[w].job;
    SetJob(p, j, JobAfter(JobAt(p, j), step)).(workers := p.workers[w := WorkerAfter(j, step)])
  }

  function JobAfter(job: Job, step: Step): Job {
    match step
    case ResumeWork => job.(workResumed := job.workResumed + 1)
    case FinishWork(result) => job.(produced := result)
    case DestroyWork => job.(workDestroyed := job.workDestroyed + 1)
    case Signal => job.(signals := job.signals + 1, answer := Returned(job.produced))
    case EndWrapper => job.(place := Over, wrapperDestroyed := job.wrapperDestroyed + 1)
    case _ => job
  }

  function WorkerAfter(j: nat, step: Step): Worker {
    match step
    case ResumeWork => Running(j)
    case Unblock => Running(j)
    case FinishWork(_) => Ran(j)
    case DestroyWork => Destroyed(j)
    case Signal => Signalled(j)
    case _ => Free
  }

  datatype Outcome = Impossible | Reached(pool: Pool)

  function Play(threads: nat, capacity: nat, events: seq<Event>): (o: Outcome)
    ensures o.Reached? ==> WellFormed(o.pool)
  {
    if events == [] then Reached(New(threads, capacity))
    else
      match Play(threads, capacity, events[..|events| - 1])
      case Impossible => Impossible
      case Reached(p) => if Can(p, events[|events| - 1]) then Reached(Do(p, events[|events| - 1])) else Impossible
  }

  // ---- The ownership invariant ----

  /** What has happened to a job's frames, by where its wrapper is. */
  ghost predicate Owned(p: Pool, j: nat)
    requires j < |p.jobs|
  {
    var job := p.jobs[j];
    match job.place
    case InQueue =>
      job.workResumed == 0 && job.workDestroyed == 0 && job.wrapperCreated == 1 && job.wrapperDestroyed == 0
      && job.signals == 0 && job.answer == Waiting && j in p.queue
    case AtWorker(w) => w < |p.workers| && HeldBy(job, j, p.workers[w])
    case Over => Settled(job)
  }

  /** The wrapper is at a thread: how far it has come. */
  ghost predicate HeldBy(job: Job, j: nat, t: Worker) {
    && HasJob(t) && t.job == j
    && job.wrapperCreated == 1 && job.wrapperDestroyed == 0
    && job.workResumed == (if t.Started? then 0 else 1)
    && job.workDestroyed == (if t.Destroyed? || t.Signalled? then 1 else 0)
    && job.signals == (if t.Signalled? then 1 else 0)
    && job.answer == (if t.Signalled? then Returned(job.produced) else Waiting)
  }

  /** Finished or refused: every frame that was made has been destroyed exactly once, and the caller has its answer. */
  ghost predicate Settled(job: Job) {
    && job.workDestroyed == 1 && job.wrapperDestroyed == job.wrapperCreated <= 1
    && match job.answer
       case Waiting => false
       case Returned(result) => job.workResumed == 1 && job.signals == 1 && job.wrapperCreated == 1 && result == job.produced
       case Refused(why) => job.workResumed == 0 && job.signals == 0 && (why == Cancelled <==> job.wrapperCreated == 0)
  }

  ghost predicate QueueOk(p: Pool) {
    && |p.queue| <= p.capacity
    && (forall i :: 0 <= i < |p.queue| ==> p.queue[i] < |p.jobs| && p.jobs[p.queue[i]].place == InQueue)
    && (forall i, k :: 0 <= i < k < |p.queue| ==> p.queue[i] < p.queue[k])
  }

  /** A thread's job is at that thread, and work waits only for dispatches made after its own. */
  ghost predicate WorkerOk(p: Pool, w: nat)
    requires w < |p.workers|
  {
    && (HasJob(p.workers[w]) ==> p.workers[w].job < |p.jobs| && p.jobs[p.workers[w].job].place == AtWorker(w))
    && (p.workers[w].Blocked? ==> p.workers[w].job < p.workers[w].on < |p.jobs|)
  }

  ghost predicate AllOwned(p: Pool) {
    forall j :: 0 <= j < |p.jobs| ==> Owned(p, j)
  }

  ghost predicate WorkersOk(p: Pool) {
    forall w :: 0 <= w < |p.workers| ==> WorkerOk(p, w)
  }

  ghost predicate StopsOk(p: Pool) {
    WellFormed(p) && forall w :: 0 <= w < |p.workers| ==> (p.workers[w].Exited? ==> p.stop[w]) && (p.stop[w] ==> p.closing)
  }

  ghost predicate Inv(p: Pool) {
    && WellFormed(p) && QueueOk(p) && AllOwned(p) && WorkersOk(p) && StopsOk(p)
    && (p.workers != [] && p.queue != [] ==> SomeoneLeft(p))
  }

  /** Some thread will look at the queue again. */
  ghost predicate SomeoneLeft(p: Pool) {
    exists w :: 0 <= w < |p.workers| && !p.workers[w].Exited?
  }

  lemma StepLeavesSomeone(p: Pool, e: Event)
    requires Inv(p) && Can(p, e) && Do(p, e).workers != [] && Do(p, e).queue != []
    ensures SomeoneLeft(Do(p, e))
  {
    var q := Do(p, e);
    if e.Dispatch? {
      var w := if e.from.RunningWork? then e.from.worker else 0;
      assert !q.workers[w].Exited?;
    } else if !(e.Act? && e.step.Exit?) {
      var v :| 0 <= v < |p.workers| && !p.workers[v].Exited?;
      assert !q.workers[v].Exited?;
    }
  }

  lemma RefuseKeeps(p: Pool, why: Refusal)
    requires QueueOk(p) && AllOwned(p) && WorkersOk(p)
    ensures var q := Refuse(p, why); QueueOk(q) && AllOwned(q) && WorkersOk(q)
  {
    var q := Refuse(p, why);
    forall j | 0 <= j < |q.jobs|
      ensures Owned(q, j)
    {
      assert j < |p.jobs| ==> Owned(p, j);
    }
    forall w | 0 <= w < |q.workers|
      ensures WorkerOk(q, w)
    {
      assert WorkerOk(p, w);
    }
  }

  lemma AcceptKeeps(p: Pool, c: Caller)
    requires QueueOk(p) && AllOwned(p) && WorkersOk(p) && MayCall(p, c) && |p.queue| < p.capacity
    ensures var q := Accept(p, c); QueueOk(q) && AllOwned(q) && WorkersOk(q)
  {
    var q := Accept(p, c);
    forall j | 0 <= j < |q.jobs|
      ensures Owned(q, j)
    {
      if j < |p.jobs| {
        assert Owned(p, j);
      } else {
        assert q.queue[|p.queue|] == j;
      }
    }
    forall w | 0 <= w < |q.workers|
      ensures WorkerOk(q, w)
    {
      assert WorkerOk(p, w);
    }
  }

  lemma PopKeeps(p: Pool, w: nat)
    requires QueueOk(p) && AllOwned(p) && WorkersOk(p) && w < |p.workers| && p.workers[w].Free? && p.queue != []
    ensures var q := PopFront(p, w); QueueOk(q) && AllOwned(q) && WorkersOk(q)
  {
    var q := PopFront(p, w);
    forall j | 0 <= j < |q.jobs|
      ensures Owned(q, j)
    {
      assert Owned(p, j);
    }
    forall v | 0 <= v < |q.workers|
      ensures WorkerOk(q, v)
    {
      assert WorkerOk(p, v);
    }
  }

  lemma AdvanceKeepsOwned(p: Pool, w: nat, step: Step, j: nat)
    requires WellFormed(p) && AllOwned(p) && WorkersOk(p) && w < |p.workers| && CanAct(p, w, step) && HasJob(p.workers[w])
    requires j < |p.jobs| && !step.RequestStop?
    ensures Owned(Advance(p, w, step), j)
  {
    assert Owned(p, j) && WorkerOk(p, w);
  }

  lemma AdvanceKeeps(p: Pool, w: nat, step: Step)
    requires WellFormed(p) && QueueOk(p) && AllOwned(p) && WorkersOk(p)
    requires w < |p.workers| && CanAct(p, w, step) && HasJob(p.workers[w]) && !step.RequestStop?
    ensures var q := Advance(p, w, step); QueueOk(q) && AllOwned(q) && WorkersOk(q)
  {
    var q := Advance(p, w, step);
    assert WorkerOk(p, w);
    forall j | 0 <= j < |q.jobs|
      ensures Owned(q, j)
    {
      AdvanceKeepsOwned(p, w, step, j);
    }
    forall v | 0 <= v < |q.workers|
      ensures WorkerOk(q, v)
    {
      assert WorkerOk(p, v);
    }
  }

  /** Steps of threads without a job, and of the destructor, leave all jobs where they are. */
  lemma SameJobsKeep(p: Pool, q: Pool)
    requires QueueOk(p) && AllOwned(p) && WorkersOk(p)
    requires q.jobs == p.jobs && q.queue == p.queue && q.capacity == p.capacity && |q.workers| == |p.workers|
    requires forall w :: 0 <= w < |p.workers| ==> q.workers[w] == p.workers[w] || (!HasJob(p.workers[w]) && !HasJob(q.workers[w]))
    ensures QueueOk(q) && AllOwned(q) && WorkersOk(q)
  {
    forall j | 0 <= j < |q.jobs|
      ensures Owned(q, j)
    {
      assert Owned(p, j);
    }
    forall w | 0 <= w < |q.workers|
      ensures WorkerOk(q, w)
    {
      assert WorkerOk(p, w);
    }
  }

  lemma ThreadStepKeeps(p: Pool, w: nat, step: Step)
    requires Inv(p) && Can(p, Act(w, step))
    ensures var q := Do(p, Act(w, step)); QueueOk(q) && AllOwned(q) && WorkersOk(q)
  {
    var q := Do(p, Act(w, step));
    match step {
      case Pop => PopKeeps(p, w);
      case RequestStop => SameJobsKeep(p, q);
      case Exit => SameJobsKeep(p, q);
      case _ => AdvanceKeeps(p, w, step);
    }
  }

  lemma DispatchKeeps(p: Pool, c: Caller, arrival: Arrival)
    requires Inv(p) && MayCall(p, c)
    ensures var q := Do(p, Dispatch(c, arrival)); QueueOk(q) && AllOwned(q) && WorkersOk(q)
  {
    match arrival {
      case Stopped => RefuseKeeps(p, Cancelled);
      case UnknownStage => RefuseKeeps(p, StageNotFound);
      case Submitted =>
        if |p.queue| < p.capacity {
          AcceptKeeps(p, c);
        } else {
          RefuseKeeps(p, QueueFull);
        }
    }
  }

  lemma StepKeepsStops(p: Pool, e: Event)
    requires Inv(p) && Can(p, e)
    ensures StopsOk(Do(p, e))
  {
    var q := Do(p, e);
    if e.Act? {
      assert q.closing == p.closing && (e.step.RequestStop? || q.stop == p.stop);
    } else {
      assert q.stop == p.stop && (p.closing ==> q.closing);
    }
  }

  lemma StepKeepsInv(p: Pool, e: Event)
    requires Inv(p) && Can(p, e)
    ensures Inv(Do(p, e))
  {
    var q := Do(p, e);
    match e {
      case Dispatch(c, arrival) => DispatchKeeps(p, c, arrival);
      case BeginShutdown => SameJobsKeep(p, q);
      case Act(w, step) => ThreadStepKeeps(p, w, step);
    }
    StepKeepsStops(p, e);
    if q.workers != [] && q.queue != [] {
      StepLeavesSomeone(p, e);
    }
  }

  lemma {:induction false} RunKeepsInv(threads: nat, capacity: nat, events: seq<Event>, p: Pool)
    requires Play(threads, capacity, events) == Reached(p)
    ensures Inv(p) && |p.workers| == threads
  {
    if events != [] {
      var before := Play(threads, capacity, events[..|events| - 1]).pool;
      RunKeepsInv(threads, capacity, events[..|events| - 1], before);
      StepKeepsInv(before, events[|events| - 1]);
    }
  }

  // ---- What every run guarantees ----

  /** The destructor has joined every thread. */
  ghost predicate ShutDown(p: Pool) {
    p.closing && forall w :: 0 <= w < |p.workers| ==> p.workers[w].Exited?
  }

  /** At any moment no frame has been destroyed twice and no work has been resumed twice. A caller that has its answer got either
      a refusal of work that never ran, or the result of the one and only run, and the work frame is gone by then. A thread that
      has destroyed the work and not yet signalled is the only reason why destroyed work is unanswered, and one that has
      signalled and not yet ended the wrapper the only reason why an answered dispatch still has a frame. */
  lemma NeverTwice(threads: nat, capacity: nat, events: seq<Event>, p: Pool, j: nat)
    requires Play(threads, capacity, events) == Reached(p) && j < |p.jobs|
    ensures p.jobs[j].workResumed <= 1 && p.jobs[j].workDestroyed <= 1
    ensures p.jobs[j].wrapperDestroyed <= p.jobs[j].wrapperCreated <= 1 && p.jobs[j].signals <= 1
    ensures p.jobs[j].answer != Waiting ==> p.jobs[j].workDestroyed == 1
    ensures p.jobs[j].workDestroyed == 1 && p.jobs[j].answer == Waiting <==> SomeoneAt(p, Destroyed(j))
    ensures p.jobs[j].answer != Waiting && p.jobs[j].wrapperDestroyed < p.jobs[j].wrapperCreated <==> SomeoneAt(p, Signalled(j))
    ensures p.jobs[j].answer.Returned? ==> p.jobs[j].workResumed == 1 && p.jobs[j].answer.result == p.jobs[j].produced
    ensures p.jobs[j].answer.Refused? ==> p.jobs[j].workResumed == 0
  {
    RunKeepsInv(threads, capacity, events, p);
    assert Owned(p, j);
    forall w | 0 <= w < |p.workers| && HasJob(p.workers[w]) && p.workers[w].job == j
      ensures p.jobs[j].place == AtWorker(w)
    {
      assert WorkerOk(p, w);
    }
  }

  ghost predicate SomeoneAt(p: Pool, t: Worker) {
    exists w :: 0 <= w < |p.workers| && p.workers[w] == t
  }

  /** When no thread is inside a wrapper, a work frame has been destroyed exactly if its dispatch is answered, and every
      answered dispatch is settled. */
  lemma AtRestDestroyedWhenAnswered(threads: nat, capacity: nat, events: seq<Event>, p: Pool, j: nat)
    requires Play(threads, capacity, events) == Reached(p) && j < |p.jobs|
    requires forall w :: 0 <= w < |p.workers| ==> !HasJob(p.workers[w])
    ensures p.jobs[j].workDestroyed == 1 <==> p.jobs[j].answer != Waiting
    ensures p.jobs[j].answer != Waiting ==> Settled(p.jobs[j])
  {
    RunKeepsInv(threads, capacity, events, p);
    assert Owned(p, j);
  }

  /** With at least one thread, shutdown drains the queue: every dispatch is settled, and every accepted
      handle has been resumed exactly once. */
  lemma ShutdownSettlesEverything(threads: nat, capacity: nat, events: seq<Event>, p: Pool)
    requires Play(threads, capacity, events) == Reached(p) && ShutDown(p) && threads >= 1
    ensures p.queue == []
    ensures forall j :: 0 <= j < |p.jobs| ==> Settled(p.jobs[j])
    ensures forall j :: 0 <= j < |p.jobs| && !p.jobs[j].answer.Refused? ==> p.jobs[j].workResumed == 1
  {
    RunKeepsInv(threads, capacity, events, p);
    assert !SomeoneLeft(p);
    forall j | 0 <= j < |p.jobs|
      ensures Settled(p.jobs[j])
    {
      assert Owned(p, j);
    }
  }

  // ---- Shutdown comes to an end ----

  /** Work on this thread waits for a dispatch that has no answer. */
  predicate StuckAt(p: Pool, w: nat)
    requires w < |p.workers|
  {
    p.workers[w].Blocked? && !Answered(p, p.workers[w].on)
  }

  function Rank(t: Worker): nat {
    match t
    case Exited => 0
    case Free => 1
    case Signalled(_) => 2
    case Destroyed(_) => 3
    case Ran(_) => 4
    case Running(_) => 5
    case Blocked(_, _) => 6
    case Started(_) => 7
  }

  function RankSum(workers: seq<Worker>): nat {
    if workers == [] then 0 else RankSum(workers[..|workers| - 1]) + Rank(workers[|workers| - 1])
  }

  function Unstopped(stop: seq<bool>): nat {
    if stop == [] then 0 else Unstopped(stop[..|stop| - 1]) + if stop[|stop| - 1] then 0 else 1
  }

  /** What the threads can still do without new dispatches. */
  function Remaining(p: Pool): nat {
    8 * |p.queue| + RankSum(p.workers) + Unstopped(p.stop)
  }

  lemma {:induction false} RankSumUpdate(workers: seq<Worker>, w: nat, t: Worker)
    requires w < |workers|
    ensures RankSum(workers[w := t]) == RankSum(workers) - Rank(workers[w]) + Rank(t)
  {
    var front := workers[..|workers| - 1];
    if w < |front| {
      RankSumUpdate(front, w, t);
      assert workers[w := t][..|workers| - 1] == front[w := t];
    } else {
      assert workers[w := t][..|workers| - 1] == front;
    }
  }

  lemma {:induction false} UnstoppedUpdate(stop: seq<bool>, w: nat)
    requires w < |stop| && !stop[w]
    ensures Unstopped(stop[w := true]) == Unstopped(stop) - 1
  {
    var front := stop[..|stop| - 1];
    if w < |front| {
      UnstoppedUpdate(front, w);
      assert stop[w := true][..|stop| - 1] == front[w := true];
    } else {
      assert stop[w := true][..|stop| - 1] == front;
    }
  }

  /** What one step changes: a thread goes down in rank, by more than it may gain from a shorter queue. */
  lemma ActEffect(p: Pool, w: nat, step: Step)
    requires Inv(p) && Can(p, Act(w, step)) && !step.RequestStop?
    ensures var q := Do(p, Act(w, step));
            && q.stop == p.stop && |q.workers| == |p.workers| && q.workers == p.workers[w := q.workers[w]]
            && 8 * |q.queue| + Rank(q.workers[w]) < 8 * |p.queue| + Rank(p.workers[w])
  {
  }

  /** Every step of every thread uses up something: however the threads are scheduled, they stop after finitely many steps. */
  lemma ActsRunOut(p: Pool, w: nat, step: Step)
    requires Inv(p) && Can(p, Act(w, step))
    ensures Remaining(Do(p, Act(w, step))) < Remaining(p)
  {
    if step.RequestStop? {
      UnstoppedUpdate(p.stop, w);
    } else {
      ActEffect(p, w, step);
      RankSumUpdate(p.workers, w, Do(p, Act(w, step)).workers[w]);
    }
  }

  /** An enabled step, other than a stop request to a thread that waits and will not notice it. */
  ghost predicate Useful(p: Pool, w: nat, step: Step)
    requires WellFormed(p)
  {
    w < |p.workers| && CanAct(p, w, step) && !(step.RequestStop? && StuckAt(p, w))
  }

  ghost predicate SomethingUseful(p: Pool)
    requires WellFormed(p)
  {
    exists w, step :: Useful(p, w, step)
  }

  /** The first thread not yet joined, or the work it waits for, can go on when nothing is queued. */
  lemma {:induction false} WaitingEndsAtSomeone(p: Pool, w: nat)
    requires Inv(p) && p.closing && p.queue == [] && w < |p.workers| && p.workers[w].Blocked?
    ensures SomethingUseful(p)
    decreases |p.jobs| - p.workers[w].on
  {
    var on := p.workers[w].on;
    if Answered(p, on) {
      assert Useful(p, w, Unblock);
    } else {
      assert WorkerOk(p, w) && Owned(p, on);
      var v := p.jobs[on].place.worker;
      assert WorkerOk(p, v);
      if p.workers[v].Blocked? {
        WaitingEndsAtSomeone(p, v);
      } else {
        InsideWrapperGoesOn(p, v);
      }
    }
  }

  lemma InsideWrapperGoesOn(p: Pool, w: nat)
    requires WellFormed(p) && w < |p.workers| && HasJob(p.workers[w]) && !p.workers[w].Blocked?
    ensures SomethingUseful(p)
  {
    match p.workers[w] {
      case Started(_) => assert Useful(p, w, ResumeWork);
      case Running(_) => assert Useful(p, w, FinishWork(Success));
      case Ran(_) => assert Useful(p, w, DestroyWork);
      case Destroyed(_) => assert Useful(p, w, Signal);
      case Signalled(_) => assert Useful(p, w, EndWrapper);
    }
  }

  lemma FirstLeft(p: Pool) returns (w: nat)
    requires SomeoneLeft(p)
    ensures w < |p.workers| && !p.workers[w].Exited? && forall v :: 0 <= v < w ==> p.workers[v].Exited?
  {
    w := 0;
    while p.workers[w].Exited?
      invariant w < |p.workers| && forall v :: 0 <= v < w ==> p.workers[v].Exited?
      invariant exists v :: w <= v < |p.workers| && !p.workers[v].Exited?
      decreases |p.workers| - w
    {
      w := w + 1;
    }
  }

  lemma IdleThreadGoesOn(p: Pool, w: nat)
    requires Inv(p) && p.closing && w < |p.workers| && p.workers[w].Free?
    ensures SomethingUseful(p)
  {
    if p.queue != [] {
      assert Useful(p, w, Pop);
    } else {
      var first := FirstLeft(p);
      if p.workers[first].Free? {
        if p.stop[first] {
          assert Useful(p, first, Exit);
        } else {
          assert Useful(p, first, RequestStop);
        }
      } else if p.workers[first].Blocked? {
        WaitingEndsAtSomeone(p, first);
      } else {
        InsideWrapperGoesOn(p, first);
      }
    }
  }

  /** Every thread that is left runs work that waits for an unanswered dispatch of its own. */
  ghost predicate AllStuck(p: Pool) {
    SomeoneLeft(p) && forall w :: 0 <= w < |p.workers| && !p.workers[w].Exited? ==> StuckAt(p, w)
  }

  lemma UsefulExactlyWhen(p: Pool)
    requires Inv(p) && p.closing && SomeoneLeft(p)
    ensures SomethingUseful(p) <==> !AllStuck(p)
    ensures AllStuck(p) ==> p.queue != []
  {
    if p.queue == [] {
      var w :| 0 <= w < |p.workers| && !p.workers[w].Exited?;
      if p.workers[w].Blocked? {
        WaitingEndsAtSomeone(p, w);
      }
    }
    if !AllStuck(p) {
      var w :| 0 <= w < |p.workers| && !p.workers[w].Exited? && !StuckAt(p, w);
      if p.workers[w].Free? {
        IdleThreadGoesOn(p, w);
      } else if p.workers[w].Blocked? {
        assert Useful(p, w, Unblock);
      } else {
        InsideWrapperGoesOn(p, w);
      }
    }
  }

  /** Answers are never taken back. */
  lemma AnsweredStays(p: Pool, e: Event, j: nat)
    requires Inv(p) && Can(p, e) && Answered(p, j)
    ensures Answered(Do(p, e), j)
  {
  }

  lemma StillNotStuck(p: Pool, e: Event, v: nat)
    requires Inv(p) && Can(p, e) && v < |p.workers| && !StuckAt(p, v) && Do(p, e).workers[v] == p.workers[v]
    ensures !StuckAt(Do(p, e), v)
  {
    if p.workers[v].Blocked? {
      AnsweredStays(p, e, p.workers[v].on);
    }
  }

  /** Without new dispatches a pool that is not stuck does not get stuck. */
  lemma StaysUnstuck(p: Pool, w: nat, step: Step)
    requires Inv(p) && p.closing && SomeoneLeft(p) && !AllStuck(p) && Can(p, Act(w, step))
    ensures !AllStuck(Do(p, Act(w, step)))
  {
    var e := Act(w, step);
    var q := Do(p, e);
    if step.Exit? {
      StepKeepsInv(p, e);
      if SomeoneLeft(q) {
        UsefulExactlyWhen(q);
      }
    } else {
      var v :| 0 <= v < |p.workers| && !p.workers[v].Exited? && !StuckAt(p, v);
      if q.workers[v] == p.workers[v] {
        StillNotStuck(p, e, v);
      }
      assert !q.workers[v].Exited? && !StuckAt(q, v);
    }
  }

  /** One useful step towards the end of the shutdown. */
  lemma StepTowardsEnd(p: Pool) returns (e: Event)
    requires Inv(p) && p.closing && SomeoneLeft(p) && !AllStuck(p)
    ensures e.Act? && Can(p, e) && Do(p, e).closing && !AllStuck(Do(p, e)) && Remaining(Do(p, e)) < Remaining(p)
  {
    UsefulExactlyWhen(p);
    var w, step :| Useful(p, w, step);
    e := Act(w, step);
    ActsRunOut(p, w, step);
    StaysUnstuck(p, w, step);
  }

  /** Once stuck, always stuck: the threads cannot go on and nobody can dispatch. */
  lemma StuckStays(p: Pool, e: Event)
    requires Inv(p) && p.closing && AllStuck(p) && Can(p, e)
    ensures AllStuck(Do(p, e)) && Do(p, e).closing
  {
    var w :| 0 <= w < |p.workers| && !p.workers[w].Exited?;
    assert StuckAt(p, w);
    assert e.Act? && e.step.RequestStop?;
    assert !Do(p, e).workers[w].Exited?;
  }

  lemma PlayOn(threads: nat, capacity: nat, events: seq<Event>, p: Pool, e: Event)
    requires Play(threads, capacity, events) == Reached(p) && Can(p, e)
    ensures Play(threads, capacity, events + [e]) == Reached(Do(p, e))
  {
    assert (events + [e])[..|events|] == events;
  }

  lemma {:induction false} StuckForever(threads: nat, capacity: nat, events: seq<Event>, p: Pool, more: seq<Event>, q: Pool)
    requires Play(threads, capacity, events) == Reached(p) && p.closing && AllStuck(p)
    requires Play(threads, capacity, events + more) == Reached(q)
    ensures AllStuck(q) && q.closing
  {
    if more == [] {
      assert events + more == events;
    } else {
      var front := more[..|more| - 1];
      assert (events + more)[..|events + more| - 1] == events + front;
      var before := Play(threads, capacity, events + front).pool;
      StuckForever(threads, capacity, events, p, front, before);
      RunKeepsInv(threads, capacity, events + front, before);
      StuckStays(before, (events + more)[|events + more| - 1]);
    }
  }

  lemma {:induction false} CanFinish(threads: nat, capacity: nat, events: seq<Event>, p: Pool) returns (whole: seq<Event>, q: Pool)
    requires Play(threads, capacity, events) == Reached(p) && p.closing && !AllStuck(p)
    ensures events <= whole && Play(threads, capacity, whole) == Reached(q) && ShutDown(q)
    decreases Remaining(p)
  {
    RunKeepsInv(threads, capacity, events, p);
    if SomeoneLeft(p) {
      var e := StepTowardsEnd(p);
      PlayOn(threads, capacity, events, p, e);
      whole, q := CanFinish(threads, capacity, events + [e], Do(p, e));
    } else {
      whole, q := events, p;
    }
  }

  ghost predicate FinishesBy(threads: nat, capacity: nat, events: seq<Event>, more: seq<Event>) {
    Play(threads, capacity, events + more).Reached? && ShutDown(Play(threads, capacity, events + more).pool)
  }

  lemma OneAct(p: Pool, e: Event)
    requires Inv(p) && p.closing && !AllStuck(p) && e.Act? && Can(p, e)
    ensures Do(p, e).closing && !AllStuck(Do(p, e)) && Remaining(Do(p, e)) < Remaining(p)
  {
    ActsRunOut(p, e.worker, e.step);
    assert !p.workers[e.worker].Exited?;
    StaysUnstuck(p, e.worker, e.step);
  }

  lemma ThroughOrUseful(p: Pool)
    requires Inv(p) && p.closing && !AllStuck(p)
    ensures ShutDown(p) || SomethingUseful(p)
  {
    if SomeoneLeft(p) {
      UsefulExactlyWhen(p);
    }
  }

  lemma {:induction false} ActsAreBounded(threads: nat, capacity: nat, events: seq<Event>, p: Pool, acts: seq<Event>, q: Pool)
    requires Play(threads, capacity, events) == Reached(p) && p.closing && !AllStuck(p)
    requires Play(threads, capacity, events + acts) == Reached(q) && forall i :: 0 <= i < |acts| ==> acts[i].Act?
    ensures q.closing && !AllStuck(q) && |acts| + Remaining(q) <= Remaining(p)
  {
    if acts == [] {
      assert events + acts == events;
    } else {
      var front, last := acts[..|acts| - 1], acts[|acts| - 1];
      assert (events + acts)[..|events + acts| - 1] == events + front && (events + acts)[|events + acts| - 1] == last;
      var before := Play(threads, capacity, events + front).pool;
      ActsAreBounded(threads, capacity, events, p, front, before);
      RunKeepsInv(threads, capacity, events + front, before);
      OneAct(before, last);
    }
  }

  /** However the threads of a closing pool are scheduled, without new dispatches they take a bounded number of steps, and after
      every one of them they are through or can go on. */
  lemma EveryScheduleEnds(threads: nat, capacity: nat, events: seq<Event>, p: Pool, acts: seq<Event>, q: Pool)
    requires Play(threads, capacity, events) == Reached(p) && p.closing && !AllStuck(p)
    requires Play(threads, capacity, events + acts) == Reached(q) && forall i :: 0 <= i < |acts| ==> acts[i].Act?
    ensures |acts| <= Remaining(p) && (ShutDown(q) || SomethingUseful(q))
  {
    ActsAreBounded(threads, capacity, events, p, acts, q);
    RunKeepsInv(threads, capacity, events + acts, q);
    ThroughOrUseful(q);
  }

  /** A shutdown that has begun can come to its end exactly when not every remaining thread waits for a nested dispatch. */
  lemma ShutdownFinishesExactlyWhen(threads: nat, capacity: nat, events: seq<Event>, p: Pool)
    requires Play(threads, capacity, events) == Reached(p) && p.closing
    ensures (exists more :: FinishesBy(threads, capacity, events, more)) <==> !AllStuck(p)
  {
    if AllStuck(p) {
      forall more | FinishesBy(threads, capacity, events, more)
        ensures false
      {
        StuckForever(threads, capacity, events, p, more, Play(threads, capacity, events + more).pool);
      }
    } else {
      var whole, q := CanFinish(threads, capacity, events, p);
      assert whole == events + whole[|events|..];
      assert FinishesBy(threads, capacity, events, whole[|events|..]);
    }
  }

  /** A single thread whose work dispatches to its own pool never gets its answer, and the destructor never returns. */
  lemma SelfDispatchNeverEnds(capacity: nat)
    requires capacity > 0
    ensures exists events, p :: Play(1, capacity, events) == Reached(p) && p.closing && AllStuck(p)
  {
    var e := [Dispatch(Outside, Submitted), Act(0, Pop), Act(0, ResumeWork), Dispatch(RunningWork(0), Submitted), BeginShutdown];
    var p0 := New(1, capacity);
    PlayOn(1, capacity, [], p0, e[0]);
    var p1 := Do(p0, e[0]);
    PlayOn(1, capacity, [] + [e[0]], p1, e[1]);
    var p2 := Do(p1, e[1]);
    PlayOn(1, capacity, [] + [e[0]] + [e[1]], p2, e[2]);
    var p3 := Do(p2, e[2]);
    PlayOn(1, capacity, [] + [e[0]] + [e[1]] + [e[2]], p3, e[3]);
    var p4 := Do(p3, e[3]);
    PlayOn(1, capacity, [] + [e[0]] + [e[1]] + [e[2]] + [e[3]], p4, e[4]);
    assert AllStuck(Do(p4, e[4])) by {
      assert p4.workers[0] == Blocked(0, 1) && p4.jobs[1].answer == Waiting;
    }
  }

  // ---- Pools without threads ----

  ghost predicate NothingResumed(p: Pool) {
    p.workers == [] && forall j :: 0 <= j < |p.jobs| ==> p.jobs[j].workResumed == 0
  }

  lemma StepResumesNothing(p: Pool, e: Event)
    requires WellFormed(p) && NothingResumed(p) && Can(p, e)
    ensures NothingResumed(Do(p, e))
  {
    assert !e.Act?;
  }

  lemma {:induction false} NoThreadNoResume(capacity: nat, events: seq<Event>, p: Pool)
    requires Play(0, capacity, events) == Reached(p)
    ensures |p.workers| == 0 && forall j :: 0 <= j < |p.jobs| ==> p.jobs[j].workResumed == 0
  {
    if events != [] {
      var before := Play(0, capacity, events[..|events| - 1]).pool;
      NoThreadNoResume(capacity, events[..|events| - 1], before);
      StepResumesNothing(before, events[|events| - 1]);
    }
  }

  lemma {:induction false} CapacityFixed(threads: nat, capacity: nat, events: seq<Event>, p: Pool)
    requires Play(threads, capacity, events) == Reached(p)
    ensures p.capacity == capacity
  {
    if events != [] {
      CapacityFixed(threads, capacity, events[..|events| - 1], Play(threads, capacity, events[..|events| - 1]).pool);
    }
  }

  /** Whether all accepted work is resumed by the end of every shutdown. */
  ghost predicate AlwaysDrained(threads: nat, capacity: nat) {
    forall events, p, j :: Play(threads, capacity, events) == Reached(p) && ShutDown(p) && 0 <= j < |p.jobs| && !p.jobs[j].answer.Refused? ==>
                             p.jobs[j].workResumed == 1
  }

  /** Accepted work is always resumed exactly when there is a thread, or no room to accept anything. */
  lemma DrainedExactlyWhen(threads: nat, capacity: nat)
    ensures AlwaysDrained(threads, capacity) <==> threads >= 1 || capacity == 0
  {
    if threads >= 1 {
      forall events, p, j | Play(threads, capacity, events) == Reached(p) && ShutDown(p) && 0 <= j < |p.jobs| && !p.jobs[j].answer.Refused?
        ensures p.jobs[j].workResumed == 1
      {
        ShutdownSettlesEverything(threads, capacity, events, p);
      }
    } else if capacity == 0 {
      forall events, p, j | Play(threads, capacity, events) == Reached(p) && ShutDown(p) && 0 <= j < |p.jobs| && !p.jobs[j].answer.Refused?
        ensures p.jobs[j].workResumed == 1
      {
        RunKeepsInv(threads, capacity, events, p);
        CapacityFixed(threads, capacity, events, p);
        assert p.queue == [];
        assert Owned(p, j);
      }
    } else {
      var first, both := [Dispatch(Outside, Submitted)], [Dispatch(Outside, Submitted), BeginShutdown];
      assert first[..0] == [] && both[..1] == first;
      assert Play(0, capacity, []) == Reached(New(0, capacity));
      var p1 := Do(New(0, capacity), Dispatch(Outside, Submitted));
      assert Play(0, capacity, first) == Reached(p1);
      var p2 := Do(p1, BeginShutdown);
      assert Play(0, capacity, both) == Reached(p2);
      assert ShutDown(p2) && !p2.jobs[0].answer.Refused? && p2.jobs[0].workResumed == 0;
    }
  }
}
