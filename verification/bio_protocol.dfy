/** The background workers: queues, condition variables, completion requests and the pipe that wakes the
    main thread. Every step is one critical section or one system call. */
module BioProtocol {
  datatype JobType = CLOSE_FILE | AOF_FSYNC | LAZY_FREE | CLOSE_AOF | COMP_RQ_CLOSE_FILE | COMP_RQ_AOF_FSYNC | COMP_RQ_LAZY_FREE

  const WORKERS := 3

  /** bio_job_to_worker. */
  function WorkerOf(t: JobType): (w: nat)
    ensures w < WORKERS
  {
    match t
    case CLOSE_FILE => 0
    case AOF_FSYNC => 1
    case CLOSE_AOF => 1
    case LAZY_FREE => 2
    case COMP_RQ_CLOSE_FILE => 0
    case COMP_RQ_AOF_FSYNC => 1
    case COMP_RQ_LAZY_FREE => 2
  }

  predicate IsCompletion(t: JobType) {
    t.COMP_RQ_CLOSE_FILE? || t.COMP_RQ_AOF_FSYNC? || t.COMP_RQ_LAZY_FREE?
  }

  datatype Job = Job(id: nat, jobType: JobType)

  /** Where a worker is in its loop; a job stays in the queue until it is finished. */
  datatype Phase =
    | Checking              // about to look at the queue, with the lock
    | Sleeping              // in pthread_cond_wait
    | Running(job: Job)     // without the lock
    | Appended(job: Job)    // the completion is in the list, the pipe is not written yet
    | Finishing(job: Job)   // about to take the lock and delete the job

  /** `submitted` and `executed` are history: the jobs given to the worker, and those it has carried out. */
  datatype Worker = Worker(queue: seq<Job>, phase: Phase, submitted: seq<Job>, executed: seq<Job>)

  datatype Drainer = NoDrain | DrainChecking(w: nat) | DrainSleeping(w: nat)

  /** bioPipeReadJobCompList in the event loop. */
  datatype Reader = Polling | Reading | BeforeSwap | Calling(items: seq<Job>)

  datatype State = State(
    workers: seq<Worker>,
    counters: map<JobType, int>,
    comp: seq<Job>,
    pipe: nat,
    reader: Reader,
    drainer: Drainer,
    called: seq<Job>,   // history: the callbacks that have run
    nextId: nat)

  /** Who a condition signal wakes. */
  datatype Woken = WakeWorker | WakeDrainer | WakeNobody

  datatype Event =
    | Submit(jobType: JobType, woken: Woken)
    | Check(w: nat)
    | SpuriousWake(w: nat)
    | Execute(w: nat)
    | WritePipe(w: nat, full: bool)
    | Finish(w: nat, woken: Woken)
    | StartDrain(w: nat)
    | DrainCheck
    | SpuriousDrainWake
    | Poll
    | ReadChunk
    | Swap
    | Callback
    | EndCallbacks

  function Initial(): State {
    State(seq(WORKERS, _ => Worker([], Checking, [], [])),
          map[CLOSE_FILE := 0, AOF_FSYNC := 0, LAZY_FREE := 0, CLOSE_AOF := 0,
              COMP_RQ_CLOSE_FILE := 0, COMP_RQ_AOF_FSYNC := 0, COMP_RQ_LAZY_FREE := 0],
          [], 0, Polling, NoDrain, [], 0)
  }

  predicate WorkerSleeps(s: State, w: nat) {
    w < |s.workers| && s.workers[w].phase.Sleeping?
  }

  predicate DrainerSleeps(s: State, w: nat) {
    s.drainer == DrainSleeping(w)
  }

  /** A signal wakes one thread that sleeps on the condition, whichever the system chooses. */
  predicate MayWake(s: State, w: nat, woken: Woken) {
    match woken
    case WakeWorker => WorkerSleeps(s, w)
    case WakeDrainer => DrainerSleeps(s, w)
    case WakeNobody => !WorkerSleeps(s, w) && !DrainerSleeps(s, w)
  }

  function Wake(s: State, w: nat, woken: Woken): State
    requires w < |s.workers|
  {
    match woken
    case WakeWorker => s.(workers := s.workers[w := s.workers[w].(phase := Checking)])
    case WakeDrainer => s.(drainer := DrainChecking(w))
    case WakeNobody => s
  }

  predicate Enabled(s: State, e: Event) {
    match e
    case Submit(t, woken) => |s.workers| == WORKERS && t in s.counters && MayWake(s, WorkerOf(t), woken)
    case Check(w) => w < |s.workers| && s.workers[w].phase.Checking?
    case SpuriousWake(w) => WorkerSleeps(s, w)
    case Execute(w) => w < |s.workers| && s.workers[w].phase.Running?
    case WritePipe(w, full) => w < |s.workers| && s.workers[w].phase.Appended? && (full ==> s.pipe > 0)
    case Finish(w, woken) =>
      && w < |s.workers| && s.workers[w].phase.Finishing? && s.workers[w].queue != []
      && s.workers[w].phase.job.jobType in s.counters && MayWake(s, w, woken)
    case StartDrain(w) => s.drainer.NoDrain? && w < |s.workers|
    case DrainCheck => s.drainer.DrainChecking? && s.drainer.w < |s.workers|
    case SpuriousDrainWake => s.drainer.DrainSleeping?
    case Poll => s.reader.Polling? && s.pipe > 0
    case ReadChunk => s.reader.Reading?
    case Swap => s.reader.BeforeSwap?
    case Callback => s.reader.Calling? && s.reader.items != []
    case EndCallbacks => s.reader.Calling? && s.reader.items == []
  }

  function SetWorker(s: State, w: nat, x: Worker): State
    requires w < |s.workers|
  {
    s.(workers := s.workers[w := x])
  }

  function SubmitStep(s: State, t: JobType, woken: Woken): State
    requires Enabled(s, Submit(t, woken))
  {
    var w, job := WorkerOf(t), Job(s.nextId, t);
    var x := s.workers[w];
    var s1 := SetWorker(s, w, x.(queue := x.queue + [job], submitted := x.submitted + [job]));
    Wake(s1.(counters := s.counters[t := s.counters[t] + 1], nextId := s.nextId + 1), w, woken)
  }

  function CheckStep(s: State, w: nat): State
    requires Enabled(s, Check(w))
  {
    var x := s.workers[w];
    SetWorker(s, w, x.(phase := if x.queue == [] then Sleeping else Running(x.queue[0])))
  }

  function ExecuteStep(s: State, w: nat): State
    requires Enabled(s, Execute(w))
  {
    var x := s.workers[w];
    var job := x.phase.job;
    var done := x.executed + [job];
    if IsCompletion(job.jobType) then
      SetWorker(s, w, x.(phase := Appended(job), executed := done)).(comp := s.comp + [job])
    else SetWorker(s, w, x.(phase := Finishing(job), executed := done))
  }

  function FinishStep(s: State, w: nat, woken: Woken): State
    requires Enabled(s, Finish(w, woken))
  {
    var x := s.workers[w];
    var t := x.phase.job.jobType;
    var s1 := SetWorker(s, w, x.(phase := Checking, queue := x.queue[1..]));
    Wake(s1.(counters := s.counters[t := s.counters[t] - 1]), w, woken)
  }

  /** A read of fewer than 128 bytes leaves the pipe empty and ends the loop. */
  function ReadStep(s: State): State {
    if s.pipe >= 128 then s.(pipe := s.pipe - 128) else s.(pipe := 0, reader := BeforeSwap)
  }

  function Step(s: State, e: Event): State
    requires Enabled(s, e)
  {
    match e
    case Submit(t, woken) => SubmitStep(s, t, woken)
    case Check(w) => CheckStep(s, w)
    case SpuriousWake(w) => SetWorker(s, w, s.workers[w].(phase := Checking))
    case Execute(w) => ExecuteStep(s, w)
    case WritePipe(w, full) =>
      SetWorker(s, w, s.workers[w].(phase := Finishing(s.workers[w].phase.job))).(pipe := if full then s.pipe else s.pipe + 1)
    case Finish(w, woken) => FinishStep(s, w, woken)
    case StartDrain(w) => s.(drainer := DrainChecking(w))
    case DrainCheck =>
      s.(drainer := if s.workers[s.drainer.w].queue == [] then NoDrain else DrainSleeping(s.drainer.w))
    case SpuriousDrainWake => s.(drainer := DrainChecking(s.drainer.w))
    case Poll => s.(reader := Reading)
    case ReadChunk => ReadStep(s)
    case Swap => if s.comp == [] then s.(reader := Polling) else s.(reader := Calling(s.comp), comp := [])
    case Callback => s.(reader := Calling(s.reader.items[1..]), called := s.called + [s.reader.items[0]])
    case EndCallbacks => s.(reader := Polling)
  }

  function Run(s: State, events: seq<Event>): State
    decreases |events|
  {
    if events == [] then s
    else if Enabled(s, events[0]) then Run(Step(s, events[0]), events[1..])
    else Run(s, events[1..])
  }

  // ---------------------------------------------------------------- the invariant

  /** Jobs of the queue that are not carried out yet. */
  function Todo(x: Worker): seq<Job> {
    if (x.phase.Appended? || x.phase.Finishing?) && x.queue != [] then x.queue[1..] else x.queue
  }

  predicate Busy(x: Worker) {
    x.phase.Running? || x.phase.Appended? || x.phase.Finishing?
  }

  /** The queue of a worker: jobs are carried out in the order of submission, and the job at hand is the
      first of the queue. */
  ghost predicate WorkerInv(x: Worker, w: nat, nextId: nat) {
    && (Busy(x) ==> x.queue != [] && x.queue[0] == x.phase.job)
    && (x.phase.Appended? ==> IsCompletion(x.phase.job.jobType))
    && x.submitted == x.executed + Todo(x)
    && (forall i | 0 <= i < |x.submitted| :: WorkerOf(x.submitted[i].jobType) == w && x.submitted[i].id < nextId)
    && (forall i, j | 0 <= i < j < |x.submitted| :: x.submitted[i].id < x.submitted[j].id)
    && forall i | 0 <= i < |x.queue| :: WorkerOf(x.queue[i].jobType) == w
  }

  /** No sleeper is forgotten: with jobs in the queue the worker is awake, without jobs the drainer is. */
  ghost predicate AwakeInv(s: State, w: nat)
    requires w < |s.workers|
  {
    && (s.workers[w].queue != [] ==> !WorkerSleeps(s, w))
    && (s.workers[w].queue == [] ==> !DrainerSleeps(s, w))
  }

  function CountType(q: seq<Job>, t: JobType): nat {
    if q == [] then 0 else CountType(q[..|q| - 1], t) + if q[|q| - 1].jobType == t then 1 else 0
  }

  /** The counter of a job type is the number of such jobs that are queued, the one at hand included. */
  ghost predicate CounterOf(s: State, t: JobType) {
    |s.workers| == WORKERS && t in s.counters && s.counters[t] == CountType(s.workers[WorkerOf(t)].queue, t)
  }

  ghost predicate CountersInv(s: State) {
    forall t: JobType :: CounterOf(s, t)
  }

  /** The completion requests of one worker. */
  function OfWorker(q: seq<Job>, w: nat): seq<Job> {
    if q == [] then []
    else OfWorker(q[..|q| - 1], w) + if IsCompletion(q[|q| - 1].jobType) && WorkerOf(q[|q| - 1].jobType) == w then [q[|q| - 1]] else []
  }

  /** Completions on their way: called, about to be called, listed. */
  function OnTheWay(s: State): seq<Job> {
    s.called + (if s.reader.Calling? then s.reader.items else []) + s.comp
  }

  ghost predicate CompletionInv(s: State, w: nat)
    requires w < |s.workers|
  {
    OfWorker(OnTheWay(s), w) == OfWorker(s.workers[w].executed, w)
  }

  ghost predicate OnlyCompletions(s: State) {
    forall job | job in OnTheWay(s) :: IsCompletion(job.jobType)
  }

  /** A completion in the list will be noticed: a byte is in the pipe, or a worker is about to write one,
      or the reader has yet to take the list. */
  ghost predicate NoticeInv(s: State) {
    s.comp == [] || s.pipe > 0 || s.reader.Reading? || s.reader.BeforeSwap? ||
    exists w :: 0 <= w < |s.workers| && s.workers[w].phase.Appended?
  }

  ghost predicate Inv(s: State) {
    && |s.workers| == WORKERS
    && (forall w | 0 <= w < WORKERS :: WorkerInv(s.workers[w], w, s.nextId) && AwakeInv(s, w) && CompletionInv(s, w))
    && CountersInv(s) && NoticeInv(s) && OnlyCompletions(s)
    && (s.drainer.NoDrain? || s.drainer.w < WORKERS)
  }
}
