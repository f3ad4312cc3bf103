/** What every step of the background workers keeps, and what follows for every run. */
module BioSafety {
  import opened BioProtocol

  // ---------------------------------------------------------------- counting and selecting

  lemma {:induction false} CountAppend(a: seq<Job>, b: seq<Job>, t: JobType)
    ensures CountType(a + b, t) == CountType(a, t) + CountType(b, t)
    decreases |b|
  {
    if b == [] {
      assert a + b == a;
    } else {
      assert (a + b)[..|a + b| - 1] == a + b[..|b| - 1];
      CountAppend(a, b[..|b| - 1], t);
    }
  }

  lemma {:induction false} OfAppend(a: seq<Job>, b: seq<Job>, w: nat)
    ensures OfWorker(a + b, w) == OfWorker(a, w) + OfWorker(b, w)
    decreases |b|
  {
    if b == [] {
      assert a + b == a;
    } else {
      assert (a + b)[..|a + b| - 1] == a + b[..|b| - 1];
      OfAppend(a, b[..|b| - 1], w);
    }
  }

  // ---------------------------------------------------------------- one worker

  /** A job is added to a queue. */
  lemma SubmitWorker(x: Worker, w: nat, job: Job)
    requires WorkerInv(x, w, job.id) && WorkerOf(job.jobType) == w
    ensures WorkerInv(x.(queue := x.queue + [job], submitted := x.submitted + [job]), w, job.id + 1)
  {
    var y := x.(queue := x.queue + [job], submitted := x.submitted + [job]);
    assert Todo(y) == Todo(x) + [job];
    assert x.executed + Todo(x) + [job] == x.executed + (Todo(x) + [job]);
    hide Todo;
  }

  lemma CheckWorker(x: Worker, w: nat, id: nat)
    requires WorkerInv(x, w, id) && x.phase.Checking?
    ensures WorkerInv(x.(phase := if x.queue == [] then Sleeping else Running(x.queue[0])), w, id)
  {
  }

  lemma ExecuteWorker(x: Worker, w: nat, id: nat, phase: Phase)
    requires WorkerInv(x, w, id) && x.phase.Running?
    requires phase == if IsCompletion(x.phase.job.jobType) then Appended(x.phase.job) else Finishing(x.phase.job)
    ensures WorkerInv(x.(phase := phase, executed := x.executed + [x.phase.job]), w, id)
  {
    assert x.queue == [x.phase.job] + x.queue[1..];
    assert x.executed + x.queue == x.executed + [x.phase.job] + x.queue[1..];
  }

  lemma FinishWorker(x: Worker, w: nat, id: nat)
    requires WorkerInv(x, w, id) && x.phase.Finishing?
    ensures WorkerInv(x.(phase := Checking, queue := x.queue[1..]), w, id)
  {
  }

  /** Phases in which nothing has been carried out yet, or nothing is left to write. */
  lemma PhaseWorker(x: Worker, w: nat, id: nat, phase: Phase)
    requires WorkerInv(x, w, id)
    requires (x.phase.Sleeping? && phase.Checking?) || (x.phase.Appended? && phase == Finishing(x.phase.job))
    ensures WorkerInv(x.(phase := phase), w, id)
  {
  }

  lemma LaterId(x: Worker, w: nat, id: nat, later: nat)
    requires WorkerInv(x, w, id) && id <= later
    ensures WorkerInv(x, w, later)
  {
  }

  // ---------------------------------------------------------------- the steps

  ghost predicate WorkersInv(s: State) {
    |s.workers| == WORKERS && forall w | 0 <= w < WORKERS :: WorkerInv(s.workers[w], w, s.nextId)
  }

  ghost predicate AllAwake(s: State) {
    |s.workers| == WORKERS && forall w | 0 <= w < WORKERS :: AwakeInv(s, w)
  }

  ghost predicate CompletionsInv(s: State) {
    |s.workers| == WORKERS && forall w | 0 <= w < WORKERS :: CompletionInv(s, w)
  }

  lemma StartsWell()
    ensures Inv(Initial())
  {
    var s := Initial();
    forall t: JobType
      ensures CounterOf(s, t)
    {
      match t case CLOSE_FILE => case AOF_FSYNC => case LAZY_FREE => case CLOSE_AOF =>
        case COMP_RQ_CLOSE_FILE => case COMP_RQ_AOF_FSYNC => case COMP_RQ_LAZY_FREE =>
    }
  }

  lemma WorkersKept(s: State, e: Event)
    requires WorkersInv(s) && Enabled(s, e)
    ensures WorkersInv(Step(s, e))
  {
    hide WorkerInv;
    match e
    case Submit(t, woken) =>
      SubmitWorker(s.workers[WorkerOf(t)], WorkerOf(t), Job(s.nextId, t));
      forall w | 0 <= w < WORKERS
        ensures WorkerInv(s.workers[w], w, s.nextId + 1)
      {
        LaterId(s.workers[w], w, s.nextId, s.nextId + 1);
      }
      var x := s.workers[WorkerOf(t)];
      var y := x.(queue := x.queue + [Job(s.nextId, t)], submitted := x.submitted + [Job(s.nextId, t)]);
      assert WorkerInv(y, WorkerOf(t), s.nextId + 1);
      if woken.WakeWorker? {
        PhaseWorker(y, WorkerOf(t), s.nextId + 1, Checking);
      }
    case Check(w) => CheckWorker(s.workers[w], w, s.nextId);
    case SpuriousWake(w) => PhaseWorker(s.workers[w], w, s.nextId, Checking);
    case Execute(w) =>
      var x := s.workers[w];
      ExecuteWorker(x, w, s.nextId, if IsCompletion(x.phase.job.jobType) then Appended(x.phase.job) else Finishing(x.phase.job));
    case WritePipe(w, full) => PhaseWorker(s.workers[w], w, s.nextId, Finishing(s.workers[w].phase.job));
    case Finish(w, woken) => FinishWorker(s.workers[w], w, s.nextId);
    case _ =>
  }

  lemma AwakeSubmit(s: State, t: JobType, woken: Woken, w: nat)
    requires WorkersInv(s) && AllAwake(s) && Enabled(s, Submit(t, woken)) && w < WORKERS
    ensures AwakeInv(SubmitStep(s, t, woken), w)
  {
    hide WorkerInv;
    assert AwakeInv(s, w) && AwakeInv(s, WorkerOf(t));
  }

  lemma AwakeFinish(s: State, f: nat, woken: Woken, w: nat)
    requires WorkersInv(s) && AllAwake(s) && Enabled(s, Finish(f, woken)) && w < WORKERS
    ensures AwakeInv(FinishStep(s, f, woken), w)
  {
    hide WorkerInv;
    assert AwakeInv(s, w) && AwakeInv(s, f);
  }

  lemma AwakeOther(s: State, e: Event, w: nat)
    requires WorkersInv(s) && AllAwake(s) && Enabled(s, e) && !e.Submit? && !e.Finish? && w < WORKERS
    ensures AwakeInv(Step(s, e), w)
  {
    assert AwakeInv(s, w) && WorkerInv(s.workers[w], w, s.nextId);
    hide WorkerInv;
  }

  lemma AwakeKept(s: State, e: Event)
    requires WorkersInv(s) && AllAwake(s) && Enabled(s, e)
    ensures AllAwake(Step(s, e))
  {
    WorkersKept(s, e);
    forall w | 0 <= w < WORKERS
      ensures AwakeInv(Step(s, e), w)
    {
      match e
      case Submit(t, woken) => AwakeSubmit(s, t, woken, w);
      case Finish(f, woken) => AwakeFinish(s, f, woken, w);
      case _ => AwakeOther(s, e, w);
    }
    hide AwakeInv, WorkerInv;
  }

  lemma CountersKept(s: State, e: Event)
    requires WorkersInv(s) && CountersInv(s) && Enabled(s, e)
    ensures CountersInv(Step(s, e))
  {
    if e.Submit? {
      SubmitCounts(s, e.jobType, e.woken);
    } else if e.Finish? {
      FinishCounts(s, e.w, e.woken);
    } else {
      SameQueues(s, e);
    }
  }

  lemma SubmitQueues(s: State, t: JobType, woken: Woken)
    requires WorkersInv(s) && Enabled(s, Submit(t, woken))
    ensures var s1, w := SubmitStep(s, t, woken), WorkerOf(t);
      && s1.counters == s.counters[t := s.counters[t] + 1] && |s1.workers| == WORKERS
      && s1.workers[w].queue == s.workers[w].queue + [Job(s.nextId, t)]
      && forall v | 0 <= v < WORKERS && v != w :: s1.workers[v].queue == s.workers[v].queue
  {
    hide WorkerInv;
  }

  lemma SubmitCount(s: State, t: JobType, woken: Woken, u: JobType)
    requires WorkersInv(s) && Enabled(s, Submit(t, woken)) && CounterOf(s, u) && CounterOf(s, t)
    ensures CounterOf(SubmitStep(s, t, woken), u)
  {
    var job, w := Job(s.nextId, t), WorkerOf(t);
    SubmitQueues(s, t, woken);
    CountAppend(s.workers[w].queue, [job], u);
    hide CountType, WorkersInv, SubmitStep, Enabled;
  }

  lemma SubmitCounts(s: State, t: JobType, woken: Woken)
    requires WorkersInv(s) && CountersInv(s) && Enabled(s, Submit(t, woken))
    ensures CountersInv(SubmitStep(s, t, woken))
  {
    hide CounterOf, WorkersInv, SubmitStep, Enabled;
    forall u: JobType
      ensures CounterOf(SubmitStep(s, t, woken), u)
    {
      SubmitCount(s, t, woken, u);
    }
  }

  lemma FinishCounts(s: State, w: nat, woken: Woken)
    requires WorkersInv(s) && CountersInv(s) && Enabled(s, Finish(w, woken))
    ensures CountersInv(FinishStep(s, w, woken))
  {
    hide *;
    forall u: JobType
      ensures CounterOf(FinishStep(s, w, woken), u)
    {
      FinishCount(s, w, woken, u);
    }
    AllCounted(FinishStep(s, w, woken));
  }

  lemma AllCounted(s: State)
    requires forall u: JobType :: CounterOf(s, u)
    ensures CountersInv(s)
  {
    hide CounterOf;
  }

  lemma FinishFacts(s: State, w: nat, woken: Woken)
    requires Enabled(s, Finish(w, woken))
    ensures var s1, t := FinishStep(s, w, woken), s.workers[w].phase.job.jobType;
      && |s1.workers| == |s.workers| && t in s.counters && s1.counters == s.counters[t := s.counters[t] - 1]
      && s1.workers[w].queue == s.workers[w].queue[1..]
      && forall v | 0 <= v < |s.workers| && v != w :: s1.workers[v].queue == s.workers[v].queue
  {
  }

  lemma FirstCounted(q: seq<Job>, u: JobType)
    requires q != []
    ensures CountType(q, u) == CountType(q[1..], u) + if q[0].jobType == u then 1 else 0
  {
    assert q == [q[0]] + q[1..];
    CountAppend([q[0]], q[1..], u);
    assert CountType([q[0]], u) == CountType([], u) + if q[0].jobType == u then 1 else 0;
  }

  lemma CounterIs(s: State, t: JobType)
    ensures CounterOf(s, t) <==>
      |s.workers| == WORKERS && t in s.counters && s.counters[t] == CountType(s.workers[WorkerOf(t)].queue, t)
  {
    hide CountType, WorkerOf;
  }

  lemma FinishedJob(s: State, w: nat, woken: Woken)
    requires WorkersInv(s) && Enabled(s, Finish(w, woken))
    ensures |s.workers| == WORKERS && w < WORKERS && s.workers[w].phase.Finishing? && s.workers[w].queue != []
    ensures s.workers[w].queue[0] == s.workers[w].phase.job && WorkerOf(s.workers[w].phase.job.jobType) == w
  {
    assert WorkerInv(s.workers[w], w, s.nextId);
    assert WorkerOf(s.workers[w].queue[0].jobType) == w;
    hide WorkerOf;
  }

  lemma FinishCount(s: State, w: nat, woken: Woken, u: JobType)
    requires WorkersInv(s) && CountersInv(s) && Enabled(s, Finish(w, woken))
    ensures CounterOf(FinishStep(s, w, woken), u)
  {
    assert CounterOf(s, u);
    hide *;
    FinishedJob(s, w, woken);
    FinishFacts(s, w, woken);
    FirstCounted(s.workers[w].queue, u);
    CounterIs(s, u);
    CounterIs(FinishStep(s, w, woken), u);
  }

  lemma SameQueues(s: State, e: Event)
    requires WorkersInv(s) && CountersInv(s) && Enabled(s, e) && !e.Submit? && !e.Finish?
    ensures CountersInv(Step(s, e))
  {
    hide CountType, WorkerInv;
    var s1 := Step(s, e);
    assert s1.counters == s.counters && forall w | 0 <= w < WORKERS :: s1.workers[w].queue == s.workers[w].queue;
    forall t: JobType
      ensures CounterOf(s1, t)
    {
      assert CounterOf(s, t);
    }
  }

  // ---------------------------------------------------------------- completions

  lemma CompletionsKept(s: State, e: Event)
    requires WorkersInv(s) && CompletionsInv(s) && Enabled(s, e)
    ensures CompletionsInv(Step(s, e))
  {
    hide WorkerInv;
    if e.Execute? {
      ExecuteCompletes(s, e.w);
    } else {
      SameWay(s, e);
      hide OnTheWay, OfWorker;
      var s1 := Step(s, e);
      forall w | 0 <= w < WORKERS
        ensures CompletionInv(s1, w)
      {
        assert CompletionInv(s, w);
      }
    }
  }

  /** A callback, taking over the list and everything else leave the completions on their way. */
  lemma SameWay(s: State, e: Event)
    requires WorkersInv(s) && Enabled(s, e) && !e.Execute?
    ensures OnTheWay(Step(s, e)) == OnTheWay(s)
    ensures forall w | 0 <= w < WORKERS :: Step(s, e).workers[w].executed == s.workers[w].executed
  {
    hide WorkerInv;
    if e.Callback? {
      var items := s.reader.items;
      assert s.called + items == s.called + [items[0]] + items[1..];
    }
  }

  lemma ExecuteWay(s: State, w: nat)
    requires WorkersInv(s) && Enabled(s, Execute(w))
    ensures var job, s1 := s.workers[w].phase.job, ExecuteStep(s, w);
      && OnTheWay(s1) == OnTheWay(s) + (if IsCompletion(job.jobType) then [job] else [])
      && |s1.workers| == WORKERS && s1.workers[w].executed == s.workers[w].executed + [job]
      && WorkerOf(job.jobType) == w
      && forall v | 0 <= v < WORKERS && v != w :: s1.workers[v].executed == s.workers[v].executed
  {
    assert WorkerInv(s.workers[w], w, s.nextId);
    hide WorkerInv;
  }

  lemma ExecuteCompletes(s: State, w: nat)
    requires WorkersInv(s) && CompletionsInv(s) && Enabled(s, Execute(w))
    ensures CompletionsInv(ExecuteStep(s, w))
  {
    var x, job, s1 := s.workers[w], s.workers[w].phase.job, ExecuteStep(s, w);
    ExecuteWay(s, w);
    hide OfWorker, OnTheWay, WorkersInv, ExecuteStep;
    forall v | 0 <= v < WORKERS
      ensures CompletionInv(s1, v)
    {
      assert CompletionInv(s, v);
      OfAppend(OnTheWay(s), [job], v);
      OfAppend(x.executed, [job], v);
    }
  }

  lemma NoticeKept(s: State, e: Event)
    requires WorkersInv(s) && NoticeInv(s) && Enabled(s, e)
    ensures NoticeInv(Step(s, e))
  {
    hide WorkerInv;
    var s1 := Step(s, e);
    if e.Execute? && s1.comp != s.comp {
      assert s1.workers[e.w].phase.Appended?;
    } else if s.comp != [] && s1.comp != [] && s1.pipe == 0 && !s1.reader.Reading? && !s1.reader.BeforeSwap? {
      var w :| 0 <= w < |s.workers| && s.workers[w].phase.Appended?;
      assert s1.workers[w].phase.Appended?;
    }
  }

  /** Every step keeps the whole invariant. */
  lemma StepKeepsInv(s: State, e: Event)
    requires Inv(s) && Enabled(s, e)
    ensures Inv(Step(s, e))
  {
    WorkersKept(s, e);
    AwakeKept(s, e);
    CountersKept(s, e);
    CompletionsKept(s, e);
    NoticeKept(s, e);
    hide WorkersInv, AllAwake, CompletionsInv, CountersInv, NoticeInv, OnlyCompletions;
  }

  lemma {:induction false} RunKeepsInv(s: State, events: seq<Event>)
    requires Inv(s)
    ensures Inv(Run(s, events))
    decreases |events|
  {
    hide Inv, Step, Enabled;
    if events == [] {
      assert Run(s, events) == s;
    } else {
      if Enabled(s, events[0]) {
        StepKeepsInv(s, events[0]);
        RunKeepsInv(Step(s, events[0]), events[1..]);
      } else {
        RunKeepsInv(s, events[1..]);
      }
    }
  }

  // ---------------------------------------------------------------- what holds in every run

  ghost predicate Reachable(s: State) {
    exists events :: s == Run(Initial(), events)
  }

  lemma ReachableInv(s: State)
    requires Reachable(s)
    ensures Inv(s)
  {
    var events :| s == Run(Initial(), events);
    StartsWell();
    RunKeepsInv(Initial(), events);
  }

  /** Jobs of one worker are carried out in the order in which they were submitted, each of them once. */
  lemma FirstInFirstOut(s: State, w: nat)
    requires Reachable(s) && w < WORKERS
    ensures |s.workers| == WORKERS
    ensures s.workers[w].executed <= s.workers[w].submitted
    ensures forall i, j | 0 <= i < j < |s.workers[w].executed| :: s.workers[w].executed[i] != s.workers[w].executed[j]
  {
    ReachableInv(s);
    assert WorkerInv(s.workers[w], w, s.nextId);
  }

  /** The counter of a job type is the number of such jobs that are not finished, the one at hand included. */
  lemma CountersExact(s: State, t: JobType)
    requires Reachable(s)
    ensures |s.workers| == WORKERS && t in s.counters
    ensures s.counters[t] == CountType(s.workers[WorkerOf(t)].queue, t) >= 0
  {
    ReachableInv(s);
    assert CounterOf(s, t);
  }

  lemma {:induction false} OfMembers(q: seq<Job>, w: nat, job: Job)
    ensures job in OfWorker(q, w) <==> job in q && IsCompletion(job.jobType) && WorkerOf(job.jobType) == w
    decreases |q|
  {
    if q != [] {
      OfMembers(q[..|q| - 1], w, job);
      assert q == q[..|q| - 1] + [q[|q| - 1]];
    }
  }

  ghost predicate Rising(q: seq<Job>) {
    forall i, j | 0 <= i < j < |q| :: q[i].id < q[j].id
  }

  lemma {:induction false} OfRising(q: seq<Job>, w: nat)
    requires Rising(q)
    ensures Rising(OfWorker(q, w))
    decreases |q|
  {
    if q != [] {
      var front, last := q[..|q| - 1], q[|q| - 1];
      OfRising(front, w);
      forall job | job in OfWorker(front, w)
        ensures job.id < last.id
      {
        OfMembers(front, w, job);
      }
      hide Reachable;
    }
  }

  /** Callbacks run in the order of the requests of their worker, each of them once, and only after every job
      that the worker was given before. */
  lemma CallbacksInOrder(s: State, w: nat)
    requires Reachable(s) && w < WORKERS
    ensures |s.workers| == WORKERS
    ensures OfWorker(s.called, w) <= OfWorker(s.workers[w].executed, w) && Rising(OfWorker(s.called, w))
    ensures forall job | job in s.called && WorkerOf(job.jobType) == w ::
              job in s.workers[w].executed && EarlierExecuted(s.workers[w], job)
  {
    hide *;
    ReachableInv(s);
    var rest := (if s.reader.Calling? then s.reader.items else []) + s.comp;
    WayParts(s, rest);
    CalledAreFirst(s, w, rest);
    forall job | job in s.called && WorkerOf(job.jobType) == w
      ensures job in s.workers[w].executed && EarlierExecuted(s.workers[w], job)
    {
      CalledIsExecuted(s, w, job, rest);
    }
  }

  lemma WayParts(s: State, rest: seq<Job>)
    requires rest == (if s.reader.Calling? then s.reader.items else []) + s.comp
    ensures OnTheWay(s) == s.called + rest
  {
  }

  ghost predicate EarlierExecuted(x: Worker, job: Job) {
    forall earlier | earlier in x.submitted && earlier.id < job.id :: earlier in x.executed
  }

  lemma CalledAreFirst(s: State, w: nat, rest: seq<Job>)
    requires Inv(s) && w < WORKERS && OnTheWay(s) == s.called + rest
    ensures |s.workers| == WORKERS
    ensures OfWorker(s.called, w) <= OfWorker(s.workers[w].executed, w) && Rising(OfWorker(s.called, w))
  {
    var x := s.workers[w];
    assert WorkerInv(x, w, s.nextId) && CompletionInv(s, w);
    RisingExecuted(x, w, s.nextId);
    hide WorkerInv, OnTheWay, OfWorker;
    OfAppend(s.called, rest, w);
    OfRising(x.executed, w);
  }

  lemma RisingExecuted(x: Worker, w: nat, id: nat)
    requires WorkerInv(x, w, id)
    ensures Rising(x.executed)
  {
    assert forall i | 0 <= i < |x.executed| :: x.executed[i] == x.submitted[i];
  }

  lemma CalledIsExecuted(s: State, w: nat, job: Job, rest: seq<Job>)
    requires Inv(s) && w < WORKERS && job in s.called && WorkerOf(job.jobType) == w && OnTheWay(s) == s.called + rest
    ensures |s.workers| == WORKERS && job in s.workers[w].executed && EarlierExecuted(s.workers[w], job)
  {
    var x := s.workers[w];
    assert WorkerInv(x, w, s.nextId) && CompletionInv(s, w);
    assert job in OnTheWay(s) && IsCompletion(job.jobType);
    OfMembers(OnTheWay(s), w, job);
    OfMembers(x.executed, w, job);
    ExecutedBefore(x, w, s.nextId, job);
  }

  lemma ExecutedBefore(x: Worker, w: nat, id: nat, job: Job)
    requires WorkerInv(x, w, id) && job in x.executed
    ensures EarlierExecuted(x, job)
  {
    var i :| 0 <= i < |x.executed| && x.executed[i] == job;
    forall earlier | earlier in x.submitted && earlier.id < job.id
      ensures earlier in x.executed
    {
      var j :| 0 <= j < |x.submitted| && x.submitted[j] == earlier;
      assert x.submitted[i] == job;
      assert j < i && x.executed[j] == earlier;
    }
  }

  /** The job was given to a worker. */
  ghost predicate Submitted(s: State, job: Job) {
    exists w | 0 <= w < |s.workers| :: job in s.workers[w].submitted
  }

  ghost predicate Executed(s: State, job: Job) {
    exists w | 0 <= w < |s.workers| :: job in s.workers[w].executed
  }

  /** The first worker closes files, the second has all jobs of the append only file, the third frees; each also
      gets the completion requests about its own jobs. */
  lemma JobsOfWorkers(s: State, w: nat, job: Job)
    requires Reachable(s) && w < |s.workers| && job in s.workers[w].submitted
    ensures w == 0 <==> job.jobType == CLOSE_FILE || job.jobType == COMP_RQ_CLOSE_FILE
    ensures w == 1 <==> job.jobType == AOF_FSYNC || job.jobType == CLOSE_AOF || job.jobType == COMP_RQ_AOF_FSYNC
    ensures w == 2 <==> job.jobType == LAZY_FREE || job.jobType == COMP_RQ_LAZY_FREE
  {
    ReachableInv(s);
    assert WorkerInv(s.workers[w], w, s.nextId);
  }

  /** The append only file is closed only after the fsyncs requested before, and synced only after it was closed. */
  lemma AofJobsInOrder(s: State, earlier: Job, job: Job)
    requires Reachable(s) && Submitted(s, earlier) && Executed(s, job) && earlier.id < job.id
    requires earlier.jobType == AOF_FSYNC || earlier.jobType == CLOSE_AOF
    requires job.jobType == AOF_FSYNC || job.jobType == CLOSE_AOF || job.jobType == COMP_RQ_AOF_FSYNC
    ensures Executed(s, earlier)
  {
    ReachableInv(s);
    var v :| 0 <= v < |s.workers| && earlier in s.workers[v].submitted;
    var w :| 0 <= w < |s.workers| && job in s.workers[w].executed;
    assert WorkerInv(s.workers[w], w, s.nextId);
    assert job in s.workers[w].submitted;
    JobsOfWorkers(s, v, earlier);
    JobsOfWorkers(s, w, job);
    ExecutedBefore(s.workers[w], w, s.nextId, job);
  }

  /** Only completion requests have callbacks. When one runs, every job of the kind it asks about that was submitted
      before has been carried out. */
  lemma CallbackAnswers(s: State, job: Job, earlier: Job)
    requires Reachable(s) && job in s.called && Submitted(s, earlier) && earlier.id < job.id
    ensures job.jobType == COMP_RQ_CLOSE_FILE || job.jobType == COMP_RQ_AOF_FSYNC || job.jobType == COMP_RQ_LAZY_FREE
    ensures job.jobType == COMP_RQ_CLOSE_FILE && earlier.jobType == CLOSE_FILE ==> Executed(s, earlier)
    ensures job.jobType == COMP_RQ_AOF_FSYNC && (earlier.jobType == AOF_FSYNC || earlier.jobType == CLOSE_AOF) ==> Executed(s, earlier)
    ensures job.jobType == COMP_RQ_LAZY_FREE && earlier.jobType == LAZY_FREE ==> Executed(s, earlier)
  {
    hide *;
    var w := WorkerOf(job.jobType);
    CallbacksInOrder(s, w);
    FirstInFirstOut(s, w);
    CalledIsCompletion(s, job);
    var v := WorkerWith(s, earlier);
    JobsOfWorkers(s, v, earlier);
    JobsOfWorkers(s, w, job);
    if v == w {
      EarlierIsExecuted(s, w, job, earlier);
    }
  }

  lemma CalledIsCompletion(s: State, job: Job)
    requires Reachable(s) && job in s.called
    ensures IsCompletion(job.jobType)
  {
    ReachableInv(s);
    assert job in OnTheWay(s);
  }

  lemma WorkerWith(s: State, job: Job) returns (w: nat)
    requires Submitted(s, job)
    ensures w < |s.workers| && job in s.workers[w].submitted
  {
    w :| 0 <= w < |s.workers| && job in s.workers[w].submitted;
  }

  lemma EarlierIsExecuted(s: State, w: nat, job: Job, earlier: Job)
    requires w < |s.workers| && EarlierExecuted(s.workers[w], job)
    requires earlier in s.workers[w].submitted && earlier.id < job.id
    ensures Executed(s, earlier)
  {
  }

  /** No completion request is lost: once carried out, it is called, about to be called, or listed. */
  lemma CompletionsAreKept(s: State, job: Job)
    requires Reachable(s) && Executed(s, job)
    requires job.jobType == COMP_RQ_CLOSE_FILE || job.jobType == COMP_RQ_AOF_FSYNC || job.jobType == COMP_RQ_LAZY_FREE
    ensures job in s.called || job in s.comp || (s.reader.Calling? && job in s.reader.items)
  {
    ReachableInv(s);
    var w :| 0 <= w < |s.workers| && job in s.workers[w].executed;
    assert CompletionInv(s, w) && WorkerInv(s.workers[w], w, s.nextId);
    assert job in s.workers[w].submitted;
    JobsOfWorkers(s, w, job);
    hide Reachable, Inv, WorkerInv;
    OfMembers(s.workers[w].executed, w, job);
    OfMembers(OnTheWay(s), w, job);
  }

  /** bioDrainWorker returns only when every job submitted to the worker has been carried out. */
  lemma DrainReturns(s: State)
    requires Reachable(s) && Enabled(s, DrainCheck) && Step(s, DrainCheck).drainer.NoDrain?
    ensures s.workers[s.drainer.w].executed == s.workers[s.drainer.w].submitted
  {
    ReachableInv(s);
    assert WorkerInv(s.workers[s.drainer.w], s.drainer.w, s.nextId);
  }

  /** Steps of a worker until its queue is empty and it sleeps. */
  function Work(x: Worker): nat {
    5 * |x.queue| + match x.phase
                    case Checking => 4
                    case Sleeping => 0
                    case Running(_) => 3
                    case Appended(_) => 2
                    case Finishing(_) => 1
  }

  lemma WorkerStepIsProgress(s: State, w: nat, e: Event)
    requires w < |s.workers| && Enabled(s, e)
    requires (e == Check(w) && s.workers[w].queue != []) || e == Execute(w) || e == WritePipe(w, false) ||
             (e.Finish? && e.w == w && !e.woken.WakeWorker?)
    ensures w < |Step(s, e).workers| && Work(Step(s, e).workers[w]) < Work(s.workers[w])
  {
  }

  /** A worker that has jobs is never stuck: it has a step, and the step is progress. */
  lemma WorkerProgress(s: State, w: nat) returns (e: Event)
    requires Reachable(s) && w < |s.workers| && s.workers[w].queue != []
    ensures Enabled(s, e) && w < |Step(s, e).workers| && Work(Step(s, e).workers[w]) < Work(s.workers[w])
    ensures !e.Submit?
  {
    hide Reachable, Step, Work;
    ReachableInv(s);
    e := NextStep(s, w);
    hide Inv;
    WorkerStepIsProgress(s, w, e);
  }

  lemma NextFacts(s: State, w: nat)
    requires Inv(s) && w < |s.workers| && s.workers[w].queue != []
    ensures var x := s.workers[w];
      !x.phase.Sleeping? && (x.phase.Finishing? ==> x.phase.job.jobType in s.counters)
  {
    var x := s.workers[w];
    assert AwakeInv(s, w);
    if x.phase.Finishing? {
      assert CounterOf(s, x.phase.job.jobType);
    }
  }

  lemma NextStep(s: State, w: nat) returns (e: Event)
    requires Inv(s) && w < |s.workers| && s.workers[w].queue != []
    ensures Enabled(s, e)
    ensures e == Check(w) || e == Execute(w) || e == WritePipe(w, false) || (e.Finish? && e.w == w && !e.woken.WakeWorker?)
  {
    hide Inv;
    NextFacts(s, w);
    var x := s.workers[w];
    match x.phase
    case Checking => e := Check(w);
    case Running(_) => e := Execute(w);
    case Appended(_) => e := WritePipe(w, false);
    case Finishing(job) =>
      var woken := if DrainerSleeps(s, w) then WakeDrainer else WakeNobody;
      e := Finish(w, woken);
  }

  /** A drainer that sleeps waits for a worker that is at work. */
  lemma DrainerWaitsForWork(s: State)
    requires Reachable(s) && s.drainer.DrainSleeping?
    ensures |s.workers| == WORKERS && s.drainer.w < WORKERS
    ensures s.workers[s.drainer.w].queue != [] && !s.workers[s.drainer.w].phase.Sleeping?
  {
    ReachableInv(s);
    assert AwakeInv(s, s.drainer.w);
  }

  /** No completion is forgotten: when one is listed and the main thread is back in the event loop, the pipe
      is readable or a worker is about to make it so. */
  lemma NoLostWakeup(s: State)
    requires Reachable(s) && s.comp != [] && (s.reader.Polling? || s.reader.Calling?)
    ensures s.pipe > 0 || exists w :: 0 <= w < |s.workers| && Enabled(s, WritePipe(w, false))
  {
    ReachableInv(s);
    if s.pipe == 0 {
      var w :| 0 <= w < |s.workers| && s.workers[w].phase.Appended?;
      assert Enabled(s, WritePipe(w, false));
    }
  }
}
