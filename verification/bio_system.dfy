/** The functions of the background system, each of them a run of the protocol's steps. */
module BioSystem {
  import opened BioProtocol
  import opened BioSafety

  class Bio {
    var workers: seq<Worker>            // bio_jobs and where each thread is
    var counters: map<JobType, int>     // bio_jobs_counter
    var comp: seq<Job>                  // bio_comp_list
    var pipe: nat                       // bytes in job_comp_pipe
    var reader: Reader
    var drainer: Drainer
    var called: seq<Job>
    var nextId: nat

    ghost function Abs(): State
      reads this
    {
      State(workers, counters, comp, pipe, reader, drainer, called, nextId)
    }

    ghost predicate Valid()
      reads this
    {
      Reachable(Abs())
    }

    /** bioInit. */
    constructor ()
      ensures Abs() == Initial() && Valid()
    {
      var s := Initial();
      workers, counters, comp, pipe := s.workers, s.counters, s.comp, s.pipe;
      reader, drainer, called, nextId := s.reader, s.drainer, s.called, s.nextId;
      new;
      assert Run(Initial(), []) == Initial();
    }

    /** bioSubmitJob; `woken` is the thread that the signal wakes. */
    method BioSubmitJob(t: JobType, woken: Woken) returns (job: Job)
      requires Valid() && Enabled(Abs(), Submit(t, woken))
      modifies this
      ensures Valid() && Abs() == Step(old(Abs()), Submit(t, woken))
      ensures workers[WorkerOf(t)].submitted == old(workers[WorkerOf(t)].submitted) + [job]
    {
      Reaches(Abs(), Submit(t, woken));
      hide Reachable;
      var w := WorkerOf(t);
      job := Job(nextId, t);
      var x := workers[w];
      workers := workers[w := x.(queue := x.queue + [job], submitted := x.submitted + [job])];
      counters := counters[t := counters[t] + 1];
      nextId := nextId + 1;
      match woken {
        case WakeWorker => workers := workers[w := workers[w].(phase := Checking)];
        case WakeDrainer => drainer := DrainChecking(w);
        case WakeNobody =>
      }
    }

    /** Takes the first job of the queue, which stays there. */
    method TakeJob(w: nat) returns (job: Job)
      requires Valid() && w < |workers| && workers[w].phase.Checking? && workers[w].queue != []
      modifies this`workers
      ensures Valid() && job == old(workers[w].queue[0])
      ensures workers == old(workers)[w := old(workers[w]).(phase := Running(job))]
    {
      Reaches(Abs(), Check(w));
      hide Reachable;
      job := workers[w].queue[0];
      workers := workers[w := workers[w].(phase := Running(job))];
    }

    /** Processes the job; a completion request is listed and a byte is written, unless the pipe is full. */
    method CarryOut(w: nat, job: Job, full: bool)
      requires Valid() && w < |workers| && workers[w].phase == Running(job) && (full ==> pipe > 0)
      modifies this`workers, this`comp, this`pipe
      ensures Valid()
      ensures workers == old(workers)[w := old(workers[w]).(phase := Finishing(job), executed := old(workers[w].executed) + [job])]
      ensures if IsCompletion(job.jobType) then comp == old(comp) + [job] && pipe > 0 else comp == old(comp) && pipe == old(pipe)
    {
      Reaches(Abs(), Execute(w));
      hide Reachable;
      if IsCompletion(job.jobType) {
        workers := workers[w := workers[w].(phase := Appended(job), executed := workers[w].executed + [job])];
        comp := comp + [job];
        Reaches(Abs(), WritePipe(w, full));
        if !full {
          pipe := pipe + 1;
        }
        workers := workers[w := workers[w].(phase := Finishing(job))];
      } else {
        workers := workers[w := workers[w].(phase := Finishing(job), executed := workers[w].executed + [job])];
      }
    }

    /** Deletes the job and signals the condition. */
    method FinishJob(w: nat, job: Job)
      requires Valid() && w < |workers| && workers[w].phase == Finishing(job) && workers[w].queue != []
      requires job.jobType in counters
      modifies this`workers, this`counters, this`drainer
      ensures Valid()
      ensures workers == old(workers)[w := old(workers[w]).(phase := Checking, queue := old(workers[w].queue[1..]))]
      ensures counters == old(counters)[job.jobType := old(counters)[job.jobType] - 1]
      ensures drainer == if old(drainer) == DrainSleeping(w) then DrainChecking(w) else old(drainer)
    {
      ghost var woken := if drainer == DrainSleeping(w) then WakeDrainer else WakeNobody;
      Reaches(Abs(), Finish(w, woken));
      hide Reachable;
      workers := workers[w := workers[w].(phase := Checking, queue := workers[w].queue[1..])];
      counters := counters[job.jobType := counters[job.jobType] - 1];
      if drainer == DrainSleeping(w) {
        drainer := DrainChecking(w);
      }
    }

    /** One turn of the loop of bioProcessBackgroundJobs for a worker that finds a job, if no other thread
        comes in between: the first job of the queue is carried out and deleted, and whoever waits for the
        queue to become empty is woken. */
    method ProcessOne(w: nat, full: bool)
      requires Valid() && w < |workers| && workers[w].phase.Checking? && workers[w].queue != []
      requires full ==> pipe > 0
      modifies this
      ensures Valid() && |workers| == old(|workers|)
      ensures workers[w].queue == old(workers[w].queue[1..]) && workers[w].phase.Checking?
      ensures workers[w].executed == old(workers[w].executed + [workers[w].queue[0]])
      ensures forall v | 0 <= v < |workers| && v != w :: workers[v] == old(workers[v])
      ensures comp == old(comp) + if IsCompletion(old(workers[w].queue[0]).jobType) then [old(workers[w].queue[0])] else []
      ensures comp != old(comp) ==> pipe > 0
      ensures drainer == if old(drainer) == DrainSleeping(w) then DrainChecking(w) else old(drainer)
    {
      hide Reachable;
      ReachableInv(Abs());
      JobIsCounted(Abs(), w);
      hide *;
      var job := TakeJob(w);
      CarryOut(w, job, full);
      FinishJob(w, job);
    }

    /** bioPipeReadJobCompList, if no worker comes in between: the pipe is emptied, and every completion that
        was listed is called, in its order. */
    method BioPipeReadJobCompList()
      requires Valid() && reader.Polling? && pipe > 0
      modifies this`comp, this`pipe, this`reader, this`called
      ensures Valid() && reader.Polling? && pipe == 0 && comp == []
      ensures called == old(called) + old(comp)
    {
      hide Reachable;
      Reaches(Abs(), Poll);
      reader := Reading;
      while pipe >= 128
        invariant Valid() && reader.Reading? && comp == old(comp) && called == old(called)
      {
        Reaches(Abs(), ReadChunk);
        pipe := pipe - 128;
      }
      Reaches(Abs(), ReadChunk);
      pipe, reader := 0, BeforeSwap;

      Reaches(Abs(), Swap);
      if comp == [] {
        reader := Polling;
        return;
      }
      reader, comp := Calling(comp), [];
      while reader.items != []
        invariant Valid() && reader.Calling? && comp == [] && pipe == 0
        invariant called + reader.items == old(called) + old(comp)
        decreases if reader.Calling? then |reader.items| else 0
      {
        Reaches(Abs(), Callback);
        var rsp := reader.items[0];
        assert called + reader.items == called + [rsp] + reader.items[1..];
        reader := Calling(reader.items[1..]);
        called := called + [rsp];
      }
      Reaches(Abs(), EndCallbacks);
      reader := Polling;
    }

    /** bioPendingJobsOfType: the jobs of this type that are not finished. */
    method BioPendingJobsOfType(t: JobType) returns (n: int)
      requires Valid()
      ensures |workers| == WORKERS && n == CountType(workers[WorkerOf(t)].queue, t)
    {
      CountersExact(Abs(), t);
      n := counters[t];
    }
  }

  /** What a step reaches from a reachable state is reachable. */
  lemma Reaches(s: State, e: Event)
    requires Reachable(s) && Enabled(s, e)
    ensures Reachable(Step(s, e))
  {
    var events :| s == Run(Initial(), events);
    RunAppend(Initial(), events, e);
    assert Step(s, e) == Run(Initial(), events + [e]);
  }

  lemma {:induction false} RunAppend(s: State, events: seq<Event>, e: Event)
    ensures Run(s, events + [e]) == var t := Run(s, events); if Enabled(t, e) then Step(t, e) else t
    decreases |events|
  {
    hide Enabled, Step;
    if events == [] {
      assert events + [e] == [e] && [e][1..] == [];
      assert Run(s, [e]) == if Enabled(s, e) then Step(s, e) else s;
    } else {
      assert (events + [e])[1..] == events[1..] + [e];
      RunAppend(if Enabled(s, events[0]) then Step(s, events[0]) else s, events[1..], e);
    }
  }

  lemma JobIsCounted(s: State, w: nat)
    requires Inv(s) && w < |s.workers| && s.workers[w].queue != []
    ensures s.workers[w].queue[0].jobType in s.counters
  {
    assert CounterOf(s, s.workers[w].queue[0].jobType);
  }
}
