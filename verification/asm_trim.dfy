/** What trimming does: slots that are scheduled for it are emptied, unless the node gets to own them. */
module AsmTrim {
  import opened Wrappers
  import opened AsmKeyspace
  import opened AsmProtocol
  import opened AsmSafety
  import opened AsmTheorems

  /** Processing the pending jobs: with active trimming they join the active ones in order and no key goes yet;
      otherwise exactly the slots of the jobs are emptied at once. */
  lemma PendingTrims(n: Node, active: bool)
    ensures var n1 := ProcessPendingTrims(n, active);
      && n1.pendingTrims == [] && n1.owned == n.owned && n1.paused == n.paused && n1.trimmed == n.trimmed
      && n1.activeTrims == n.activeTrims + (if active then n.pendingTrims else [])
      && (active ==> n1.db == n.db)
      && forall s :: At(n1.db, s) == if !active && (exists t :: t in n.pendingTrims && s in t) then map[] else At(n.db, s)
  {
  }

  // ---------------------------------------------------------------- what the stream carries

  /** Only commands on the migrated slots are fed. */
  predicate FeedsInSlots(slots: set<int>, l: Link) {
    forall i | 0 <= i < |l.stream| && l.stream[i].Feed? :: l.stream[i].slot in slots
  }

  predicate Tidy(slots: set<int>, s: System) {
    FeedsInSlots(slots, s.link) && TrimShape(s.node)
  }

  lemma TidySource(slots: set<int>, s: System, e: SourceEvent)
    requires Tidy(slots, s) && SrcEnabled(slots, s, e)
    ensures Tidy(slots, SrcNext(slots, s, e))
  {
    hide IsSnapshot, BytesTo, MigrateWrite, MigrateAck, MigrateBeforeSleep, MigrateFail, MigrateCancel, MigrateConfigUpdated;
  }

  lemma TidyDestination(slots: set<int>, s: System, e: DestinationEvent)
    requires Tidy(slots, s) && DstEnabled(slots, s, e)
    ensures Tidy(slots, DstNext(slots, s, e))
  {
    hide IsSnapshot, BytesTo, ImportParse, ImportExecute, ImportStreamDone, ImportAdvance, Apply, Restored, LeftoverSlots;
  }

  lemma {:induction false} TidyRun(slots: set<int>, s: System, events: seq<Event>)
    requires Tidy(slots, s) && IsRun(slots, s, events)
    ensures Tidy(slots, After(slots, s, events))
    decreases |events|
  {
    if events != [] {
      match events[0] {
        case AtSource(e) => TidySource(slots, s, e);
        case AtDestination(e) => TidyDestination(slots, s, e);
      }
      hide Tidy;
      TidyRun(slots, Next(slots, s, events[0]), events[1..]);
    }
  }

  // ---------------------------------------------------------------- one slot

  predicate Scheduled(s: System, x: int) {
    InTrimJob(s.node.pendingTrims, s.node.activeTrims, x)
  }

  /** The iterator leaves a slot only when it is empty. */
  predicate LeftEmpty(s: System, x: int) {
    x in s.node.trimmed ==> At(s.node.db, x) == map[]
  }

  predicate IsTrimCancel(e: Event) {
    e == AtDestination(DstTrimCancel)
  }

  /** What a step can do to a scheduled slot that the node does not own. */
  lemma TrimStep(slots: set<int>, s: System, e: Event, x: int)
    requires Inv(slots, s) && Tidy(slots, s) && Enabled(slots, s, e) && !IsTrimCancel(e)
    requires Scheduled(s, x) && LeftEmpty(s, x) && x !in s.node.owned
    ensures LeftEmpty(Next(slots, s, e), x)
    ensures !Scheduled(Next(slots, s, e), x) ==> At(Next(slots, s, e).node.db, x) == map[]
  {
    match e
    case AtSource(se) => TrimSource(slots, s, se, x);
    case AtDestination(de) => TrimDestination(slots, s, de, x);
  }

  lemma TrimSource(slots: set<int>, s: System, e: SourceEvent, x: int)
    requires SrcEnabled(slots, s, e)
    ensures SrcNext(slots, s, e).node == s.node
  {
    hide IsSnapshot, BytesTo;
  }

  lemma TrimDestination(slots: set<int>, s: System, e: DestinationEvent, x: int)
    requires Inv(slots, s) && Tidy(slots, s) && DstEnabled(slots, s, e) && !e.DstTrimCancel?
    requires Scheduled(s, x) && LeftEmpty(s, x) && x !in s.node.owned
    ensures LeftEmpty(DstNext(slots, s, e), x)
    ensures !Scheduled(DstNext(slots, s, e), x) ==> At(DstNext(slots, s, e).node.db, x) == map[]
  {
    match e {
      case DstItem => ItemElsewhere(slots, s, x);
      case DstExecute => ExecuteElsewhere(slots, s, x);
      case DstTrimPending(active) => PendingTrims(s.node, active);
      case DstStart(ready, oneOwner) => StartSchedules(slots, s, ready, oneOwner, x);
      case DstFail => LastIsScheduled(s.node.pendingTrims, s.node.activeTrims, slots, x);
      case DstCancel => LastIsScheduled(s.node.pendingTrims, s.node.activeTrims, slots, x);
      case DstTrimKey(_, _) => CycleTrims(slots, s, e, x);
      case DstTrimNext(_) => CycleTrims(slots, s, e, x);
      case DstTrimEnd => CycleTrims(slots, s, e, x);
      case _ =>
    }
    hide IsSnapshot, BytesTo, Inv, ImportParse, ImportExecute, ImportStreamDone, ImportAdvance, Apply, Restored, LeftoverSlots,
         ProcessPendingTrims, ImportStart;
  }

  lemma CycleTrims(slots: set<int>, s: System, e: DestinationEvent, x: int)
    requires DstEnabled(slots, s, e) && (e.DstTrimKey? || e.DstTrimNext? || e.DstTrimEnd?)
    requires Scheduled(s, x) && LeftEmpty(s, x)
    ensures LeftEmpty(DstNext(slots, s, e), x)
    ensures !Scheduled(DstNext(slots, s, e), x) ==> At(DstNext(slots, s, e).node.db, x) == map[]
  {
    hide IsSnapshot, BytesTo;
    if e.DstTrimEnd? {
      FirstJob(s.node.activeTrims, x);
    }
  }

  /** A start may add trim jobs and changes nothing else about the node. */
  lemma StartSchedules(slots: set<int>, s: System, ready: bool, oneOwner: bool, x: int)
    requires DstEnabled(slots, s, DstStart(ready, oneOwner)) && Scheduled(s, x)
    ensures var t := DstNext(slots, s, DstStart(ready, oneOwner));
      Scheduled(t, x) && t.node == s.node.(pendingTrims := t.node.pendingTrims)
  {
    var n1 := TrimIfNotOwned(s.node, slots);
    LastIsScheduled(s.node.pendingTrims, s.node.activeTrims, LeftoverSlots(s.node, slots), x);
    LastIsScheduled(n1.pendingTrims, n1.activeTrims, slots, x);
    hide InTrimJob, LeftoverSlots;
  }

  /** An import writes its own slots only, and none of them is scheduled while it is active. */
  lemma ItemElsewhere(slots: set<int>, s: System, x: int)
    requires Inv(slots, s) && DstEnabled(slots, s, DstItem) && Scheduled(s, x)
    ensures DstNext(slots, s, DstItem).node == s.node.(db := DstNext(slots, s, DstItem).node.db)
    ensures At(DstNext(slots, s, DstItem).node.db, x) == At(s.node.db, x)
  {
    hide SameOn, ReplayTo, RestoredTo, BytesTo, InTrimJob;
  }

  lemma ExecuteElsewhere(slots: set<int>, s: System, x: int)
    requires Inv(slots, s) && Tidy(slots, s) && DstEnabled(slots, s, DstExecute) && Scheduled(s, x)
    ensures DstNext(slots, s, DstExecute).node == s.node.(db := DstNext(slots, s, DstExecute).node.db)
    ensures At(DstNext(slots, s, DstExecute).node.db, x) == At(s.node.db, x)
  {
    hide SameOn, ReplayTo, RestoredTo, BytesTo, InTrimJob, IsSnapshot;
  }

  // ---------------------------------------------------------------- runs

  /** The node does not own the slot in any state of the run, trim jobs are not cancelled, and the slot is in some
      trim job in every state but the last. */
  ghost predicate UntilTrimmed(slots: set<int>, s: System, events: seq<Event>, x: int)
    requires IsRun(slots, s, events)
    decreases |events|
  {
    if events == [] then !Scheduled(s, x)
    else Scheduled(s, x) && x !in s.node.owned && !IsTrimCancel(events[0]) &&
         UntilTrimmed(slots, Next(slots, s, events[0]), events[1..], x)
  }

  /** Whatever else happens, when the last trim job of a slot that the node does not own is done, the slot is empty. */
  lemma {:induction false} TrimmedIsEmpty(slots: set<int>, s: System, events: seq<Event>, x: int)
    requires IsRun(slots, s, events) && Inv(slots, s) && Tidy(slots, s) && LeftEmpty(s, x)
    requires Scheduled(s, x) && UntilTrimmed(slots, s, events, x)
    ensures At(After(slots, s, events).node.db, x) == map[]
    decreases |events|
  {
    var e, rest := events[0], events[1..];
    TrimStep(slots, s, e, x);
    TidyRun(slots, s, [e]);
    RunKeepsInv(slots, s, [e]);
    assert [e][1..] == [] && After(slots, s, [e]) == Next(slots, s, e);
    hide Inv, Tidy, Enabled, Next, Scheduled;
    if rest != [] {
      TrimmedIsEmpty(slots, Next(slots, s, e), rest, x);
    }
  }

  /** An import that fails or is cancelled while it is active schedules all its slots. */
  lemma FailureSchedules(slots: set<int>, s: System, e: Event, x: int)
    requires Inv(slots, s) && Tidy(slots, s) && Enabled(slots, s, e) && s.dst.Active() && x in slots
    requires e == AtDestination(DstFail) || e == AtDestination(DstCancel)
    ensures var t := Next(slots, s, e);
      Scheduled(t, x) && LeftEmpty(t, x) && x !in t.node.owned && !t.dst.Active() && At(t.node.db, x) == At(s.node.db, x)
  {
    var n := s.node;
    NotScheduled(slots, s, x);
    FailureEffect(slots, s, e);
    hide Inv, Tidy, Enabled, Next, InTrimJob;
    var t := Next(slots, s, e);
    LastIsScheduled(n.pendingTrims, n.activeTrims, slots, x);
  }

  lemma LastIsScheduled(pending: seq<set<int>>, active: seq<set<int>>, last: set<int>, x: int)
    ensures x in last || InTrimJob(pending, active, x) ==> InTrimJob(pending + [last], active, x)
  {
    assert (pending + [last])[|pending|] == last;
    assert forall t :: t in pending ==> t in pending + [last];
  }

  /** No slot of an active import is owned or in a job, so none has been left behind by the iterator. */
  lemma NotScheduled(slots: set<int>, s: System, x: int)
    requires Inv(slots, s) && Tidy(slots, s) && s.dst.Active() && x in slots
    ensures x !in s.node.owned && x !in s.node.trimmed
  {
    hide SourceShape, TaskShape, StreamShape, Positions, DestinationContent, LiveLink, AckShape;
    var n := s.node;
    assert x !in slots * n.owned;
    assert !InTrimJob(n.pendingTrims, n.activeTrims, x);
    assert n.activeTrims != [] ==> n.activeTrims[0] in n.activeTrims;
  }

  lemma FailureEffect(slots: set<int>, s: System, e: Event)
    requires Enabled(slots, s, e) && s.dst.Active()
    requires e == AtDestination(DstFail) || e == AtDestination(DstCancel)
    ensures var t := Next(slots, s, e);
      t.node == s.node.(pendingTrims := s.node.pendingTrims + [slots]) && !t.dst.Active()
  {
    hide IsSnapshot, BytesTo;
  }

  /** What a failed import had brought is gone in the end: from any run to the failure of an active import, each of
      its slots is empty as soon as trimming it is done, unless the node gets to own it first. */
  lemma FailedImportIsErased(slots: set<int>, s: System, events: seq<Event>, e: Event, later: seq<Event>, x: int)
    requires Initial(s) && IsRun(slots, s, events) && Enabled(slots, After(slots, s, events), e)
    requires e == AtDestination(DstFail) || e == AtDestination(DstCancel)
    requires After(slots, s, events).dst.Active() && x in slots
    requires var t := Next(slots, After(slots, s, events), e); IsRun(slots, t, later) && UntilTrimmed(slots, t, later, x)
    ensures At(After(slots, Next(slots, After(slots, s, events), e), later).node.db, x) == map[]
  {
    var t := After(slots, s, events);
    assert Inv(slots, s) && Tidy(slots, s);
    hide Inv, Tidy, Enabled, Next, Initial;
    RunKeepsInv(slots, s, events);
    TidyRun(slots, s, events);
    FailureSchedules(slots, t, e, x);
    StepKeeps(slots, t, e);
    TrimmedIsEmpty(slots, Next(slots, t, e), later, x);
  }

  lemma StepKeeps(slots: set<int>, s: System, e: Event)
    requires Inv(slots, s) && Tidy(slots, s) && Enabled(slots, s, e)
    ensures Inv(slots, Next(slots, s, e)) && Tidy(slots, Next(slots, s, e))
  {
    assert [e][1..] == [] && After(slots, s, [e]) == Next(slots, s, e);
    hide Inv, Tidy, Enabled, Next;
    TidyRun(slots, s, [e]);
    RunKeepsInv(slots, s, [e]);
  }

  /** The same for slots that a start finds with keys but does not own: they are scheduled at once. */
  lemma LeftoversAreErased(slots: set<int>, s: System, ready: bool, oneOwner: bool, later: seq<Event>, x: int)
    requires Inv(slots, s) && Tidy(slots, s) && DstEnabled(slots, s, DstStart(ready, oneOwner))
    requires x in slots && x !in s.node.owned && At(s.node.db, x) != map[] && !Scheduled(s, x)
    requires var t := DstNext(slots, s, DstStart(ready, oneOwner)); IsRun(slots, t, later) && UntilTrimmed(slots, t, later, x)
    ensures At(After(slots, DstNext(slots, s, DstStart(ready, oneOwner)), later).node.db, x) == map[]
  {
    var e := AtDestination(DstStart(ready, oneOwner));
    LeftoverScheduled(slots, s, ready, oneOwner, x);
    StepKeeps(slots, s, e);
    hide Inv, Tidy, DstEnabled, DstNext, Scheduled, LeftEmpty;
    TrimmedIsEmpty(slots, DstNext(slots, s, e.dst), later, x);
  }

  lemma LeftoverScheduled(slots: set<int>, s: System, ready: bool, oneOwner: bool, x: int)
    requires Inv(slots, s) && Tidy(slots, s) && DstEnabled(slots, s, DstStart(ready, oneOwner))
    requires x in slots && x !in s.node.owned && At(s.node.db, x) != map[] && !Scheduled(s, x)
    ensures var t := DstNext(slots, s, DstStart(ready, oneOwner)); Scheduled(t, x) && LeftEmpty(t, x)
  {
    var n1 := TrimIfNotOwned(s.node, slots);
    LeftoversAreScheduled(slots, s.node);
    assert x in LeftoverSlots(s.node, slots) && InTrimJob(n1.pendingTrims, n1.activeTrims, x);
    assert InTrimJob(n1.pendingTrims + [slots], n1.activeTrims, x) by {
      if exists t :: t in n1.pendingTrims && x in t {
        var t :| t in n1.pendingTrims && x in t;
        assert t in n1.pendingTrims + [slots];
      }
    }
    assert x !in s.node.trimmed;
    hide Inv, InTrimJob, LeftoverSlots, LeftEmpty;
    assert n1.trimmed == s.node.trimmed;
    assert LeftEmpty(DstNext(slots, s, DstStart(ready, oneOwner)), x) by {
      NotLeft(slots, s, ready, oneOwner, x);
    }
  }

  lemma NotLeft(slots: set<int>, s: System, ready: bool, oneOwner: bool, x: int)
    requires DstEnabled(slots, s, DstStart(ready, oneOwner)) && x !in s.node.trimmed
    ensures LeftEmpty(DstNext(slots, s, DstStart(ready, oneOwner)), x)
  {
    hide InTrimJob, LeftoverSlots;
  }

  // ---------------------------------------------------------------- trimming gets done

  /** `t` is `s` after nothing but trimming, which has left the slots of `gone` empty and the others alone. */
  ghost predicate Trimmed(s: System, t: System, gone: set<int>) {
    && t == s.(node := s.node.(db := t.node.db, pendingTrims := t.node.pendingTrims, activeTrims := t.node.activeTrims, trimmed := t.node.trimmed))
    && forall x :: At(t.node.db, x) == if x in gone then map[] else At(s.node.db, x)
  }

  /** Key by key a slot of the first active job becomes empty. */
  lemma {:induction false} SlotEmpties(slots: set<int>, s0: System, s: System, x: int) returns (t: System)
    requires Reaches(slots, s0, s) && !s.node.paused && s.node.activeTrims != [] && x in s.node.activeTrims[0] - s.node.trimmed
    ensures Reaches(slots, s0, t) && Trimmed(s, t, {x})
    ensures t.node == s.node.(db := t.node.db)
    decreases At(s.node.db, x).Keys
  {
    t := s;
    if At(s.node.db, x) != map[] {
      var key :| key in At(s.node.db, x);
      var e := DstTrimKey(x, key);
      assert DstEnabled(slots, s, e);
      var s1 := DstNext(slots, s, e);
      assert s1 == s.(node := s.node.(db := s.node.db[x := s.node.db[x] - {key}]));
      assert key !in At(s1.node.db, x) && At(s1.node.db, x).Keys <= At(s.node.db, x).Keys;
      ReachesStep(slots, s0, s, AtDestination(e));
      hide Reaches, DstEnabled, DstNext;
      t := SlotEmpties(slots, s0, s1, x);
    }
  }

  lemma SlotLeft(job: set<int>, trimmed: set<int>)
    ensures job <= trimmed || exists x :: x in job && x !in trimmed
  {
    if forall x | x in job :: x in trimmed {
      assert job <= trimmed;
    }
  }

  /** Slot by slot the first active job comes to its end. */
  lemma {:induction false} JobEnds(slots: set<int>, s0: System, s: System) returns (t: System)
    requires Reaches(slots, s0, s) && !s.node.paused && s.node.activeTrims != []
    ensures Reaches(slots, s0, t) && Trimmed(s, t, s.node.activeTrims[0] - s.node.trimmed)
    ensures t.node == s.node.(db := t.node.db, activeTrims := s.node.activeTrims[1..], trimmed := {})
    decreases s.node.activeTrims[0] - s.node.trimmed
  {
    var left := s.node.activeTrims[0] - s.node.trimmed;
    if s.node.activeTrims[0] <= s.node.trimmed {
      assert left == {};
      t := DstNext(slots, s, DstTrimEnd);
      ReachesStep(slots, s0, s, AtDestination(DstTrimEnd));
    } else {
      SlotLeft(s.node.activeTrims[0], s.node.trimmed);
      var x :| x in s.node.activeTrims[0] && x !in s.node.trimmed;
      var s1 := SlotEmpties(slots, s0, s, x);
      assert At(s1.node.db, x) == map[];
      var s2 := DstNext(slots, s1, DstTrimNext(x));
      ReachesStep(slots, s0, s1, AtDestination(DstTrimNext(x)));
      assert s2 == s1.(node := s1.node.(trimmed := s1.node.trimmed + {x}));
      assert s2.node.activeTrims[0] - s2.node.trimmed == left - {x};
      hide Reaches, DstEnabled, DstNext, At;
      t := JobEnds(slots, s0, s2);
    }
  }

  /** Trimming can always be finished when writes are not paused: some run of trim steps alone empties the slots of
      all jobs, leaves every other slot as it is, and ends without jobs. */
  lemma TrimCanFinish(slots: set<int>, s: System) returns (t: System)
    requires !s.node.paused && forall x | x in s.node.trimmed :: At(s.node.db, x) == map[]
    ensures Reaches(slots, s, t) && t.node.pendingTrims == [] && t.node.activeTrims == []
    ensures t == s.(node := s.node.(db := t.node.db, pendingTrims := [], activeTrims := [], trimmed := t.node.trimmed))
    ensures forall x :: At(t.node.db, x) == if InTrimJob(s.node.pendingTrims, s.node.activeTrims, x) then map[] else At(s.node.db, x)
  {
    assert IsRun(slots, s, []) && After(slots, s, []) == s;
    var e := DstTrimPending(true);
    var s1 := DstNext(slots, s, e);
    ReachesStep(slots, s, s, AtDestination(e));
    assert s1.node == s.node.(pendingTrims := [], activeTrims := s.node.activeTrims + s.node.pendingTrims);
    hide Reaches, DstNext, At;
    t := AllJobsEnd(slots, s, s1);
    forall x
      ensures InTrimJob([], s.node.activeTrims + s.node.pendingTrims, x) <==> InTrimJob(s.node.pendingTrims, s.node.activeTrims, x)
    {
    }
  }

  lemma {:induction false} AllJobsEnd(slots: set<int>, s0: System, s: System) returns (t: System)
    requires Reaches(slots, s0, s) && !s.node.paused && s.node.pendingTrims == []
    requires forall x | x in s.node.trimmed :: At(s.node.db, x) == map[]
    ensures Reaches(slots, s0, t) && t.node.activeTrims == []
    ensures t == s.(node := s.node.(db := t.node.db, activeTrims := [], trimmed := t.node.trimmed))
    ensures forall x :: At(t.node.db, x) == if InTrimJob([], s.node.activeTrims, x) then map[] else At(s.node.db, x)
    decreases |s.node.activeTrims|
  {
    hide Reaches, At;
    if s.node.activeTrims == [] {
      t := s;
    } else {
      var s1 := JobEnds(slots, s0, s);
      t := AllJobsEnd(slots, s0, s1);
      forall x
        ensures InTrimJob([], s.node.activeTrims, x) <==> x in s.node.activeTrims[0] || InTrimJob([], s1.node.activeTrims, x)
      {
        FirstJob(s.node.activeTrims, x);
      }
    }
  }

  lemma FirstJob(active: seq<set<int>>, x: int)
    requires active != []
    ensures InTrimJob([], active, x) <==> x in active[0] || InTrimJob([], active[1..], x)
  {
    assert active == [active[0]] + active[1..];
  }

  /** Trimming is not confined to slots of others. A node that has come to own the slot of an import that has not begun
      cancels it, which schedules the slot, and the key it has stored there meanwhile is deleted. */
  lemma OwnedKeyIsTrimmed() returns (s: System, t: System)
    ensures Initial(Start()) && Reaches({0}, Start(), s) && Reaches({0}, Start(), t)
    ensures 0 in s.node.owned && At(s.node.db, 0) == map["k" := "v"]
    ensures 0 in t.node.owned && At(t.node.db, 0) == map[] && t.dst.state.ImportCanceled?
  {
    s := OwnerStores();
    hide Reaches;
    t := ExampleStep(s, AtDestination(DstStart(true, true)));
    t := CancelledStart(s, t);
  }

  lemma OwnerStores() returns (s: System)
    ensures Reaches({0}, Start(), s)
    ensures s == Start().(node := Start().node.(owned := {0}, db := map[0 := map["k" := "v"]]))
  {
    s := Start();
    assert IsRun({0}, s, []) && After({0}, s, []) == s;
    assert Reaches({0}, Start(), s);
    hide Reaches;
    s := ExampleStep(s, AtDestination(DstOwn({0})));
    s := ExampleStep(s, AtDestination(DstWrite(0, map["k" := "v"])));
  }

  lemma CancelledStart(s: System, t: System) returns (u: System)
    requires s == Start().(node := Start().node.(owned := {0}, db := map[0 := map["k" := "v"]]))
    requires Reaches({0}, Start(), t) && t == DstNext({0}, s, DstStart(true, true))
    ensures Reaches({0}, Start(), u) && 0 in u.node.owned && At(u.node.db, 0) == map[] && u.dst.state.ImportCanceled?
  {
    hide Reaches;
    assert 0 in {0} * s.node.owned;
    assert LeftoverSlots(s.node, {0}) == {};
    assert t.node.pendingTrims == [{0}] && t.node.owned == {0} && t.dst.state.ImportCanceled?;
    hide ImportStart, LeftoverSlots;
    PendingTrims(t.node, false);
    assert {0} in t.node.pendingTrims && 0 in {0};
    u := ExampleStep(t, AtDestination(DstTrimPending(false)));
  }
}
