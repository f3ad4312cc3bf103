/** What becomes of the destination's task: when it starts, the order of its stages, what it takes off the channels,
    and how it ends. */
module AsmImport {
  import opened Wrappers
  import opened AsmKeyspace
  import opened AsmProtocol
  import opened AsmSafety
  import opened AsmTheorems
  import opened AsmSource

  // ---------------------------------------------------------------- starting

  /** An import starts if and only if no slot is owned, holds keys or is in a trim job, writes are not paused, nobody
      objects and the slots have one owner. With a slot of its own, or more than one owner, it is cancelled instead; in
      any other case it tries again. A slot that the node owns is trimmed exactly when the start is cancelled. */
  lemma StartVerdict(slots: set<int>, s: System, ready: bool, oneOwner: bool)
    requires DstEnabled(slots, s, DstStart(ready, oneOwner))
    ensures var n, t := s.node, DstNext(slots, s, DstStart(ready, oneOwner));
      var free := ready && !n.paused && forall x | x in slots ::
        !InTrimJob(n.pendingTrims, n.activeTrims, x) && (x in n.owned || At(n.db, x) == map[]);
      && (t.dst.state.Connecting? <==> free && oneOwner && slots * n.owned == {})
      && (t.dst.state.ImportCanceled? <==> free && !(oneOwner && slots * n.owned == {}))
      && (!free ==> t.dst == s.dst)
      && (forall x | x in slots && x in n.owned && !InTrimJob(n.pendingTrims, n.activeTrims, x) ::
            InTrimJob(t.node.pendingTrims, t.node.activeTrims, x) <==> free)
      && t.node.db == n.db && t.node.owned == n.owned && t.link == s.link && t.src == s.src
  {
    var n := s.node;
    var n1 := TrimIfNotOwned(n, slots);
    forall x | x in slots
      ensures InTrimJob(n1.pendingTrims, n1.activeTrims, x) <==>
              InTrimJob(n.pendingTrims, n.activeTrims, x) || (x !in n.owned && At(n.db, x) != map[])
      ensures InTrimJob(n1.pendingTrims + [slots], n1.activeTrims, x)
    {
      LeftoverJobs(n, slots, x);
      MoreJobs(n1.pendingTrims, n1.activeTrims, slots, x);
    }
    assert forall x | x in slots && x in n.owned :: x in slots * n.owned;
    hide InTrimJob, TrimIfNotOwned, At;
    LeftoverRest(n, slots);
  }

  lemma LeftoverRest(n: Node, slots: set<int>)
    ensures TrimIfNotOwned(n, slots) == n.(pendingTrims := TrimIfNotOwned(n, slots).pendingTrims)
  {
    hide LeftoverSlots;
  }

  lemma LeftoverJobs(n: Node, slots: set<int>, x: int)
    requires x in slots
    ensures var n1 := TrimIfNotOwned(n, slots);
      InTrimJob(n1.pendingTrims, n1.activeTrims, x) <==>
      InTrimJob(n.pendingTrims, n.activeTrims, x) || (x !in n.owned && At(n.db, x) != map[])
  {
    var left := LeftoverSlots(n, slots);
    MoreJobs(n.pendingTrims, n.activeTrims, left, x);
    hide At;
    assert x in left <==> x !in n.owned && At(n.db, x) != map[] && !InTrimJob(n.pendingTrims, n.activeTrims, x);
    hide InTrimJob, LeftoverSlots;
  }

  lemma MoreJobs(pending: seq<set<int>>, active: seq<set<int>>, job: set<int>, x: int)
    ensures InTrimJob(pending + [job], active, x) <==> InTrimJob(pending, active, x) || x in job
  {
    var more := pending + [job];
    assert more[|pending|] == job;
    assert forall t :: t in more <==> t in pending || t == job;
  }

  /** A second attempt begins as the first one did: no state, no offset and nothing of the old connection is left. */
  lemma ResetIsFresh(slots: set<int>, s: System)
    requires DstEnabled(slots, s, DstReset)
    ensures var t := DstNext(slots, s, DstReset);
      && t.dst.state == ImportNone && t.dst.rdb == RdbNone && !t.dst.eofSeen
      && t.dst.offset == t.dst.applied == t.dst.inChunk == t.dst.avail == t.dst.partial == 0
      && !t.link.accepted && !t.link.live && !t.link.rdbLive && !t.link.started && !t.link.snapshotSent
      && t.link.snapshot == [] && t.link.stream == [] && t.link.snapPos == t.link.msgPos == t.link.unsent == t.link.split == 0
      && t.link.eof == None && t.node == s.node && t.src == s.src
  {
  }

  // ---------------------------------------------------------------- the order of the stages

  /** The stages of an import, in the order of the protocol; 0 is a task that has not begun or has ended badly. */
  function Stage(d: Import): nat {
    match d.state
    case ImportNone => 0
    case Connecting => 1
    case AuthReply => 2
    case SendHandshake => 3
    case HandshakeReply => 4
    case SendSyncslots => 5
    case SyncslotsReply => 6
    case InitRdbChannel =>
      if d.rdb.RdbAuthReply? then 8 else if d.rdb.RdbRequest? then 9 else if d.rdb.RdbReply? then 10 else 7
    case AccumulateBuf => 11
    case ReadyToStream => 12
    case StreamingBuf => 13
    case WaitStreamEof => 14
    case Takeover => 15
    case ImportCompleted => 16
    case ImportFailed => 0
    case ImportCanceled => 0
  }

  /** No event skips a stage, but that the buffer may hold STREAM-EOF already; the steps that wait for no answer
      advance by one. */
  lemma StageStep(slots: set<int>, s: System, e: Event)
    requires Enabled(slots, s, e)
    ensures var a, b := Stage(s.dst), Stage(Next(slots, s, e).dst);
      && (b <= a + 1 || (a == 13 && b == 15))
      && (e == AtDestination(DstAdvance) && (0 < a < 6 || (a == 7 && s.dst.rdb.RdbConnecting?) || 7 < a < 10) ==> b == a + 1)
  {
    match e
    case AtSource(se) => SourceKeepsImport(slots, s, se);
    case AtDestination(de) => DestinationStage(slots, s, de);
  }

  lemma SourceKeepsImport(slots: set<int>, s: System, e: SourceEvent)
    requires SrcEnabled(slots, s, e)
    ensures SrcNext(slots, s, e).dst == s.dst
  {
    hide IsSnapshot, BytesTo;
  }

  lemma DestinationStage(slots: set<int>, s: System, e: DestinationEvent)
    requires DstEnabled(slots, s, e)
    ensures var a, b := Stage(s.dst), Stage(DstNext(slots, s, e).dst);
      && (b <= a + 1 || (a == 13 && b == 15))
      && (e == DstAdvance && (0 < a < 6 || (a == 7 && s.dst.rdb.RdbConnecting?) || 7 < a < 10) ==> b == a + 1)
  {
    hide IsSnapshot, BytesTo, Apply, Restored, TrimAfterFail, ProcessPendingTrims, TrimIfNotOwned, InTrimJob, At;
  }

  /** The run stands in the stage at some time. */
  ghost predicate Passes(slots: set<int>, s: System, events: seq<Event>, stage: nat)
    requires IsRun(slots, s, events)
    decreases |events|
  {
    Stage(s.dst) == stage || (events != [] && Passes(slots, Next(slots, s, events[0]), events[1..], stage))
  }

  /** An import that has come to a stage has gone through all stages before it; only WAIT_STREAM_EOF can be left
      out. */
  lemma {:induction false} StagesInOrder(slots: set<int>, s: System, events: seq<Event>, stage: nat)
    requires IsRun(slots, s, events) && stage != 14
    requires Stage(s.dst) <= stage <= Stage(After(slots, s, events).dst)
    ensures Passes(slots, s, events, stage)
    decreases |events|
  {
    hide *;
    RunFirst(slots, s, events);
    PassesFirst(slots, s, events, stage);
    if Stage(s.dst) != stage {
      assert events != [];
      StageStep(slots, s, events[0]);
      StagesInOrder(slots, Next(slots, s, events[0]), events[1..], stage);
    }
  }

  lemma PassesFirst(slots: set<int>, s: System, events: seq<Event>, stage: nat)
    requires IsRun(slots, s, events)
    ensures Stage(s.dst) == stage ==> Passes(slots, s, events, stage)
    ensures events != [] && Passes(slots, Next(slots, s, events[0]), events[1..], stage) ==> Passes(slots, s, events, stage)
  {
    hide Enabled, Next, Stage;
  }

  // ---------------------------------------------------------------- the two channels

  /** In every run a RESTORE of the snapshot finds its key absent: no item is refused, and the slot gains exactly
      this key. */
  lemma NoItemIsRefused(slots: set<int>, s: System, events: seq<Event>)
    requires Initial(s) && IsRun(slots, s, events) && DstEnabled(slots, After(slots, s, events), DstItem)
    ensures var t := After(slots, s, events); var item, t1 := t.link.snapshot[t.link.snapPos], DstNext(slots, t, DstItem);
      item.Restore? ==>
        && item.slot in slots && item.key !in At(t.node.db, item.slot)
        && At(t1.node.db, item.slot) == At(t.node.db, item.slot)[item.key := item.value]
        && forall x | x != item.slot :: At(t1.node.db, x) == At(t.node.db, x)
  {
    RunKeepsInv(slots, s, events);
    NewItem(slots, After(slots, s, events));
  }

  lemma NewItem(slots: set<int>, s: System)
    requires Inv(slots, s) && DstEnabled(slots, s, DstItem)
    ensures var item, t := s.link.snapshot[s.link.snapPos], DstNext(slots, s, DstItem);
      item.Restore? ==>
        && item.slot in slots && item.key !in At(s.node.db, item.slot)
        && At(t.node.db, item.slot) == At(s.node.db, item.slot)[item.key := item.value]
        && forall x | x != item.slot :: At(t.node.db, x) == At(s.node.db, x)
  {
    var l := s.link;
    var item := l.snapshot[l.snapPos];
    if item.Restore? {
      assert IsSnapshot(l.snapshot, l.base, slots) && SameOn(slots, s.node.db, RestoredTo(l.snapshot, l.snapPos));
      ItemIsNew(l.snapshot, l.snapPos, l.base, slots);
      hide IsSnapshot, RestoredTo, Inv;
    }
  }

  lemma ItemIsNew(items: seq<Item>, n: nat, base: Content, slots: set<int>)
    requires IsSnapshot(items, base, slots) && n < |items| && items[n].Restore?
    ensures items[n].slot in slots && items[n].key !in At(RestoredTo(items, n), items[n].slot)
  {
    RestoredToKeys(items, n, base, slots, items[n].slot);
    assert !Listed(items, n, items[n].slot, items[n].key);
  }

  /** Parsing takes the bytes off the stream, executing the rest of the message; out of the buffer while there
      is one. */
  lemma ParseConsumes(slots: set<int>, s: System, bytes: nat)
    requires DstEnabled(slots, s, DstParse(bytes))
    ensures var t := DstNext(slots, s, DstParse(bytes));
      && t.link == s.link && t.node == s.node && Consumed(t) == Consumed(s) + bytes
      && t.dst.avail == s.dst.avail - (if s.dst.state.StreamingBuf? then bytes else 0)
      && t.dst.state == s.dst.state && t.dst.offset == s.dst.offset
  {
  }

  lemma ExecuteConsumes(slots: set<int>, s: System)
    requires DstEnabled(slots, s, DstExecute)
    ensures var t, m := DstNext(slots, s, DstExecute), s.link.stream[s.link.msgPos];
      && t.link.stream == s.link.stream && t.link.msgPos == s.link.msgPos + 1
      && Consumed(t) == Consumed(s) + (m.bytes - s.dst.partial) && t.dst.partial == 0
      && t.node == s.node.(db := Apply(s.node.db, m))
      && t.dst.state == (if m.StreamEof? && !s.dst.state.StreamingBuf? then Takeover else s.dst.state)
  {
    hide Apply;
  }

  // ---------------------------------------------------------------- the end of a task

  /** A failure or a cancellation ends the task and both connections and schedules the trim of its slots, once: a task
      that had failed before schedules nothing more. No key goes yet. */
  lemma FailOnce(slots: set<int>, s: System, e: DestinationEvent)
    requires DstEnabled(slots, s, e) && (e.DstFail? || e.DstCancel?)
    ensures var n, t := s.node, DstNext(slots, s, e);
      && (e.DstFail? ==> t.dst.state.ImportFailed?) && (e.DstCancel? ==> t.dst.state.ImportCanceled?)
      && !t.link.live && !t.link.rdbLive && t.src == s.src
      && t.node == n.(pendingTrims := if s.dst.state.ImportFailed? then n.pendingTrims else n.pendingTrims + [slots])
  {
  }

  /** In every run, when the ownership moves to a destination in TAKEOVER, the import completes: the node owns the
      slots with exactly what the source held when it sent STREAM-EOF, none of them in a trim job, and both
      connections are down. */
  lemma CompletionHandsOver(slots: set<int>, s: System, events: seq<Event>)
    requires Initial(s) && IsRun(slots, s, events) && DstEnabled(slots, After(slots, s, events), DstConfigUpdated)
    ensures var before := After(slots, s, events); var t := DstNext(slots, before, DstConfigUpdated);
      && t.dst.state.ImportCompleted? && t.node.owned == before.node.owned + slots && slots <= t.node.owned
      && !t.link.live && !t.link.rdbLive
      && before.link.eof.Some? && (forall x | x in slots :: At(t.node.db, x) == At(before.link.eof.value, x))
      && forall x | x in slots :: !InTrimJob(t.node.pendingTrims, t.node.activeTrims, x)
  {
    MigrationIsExact(slots, s, events);
    ImportIsUndisturbed(slots, s, events);
    hide IsRun, After, Initial, InTrimJob, At, IsSnapshot, BytesTo;
  }
}
