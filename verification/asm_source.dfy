/** What becomes of the source's task: what it feeds, how it judges acknowledgements, and how it ends. */
module AsmSource {
  import opened Wrappers
  import opened AsmKeyspace
  import opened AsmProtocol
  import opened AsmSafety
  import opened AsmTheorems

  // ---------------------------------------------------------------- the end of a task

  /** A failure, a cancellation or a change of ownership ends the task: writes go on, both connections are down
      and nothing more is sent. It completes if and only if STREAM-EOF was sent before the ownership moved. */
  lemma EndingEvents(slots: set<int>, s: System, e: SourceEvent)
    requires Inv(slots, s) && SrcEnabled(slots, s, e) && (e.SrcFail? || e.SrcCancel? || e.SrcConfigUpdated?)
    ensures var t := SrcNext(slots, s, e);
      && (e.SrcFail? ==> t.src.state.MigrateFailed?)
      && (e.SrcCancel? ==> t.src.state.MigrateCanceled?)
      && (e.SrcConfigUpdated? ==> if s.src.state.StreamEofSent? then t.src.state.MigrateCompleted? else t.src.state.MigrateCanceled?)
      && !t.src.paused && !t.src.attached && t.src.db == s.src.db
      && !t.link.live && !t.link.rdbLive && t.link.stream == s.link.stream
  {
    hide TaskShape, NodeShape, StreamShape, Positions, DestinationContent, LiveLink, AckShape, IsSnapshot;
  }

  /** Before the event loop sleeps: a task that saw a cross-slot command is cancelled, one that has waited too long
      during or after the handoff fails, and both lift the write pause. STREAM-EOF is sent exactly in a handoff
      whose output has drained, and the pause goes on. */
  lemma BeforeSleepEnds(slots: set<int>, s: System, timeout: bool, drained: bool, eofBytes: nat)
    requires Inv(slots, s) && SrcEnabled(slots, s, SrcBeforeSleep(timeout, drained, eofBytes))
    ensures var t := SrcNext(slots, s, SrcBeforeSleep(timeout, drained, eofBytes));
      if s.src.crossSlot then
        t.src.state.MigrateCanceled? && !t.src.paused && !t.link.live && t.link.stream == s.link.stream
      else if timeout && (s.src.state.Handoff? || s.src.state.StreamEofSent?) then
        t.src.state.MigrateFailed? && !t.src.paused && !t.link.live && t.link.stream == s.link.stream
      else if s.src.state.Handoff? && drained then
        && t.src.state.StreamEofSent? && t.src.paused && t.src.db == s.src.db && !t.link.live
        && (s.link.live ==> t.link.stream == s.link.stream + [StreamEof(eofBytes)] && t.link.eof == Some(s.src.db))
        && (!s.link.live ==> t.link.stream == s.link.stream)
      else
        t == s
  {
    hide TaskShape, NodeShape, StreamShape, Positions, DestinationContent, LiveLink, AckShape, IsSnapshot;
  }

  /** The handoff is prepared if and only if the destination, not going back, is within the allowed lag while the
      snapshot or the stream is sent. */
  lemma AckVerdict(slots: set<int>, s: System, maxLag: nat)
    requires SrcEnabled(slots, s, SrcReceiveAck(maxLag))
    ensures var t, offset := SrcNext(slots, s, SrcReceiveAck(maxLag)), s.link.acks[0];
      && t.src.destOffset == (if offset < s.src.destOffset then s.src.destOffset else offset)
      && t.src.state.HandoffPrep? == (s.src.state.HandoffPrep? ||
           ((s.src.state.SendBulkAndStream? || s.src.state.SendStream?) &&
            s.src.destOffset <= offset && s.src.sourceOffset <= offset + maxLag))
      && (!t.src.state.HandoffPrep? ==> t.src.state == s.src.state)
      && t.src.sourceOffset == s.src.sourceOffset && t.src.db == s.src.db && t.src.paused == s.src.paused
  {
    hide IsSnapshot;
  }

  // ---------------------------------------------------------------- what is fed

  /** The commands on the migrated slots that were executed, as messages. */
  function Written(slots: set<int>, events: seq<Event>): seq<Message>
    decreases |events|
  {
    if events == [] then []
    else
      (match events[0]
       case AtSource(SrcWrite(Single(x, effect, bytes))) => if x in slots then [Feed(x, effect, bytes)] else []
       case _ => []) + Written(slots, events[1..])
  }

  predicate Crosses(e: Event) {
    e.AtSource? && e.src.SrcWrite? && e.src.cmd.CrossSlot?
  }

  predicate Feeding(s: System) {
    s.link.live && !s.src.crossSlot &&
    (s.src.state.SendBulkAndStream? || s.src.state.SendStream? || s.src.state.HandoffPrep?)
  }

  /** The connection does not feed any more and will not before the next SYNC. */
  predicate Silent(s: System) {
    !Feeding(s) && !s.src.state.WaitRdbChannel? && !s.src.state.WaitBgsaveStart?
  }

  lemma SilentStep(slots: set<int>, s: System, e: Event)
    requires Enabled(slots, s, e) && !IsSync(e) && Silent(s)
    ensures Silent(Next(slots, s, e))
  {
    match e
    case AtSource(se) => SourceSilent(slots, s, se);
    case AtDestination(de) => DestinationSilent(slots, s, de);
  }

  lemma SourceSilent(slots: set<int>, s: System, e: SourceEvent)
    requires SrcEnabled(slots, s, e) && !e.SrcAcceptSync? && Silent(s)
    ensures Silent(SrcNext(slots, s, e))
  {
    hide IsSnapshot, BytesTo;
  }

  lemma DestinationSilent(slots: set<int>, s: System, e: DestinationEvent)
    requires DstEnabled(slots, s, e)
    ensures DstNext(slots, s, e).src == s.src && (DstNext(slots, s, e).link.live ==> s.link.live && DstNext(slots, s, e).link.stream == s.link.stream)
  {
    DestinationKeepsSource(slots, s, e);
    LiveKept(slots, s, e);
    StreamKept(slots, s, e);
    hide *;
  }

  lemma LiveKept(slots: set<int>, s: System, e: DestinationEvent)
    requires DstEnabled(slots, s, e)
    ensures DstNext(slots, s, e).link.live ==> s.link.live
  {
    hide DstEnabled, ImportParse, ImportExecute, ImportStreamDone, ImportAdvance, ImportStart, Apply, Restored,
         ImportFail, TrimAfterFail, ProcessPendingTrims;
  }

  lemma StreamKept(slots: set<int>, s: System, e: DestinationEvent)
    requires DstEnabled(slots, s, e)
    ensures if e.DstReset? then !DstNext(slots, s, e).link.live else DstNext(slots, s, e).link.stream == s.link.stream
  {
    hide DstEnabled, ImportParse, ImportExecute, ImportStreamDone, ImportAdvance, ImportStart, Apply, Restored,
         ImportFail, TrimAfterFail, ProcessPendingTrims;
  }

  lemma {:induction false} SilentRun(slots: set<int>, s: System, events: seq<Event>)
    requires IsRun(slots, s, events) && Silent(s) && forall e | e in events :: !IsSync(e)
    ensures Silent(After(slots, s, events))
    decreases |events|
  {
    if events != [] {
      var e, more := events[0], events[1..];
      assert e in events && forall x | x in more :: x in events;
      SilentStep(slots, s, e);
      hide Enabled, Next, Silent, IsSync;
      SilentRun(slots, Next(slots, s, e), more);
    }
  }

  lemma FeedStep(slots: set<int>, s: System, e: Event)
    requires Enabled(slots, s, e) && !IsSync(e) && Feeding(s)
    ensures var t := Next(slots, s, e);
      if Feeding(t) then
        && !Crosses(e)
        && t.link.stream == s.link.stream + Written(slots, [e])
        && t.src.sourceOffset == s.src.sourceOffset + BytesTo(Written(slots, [e]), |Written(slots, [e])|)
      else Silent(t)
  {
    assert [e][1..] == [] && Written(slots, []) == [];
    match e
    case AtSource(se) => SourceFeeds(slots, s, se);
    case AtDestination(de) => DestinationSilent(slots, s, de); DestinationOffset(slots, s, de);
  }

  lemma DestinationOffset(slots: set<int>, s: System, e: DestinationEvent)
    requires DstEnabled(slots, s, e)
    ensures BytesTo([], 0) == 0 && s.link.stream + [] == s.link.stream
  {
  }

  lemma SourceFeeds(slots: set<int>, s: System, e: SourceEvent)
    requires SrcEnabled(slots, s, e) && !e.SrcAcceptSync? && Feeding(s)
    ensures var t := SrcNext(slots, s, e);
      if Feeding(t) then
        && !Crosses(AtSource(e))
        && t.link.stream == s.link.stream + Written(slots, [AtSource(e)])
        && t.src.sourceOffset == s.src.sourceOffset + BytesTo(Written(slots, [AtSource(e)]), |Written(slots, [AtSource(e)])|)
      else Silent(t)
  {
    assert [AtSource(e)][1..] == [] && Written(slots, []) == [];
    if e.SrcWrite? {
      WriteFeeds(slots, s, e.cmd);
      hide *;
    } else {
      assert BytesTo([], 0) == 0 && s.link.stream + [] == s.link.stream;
      hide IsSnapshot, FedBy, MigrateWrite, BytesTo;
    }
  }

  lemma WriteFeeds(slots: set<int>, s: System, cmd: Command)
    requires SrcEnabled(slots, s, SrcWrite(cmd)) && Feeding(s)
    ensures var t, e := SrcNext(slots, s, SrcWrite(cmd)), AtSource(SrcWrite(cmd));
      if Feeding(t) then
        && !Crosses(e)
        && t.link.stream == s.link.stream + Written(slots, [e])
        && t.src.sourceOffset == s.src.sourceOffset + BytesTo(Written(slots, [e]), |Written(slots, [e])|)
      else Silent(t)
  {
    hide Execute;
    assert [AtSource(SrcWrite(cmd))][1..] == [] && Written(slots, []) == [];
    if cmd.Single? {
      var m := Feed(cmd.slot, cmd.effect, cmd.bytes);
      assert BytesTo([m], 1) == BytesTo([m], 0) + cmd.bytes;
    }
  }

  lemma {:induction false} BytesAppend(a: seq<Message>, b: seq<Message>)
    ensures BytesTo(a + b, |a + b|) == BytesTo(a, |a|) + BytesTo(b, |b|)
    decreases |b|
  {
    if b == [] {
      assert a + b == a;
    } else {
      var init, m := b[..|b| - 1], b[|b| - 1];
      BytesAppend(a, init);
      assert a + b == (a + init) + [m] && b == init + [m];
      BytesToAppend(a + init, m, |a + init|);
      BytesToAppend(init, m, |init|);
    }
  }

  /** While a connection feeds, the stream on it is exactly the commands executed on the migrated slots, in their
      order, the source's offset counts their bytes, and no command across slots was among them. */
  lemma {:induction false} StreamIsWrites(slots: set<int>, s: System, events: seq<Event>)
    requires IsRun(slots, s, events) && Feeding(s) && Feeding(After(slots, s, events))
    requires forall e | e in events :: !IsSync(e)
    ensures var t, out := After(slots, s, events), Written(slots, events);
      && t.link.stream == s.link.stream + out && t.src.sourceOffset == s.src.sourceOffset + BytesTo(out, |out|)
      && forall e | e in events :: !Crosses(e)
    decreases |events|
  {
    hide *;
    if events == [] {
      NothingWritten(slots, s);
    } else {
      var e, more := events[0], events[1..];
      RunFirst(slots, s, events);
      assert e in events && forall x | x in more :: x in events;
      FeedStep(slots, s, e);
      var t := Next(slots, s, e);
      if Silent(t) {
        SilentRun(slots, t, more);
        SilentIsNotFeeding(After(slots, t, more));
      }
      StreamIsWrites(slots, t, more);
      WrittenFirst(slots, events);
      BytesAppend(Written(slots, [e]), Written(slots, more));
      assert t.link.stream + Written(slots, more) == s.link.stream + (Written(slots, [e]) + Written(slots, more));
      forall x | x in events
        ensures !Crosses(x)
      {
        assert x == e || x in more;
      }
    }
  }

  lemma RunFirst(slots: set<int>, s: System, events: seq<Event>)
    requires IsRun(slots, s, events)
    ensures events == [] ==> After(slots, s, events) == s
    ensures events != [] ==>
      && Enabled(slots, s, events[0]) && IsRun(slots, Next(slots, s, events[0]), events[1..])
      && After(slots, s, events) == After(slots, Next(slots, s, events[0]), events[1..])
  {
    hide Enabled, Next;
  }

  lemma SilentIsNotFeeding(s: System)
    ensures Silent(s) ==> !Feeding(s)
  {
  }

  lemma WrittenFirst(slots: set<int>, events: seq<Event>)
    requires events != []
    ensures Written(slots, events) == Written(slots, [events[0]]) + Written(slots, events[1..])
  {
    assert [events[0]][1..] == [] && Written(slots, []) == [];
  }

  lemma NothingWritten(slots: set<int>, s: System)
    ensures Written(slots, []) == [] && BytesTo([], 0) == 0 && s.link.stream + [] == s.link.stream
    ensures After(slots, s, []) == s
  {
  }

  // ---------------------------------------------------------------- a task begins and may be spoilt

  /** Until the snapshot starts an accepted task has seen nothing. */
  predicate Fresh(s: System) {
    s.src.state.WaitRdbChannel? || s.src.state.WaitBgsaveStart? ==>
      !s.src.crossSlot && s.src.destOffset == 0 && s.src.sourceOffset == 0 && s.link.acks == []
  }

  lemma FreshStep(slots: set<int>, s: System, e: Event)
    requires Inv(slots, s) && Enabled(slots, s, e) && Fresh(s)
    ensures Fresh(Next(slots, s, e))
  {
    match e
    case AtSource(se) => FreshSource(slots, s, se);
    case AtDestination(de) => FreshDestination(slots, s, de);
  }

  lemma FreshSource(slots: set<int>, s: System, e: SourceEvent)
    requires SrcEnabled(slots, s, e) && Fresh(s)
    ensures Fresh(SrcNext(slots, s, e))
  {
    hide IsSnapshot, BytesTo;
  }

  lemma FreshDestination(slots: set<int>, s: System, e: DestinationEvent)
    requires Inv(slots, s) && DstEnabled(slots, s, e) && Fresh(s)
    ensures Fresh(DstNext(slots, s, e))
  {
    DestinationSilent(slots, s, e);
    if e.DstYield? || e.DstStreamDone? || e.DstCronAck? {
      NoAckYet(slots, s);
    }
    AcksKept(slots, s, e);
    hide *;
  }

  lemma AcksKept(slots: set<int>, s: System, e: DestinationEvent)
    requires DstEnabled(slots, s, e)
    ensures e.DstYield? || e.DstStreamDone? || e.DstCronAck? || DstNext(slots, s, e).link.acks == s.link.acks
    ensures !s.link.live ==> DstNext(slots, s, e).link.acks == s.link.acks
  {
    hide DstEnabled, ImportParse, ImportExecute, ImportStreamDone, ImportAdvance, ImportStart, Apply, Restored,
         ImportFail, TrimAfterFail, ProcessPendingTrims;
  }

  lemma NoAckYet(slots: set<int>, s: System)
    requires Inv(slots, s) && s.dst.Streaming()
    ensures s.link.live ==> !s.src.state.WaitRdbChannel? && !s.src.state.WaitBgsaveStart?
  {
    hide SameOn, ReplayTo, RestoredTo, BytesTo;
  }

  lemma {:induction false} FreshRun(slots: set<int>, s: System, events: seq<Event>)
    requires Inv(slots, s) && IsRun(slots, s, events) && Fresh(s)
    ensures Fresh(After(slots, s, events))
    decreases |events|
  {
    hide *;
    RunFirst(slots, s, events);
    if events != [] {
      FreshStep(slots, s, events[0]);
      NextInv(slots, s, events[0]);
      FreshRun(slots, Next(slots, s, events[0]), events[1..]);
    }
  }

  lemma NextInv(slots: set<int>, s: System, e: Event)
    requires Inv(slots, s) && Enabled(slots, s, e)
    ensures Inv(slots, Next(slots, s, e))
  {
    assert [e][1..] == [] && After(slots, s, [e]) == Next(slots, s, e);
    hide Inv, Enabled, Next;
    RunKeepsInv(slots, s, [e]);
  }

  /** In every run the start of the snapshot is the start of the feed: both offsets are zero, and no earlier
      cross-slot command is held against the task. */
  lemma FeedStarts(slots: set<int>, s: System, events: seq<Event>, items: seq<Item>)
    requires Initial(s) && IsRun(slots, s, events) && SrcEnabled(slots, After(slots, s, events), SrcSnapshotStart(items))
    ensures var t := SrcNext(slots, After(slots, s, events), SrcSnapshotStart(items));
      && !t.src.crossSlot && t.src.state.SendBulkAndStream? && t.src.destOffset == 0 && t.src.sourceOffset == 0
      && (t.link.live ==> Feeding(t))
  {
    hide IsSnapshot, BytesTo;
    RunKeepsInv(slots, s, []);
    FreshRun(slots, s, events);
  }

  /** A task that has seen a cross-slot command and has not sent STREAM-EOF. */
  predicate Spoilt(s: System) {
    s.src.crossSlot && !s.src.state.StreamEofSent? && !s.src.state.MigrateCompleted?
  }

  predicate Sleeps(e: Event) {
    e.AtSource? && e.src.SrcBeforeSleep?
  }

  predicate Ended(s: System) {
    s.src.state.MigrateFailed? || s.src.state.MigrateCanceled?
  }

  lemma SpoiltStep(slots: set<int>, s: System, e: Event)
    requires Enabled(slots, s, e) && !IsSync(e) && Spoilt(s)
    ensures var t := Next(slots, s, e); Spoilt(t) && (Ended(s) || Sleeps(e) ==> Ended(t))
  {
    match e
    case AtSource(se) => SourceSpoilt(slots, s, se);
    case AtDestination(de) => DestinationSilent(slots, s, de);
  }

  lemma SourceSpoilt(slots: set<int>, s: System, e: SourceEvent)
    requires SrcEnabled(slots, s, e) && !e.SrcAcceptSync? && Spoilt(s)
    ensures var t := SrcNext(slots, s, e); Spoilt(t) && (Ended(s) || e.SrcBeforeSleep? ==> Ended(t))
  {
    hide IsSnapshot, BytesTo;
  }

  lemma {:induction false} SpoiltRun(slots: set<int>, s: System, events: seq<Event>)
    requires IsRun(slots, s, events) && Spoilt(s) && forall e | e in events :: !IsSync(e)
    ensures var t := After(slots, s, events);
      Spoilt(t) && (Ended(s) || (exists e :: e in events && Sleeps(e)) ==> Ended(t))
    decreases |events|
  {
    hide *;
    RunFirst(slots, s, events);
    if events != [] {
      var e, more := events[0], events[1..];
      assert e in events && forall x | x in more :: x in events;
      SpoiltStep(slots, s, e);
      SpoiltRun(slots, Next(slots, s, e), more);
      forall x | x in events && Sleeps(x)
        ensures x == e || x in more
      {
      }
    }
  }

  /** A cross-slot command that is executed while the task feeds spoils the migration: until the next SYNC there is
      no STREAM-EOF and no completion, and from the next time before the event loop sleeps the task has ended. */
  lemma CrossSlotEnds(slots: set<int>, s: System, run: Content -> Content, events: seq<Event>)
    requires Feeding(s) && SrcEnabled(slots, s, SrcWrite(CrossSlot(run)))
    requires IsRun(slots, SrcNext(slots, s, SrcWrite(CrossSlot(run))), events) && forall e | e in events :: !IsSync(e)
    ensures var t := After(slots, SrcNext(slots, s, SrcWrite(CrossSlot(run))), events);
      && !t.src.state.StreamEofSent? && !t.src.state.MigrateCompleted?
      && ((exists e :: e in events && Sleeps(e)) ==> t.src.state.MigrateFailed? || t.src.state.MigrateCanceled?)
  {
    var t := SrcNext(slots, s, SrcWrite(CrossSlot(run)));
    assert Spoilt(t);
    hide SrcEnabled, SrcNext, IsRun, After, IsSync, Sleeps;
    SpoiltRun(slots, t, events);
  }
}
