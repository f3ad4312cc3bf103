/** The main results about the migration protocol, for every run from every initial state. */
module AsmTheorems {
  import opened Wrappers
  import opened AsmKeyspace
  import opened AsmProtocol
  import opened AsmSafety

  lemma SourceStepInv(slots: set<int>, s: System, e: SourceEvent)
    requires Inv(slots, s) && SrcEnabled(slots, s, e)
    ensures Inv(slots, SrcNext(slots, s, e))
  {
    hide Inv, SrcNext, SrcEnabled;
    match e
    case SrcAcceptSync(_) => SrcAcceptSyncInv(slots, s, e);
    case SrcAcceptRdb(_) => SrcAcceptRdbInv(slots, s, e);
    case SrcSnapshotStart(_) => SrcSnapshotStartInv(slots, s, e);
    case SrcSnapshotSucceed => SrcAcceptRdbInv(slots, s, e);
    case SrcWrite(_) => SrcWriteInv(slots, s, e);
    case SrcSend(_) => SrcAcceptRdbInv(slots, s, e);
    case SrcReceiveAck(_) => SrcReceiveAckInv(slots, s, e);
    case SrcHandoff => SrcAcceptRdbInv(slots, s, e);
    case SrcBeforeSleep(_, _, _) => SrcBeforeSleepInv(slots, s, e);
    case SrcFail => SrcFailInv(slots, s, e);
    case SrcCancel => SrcCancelInv(slots, s, e);
    case SrcConfigUpdated => SrcConfigUpdatedInv(slots, s, e);
  }

  lemma DestinationStepInv(slots: set<int>, s: System, e: DestinationEvent)
    requires Inv(slots, s) && DstEnabled(slots, s, e)
    ensures Inv(slots, DstNext(slots, s, e))
  {
    hide Inv, DstNext, DstEnabled;
    match e
    case DstStart(_, _) => DstStartInv(slots, s, e);
    case DstReset => DstResetInv(slots, s, e);
    case DstAdvance => DstAdvanceInv(slots, s, e);
    case DstSyncReply(_) => DstAdvanceInv(slots, s, e);
    case DstSnapshotReply => DstSnapshotReplyInv(slots, s, e);
    case DstItem => DstItemInv(slots, s, e);
    case DstSnapshotEof => DstSnapshotEofInv(slots, s, e);
    case DstStreamStart => DstStreamStartInv(slots, s, e);
    case DstRead(_) => DstStreamStartInv(slots, s, e);
    case DstParse(_) => DstParseInv(slots, s, e);
    case DstExecute => DstExecuteInv(slots, s, e);
    case DstYield => DstYieldInv(slots, s, e);
    case DstEndChunk => DstYieldInv(slots, s, e);
    case DstStreamDone => DstStreamDoneInv(slots, s, e);
    case DstCronAck => DstYieldInv(slots, s, e);
    case DstFail => DstFailInv(slots, s, e);
    case DstCancel => DstCancelInv(slots, s, e);
    case DstConfigUpdated => DstConfigUpdatedInv(slots, s, e);
    case DstTrimPending(_) => DstTrimPendingInv(slots, s, e);
    case DstTrimKey(_, _) => DstTrimEndInv(slots, s, e);
    case DstTrimNext(_) => DstTrimEndInv(slots, s, e);
    case DstTrimEnd => DstTrimEndInv(slots, s, e);
    case DstTrimCancel => DstTrimEndInv(slots, s, e);
    case DstPause(_) => DstPauseInv(slots, s, e);
    case DstOwn(_) => DstPauseInv(slots, s, e);
    case DstWrite(_, _) => DstWriteInv(slots, s, e);
  }

  lemma {:induction false} RunKeepsInv(slots: set<int>, s: System, events: seq<Event>)
    requires Inv(slots, s) && IsRun(slots, s, events)
    ensures Inv(slots, After(slots, s, events))
    decreases |events|
  {
    if events != [] {
      match events[0] {
        case AtSource(e) => SourceStepInv(slots, s, e);
        case AtDestination(e) => DestinationStepInv(slots, s, e);
      }
      hide Inv;
      RunKeepsInv(slots, Next(slots, s, events[0]), events[1..]);
    }
  }

  /** Nothing lost, nothing invented: whenever an import task stands in TAKEOVER, its node holds in the
      migrated slots exactly what the source held when it sent STREAM-EOF. As long as the source has
      kept its writes paused since then, the two nodes still agree. */
  lemma MigrationIsExact(slots: set<int>, s: System, events: seq<Event>)
    requires Initial(s) && IsRun(slots, s, events)
    ensures var t := After(slots, s, events);
      t.dst.state.Takeover? ==>
        && t.link.eof.Some?
        && SameOn(slots, t.node.db, t.link.eof.value)
        && (t.link.pausedSinceEof ==> SameOn(slots, t.node.db, t.src.db))
  {
    RunKeepsInv(slots, s, events);
    var t := After(slots, s, events);
    if t.dst.state.Takeover? {
      var n := t.link.msgPos;
      assert t.link.stream[n - 1].StreamEof? && n == |t.link.stream|;
      assert ReplayTo(t.link.stream, n, t.link.base) == ReplayTo(t.link.stream, n - 1, t.link.base);
    }
  }

  /** From CONNECTING to TAKEOVER the destination neither owns nor trims the slots it imports, and it
      has no key in them before the snapshot arrives. */
  lemma ImportIsUndisturbed(slots: set<int>, s: System, events: seq<Event>)
    requires Initial(s) && IsRun(slots, s, events)
    ensures var t := After(slots, s, events);
      && (t.dst.Active() ==> slots * t.node.owned == {})
      && (t.dst.Active() ==> forall x | x in slots :: !InTrimJob(t.node.pendingTrims, t.node.activeTrims, x))
      && (t.dst.Handshaking() ==> forall x | x in slots :: At(t.node.db, x) == map[])
  {
    RunKeepsInv(slots, s, events);
  }

  /** The events since the source last accepted a SYNC contain the end of a snapshot. */
  ghost predicate SnapshotSinceSync(events: seq<Event>) {
    exists i :: 0 <= i < |events| && events[i] == AtDestination(DstSnapshotEof) &&
      forall j | i < j < |events| :: !IsSync(events[j])
  }

  predicate IsSync(e: Event) {
    e.AtSource? && e.src.SrcAcceptSync?
  }

  lemma {:induction false} SnapshotFlagMeaning(slots: set<int>, s: System, events: seq<Event>)
    requires IsRun(slots, s, events) && After(slots, s, events).link.snapshotReceived
    ensures SnapshotSinceSync(events) || (s.link.snapshotReceived && forall j | 0 <= j < |events| :: !IsSync(events[j]))
    decreases |events|
  {
    if events != [] {
      var s1, rest := Next(slots, s, events[0]), events[1..];
      SnapshotFlagMeaning(slots, s1, rest);
      if SnapshotSinceSync(rest) {
        var i :| 0 <= i < |rest| && rest[i] == AtDestination(DstSnapshotEof) &&
          forall j | i < j < |rest| :: !IsSync(rest[j]);
        assert events[i + 1] == rest[i];
        assert forall j | i + 1 < j < |events| :: !IsSync(events[j]) by {
          forall j | i + 1 < j < |events|
            ensures !IsSync(events[j])
          {
            assert events[j] == rest[j - 1];
          }
        }
      } else {
        assert forall j | 0 < j < |events| :: events[j] == rest[j - 1];
        FlagStep(slots, s, events[0]);
      }
    }
  }

  lemma FlagStep(slots: set<int>, s: System, e: Event)
    requires Enabled(slots, s, e) && Next(slots, s, e).link.snapshotReceived
    ensures !IsSync(e) && (s.link.snapshotReceived || e == AtDestination(DstSnapshotEof))
  {
    match e
    case AtSource(se) => SourceFlagStep(slots, s, se);
    case AtDestination(de) => DestinationFlagStep(slots, s, de);
  }

  lemma SourceFlagStep(slots: set<int>, s: System, e: SourceEvent)
    requires SrcEnabled(slots, s, e) && SrcNext(slots, s, e).link.snapshotReceived
    ensures !e.SrcAcceptSync? && s.link.snapshotReceived
  {
    hide FedBy, MigrateWrite, MigrateAck, MigrateBeforeSleep, SendsEof, MigrateFail, MigrateCancel, MigrateConfigUpdated, SrcEnabled;
  }

  lemma DestinationFlagStep(slots: set<int>, s: System, e: DestinationEvent)
    requires DstEnabled(slots, s, e) && DstNext(slots, s, e).link.snapshotReceived
    ensures s.link.snapshotReceived || e.DstSnapshotEof?
  {
    hide ImportStart, ImportAdvance, ImportParse, ImportExecute, ImportStreamDone, ImportFail, TrimAfterFail, ProcessPendingTrims;
    match e
    case DstReset => hide DstEnabled;
    case DstSnapshotEof => hide DstEnabled;
    case DstExecute =>
    case DstYield => hide DstEnabled;
    case DstStreamDone => hide DstEnabled;
    case DstCronAck => hide DstEnabled;
    case _ => hide DstEnabled;
  }

  /** The source prepares or performs a handoff only after the destination has received a whole
      snapshot on the current connection. */
  lemma HandoffFollowsSnapshot(slots: set<int>, s: System, events: seq<Event>)
    requires Initial(s) && IsRun(slots, s, events)
    ensures var m := After(slots, s, events).src.state;
      m.HandoffPrep? || m.Handoff? || m.StreamEofSent? ==> SnapshotSinceSync(events)
  {
    RunKeepsInv(slots, s, events);
    if After(slots, s, events).link.snapshotReceived {
      SnapshotFlagMeaning(slots, s, events);
    }
  }

  /** The part of a command that had been parsed when the sync buffer ran dry, over the events of a run: of
      the last time this happened on a live connection since the source last accepted a SYNC, or none. */
  ghost function Straddled(slots: set<int>, s: System, events: seq<Event>, before: nat): nat
    requires IsRun(slots, s, events)
    decreases |events|
  {
    if events == [] then before
    else Straddled(slots, Next(slots, s, events[0]), events[1..], StraddledBy(s, events[0], before))
  }

  predicate RunsDry(e: Event) {
    e == AtDestination(DstStreamDone)
  }

  function StraddledBy(s: System, e: Event, before: nat): nat {
    if IsSync(e) then 0
    else if RunsDry(e) && !s.dst.eofSeen && s.link.live then s.dst.partial
    else before
  }

  lemma SlackStep(slots: set<int>, s: System, e: Event)
    requires Enabled(slots, s, e)
    ensures Next(slots, s, e).link.ackSlack == StraddledBy(s, e, s.link.ackSlack)
  {
    match e
    case AtSource(se) => SourceSlackStep(slots, s, se);
    case AtDestination(de) => DestinationSlackStep(slots, s, de);
  }

  lemma SourceSlackStep(slots: set<int>, s: System, e: SourceEvent)
    requires SrcEnabled(slots, s, e)
    ensures SrcNext(slots, s, e).link.ackSlack == if e.SrcAcceptSync? then 0 else s.link.ackSlack
  {
    hide FedBy, MigrateWrite, MigrateAck, MigrateBeforeSleep, SendsEof, MigrateFail, MigrateCancel, MigrateConfigUpdated, IsSnapshot;
  }

  lemma DestinationSlackStep(slots: set<int>, s: System, e: DestinationEvent)
    requires DstEnabled(slots, s, e)
    ensures DstNext(slots, s, e).link.ackSlack ==
            if e.DstStreamDone? && !s.dst.eofSeen && s.link.live then s.dst.partial else s.link.ackSlack
  {
    hide ImportStart, ImportAdvance, ImportParse, ImportExecute, ImportFail, TrimAfterFail, ProcessPendingTrims, BytesTo, Apply;
  }

  lemma {:induction false} SlackIsStraddled(slots: set<int>, s: System, events: seq<Event>)
    requires IsRun(slots, s, events)
    ensures After(slots, s, events).link.ackSlack == Straddled(slots, s, events, s.link.ackSlack)
    decreases |events|
  {
    if events != [] {
      SlackStep(slots, s, events[0]);
      hide Enabled, Next, StraddledBy;
      SlackIsStraddled(slots, Next(slots, s, events[0]), events[1..]);
    }
  }

  /** While the task owns its main channel client, the acknowledged offset exceeds what the source has
      fed by at most the bytes of a command that straddled the end of the sync buffer. */
  lemma AckBound(slots: set<int>, s: System, events: seq<Event>)
    requires Initial(s) && IsRun(slots, s, events)
    ensures var t := After(slots, s, events);
      t.src.attached ==> t.src.destOffset <= t.src.sourceOffset + Straddled(slots, s, events, 0)
  {
    RunKeepsInv(slots, s, events);
    SlackIsStraddled(slots, s, events);
  }

  /** The bound is exact, wherever the destination is in the stream: the offset it acknowledges is the bytes it
      has executed and the straddling bytes, which are counted once as applied buffer and once more with the
      whole command. It passes the source's offset if and only if more bytes straddled than are still to be
      executed. */
  lemma AckOvershootsIffSplit(slots: set<int>, s: System, events: seq<Event>)
    requires Initial(s) && IsRun(slots, s, events)
    ensures var t := After(slots, s, events);
      t.link.msgPos <= |t.link.stream| && (t.dst.state.WaitStreamEof? && t.link.live ==>
        var executed, straddled := BytesTo(t.link.stream, t.link.msgPos), Straddled(slots, s, events, 0);
        && t.src.sourceOffset == Fed(t.link)
        && t.dst.offset == executed + straddled
        && (t.dst.offset > t.src.sourceOffset <==> straddled > Fed(t.link) - executed))
  {
    RunKeepsInv(slots, s, events);
    SlackIsStraddled(slots, s, events);
  }

  lemma AckStep(slots: set<int>, s: System, e: Event)
    requires Enabled(slots, s, e) && !(e.AtSource? && e.src.SrcAcceptSync?)
    ensures Next(slots, s, e).src.destOffset >= s.src.destOffset
  {
    match e
    case AtSource(se) => AckSourceStep(slots, s, se);
    case AtDestination(de) => DestinationKeepsSource(slots, s, de);
  }

  lemma AckSourceStep(slots: set<int>, s: System, e: SourceEvent)
    requires SrcEnabled(slots, s, e) && !e.SrcAcceptSync?
    ensures SrcNext(slots, s, e).src.destOffset >= s.src.destOffset
  {
    hide SrcEnabled, FedBy, SendsEof;
  }

  lemma DestinationKeepsSource(slots: set<int>, s: System, e: DestinationEvent)
    requires DstEnabled(slots, s, e)
    ensures DstNext(slots, s, e).src == s.src
  {
    hide DstEnabled, ImportParse, ImportExecute, ImportStreamDone, ImportAdvance, ImportStart, ImportFail, TrimAfterFail,
         ProcessPendingTrims, Apply, Restored;
  }

  /** Until the source accepts a new connection, the offset it has seen acknowledged never decreases. */
  lemma {:induction false} AckNeverDecreases(slots: set<int>, s: System, events: seq<Event>)
    requires IsRun(slots, s, events)
    requires forall e | e in events :: !(e.AtSource? && e.src.SrcAcceptSync?)
    ensures After(slots, s, events).src.destOffset >= s.src.destOffset
    decreases |events|
  {
    if events != [] {
      var e, more := events[0], events[1..];
      assert e in events && forall x | x in more :: x in events;
      AckStep(slots, s, e);
      hide Enabled, Next;
      AckNeverDecreases(slots, Next(slots, s, e), more);
    }
  }

  // ---------------------------------------------------------------- a run that reaches the end

  /** A longer run from a shorter one. */
  lemma {:induction false} RunSnoc(slots: set<int>, s: System, events: seq<Event>, e: Event)
    requires IsRun(slots, s, events) && Enabled(slots, After(slots, s, events), e)
    ensures IsRun(slots, s, events + [e]) && After(slots, s, events + [e]) == Next(slots, After(slots, s, events), e)
    decreases |events|
  {
    if events == [] {
      assert events + [e] == [e] && [e][1..] == [];
    } else {
      RunSnoc(slots, Next(slots, s, events[0]), events[1..], e);
      assert (events + [e])[1..] == events[1..] + [e];
    }
  }

  /** `t` is reachable from `s`. */
  ghost predicate Reaches(slots: set<int>, s: System, t: System) {
    exists events :: IsRun(slots, s, events) && After(slots, s, events) == t
  }

  lemma ReachesStep(slots: set<int>, s: System, t: System, e: Event)
    requires Reaches(slots, s, t) && Enabled(slots, t, e)
    ensures Reaches(slots, s, Next(slots, t, e))
  {
    var events :| IsRun(slots, s, events) && After(slots, s, events) == t;
    RunSnoc(slots, s, events, e);
  }

  function Start(): System {
    System(Migrate(MigrateNone, false, false, 0, 0, false, map[]), ImportReset(), Node(map[], {}, false, [], [], {}),
           Link(false, false, false, false, false, map[], [], 0, [], 0, 0, 0, None, false, [], false, 0))
  }

  function SetCommand(): Command {
    Single(0, (d: Data) => d["k" := "v"], 10)
  }

  lemma ExampleStep(t: System, e: Event) returns (u: System)
    requires Reaches({0}, Start(), t) && Enabled({0}, t, e)
    ensures Reaches({0}, Start(), u) && u == Next({0}, t, e)
  {
    ReachesStep({0}, Start(), t, e);
    u := Next({0}, t, e);
  }

  lemma ExampleStart() returns (t: System)
    ensures Reaches({0}, Start(), t) && t == Start().(dst := ImportReset().(state := Connecting))
  {
    t := Start();
    assert IsRun({0}, t, []) && After({0}, t, []) == t;
    hide IsRun, After;
    assert LeftoverSlots(t.node, {0}) == {};
    assert {0} * t.node.owned == {};
    t := ExampleStep(t, AtDestination(DstStart(true, true)));
  }

  lemma ExampleSync() returns (t: System)
    ensures Reaches({0}, Start(), t)
    ensures t == Start().(dst := ImportReset().(state := SyncslotsReply),
                          src := MigrateAccept(Start().src), link := Start().link.(accepted := true, live := true))
  {
    t := ExampleStart();
    hide Reaches;
    t := ExampleStep(t, AtDestination(DstAdvance));
    t := ExampleStep(t, AtDestination(DstAdvance));
    t := ExampleStep(t, AtDestination(DstAdvance));
    t := ExampleStep(t, AtDestination(DstAdvance));
    t := ExampleStep(t, AtDestination(DstAdvance));
    assert t == Start().(dst := ImportReset().(state := SyncslotsReply));
    t := ExampleStep(t, AtSource(SrcAcceptSync(true)));
  }

  lemma ExampleRdb() returns (t: System)
    ensures Reaches({0}, Start(), t)
    ensures t == Start().(dst := ImportReset().(state := InitRdbChannel, rdb := RdbReply),
                          src := MigrateAccept(Start().src).(state := WaitBgsaveStart),
                          link := Start().link.(accepted := true, live := true, rdbLive := true))
  {
    t := ExampleSync();
    hide Reaches;
    t := ExampleStep(t, AtDestination(DstSyncReply(true)));
    t := ExampleStep(t, AtDestination(DstAdvance));
    t := ExampleStep(t, AtDestination(DstAdvance));
    t := ExampleStep(t, AtDestination(DstAdvance));
    t := ExampleStep(t, AtSource(SrcAcceptRdb(true)));
  }

  /** An empty snapshot, one command of ten bytes fed and sent. */
  lemma ExampleFeed() returns (t: System)
    ensures Reaches({0}, Start(), t)
    ensures var db := Execute(map[], SetCommand());
      t == Start().(dst := ImportReset().(state := InitRdbChannel, rdb := RdbReply),
                    src := MigrateAccept(Start().src).(state := SendBulkAndStream, sourceOffset := 10, db := db),
                    link := Start().link.(accepted := true, live := true, rdbLive := true, started := true,
                              snapshotSent := true, stream := FedStream()))
  {
    t := ExampleRdb();
    hide Reaches;
    t := ExampleStep(t, AtSource(SrcSnapshotStart([])));
    assert t.link.stream + FedStream() == FedStream();
    t := ExampleStep(t, AtSource(SrcWrite(SetCommand())));
    assert t.link.stream == FedStream();
    t := ExampleStep(t, AtSource(SrcSend(10)));
  }

  function FedStream(): seq<Message> {
    [Feed(0, SetCommand().effect, 10)]
  }

  lemma ExampleSnapshot() returns (t: System)
    ensures Reaches({0}, Start(), t)
    ensures t == Start().(dst := Import(StreamingBuf, RdbCompleted, false, 0, 0, 0, 0, 0),
                          src := FeedingSource(), link := FeedingLink())
  {
    t := ExampleFeed();
    hide Reaches;
    t := ExampleStep(t, AtDestination(DstSnapshotReply));
    t := ExampleStep(t, AtDestination(DstSnapshotEof));
    t := ExampleStep(t, AtDestination(DstStreamStart));
  }

  function FeedingSource(): Migrate {
    Migrate(SendBulkAndStream, true, false, 0, 10, false, Execute(map[], SetCommand()))
  }

  function FeedingLink(): Link {
    Start().link.(accepted := true, live := true, started := true, snapshotSent := true,
                  stream := FedStream(), snapshotReceived := true)
  }

  /** The destination streams a buffer that held four of the ten bytes. */
  lemma ExampleBuffer() returns (t: System)
    ensures Reaches({0}, Start(), t)
    ensures t == Start().(dst := Import(StreamingBuf, RdbCompleted, false, 0, 4, 0, 0, 4),
                          src := FeedingSource(), link := FeedingLink())
  {
    var t0 := ExampleSnapshot();
    var t1 := ExampleRead(t0);
    hide Reaches, FeedingSource;
    var t2 := ExampleStep(t1, AtDestination(DstParse(4)));
    hide FeedingLink;
    t := ExampleStep(t2, AtDestination(DstEndChunk));
  }

  lemma ExampleRead(t: System) returns (u: System)
    requires Reaches({0}, Start(), t)
    requires t == Start().(dst := Import(StreamingBuf, RdbCompleted, false, 0, 0, 0, 0, 0),
                           src := FeedingSource(), link := FeedingLink())
    ensures Reaches({0}, Start(), u)
    ensures u == t.(dst := Import(StreamingBuf, RdbCompleted, false, 0, 0, 0, 4, 0))
  {
    assert BytesTo(FedStream(), 0) == 0 && BytesTo(FedStream(), 1) == BytesTo(FedStream(), 0) + 10;
    hide Reaches, FeedingSource;
    u := ExampleStep(t, AtDestination(DstRead(4)));
  }

  /** The source has fed ten bytes and stores fourteen as acknowledged. */
  lemma ExampleOvershoot() returns (t: System)
    ensures Reaches({0}, Start(), t)
    ensures t.src.attached && t.src.sourceOffset == 10 && t.src.destOffset == 14 && t.src.state.HandoffPrep?
    ensures var db := Execute(map[], SetCommand());
      t == Start().(dst := Import(WaitStreamEof, RdbCompleted, false, 14, 4, 0, 0, 0),
                    src := Migrate(HandoffPrep, true, false, 14, 10, false, db),
                    node := Start().node.(db := db),
                    link := Start().link.(accepted := true, live := true, started := true, snapshotSent := true,
                              stream := FedStream(), snapshotReceived := true, msgPos := 1, split := 4, ackSlack := 4))
  {
    t := ExampleBuffer();
    hide Reaches;
    assert BytesTo(FedStream(), 0) == 0 && BytesTo(FedStream(), 1) == BytesTo(FedStream(), 0) + 10;
    hide BytesTo;
    t := ExampleStep(t, AtDestination(DstStreamDone));
    t := ExampleStep(t, AtDestination(DstExecute));
    t := ExampleStep(t, AtDestination(DstCronAck));
    assert t.link.acks == [4, 14];
    t := ExampleStep(t, AtSource(SrcReceiveAck(0)));
    assert t.link.acks == [14];
    t := ExampleStep(t, AtSource(SrcReceiveAck(0)));
    assert t.link.acks == [];
  }

  /** The acknowledged offset can exceed the source offset (so the lag logged at handoff would be
      negative), and TAKEOVER is reachable with a non-empty dataset. */
  lemma OvershootAndTakeoverAreReachable()
    ensures exists s, t :: Initial(s) && Reaches({0}, s, t) && t.src.attached && t.src.destOffset > t.src.sourceOffset
    ensures exists s, t :: Initial(s) && Reaches({0}, s, t) && t.dst.state.Takeover? && At(t.node.db, 0) == map["k" := "v"]
  {
    var t := ExampleOvershoot();
    assert Initial(Start());
    assert Initial(Start()) && Reaches({0}, Start(), t) && t.src.attached && t.src.destOffset > t.src.sourceOffset;
    hide Reaches;
    t := ExampleStep(t, AtSource(SrcHandoff));
    t := ExampleStep(t, AtSource(SrcBeforeSleep(false, true, 5)));
    assert t.link.stream == FedStream() + [StreamEof(5)];
    AppendKeeps(FedStream(), StreamEof(5), map[]);
    t := ExampleStep(t, AtDestination(DstExecute));
    assert Initial(Start()) && Reaches({0}, Start(), t) && t.dst.state.Takeover? && At(t.node.db, 0) == map["k" := "v"];
  }
}
