/** The two nodes of a migration with the connection between them: every event of a run is handled by the
    methods of the tasks, so what holds for runs holds for them. */
module AsmCluster {
  import opened Wrappers
  import opened AsmKeyspace
  import opened AsmProtocol
  import opened AsmTasks
  import opened AsmSafety
  import opened AsmTheorems

  class Cluster {
    const src: MigrateTask
    const dst: ImportTask
    var link: Link

    ghost function View(): System
      reads this, src, dst
    {
      System(src.View(), dst.View(), dst.NodeView(), link)
    }

    /** Both tasks are about the same slots. */
    ghost predicate Valid() {
      src.slots == dst.Slots()
    }

    constructor (slots: seq<int>, db: Content, n: Node)
      requires TrimShape(n)
      ensures Valid() && dst.slots == slots && fresh(src) && fresh(dst) && Initial(View())
    {
      src := new MigrateTask((set s | s in slots), db);
      dst := new ImportTask(slots, n);
      link := Link(false, false, false, false, false, map[], [], 0, [], 0, 0, 0, None, false, [], false, 0);
    }

    /** Puts what the source's task has just written into the output of its client on the connection. */
    method Transmit(out: seq<Message>)
      modifies this`link
      ensures link == if old(link).live && out != []
                      then old(link).(stream := old(link).stream + out, unsent := old(link).unsent + out[0].bytes) else old(link)
    {
      if link.live && out != [] {
        link := link.(stream := link.stream + out, unsent := link.unsent + out[0].bytes);
      }
    }

    method SourceWrites(cmd: Command)
      requires Valid() && SrcEnabled(src.slots, View(), SrcWrite(cmd))
      modifies this`link, src
      ensures View() == SrcNext(src.slots, old(View()), SrcWrite(cmd))
    {
      var n := |src.sent|;
      src.Write(cmd);
      Transmit(src.sent[n..]);
    }

    /** STREAM-EOF leaves with the last flush, and the source lets go of its client. */
    method SourceBeforeSleep(timeout: bool, drained: bool, eofBytes: nat)
      requires Valid() && SrcEnabled(src.slots, View(), SrcBeforeSleep(timeout, drained, eofBytes))
      modifies this`link, src
      ensures View() == SrcNext(src.slots, old(View()), SrcBeforeSleep(timeout, drained, eofBytes))
    {
      var n, state := |src.sent|, src.state;
      src.BeforeSleep(timeout, drained, eofBytes);
      if src.sent[n..] != [] {
        if link.live {
          link := link.(live := false, rdbLive := false, stream := link.stream + src.sent[n..],
                        eof := Some(src.db), pausedSinceEof := true);
        }
      } else if src.state != state {
        link := Disconnect(link).(pausedSinceEof := false);
      }
    }

    method SourceAccepts(current: bool)
      requires Valid() && SrcEnabled(src.slots, View(), SrcAcceptSync(current))
      modifies this`link, src
      ensures View() == SrcNext(src.slots, old(View()), SrcAcceptSync(current))
    {
      src.Accept();
      link := link.(acks := [], snapshotReceived := false, ackSlack := 0, pausedSinceEof := false);
      link := if current then link.(accepted := true, live := true) else Disconnect(link);
    }

    method SourceStartsSnapshot(items: seq<Item>)
      requires Valid() && SrcEnabled(src.slots, View(), SrcSnapshotStart(items))
      modifies this`link, src
      ensures View() == SrcNext(src.slots, old(View()), SrcSnapshotStart(items))
    {
      src.SnapshotAndStreamStart();
      if link.live {
        link := link.(started := true, base := src.db, snapshotSent := link.rdbLive,
                      snapshot := if link.rdbLive then items else link.snapshot);
      }
    }

    method AtTheSource(e: SourceEvent)
      requires Valid() && SrcEnabled(src.slots, View(), e)
      modifies this`link, src
      ensures View() == SrcNext(src.slots, old(View()), e)
    {
      match e
      case SrcAcceptSync(current) => SourceAccepts(current);
      case SrcAcceptRdb(current) =>
        src.AcceptRdb();
        link := link.(rdbLive := current);
      case SrcSnapshotStart(items) => SourceStartsSnapshot(items);
      case SrcSnapshotSucceed => src.SnapshotSucceed();
      case SrcWrite(cmd) => SourceWrites(cmd);
      case SrcSend(bytes) => link := link.(unsent := link.unsent - bytes);
      case SrcReceiveAck(maxLag) =>
        src.ReceiveAck(link.acks[0], maxLag);
        link := link.(acks := link.acks[1..]);
      case SrcHandoff => src.PauseAndHandoff();
      case SrcBeforeSleep(timeout, drained, eofBytes) => SourceBeforeSleep(timeout, drained, eofBytes);
      case SrcFail =>
        src.Fail();
        link := Disconnect(link).(pausedSinceEof := false);
      case SrcCancel =>
        src.Cancel();
        link := Disconnect(link).(pausedSinceEof := false);
      case SrcConfigUpdated =>
        src.ConfigUpdated();
        link := Disconnect(link).(pausedSinceEof := false);
    }

    // -------------------------------------------------------------- the destination

    /** An offset goes back to the source. */
    method Acknowledge(offset: nat)
      modifies this`link
      ensures link == SendAck(old(link), offset)
    {
      if link.live {
        link := link.(acks := link.acks + [offset]);
      }
    }

    method DestinationStarts(ready: bool, oneOwner: bool)
      requires Valid() && DstEnabled(src.slots, View(), DstStart(ready, oneOwner))
      modifies dst
      ensures View() == DstNext(src.slots, old(View()), DstStart(ready, oneOwner))
    {
      hide ImportStart;
      dst.Start(ready, oneOwner);
    }

    /** The next item of the snapshot channel is restored. */
    method DestinationRestores()
      requires Valid() && DstEnabled(src.slots, View(), DstItem)
      modifies this`link, dst
      ensures View() == DstNext(src.slots, old(View()), DstItem)
    {
      dst.ReceiveItem(link.snapshot[link.snapPos]);
      link := link.(snapPos := link.snapPos + 1);
    }

    method DestinationHasSnapshot()
      requires Valid() && DstEnabled(src.slots, View(), DstSnapshotEof)
      modifies this`link, dst
      ensures View() == DstNext(src.slots, old(View()), DstSnapshotEof)
    {
      dst.SnapshotEof();
      link := link.(rdbLive := false, snapshotReceived := link.snapshotReceived || link.live);
    }

    /** The rest of the next message is parsed, and the message is executed. */
    method DestinationExecutes()
      requires Valid() && DstEnabled(src.slots, View(), DstExecute)
      modifies this`link, dst
      ensures View() == DstNext(src.slots, old(View()), DstExecute)
    {
      ExecuteIs(src.slots, View());
      hide *;
      var msg := link.stream[link.msgPos];
      dst.ParseRestAndExecute(msg);
      link := link.(msgPos := link.msgPos + 1, live := link.live && dst.state != Takeover);
    }

    /** The sync buffer is drained: the offset is acknowledged, or the takeover begins. */
    method DestinationDrained()
      requires Valid() && DstEnabled(src.slots, View(), DstStreamDone)
      modifies this`link, dst
      ensures View() == DstNext(src.slots, old(View()), DstStreamDone)
    {
      dst.StreamDone();
      if dst.state == Takeover {
        link := Disconnect(link);
      } else {
        link := link.(split := dst.partial, ackSlack := if link.live then dst.partial else link.ackSlack);
        Acknowledge(dst.offset);
      }
    }

    method DestinationTrims(e: DestinationEvent)
      requires Valid() && (e.DstTrimPending? || e.DstTrimKey? || e.DstTrimNext? || e.DstTrimEnd? || e.DstTrimCancel?)
      requires DstEnabled(src.slots, View(), e)
      modifies dst
      ensures View() == DstNext(src.slots, old(View()), e)
    {
      hide ProcessPendingTrims;
      match e
      case DstTrimPending(active) => dst.TrimJobProcessPending(active);
      case DstTrimKey(slot, key) => dst.TrimKey(slot, key);
      case DstTrimNext(slot) => dst.TrimNext(slot);
      case DstTrimEnd => dst.TrimEnd();
      case DstTrimCancel => dst.CancelTrimJobs();
    }

    method DestinationEnds(e: DestinationEvent)
      requires Valid() && (e.DstFail? || e.DstCancel? || e.DstConfigUpdated? || e.DstReset?) && DstEnabled(src.slots, View(), e)
      modifies this`link, dst
      ensures View() == DstNext(src.slots, old(View()), e)
    {
      hide ImportFail, TrimAfterFail, Disconnect, Reconnect;
      match e
      case DstFail =>
        dst.Fail();
        link := Disconnect(link);
      case DstCancel =>
        dst.Cancel();
        link := Disconnect(link);
      case DstConfigUpdated =>
        dst.ConfigUpdated();
        link := Disconnect(link);
      case DstReset =>
        dst.Reset();
        link := Reconnect(link);
    }

    method AtTheDestination(e: DestinationEvent)
      requires Valid() && DstEnabled(src.slots, View(), e)
      modifies this`link, dst
      ensures View() == DstNext(src.slots, old(View()), e)
    {
      hide ImportAdvance, ImportParse, SendAck, Disconnect, Reconnect, ImportFail, TrimAfterFail, ProcessPendingTrims, BytesTo, Apply;
      match e
      case DstStart(ready, oneOwner) => DestinationStarts(ready, oneOwner);
      case DstReset => DestinationEnds(e);
      case DstAdvance => dst.Advance();
      case DstSyncReply(ok) => dst.SyncReply(ok);
      case DstSnapshotReply => dst.SnapshotReply();
      case DstItem => DestinationRestores();
      case DstSnapshotEof => DestinationHasSnapshot();
      case DstStreamStart => dst.StreamStart();
      case DstRead(bytes) => dst.avail := dst.avail + bytes;
      case DstParse(bytes) => dst.Parse(bytes);
      case DstExecute => DestinationExecutes();
      case DstYield => Acknowledge(dst.applied);
      case DstEndChunk => dst.EndChunk();
      case DstStreamDone => DestinationDrained();
      case DstCronAck => Acknowledge(dst.offset);
      case DstFail => DestinationEnds(e);
      case DstCancel => DestinationEnds(e);
      case DstConfigUpdated => DestinationEnds(e);
      case DstTrimPending(_) => DestinationTrims(e);
      case DstTrimKey(_, _) => DestinationTrims(e);
      case DstTrimNext(_) => DestinationTrims(e);
      case DstTrimEnd => DestinationTrims(e);
      case DstTrimCancel => DestinationTrims(e);
      case DstPause(_) => DestinationNode(e);
      case DstOwn(_) => DestinationNode(e);
      case DstWrite(_, _) => DestinationNode(e);
    }

    /** What else happens to the destination's node. */
    method DestinationNode(e: DestinationEvent)
      requires Valid() && (e.DstPause? || e.DstOwn? || e.DstWrite?) && DstEnabled(src.slots, View(), e)
      modifies dst
      ensures View() == DstNext(src.slots, old(View()), e)
    {
      match e
      case DstPause(paused) => dst.paused := paused;
      case DstOwn(owned) => dst.owned := owned;
      case DstWrite(slot, data) => dst.db := dst.db[slot := data];
    }

    // -------------------------------------------------------------- runs

    /** Every event of a run is handled, and whenever the destination stands in TAKEOVER its slots are the
        source's, as they were when STREAM-EOF was sent. */
    method Play(events: seq<Event>)
      requires Valid() && Initial(View()) && IsRun(src.slots, View(), events)
      modifies this`link, src, dst
      ensures View() == After(src.slots, old(View()), events) && Inv(src.slots, View())
      ensures dst.state == Takeover ==> link.eof.Some? && SameOn(src.slots, dst.db, link.eof.value)
    {
      MigrationIsExact(src.slots, View(), events);
      InitialInv(src.slots, View());
      hide Inv, Enabled, Next;
      assert events[0..] == events;
      for i := 0 to |events|
        invariant Inv(src.slots, View()) && IsRun(src.slots, View(), events[i..])
        invariant After(src.slots, View(), events[i..]) == After(src.slots, old(View()), events)
      {
        assert events[i..][0] == events[i] && events[i..][1..] == events[i + 1..];
        StepInv(src.slots, View(), events[i]);
        Handle(events[i]);
      }
    }

    method Handle(e: Event)
      requires Valid() && Enabled(src.slots, View(), e)
      modifies this`link, src, dst
      ensures View() == Next(src.slots, old(View()), e)
    {
      match e
      case AtSource(se) => AtTheSource(se);
      case AtDestination(de) => AtTheDestination(de);
    }
  }

  /** What executing a message means for the parts of the system. */
  lemma ExecuteIs(slots: set<int>, s: System)
    requires DstEnabled(slots, s, DstExecute)
    ensures s.link.msgPos < |s.link.stream|
    ensures var msg := s.link.stream[s.link.msgPos];
      && s.dst.partial <= msg.bytes && (s.dst.state.StreamingBuf? ==> msg.bytes - s.dst.partial <= s.dst.avail)
      && var d := ImportExecute(ImportParse(s.dst, msg.bytes - s.dst.partial), msg);
         DstNext(slots, s, DstExecute) ==
         System(s.src, d, s.node.(db := Apply(s.node.db, msg)),
                s.link.(msgPos := s.link.msgPos + 1, live := s.link.live && !d.state.Takeover?))
  {
    hide ImportParse, ImportExecute, Apply, BytesTo;
  }

  lemma InitialInv(slots: set<int>, s: System)
    requires Initial(s)
    ensures Inv(slots, s)
  {
  }

  lemma StepInv(slots: set<int>, s: System, e: Event)
    requires Inv(slots, s) && Enabled(slots, s, e)
    ensures Inv(slots, Next(slots, s, e))
  {
    hide Inv;
    match e
    case AtSource(se) => SourceStepInv(slots, s, se);
    case AtDestination(de) => DestinationStepInv(slots, s, de);
  }
}
