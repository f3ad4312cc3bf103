/** What every run of the migration protocol keeps, and the theorems that follow. */
module AsmSafety {
  import opened Wrappers
  import opened AsmKeyspace
  import opened AsmProtocol

  // ---------------------------------------------------------------- the invariant

  /** The source's flags follow from its state. */
  predicate SourceShape(src: Migrate) {
    && (src.attached <==> src.state.WaitRdbChannel? || src.state.WaitBgsaveStart? || src.state.SendBulkAndStream? ||
                          src.state.SendStream? || src.state.HandoffPrep? || src.state.Handoff?)
    && (src.paused <==> src.state.Handoff? || src.state.StreamEofSent?)
  }

  /** Outside streaming the stream counters are zero. */
  predicate TaskShape(d: Import) {
    && (d.state.ImportNone? || d.Handshaking() || d.state.AccumulateBuf? || d.state.ReadyToStream? ==>
          !d.eofSeen && d.partial == 0 && d.inChunk == 0)
    && (d.state.ImportNone? || d.Handshaking() ==> d.avail == 0)
    && (d.state.ImportNone? || (d.Handshaking() && !d.state.InitRdbChannel?) ==> d.rdb.RdbNone?)
  }

  /** While a task is active, the destination neither owns nor trims its slots; until the snapshot
      arrives it holds no key in them. */
  predicate NodeShape(slots: set<int>, d: Import, n: Node) {
    && (d.Active() ==> slots * n.owned == {})
    && (d.Active() ==> forall s :: s in slots ==> !InTrimJob(n.pendingTrims, n.activeTrims, s))
    && (d.Handshaking() ==> forall s :: s in slots ==> At(n.db, s) == map[])
  }

  /** Each message has a length, and STREAM-EOF comes last, when the source held the replayed content. */
  ghost predicate StreamShape(slots: set<int>, l: Link) {
    && l.msgPos <= |l.stream| && l.snapPos <= |l.snapshot|
    && (forall i | 0 <= i < |l.stream| :: l.stream[i].bytes > 0)
    && (forall i | 0 <= i < |l.stream| && l.stream[i].StreamEof? ::
          && i == |l.stream| - 1 && l.eof.Some? && l.unsent == 0
          && SameOn(slots, l.eof.value, ReplayTo(l.stream, i, l.base)))
    && (l.eof.Some? ==> !l.live && |l.stream| > 0 && l.stream[|l.stream| - 1].StreamEof?)
    && (l.snapshotSent ==> l.started && IsSnapshot(l.snapshot, l.base, slots))
    && (!l.started ==> l.stream == [] && l.unsent == 0)
  }

  /** How far the destination has come through the two channels. */
  predicate Positions(s: System)
    requires s.link.msgPos <= |s.link.stream|
  {
    var d, l := s.dst, s.link;
    && (d.state.ImportNone? || d.Handshaking() ==> l.snapPos == 0)
    && (d.state.ImportNone? || d.Handshaking() || d.state.AccumulateBuf? || d.state.ReadyToStream? ==> l.msgPos == 0)
    && (d.state.ImportNone? ==> !l.live && !l.accepted)
    && (d.Active() ==> Consumed(s) + d.avail + l.unsent <= Fed(l))
    && (d.Active() && d.partial > 0 ==> l.msgPos < |l.stream| && d.partial < l.stream[l.msgPos].bytes)
    && (d.state.WaitStreamEof? || d.state.Takeover? ==> d.avail == 0)
    && (d.state.StreamingBuf? ==> d.applied + d.inChunk == Consumed(s))
    && (d.state.WaitStreamEof? ==> d.offset == BytesTo(l.stream, l.msgPos) + l.split)
    && (d.state.StreamingBuf? ==> (d.eofSeen <==> l.msgPos > 0 && l.stream[l.msgPos - 1].StreamEof?))
    && (d.state.WaitStreamEof? ==> !(l.msgPos > 0 && l.stream[l.msgPos - 1].StreamEof?))
    && (d.state.Takeover? ==> l.msgPos > 0 && l.stream[l.msgPos - 1].StreamEof?)
  }

  /** The destination's slots are the snapshot so far, then the snapshot and the executed commands. */
  ghost predicate DestinationContent(slots: set<int>, s: System)
    requires s.link.msgPos <= |s.link.stream| && s.link.snapPos <= |s.link.snapshot|
  {
    var d, l := s.dst, s.link;
    && (d.state.AccumulateBuf? ==> l.snapshotSent && SameOn(slots, s.node.db, RestoredTo(l.snapshot, l.snapPos)))
    && (d.Streaming() ==> l.started && SameOn(slots, s.node.db, ReplayTo(l.stream, l.msgPos, l.base)))
  }

  /** While both ends are connected: the source's offset counts what it fed, and its slots are the
      snapshot content with everything fed applied, unless a cross-slot command intervened. */
  ghost predicate LiveLink(slots: set<int>, s: System) {
    var src, d, l := s.src, s.dst, s.link;
    && (l.live ==> l.accepted && src.attached && !d.Done() && !d.state.ImportFailed? && !d.state.Takeover?)
    && (l.live && (src.state.WaitRdbChannel? || src.state.WaitBgsaveStart?) ==> !l.started && src.sourceOffset == 0)
    && (l.live && !src.state.WaitRdbChannel? && !src.state.WaitBgsaveStart? ==>
          && l.started && src.sourceOffset == Fed(l)
          && (!src.crossSlot ==> SameOn(slots, src.db, ReplayTo(l.stream, |l.stream|, l.base))))
    && (l.started ==> l.accepted)
    && (l.accepted ==> !d.state.Connecting? && !d.state.AuthReply? && !d.state.SendHandshake? &&
                       !d.state.HandshakeReply? && !d.state.SendSyncslots?)
    && (l.pausedSinceEof ==> src.state.StreamEofSent? && l.eof.Some? && SameOn(slots, src.db, l.eof.value))
  }

  /** Acknowledgements come only from a destination that has the whole snapshot, and they never pass
      the source's offset by more than `ackSlack`. */
  ghost predicate AckShape(s: System) {
    var src, d, l := s.src, s.dst, s.link;
    && (l.acks != [] ==> l.snapshotReceived)
    && (src.state.HandoffPrep? || src.state.Handoff? || src.state.StreamEofSent? ==> l.snapshotReceived)
    && (l.live && d.Streaming() ==> l.snapshotReceived)
    && (src.attached ==> forall i | 0 <= i < |l.acks| :: l.acks[i] <= src.sourceOffset + l.ackSlack)
    && (src.attached ==> src.destOffset <= src.sourceOffset + l.ackSlack)
    && (l.live && d.state.WaitStreamEof? ==> l.ackSlack == l.split)
    && (l.live && !d.state.WaitStreamEof? ==> l.ackSlack == 0)
  }

  ghost predicate Inv(slots: set<int>, s: System) {
    && SourceShape(s.src)
    && TaskShape(s.dst)
    && NodeShape(slots, s.dst, s.node)
    && StreamShape(slots, s.link)
    && Positions(s)
    && DestinationContent(slots, s)
    && LiveLink(slots, s)
    && AckShape(s)
  }

  // ---------------------------------------------------------------- steps of the source

  lemma SrcAcceptSyncInv(slots: set<int>, s: System, e: SourceEvent)
    requires Inv(slots, s) && SrcEnabled(slots, s, e)
    requires e.SrcAcceptSync?
    ensures Inv(slots, SrcNext(slots, s, e))
  {
    hide SameOn, ReplayTo, RestoredTo, IsSnapshot, BytesTo, At, InTrimJob;
  }

  lemma SrcAcceptRdbInv(slots: set<int>, s: System, e: SourceEvent)
    requires Inv(slots, s) && SrcEnabled(slots, s, e)
    requires e.SrcAcceptRdb? || e.SrcSnapshotSucceed? || e.SrcSend? || e.SrcHandoff?
    ensures Inv(slots, SrcNext(slots, s, e))
  {
    hide SameOn, ReplayTo, RestoredTo, IsSnapshot, BytesTo, At, InTrimJob;
  }

  lemma SrcFailInv(slots: set<int>, s: System, e: SourceEvent)
    requires Inv(slots, s) && SrcEnabled(slots, s, e)
    requires e.SrcFail?
    ensures Inv(slots, SrcNext(slots, s, e))
  {
    hide SameOn, ReplayTo, RestoredTo, IsSnapshot, BytesTo, At, InTrimJob;
  }

  lemma SrcCancelInv(slots: set<int>, s: System, e: SourceEvent)
    requires Inv(slots, s) && SrcEnabled(slots, s, e)
    requires e.SrcCancel?
    ensures Inv(slots, SrcNext(slots, s, e))
  {
    hide SameOn, ReplayTo, RestoredTo, IsSnapshot, BytesTo, At, InTrimJob;
  }

  lemma SrcConfigUpdatedInv(slots: set<int>, s: System, e: SourceEvent)
    requires Inv(slots, s) && SrcEnabled(slots, s, e)
    requires e.SrcConfigUpdated?
    ensures Inv(slots, SrcNext(slots, s, e))
  {
    hide SameOn, ReplayTo, RestoredTo, IsSnapshot, BytesTo, At, InTrimJob;
  }

  lemma SrcReceiveAckInv(slots: set<int>, s: System, e: SourceEvent)
    requires Inv(slots, s) && SrcEnabled(slots, s, e)
    requires e.SrcReceiveAck?
    ensures Inv(slots, SrcNext(slots, s, e))
  {
    hide SameOn, ReplayTo, RestoredTo, IsSnapshot, BytesTo, At, InTrimJob;
  }

  lemma SrcSnapshotStartInv(slots: set<int>, s: System, e: SourceEvent)
    requires Inv(slots, s) && SrcEnabled(slots, s, e)
    requires e.SrcSnapshotStart?
    ensures Inv(slots, SrcNext(slots, s, e))
  {
    hide InTrimJob, At, IsSnapshot;
  }

  /** Appending a message changes neither the replay nor the length of what is already there. */
  lemma AppendKeeps(stream: seq<Message>, m: Message, base: Content)
    ensures forall i | 0 <= i <= |stream| :: ReplayTo(stream + [m], i, base) == ReplayTo(stream, i, base)
    ensures forall i | 0 <= i <= |stream| :: BytesTo(stream + [m], i) == BytesTo(stream, i)
    ensures BytesTo(stream + [m], |stream| + 1) == BytesTo(stream, |stream|) + m.bytes
    ensures ReplayTo(stream + [m], |stream| + 1, base) == Apply(ReplayTo(stream, |stream|, base), m)
  {
    forall i | 0 <= i <= |stream|
      ensures ReplayTo(stream + [m], i, base) == ReplayTo(stream, i, base)
      ensures BytesTo(stream + [m], i) == BytesTo(stream, i)
    {
      ReplayToAppend(stream, m, i, base);
      BytesToAppend(stream, m, i);
    }
  }

  lemma SrcSendEofInv(slots: set<int>, s: System, e: SourceEvent)
    requires Inv(slots, s) && SrcEnabled(slots, s, e)
    requires e.SrcBeforeSleep? && SendsEof(s.src, e.timeout, e.drained) && s.link.live
    ensures Inv(slots, SrcNext(slots, s, e))
  {
    AppendKeeps(s.link.stream, StreamEof(e.eofBytes), s.link.base);
    hide InTrimJob, At, IsSnapshot, RestoredTo, ReplayTo, BytesTo, TaskShape, NodeShape;
  }

  lemma SrcBeforeSleepInv(slots: set<int>, s: System, e: SourceEvent)
    requires Inv(slots, s) && SrcEnabled(slots, s, e)
    requires e.SrcBeforeSleep?
    ensures Inv(slots, SrcNext(slots, s, e))
  {
    if SendsEof(s.src, e.timeout, e.drained) {
      if s.link.live {
        SrcSendEofInv(slots, s, e);
      } else {
        hide SameOn, ReplayTo, RestoredTo, IsSnapshot, BytesTo, At, InTrimJob, NodeShape, StreamShape, Positions, DestinationContent;
      }
    } else if s.src.crossSlot {
      SrcCancelInv(slots, s, SrcCancel);
      hide Inv;
    } else if e.timeout && (s.src.state.Handoff? || s.src.state.StreamEofSent?) {
      SrcFailInv(slots, s, SrcFail);
      hide Inv;
    } else {
      hide Inv;
    }
  }

  lemma SrcFeedLive(slots: set<int>, s: System, e: SourceEvent)
    requires StreamShape(slots, s.link) && LiveLink(slots, s) && SrcEnabled(slots, s, e)
    requires e.SrcWrite? && FedBy(s.src, slots, e.cmd) != [] && s.link.live
    ensures LiveLink(slots, SrcNext(slots, s, e)) && StreamShape(slots, SrcNext(slots, s, e).link)
  {
    AppendKeeps(s.link.stream, Feed(e.cmd.slot, e.cmd.effect, e.cmd.bytes), s.link.base);
    hide IsSnapshot, RestoredTo, ReplayTo, BytesTo;
  }

  lemma SrcFeedInv(slots: set<int>, s: System, e: SourceEvent)
    requires Inv(slots, s) && SrcEnabled(slots, s, e)
    requires e.SrcWrite? && FedBy(s.src, slots, e.cmd) != [] && s.link.live
    ensures Inv(slots, SrcNext(slots, s, e))
  {
    AppendKeeps(s.link.stream, Feed(e.cmd.slot, e.cmd.effect, e.cmd.bytes), s.link.base);
    SrcFeedLive(slots, s, e);
    hide At, SameOn, InTrimJob, IsSnapshot, RestoredTo, ReplayTo, BytesTo, NodeShape, LiveLink;
  }

  lemma SrcWriteInv(slots: set<int>, s: System, e: SourceEvent)
    requires Inv(slots, s) && SrcEnabled(slots, s, e)
    requires e.SrcWrite?
    ensures Inv(slots, SrcNext(slots, s, e))
  {
    if FedBy(s.src, slots, e.cmd) != [] && s.link.live {
      SrcFeedInv(slots, s, e);
    } else {
      hide InTrimJob, IsSnapshot, RestoredTo, ReplayTo, BytesTo;
    }
  }

  // ---------------------------------------------------------------- steps of the destination

  /** After asmTrimSlotsIfNotOwned every leftover slot is in a trim job, and earlier jobs remain. */
  lemma LeftoversAreScheduled(slots: set<int>, n: Node)
    ensures var n1 := TrimIfNotOwned(n, slots);
      forall s | s in LeftoverSlots(n, slots) || InTrimJob(n.pendingTrims, n.activeTrims, s) ::
        InTrimJob(n1.pendingTrims, n1.activeTrims, s)
  {
    var left, n1 := LeftoverSlots(n, slots), TrimIfNotOwned(n, slots);
    forall s | s in left
      ensures InTrimJob(n1.pendingTrims, n1.activeTrims, s)
    {
      assert left == n1.pendingTrims[|n1.pendingTrims| - 1];
    }
    assert forall t :: t in n.pendingTrims ==> t in n1.pendingTrims;
  }

  /** asmStartImportTask reaches CONNECTING only when this node owns none of the slots, no trim job
      covers any of them, and all of them are empty. */
  lemma StartIsClean(slots: set<int>, d: Import, n: Node, ready: bool, oneOwner: bool)
    requires d.state.ImportNone?
    ensures var (d1, n1) := ImportStart(d, n, slots, ready, oneOwner);
            d1.state.Connecting? ==>
              && n1.db == n.db && slots * n1.owned == {}
              && forall s | s in slots :: At(n1.db, s) == map[] && !InTrimJob(n1.pendingTrims, n1.activeTrims, s)
  {
    LeftoversAreScheduled(slots, n);
    var (d1, n1) := ImportStart(d, n, slots, ready, oneOwner);
    if d1.state.Connecting? {
      forall s | s in slots
        ensures At(n1.db, s) == map[]
      {
        assert s !in slots * n.owned;
        assert s !in LeftoverSlots(n, slots);
      }
    }
  }

  lemma DstStartInv(slots: set<int>, s: System, e: DestinationEvent)
    requires Inv(slots, s) && DstEnabled(slots, s, e)
    requires e.DstStart?
    ensures Inv(slots, DstNext(slots, s, e))
  {
    StartIsClean(slots, s.dst, s.node, e.ready, e.oneOwner);
    hide TrimIfNotOwned, IsSnapshot, ReplayTo, RestoredTo, BytesTo, At, InTrimJob, SameOn, LeftoverSlots;
  }

  lemma DstResetInv(slots: set<int>, s: System, e: DestinationEvent)
    requires Inv(slots, s) && DstEnabled(slots, s, e)
    requires e.DstReset?
    ensures Inv(slots, DstNext(slots, s, e))
  {
    hide SameOn, ReplayTo, RestoredTo, IsSnapshot, At, InTrimJob;
  }

  lemma DstPauseInv(slots: set<int>, s: System, e: DestinationEvent)
    requires Inv(slots, s) && DstEnabled(slots, s, e)
    requires e.DstPause? || e.DstOwn?
    ensures Inv(slots, DstNext(slots, s, e))
  {
    if e.DstOwn? {
      assert slots * e.owned == e.owned * slots && slots * s.node.owned == s.node.owned * slots;
    }
    hide SameOn, ReplayTo, RestoredTo, IsSnapshot, BytesTo, At, InTrimJob;
  }

  lemma DstAdvanceInv(slots: set<int>, s: System, e: DestinationEvent)
    requires Inv(slots, s) && DstEnabled(slots, s, e)
    requires e.DstAdvance? || e.DstSyncReply?
    ensures Inv(slots, DstNext(slots, s, e))
  {
    hide SameOn, ReplayTo, RestoredTo, IsSnapshot, BytesTo, At, InTrimJob;
  }

  lemma DstStreamStartInv(slots: set<int>, s: System, e: DestinationEvent)
    requires Inv(slots, s) && DstEnabled(slots, s, e)
    requires e.DstStreamStart? || e.DstRead?
    ensures Inv(slots, DstNext(slots, s, e))
  {
    hide SameOn, ReplayTo, RestoredTo, IsSnapshot, At, InTrimJob;
  }

  lemma DstYieldInv(slots: set<int>, s: System, e: DestinationEvent)
    requires Inv(slots, s) && DstEnabled(slots, s, e)
    requires e.DstYield? || e.DstEndChunk? || e.DstCronAck?
    ensures Inv(slots, DstNext(slots, s, e))
  {
    hide SameOn, ReplayTo, RestoredTo, IsSnapshot, BytesTo, At, InTrimJob;
  }

  lemma DstFailInv(slots: set<int>, s: System, e: DestinationEvent)
    requires Inv(slots, s) && DstEnabled(slots, s, e)
    requires e.DstFail?
    ensures Inv(slots, DstNext(slots, s, e))
  {
    hide SameOn, ReplayTo, RestoredTo, IsSnapshot, BytesTo, At, InTrimJob;
  }

  lemma DstCancelInv(slots: set<int>, s: System, e: DestinationEvent)
    requires Inv(slots, s) && DstEnabled(slots, s, e)
    requires e.DstCancel?
    ensures Inv(slots, DstNext(slots, s, e))
  {
    hide SameOn, ReplayTo, RestoredTo, IsSnapshot, BytesTo, At, InTrimJob;
  }

  lemma DstConfigUpdatedInv(slots: set<int>, s: System, e: DestinationEvent)
    requires Inv(slots, s) && DstEnabled(slots, s, e)
    requires e.DstConfigUpdated?
    ensures Inv(slots, DstNext(slots, s, e))
  {
    hide SameOn, ReplayTo, RestoredTo, IsSnapshot, BytesTo, At, InTrimJob;
  }

  lemma DstSnapshotReplyInv(slots: set<int>, s: System, e: DestinationEvent)
    requires Inv(slots, s) && DstEnabled(slots, s, e)
    requires e.DstSnapshotReply?
    ensures Inv(slots, DstNext(slots, s, e))
  {
    hide InTrimJob, IsSnapshot, ReplayTo;
  }

  lemma DstItemInv(slots: set<int>, s: System, e: DestinationEvent)
    requires Inv(slots, s) && DstEnabled(slots, s, e)
    requires e.DstItem?
    ensures Inv(slots, DstNext(slots, s, e))
  {
    hide InTrimJob, IsSnapshot, ReplayTo, BytesTo;
  }

  lemma DstSnapshotEofInv(slots: set<int>, s: System, e: DestinationEvent)
    requires Inv(slots, s) && DstEnabled(slots, s, e)
    requires e.DstSnapshotEof?
    ensures Inv(slots, DstNext(slots, s, e))
  {
    SnapshotRestores(s.link.snapshot, s.link.base, slots);
    hide InTrimJob, IsSnapshot, BytesTo;
  }

  lemma DstParseInv(slots: set<int>, s: System, e: DestinationEvent)
    requires Inv(slots, s) && DstEnabled(slots, s, e)
    requires e.DstParse?
    ensures Inv(slots, DstNext(slots, s, e))
  {
    hide SameOn, ReplayTo, RestoredTo, IsSnapshot, BytesTo, At, InTrimJob;
  }

  /** The next message, executed at the destination, advances its replay by one. */
  lemma ExecuteAdvances(slots: set<int>, stream: seq<Message>, n: nat, base: Content, db: Content)
    requires n < |stream| && SameOn(slots, db, ReplayTo(stream, n, base))
    ensures SameOn(slots, Apply(db, stream[n]), ReplayTo(stream, n + 1, base))
    ensures BytesTo(stream, n + 1) == BytesTo(stream, n) + stream[n].bytes
  {
  }

  /** `s1` is `s` after the next message has been parsed to its end and executed. */
  ghost predicate Executes(s: System, s1: System) {
    && s.link.msgPos < |s.link.stream| && s.dst.partial < s.link.stream[s.link.msgPos].bytes
    && CanParse(s, s.link.stream[s.link.msgPos].bytes - s.dst.partial)
    && var msg := s.link.stream[s.link.msgPos];
    && s1 == System(s.src, ImportExecute(ImportParse(s.dst, msg.bytes - s.dst.partial), msg),
                    s.node.(db := Apply(s.node.db, msg)),
                    s.link.(msgPos := s.link.msgPos + 1, live := s.link.live && !s1.dst.state.Takeover?))
  }

  lemma DstExecuteRest(slots: set<int>, s: System, s1: System)
    requires Inv(slots, s) && Executes(s, s1) && Positions(s1)
    ensures Inv(slots, s1)
  {
    ExecuteAdvances(slots, s.link.stream, s.link.msgPos, s.link.base, s.node.db);
    hide SameOn, ReplayTo, RestoredTo, IsSnapshot, BytesTo, At, InTrimJob, Apply, SourceShape, Positions;
  }

  lemma DstExecuteInv(slots: set<int>, s: System, e: DestinationEvent)
    requires Inv(slots, s) && DstEnabled(slots, s, e) && e.DstExecute?
    ensures Inv(slots, DstNext(slots, s, e))
  {
    var s1 := DstNext(slots, s, e);
    assert Executes(s, s1);
    hide DstNext, DstEnabled, Executes;
    DstExecuteRest(slots, s, s1);
  }

  lemma DstStreamDoneInv(slots: set<int>, s: System, e: DestinationEvent)
    requires Inv(slots, s) && DstEnabled(slots, s, e)
    requires e.DstStreamDone?
    ensures Inv(slots, DstNext(slots, s, e))
  {
    hide SameOn, ReplayTo, RestoredTo, IsSnapshot, BytesTo, At, InTrimJob;
  }

  lemma DstTrimEndInv(slots: set<int>, s: System, e: DestinationEvent)
    requires Inv(slots, s) && DstEnabled(slots, s, e)
    requires e.DstTrimEnd? || e.DstTrimKey? || e.DstTrimNext? || e.DstTrimCancel?
    ensures Inv(slots, DstNext(slots, s, e))
  {
    hide IsSnapshot, ReplayTo, RestoredTo, BytesTo;
  }

  lemma DstTrimPendingInv(slots: set<int>, s: System, e: DestinationEvent)
    requires Inv(slots, s) && DstEnabled(slots, s, e)
    requires e.DstTrimPending?
    ensures Inv(slots, DstNext(slots, s, e))
  {
    hide IsSnapshot, ReplayTo, RestoredTo, BytesTo;
  }

  lemma DstWriteInv(slots: set<int>, s: System, e: DestinationEvent)
    requires Inv(slots, s) && DstEnabled(slots, s, e)
    requires e.DstWrite?
    ensures Inv(slots, DstNext(slots, s, e))
  {
    if s.dst.Active() {
      assert e.slot !in slots * s.node.owned;
    }
    hide IsSnapshot, ReplayTo, RestoredTo, BytesTo, InTrimJob;
  }
}
