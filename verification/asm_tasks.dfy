/** The handlers of cluster_asm.c as methods that update the task's fields. Each is proved to do what
    the function of the same name in `AsmProtocol` says, so the theorems about runs apply to it. */
module AsmTasks {
  import opened AsmKeyspace
  import opened AsmProtocol
  import AsmSafety

  /** The source's task, with the write pause and the database of its node. `sent` is what the task
      has put into the output of its main channel client. */
  class MigrateTask {
    var state: MigrateState
    var attached: bool
    var crossSlot: bool
    var destOffset: nat
    var sourceOffset: nat
    var paused: bool
    var db: Content
    var sent: seq<Message>
    const slots: set<int>

    constructor (slots: set<int>, db: Content)
      ensures View() == Migrate(MigrateNone, false, false, 0, 0, false, db) && this.slots == slots && sent == []
    {
      this.slots, this.db, sent := slots, db, [];
      state, attached, crossSlot, destOffset, sourceOffset, paused := MigrateNone, false, false, 0, 0, false;
    }

    function View(): Migrate
      reads this
    {
      Migrate(state, attached, crossSlot, destOffset, sourceOffset, paused, db)
    }

    method Accept()
      modifies this
      ensures View() == MigrateAccept(old(View())) && sent == []
    {
      crossSlot, destOffset, sourceOffset, sent := false, 0, 0, [];
      attached := true;
      state := WaitRdbChannel;
    }

    /** The snapshot channel is connected. */
    method AcceptRdb()
      modifies this`state
      ensures View() == old(View()).(state := WaitBgsaveStart)
    {
      state := WaitBgsaveStart;
    }

    /** asmSlotSnapshotAndStreamStart: from here on writes are fed. */
    method SnapshotAndStreamStart()
      modifies this`state
      ensures View() == old(View()).(state := SendBulkAndStream)
    {
      state := SendBulkAndStream;
    }

    method SnapshotSucceed()
      modifies this`state
      ensures View() == old(View()).(state := SendStream)
    {
      state := SendStream;
    }

    method Fail()
      modifies this
      ensures View() == MigrateFail(old(View())) && sent == old(sent)
    {
      if state == MigrateFailed {
        return;
      }
      attached := false;
      state := MigrateFailed;
      paused := false;
    }

    method Cancel()
      modifies this
      ensures View() == MigrateCancel(old(View())) && sent == old(sent)
    {
      if state == MigrateCanceled {
        return;
      }
      Fail();
      state := MigrateCanceled;
    }

    /** A command executes, and asmFeedMigrationClient sees it. */
    method Write(cmd: Command)
      modifies this
      ensures View() == MigrateWrite(old(View()), slots, cmd)
      ensures sent == old(sent) + FedBy(old(View()), slots, cmd)
    {
      db := Execute(db, cmd);
      if crossSlot || !(state == SendBulkAndStream || state == SendStream || state == HandoffPrep) {
        return;
      }
      if cmd.Keyless? {
        return;
      }
      if cmd.CrossSlot? {
        crossSlot := true;
        return;
      }
      if cmd.slot !in slots {
        return;
      }
      sent := sent + [Feed(cmd.slot, cmd.effect, cmd.bytes)];
      sourceOffset := sourceOffset + cmd.bytes;
    }

    method ReceiveAck(offset: nat, maxLag: nat)
      requires attached
      modifies this
      ensures View() == MigrateAck(old(View()), offset, maxLag) && sent == old(sent)
      ensures destOffset >= old(destOffset)
      ensures state == HandoffPrep && old(state) != HandoffPrep ==> sourceOffset <= destOffset + maxLag
    {
      if destOffset > offset {
        return;
      }
      destOffset := offset;
      if state == SendBulkAndStream || state == SendStream {
        if destOffset + maxLag >= sourceOffset {
          state := HandoffPrep;
        }
      }
    }

    method PauseAndHandoff()
      requires state == HandoffPrep
      modifies this
      ensures View() == MigrateHandoff(old(View())) && sent == old(sent)
    {
      paused := true;
      state := Handoff;
    }

    method BeforeSleep(timeout: bool, drained: bool, eofBytes: nat)
      modifies this
      ensures View() == MigrateBeforeSleep(old(View()), timeout, drained)
      ensures sent == old(sent) + if SendsEof(old(View()), timeout, drained) then [StreamEof(eofBytes)] else []
    {
      if crossSlot {
        Cancel();
        return;
      }
      if state == Handoff {
        if timeout {
          Fail();
          return;
        }
        if drained {
          sent := sent + [StreamEof(eofBytes)];
          attached := false;
          state := StreamEofSent;
        }
      } else if state == StreamEofSent {
        if timeout {
          Fail();
        }
      }
    }

    method ConfigUpdated()
      modifies this
      ensures View() == MigrateConfigUpdated(old(View())) && sent == old(sent)
    {
      if state != StreamEofSent {
        Cancel();
        return;
      }
      state := MigrateCompleted;
      paused := false;
    }
  }

  /** slotSnapshotSaveRio: every key of every slot, slot after slot. */
  method SaveSnapshot(slots: seq<int>, db: Content) returns (items: seq<Item>)
    requires forall i, j | 0 <= i < j < |slots| :: slots[i] != slots[j]
    ensures IsSnapshot(items, db, set s | s in slots)
  {
    items := [];
    for n := 0 to |slots|
      invariant IsSnapshot(items, db, Covered(slots, n))
    {
      var slot := slots[n];
      var before := items;
      var keys := At(db, slot).Keys;
      ghost var done: set<string> := {};
      ghost var covered := Covered(slots, n);
      assert slot !in covered;
      if keys != {} {
        items := items + [SlotInfo];
        StillListed(before, SlotInfo);
      }
      while keys != {}
        invariant done !! keys && done + keys == At(db, slot).Keys
        invariant PartialSnapshot(items, db, covered, slot, done)
        decreases keys
      {
        var key :| key in keys;
        ExtendSnapshot(items, db, covered, slot, done, key);
        items := items + [Restore(slot, key, At(db, slot)[key])];
        keys, done := keys - {key}, done + {key};
      }
      assert slots[..n + 1] == slots[..n] + [slot];
      assert Covered(slots, n + 1) == covered + {slot};
    }
    assert slots[..|slots|] == slots;
  }

  function Covered(slots: seq<int>, n: nat): set<int>
    requires n <= |slots|
  {
    set s | s in slots[..n]
  }

  /** Appending an item lists what was listed. */
  lemma StillListed(items: seq<Item>, item: Item)
    ensures forall s, k | Listed(items, |items|, s, k) :: Listed(items + [item], |items| + 1, s, k)
  {
    var more := items + [item];
    forall s, k | Listed(items, |items|, s, k)
      ensures Listed(more, |more|, s, k)
    {
      var i :| 0 <= i < |items| && items[i].Restore? && items[i].slot == s && items[i].key == k;
      assert more[i] == items[i];
    }
  }

  /** The slots of `covered` are complete, and `slot` is saved up to the keys in `done`. */
  ghost predicate PartialSnapshot(items: seq<Item>, db: Content, covered: set<int>, slot: int, done: set<string>) {
    && (forall i | 0 <= i < |items| && items[i].Restore? ::
          && (items[i].slot in covered || (items[i].slot == slot && items[i].key in done))
          && items[i].key in At(db, items[i].slot)
          && At(db, items[i].slot)[items[i].key] == items[i].value)
    && (forall i, j | 0 <= i < j < |items| && items[i].Restore? && items[j].Restore? ::
          (items[i].slot, items[i].key) != (items[j].slot, items[j].key))
    && (forall s, k | s in covered && k in At(db, s) :: Listed(items, |items|, s, k))
    && (forall k | k in done :: Listed(items, |items|, slot, k))
  }

  lemma ExtendSnapshot(items: seq<Item>, db: Content, covered: set<int>, slot: int, done: set<string>, key: string)
    requires PartialSnapshot(items, db, covered, slot, done)
    requires slot !in covered && key in At(db, slot) && key !in done
    ensures PartialSnapshot(items + [Restore(slot, key, At(db, slot)[key])], db, covered, slot, done + {key})
  {
    var more := items + [Restore(slot, key, At(db, slot)[key])];
    StillListed(items, Restore(slot, key, At(db, slot)[key]));
    assert more[|items|].slot == slot;
    assert Listed(more, |more|, slot, key);
  }

  /** The destination's task and its node. `acks` are the offsets it has sent. */
  class ImportTask {
    var state: ImportState
    var rdb: RdbState
    var eofSeen: bool
    var offset: nat
    var applied: nat
    var inChunk: nat
    var avail: nat
    var partial: nat
    var db: Content
    var owned: set<int>
    var paused: bool
    var pendingTrims: seq<set<int>>
    var activeTrims: seq<set<int>>
    var trimmed: set<int>
    const slots: seq<int>

    constructor (slots: seq<int>, n: Node)
      ensures View() == ImportReset() && NodeView() == n && this.slots == slots
    {
      this.slots := slots;
      state, rdb, eofSeen, offset, applied, inChunk, avail, partial := ImportNone, RdbNone, false, 0, 0, 0, 0, 0;
      db, owned, paused, pendingTrims, activeTrims, trimmed := n.db, n.owned, n.paused, n.pendingTrims, n.activeTrims, n.trimmed;
    }

    function View(): Import
      reads this
    {
      Import(state, rdb, eofSeen, offset, applied, inChunk, avail, partial)
    }

    function NodeView(): Node
      reads this
    {
      Node(db, owned, paused, pendingTrims, activeTrims, trimmed)
    }

    function Slots(): set<int> {
      set s | s in slots
    }

    method Reset()
      modifies this
      ensures View() == ImportReset() && NodeView() == old(NodeView())
    {
      state, rdb, eofSeen, offset := ImportNone, RdbNone, false, 0;
      applied, inChunk, avail, partial := 0, 0, 0, 0;
    }

    method Fail()
      modifies this
      ensures View() == ImportFail(old(View())) && NodeView() == TrimAfterFail(old(NodeView()), old(View()), Slots())
    {
      if state == ImportFailed {
        return;
      }
      state := ImportFailed;
      pendingTrims := pendingTrims + [Slots()];
    }

    method TrimSlotsIfNotOwned()
      modifies this`pendingTrims
      ensures NodeView() == TrimIfNotOwned(old(NodeView()), Slots())
    {
      var left: set<int> := {};
      for i := 0 to |slots|
        invariant left == LeftoverSlots(NodeView(), set s | s in slots[..i])
      {
        var s := slots[i];
        if !(s in owned || At(db, s) == map[] || InTrimJob(pendingTrims, activeTrims, s)) {
          left := left + {s};
        }
        assert slots[..i + 1] == slots[..i] + [s];
      }
      assert slots[..|slots|] == slots;
      if left == {} {
        return;
      }
      pendingTrims := pendingTrims + [left];
    }

    method Start(ready: bool, oneOwner: bool)
      requires state == ImportNone
      modifies this
      ensures (View(), NodeView()) == ImportStart(old(View()), old(NodeView()), Slots(), ready, oneOwner)
      ensures state == Connecting ==> forall s | s in slots :: At(db, s) == map[] && !InTrimJob(pendingTrims, activeTrims, s)
    {
      ghost var d0, n0 := View(), NodeView();
      TrimSlotsIfNotOwned();
      var inTrim := exists s :: s in slots && InTrimJob(pendingTrims, activeTrims, s);
      assert inTrim == exists s :: s in Slots() && InTrimJob(pendingTrims, activeTrims, s);
      if paused || !ready || inTrim {
        return;
      }
      if !oneOwner || Slots() * owned != {} {
        Fail();
        state := ImportCanceled;
        return;
      }
      state := Connecting;
      AsmSafety.StartIsClean(Slots(), d0, n0, ready, oneOwner);
    }

    method Advance()
      modifies this`state, this`rdb
      ensures View() == ImportAdvance(old(View()))
    {
      if state == Connecting {
        state := AuthReply;
      } else if state == AuthReply {
        state := SendHandshake;
      } else if state == SendHandshake {
        state := HandshakeReply;
      } else if state == HandshakeReply {
        state := SendSyncslots;
      } else if state == SendSyncslots {
        state := SyncslotsReply;
      } else if state == InitRdbChannel {
        if rdb == RdbConnecting {
          rdb := RdbAuthReply;
        } else if rdb == RdbAuthReply {
          rdb := RdbRequest;
        } else if rdb == RdbRequest {
          rdb := RdbReply;
        }
      }
    }

    /** The answer to SYNCSLOTS. */
    method SyncReply(ok: bool)
      modifies this`state, this`rdb
      ensures View() == if ok then old(View()).(state := InitRdbChannel, rdb := RdbConnecting) else old(View()).(state := SendSyncslots)
    {
      if ok {
        state, rdb := InitRdbChannel, RdbConnecting;
      } else {
        state := SendSyncslots;
      }
    }

    method SnapshotReply()
      modifies this`state, this`rdb
      ensures View() == old(View()).(state := AccumulateBuf, rdb := RdbTransfer)
    {
      state, rdb := AccumulateBuf, RdbTransfer;
    }

    /** A RESTORE from the snapshot channel. */
    method ReceiveItem(item: Item)
      modifies this`db
      ensures db == Restored(old(db), item)
    {
      db := Restored(db, item);
    }

    method SnapshotEof()
      modifies this`state, this`rdb
      ensures View() == old(View()).(state := ReadyToStream, rdb := RdbCompleted)
    {
      state, rdb := ReadyToStream, RdbCompleted;
    }

    method StreamStart()
      modifies this`state, this`applied, this`inChunk
      ensures View() == old(View()).(state := StreamingBuf, applied := 0, inChunk := 0)
    {
      state, applied, inChunk := StreamingBuf, 0, 0;
    }

    /** A chunk of the buffer is used up: its bytes count as applied. */
    method EndChunk()
      modifies this`applied, this`inChunk
      ensures View() == old(View()).(applied := old(applied) + old(inChunk), inChunk := 0)
    {
      applied, inChunk := applied + inChunk, 0;
    }

    method Cancel()
      modifies this
      ensures View() == ImportFail(old(View())).(state := ImportCanceled)
      ensures NodeView() == TrimAfterFail(old(NodeView()), old(View()), Slots())
    {
      Fail();
      state := ImportCanceled;
    }

    /** The new owner of the slots is known everywhere. */
    method ConfigUpdated()
      modifies this`state, this`owned
      ensures View() == old(View()).(state := ImportCompleted)
      ensures NodeView() == old(NodeView()).(owned := old(owned) + Slots())
    {
      state, owned := ImportCompleted, owned + Slots();
    }

    /** An active trim job deletes one key. */
    method TrimKey(slot: int, key: string)
      requires slot in db
      modifies this`db
      ensures db == old(db)[slot := old(db)[slot] - {key}]
    {
      db := db[slot := db[slot] - {key}];
    }

    /** The slot has no key left, and the iterator goes on. */
    method TrimNext(slot: int)
      modifies this`trimmed
      ensures trimmed == old(trimmed) + {slot}
    {
      trimmed := trimmed + {slot};
    }

    method TrimEnd()
      requires activeTrims != []
      modifies this`activeTrims, this`trimmed
      ensures activeTrims == old(activeTrims)[1..] && trimmed == {}
    {
      activeTrims, trimmed := activeTrims[1..], {};
    }

    /** asmCancelTrimJobs: keys that have not been deleted stay. */
    method CancelTrimJobs()
      modifies this`pendingTrims, this`activeTrims, this`trimmed
      ensures pendingTrims == [] && activeTrims == [] && trimmed == {}
    {
      pendingTrims, activeTrims, trimmed := [], [], {};
    }

    method Parse(n: nat)
      requires state == StreamingBuf ==> n <= avail
      modifies this
      ensures View() == ImportParse(old(View()), n) && NodeView() == old(NodeView())
    {
      if state == StreamingBuf {
        avail := avail - n;
        inChunk := inChunk + n;
      }
      partial := partial + n;
    }

    method ExecuteMessage(msg: Message)
      modifies this
      ensures View() == ImportExecute(old(View()), msg)
      ensures NodeView() == old(NodeView()).(db := Apply(old(db), msg))
    {
      partial := 0;
      db := Apply(db, msg);
      if msg.StreamEof? {
        if state == StreamingBuf {
          eofSeen := true;
        } else {
          state := Takeover;
        }
      } else if state != StreamingBuf {
        offset := offset + msg.bytes;
      }
    }

    /** The rest of a message reaches the parser, which executes it. */
    method ParseRestAndExecute(msg: Message)
      requires partial <= msg.bytes && (state == StreamingBuf ==> msg.bytes - partial <= avail)
      modifies this
      ensures View() == ImportExecute(ImportParse(old(View()), msg.bytes - old(partial)), msg)
      ensures NodeView() == old(NodeView()).(db := Apply(old(db), msg))
    {
      hide Apply;
      Parse(msg.bytes - partial);
      ExecuteMessage(msg);
    }

    method StreamDone()
      requires state == StreamingBuf
      modifies this
      ensures View() == ImportStreamDone(old(View())) && NodeView() == old(NodeView())
    {
      if eofSeen {
        state := Takeover;
        return;
      }
      offset := applied;
      state := WaitStreamEof;
    }

    method TrimJobProcessPending(active: bool)
      requires !paused
      modifies this
      ensures View() == old(View()) && NodeView() == ProcessPendingTrims(old(NodeView()), active)
      ensures pendingTrims == [] && activeTrims == old(activeTrims) + if active then old(pendingTrims) else []
      ensures forall s :: At(db, s) == if !active && (exists t :: t in old(pendingTrims) && s in t) then map[] else old(At(db, s))
    {
      ghost var jobs := pendingTrims;
      var done := 0;
      while pendingTrims != []
        invariant done <= |jobs| && pendingTrims == jobs[done..]
        invariant View() == old(View()) && owned == old(owned) && paused == old(paused) && trimmed == old(trimmed)
        invariant activeTrims == old(activeTrims) + if active then jobs[..done] else []
        invariant db == if active then old(db) else map s | s in old(db) && (forall t | t in jobs[..done] :: s !in t) :: old(db)[s]
        decreases |pendingTrims|
      {
        var job := pendingTrims[0];
        assert jobs[..done + 1] == jobs[..done] + [job];
        if active {
          activeTrims := activeTrims + [job];
        } else {
          db := map s | s in db && s !in job :: db[s];
        }
        pendingTrims := pendingTrims[1..];
        done := done + 1;
      }
      assert jobs[..done] == jobs;
    }
  }
}
