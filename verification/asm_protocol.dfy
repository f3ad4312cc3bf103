/** The two-node atomic slot migration protocol as a transition system. The handlers of the source
    (a migrate task) and of the destination (an import task) are functions on the task's fields; the
    two channels and the connection between the nodes are a `Link`; a run is a sequence of events. */
module AsmProtocol {
  import opened Wrappers
  import opened AsmKeyspace

  // ---------------------------------------------------------------- source side

  datatype MigrateState =
    | MigrateNone | WaitRdbChannel | WaitBgsaveStart | SendBulkAndStream | SendStream
    | HandoffPrep | Handoff | StreamEofSent | MigrateCompleted | MigrateFailed | MigrateCanceled

  /** The migrate task, the slot-handoff write pause and the database of the source node.
      `attached` says that the task still owns its main channel client. */
  datatype Migrate = Migrate(
    state: MigrateState, attached: bool, crossSlot: bool,
    destOffset: nat, sourceOffset: nat, paused: bool, db: Content)
  {
    /** The task is on the task list. */
    predicate Listed() {
      !state.MigrateNone? && !state.MigrateCompleted? && !state.MigrateCanceled?
    }

    predicate CanFeed() {
      !crossSlot && (state.SendBulkAndStream? || state.SendStream? || state.HandoffPrep?)
    }
  }

  function MigrateAccept(m: Migrate): Migrate {
    m.(state := WaitRdbChannel, attached := true, crossSlot := false, destOffset := 0, sourceOffset := 0)
  }

  function MigrateFail(m: Migrate): Migrate {
    if m.state.MigrateFailed? then m else m.(state := MigrateFailed, attached := false, paused := false)
  }

  function MigrateCancel(m: Migrate): Migrate {
    if m.state.MigrateCanceled? then m else MigrateFail(m).(state := MigrateCanceled)
  }

  /** The messages a command adds to the main channel. */
  function FedBy(m: Migrate, slots: set<int>, cmd: Command): seq<Message> {
    if m.CanFeed() && cmd.Single? && cmd.slot in slots
    then [Feed(cmd.slot, cmd.effect, cmd.bytes)] else []
  }

  /** A command executes on the source and is propagated. */
  function MigrateWrite(m: Migrate, slots: set<int>, cmd: Command): Migrate {
    var executed := m.(db := Execute(m.db, cmd));
    if !m.CanFeed() then executed
    else
      match cmd
      case Keyless => executed
      case CrossSlot(_) => executed.(crossSlot := true)
      case Single(s, _, bytes) =>
        if s in slots then executed.(sourceOffset := m.sourceOffset + bytes) else executed
  }

  /** CLUSTER SYNCSLOTS ACK <offset> from the destination. */
  function MigrateAck(m: Migrate, offset: nat, maxLag: nat): Migrate {
    if m.destOffset > offset then m
    else
      var acked := m.(destOffset := offset);
      if (m.state.SendBulkAndStream? || m.state.SendStream?) && offset + maxLag >= m.sourceOffset
      then acked.(state := HandoffPrep) else acked
  }

  /** Writes are paused, then the cluster layer reports ASM_EVENT_HANDOFF. */
  function MigrateHandoff(m: Migrate): Migrate
    requires m.state.HandoffPrep?
  {
    m.(state := Handoff, paused := true)
  }

  /** asmBeforeSleep for a migrate task; `sendsEof` below says when it emits STREAM-EOF. */
  function MigrateBeforeSleep(m: Migrate, timeout: bool, drained: bool): Migrate {
    if m.crossSlot then MigrateCancel(m)
    else if m.state.Handoff? then
      if timeout then MigrateFail(m)
      else if drained then m.(state := StreamEofSent, attached := false) else m
    else if m.state.StreamEofSent? && timeout then MigrateFail(m)
    else m
  }

  predicate SendsEof(m: Migrate, timeout: bool, drained: bool) {
    !m.crossSlot && m.state.Handoff? && !timeout && drained
  }

  /** The slot ownership moved away from this node. */
  function MigrateConfigUpdated(m: Migrate): Migrate {
    if m.state.StreamEofSent? then m.(state := MigrateCompleted, paused := false) else MigrateCancel(m)
  }

  // ---------------------------------------------------------------- destination side

  datatype ImportState =
    | ImportNone | Connecting | AuthReply | SendHandshake | HandshakeReply | SendSyncslots
    | SyncslotsReply | InitRdbChannel | AccumulateBuf | ReadyToStream | StreamingBuf | WaitStreamEof
    | Takeover | ImportCompleted | ImportFailed | ImportCanceled

  datatype RdbState = RdbNone | RdbConnecting | RdbAuthReply | RdbRequest | RdbReply | RdbTransfer | RdbCompleted

  /** The destination node: its database, the slots it owns, its write pause and its trim jobs. `trimmed` are the
      slots of the first active job that its iterator has left behind. */
  datatype Node = Node(
    db: Content, owned: set<int>, paused: bool,
    pendingTrims: seq<set<int>>, activeTrims: seq<set<int>>, trimmed: set<int>)

  /** The import task. `avail` counts the bytes in the sync buffer, `partial` the bytes of an unfinished command in the
      query buffer, `inChunk` the bytes handed to the parser and not yet added to `applied`. */
  datatype Import = Import(
    state: ImportState, rdb: RdbState, eofSeen: bool, offset: nat,
    applied: nat, inChunk: nat, avail: nat, partial: nat)
  {
    predicate Handshaking() {
      state.Connecting? || state.AuthReply? || state.SendHandshake? || state.HandshakeReply? ||
      state.SendSyncslots? || state.SyncslotsReply? || state.InitRdbChannel?
    }

    /** After the snapshot has been applied and before the task ends. */
    predicate Streaming() {
      state.ReadyToStream? || state.StreamingBuf? || state.WaitStreamEof? || state.Takeover?
    }

    predicate Active() {
      Handshaking() || state.AccumulateBuf? || Streaming()
    }

    predicate Done() {
      state.ImportCompleted? || state.ImportCanceled?
    }
  }

  /** isSlotInTrimJob: the slot is in a pending or in an active job. */
  predicate InTrimJob(pending: seq<set<int>>, active: seq<set<int>>, slot: int) {
    (exists t :: t in pending && slot in t) || (exists t :: t in active && slot in t)
  }

  /** asmTaskReset. */
  function ImportReset(): Import {
    Import(ImportNone, RdbNone, false, 0, 0, 0, 0, 0)
  }

  /** A failing import task schedules a trim of its slots; failing twice changes nothing. */
  function ImportFail(d: Import): Import {
    if d.state.ImportFailed? then d else d.(state := ImportFailed)
  }

  function TrimAfterFail(n: Node, d: Import, slots: set<int>): Node {
    if d.state.ImportFailed? then n else ScheduleTrim(n, slots)
  }

  function ScheduleTrim(n: Node, slots: set<int>): Node {
    n.(pendingTrims := n.pendingTrims + [slots])
  }

  /** The slots asmTrimSlotsIfNotOwned schedules: not owned, holding keys, in no trim job yet. */
  function LeftoverSlots(n: Node, slots: set<int>): set<int> {
    set s | s in slots && s !in n.owned && At(n.db, s) != map[] && !InTrimJob(n.pendingTrims, n.activeTrims, s)
  }

  function TrimIfNotOwned(n: Node, slots: set<int>): Node {
    var left := LeftoverSlots(n, slots);
    if left == {} then n else ScheduleTrim(n, left)
  }

  /** asmStartImportTask. `ready` stands for the cluster layer and the modules allowing the start,
      `oneOwner` for the slots having one common owner. */
  function ImportStart(d: Import, n: Node, slots: set<int>, ready: bool, oneOwner: bool): (Import, Node) {
    var n1 := TrimIfNotOwned(n, slots);
    if n1.paused || !ready || (exists s :: s in slots && InTrimJob(n1.pendingTrims, n1.activeTrims, s)) then (d, n1)
    else if !oneOwner || slots * n1.owned != {} then (d.(state := ImportCanceled), ScheduleTrim(n1, slots))
    else (d.(state := Connecting), n1)
  }

  /** The handshake steps that need no answer about this migration. */
  function ImportAdvance(d: Import): Import {
    match d.state
    case Connecting => d.(state := AuthReply)
    case AuthReply => d.(state := SendHandshake)
    case SendHandshake => d.(state := HandshakeReply)
    case HandshakeReply => d.(state := SendSyncslots)
    case SendSyncslots => d.(state := SyncslotsReply)
    case InitRdbChannel =>
      (match d.rdb
       case RdbConnecting => d.(rdb := RdbAuthReply)
       case RdbAuthReply => d.(rdb := RdbRequest)
       case RdbRequest => d.(rdb := RdbReply)
       case _ => d)
    case _ => d
  }

  /** `n` bytes of the current command reach the parser, out of the sync buffer while there is one. */
  function ImportParse(d: Import, n: nat): Import
    requires d.state.StreamingBuf? ==> n <= d.avail
  {
    if d.state.StreamingBuf?
    then d.(partial := d.partial + n, avail := d.avail - n, inChunk := d.inChunk + n)
    else d.(partial := d.partial + n)
  }

  /** A completely parsed message is executed; STREAM-EOF is only noted while the buffer is streamed. */
  function ImportExecute(d: Import, msg: Message): Import {
    if d.state.StreamingBuf? then d.(partial := 0, eofSeen := d.eofSeen || msg.StreamEof?)
    else if msg.StreamEof? then d.(partial := 0, state := Takeover)
    else d.(partial := 0, offset := d.offset + msg.bytes)
  }

  /** The sync buffer is drained. (A configuration update that finds the task in any state but TAKEOVER
      cancels it, like an operator's cancel.) */
  function ImportStreamDone(d: Import): Import {
    if d.eofSeen then d.(state := Takeover) else d.(state := WaitStreamEof, offset := d.applied)
  }

  /** asmTrimJobProcessPending: every pending job becomes an active job or empties its slots at once. */
  function ProcessPendingTrims(n: Node, active: bool): Node {
    if active then n.(pendingTrims := [], activeTrims := n.activeTrims + n.pendingTrims)
    else n.(pendingTrims := [],
            db := map s | s in n.db && (forall t | t in n.pendingTrims :: s !in t) :: n.db[s])
  }

  // ---------------------------------------------------------------- the connection

  /** The link between the two nodes, seen from the destination's current attempt.
      `accepted`: the source has answered this attempt's SYNC; `live`: the source's task still owns the
      other end; `rdbLive`: the same for the snapshot channel. `stream` is everything the source
      has put on the main channel, of which the last `unsent` bytes have not left its output buffer;
      `msgPos` messages are executed. `snapshot`, `snapPos` and `base` are the same for the snapshot.
      `split` is the part of a command that was already parsed when the sync buffer ran dry, and
      `eof` the source's content when it sent STREAM-EOF.
      `acks`, `snapshotReceived` and `ackSlack` belong to the source's current connection. */
  datatype Link = Link(
    accepted: bool, live: bool, rdbLive: bool, started: bool, snapshotSent: bool,
    base: Content, snapshot: seq<Item>, snapPos: nat,
    stream: seq<Message>, msgPos: nat, unsent: nat, split: nat,
    eof: Option<Content>, pausedSinceEof: bool,
    acks: seq<nat>, snapshotReceived: bool, ackSlack: nat)

  /** The destination forgets its connections before a new attempt. */
  function Reconnect(l: Link): Link {
    Link(false, false, false, false, false, map[], [], 0, [], 0, 0, 0, None, false,
         l.acks, l.snapshotReceived, l.ackSlack)
  }

  /** One side drops the connection. */
  function Disconnect(l: Link): Link {
    l.(live := false, rdbLive := false)
  }

  function SendAck(l: Link, offset: nat): Link {
    if l.live then l.(acks := l.acks + [offset]) else l
  }

  datatype System = System(src: Migrate, dst: Import, node: Node, link: Link)

  // ---------------------------------------------------------------- runs

  /** What can happen at the source. */
  datatype SourceEvent =
    | SrcAcceptSync(current: bool)
    | SrcAcceptRdb(current: bool)
    | SrcSnapshotStart(items: seq<Item>)
    | SrcSnapshotSucceed
    | SrcWrite(cmd: Command)
    | SrcSend(bytes: nat)
    | SrcReceiveAck(maxLag: nat)
    | SrcHandoff
    | SrcBeforeSleep(timeout: bool, drained: bool, eofBytes: nat)
    | SrcFail
    | SrcCancel
    | SrcConfigUpdated

  /** What can happen at the destination. */
  datatype DestinationEvent =
    | DstStart(ready: bool, oneOwner: bool)
    | DstReset
    | DstAdvance
    | DstSyncReply(ok: bool)
    | DstSnapshotReply
    | DstItem
    | DstSnapshotEof
    | DstStreamStart
    | DstRead(bytes: nat)
    | DstParse(bytes: nat)
    | DstExecute
    | DstYield
    | DstEndChunk
    | DstStreamDone
    | DstCronAck
    | DstFail
    | DstCancel
    | DstConfigUpdated
    | DstTrimPending(active: bool)
    | DstTrimKey(slot: int, key: string)
    | DstTrimNext(slot: int)
    | DstTrimEnd
    | DstTrimCancel
    | DstPause(paused: bool)
    | DstOwn(owned: set<int>)
    | DstWrite(slot: int, data: Data)

  datatype Event = AtSource(src: SourceEvent) | AtDestination(dst: DestinationEvent)

  function Consumed(s: System): nat
    requires s.link.msgPos <= |s.link.stream|
  {
    BytesTo(s.link.stream, s.link.msgPos) + s.dst.partial
  }

  function Fed(l: Link): nat {
    BytesTo(l.stream, |l.stream|)
  }

  /** The parser can get `bytes` more bytes: from the sync buffer, or else from the connection. */
  predicate CanParse(s: System, bytes: nat)
    requires s.link.msgPos <= |s.link.stream|
  {
    (s.dst.state.StreamingBuf? && bytes <= s.dst.avail) ||
    (s.dst.state.WaitStreamEof? && Consumed(s) + bytes + s.link.unsent <= Fed(s.link))
  }

  /** When an event can happen. Everything the environment decides (timeouts, disconnections, how many
      bytes a read returns, client commands, failures) is unconstrained. */
  ghost predicate SrcEnabled(slots: set<int>, s: System, e: SourceEvent) {
    var src, dst, l := s.src, s.dst, s.link;
    match e
    case SrcAcceptSync(current) =>
      (!src.Listed() || src.state.MigrateFailed?) && (current ==> dst.state.SyncslotsReply? && !l.accepted)
    case SrcAcceptRdb(current) =>
      src.state.WaitRdbChannel? && src.attached && (current ==> l.live && dst.state.InitRdbChannel? && dst.rdb.RdbReply?)
    case SrcSnapshotStart(items) => src.state.WaitBgsaveStart? && IsSnapshot(items, src.db, slots)
    case SrcSnapshotSucceed => src.state.SendBulkAndStream?
    case SrcWrite(cmd) => !src.paused && (cmd.Single? ==> cmd.bytes > 0)
    case SrcSend(bytes) => l.live && bytes <= l.unsent
    case SrcReceiveAck(_) => src.attached && l.acks != []
    case SrcHandoff => src.state.HandoffPrep?
    case SrcBeforeSleep(_, drained, eofBytes) =>
      src.Listed() && eofBytes > 0 && (l.live && drained ==> l.unsent == 0)
    case SrcFail => src.Listed()
    case SrcCancel => src.Listed()
    case SrcConfigUpdated => src.Listed()
  }

  ghost predicate DstEnabled(slots: set<int>, s: System, e: DestinationEvent) {
    var src, dst, l := s.src, s.dst, s.link;
    match e
    case DstStart(_, _) => dst.state.ImportNone?
    case DstReset => dst.state.ImportFailed? || dst.Done()
    case DstAdvance => true
    case DstSyncReply(ok) => dst.state.SyncslotsReply? && ok == l.accepted
    case DstSnapshotReply => dst.state.InitRdbChannel? && dst.rdb.RdbReply? && l.snapshotSent
    case DstItem => dst.state.AccumulateBuf? && l.snapPos < |l.snapshot|
    case DstSnapshotEof => dst.state.AccumulateBuf? && l.snapPos == |l.snapshot|
    case DstStreamStart => dst.state.ReadyToStream?
    case DstRead(bytes) =>
      (dst.state.AccumulateBuf? || dst.state.StreamingBuf?) && l.msgPos <= |l.stream| &&
      Consumed(s) + dst.avail + bytes + l.unsent <= Fed(l)
    case DstParse(bytes) => l.msgPos < |l.stream| && dst.partial + bytes < l.stream[l.msgPos].bytes && CanParse(s, bytes)
    case DstExecute =>
      && l.msgPos < |l.stream| && dst.partial < l.stream[l.msgPos].bytes
      && CanParse(s, l.stream[l.msgPos].bytes - dst.partial)
    case DstYield => dst.state.StreamingBuf?
    case DstEndChunk => dst.state.StreamingBuf?
    case DstStreamDone => dst.state.StreamingBuf? && dst.avail == 0 && dst.inChunk == 0
    case DstCronAck => dst.state.WaitStreamEof?
    case DstFail => !dst.Done()
    case DstCancel => !dst.Done()
    case DstConfigUpdated => dst.state.Takeover?
    case DstTrimPending(_) => !s.node.paused
    case DstTrimKey(slot, key) =>
      !s.node.paused && s.node.activeTrims != [] && slot in s.node.activeTrims[0] - s.node.trimmed && slot in s.node.db
    case DstTrimNext(slot) =>
      !s.node.paused && s.node.activeTrims != [] && slot in s.node.activeTrims[0] - s.node.trimmed && At(s.node.db, slot) == map[]
    case DstTrimEnd => !s.node.paused && s.node.activeTrims != [] && s.node.activeTrims[0] <= s.node.trimmed
    case DstTrimCancel => true
    case DstPause(_) => true
    case DstOwn(owned) => dst.Active() ==> owned * slots == s.node.owned * slots
    case DstWrite(slot, _) => slot in s.node.owned
  }

  ghost function SrcNext(slots: set<int>, s: System, e: SourceEvent): System
    requires SrcEnabled(slots, s, e)
  {
    var src, dst, l := s.src, s.dst, s.link;
    match e
    case SrcAcceptSync(current) =>
      var l1 := l.(acks := [], snapshotReceived := false, ackSlack := 0, pausedSinceEof := false);
      s.(src := MigrateAccept(src), link := if current then l1.(accepted := true, live := true) else Disconnect(l1))
    case SrcAcceptRdb(current) => s.(src := src.(state := WaitBgsaveStart), link := l.(rdbLive := current))
    case SrcSnapshotStart(items) =>
      s.(src := src.(state := SendBulkAndStream),
         link := if !l.live then l
             else l.(started := true, base := src.db, snapshotSent := l.rdbLive,
                     snapshot := if l.rdbLive then items else l.snapshot))
    case SrcSnapshotSucceed => s.(src := src.(state := SendStream))
    case SrcWrite(cmd) =>
      var out := FedBy(src, slots, cmd);
      s.(src := MigrateWrite(src, slots, cmd),
         link := if l.live && out != [] then l.(stream := l.stream + out, unsent := l.unsent + cmd.bytes) else l)
    case SrcSend(bytes) => s.(link := l.(unsent := l.unsent - bytes))
    case SrcReceiveAck(maxLag) => s.(src := MigrateAck(src, l.acks[0], maxLag), link := l.(acks := l.acks[1..]))
    case SrcHandoff => s.(src := MigrateHandoff(src))
    case SrcBeforeSleep(timeout, drained, eofBytes) =>
      var src1 := MigrateBeforeSleep(src, timeout, drained);
      var l1 :=
        if SendsEof(src, timeout, drained) then
          if l.live then l.(live := false, rdbLive := false, stream := l.stream + [StreamEof(eofBytes)],
                            eof := Some(src.db), pausedSinceEof := true)
          else l
        else if src1.state == src.state then l
        else Disconnect(l).(pausedSinceEof := false);
      s.(src := src1, link := l1)
    case SrcFail => s.(src := MigrateFail(src), link := Disconnect(l).(pausedSinceEof := false))
    case SrcCancel => s.(src := MigrateCancel(src), link := Disconnect(l).(pausedSinceEof := false))
    case SrcConfigUpdated => s.(src := MigrateConfigUpdated(src), link := Disconnect(l).(pausedSinceEof := false))
  }

  ghost function DstNext(slots: set<int>, s: System, e: DestinationEvent): System
    requires DstEnabled(slots, s, e)
  {
    var src, dst, l := s.src, s.dst, s.link;
    match e
    case DstStart(ready, oneOwner) =>
      var (dst1, node1) := ImportStart(dst, s.node, slots, ready, oneOwner);
      s.(dst := dst1, node := node1)
    case DstReset => s.(dst := ImportReset(), link := Reconnect(l))
    case DstAdvance => s.(dst := ImportAdvance(dst))
    case DstSyncReply(ok) =>
      s.(dst := if ok then dst.(state := InitRdbChannel, rdb := RdbConnecting) else dst.(state := SendSyncslots))
    case DstSnapshotReply => s.(dst := dst.(state := AccumulateBuf, rdb := RdbTransfer))
    case DstItem =>
      s.(node := s.node.(db := Restored(s.node.db, l.snapshot[l.snapPos])), link := l.(snapPos := l.snapPos + 1))
    case DstSnapshotEof =>
      s.(dst := dst.(state := ReadyToStream, rdb := RdbCompleted),
         link := l.(rdbLive := false, snapshotReceived := l.snapshotReceived || l.live))
    case DstStreamStart => s.(dst := dst.(state := StreamingBuf, applied := 0, inChunk := 0))
    case DstRead(bytes) => s.(dst := dst.(avail := dst.avail + bytes))
    case DstParse(bytes) => s.(dst := ImportParse(dst, bytes))
    case DstExecute =>
      var msg := l.stream[l.msgPos];
      var dst1 := ImportExecute(ImportParse(dst, msg.bytes - dst.partial), msg);
      s.(dst := dst1, node := s.node.(db := Apply(s.node.db, msg)),
         link := l.(msgPos := l.msgPos + 1, live := l.live && !dst1.state.Takeover?))
    case DstYield => s.(link := SendAck(l, dst.applied))
    case DstEndChunk => s.(dst := dst.(applied := dst.applied + dst.inChunk, inChunk := 0))
    case DstStreamDone =>
      var dst1 := ImportStreamDone(dst);
      s.(dst := dst1,
         link := if dst1.state.Takeover? then Disconnect(l)
                 else SendAck(l.(split := dst.partial, ackSlack := if l.live then dst.partial else l.ackSlack), dst1.offset))
    case DstCronAck => s.(link := SendAck(l, dst.offset))
    case DstFail => s.(dst := ImportFail(dst), node := TrimAfterFail(s.node, dst, slots), link := Disconnect(l))
    case DstCancel =>
      s.(dst := ImportFail(dst).(state := ImportCanceled), node := TrimAfterFail(s.node, dst, slots), link := Disconnect(l))
    case DstConfigUpdated =>
      s.(dst := dst.(state := ImportCompleted), node := s.node.(owned := s.node.owned + slots), link := Disconnect(l))
    case DstTrimPending(active) => s.(node := ProcessPendingTrims(s.node, active))
    case DstTrimKey(slot, key) => s.(node := s.node.(db := s.node.db[slot := s.node.db[slot] - {key}]))
    case DstTrimNext(slot) => s.(node := s.node.(trimmed := s.node.trimmed + {slot}))
    case DstTrimEnd => s.(node := s.node.(activeTrims := s.node.activeTrims[1..], trimmed := {}))
    case DstTrimCancel => s.(node := s.node.(pendingTrims := [], activeTrims := [], trimmed := {}))
    case DstPause(paused) => s.(node := s.node.(paused := paused))
    case DstOwn(owned) => s.(node := s.node.(owned := owned))
    case DstWrite(slot, data) => s.(node := s.node.(db := s.node.db[slot := data]))
  }

  ghost predicate Enabled(slots: set<int>, s: System, e: Event) {
    match e
    case AtSource(se) => SrcEnabled(slots, s, se)
    case AtDestination(de) => DstEnabled(slots, s, de)
  }

  ghost function Next(slots: set<int>, s: System, e: Event): System
    requires Enabled(slots, s, e)
  {
    match e
    case AtSource(se) => SrcNext(slots, s, se)
    case AtDestination(de) => DstNext(slots, s, de)
  }

  /** The iterator of the first active job has left only slots of this job behind. */
  predicate TrimShape(n: Node) {
    if n.activeTrims == [] then n.trimmed == {} else n.trimmed <= n.activeTrims[0]
  }

  /** No task yet on either side; databases, ownership and trim queues are arbitrary. */
  ghost predicate Initial(s: System) {
    && TrimShape(s.node)
    && s.src.state.MigrateNone? && !s.src.attached && !s.src.paused
    && s.dst == ImportReset()
    && s.link == Link(false, false, false, false, false, map[], [], 0, [], 0, 0, 0, None, false, [], false, 0)
  }

  ghost predicate IsRun(slots: set<int>, s: System, events: seq<Event>)
    decreases |events|
  {
    events == [] || (Enabled(slots, s, events[0]) && IsRun(slots, Next(slots, s, events[0]), events[1..]))
  }

  ghost function After(slots: set<int>, s: System, events: seq<Event>): System
    requires IsRun(slots, s, events)
    decreases |events|
  {
    if events == [] then s else After(slots, Next(slots, s, events[0]), events[1..])
  }
}
