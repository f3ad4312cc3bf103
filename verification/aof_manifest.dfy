/** The multi-part append only file: a manifest naming one base file and an ordered chain of incremental
    files. The server, its disk and its rewrite child form a transition system. A file is represented by
    the log it stands for: a base file by the log of everything in its snapshot. */
module AofManifest {
  import opened Wrappers

  datatype FileName = BaseFile(num: nat) | IncrFile(num: nat) | TempIncr

  /** aofManifest: the current base file, the incremental files in order, and the files to delete. */
  datatype Manifest = Manifest(
    base: Option<nat>, incr: seq<nat>, history: seq<FileName>, currBase: nat, currIncr: nat)

  const EMPTY := Manifest(None, [], [], 0, 0)

  /** getNewBaseFileNameAndMarkPreAsHistory. */
  function GetNewBase(m: Manifest): Manifest {
    m.(history := (if m.base.Some? then [BaseFile(m.base.value)] else []) + m.history,
       base := Some(m.currBase + 1), currBase := m.currBase + 1)
  }

  /** getNewIncrAofName. */
  function GetNewIncr(m: Manifest): Manifest {
    m.(incr := m.incr + [m.currIncr + 1], currIncr := m.currIncr + 1)
  }

  function IncrNames(nums: seq<nat>): (names: seq<FileName>)
    ensures |names| == |nums| && forall i | 0 <= i < |nums| :: names[i] == IncrFile(nums[i])
  {
    seq(|nums|, i requires 0 <= i < |nums| => IncrFile(nums[i]))
  }

  /** markRewrittenIncrAofAsHistory: all incremental files but the one that is open for writing. */
  function MarkRewritten(m: Manifest, writing: bool): Manifest {
    var n := if writing && m.incr != [] then |m.incr| - 1 else |m.incr|;
    m.(incr := m.incr[n..], history := IncrNames(m.incr[..n]) + m.history)
  }

  /** The manifest as it is read back from disk. */
  function Reload(m: Manifest): Manifest {
    m.(currBase := if m.base.Some? then m.base.value else 0,
       currIncr := if m.incr == [] then 0 else m.incr[|m.incr| - 1])
  }

  type Files = map<FileName, string>

  function ContentOf(files: Files, name: FileName): string {
    if name in files then files[name] else ""
  }

  function LoadIncr(files: Files, incr: seq<nat>): string {
    if incr == [] then ""
    else LoadIncr(files, incr[..|incr| - 1]) + ContentOf(files, IncrFile(incr[|incr| - 1]))
  }

  /** loadAppendOnlyFiles: the base file, then the incremental files in order. */
  function Load(files: Files, m: Manifest): string {
    (if m.base.Some? then ContentOf(files, BaseFile(m.base.value)) else "") + LoadIncr(files, m.incr)
  }

  predicate Names(m: Manifest, name: FileName) {
    match name
    case BaseFile(n) => m.base == Some(n)
    case IncrFile(n) => n in m.incr
    case TempIncr => false
  }

  function Unlink(files: Files, names: seq<FileName>): Files {
    map f | f in files && f !in names :: files[f]
  }

  // ---------------------------------------------------------------- the disk

  /** What survives a crash: the files and the persisted manifest. */
  datatype Disk = Disk(files: Files, manifest: Manifest)

  /** The operations the handlers perform on the disk. Install is the rename of a finished temporary file
      that is no part of the model otherwise; Persist ends with the rename of the manifest. */
  datatype DiskOp =
    | Append(name: FileName, bytes: string)
    | Truncate(name: FileName)
    | OpenAppend(name: FileName)
    | Install(name: FileName, content: string)
    | Rename(from: FileName, to: FileName)
    | Remove(name: FileName)
    | Persist(manifest: Manifest)

  function Do(d: Disk, op: DiskOp): Disk {
    match op
    case Append(name, bytes) => d.(files := d.files[name := ContentOf(d.files, name) + bytes])
    case Truncate(name) => d.(files := d.files[name := ""])
    case OpenAppend(name) => d.(files := d.files[name := ContentOf(d.files, name)])
    case Install(name, content) => d.(files := d.files[name := content])
    case Rename(from, to) => d.(files := Unlink(d.files, [from])[to := ContentOf(d.files, from)])
    case Remove(name) => d.(files := Unlink(d.files, [name]))
    case Persist(m) => d.(manifest := m)
  }

  function DoAll(d: Disk, ops: seq<DiskOp>): Disk
    decreases |ops|
  {
    if ops == [] then d else DoAll(Do(d, ops[0]), ops[1..])
  }

  // ---------------------------------------------------------------- the server

  /** Down is a server that crashed and has not been started again. */
  datatype AofState = Down | AofOff | WaitRewrite | AofOn
  /** The descriptor being written: a file keeps its descriptor when it is renamed or unlinked. */
  datatype Fd = Closed | Open(name: FileName) | Unlinked

  /** `mem` is server.aof_manifest and `disk` the persisted one, `child` the log that the snapshot of the
      rewrite child stands for, `buf` is aof_buf, and `log` everything executed so far. */
  datatype Server = Server(
    state: AofState, mem: Manifest, disk: Manifest, files: Files, fd: Fd,
    child: Option<string>, buf: string, log: string)

  datatype Event =
    | Write(bytes: string)
    | Flush(count: nat)
    | RewriteStart(openOk: bool, persistOk: bool, forkOk: bool)
    | RewriteSuccess(renameBaseOk: bool, renameIncrOk: bool, persistOk: bool)
    | RewriteFailed
    | DeleteHistory(persistOk: bool)
    | StartAppendOnly
    | StopAppendOnly(persistOk: bool)
    /** The server dies when the handler of `during` has performed `ops` of its disk operations. */
    | Crash(during: Event, ops: nat)
    /** A start with AOF enabled, and one with AOF disabled and a dataset from elsewhere. */
    | Start(persistOk: bool)
    | StartOff(dataset: string, persistOk: bool)

  /** flushAppendOnlyFile, writing the first `n` bytes of the buffer. */
  function FlushTo(s: Server, n: nat): Server
    requires n <= |s.buf|
  {
    s.(buf := s.buf[n..],
       files := if s.fd.Open? then s.files[s.fd.name := ContentOf(s.files, s.fd.name) + s.buf[..n]] else s.files)
  }

  /** rewriteAppendOnlyFileBackground after its forced flush: a new incremental file, then the fork. */
  function StartRewrite(s: Server, openOk: bool, persistOk: bool, forkOk: bool): Server {
    match s.state
    case Down => s
    case AofOff => if forkOk then s.(child := Some(s.log)) else s
    case WaitRewrite =>
      if !openOk then s
      else
        var ready := s.(files := s.files[TempIncr := ""], fd := Open(TempIncr));
        if forkOk then ready.(child := Some(s.log)) else ready
    case AofOn =>
      var am := GetNewIncr(s.mem);
      if !openOk then s
      else
        var created := s.(files := s.files[IncrFile(am.currIncr) := ""]);
        if !persistOk then created
        else
          var ready := created.(mem := am, disk := am, fd := Open(IncrFile(am.currIncr)));
          if forkOk then ready.(child := Some(s.log)) else ready
  }

  /** The end of backgroundRewriteDoneHandler, after a success that did not complete and after a failure:
      when AOF is not on yet, the temporary file and the buffer are dropped. */
  function RewriteCleanup(s: Server): Server {
    var s1 := s.(child := None);
    if !s.state.WaitRewrite? then s1
    else s1.(buf := "", files := Unlink(s1.files, [TempIncr]), fd := if s1.fd == Open(TempIncr) then Unlinked else s1.fd)
  }

  /** The child's file becomes the new base file. */
  function BaseInstalled(s: Server): Server
    requires s.child.Some?
  {
    s.(files := s.files[BaseFile(s.mem.currBase + 1) := s.child.value])
  }

  /** The temporary incremental file gets its number. */
  function IncrRenamed(s: Server, num: nat): Server {
    s.(files := Unlink(s.files, [TempIncr])[IncrFile(num) := ContentOf(s.files, TempIncr)],
       fd := if s.fd == Open(TempIncr) then Open(IncrFile(num)) else s.fd)
  }

  /** The new manifest takes effect once it is on disk; otherwise the new files are deleted. */
  function Persisted(s: Server, m: Manifest, dropped: seq<FileName>, persistOk: bool): Server {
    if persistOk then s.(mem := m, disk := m, child := None, state := if s.state.AofOff? then AofOff else AofOn)
    else RewriteCleanup(s.(files := Unlink(s.files, dropped), fd := if s.state.WaitRewrite? then Unlinked else s.fd))
  }

  /** backgroundRewriteDoneHandler for a child that exited with success. */
  function FinishRewrite(s: Server, renameBaseOk: bool, renameIncrOk: bool, persistOk: bool): Server
    requires s.child.Some?
  {
    var am := GetNewBase(s.mem);
    var base := BaseFile(am.currBase);
    if !renameBaseOk then RewriteCleanup(s)
    else if !s.state.WaitRewrite? then
      Persisted(BaseInstalled(s), MarkRewritten(am, !s.fd.Closed?), [base], persistOk)
    else if !renameIncrOk then
      RewriteCleanup(BaseInstalled(s).(files := Unlink(BaseInstalled(s).files, [base])))
    else
      var am1 := GetNewIncr(am);
      Persisted(IncrRenamed(BaseInstalled(s), am1.currIncr), MarkRewritten(am1, !s.fd.Closed?),
                [base, IncrFile(am1.currIncr)], persistOk)
  }

  /** aofDelHistoryFiles: nothing is persisted when there is nothing to delete. */
  function RemoveHistory(s: Server, persistOk: bool): Server {
    var am := s.mem.(history := []);
    if s.mem.history == [] then s
    else s.(files := Unlink(s.files, s.mem.history), mem := am, disk := if persistOk then am else s.disk)
  }

  /** stopAppendOnly: a manifest in use is persisted again with the final offset of its last file. */
  function Stop(s: Server, persistOk: bool): Server {
    FlushTo(s, |s.buf|).(fd := Closed, state := AofOff, child := None, buf := "",
                         disk := if s.state.AofOn? && persistOk then s.mem else s.disk)
  }

  /** The manifest with which a server starts: an empty directory gets a base file, and the last
      incremental file is reopened or a new one is added. */
  function StartManifest(m: Manifest): (am: Manifest)
    ensures am.incr != []
  {
    var m1 := Reload(m);
    var m2 := if m1.base.None? && m1.incr == [] then GetNewBase(m1) else m1;
    if m2.incr == [] then GetNewIncr(m2) else m2
  }

  function Last(m: Manifest): FileName
    requires m.incr != []
  {
    IncrFile(m.incr[|m.incr| - 1])
  }

  /** loadDataFromDisk and aofOpenIfNeededOnServerStart with AOF enabled: the dataset is what the files
      say, and the last incremental file is opened for appending. */
  function OpenOnStart(s: Server): Server {
    var am := StartManifest(s.disk);
    var files1 := if s.disk.base.None? && s.disk.incr == [] then s.files[BaseFile(1) := ""] else s.files;
    Server(AofOn, am, am, files1[Last(am) := ContentOf(files1, Last(am))], Open(Last(am)), None, "", Load(s.files, s.disk))
  }

  /** A start with AOF enabled ends with the deletion of the history files. */
  function StartServer(s: Server, persistOk: bool): Server {
    RemoveHistory(OpenOnStart(s), persistOk)
  }

  function StartServerOff(s: Server, dataset: string, persistOk: bool): Server {
    RemoveHistory(Server(AofOff, Reload(s.disk), s.disk, s.files, Closed, None, "", dataset), persistOk)
  }

  /** A start that has to add the first incremental file finds none of that name with anything in it, and
      none of that name waiting to be deleted. */
  predicate StartIsSafe(s: Server) {
    s.disk.incr == [] ==> ContentOf(s.files, IncrFile(1)) == "" && IncrFile(1) !in s.disk.history
  }

  // ---------------------------------------------------------------- the disk operations of the handlers

  function FlushOps(s: Server, n: nat): seq<DiskOp>
    requires n <= |s.buf|
  {
    if s.fd.Open? then [Append(s.fd.name, s.buf[..n])] else []
  }

  function StartRewriteOps(s: Server, openOk: bool, persistOk: bool): seq<DiskOp> {
    if !openOk || s.state.AofOff? || s.state.Down? then []
    else if s.state.WaitRewrite? then [Truncate(TempIncr)]
    else
      var am := GetNewIncr(s.mem);
      [Truncate(IncrFile(am.currIncr))] + if persistOk then [Persist(am)] else []
  }

  function CleanupOps(s: Server): seq<DiskOp> {
    if s.state.WaitRewrite? then [Remove(TempIncr)] else []
  }

  function FinishOps(s: Server, renameBaseOk: bool, renameIncrOk: bool, persistOk: bool): seq<DiskOp>
    requires s.child.Some?
  {
    var am := GetNewBase(s.mem);
    var base := BaseFile(am.currBase);
    if !renameBaseOk then CleanupOps(s)
    else
      [Install(base, s.child.value)] +
      if s.state.WaitRewrite? then
        var am1 := GetNewIncr(am);
        var incr := IncrFile(am1.currIncr);
        if !renameIncrOk then [Remove(base)] + CleanupOps(s)
        else
          [Rename(TempIncr, incr)] +
          if persistOk then [Persist(MarkRewritten(am1, !s.fd.Closed?))]
          else [Remove(base), Remove(incr)] + CleanupOps(s)
      else if persistOk then [Persist(MarkRewritten(am, !s.fd.Closed?))]
      else [Remove(base)]
  }

  function RemoveOps(names: seq<FileName>): seq<DiskOp> {
    if names == [] then [] else [Remove(names[0])] + RemoveOps(names[1..])
  }

  function HistoryOps(m: Manifest, persistOk: bool): seq<DiskOp> {
    RemoveOps(m.history) + if m.history != [] && persistOk then [Persist(m.(history := []))] else []
  }

  function OpenOps(m: Manifest): seq<DiskOp> {
    var am := StartManifest(m);
    (if m.base.None? && m.incr == [] then [Install(BaseFile(1), "")] else []) + [OpenAppend(Last(am)), Persist(am)]
  }

  /** What the handler of an event does to the disk, in its order. */
  function Program(s: Server, e: Event): seq<DiskOp>
    requires Enabled(s, e)
    decreases e, 1
  {
    match e
    case Write(_) => []
    case Flush(n) => FlushOps(s, n)
    case RewriteStart(openOk, persistOk, _) => FlushOps(s, |s.buf|) + StartRewriteOps(s, openOk, persistOk)
    case RewriteSuccess(baseOk, incrOk, persistOk) => FinishOps(s, baseOk, incrOk, persistOk)
    case RewriteFailed => CleanupOps(s)
    case DeleteHistory(persistOk) => HistoryOps(s.mem, persistOk)
    case StartAppendOnly => []
    case StopAppendOnly(persistOk) =>
      FlushOps(s, |s.buf|) + if s.state.AofOn? && persistOk then [Persist(s.mem)] else []
    case Crash(during, ops) => Program(s, during)[..ops]
    case Start(persistOk) => OpenOps(s.disk) + HistoryOps(StartManifest(s.disk), persistOk)
    case StartOff(_, persistOk) => HistoryOps(Reload(s.disk), persistOk)
  }

  /** A server that is down may be started; everything else needs one that is up. */
  predicate Enabled(s: Server, e: Event)
    decreases e, 0
  {
    match e
    case Write(_) => !s.state.Down?
    case Flush(n) => !s.state.Down? && n <= |s.buf|
    case RewriteStart(_, _, _) => !s.state.Down? && s.child.None?
    case RewriteSuccess(_, _, _) => !s.state.Down? && s.child.Some?
    case RewriteFailed => !s.state.Down? && s.child.Some?
    case DeleteHistory(_) => !s.state.Down?
    case StartAppendOnly => s.state.AofOff?
    case StopAppendOnly(_) => s.state.WaitRewrite? || s.state.AofOn?
    case Crash(during, ops) => !during.Crash? && Enabled(s, during) && ops <= |Program(s, during)|
    case Start(_) => s.state.Down? && StartIsSafe(s)
    case StartOff(_, _) => s.state.Down?
  }

  /** The server after a crash: only the disk is left. */
  function Crashed(s: Server, d: Disk): Server {
    Server(Down, d.manifest, d.manifest, d.files, Closed, None, "", s.log)
  }

  /** Commands are fed to the log while AOF is on, or while the rewrite that will switch it on runs.
      A rewrite starts with a forced flush, which is taken to empty the buffer. */
  function Next(s: Server, e: Event): Server
    requires Enabled(s, e)
  {
    match e
    case Write(bytes) =>
      s.(log := s.log + bytes,
         buf := if s.state.AofOn? || (s.state.WaitRewrite? && s.child.Some?) then s.buf + bytes else s.buf)
    case Flush(n) => FlushTo(s, n)
    case RewriteStart(openOk, persistOk, forkOk) => StartRewrite(FlushTo(s, |s.buf|), openOk, persistOk, forkOk)
    case RewriteSuccess(baseOk, incrOk, persistOk) => FinishRewrite(s, baseOk, incrOk, persistOk)
    case RewriteFailed => RewriteCleanup(s)
    case DeleteHistory(persistOk) => RemoveHistory(s, persistOk)
    case StartAppendOnly => s.(state := WaitRewrite, child := None)
    case StopAppendOnly(persistOk) => Stop(s, persistOk)
    case Crash(_, _) => Crashed(s, DoAll(Disk(s.files, s.disk), Program(s, e)))
    case Start(persistOk) => StartServer(s, persistOk)
    case StartOff(dataset, persistOk) => StartServerOff(s, dataset, persistOk)
  }

  predicate IsRun(s: Server, events: seq<Event>)
    decreases |events|
  {
    events == [] || (Enabled(s, events[0]) && IsRun(Next(s, events[0]), events[1..]))
  }

  function After(s: Server, events: seq<Event>): Server
    requires IsRun(s, events)
    decreases |events|
  {
    if events == [] then s else After(Next(s, events[0]), events[1..])
  }

  /** A server that has never used AOF, with any dataset. */
  predicate Initial(s: Server) {
    s == Server(AofOff, EMPTY, EMPTY, map[], Closed, None, "", s.log)
  }
}
