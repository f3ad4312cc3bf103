/** The handlers of aof.c as methods on the server's fields. They are proved to perform the disk operations
    of `AofManifest` in their order and to end in its next state, and a whole run is served by them. */
module AofServer {
  import opened Wrappers
  import opened AofManifest
  import opened AofSafety
  import opened AofCrash
  import opened AofRuns

  class ManifestObject {
    var base: Option<nat>
    var incr: seq<nat>
    var history: seq<FileName>
    var currBase: nat
    var currIncr: nat

    function View(): Manifest
      reads this
    {
      Manifest(base, incr, history, currBase, currIncr)
    }

    /** aofManifestDup. */
    constructor Dup(m: Manifest)
      ensures View() == m
    {
      base, incr, history, currBase, currIncr := m.base, m.incr, m.history, m.currBase, m.currIncr;
    }

    method NewBaseFileName() returns (name: FileName)
      modifies this
      ensures View() == GetNewBase(old(View())) && name == BaseFile(old(currBase) + 1)
    {
      if base.Some? {
        history := [BaseFile(base.value)] + history;
      }
      currBase := currBase + 1;
      base := Some(currBase);
      name := BaseFile(currBase);
    }

    method NewIncrAofName() returns (name: FileName)
      modifies this
      ensures View() == GetNewIncr(old(View())) && name == IncrFile(old(currIncr) + 1)
    {
      currIncr := currIncr + 1;
      incr := incr + [currIncr];
      name := IncrFile(currIncr);
    }

    /** markRewrittenIncrAofAsHistory: the list is walked from its tail. */
    method MarkRewrittenIncrAsHistory(writing: bool)
      modifies this
      ensures View() == MarkRewritten(old(View()), writing)
    {
      if incr == [] {
        assert IncrNames(incr[..0]) + history == history;
        return;
      }
      var n := if writing then |incr| - 1 else |incr|;
      ghost var incr0, history0 := incr, history;
      var i := n;
      assert IncrNames(incr0[n..n]) + history0 == history0;
      while i > 0
        invariant 0 <= i <= n && incr == incr0[..i] + incr0[n..]
        invariant history == IncrNames(incr0[i..n]) + history0
        invariant base == old(base) && currBase == old(currBase) && currIncr == old(currIncr)
      {
        i := i - 1;
        history := [IncrFile(incr[i])] + history;
        assert IncrNames(incr0[i..n]) == [IncrFile(incr0[i])] + IncrNames(incr0[i + 1..n]);
        incr := incr[..i] + incr[i + 1..];
      }
      assert incr0[0..n] == incr0[..n];
    }
  }

  lemma OneOrTwoRemoves(a: FileName, b: FileName)
    ensures RemoveOps([a]) == [Remove(a)] && RemoveOps([a, b]) == [Remove(a), Remove(b)]
  {
    assert [a][1..] == [] && [a, b][1..] == [b] && [b][1..] == [];
    assert RemoveOps([b]) == [Remove(b)];
  }

  /** The AOF part of the server and of its disk. */
  class AofServer {
    var state: AofState
    var mem: Manifest
    var disk: Manifest
    var files: Files
    var fd: Fd
    var child: Option<string>
    var buf: string
    var log: string
    /** The disk operations so far. */
    ghost var trace: seq<DiskOp>

    function View(): Server
      reads this
    {
      Server(state, mem, disk, files, fd, child, buf, log)
    }

    constructor (log: string)
      ensures Initial(View()) && this.log == log && trace == []
    {
      state, mem, disk, files, fd, child, buf := AofOff, EMPTY, EMPTY, map[], Closed, None, "";
      this.log := log;
      trace := [];
    }

    /** A system call that changes the disk. */
    method Perform(op: DiskOp)
      modifies this`files, this`disk, this`trace
      ensures Disk(files, disk) == Do(old(Disk(files, disk)), op) && trace == old(trace) + [op]
    {
      var d := Do(Disk(files, disk), op);
      files, disk := d.files, d.manifest;
      trace := trace + [op];
    }

    /** A command executes and feedAppendOnlyFile sees it. */
    method Feed(bytes: string)
      requires state != Down
      modifies this`buf, this`log
      ensures View() == Next(old(View()), Write(bytes))
    {
      log := log + bytes;
      if state == AofOn || (state == WaitRewrite && child.Some?) {
        buf := buf + bytes;
      }
    }

    method FlushAppendOnlyFile(n: nat)
      requires n <= |buf|
      modifies this`buf, this`files, this`disk, this`trace
      ensures View() == FlushTo(old(View()), n)
      ensures trace == old(trace) + FlushOps(old(View()), n)
    {
      if fd.Open? {
        Perform(Append(fd.name, buf[..n]));
      }
      buf := buf[n..];
    }

    /** writeAofManifestFile fails, if it does, before its rename. */
    method PersistAofManifest(am: Manifest, succeeds: bool) returns (ok: bool)
      modifies this`files, this`disk, this`trace
      ensures ok == succeeds && files == old(files) && disk == if succeeds then am else old(disk)
      ensures trace == old(trace) + if succeeds then [Persist(am)] else []
    {
      if succeeds {
        Perform(Persist(am));
      }
      ok := succeeds;
    }

    /** openNewIncrAofForAppend. */
    method OpenNewIncrAofForAppend(openOk: bool, persistOk: bool) returns (ok: bool)
      requires state != Down
      modifies this
      ensures View() == StartRewrite(old(View()), openOk, persistOk, false)
      ensures ok == (state == AofOff || (openOk && (state == AofOn ==> persistOk)))
      ensures trace == old(trace) + StartRewriteOps(old(View()), openOk, persistOk)
    {
      if state == AofOff {
        return true;
      }
      if state == WaitRewrite {
        if !openOk {
          return false;
        }
        Perform(Truncate(TempIncr));
        fd := Open(TempIncr);
        return true;
      }
      var am := new ManifestObject.Dup(mem);
      var name := am.NewIncrAofName();
      if !openOk {
        return false;
      }
      Perform(Truncate(name));
      ok := PersistAofManifest(am.View(), persistOk);
      assert trace == old(trace) + ([Truncate(name)] + if persistOk then [Persist(am.View())] else []);
      if !ok {
        return;
      }
      fd := Open(name);
      mem := am.View();
    }

    /** rewriteAppendOnlyFileBackground. */
    method RewriteInBackground(openOk: bool, persistOk: bool, forkOk: bool) returns (ok: bool)
      requires state != Down
      modifies this
      ensures View() == if old(child).Some? then old(View())
                        else StartRewrite(FlushTo(old(View()), |old(buf)|), openOk, persistOk, forkOk)
      ensures trace == old(trace) + if old(child).Some? then []
                                    else FlushOps(old(View()), |old(buf)|) + StartRewriteOps(old(View()), openOk, persistOk)
    {
      if child.Some? {
        return false;
      }
      FlushAppendOnlyFile(|buf|);
      ok := OpenNewIncrAofForAppend(openOk, persistOk);
      if !ok || !forkOk {
        return false;
      }
      child := Some(log);
    }

    /** The cleanup at the end of backgroundRewriteDoneHandler. */
    method Cleanup()
      modifies this
      ensures View() == RewriteCleanup(old(View())) && trace == old(trace) + CleanupOps(old(View()))
    {
      child := None;
      if state == WaitRewrite {
        buf := "";
        Perform(Remove(TempIncr));
        if fd == Open(TempIncr) {
          fd := Unlinked;
        }
      }
    }

    /** backgroundRewriteDoneHandler for a child that exited with success. */
    method BackgroundRewriteDone(renameBaseOk: bool, renameIncrOk: bool, persistOk: bool)
      requires child.Some? && state != Down
      modifies this
      ensures View() == FinishRewrite(old(View()), renameBaseOk, renameIncrOk, persistOk)
      ensures trace == old(trace) + FinishOps(old(View()), renameBaseOk, renameIncrOk, persistOk)
    {
      hide MarkRewritten, RewriteCleanup, Unlink, RemoveOps, Persisted, IncrRenamed;
      var am := new ManifestObject.Dup(mem);
      var baseName := am.NewBaseFileName();
      if !renameBaseOk {
        Cleanup();
        return;
      }
      Perform(Install(baseName, child.value));
      if state == WaitRewrite {
        FinishWaiting(am, baseName, renameIncrOk, persistOk);
      } else {
        am.MarkRewrittenIncrAsHistory(!fd.Closed?);
        OneOrTwoRemoves(baseName, baseName);
        PersistRewrite(am.View(), [baseName], persistOk);
      }
    }

    /** The rename of the temporary incremental file, when AOF is being switched on. */
    method FinishWaiting(am: ManifestObject, baseName: FileName, renameIncrOk: bool, persistOk: bool)
      requires child.Some? && state == WaitRewrite
      modifies this, am
      ensures var s, m := old(View()), GetNewIncr(old(am.View()));
        View() == if !renameIncrOk then RewriteCleanup(s.(files := Unlink(s.files, [baseName])))
                  else Persisted(IncrRenamed(s, m.currIncr), MarkRewritten(m, !s.fd.Closed?), [baseName, IncrFile(m.currIncr)], persistOk)
      ensures var m := GetNewIncr(old(am.View()));
        trace == old(trace) +
          if !renameIncrOk then [Remove(baseName), Remove(TempIncr)]
          else [Rename(TempIncr, IncrFile(m.currIncr))] +
               if persistOk then [Persist(MarkRewritten(m, !old(fd).Closed?))]
               else [Remove(baseName), Remove(IncrFile(m.currIncr)), Remove(TempIncr)]
    {
      hide MarkRewritten, RewriteCleanup, Unlink, RemoveOps, Persisted;
      if !renameIncrOk {
        Perform(Remove(baseName));
        Cleanup();
        return;
      }
      var incrName := am.NewIncrAofName();
      Perform(Rename(TempIncr, incrName));
      if fd == Open(TempIncr) {
        fd := Open(incrName);
      }
      am.MarkRewrittenIncrAsHistory(!fd.Closed?);
      OneOrTwoRemoves(baseName, incrName);
      PersistRewrite(am.View(), [baseName, incrName], persistOk);
    }

    /** Its end: the new manifest takes effect once it is on disk; otherwise the new files are deleted. */
    method PersistRewrite(m: Manifest, dropped: seq<FileName>, persistOk: bool)
      requires child.Some? && state != Down
      modifies this
      ensures View() == Persisted(old(View()), m, dropped, persistOk)
      ensures trace == old(trace) + if persistOk then [Persist(m)] else RemoveOps(dropped) + CleanupOps(old(View()))
    {
      hide RewriteCleanup, Unlink;
      var ok := PersistAofManifest(m, persistOk);
      if !ok {
        RemoveAll(dropped);
        if state == WaitRewrite {
          fd := Unlinked;
        }
        Cleanup();
        return;
      }
      mem := m;
      child := None;
      if state == WaitRewrite {
        state := AofOn;
      }
    }

    /** The files go one after the other. */
    method RemoveAll(names: seq<FileName>)
      modifies this`files, this`disk, this`trace
      ensures files == Unlink(old(files), names) && disk == old(disk) && trace == old(trace) + RemoveOps(names)
    {
      assert Unlink(files, names[..0]) == files;
      for i := 0 to |names|
        invariant files == Unlink(old(files), names[..i]) && disk == old(disk)
        invariant trace + RemoveOps(names[i..]) == old(trace) + RemoveOps(names)
      {
        assert names[..i + 1] == names[..i] + [names[i]];
        assert names[i..] == [names[i]] + names[i + 1..];
        Perform(Remove(names[i]));
      }
      assert names[..|names|] == names && names[|names|..] == [];
    }

    /** aofDelHistoryFiles: the list empties while the files go, and what is left of it is persisted. */
    method DelHistoryFiles(persistOk: bool)
      modifies this
      ensures View() == RemoveHistory(old(View()), persistOk)
      ensures trace == old(trace) + HistoryOps(old(mem), persistOk)
    {
      if mem.history == [] {
        return;
      }
      RemoveAll(mem.history);
      mem := mem.(history := []);
      var ok := PersistAofManifest(mem, persistOk);
    }

    /** loadDataFromDisk and aofOpenIfNeededOnServerStart with AOF enabled. */
    method OpenIfNeededOnServerStart()
      modifies this
      ensures View() == OpenOnStart(old(View())) && trace == old(trace) + OpenOps(old(disk))
    {
      hide Load, StartManifest, Reload, GetNewBase, GetNewIncr;
      log := Load(files, disk);
      var am, last := OpenManifest();
      Perform(OpenAppend(last));
      var ok := PersistAofManifest(am, true);
      mem, fd, child, buf, state := am, Open(last), None, "", AofOn;
    }

    /** The manifest to start with: an empty directory gets a base file, an empty chain a file to append to. */
    method OpenManifest() returns (m: Manifest, last: FileName)
      modifies this`files, this`disk, this`trace
      ensures m == StartManifest(disk) && last == Last(m) && disk == old(disk)
      ensures var missing := disk.base.None? && disk.incr == [];
        && files == (if missing then old(files)[BaseFile(1) := ""] else old(files))
        && trace == old(trace) + if missing then [Install(BaseFile(1), "")] else []
    {
      var am := new ManifestObject.Dup(Reload(disk));
      if am.base.None? && am.incr == [] {
        var base := am.NewBaseFileName();
        Perform(Install(base, ""));
      }
      if am.incr == [] {
        var name := am.NewIncrAofName();
      }
      m, last := am.View(), IncrFile(am.incr[|am.incr| - 1]);
    }

    /** stopAppendOnly. */
    method StopAppendOnly(persistOk: bool)
      requires state == WaitRewrite || state == AofOn
      modifies this
      ensures View() == Stop(old(View()), persistOk)
      ensures trace == old(trace) + FlushOps(old(View()), |old(buf)|) +
                       if old(state).AofOn? && persistOk then [Persist(old(mem))] else []
    {
      FlushAppendOnlyFile(|buf|);
      if state == AofOn {
        var ok := PersistAofManifest(mem, persistOk);
      }
      fd, child, buf, state := Closed, None, "", AofOff;
    }

    /** The power goes during the handler of an event. */
    method PowerCut(during: Event, ops: nat)
      requires Enabled(View(), Crash(during, ops))
      modifies this
      ensures View() == Next(old(View()), Crash(during, ops))
      ensures trace == old(trace) + Program(old(View()), Crash(during, ops))
    {
      var todo := Program(View(), Crash(during, ops));
      for i := 0 to |todo|
        invariant DoAll(Disk(files, disk), todo[i..]) == DoAll(old(Disk(files, disk)), todo)
        invariant trace == old(trace) + todo[..i] && log == old(log)
      {
        Perform(todo[i]);
        assert todo[i..][1..] == todo[i + 1..] && todo[..i + 1] == todo[..i] + [todo[i]];
      }
      assert todo[|todo|..] == [] && todo[..|todo|] == todo;
      state, mem, fd, child, buf := Down, disk, Closed, None, "";
    }

    /** One event: its handler performs the disk operations of the program in order and takes the step. */
    method Handle(e: Event)
      requires Enabled(View(), e)
      modifies this
      ensures View() == Next(old(View()), e)
      ensures trace == old(trace) + Program(old(View()), e)
    {
      hide FlushTo, StartRewrite, FinishRewrite, RewriteCleanup, RemoveHistory, Stop, OpenOnStart, Reload, StartManifest, DoAll;
      hide FlushOps, StartRewriteOps, FinishOps, CleanupOps, HistoryOps, OpenOps;
      match e {
        case Write(bytes) => Feed(bytes);
        case Flush(n) => FlushAppendOnlyFile(n);
        case RewriteStart(openOk, persistOk, forkOk) => var ok := RewriteInBackground(openOk, persistOk, forkOk);
        case RewriteSuccess(baseOk, incrOk, persistOk) => BackgroundRewriteDone(baseOk, incrOk, persistOk);
        case RewriteFailed => Cleanup();
        case DeleteHistory(persistOk) => DelHistoryFiles(persistOk);
        case StartAppendOnly => state, child := WaitRewrite, None;
        case StopAppendOnly(persistOk) => StopAppendOnly(persistOk);
        case Crash(during, ops) => PowerCut(during, ops);
        case Start(persistOk) =>
          OpenMem(View());
          OpenIfNeededOnServerStart();
          DelHistoryFiles(persistOk);
        case StartOff(dataset, persistOk) =>
          state, mem, fd, child, buf, log := AofOff, Reload(disk), Closed, None, "", dataset;
          DelHistoryFiles(persistOk);
      }
    }

    /** The server's life: whatever happens, while AOF is on the files the manifest on disk names exist and
        hold, with the buffer, everything executed. */
    method Serve(events: seq<Event>)
      requires Inv(View()) && IsRun(View(), events)
      modifies this
      ensures View() == After(old(View()), events) && Inv(View())
      ensures AllExist(files, disk) && (state.AofOn? ==> Load(files, disk) + buf == log)
    {
      hide Next, Enabled, Inv;
      assert events[0..] == events;
      for i := 0 to |events|
        invariant Inv(View()) && IsRun(View(), events[i..]) && After(View(), events[i..]) == After(old(View()), events)
      {
        assert events[i..][0] == events[i] && events[i..][1..] == events[i + 1..];
        StepInv(View(), events[i]);
        Handle(events[i]);
      }
      FlushedLoads(View());
    }
  }
}
