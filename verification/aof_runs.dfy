/** Runs with crashes anywhere, and the main results about the append only file. */
module AofRuns {
  import opened Wrappers
  import opened AofManifest
  import opened AofSafety
  import opened AofCrash

  // ---------------------------------------------------------------- every prefix of every program

  /** The forced flush at the start of a program. */
  function FlushPart(s: Server, e: Event): seq<DiskOp>
    requires Enabled(s, e) && !e.Crash?
  {
    match e
    case Flush(n) => FlushOps(s, n)
    case RewriteStart(_, _, _) => FlushOps(s, |s.buf|)
    case StopAppendOnly(_) => FlushOps(s, |s.buf|)
    case _ => []
  }

  /** The server behind that flush. */
  function Flushed(s: Server, e: Event): Server
    requires Enabled(s, e) && !e.Crash?
  {
    match e
    case Flush(n) => FlushTo(s, n)
    case RewriteStart(_, _, _) => FlushTo(s, |s.buf|)
    case StopAppendOnly(_) => FlushTo(s, |s.buf|)
    case _ => s
  }

  function RestPart(s: Server, e: Event): seq<DiskOp>
    requires Enabled(s, e) && !e.Crash?
  {
    match e
    case RewriteStart(openOk, persistOk, _) => StartRewriteOps(s, openOk, persistOk)
    case RewriteSuccess(baseOk, incrOk, persistOk) => FinishOps(s, baseOk, incrOk, persistOk)
    case RewriteFailed => CleanupOps(s)
    case DeleteHistory(persistOk) => HistoryOps(s.mem, persistOk)
    case StopAppendOnly(persistOk) => if s.state.AofOn? && persistOk then [Persist(s.mem)] else []
    case Start(persistOk) => OpenOps(s.disk) + HistoryOps(StartManifest(s.disk), persistOk)
    case StartOff(_, persistOk) => HistoryOps(Reload(s.disk), persistOk)
    case _ => []
  }

  /** The persisted chain is the dataset, or is to become it: it must not change under a crash. */
  predicate ChainMatters(s: Server) {
    s.state.AofOn? || s.state.Down?
  }

  lemma SameWhenOn(s: Server, t: Server)
    requires Inv(s) && Inv(t) && s.state.AofOn? && t.state.AofOn? && s.buf == t.buf && s.log == t.log
    ensures Same(DiskOf(s), DiskOf(t))
  {
    LoadSame(s.files, s.mem, s.disk);
    LoadSame(t.files, t.mem, t.disk);
    hide Load, DiskInv, ManifestShape;
    var a, b := Load(s.files, s.mem), Load(t.files, t.mem);
    assert |a| == |b| && (a + s.buf)[..|a|] == a && (b + s.buf)[..|a|] == b;
  }

  lemma RewriteStartSurvives(s: Server, openOk: bool, persistOk: bool, forkOk: bool)
    requires Inv(s) && !s.state.Down? && s.buf == "" && s.child.None?
    ensures Survives(DiskOf(s), StartRewriteOps(s, openOk, persistOk), ChainMatters(s))
  {
    var t, ops := StartRewrite(s, openOk, persistOk, forkOk), StartRewriteOps(s, openOk, persistOk);
    StartRewriteInv(s, openOk, persistOk, forkOk);
    StartRewriteProgram(s, openOk, persistOk, forkOk);
    NumbersAreBounded(s.mem);
    if s.state.AofOn? {
      SameWhenOn(s, t);
    }
    var persists := s.state.AofOn? && openOk && persistOk;
    var aside, last := if persists then ops[..1] else ops, if persists then [Persist(t.disk)] else [];
    assert aside + last == ops;
    hide Inv, Load;
    AsideThenPersist(s, t, aside, last);
  }

  lemma FinishSurvives(s: Server, baseOk: bool, incrOk: bool, persistOk: bool)
    requires Inv(s) && !s.state.Down? && s.child.Some?
    ensures Survives(DiskOf(s), FinishOps(s, baseOk, incrOk, persistOk), ChainMatters(s))
  {
    var t, ops := FinishRewrite(s, baseOk, incrOk, persistOk), FinishOps(s, baseOk, incrOk, persistOk);
    var aside, last := FinishAside(s, baseOk, incrOk, persistOk), if Finishes(s, baseOk, incrOk, persistOk) then [Persist(t.disk)] else [];
    FinishInv(s, baseOk, incrOk, persistOk);
    FinishProgram(s, baseOk, incrOk, persistOk);
    FinishSplit(s, baseOk, incrOk, persistOk);
    FinishIsAside(s, baseOk, incrOk, persistOk);
    if s.state.AofOn? {
      assert t.state.AofOn? && t.buf == s.buf && t.log == s.log;
      SameWhenOn(s, t);
    }
    hide Inv, Load, FinishOps, FinishAside, FinishRewrite;
    AsideThenPersist(s, t, aside, last);
  }

  lemma FinishSplit(s: Server, baseOk: bool, incrOk: bool, persistOk: bool)
    requires s.child.Some?
    ensures var t := FinishRewrite(s, baseOk, incrOk, persistOk);
      FinishOps(s, baseOk, incrOk, persistOk) ==
      FinishAside(s, baseOk, incrOk, persistOk) + if Finishes(s, baseOk, incrOk, persistOk) then [Persist(t.disk)] else []
  {
    hide MarkRewritten, Unlink;
  }

  lemma FinishIsAside(s: Server, baseOk: bool, incrOk: bool, persistOk: bool)
    requires Inv(s) && !s.state.Down? && s.child.Some?
    ensures forall op | op in FinishAside(s, baseOk, incrOk, persistOk) :: Aside(s.disk, op)
  {
    NumbersAreBounded(s.mem);
    TempUnnamed(s.disk);
    assert !Names(s.disk, BaseFile(s.mem.currBase + 1)) && !Names(s.disk, IncrFile(s.mem.currIncr + 1));
    hide Inv, Names;
  }

  lemma TempUnnamed(m: Manifest)
    ensures !Names(m, TempIncr)
  {
  }

  lemma FinishInv(s: Server, baseOk: bool, incrOk: bool, persistOk: bool)
    requires Inv(s) && !s.state.Down? && s.child.Some?
    ensures Inv(FinishRewrite(s, baseOk, incrOk, persistOk))
  {
    if !Finishes(s, baseOk, incrOk, persistOk) {
      FinishFailedInv(s, baseOk, incrOk, persistOk);
    } else if s.state.WaitRewrite? {
      FinishWaitInv(s);
    } else if s.state.AofOn? {
      FinishOnInv(s, incrOk);
    } else {
      FinishOffInv(s, incrOk);
    }
    hide Inv;
  }

  lemma CleanupSurvives(s: Server)
    requires Inv(s)
    ensures Survives(DiskOf(s), CleanupOps(s), ChainMatters(s))
  {
    hide Load;
    AsideSurvives(DiskOf(s), CleanupOps(s));
    SurvivesWeaker(DiskOf(s), CleanupOps(s));
  }

  lemma HistorySurvives(s: Server, persistOk: bool)
    requires DiskInv(DiskOf(s)) && s.mem.base == s.disk.base && s.mem.incr == s.disk.incr
    requires forall f | f in s.mem.history :: Superseded(f, s.disk)
    ensures Survives(DiskOf(s), HistoryOps(s.mem, persistOk), true)
    ensures Survives(DiskOf(s), HistoryOps(s.mem, persistOk), false)
  {
    var d, d1 := DiskOf(s), DoAll(DiskOf(s), RemoveOps(s.mem.history));
    var am := s.mem.(history := []);
    RemovesUnlink(d, s.mem.history);
    AsideSurvives(d, RemoveOps(s.mem.history));
    LoadSame(d1.files, am, s.disk);
    assert DiskInv(Disk(d1.files, am));
    hide Load, DiskInv, RemoveOps;
    SurvivesOne(d1, Persist(am), true);
    if s.mem.history != [] && persistOk {
      SurvivesAppend(d, RemoveOps(s.mem.history), [Persist(am)], true);
    } else {
      assert HistoryOps(s.mem, persistOk) == RemoveOps(s.mem.history);
    }
    SurvivesWeaker(d, HistoryOps(s.mem, persistOk));
  }

  lemma StopSurvives(s: Server)
    requires Inv(s) && s.state.AofOn?
    ensures Survives(DiskOf(s), [Persist(s.mem)], true)
  {
    ShapeOnDisk(s.mem);
    LoadSame(s.files, s.mem, s.disk);
    hide Load, DiskShape;
    SurvivesOne(DiskOf(s), Persist(s.mem), true);
  }

  lemma StartSurvives(s: Server, persistOk: bool)
    requires Inv(s) && s.state.Down? && StartIsSafe(s)
    ensures Survives(DiskOf(s), OpenOps(s.disk) + HistoryOps(StartManifest(s.disk), persistOk), true)
  {
    var s1 := OpenOnStart(s);
    OpenLoads(s);
    OpenProgram(s);
    StartManifestShape(s.disk);
    OpenSurvives(s);
    hide Load, OpenOps, StartManifest, OpenOnStart, StartIsSafe, ManifestShape;
    assert s1.mem == s1.disk == StartManifest(s.disk) by {
      OpenMem(s);
    }
    HistorySurvives(s1, persistOk);
    SurvivesAppend(DiskOf(s), OpenOps(s.disk), HistoryOps(StartManifest(s.disk), persistOk), true);
  }

  lemma OpenMem(s: Server)
    ensures OpenOnStart(s).mem == OpenOnStart(s).disk == StartManifest(s.disk)
  {
  }

  lemma OpenSurvives(s: Server)
    requires Inv(s) && s.state.Down? && StartIsSafe(s)
    ensures Survives(DiskOf(s), OpenOps(s.disk), true)
  {
    var am, d, s1 := StartManifest(s.disk), DiskOf(s), OpenOnStart(s);
    var ops := OpenAside(s.disk);
    OpenProgram(s);
    DoAllAppend(d, ops, [Persist(am)]);
    OpenLoads(s);
    OpenMem(s);
    OpenIsAside(s.disk);
    assert DiskInv(d);
    hide LoadDisk, DiskInv, StartManifest, DoAll, OpenOps, OpenAside, OpenOnStart, Names, StartIsSafe, ManifestShape, Inv, Aside, Do;
    AsideSurvives(d, ops);
    Two(DoAll(d, ops), Persist(am), []);
    assert Same(d, DiskOf(s1)) by {
      LoadDiskIs(s1);
      LoadDiskIs(s);
    }
    SurvivesOne(DoAll(d, ops), Persist(am), true);
    SurvivesAppend(d, ops, [Persist(am)], true);
  }

  lemma LoadDiskIs(s: Server)
    ensures LoadDisk(DiskOf(s)) == Load(s.files, s.disk)
  {
  }

  function OpenAside(m: Manifest): seq<DiskOp> {
    var last := OpenAppend(Last(StartManifest(m)));
    if m.base.None? && m.incr == [] then [Install(BaseFile(1), ""), last] else [last]
  }

  lemma OpenIsAside(m: Manifest)
    ensures OpenOps(m) == OpenAside(m) + [Persist(StartManifest(m))]
    ensures forall op | op in OpenAside(m) :: Aside(m, op)
  {
    hide StartManifest;
  }

  /** The forced flush and the rest make up the program, and the rest survives a crash at every point. */
  lemma RestSurvives(s: Server, e: Event)
    requires Inv(s) && Enabled(s, e) && !e.Crash?
    ensures Program(s, e) == FlushPart(s, e) + RestPart(s, e)
    ensures Inv(Flushed(s, e)) && DoAll(DiskOf(s), FlushPart(s, e)) == DiskOf(Flushed(s, e))
    ensures Survives(DiskOf(Flushed(s, e)), RestPart(s, e), false)
    ensures s.state.AofOn? || e.Start? ==> Survives(DiskOf(Flushed(s, e)), RestPart(s, e), true)
  {
    RestAlone(s, e);
    FlushedInv(s, e);
    hide Inv, Survives, FlushPart, Flushed;
    assert Program(s, e) == FlushPart(s, e) + RestPart(s, e) by {
      ProgramParts(s, e);
    }
  }

  lemma ProgramParts(s: Server, e: Event)
    requires Enabled(s, e) && !e.Crash?
    ensures Program(s, e) == FlushPart(s, e) + RestPart(s, e)
  {
    hide FlushOps, StartRewriteOps, FinishOps, CleanupOps, HistoryOps, OpenOps;
  }

  lemma FlushedInv(s: Server, e: Event)
    requires Inv(s) && Enabled(s, e) && !e.Crash?
    ensures Inv(Flushed(s, e)) && DoAll(DiskOf(s), FlushPart(s, e)) == DiskOf(Flushed(s, e))
  {
    hide Inv;
    match e
    case Flush(n) => FlushInv(s, n); FlushProgram(s, n);
    case RewriteStart(_, _, _) => FlushInv(s, |s.buf|); FlushProgram(s, |s.buf|);
    case StopAppendOnly(_) => FlushInv(s, |s.buf|); FlushProgram(s, |s.buf|);
    case _ =>
  }

  lemma RestAlone(s: Server, e: Event)
    requires Inv(s) && Enabled(s, e) && !e.Crash?
    ensures Survives(DiskOf(Flushed(s, e)), RestPart(s, e), false)
    ensures s.state.AofOn? || e.Start? ==> Survives(DiskOf(Flushed(s, e)), RestPart(s, e), true)
  {
    var d := DiskOf(Flushed(s, e));
    FlushedInv(s, e);
    assert DiskInv(d);
    match e {
      case RewriteStart(openOk, persistOk, forkOk) =>
        RewriteStartSurvives(Flushed(s, e), openOk, persistOk, forkOk);
        assert StartRewriteOps(Flushed(s, e), openOk, persistOk) == StartRewriteOps(s, openOk, persistOk);
      case RewriteSuccess(baseOk, incrOk, persistOk) => FinishSurvives(s, baseOk, incrOk, persistOk);
      case RewriteFailed => CleanupSurvives(s);
      case DeleteHistory(persistOk) => HistoryIsOld(s); HistorySurvives(s, persistOk);
      case StopAppendOnly(_) =>
        SurvivesNothing(d, s.state.AofOn?);
        if s.state.AofOn? {
          StopSurvives(Flushed(s, e));
        }
      case Start(persistOk) => StartSurvives(s, persistOk);
      case StartOff(dataset, persistOk) =>
        HistorySurvives(BareOff(s, dataset), persistOk);
        assert DiskOf(BareOff(s, dataset)) == d && BareOff(s, dataset).mem == Reload(s.disk);
      case _ => SurvivesNothing(d, s.state.AofOn?);
    }
    hide Inv, Survives, FlushTo, FinishOps, HistoryOps, CleanupOps, OpenOps, StartRewriteOps, StartManifest, Reload;
    if Survives(d, RestPart(s, e), true) {
      SurvivesWeaker(d, RestPart(s, e));
    }
  }

  lemma HistoryIsOld(s: Server)
    requires Inv(s) && !s.state.Down?
    ensures forall f | f in s.mem.history :: Superseded(f, s.disk)
  {
    forall f | f in s.mem.history
      ensures Superseded(f, s.disk)
    {
      assert Older(f, s.mem);
    }
  }

  function BareOff(s: Server, dataset: string): Server {
    Server(AofOff, Reload(s.disk), s.disk, s.files, Closed, None, "", dataset)
  }

  /** After `k` operations of a handler: the manifest is sound, and while AOF is on the files it names and
      what the handler has not yet flushed are the whole log. */
  lemma CutSurvives(s: Server, e: Event, k: nat)
    requires Inv(s) && Enabled(s, e) && !e.Crash? && k <= |Program(s, e)|
    ensures DiskInv(DoAll(DiskOf(s), Program(s, e)[..k]))
    ensures s.state.AofOn? ==> LoadDisk(DoAll(DiskOf(s), Program(s, e)[..k])) + Unflushed(s, e, k) == s.log
    ensures s.state.AofOn? ==> DoAll(DiskOf(s), Program(s, e)[..k]).manifest.incr != []
    ensures e.Start? ==> Same(DiskOf(s), DoAll(DiskOf(s), Program(s, e)[..k]))
  {
    RestSurvives(s, e);
    FlushedShape(s, e);
    var a := FlushPart(s, e);
    if k < |a| {
      assert k == 0 && Program(s, e)[..k] == [] && DoAll(DiskOf(s), []) == DiskOf(s);
      hide *;
      FlushedLoads(s);
      assert Unflushed(s, e, k) == s.buf by {
        UnflushedIs(s, e, k);
      }
      FlushComesFirst(s, e);
    } else {
      assert Program(s, e)[..k] == a + RestPart(s, e)[..k - |a|];
      DoAllAppend(DiskOf(s), a, RestPart(s, e)[..k - |a|]);
      UnflushedIs(s, e, k);
      hide *;
      CutInRest(s, e, k - |a|);
    }
  }

  lemma UnflushedIs(s: Server, e: Event, k: nat)
    requires Enabled(s, e) && !e.Crash?
    ensures Unflushed(s, e, k) == if k < |FlushPart(s, e)| then s.buf else Flushed(s, e).buf
  {
  }

  lemma FlushComesFirst(s: Server, e: Event)
    requires Enabled(s, e) && !e.Crash? && FlushPart(s, e) != []
    ensures !e.Start?
  {
  }

  lemma CutInRest(s: Server, e: Event, j: nat)
    requires Inv(s) && Enabled(s, e) && !e.Crash? && j <= |RestPart(s, e)|
    ensures var s1 := Flushed(s, e); var cut := DoAll(DiskOf(s1), RestPart(s, e)[..j]);
      && DiskInv(cut) && (e.Start? ==> Same(DiskOf(s), cut))
      && (s.state.AofOn? ==> LoadDisk(cut) + s1.buf == s.log && cut.manifest.incr != [])
  {
    RestSurvives(s, e);
    FlushedShape(s, e);
    var s1 := Flushed(s, e);
    hide Flushed, FlushPart, RestPart, Program, Inv, DoAll, DiskInv, LoadDisk, Survives;
    FlushedLoads(s1);
    SurvivesPoint(DiskOf(s1), RestPart(s, e), j, false);
    if s.state.AofOn? || e.Start? {
      SurvivesPoint(DiskOf(s1), RestPart(s, e), j, true);
    }
  }

  lemma SurvivesPoint(d: Disk, ops: seq<DiskOp>, k: nat, same: bool)
    requires Survives(d, ops, same) && k <= |ops|
    ensures DiskInv(DoAll(d, ops[..k])) && (same ==> Same(d, DoAll(d, ops[..k])))
  {
    hide DiskInv, Same, DoAll;
    assert SurvivesAt(d, ops, k, same);
  }

  /** The part of the buffer that a handler cut after `k` operations has not written. */
  function Unflushed(s: Server, e: Event, k: nat): string
    requires Enabled(s, e) && !e.Crash?
  {
    if k < |FlushPart(s, e)| then s.buf else Flushed(s, e).buf
  }

  lemma FlushedShape(s: Server, e: Event)
    requires Enabled(s, e) && !e.Crash?
    ensures Flushed(s, e).state == s.state && Flushed(s, e).log == s.log
    ensures e.Start? ==> Flushed(s, e) == s
    ensures |FlushPart(s, e)| <= 1
  {
  }

  lemma FlushedLoads(s: Server)
    requires Inv(s)
    ensures DiskInv(DiskOf(s))
    ensures s.state.AofOn? ==> LoadDisk(DiskOf(s)) + s.buf == s.log && s.disk.incr != []
  {
    LoadSame(s.files, s.mem, s.disk);
    hide Load, DiskInv;
  }

  lemma CrashInv(s: Server, during: Event, ops: nat)
    requires Inv(s) && Enabled(s, Crash(during, ops))
    ensures Inv(Next(s, Crash(during, ops)))
  {
    CutSurvives(s, during, ops);
    hide DiskInv, LoadDisk, DoAll;
  }

  // ---------------------------------------------------------------- runs

  lemma StepInv(s: Server, e: Event)
    requires Inv(s) && Enabled(s, e)
    ensures Inv(Next(s, e))
  {
    match e {
      case Write(bytes) => WriteInv(s, bytes);
      case Flush(n) => FlushInv(s, n);
      case RewriteStart(openOk, persistOk, forkOk) =>
        FlushInv(s, |s.buf|);
        StartRewriteInv(FlushTo(s, |s.buf|), openOk, persistOk, forkOk) by {
          assert FlushTo(s, |s.buf|).buf == "";
        }
      case RewriteSuccess(baseOk, incrOk, persistOk) => FinishInv(s, baseOk, incrOk, persistOk);
      case RewriteFailed => CleanupInv(s);
      case DeleteHistory(persistOk) => RemoveHistoryInv(s, persistOk);
      case StartAppendOnly =>
      case StopAppendOnly(persistOk) => StopInv(s, persistOk);
      case Crash(during, ops) => CrashInv(s, during, ops);
      case Start(persistOk) => StartInv(s, persistOk);
      case StartOff(dataset, persistOk) => StartOffInv(s, dataset, persistOk);
    }
    hide Inv;
  }

  lemma {:induction false} RunInv(s: Server, events: seq<Event>)
    requires Inv(s) && IsRun(s, events)
    ensures Inv(After(s, events))
    decreases |events|
  {
    if events != [] {
      StepInv(s, events[0]);
      hide Inv, Enabled, Next;
      RunInv(Next(s, events[0]), events[1..]);
    }
  }

  /** The disk operations of every handler, carried out in their order, end in the handler's next state. */
  lemma ProgramEnds(s: Server, e: Event)
    requires Inv(s) && Enabled(s, e)
    ensures DoAll(DiskOf(s), Program(s, e)) == DiskOf(Next(s, e))
  {
    if !e.Crash? {
      RestSurvives(s, e);
      DoAllAppend(DiskOf(s), FlushPart(s, e), RestPart(s, e));
      RestEnds(s, e);
    }
    hide Inv, DoAll, Survives;
  }

  lemma RestEnds(s: Server, e: Event)
    requires Enabled(s, e) && !e.Crash?
    ensures DoAll(DiskOf(Flushed(s, e)), RestPart(s, e)) == DiskOf(Next(s, e))
  {
    var s1 := Flushed(s, e);
    match e {
      case RewriteStart(openOk, persistOk, forkOk) =>
        StartRewriteProgram(s1, openOk, persistOk, forkOk);
        assert StartRewriteOps(s1, openOk, persistOk) == StartRewriteOps(s, openOk, persistOk);
      case RewriteSuccess(baseOk, incrOk, persistOk) => FinishProgram(s, baseOk, incrOk, persistOk);
      case RewriteFailed => CleanupProgram(s);
      case DeleteHistory(persistOk) => HistoryProgram(s, persistOk);
      case StopAppendOnly(_) => Two(DiskOf(s1), Persist(s.mem), []);
      case Start(persistOk) =>
        OpenProgram(s);
        HistoryProgram(OpenOnStart(s), persistOk);
        DoAllAppend(DiskOf(s), OpenOps(s.disk), HistoryOps(StartManifest(s.disk), persistOk));
      case StartOff(dataset, persistOk) => HistoryProgram(BareOff(s, dataset), persistOk);
      case _ =>
    }
    hide DoAll, FinishOps, FinishRewrite, StartRewrite, HistoryOps, OpenOps, CleanupOps, RemoveHistory, StartManifest;
  }

  // ---------------------------------------------------------------- main results

  /** Whatever happened before, while AOF is on the manifest on disk names existing files only, and
      loading them gives everything executed so far except what is still in the buffer, once and in
      order: nothing flushed is lost or doubled by rewrites, failures, crashes, starts or switching AOF. */
  lemma ChainCoversDataset(s: Server, events: seq<Event>)
    requires Initial(s) && IsRun(s, events)
    ensures var t := After(s, events);
      && AllExist(t.files, t.disk)
      && (t.state.AofOn? ==> Load(t.files, t.disk) + t.buf == t.log)
  {
    InitialInv(s);
    hide Inv;
    RunInv(s, events);
    var t := After(s, events);
    assert AllExist(t.files, t.disk) by {
      FlushedLoads(t);
    }
    FlushedLoads(t);
    hide DiskInv, Load;
  }

  lemma InitialInv(s: Server)
    requires Initial(s)
    ensures Inv(s)
  {
  }

  /** A crash while AOF is on, between any two disk operations of any handler, loses at most the buffer: the
      next start is safe and executes exactly what had been written, and has it in its files. */
  lemma CrashRestores(s: Server, events: seq<Event>, during: Event, ops: nat, persistOk: bool)
    requires Initial(s) && IsRun(s, events) && After(s, events).state.AofOn?
    requires Enabled(After(s, events), Crash(during, ops))
    ensures var t := After(s, events); var c := Next(t, Crash(during, ops));
      && AllExist(c.files, c.disk) && Enabled(c, Start(persistOk))
      && var u := Next(c, Start(persistOk));
         u.log + Unflushed(t, during, ops) == t.log && AllExist(u.files, u.disk) && Load(u.files, u.disk) == u.log
  {
    InitialInv(s);
    hide Inv;
    RunInv(s, events);
    hide *;
    CrashedServerRestores(After(s, events), during, ops, persistOk);
  }

  lemma CrashedServerRestores(t: Server, during: Event, ops: nat, persistOk: bool)
    requires Inv(t) && t.state.AofOn? && Enabled(t, Crash(during, ops))
    ensures var c := Next(t, Crash(during, ops));
      && AllExist(c.files, c.disk) && Enabled(c, Start(persistOk))
      && var u := Next(c, Start(persistOk));
         u.log + Unflushed(t, during, ops) == t.log && AllExist(u.files, u.disk) && Load(u.files, u.disk) == u.log
  {
    var c := Next(t, Crash(during, ops));
    CutSurvives(t, during, ops);
    CrashInv(t, during, ops);
    CrashedIs(t, during, ops);
    assert StartIsSafe(c);
    assert Enabled(c, Start(persistOk)) && Next(c, Start(persistOk)) == StartServer(c, persistOk);
    hide *;
    StartInv(c, persistOk);
    FlushedLoads(c);
    FlushedLoads(StartServer(c, persistOk));
    LoadDiskIs(c);
    DiskNames(c);
    DiskNames(StartServer(c, persistOk));
  }

  lemma CrashedIs(t: Server, during: Event, ops: nat)
    requires Enabled(t, Crash(during, ops))
    ensures var c := Next(t, Crash(during, ops));
      DiskOf(c) == DoAll(DiskOf(t), Program(t, during)[..ops]) && c.state.Down? && c.log == t.log
  {
  }

  lemma DiskNames(s: Server)
    requires DiskInv(DiskOf(s))
    ensures AllExist(s.files, s.disk)
  {
  }

  /** A start may itself be cut anywhere, and again: the next one is still safe and loads the same. */
  lemma StartCanCrash(s: Server, ops: nat, persistOk: bool)
    requires Inv(s) && Enabled(s, Crash(Start(persistOk), ops))
    ensures var c := Next(s, Crash(Start(persistOk), ops));
      Inv(c) && StartIsSafe(c) && Load(c.files, c.disk) == Load(s.files, s.disk)
  {
    CutSurvives(s, Start(persistOk), ops);
    CrashInv(s, Start(persistOk), ops);
    if s.disk.incr == [] {
      CutStartIsSafe(s, ops, persistOk);
    }
    hide DoAll, Load, Inv, Program;
  }

  lemma CutStartIsSafe(s: Server, ops: nat, persistOk: bool)
    requires Inv(s) && s.state.Down? && StartIsSafe(s) && s.disk.incr == []
    requires ops <= |Program(s, Start(persistOk))|
    ensures var d := DoAll(DiskOf(s), Program(s, Start(persistOk))[..ops]);
      d.manifest.incr == [] ==> ContentOf(d.files, IncrFile(1)) == "" && IncrFile(1) !in d.manifest.history
  {
    var a, b := OpenOps(s.disk), HistoryOps(StartManifest(s.disk), persistOk);
    OpenIsAside(s.disk);
    hide OpenOps, HistoryOps, OpenAside, DoAll, Inv, StartIsSafe;
    if ops < |a| {
      assert (a + b)[..ops] == OpenAside(s.disk)[..ops];
      OpenAsideLeaves(s, ops);
      EmptyChainIsSafe(s);
    } else {
      assert (a + b)[..ops] == a + b[..ops - |a|];
      DoAllAppend(DiskOf(s), a, b[..ops - |a|]);
      OpenProgram(s);
      HistoryAfterOpen(s, ops - |a|, persistOk);
    }
  }

  lemma EmptyChainIsSafe(s: Server)
    requires StartIsSafe(s) && s.disk.incr == []
    ensures IncrFile(1) !in s.disk.history
  {
  }

  lemma HistoryAfterOpen(s: Server, ops: nat, persistOk: bool)
    requires Inv(s) && s.state.Down? && StartIsSafe(s) && s.disk.incr == []
    requires ops <= |HistoryOps(StartManifest(s.disk), persistOk)|
    ensures DoAll(DiskOf(OpenOnStart(s)), HistoryOps(StartManifest(s.disk), persistOk)[..ops]).manifest.incr != []
  {
    var s1, b := OpenOnStart(s), HistoryOps(StartManifest(s.disk), persistOk);
    OpenLoads(s);
    OpenMem(s);
    StartManifestShape(s.disk);
    hide Load, OpenOnStart, StartManifest, HistoryOps, DoAll, Inv;
    HistorySurvives(s1, persistOk);
    assert SurvivesAt(DiskOf(s1), b, ops, true);
  }

  lemma OpenAsideLeaves(s: Server, ops: nat)
    requires StartIsSafe(s) && s.disk.incr == [] && ops <= |OpenAside(s.disk)|
    ensures var d := DoAll(DiskOf(s), OpenAside(s.disk)[..ops]);
      d.manifest == s.disk && ContentOf(d.files, IncrFile(1)) == ""
  {
    var all := OpenAside(s.disk);
    assert Last(StartManifest(s.disk)) == IncrFile(1);
    assert all[..0] == [] && all[..|all|] == all && (|all| == 2 ==> all[..1] == [all[0]] && all == [all[0]] + [all[1]]);
    Two(DiskOf(s), all[0], []);
    if |all| == 2 {
      Two(DiskOf(s), all[0], [all[1]]);
      Two(Do(DiskOf(s), all[0]), all[1], []);
    }
  }

  /** All files that the manifest on disk names exist, and loading them gives what was executed. */
  predicate ChainIsRight(s: Server) {
    AllExist(s.files, s.disk) && Load(s.files, s.disk) == s.log
  }

  /** A start with AOF enabled, the deletion of history files included, leaves a chain that is right exactly
      when it either finds an incremental file in the manifest, or finds none of the first name with
      anything in it and none of the first name waiting to be deleted. */
  lemma StartIffSafe(s: Server, persistOk: bool)
    requires DiskInv(DiskOf(s))
    ensures ChainIsRight(StartServer(s, persistOk)) <==> StartIsSafe(s)
  {
    var s0, s1 := OpenOnStart(s), StartServer(s, persistOk);
    if StartIsSafe(s) {
      OpenLoads(s);
      OpenMem(s);
      DeletedInv(s0, persistOk);
      hide Load, StartManifest;
    } else {
      UnsafeStart(s, persistOk);
    }
  }

  lemma UnsafeStart(s: Server, persistOk: bool)
    requires DiskInv(DiskOf(s)) && !StartIsSafe(s)
    ensures !ChainIsRight(StartServer(s, persistOk))
  {
    var s0, s1 := OpenOnStart(s), StartServer(s, persistOk);
    UnsafeNames(s, persistOk);
    if IncrFile(1) in s.disk.history {
      assert IncrFile(1) !in s1.files && 1 in s1.disk.incr;
    } else {
      UnsafeContent(s, persistOk);
      var base := if s.disk.base.Some? then ContentOf(s.files, BaseFile(s.disk.base.value)) else "";
      assert [1][..0] == [] && LoadIncr(s1.files, []) == "" && LoadIncr(s.files, []) == "";
      assert LoadIncr(s1.files, [1]) == "" + ContentOf(s.files, IncrFile(1));
      assert s1.log == base + "" && Load(s1.files, s1.disk) == base + ContentOf(s.files, IncrFile(1));
      assert |base + ContentOf(s.files, IncrFile(1))| > |base|;
    }
  }

  lemma UnsafeNames(s: Server, persistOk: bool)
    requires s.disk.incr == []
    ensures var s1 := StartServer(s, persistOk);
      && s1.disk.incr == [1] && s1.log == Load(s.files, s.disk)
      && s1.disk.base == (if s.disk.base.None? then Some(1) else s.disk.base)
      && (IncrFile(1) in s.disk.history ==> IncrFile(1) !in s1.files)
  {
    assert [] + s.disk.history == s.disk.history;
    hide Load;
  }

  lemma UnsafeContent(s: Server, persistOk: bool)
    requires DiskInv(DiskOf(s)) && s.disk.incr == [] && IncrFile(1) !in s.disk.history
    ensures var s1 := StartServer(s, persistOk);
      && ContentOf(s1.files, IncrFile(1)) == ContentOf(s.files, IncrFile(1))
      && ContentOf(s1.files, BaseFile(if s.disk.base.Some? then s.disk.base.value else 1)) ==
         (if s.disk.base.Some? then ContentOf(s.files, BaseFile(s.disk.base.value)) else "")
  {
    var base := BaseFile(if s.disk.base.Some? then s.disk.base.value else 1);
    assert base !in s.disk.history by {
      assert base in s.disk.history ==> Superseded(base, s.disk);
    }
    assert [] + s.disk.history == s.disk.history;
    hide Load;
  }

  // ---------------------------------------------------------------- reachable starts that fail

  lemma {:induction false} RunSnoc(s: Server, events: seq<Event>, e: Event)
    requires IsRun(s, events) && Enabled(After(s, events), e)
    ensures IsRun(s, events + [e]) && After(s, events + [e]) == Next(After(s, events), e)
    decreases |events|
  {
    if events == [] {
      assert events + [e] == [e] && [e][1..] == [];
    } else {
      RunSnoc(Next(s, events[0]), events[1..], e);
      assert (events + [e])[1..] == events[1..] + [e];
    }
  }

  ghost predicate Reachable(t: Server) {
    exists s, events :: Initial(s) && IsRun(s, events) && After(s, events) == t
  }

  lemma Step(t: Server, e: Event) returns (u: Server)
    requires Reachable(t) && Enabled(t, e)
    ensures Reachable(u) && u == Next(t, e)
  {
    var s, events :| Initial(s) && IsRun(s, events) && After(s, events) == t;
    RunSnoc(s, events, e);
    u := Next(t, e);
  }

  /** The server is killed between two handlers. */
  const KILL := Crash(Write(""), 0)

  lemma Kill(t: Server) returns (u: Server)
    requires Reachable(t) && !t.state.Down?
    ensures Reachable(u) && u == Crashed(t, DiskOf(t))
  {
    hide Reachable;
    assert Program(t, KILL) == [] && DoAll(DiskOf(t), []) == DiskOf(t);
    u := Step(t, KILL);
  }

  lemma NeverUsed() returns (t: Server)
    ensures Reachable(t) && t == Server(AofOff, EMPTY, EMPTY, map[], Closed, None, "", "")
  {
    t := Server(AofOff, EMPTY, EMPTY, map[], Closed, None, "", "");
    assert Initial(t) && IsRun(t, []) && After(t, []) == t;
  }

  /** A command is logged and AOF is switched off. */
  lemma SwitchedOff() returns (t: Server)
    ensures Reachable(t)
    ensures t == Server(AofOff, t.mem, t.mem, t.files, Closed, None, "", "a")
    ensures t.mem == Manifest(Some(1), [1], [], 1, 1) && ContentOf(t.files, IncrFile(1)) == "a"
  {
    t := NeverUsed();
    hide Reachable;
    t := Kill(t);
    t := Step(t, Start(true));
    assert t.mem == Manifest(Some(1), [1], [], 1, 1) && t.files == map[BaseFile(1) := "", IncrFile(1) := ""];
    t := Step(t, Write("a"));
    t := Step(t, Flush(1));
    t := Step(t, StopAppendOnly(true));
    assert "" + "" + "a" == "a" && "a"[..1] == "a";
  }

  /** A rewrite while AOF is off leaves no incremental file in the chain. */
  lemma RewrittenWhileOff() returns (t: Server)
    ensures Reachable(t) && t.state.AofOff? && t.disk == t.mem && t.child.None?
    ensures t.mem.incr == [] && t.mem.history == [IncrFile(1), BaseFile(1)]
    ensures ContentOf(t.files, IncrFile(1)) == "a"
  {
    t := SwitchedOff();
    hide Reachable;
    t := Step(t, RewriteStart(true, true, true));
    var nums, m := t.mem.incr, GetNewBase(t.mem);
    t := Step(t, RewriteSuccess(true, true, true));
    assert m.incr[..1] == nums && IncrNames(nums) == [IncrFile(1)] && m.history == [BaseFile(1)] + [];
    assert t.mem.history == IncrNames(nums) + m.history;
    assert [IncrFile(1)] + ([BaseFile(1)] + []) == [IncrFile(1), BaseFile(1)];
  }

  /** Its history files are not yet deleted when the server is killed: the next start with AOF enabled
      appends to one of them, and then deletes it. */
  lemma HistoryFileReopened()
    ensures exists t :: Reachable(t) && t.state.Down? && !StartIsSafe(t) && ContentOf(t.files, IncrFile(1)) != ""
  {
    var t := RewrittenWhileOff();
    hide Reachable;
    t := Kill(t);
  }

  /** They are deleted, but the manifest without them is not persisted: the start creates the first
      incremental file and then deletes it. */
  lemma NewFileDeleted()
    ensures exists t :: Reachable(t) && t.state.Down? && !StartIsSafe(t) && IncrFile(1) !in t.files
  {
    var t := RewrittenWhileOff();
    hide Reachable;
    t := Step(t, DeleteHistory(false));
    t := Kill(t);
  }

  /** Switching AOF on is cut between the rename of the temporary incremental file and the manifest: the next
      start with AOF enabled finds a file that no manifest names and appends to it. */
  lemma OrphanAdopted()
    ensures exists t :: Reachable(t) && t.state.Down? && !StartIsSafe(t) && t.disk == EMPTY
  {
    var t := NeverUsed();
    hide Reachable;
    t := Step(t, StartAppendOnly);
    t := Step(t, RewriteStart(true, true, true));
    t := Step(t, Write("a"));
    t := Step(t, Flush(1));
    assert t.state.WaitRewrite? && t.mem == t.disk == EMPTY && ContentOf(t.files, TempIncr) == "a" && t.child.Some?;
    var ops := FinishOps(t, true, true, true);
    var base, incr := Install(BaseFile(1), t.child.value), Rename(TempIncr, IncrFile(1));
    assert ops[..2] == [base, incr] == [base] + [incr];
    Two(DiskOf(t), base, [incr]);
    Two(Do(DiskOf(t), base), incr, []);
    t := Step(t, Crash(RewriteSuccess(true, true, true), 2));
  }

  // ---------------------------------------------------------------- the forced flush

  /** A rewrite is worth its base file only when its forced flush empties the buffer: a rest of the
      buffer is in the snapshot of the child and is written again behind it. */
  lemma RewriteAfterPartialFlush(s: Server, s1: Server)
    requires Inv(s) && s.state.AofOn? && s.child.None?
    requires s1 == FinishRewrite(StartRewrite(s, true, true, true), true, true, true)
    ensures Load(s1.files, s1.mem) + s1.buf == s1.log <==> s.buf == ""
  {
    var num, base := s.mem.currIncr + 1, s.mem.currBase + 1;
    RewrittenFiles(s, s1);
    hide *;
    LoadRewritten(s1.files, base, num, base, s1.mem.history);
    LoadSame(s1.files, s1.mem, Manifest(Some(base), [num], s1.mem.history, base, num));
    assert |s.log + s.buf| == |s.log| + |s.buf| && s.log + "" == s.log;
  }

  lemma RewrittenFiles(s: Server, s1: Server)
    requires Inv(s) && s.state.AofOn? && s.child.None?
    requires s1 == FinishRewrite(StartRewrite(s, true, true, true), true, true, true)
    ensures var num, base := s.mem.currIncr + 1, s.mem.currBase + 1;
      && s1.mem.base == Some(base) && s1.mem.incr == [num] && s1.buf == s.buf && s1.log == s.log
      && ContentOf(s1.files, BaseFile(base)) == s.log && ContentOf(s1.files, IncrFile(num)) == ""
  {
    hide *;
    var s0, m := StartRewrite(s, true, true, true), GetNewIncr(s.mem);
    StartedOn(s);
    FinishedOn(s0);
    NewIncrShape(s.mem) by {
      InvShape(s);
    }
    NewIncrFields(s.mem);
    MarkedShape(m, true);
    ContentUpdated(s0.files, s1.files, s.mem.currBase + 1, s.mem.currIncr + 1, s.log);
  }

  lemma InvShape(s: Server)
    requires Inv(s) && !s.state.Down?
    ensures ManifestShape(s.mem)
  {
  }

  lemma NewIncrFields(m: Manifest)
    ensures var m1 := GetNewIncr(m);
      m1.incr != [] && m1.incr[|m1.incr| - 1] == m.currIncr + 1 && m1.currBase == m.currBase && m1.currIncr == m.currIncr + 1
  {
  }

  lemma ContentUpdated(files: Files, files1: Files, base: nat, num: nat, log: string)
    requires files1 == files[BaseFile(base) := log] && ContentOf(files, IncrFile(num)) == ""
    ensures ContentOf(files1, BaseFile(base)) == log && ContentOf(files1, IncrFile(num)) == ""
  {
  }

  lemma StartedOn(s: Server)
    requires s.state.AofOn?
    ensures var s0, m := StartRewrite(s, true, true, true), GetNewIncr(s.mem);
      && s0.state.AofOn? && s0.mem == m && s0.fd == Open(IncrFile(s.mem.currIncr + 1)) && s0.child == Some(s.log)
      && ContentOf(s0.files, IncrFile(s.mem.currIncr + 1)) == "" && s0.buf == s.buf && s0.log == s.log
  {
  }

  lemma FinishedOn(s: Server)
    requires s.state.AofOn? && s.child.Some? && !s.fd.Closed?
    ensures var s1 := FinishRewrite(s, true, true, true);
      && s1.mem == MarkRewritten(GetNewBase(s.mem), true) && s1.buf == s.buf && s1.log == s.log
      && s1.files == s.files[BaseFile(s.mem.currBase + 1) := s.child.value]
  {
    hide MarkRewritten;
  }
}
