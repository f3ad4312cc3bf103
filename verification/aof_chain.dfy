/** Runs in which commands are fed: every incremental file of the chain decodes on its own, from no selected
    database, to the commands that were fed while it was open. */
module AofChain {
  import opened Wrappers
  import opened AofLog
  import opened AofLoader
  import opened AofResume
  import opened AofManifest
  import opened AofSafety
  import opened AofCrash
  import opened AofRuns

  /** What was fed while a file was open, and the database that its loader has selected in the end. */
  datatype Tale = Tale(fed: seq<Executed>, db: int)

  /** The server, server.aof_selected_db, and what was fed while each file was open. */
  datatype Writer = Writer(s: Server, selected: int, tales: map<FileName, Tale>)

  datatype Step =
    | Feed(f: Fed)
    /** The loader truncates the last file behind its last whole command. */
    | Repair
    | Act(e: Event)

  const BLANK := Tale([], 0)

  function TaleOf(tales: map<FileName, Tale>, name: FileName): Tale {
    if name in tales then tales[name] else BLANK
  }

  /** One more command; without a database it runs in the one selected before. */
  function Longer(t: Tale, f: Fed): Tale {
    Tale(t.fed + [Executed(SelectedAfter(f, t.db), f.argv)], SelectedAfter(f, t.db))
  }

  function Loaded1(file: string): Tale {
    var r := LoadFrom(file, 0, 0, 0);
    Tale(r.commands, r.db)
  }

  /** The file loads without a short read and does not end inside an annotation. */
  predicate Clean(file: string) {
    LoadFrom(file, 0, 0, 0).status == Complete && !Unended(file)
  }

  /** What is fed reaches the buffer. */
  predicate Feeding(s: Server) {
    s.state.AofOn? || (s.state.WaitRewrite? && s.child.Some?)
  }

  predicate Starts(e: Event) {
    e.Start? || (e.Crash? && e.during.Start?)
  }

  predicate Writes(e: Event) {
    e.Write? || (e.Crash? && e.during.Write?)
  }

  predicate CanStep(w: Writer, step: Step) {
    match step
    case Feed(f) => ValidFed(f) && !w.s.state.Down?
    case Repair => w.s.state.Down? && w.s.disk.incr != []
    case Act(e) =>
      && !Writes(e) && Enabled(w.s, e)
      && (Starts(e) && w.s.disk.incr != [] ==> Clean(ContentOf(w.s.files, Last(w.s.disk))))
  }

  /** New files are empty, the temporary file keeps what it has when it gets its number, and a start takes
      over what it has loaded. */
  function TalesAfter(s: Server, tales: map<FileName, Tale>, e: Event): map<FileName, Tale> {
    match e
    case RewriteStart(openOk, persistOk, _) =>
      if s.state.AofOn? && openOk && persistOk then tales[IncrFile(s.mem.currIncr + 1) := BLANK]
      else if s.state.WaitRewrite? && openOk then tales[TempIncr := BLANK]
      else tales
    case RewriteSuccess(baseOk, incrOk, persistOk) =>
      if s.state.WaitRewrite? && baseOk && incrOk && persistOk
      then tales[IncrFile(s.mem.currIncr + 1) := TaleOf(tales, TempIncr)] else tales
    case Start(_) =>
      tales[Last(StartManifest(s.disk)) :=
        if s.disk.incr == [] then BLANK else Loaded1(ContentOf(s.files, Last(s.disk)))]
    case Crash(during, _) => TalesAfter(s, tales, during)
    case _ => tales
  }

  /** A rewrite and a stop forget the selected database, and a new process knows of none. */
  function SelectedBy(selected: int, e: Event): int {
    match e
    case RewriteStart(_, _, _) => -1
    case StopAppendOnly(_) => -1
    case Start(_) => -1
    case StartOff(_, _) => -1
    case Crash(_, _) => -1
    case _ => selected
  }

  /** feedAppendOnlyFile, which is not called while AOF is off. */
  function AfterFeed(w: Writer, f: Fed): Writer
    requires !w.s.state.Down?
  {
    Writer(Next(w.s, Write(AllBytes(FedEntries(f, w.selected)))),
           if w.s.state.AofOff? then w.selected else SelectedAfter(f, w.selected),
           if Feeding(w.s) && w.s.fd.Open? then w.tales[w.s.fd.name := Longer(TaleOf(w.tales, w.s.fd.name), f)] else w.tales)
  }

  function AfterRepair(s: Server): Server
    requires s.disk.incr != []
  {
    s.(files := s.files[Last(s.disk) := AfterLoad(ContentOf(s.files, Last(s.disk)))])
  }

  function StepTo(w: Writer, step: Step): Writer
    requires CanStep(w, step)
  {
    match step
    case Feed(f) => AfterFeed(w, f)
    case Repair => w.(s := AfterRepair(w.s))
    case Act(e) => Writer(Next(w.s, e), SelectedBy(w.selected, e), TalesAfter(w.s, w.tales, e))
  }

  predicate IsHistory(w: Writer, steps: seq<Step>)
    decreases |steps|
  {
    steps == [] || (CanStep(w, steps[0]) && IsHistory(StepTo(w, steps[0]), steps[1..]))
  }

  function AfterSteps(w: Writer, steps: seq<Step>): Writer
    requires IsHistory(w, steps)
    decreases |steps|
  {
    if steps == [] then w else AfterSteps(StepTo(w, steps[0]), steps[1..])
  }

  // ---------------------------------------------------------------- what a file holds

  ghost predicate Tells(entries: seq<Entry>, content: string, t: Tale) {
    AllValid(entries) && AllBytes(entries) == content && Meaning(entries, 0) == t.fed && EndDb(entries, 0) == t.db
  }

  /** The file consists of whole entries that mean what was fed. */
  ghost predicate Holds(content: string, t: Tale) {
    exists entries :: Tells(entries, content, t)
  }

  /** The file is what is left of such a file. */
  ghost predicate HoldsFront(content: string, t: Tale) {
    exists whole :: Holds(whole, t) && content <= whole
  }

  lemma HoldsNothing()
    ensures Holds("", BLANK)
  {
    assert Tells([], "", BLANK);
  }

  lemma HoldsMore(content: string, t: Tale, f: Fed, selected: int)
    requires Holds(content, t) && ValidFed(f) && (selected == -1 || selected == t.db)
    ensures Holds(content + AllBytes(FedEntries(f, selected)), Longer(t, f))
  {
    var entries :| Tells(entries, content, t);
    var more := FedEntries(f, selected);
    FedMeaning(f, selected, t.db);
    MeaningAppend(entries, more, 0);
    AllBytesAppend(entries, more);
    FedIsValid(f, selected);
    hide Meaning, EndDb, AllBytes, FedEntries, ValidEntry;
    assert Tells(entries + more, content + AllBytes(more), Longer(t, f));
  }

  lemma FedIsValid(f: Fed, selected: int)
    requires ValidFed(f)
    ensures AllValid(FedEntries(f, selected))
  {
    if f.dict >= 0 {
      SelectIsSelect(f.dict);
    }
  }

  lemma HoldsLoads(content: string, t: Tale)
    requires Holds(content, t)
    ensures var r := LoadFrom(content, 0, 0, 0); r.commands == t.fed && r.db == t.db && r.status == Complete
  {
    var entries :| Tells(entries, content, t);
    assert content[0..] == content;
    hide LoadFrom, Meaning, EndDb, AllBytes, ValidEntry;
    LoadWhole(content, 0, entries, 0, 0);
  }

  lemma FrontLoads(content: string, t: Tale)
    requires HoldsFront(content, t)
    ensures var r := LoadFrom(content, 0, 0, 0); r.commands <= t.fed && r.status != Corrupt
    ensures HoldsFront(AfterLoad(content), t)
    ensures Clean(content) ==> Holds(content, Loaded1(content))
  {
    var whole :| Holds(whole, t) && content <= whole;
    var entries :| Tells(entries, whole, t);
    assert content == AllBytes(entries)[..|content|];
    hide LoadFrom, Meaning, EndDb, AllBytes, ValidEntry, AfterLoad, Holds;
    var kept, part := AfterLoadOfCut(entries, |content|);
    assert AfterLoad(content) <= whole;
    if Clean(content) {
      CleanIsLeft(content);
      assert AllBytes(kept) + "" == AllBytes(kept);
      assert Tells(kept, content, Loaded1(content));
      HoldsIs(kept, content, Loaded1(content));
    }
  }

  /** What the loader leaves of a cut file loads without a short read, and as the file itself did. */
  lemma FrontRepairs(content: string, t: Tale)
    requires HoldsFront(content, t)
    ensures var r, r1 := LoadFrom(content, 0, 0, 0), LoadFrom(AfterLoad(content), 0, 0, 0);
      r1.commands == r.commands && r1.db == r.db && r1.status == Complete
  {
    var whole :| Holds(whole, t) && content <= whole;
    var entries :| Tells(entries, whole, t);
    assert content == AllBytes(entries)[..|content|];
    assert AllValid(entries) && AllBytes([]) == "" && Meaning([], 0) == [] && AllValid([]);
    hide *;
    var kept, part := AfterLoadOfCut(entries, |content|);
    LoadResumed(kept, part, []);
    NoMeaning(EndDb(kept, 0));
    assert AllBytes(kept) + part + "" == AllBytes(kept) + part;
  }

  lemma HoldsIs(entries: seq<Entry>, content: string, t: Tale)
    requires Tells(entries, content, t)
    ensures Holds(content, t)
  {
  }

  lemma CleanIsLeft(content: string)
    requires Clean(content)
    ensures AfterLoad(content) == content && !Unended(content)
  {
    hide LoadFrom;
  }

  lemma HoldsIsFront(content: string, t: Tale, front: string)
    requires Holds(content, t) && front <= content
    ensures HoldsFront(front, t)
  {
    hide Holds;
  }

  // ---------------------------------------------------------------- the named files

  ghost predicate NamedHold(files: Files, incr: seq<nat>, tales: map<FileName, Tale>) {
    forall i | 0 <= i < |incr| :: NumberHolds(files, incr[i], i == |incr| - 1, tales)
  }

  /** The last file may have lost its tail. */
  ghost predicate NumberHolds(files: Files, n: nat, last: bool, tales: map<FileName, Tale>) {
    var content, t := ContentOf(files, IncrFile(n)), TaleOf(tales, IncrFile(n));
    if last then HoldsFront(content, t) else Holds(content, t)
  }

  lemma NamedFrame(files: Files, files1: Files, incr: seq<nat>, tales: map<FileName, Tale>, tales1: map<FileName, Tale>)
    requires NamedHold(files, incr, tales)
    requires forall n | n in incr :: ContentOf(files1, IncrFile(n)) == ContentOf(files, IncrFile(n))
    requires forall n | n in incr :: TaleOf(tales1, IncrFile(n)) == TaleOf(tales, IncrFile(n))
    ensures NamedHold(files1, incr, tales1)
  {
    hide Holds, HoldsFront, ContentOf, TaleOf;
    forall i | 0 <= i < |incr|
      ensures NumberHolds(files1, incr[i], i == |incr| - 1, tales1)
    {
      assert NumberHolds(files, incr[i], i == |incr| - 1, tales) && incr[i] in incr;
    }
  }

  /** Only the last file changes. */
  lemma NamedLast(files: Files, files1: Files, incr: seq<nat>, tales: map<FileName, Tale>, tales1: map<FileName, Tale>)
    requires NamedHold(files, incr, tales) && incr != []
    requires forall i | 0 <= i < |incr| - 1 :: ContentOf(files1, IncrFile(incr[i])) == ContentOf(files, IncrFile(incr[i]))
    requires forall i | 0 <= i < |incr| - 1 :: TaleOf(tales1, IncrFile(incr[i])) == TaleOf(tales, IncrFile(incr[i]))
    requires var n := incr[|incr| - 1]; HoldsFront(ContentOf(files1, IncrFile(n)), TaleOf(tales1, IncrFile(n)))
    ensures NamedHold(files1, incr, tales1)
  {
    hide Holds, HoldsFront, ContentOf, TaleOf;
    forall i | 0 <= i < |incr|
      ensures NumberHolds(files1, incr[i], i == |incr| - 1, tales1)
    {
      assert NumberHolds(files, incr[i], i == |incr| - 1, tales);
    }
  }

  /** A new last file is added behind one that holds all it was fed. */
  lemma NamedNew(files: Files, files1: Files, incr: seq<nat>, n: nat, tales: map<FileName, Tale>, tales1: map<FileName, Tale>)
    requires NamedHold(files, incr, tales)
    requires incr != [] ==> var m := incr[|incr| - 1]; Holds(ContentOf(files, IncrFile(m)), TaleOf(tales, IncrFile(m)))
    requires forall m | m in incr :: ContentOf(files1, IncrFile(m)) == ContentOf(files, IncrFile(m))
    requires forall m | m in incr :: TaleOf(tales1, IncrFile(m)) == TaleOf(tales, IncrFile(m))
    requires HoldsFront(ContentOf(files1, IncrFile(n)), TaleOf(tales1, IncrFile(n)))
    ensures NamedHold(files1, incr + [n], tales1)
  {
    hide Holds, HoldsFront, ContentOf, TaleOf;
    var all := incr + [n];
    forall i | 0 <= i < |all|
      ensures NumberHolds(files1, all[i], i == |all| - 1, tales1)
    {
      if i < |incr| {
        assert NumberHolds(files, incr[i], i == |incr| - 1, tales) && incr[i] in incr;
      }
    }
  }

  // ---------------------------------------------------------------- the invariant

  /** The file that is open holds, with the buffer, all that it was fed, and the writer's idea of the selected
      database is none or the loader's. */
  ghost predicate OpenHolds(w: Writer) {
    Feeding(w.s) ==>
      && w.s.fd.Open?
      && var t := TaleOf(w.tales, w.s.fd.name);
         Holds(ContentOf(w.s.files, w.s.fd.name) + w.s.buf, t) && (w.selected == -1 || w.selected == t.db)
  }

  ghost predicate ChainInv(w: Writer) {
    Inv(w.s) && NamedHold(w.s.files, w.s.disk.incr, w.tales) && OpenHolds(w)
  }

  /** What the earlier invariant says about the open file. */
  lemma OpenFile(s: Server)
    requires Inv(s) && Feeding(s)
    ensures s.fd.Open?
    ensures s.state.AofOn? ==> s.disk.incr != [] && s.fd.name == IncrFile(s.disk.incr[|s.disk.incr| - 1])
    ensures s.state.WaitRewrite? ==> s.fd.name == TempIncr
    ensures s.state.AofOn? ==> forall i | 0 <= i < |s.disk.incr| - 1 :: IncrFile(s.disk.incr[i]) != s.fd.name
  {
    hide Load, DiskInv;
  }

  lemma FeedFields(w: Writer, f: Fed)
    requires !w.s.state.Down?
    ensures var s, w1 := w.s, AfterFeed(w, f);
      && w1.s == Next(s, Write(AllBytes(FedEntries(f, w.selected))))
      && w1.s.files == s.files && w1.s.disk == s.disk && w1.s.fd == s.fd && Feeding(w1.s) == Feeding(s)
      && (Feeding(s) ==> w1.s.buf == s.buf + AllBytes(FedEntries(f, w.selected)))
      && (Feeding(s) ==> w1.selected == SelectedAfter(f, w.selected))
      && (Feeding(s) && s.fd.Open? ==> w1.tales == w.tales[s.fd.name := Longer(TaleOf(w.tales, s.fd.name), f)])
      && (!Feeding(s) ==> w1.tales == w.tales)
  {
    hide FedEntries, AllBytes, SelectedAfter, Longer, TaleOf;
  }

  lemma FeedChain(w: Writer, f: Fed)
    requires ChainInv(w) && ValidFed(f) && !w.s.state.Down?
    ensures ChainInv(AfterFeed(w, f))
  {
    var w1 := AfterFeed(w, f);
    FeedFields(w, f);
    WriteInv(w.s, AllBytes(FedEntries(f, w.selected)));
    hide Inv, AfterFeed, Next;
    if Feeding(w.s) {
      OpenFile(w.s);
      hide Feeding;
      FeedOpen(w, f, w1);
    } else {
      NamedFrame(w.s.files, w1.s.files, w.s.disk.incr, w.tales, w1.tales);
    }
  }

  lemma FeedOpen(w: Writer, f: Fed, w1: Writer)
    requires Inv(w.s) && Feeding(w.s) && OpenHolds(w) && NamedHold(w.s.files, w.s.disk.incr, w.tales) && ValidFed(f)
    requires w1.s.files == w.s.files && w1.s.disk == w.s.disk && w1.s.fd == w.s.fd && Feeding(w1.s)
    requires w1.s.buf == w.s.buf + AllBytes(FedEntries(f, w.selected)) && w1.selected == SelectedAfter(f, w.selected)
    requires w.s.fd.Open? && w1.tales == w.tales[w.s.fd.name := Longer(TaleOf(w.tales, w.s.fd.name), f)]
    ensures OpenHolds(w1) && NamedHold(w1.s.files, w1.s.disk.incr, w1.tales)
  {
    hide *;
    OpenFile(w.s);
    var name, bytes := w.s.fd.name, AllBytes(FedEntries(f, w.selected));
    var content, t := ContentOf(w.s.files, name), TaleOf(w.tales, name);
    OpenIs(w);
    HoldsMore(content + w.s.buf, t, f, w.selected);
    LongerDb(t, f, w.selected);
    TaleChanged(w.tales, name, Longer(t, f));
    assert content + (w.s.buf + bytes) == content + w.s.buf + bytes;
    HoldsIsFront(content + w.s.buf + bytes, Longer(t, f), content);
    OpenIs(w1);
    NamedOpen(w.s, w1.s.files, w.tales, w1.tales);
  }

  lemma LongerDb(t: Tale, f: Fed, selected: int)
    requires selected == -1 || selected == t.db
    ensures SelectedAfter(f, selected) == -1 || SelectedAfter(f, selected) == Longer(t, f).db
  {
  }

  lemma TaleChanged(tales: map<FileName, Tale>, name: FileName, t: Tale)
    ensures var tales1 := tales[name := t];
      TaleOf(tales1, name) == t && forall o | o != name :: TaleOf(tales1, o) == TaleOf(tales, o)
  {
  }

  lemma OpenIs(w: Writer)
    ensures Feeding(w.s) && w.s.fd.Open? ==>
      var t := TaleOf(w.tales, w.s.fd.name);
      (OpenHolds(w) <==> Holds(ContentOf(w.s.files, w.s.fd.name) + w.s.buf, t) && (w.selected == -1 || w.selected == t.db))
  {
    hide Holds, ContentOf, TaleOf;
  }

  /** Only the open file changes. */
  lemma NamedOpen(s: Server, files1: Files, tales: map<FileName, Tale>, tales1: map<FileName, Tale>)
    requires Inv(s) && Feeding(s) && s.fd.Open? && NamedHold(s.files, s.disk.incr, tales)
    requires forall o | o != s.fd.name :: ContentOf(files1, o) == ContentOf(s.files, o) && TaleOf(tales1, o) == TaleOf(tales, o)
    requires HoldsFront(ContentOf(files1, s.fd.name), TaleOf(tales1, s.fd.name))
    ensures NamedHold(files1, s.disk.incr, tales1)
  {
    OpenFile(s);
    var on := s.state.AofOn?;
    assert on || s.state.WaitRewrite?;
    hide *;
    if on {
      NamedLast(s.files, files1, s.disk.incr, tales, tales1);
    } else {
      NamedFrame(s.files, files1, s.disk.incr, tales, tales1);
    }
  }

  // ---------------------------------------------------------------- the steps of the server

  lemma FlushFields(s: Server, n: nat)
    requires n <= |s.buf|
    ensures var s1 := FlushTo(s, n);
      && s1.disk == s.disk && s1.mem == s.mem && s1.fd == s.fd && s1.state == s.state && s1.child == s.child && s1.buf == s.buf[n..]
      && (forall o | s.fd != Open(o) :: ContentOf(s1.files, o) == ContentOf(s.files, o))
      && (s.fd.Open? ==> ContentOf(s1.files, s.fd.name) == ContentOf(s.files, s.fd.name) + s.buf[..n])
  {
  }

  lemma ChainIs(w: Writer)
    ensures ChainInv(w) <==> Inv(w.s) && NamedHold(w.s.files, w.s.disk.incr, w.tales) && OpenHolds(w)
    ensures !Feeding(w.s) ==> OpenHolds(w)
  {
    hide Inv, NamedHold, Holds;
  }

  lemma FlushChain(w: Writer, n: nat)
    requires ChainInv(w) && n <= |w.s.buf| && !w.s.state.Down?
    ensures ChainInv(w.(s := FlushTo(w.s, n)))
  {
    hide *;
    var s, s1 := w.s, FlushTo(w.s, n);
    ChainIs(w);
    ChainIs(w.(s := s1));
    FlushInv(s, n);
    FlushFields(s, n);
    SameFeeding(s, s1);
    if Feeding(s) {
      FlushOpen(w, n);
    } else {
      FlushClosed(s, n);
      NamedFrame(s.files, s1.files, s.disk.incr, w.tales, w.tales);
    }
  }

  lemma SameFeeding(s: Server, s1: Server)
    requires s.state == s1.state && (s.child.Some? <==> s1.child.Some?)
    ensures Feeding(s) == Feeding(s1)
  {
  }

  lemma FlushClosed(s: Server, n: nat)
    requires Inv(s) && !Feeding(s) && !s.state.Down? && n <= |s.buf|
    ensures forall o :: ContentOf(FlushTo(s, n).files, o) == ContentOf(s.files, o)
  {
    hide DiskInv, ManifestShape, Load;
    assert s.buf == "" && s.buf[..n] == "";
    assert forall o :: ContentOf(s.files, o) + "" == ContentOf(s.files, o);
  }

  lemma FlushOpen(w: Writer, n: nat)
    requires Inv(w.s) && NamedHold(w.s.files, w.s.disk.incr, w.tales) && OpenHolds(w) && Feeding(w.s) && n <= |w.s.buf|
    ensures var w1 := w.(s := FlushTo(w.s, n)); OpenHolds(w1) && NamedHold(w1.s.files, w1.s.disk.incr, w1.tales)
  {
    hide *;
    var s, w1 := w.s, w.(s := FlushTo(w.s, n));
    OpenFile(s);
    OpenIs(w);
    FlushFields(s, n);
    SameFeeding(s, w1.s);
    OpenIs(w1);
    var content := ContentOf(s.files, s.fd.name);
    assert s.buf == s.buf[..n] + s.buf[n..];
    assert content + s.buf[..n] + s.buf[n..] == content + s.buf;
    HoldsIsFront(content + s.buf, TaleOf(w.tales, s.fd.name), content + s.buf[..n]);
    NamedOpen(s, w1.s.files, w.tales, w.tales);
  }

  /** A rewrite begins, on a server whose buffer has been flushed. */
  lemma StartRewriteChain(w: Writer, openOk: bool, persistOk: bool, forkOk: bool)
    requires ChainInv(w) && w.s.buf == "" && !w.s.state.Down? && w.s.child.None?
    ensures ChainInv(Writer(StartRewrite(w.s, openOk, persistOk, forkOk), -1,
                            TalesAfter(w.s, w.tales, RewriteStart(openOk, persistOk, forkOk))))
  {
    hide *;
    var s, s1 := w.s, StartRewrite(w.s, openOk, persistOk, forkOk);
    var tales1 := TalesAfter(s, w.tales, RewriteStart(openOk, persistOk, forkOk));
    var w1 := Writer(s1, -1, tales1);
    ChainIs(w);
    ChainIs(w1);
    StartRewriteInv(s, openOk, persistOk, forkOk);
    if s.state.AofOn? {
      RewriteOnChain(w, openOk, persistOk, forkOk);
    } else {
      RewriteOtherFields(w, openOk, persistOk, forkOk);
      NamedFrame(s.files, s1.files, s.disk.incr, w.tales, tales1);
    }
  }

  /** While AOF is off, or is to be switched on, the named files stay as they are. */
  lemma RewriteOtherFields(w: Writer, openOk: bool, persistOk: bool, forkOk: bool)
    requires w.s.buf == "" && !w.s.state.Down? && !w.s.state.AofOn? && w.s.child.None?
    ensures var s, s1 := w.s, StartRewrite(w.s, openOk, persistOk, forkOk);
      var tales1 := TalesAfter(s, w.tales, RewriteStart(openOk, persistOk, forkOk));
      && s1.disk == s.disk
      && (forall o | o != TempIncr :: ContentOf(s1.files, o) == ContentOf(s.files, o) && TaleOf(tales1, o) == TaleOf(w.tales, o))
      && OpenHolds(Writer(s1, -1, tales1))
  {
    HoldsNothing();
    hide Holds;
    assert "" + w.s.buf == "";
  }

  lemma RewriteOnChain(w: Writer, openOk: bool, persistOk: bool, forkOk: bool)
    requires Inv(w.s) && NamedHold(w.s.files, w.s.disk.incr, w.tales) && OpenHolds(w)
    requires w.s.buf == "" && w.s.state.AofOn? && w.s.child.None?
    ensures var s1 := StartRewrite(w.s, openOk, persistOk, forkOk);
      var tales1 := TalesAfter(w.s, w.tales, RewriteStart(openOk, persistOk, forkOk));
      NamedHold(s1.files, s1.disk.incr, tales1) && OpenHolds(Writer(s1, -1, tales1))
  {
    hide *;
    var s, s1 := w.s, StartRewrite(w.s, openOk, persistOk, forkOk);
    var tales1 := TalesAfter(s, w.tales, RewriteStart(openOk, persistOk, forkOk));
    RewriteOnFields(w, openOk, persistOk, forkOk);
    OnFile(w);
    assert s.disk.incr[|s.disk.incr| - 1] in s.disk.incr;
    HoldsNothing();
    HoldsIsFront("", BLANK, "");
    OpenIs(Writer(s1, -1, tales1));
    if openOk && persistOk {
      NamedNew(s.files, s1.files, s.disk.incr, s.mem.currIncr + 1, w.tales, tales1);
    } else {
      NamedFrame(s.files, s1.files, s.disk.incr, w.tales, tales1);
    }
    assert ContentOf(s1.files, s1.fd.name) + s1.buf == ContentOf(s1.files, s1.fd.name);
  }

  lemma OnFile(w: Writer)
    requires Inv(w.s) && OpenHolds(w) && w.s.buf == "" && w.s.state.AofOn?
    ensures w.s.disk.incr != [] && var n := w.s.disk.incr[|w.s.disk.incr| - 1];
      w.s.fd == Open(IncrFile(n)) && Holds(ContentOf(w.s.files, IncrFile(n)), TaleOf(w.tales, IncrFile(n)))
  {
    OpenFile(w.s);
    hide Inv, Holds, ContentOf, TaleOf;
    var content := ContentOf(w.s.files, w.s.fd.name);
    assert content + w.s.buf == content;
  }

  lemma RewriteOnFields(w: Writer, openOk: bool, persistOk: bool, forkOk: bool)
    requires Inv(w.s) && w.s.buf == "" && w.s.state.AofOn? && w.s.child.None?
    ensures var s, s1 := w.s, StartRewrite(w.s, openOk, persistOk, forkOk);
      var tales1 := TalesAfter(s, w.tales, RewriteStart(openOk, persistOk, forkOk));
      var n := s.mem.currIncr + 1;
      && Feeding(s1) && s1.buf == "" && BLANK.db == 0
      && (forall o | o != IncrFile(n) :: ContentOf(s1.files, o) == ContentOf(s.files, o) && TaleOf(tales1, o) == TaleOf(w.tales, o))
      && (forall m | m in s.disk.incr :: m != n)
      && if openOk && persistOk then
           s1.disk.incr == s.disk.incr + [n] && s1.fd == Open(IncrFile(n)) &&
           ContentOf(s1.files, IncrFile(n)) == "" && TaleOf(tales1, IncrFile(n)) == BLANK
         else s1.disk == s.disk && s1.fd == s.fd && tales1 == w.tales
  {
    NumbersAreBounded(w.s.mem);
    hide DiskInv, Load;
  }

  lemma OpenSame(w: Writer, w1: Writer)
    requires OpenHolds(w) && Feeding(w.s) && w.s.fd.Open? && w1.s.fd.Open? && w1.s.buf == w.s.buf
    requires ContentOf(w1.s.files, w1.s.fd.name) == ContentOf(w.s.files, w.s.fd.name)
    requires TaleOf(w1.tales, w1.s.fd.name) == TaleOf(w.tales, w.s.fd.name)
    requires w1.selected == w.selected || w1.selected == -1
    ensures OpenHolds(w1)
  {
    hide Holds, ContentOf, TaleOf, Feeding;
  }

  /** A rewrite ends, with success or without. */
  lemma FinishChain(w: Writer, baseOk: bool, incrOk: bool, persistOk: bool)
    requires ChainInv(w) && !w.s.state.Down? && w.s.child.Some?
    ensures ChainInv(Writer(FinishRewrite(w.s, baseOk, incrOk, persistOk), w.selected,
                            TalesAfter(w.s, w.tales, RewriteSuccess(baseOk, incrOk, persistOk))))
  {
    var s, s1 := w.s, FinishRewrite(w.s, baseOk, incrOk, persistOk);
    var tales1 := TalesAfter(s, w.tales, RewriteSuccess(baseOk, incrOk, persistOk));
    var finishes, w1 := Finishes(s, baseOk, incrOk, persistOk), Writer(s1, w.selected, tales1);
    hide *;
    ChainIs(w);
    ChainIs(w1);
    FinishInv(s, baseOk, incrOk, persistOk);
    if !finishes {
      FailedFields(w, baseOk, incrOk, persistOk);
      NamedFrame(s.files, s1.files, s.disk.incr, w.tales, tales1);
      if Feeding(s1) {
        OpenSame(w, w1);
      }
    } else if s.state.AofOn? {
      FinishedOnFields(w, incrOk);
      NamedOne(s.files, s1.files, s.disk.incr, w.tales, tales1);
      OpenSame(w, w1);
    } else if s.state.AofOff? {
      FinishedOffFields(w, incrOk);
      NamedNone(s1.files, tales1);
    } else {
      FinishedWaitFields(w);
      OpenSame(w, w1);
      OpenIs(w);
      HoldsIsFront(ContentOf(s.files, TempIncr) + s.buf, TaleOf(w.tales, TempIncr), ContentOf(s.files, TempIncr));
      NamedNone(s1.files, tales1);
      NamedNew(s1.files, s1.files, [], s.mem.currIncr + 1, tales1, tales1);
      assert [] + [s.mem.currIncr + 1] == s1.disk.incr;
    }
  }

  lemma NamedNone(files: Files, tales: map<FileName, Tale>)
    ensures NamedHold(files, [], tales)
  {
  }

  lemma NamedOne(files: Files, files1: Files, incr: seq<nat>, tales: map<FileName, Tale>, tales1: map<FileName, Tale>)
    requires NamedHold(files, incr, tales) && incr != []
    requires var name := IncrFile(incr[|incr| - 1]);
      ContentOf(files1, name) == ContentOf(files, name) && TaleOf(tales1, name) == TaleOf(tales, name)
    ensures NamedHold(files1, [incr[|incr| - 1]], tales1)
  {
    hide Holds, HoldsFront, ContentOf, TaleOf;
    assert NumberHolds(files, incr[|incr| - 1], true, tales);
  }

  lemma FailedFields(w: Writer, baseOk: bool, incrOk: bool, persistOk: bool)
    requires Inv(w.s) && !w.s.state.Down? && w.s.child.Some? && !Finishes(w.s, baseOk, incrOk, persistOk)
    ensures var s, s1 := w.s, FinishRewrite(w.s, baseOk, incrOk, persistOk);
      && s1.disk == s.disk && TalesAfter(s, w.tales, RewriteSuccess(baseOk, incrOk, persistOk)) == w.tales
      && (forall n | n in s.disk.incr :: ContentOf(s1.files, IncrFile(n)) == ContentOf(s.files, IncrFile(n)))
      && (Feeding(s1) ==> Feeding(s) && s1.fd == s.fd && s.fd.Open? && s1.buf == s.buf &&
                          ContentOf(s1.files, s.fd.name) == ContentOf(s.files, s.fd.name))
  {
    var s := w.s;
    assert (forall n | n in s.disk.incr :: n <= s.mem.currIncr) && (s.state.AofOn? ==> s.fd == Open(Last(s.mem))) by {
      hide DiskInv, Load, ManifestShape;
      NumbersAreBounded(s.mem);
    }
    hide Inv, Load;
    if s.state.WaitRewrite? {
      FailedWaitFields(s, baseOk, incrOk, persistOk);
    } else {
      FailedOtherFields(s, baseOk, incrOk, persistOk);
    }
  }

  lemma FailedWaitFields(s: Server, baseOk: bool, incrOk: bool, persistOk: bool)
    requires s.child.Some? && s.state.WaitRewrite? && !Finishes(s, baseOk, incrOk, persistOk)
    requires forall n | n in s.disk.incr :: n <= s.mem.currIncr
    ensures var s1 := FinishRewrite(s, baseOk, incrOk, persistOk);
      && s1.disk == s.disk && !Feeding(s1)
      && forall n | n in s.disk.incr :: ContentOf(s1.files, IncrFile(n)) == ContentOf(s.files, IncrFile(n))
  {
    hide MarkRewritten;
  }

  lemma FailedOtherFields(s: Server, baseOk: bool, incrOk: bool, persistOk: bool)
    requires s.child.Some? && !s.state.WaitRewrite? && !Finishes(s, baseOk, incrOk, persistOk)
    ensures var s1 := FinishRewrite(s, baseOk, incrOk, persistOk);
      && s1.disk == s.disk && s1.state == s.state && s1.fd == s.fd && s1.buf == s.buf
      && forall n :: ContentOf(s1.files, IncrFile(n)) == ContentOf(s.files, IncrFile(n))
  {
    hide MarkRewritten;
  }

  lemma FinishedOnFields(w: Writer, incrOk: bool)
    requires Inv(w.s) && w.s.state.AofOn? && w.s.child.Some?
    ensures var s, s1 := w.s, FinishRewrite(w.s, true, incrOk, true);
      && s.disk.incr != [] && s1.disk.incr == [s.disk.incr[|s.disk.incr| - 1]]
      && TalesAfter(s, w.tales, RewriteSuccess(true, incrOk, true)) == w.tales
      && Feeding(s) && s.fd.Open? && s1.fd == s.fd && s1.buf == s.buf && s.fd.name == IncrFile(s.disk.incr[|s.disk.incr| - 1])
      && (forall n :: ContentOf(s1.files, IncrFile(n)) == ContentOf(s.files, IncrFile(n)))
  {
    hide DiskInv, Load, ManifestShape;
  }

  lemma FinishedOffFields(w: Writer, incrOk: bool)
    requires Inv(w.s) && w.s.state.AofOff? && w.s.child.Some?
    ensures var s1 := FinishRewrite(w.s, true, incrOk, true); s1.disk.incr == [] && !Feeding(s1)
  {
    hide DiskInv, Load, ManifestShape;
  }

  lemma FinishedWaitFields(w: Writer)
    requires Inv(w.s) && w.s.state.WaitRewrite? && w.s.child.Some?
    ensures var s, s1 := w.s, FinishRewrite(w.s, true, true, true);
      var name, tales1 := IncrFile(s.mem.currIncr + 1), TalesAfter(s, w.tales, RewriteSuccess(true, true, true));
      && s1.disk.incr == [s.mem.currIncr + 1]
      && Feeding(s) && s.fd == Open(TempIncr) && s1.fd == Open(name) && s1.buf == s.buf
      && TaleOf(tales1, name) == TaleOf(w.tales, TempIncr) && ContentOf(s1.files, name) == ContentOf(s.files, TempIncr)
  {
    hide DiskInv, Load, ManifestShape;
  }

  /** Nothing is fed any more, and the named files stay. */
  lemma ClosedChain(w: Writer, w1: Writer)
    requires NamedHold(w.s.files, w.s.disk.incr, w.tales) && Inv(w1.s) && !Feeding(w1.s) && w1.s.disk.incr == w.s.disk.incr
    requires forall n | n in w.s.disk.incr :: ContentOf(w1.s.files, IncrFile(n)) == ContentOf(w.s.files, IncrFile(n))
    requires forall n | n in w.s.disk.incr :: TaleOf(w1.tales, IncrFile(n)) == TaleOf(w.tales, IncrFile(n))
    ensures ChainInv(w1)
  {
    hide *;
    ChainIs(w1);
    NamedFrame(w.s.files, w1.s.files, w.s.disk.incr, w.tales, w1.tales);
  }

  lemma CleanupChain(w: Writer)
    requires ChainInv(w) && !w.s.state.Down? && w.s.child.Some?
    ensures ChainInv(w.(s := RewriteCleanup(w.s)))
  {
    var s1 := RewriteCleanup(w.s);
    CleanupInv(w.s);
    if w.s.state.AofOn? {
      OpenFile(w.s);
      assert s1.files == w.s.files && s1.fd == w.s.fd && s1.disk == w.s.disk && s1.buf == w.s.buf;
      hide *;
      ChainIs(w);
      ChainIs(w.(s := s1));
      SameWhileOn(w);
      OpenSame(w, w.(s := s1));
    } else {
      hide Inv, NamedHold, Holds;
      ClosedChain(w, w.(s := s1));
    }
  }

  lemma SameWhileOn(w: Writer)
    requires w.s.state.AofOn?
    ensures Feeding(w.s)
  {
  }

  lemma HistoryFields(s: Server, persistOk: bool)
    requires s.mem.incr == s.disk.incr && forall f | f in s.mem.history :: Superseded(f, s.disk)
    ensures var s1 := RemoveHistory(s, persistOk);
      && s1.disk.incr == s.disk.incr && s1.fd == s.fd && s1.buf == s.buf && s1.state == s.state && s1.child == s.child
      && (forall n | n in s.disk.incr :: ContentOf(s1.files, IncrFile(n)) == ContentOf(s.files, IncrFile(n)))
      && ContentOf(s1.files, TempIncr) == ContentOf(s.files, TempIncr)
  {
    forall n | n in s.disk.incr
      ensures IncrFile(n) !in s.mem.history
    {
    }
    assert TempIncr !in s.mem.history;
  }

  lemma HistoryChain(w: Writer, persistOk: bool)
    requires ChainInv(w) && !w.s.state.Down?
    ensures ChainInv(w.(s := RemoveHistory(w.s, persistOk)))
  {
    var s, s1 := w.s, RemoveHistory(w.s, persistOk);
    HistoryIsOld(s);
    RemoveHistoryInv(s, persistOk);
    assert s.mem.incr == s.disk.incr;
    hide *;
    HistoryFields(s, persistOk);
    SameFeeding(s, s1);
    ChainIs(w);
    ChainIs(w.(s := s1));
    NamedFrame(s.files, s1.files, s.disk.incr, w.tales, w.tales);
    if Feeding(s) {
      OpenFile(s);
      FeedingIs(s);
      if s.state.AofOn? {
        assert s.disk.incr[|s.disk.incr| - 1] in s.disk.incr;
      }
      OpenSame(w, w.(s := s1));
    }
  }

  lemma FeedingIs(s: Server)
    ensures Feeding(s) <==> s.state.AofOn? || (s.state.WaitRewrite? && s.child.Some?)
  {
  }

  lemma StopChain(w: Writer, persistOk: bool)
    requires ChainInv(w) && (w.s.state.WaitRewrite? || w.s.state.AofOn?)
    ensures ChainInv(Writer(Stop(w.s, persistOk), -1, w.tales))
  {
    var s1, flushed := Stop(w.s, persistOk), w.(s := FlushTo(w.s, |w.s.buf|));
    FlushChain(w, |w.s.buf|);
    StopInv(w.s, persistOk);
    assert s1.files == flushed.s.files && s1.disk.incr == flushed.s.disk.incr && !Feeding(s1);
    hide *;
    ChainIs(flushed);
    ClosedChain(flushed, Writer(s1, -1, w.tales));
  }

  lemma RepairChain(w: Writer)
    requires ChainInv(w) && w.s.state.Down? && w.s.disk.incr != []
    ensures ChainInv(w.(s := AfterRepair(w.s)))
  {
    var s, s1 := w.s, AfterRepair(w.s);
    var n := s.disk.incr[|s.disk.incr| - 1];
    assert Inv(s1) && !Feeding(s1) by {
      hide Load, AfterLoad;
    }
    RepairFields(s);
    hide *;
    ChainIs(w);
    ChainIs(w.(s := s1));
    LastHolds(s.files, s.disk.incr, w.tales);
    FrontLoads(ContentOf(s.files, IncrFile(n)), TaleOf(w.tales, IncrFile(n)));
    NamedLast(s.files, s1.files, s.disk.incr, w.tales, w.tales);
  }

  lemma LastHolds(files: Files, incr: seq<nat>, tales: map<FileName, Tale>)
    requires NamedHold(files, incr, tales) && incr != []
    ensures var name := IncrFile(incr[|incr| - 1]); HoldsFront(ContentOf(files, name), TaleOf(tales, name))
  {
    hide Holds, HoldsFront, ContentOf, TaleOf;
    assert NumberHolds(files, incr[|incr| - 1], true, tales);
  }

  lemma RepairFields(s: Server)
    requires Inv(s) && s.state.Down? && s.disk.incr != []
    ensures var s1, name := AfterRepair(s), IncrFile(s.disk.incr[|s.disk.incr| - 1]);
      && s1.disk == s.disk && ContentOf(s1.files, name) == AfterLoad(ContentOf(s.files, name))
      && forall i | 0 <= i < |s.disk.incr| - 1 :: ContentOf(s1.files, IncrFile(s.disk.incr[i])) == ContentOf(s.files, IncrFile(s.disk.incr[i]))
  {
    hide AfterLoad, Load;
  }

  lemma StartOffChain(w: Writer, dataset: string, persistOk: bool)
    requires ChainInv(w) && w.s.state.Down?
    ensures ChainInv(Writer(StartServerOff(w.s, dataset, persistOk), -1, w.tales))
  {
    var s, s0, s1 := w.s, BareOff(w.s, dataset), StartServerOff(w.s, dataset, persistOk);
    StartOffInv(s, dataset, persistOk);
    assert s1 == RemoveHistory(s0, persistOk) && s0.mem.incr == s.disk.incr && s0.mem.history == s.disk.history;
    assert s0.disk == s.disk && s0.files == s.files && !Feeding(s0) && DiskShape(s.disk);
    hide Inv, RemoveHistory, BareOff, StartServerOff, NamedHold, ContentOf, TaleOf, Superseded, Feeding, Holds;
    HistoryFields(s0, persistOk);
    SameFeeding(s0, s1);
    ClosedChain(w, Writer(s1, -1, w.tales));
  }

  lemma OpenFields(s: Server)
    requires Inv(s) && s.state.Down? && StartIsSafe(s)
    ensures var s1, incr := OpenOnStart(s), if s.disk.incr == [] then [1] else s.disk.incr;
      && s1.mem == s1.disk == StartManifest(s.disk) && s1.disk.incr == incr
      && s1.fd == Open(IncrFile(incr[|incr| - 1])) && Last(StartManifest(s.disk)) == IncrFile(incr[|incr| - 1])
      && s1.buf == "" && s1.state.AofOn? && s1.child == None
      && (forall n | n in incr :: ContentOf(s1.files, IncrFile(n)) == ContentOf(s.files, IncrFile(n)))
      && (s.disk.incr == [] ==> ContentOf(s.files, IncrFile(1)) == "")
      && forall f | f in s1.mem.history :: Superseded(f, s1.disk)
  {
    hide Inv, StartIsSafe, DiskShape, StartManifest, ManifestShape, OpenOnStart, ContentOf, Superseded;
    SafeShape(s);
    StartManifestShape(s.disk);
    OpenOnStartIs(s);
    DiskShapeHistory(StartManifest(s.disk));
  }

  lemma SafeShape(s: Server)
    requires Inv(s)
    ensures DiskShape(s.disk)
    ensures StartIsSafe(s) && s.disk.incr == [] ==> IncrFile(1) !in s.disk.history && ContentOf(s.files, IncrFile(1)) == ""
    ensures s.disk.incr != [] ==> Last(s.disk) == IncrFile(s.disk.incr[|s.disk.incr| - 1])
  {
    hide AllExist, DiskShape, Load, ManifestShape;
  }

  lemma DiskShapeHistory(m: Manifest)
    requires DiskShape(m)
    ensures forall f | f in m.history :: Superseded(f, m)
  {
  }

  lemma OpenOnStartIs(s: Server)
    ensures var s1, am := OpenOnStart(s), StartManifest(s.disk);
      && s1.mem == s1.disk == am && s1.fd == Open(Last(am)) && s1.buf == "" && s1.state.AofOn? && s1.child == None
      && forall n :: ContentOf(s1.files, IncrFile(n)) == ContentOf(s.files, IncrFile(n))
  {
    hide StartManifest, Load;
  }

  /** A start takes over what it has loaded. */
  lemma StartTales(s: Server, tales: map<FileName, Tale>, persistOk: bool, last: FileName)
    requires last == Last(StartManifest(s.disk)) && (s.disk.incr != [] ==> Last(s.disk) == last)
    ensures TalesAfter(s, tales, Start(persistOk)) ==
            tales[last := if s.disk.incr == [] then BLANK else Loaded1(ContentOf(s.files, last))]
  {
    hide StartManifest, LoadFrom, Loaded1;
  }

  /** The files that a start opens, before it deletes the history. */
  lemma OpenChain(w: Writer, persistOk: bool)
    requires ChainInv(w) && w.s.state.Down? && StartIsSafe(w.s)
    requires w.s.disk.incr != [] ==> Clean(ContentOf(w.s.files, Last(w.s.disk)))
    ensures var s1, tales1 := OpenOnStart(w.s), TalesAfter(w.s, w.tales, Start(persistOk));
      && NamedHold(w.s.files, w.s.disk.incr, tales1)
      && NamedHold(s1.files, s1.disk.incr, tales1) && OpenHolds(Writer(s1, -1, tales1))
  {
    hide *;
    var s, s1, tales1 := w.s, OpenOnStart(w.s), TalesAfter(w.s, w.tales, Start(persistOk));
    var incr := if s.disk.incr == [] then [1] else s.disk.incr;
    var last := IncrFile(incr[|incr| - 1]);
    var t := if s.disk.incr == [] then BLANK else Loaded1(ContentOf(s.files, last));
    ChainIs(w);
    SafeShape(s);
    OpenFields(s);
    StartTales(s, w.tales, persistOk, last);
    TaleChanged(w.tales, last, t);
    ApartFromLast(s.disk);
    SameWhileOn(Writer(s1, -1, tales1));
    OpenIs(Writer(s1, -1, tales1));
    if s.disk.incr == [] {
      HoldsNothing();
      HoldsIsFront("", BLANK, "");
      NamedNone(s.files, tales1);
      NamedNew(s.files, s1.files, [], 1, tales1, tales1);
      assert [] + [1] == incr;
      assert "" + "" == "";
    } else {
      var content := ContentOf(s.files, last);
      LastHolds(s.files, incr, w.tales);
      FrontLoads(content, TaleOf(w.tales, last));
      HoldsIsFront(content, t, content);
      NamedLast(s.files, s.files, incr, w.tales, tales1);
      NamedFrame(s.files, s1.files, incr, tales1, tales1);
      assert incr[|incr| - 1] in incr && content + "" == content;
    }
  }

  lemma ApartFromLast(m: Manifest)
    requires DiskShape(m)
    ensures forall i | 0 <= i < |m.incr| - 1 :: IncrFile(m.incr[i]) != IncrFile(m.incr[|m.incr| - 1])
  {
  }

  lemma StartChain(w: Writer, persistOk: bool)
    requires ChainInv(w) && w.s.state.Down? && StartIsSafe(w.s)
    requires w.s.disk.incr != [] ==> Clean(ContentOf(w.s.files, Last(w.s.disk)))
    ensures ChainInv(Writer(StartServer(w.s, persistOk), -1, TalesAfter(w.s, w.tales, Start(persistOk))))
  {
    hide Clean;
    var s, s0, s1, tales1 := w.s, OpenOnStart(w.s), StartServer(w.s, persistOk), TalesAfter(w.s, w.tales, Start(persistOk));
    OpenChain(w, persistOk);
    OpenFields(s);
    StartInv(s, persistOk);
    assert s1 == RemoveHistory(s0, persistOk);
    hide *;
    HistoryFields(s0, persistOk);
    SameFeeding(s0, s1);
    SameWhileOn(Writer(s0, -1, tales1));
    assert s0.disk.incr[|s0.disk.incr| - 1] in s0.disk.incr;
    NamedFrame(s0.files, s1.files, s0.disk.incr, tales1, tales1);
    OpenSame(Writer(s0, -1, tales1), Writer(s1, -1, tales1));
    ChainIs(Writer(s1, -1, tales1));
  }

  /** A handler that is not cut. */
  lemma ActChain(w: Writer, e: Event)
    requires ChainInv(w) && CanStep(w, Act(e)) && !e.Crash?
    ensures ChainInv(StepTo(w, Act(e)))
  {
    var s, w1 := w.s, StepTo(w, Act(e));
    hide ChainInv, Inv, Clean, FlushTo, StartRewrite, FinishRewrite, RewriteCleanup, RemoveHistory, Stop, StartServer, StartServerOff,
         StartManifest, Loaded1, TaleOf, StartIsSafe;
    match e {
      case Flush(n) => FlushChain(w, n); assert w1 == w.(s := FlushTo(s, n));
      case RewriteStart(openOk, persistOk, forkOk) => RewriteStartChain(w, openOk, persistOk, forkOk);
      case RewriteSuccess(baseOk, incrOk, persistOk) => FinishChain(w, baseOk, incrOk, persistOk);
      case RewriteFailed => CleanupChain(w); assert w1 == w.(s := RewriteCleanup(s));
      case DeleteHistory(persistOk) => HistoryChain(w, persistOk); assert w1 == w.(s := RemoveHistory(s, persistOk));
      case StartAppendOnly => SwitchOnChain(w);
      case StopAppendOnly(persistOk) => StopChain(w, persistOk);
      case Start(persistOk) => StartChain(w, persistOk);
      case StartOff(dataset, persistOk) => StartOffChain(w, dataset, persistOk);
      case _ =>
    }
  }

  lemma RewriteStartChain(w: Writer, openOk: bool, persistOk: bool, forkOk: bool)
    requires ChainInv(w) && CanStep(w, Act(RewriteStart(openOk, persistOk, forkOk)))
    ensures ChainInv(StepTo(w, Act(RewriteStart(openOk, persistOk, forkOk))))
  {
    hide *;
    var flushed := w.(s := FlushTo(w.s, |w.s.buf|));
    RewriteStep(w, openOk, persistOk, forkOk);
    FlushChain(w, |w.s.buf|);
    FlushFields(w.s, |w.s.buf|);
    StartRewriteChain(flushed, openOk, persistOk, forkOk);
    SameTales(w.s, flushed.s, w.tales, openOk, persistOk, forkOk);
  }

  lemma RewriteStep(w: Writer, openOk: bool, persistOk: bool, forkOk: bool)
    requires CanStep(w, Act(RewriteStart(openOk, persistOk, forkOk)))
    ensures !w.s.state.Down? && w.s.child.None?
    ensures StepTo(w, Act(RewriteStart(openOk, persistOk, forkOk))) ==
            Writer(StartRewrite(FlushTo(w.s, |w.s.buf|), openOk, persistOk, forkOk), -1,
                   TalesAfter(w.s, w.tales, RewriteStart(openOk, persistOk, forkOk)))
  {
    hide StartRewrite, FlushTo, TalesAfter;
  }

  lemma SameTales(s: Server, s1: Server, tales: map<FileName, Tale>, openOk: bool, persistOk: bool, forkOk: bool)
    requires s.state == s1.state && s.mem == s1.mem
    ensures TalesAfter(s, tales, RewriteStart(openOk, persistOk, forkOk)) == TalesAfter(s1, tales, RewriteStart(openOk, persistOk, forkOk))
  {
  }

  lemma SwitchOnChain(w: Writer)
    requires ChainInv(w) && w.s.state.AofOff?
    ensures ChainInv(w.(s := w.s.(state := WaitRewrite, child := None)))
  {
    var w1 := w.(s := w.s.(state := WaitRewrite, child := None));
    assert Inv(w1.s) && !Feeding(w1.s) by {
      hide DiskInv, ManifestShape, Load, NamedHold, OpenHolds;
    }
    hide *;
    ChainIs(w);
    ClosedChain(w, w1);
  }

  // ---------------------------------------------------------------- crashes

  ghost predicate DiskHolds(d: Disk, tales: map<FileName, Tale>) {
    NamedHold(d.files, d.manifest.incr, tales)
  }

  lemma AsideHolds(d: Disk, op: DiskOp, tales: map<FileName, Tale>)
    requires DiskHolds(d, tales) && Aside(d.manifest, op)
    ensures DiskHolds(Do(d, op), tales) && Do(d, op).manifest == d.manifest
  {
    var d1 := Do(d, op);
    forall n | n in d.manifest.incr
      ensures ContentOf(d1.files, IncrFile(n)) == ContentOf(d.files, IncrFile(n))
    {
      assert Names(d.manifest, IncrFile(n));
    }
    hide NamedHold, Do, Aside, Names, TaleOf;
    assert d1.manifest == d.manifest by {
      AsideManifest(d, op);
    }
    NamedFrame(d.files, d1.files, d.manifest.incr, tales, tales);
  }

  lemma AsideManifest(d: Disk, op: DiskOp)
    requires Aside(d.manifest, op)
    ensures Do(d, op).manifest == d.manifest
  {
  }

  lemma {:induction false} AsideAllHolds(d: Disk, ops: seq<DiskOp>, tales: map<FileName, Tale>)
    requires DiskHolds(d, tales) && forall op | op in ops :: Aside(d.manifest, op)
    ensures DiskHolds(DoAll(d, ops), tales) && DoAll(d, ops).manifest == d.manifest
    decreases |ops|
  {
    if ops != [] {
      AsideHolds(d, ops[0], tales);
      hide DiskHolds, Do, Aside;
      AsideAllHolds(Do(d, ops[0]), ops[1..], tales);
    }
  }

  /** Operations aside from the named files, then perhaps a manifest: at every point the named files hold. */
  lemma PrefixHolds(d: Disk, ops: seq<DiskOp>, last: seq<DiskOp>, tales: map<FileName, Tale>, k: nat)
    requires DiskHolds(d, tales) && (forall op | op in ops :: Aside(d.manifest, op)) && |last| <= 1
    requires DiskHolds(DoAll(d, ops + last), tales) && k <= |ops + last|
    ensures DiskHolds(DoAll(d, (ops + last)[..k]), tales)
  {
    var all := ops + last;
    hide DiskHolds, DoAll, Aside;
    if k <= |ops| {
      assert all[..k] == ops[..k] && forall op | op in ops[..k] :: op in ops;
      AsideAllHolds(d, ops[..k], tales);
    } else {
      assert all[..k] == all;
    }
  }

  /** What a handler will record does not concern the files that are named when it begins. */
  lemma TalesApart(s: Server, tales: map<FileName, Tale>, e: Event)
    requires Inv(s) && !s.state.Down? && !e.Crash? && !e.Start?
    ensures forall n | n in s.disk.incr :: TaleOf(TalesAfter(s, tales, e), IncrFile(n)) == TaleOf(tales, IncrFile(n))
  {
    assert ManifestShape(s.mem) && s.mem.incr == s.disk.incr by {
      hide DiskInv, Covers, ManifestShape;
    }
    NumbersAreBounded(s.mem);
    hide Inv, ManifestShape;
  }

  lemma RemovesAreAside(m: Manifest, names: seq<FileName>)
    requires forall f | f in names :: Superseded(f, m)
    ensures forall op | op in RemoveOps(names) :: Aside(m, op)
  {
    RemovesUnlink(Disk(map[], m), names);
    hide RemoveOps;
  }

  /** What follows the forced flush leaves the named files alone until it persists a manifest. */
  lemma RestSplit(s: Server, e: Event) returns (ops: seq<DiskOp>, last: seq<DiskOp>)
    requires Inv(s) && Enabled(s, e) && !e.Crash? && !e.Start?
    ensures RestPart(s, e) == ops + last && |last| <= 1 && forall op | op in ops :: Aside(s.disk, op)
  {
    ops, last := [], [];
    hide FinishOps, FinishAside, HistoryOps, Load;
    match e {
      case RewriteStart(openOk, persistOk, _) => ops, last := StartSplit(s, openOk, persistOk);
      case RewriteSuccess(baseOk, incrOk, persistOk) =>
        FinishSplit(s, baseOk, incrOk, persistOk);
        FinishIsAside(s, baseOk, incrOk, persistOk);
        ops := FinishAside(s, baseOk, incrOk, persistOk);
        last := if Finishes(s, baseOk, incrOk, persistOk) then [Persist(FinishRewrite(s, baseOk, incrOk, persistOk).disk)] else [];
      case RewriteFailed => ops := CleanupOps(s);
      case DeleteHistory(persistOk) =>
        HistoryIsOld(s);
        ops, last := HistorySplit(s.mem, s.disk, persistOk);
      case StopAppendOnly(persistOk) => last := RestPart(s, e);
      case StartOff(_, persistOk) =>
        SafeShape(s);
        ops, last := HistorySplit(Reload(s.disk), s.disk, persistOk);
      case _ =>
    }
    hide Inv, FinishRewrite, StartRewriteOps, RemoveOps, CleanupOps, Names, Reload, Aside;
    assert [] + last == last && ops + [] == ops;
  }

  lemma StartSplit(s: Server, openOk: bool, persistOk: bool) returns (ops: seq<DiskOp>, last: seq<DiskOp>)
    requires Inv(s) && !s.state.Down?
    ensures StartRewriteOps(s, openOk, persistOk) == ops + last && |last| <= 1 && forall op | op in ops :: Aside(s.disk, op)
  {
    NumbersAreBounded(s.mem);
    ops, last := StartRewriteOps(s, openOk, persistOk), [];
    if |ops| == 2 {
      ops, last := ops[..1], ops[1..];
    }
    hide DiskInv, ManifestShape, Covers;
  }

  lemma HistorySplit(m: Manifest, disk: Manifest, persistOk: bool) returns (ops: seq<DiskOp>, last: seq<DiskOp>)
    requires forall f | f in m.history :: Superseded(f, disk)
    ensures HistoryOps(m, persistOk) == ops + last && |last| <= 1 && forall op | op in ops :: Aside(disk, op)
  {
    ops := RemoveOps(m.history);
    last := if m.history != [] && persistOk then [Persist(m.(history := []))] else [];
    RemovesAreAside(disk, m.history);
    hide RemoveOps;
  }

  lemma DiskHoldsIs(d: Disk, tales: map<FileName, Tale>)
    ensures DiskHolds(d, tales) <==> NamedHold(d.files, d.manifest.incr, tales)
  {
    hide NamedHold;
  }

  lemma FlushedHolds(w: Writer, e: Event, tales: map<FileName, Tale>)
    requires ChainInv(w) && Enabled(w.s, e) && !e.Crash?
    requires forall n | n in w.s.disk.incr :: TaleOf(tales, IncrFile(n)) == TaleOf(w.tales, IncrFile(n))
    ensures DiskHolds(DiskOf(w.s), tales) && DiskHolds(DiskOf(Flushed(w.s, e)), tales) && Flushed(w.s, e).disk == w.s.disk
  {
    var s, s1 := w.s, Flushed(w.s, e);
    assert s1 == s || (!s.state.Down? && exists n :: 0 <= n <= |s.buf| && s1 == FlushTo(s, n)) by {
      hide FlushTo;
    }
    hide *;
    ChainIs(w);
    if s1 != s {
      var n :| 0 <= n <= |s.buf| && s1 == FlushTo(s, n);
      FlushChain(w, n);
      FlushFields(s, n);
      ChainIs(w.(s := s1));
    }
    NamedFrame(s.files, s.files, s.disk.incr, w.tales, tales);
    NamedFrame(s1.files, s1.files, s.disk.incr, w.tales, tales);
    DiskHoldsIs(DiskOf(s), tales);
    DiskHoldsIs(DiskOf(s1), tales);
    DiskOfIs(s);
    DiskOfIs(s1);
  }

  lemma DiskOfIs(s: Server)
    ensures DiskOf(s) == Disk(s.files, s.disk)
  {
  }

  /** A handler that is cut anywhere: the named files hold what they were fed, the last one but for a tail. */
  lemma CutHolds(w: Writer, e: Event, k: nat)
    requires ChainInv(w) && CanStep(w, Act(e)) && Enabled(w.s, e) && !e.Crash? && !e.Start? && k <= |Program(w.s, e)|
    ensures DiskHolds(DoAll(DiskOf(w.s), Program(w.s, e)[..k]), TalesAfter(w.s, w.tales, e))
  {
    hide *;
    var tales := TalesAfter(w.s, w.tales, e);
    var s1 := Flushed(w.s, e);
    ActChain(w, e);
    NextOf(w, e);
    ChainIs(w);
    ChainIs(StepTo(w, Act(e)));
    NotStarted(w, e);
    FlushedHolds(w, e, tales);
    var ops, last := RestSplit(w.s, e);
    ProgramParts(w.s, e);
    FlushedInv(w.s, e);
    FlushedShape(w.s, e);
    RestEnds(w.s, e);
    DiskHoldsIs(DiskOf(Next(w.s, e)), tales);
    DiskOfIs(Next(w.s, e));
    DiskOfIs(s1);
    CutInTwo(DiskOf(w.s), FlushPart(w.s, e), DiskOf(s1), ops, last, tales, k);
  }

  lemma CutInTwo(d: Disk, a: seq<DiskOp>, d1: Disk, ops: seq<DiskOp>, last: seq<DiskOp>, tales: map<FileName, Tale>, k: nat)
    requires |a| <= 1 && d1 == DoAll(d, a) && DiskHolds(d, tales) && DiskHolds(d1, tales)
    requires (forall op | op in ops :: Aside(d1.manifest, op)) && |last| <= 1
    requires DiskHolds(DoAll(d1, ops + last), tales) && k <= |a + (ops + last)|
    ensures DiskHolds(DoAll(d, (a + (ops + last))[..k]), tales)
  {
    var b := ops + last;
    if k < |a| {
      assert (a + b)[..k] == [] && DoAll(d, []) == d;
    } else {
      assert (a + b)[..k] == a + b[..k - |a|];
      hide *;
      DoAllAppend(d, a, b[..k - |a|]);
      PrefixHolds(d1, ops, last, tales, k - |a|);
    }
  }

  lemma NextOf(w: Writer, e: Event)
    requires CanStep(w, Act(e))
    ensures StepTo(w, Act(e)).s == Next(w.s, e) && StepTo(w, Act(e)).tales == TalesAfter(w.s, w.tales, e)
  {
    hide Next, TalesAfter;
  }

  /** While the server is down nothing but a start with AOF disabled is recorded as nothing. */
  lemma NotStarted(w: Writer, e: Event)
    requires Inv(w.s) && Enabled(w.s, e) && !e.Crash? && !e.Start?
    ensures forall n | n in w.s.disk.incr :: TaleOf(TalesAfter(w.s, w.tales, e), IncrFile(n)) == TaleOf(w.tales, IncrFile(n))
  {
    if w.s.state.Down? {
      hide Inv, TaleOf;
    } else {
      hide *;
      TalesApart(w.s, w.tales, e);
    }
  }

  /** A start that is cut anywhere. */
  lemma CutStartHolds(w: Writer, persistOk: bool, k: nat)
    requires ChainInv(w) && CanStep(w, Act(Start(persistOk))) && Enabled(w.s, Start(persistOk))
    requires k <= |Program(w.s, Start(persistOk))|
    ensures DiskHolds(DoAll(DiskOf(w.s), Program(w.s, Start(persistOk))[..k]), TalesAfter(w.s, w.tales, Start(persistOk)))
  {
    hide *;
    var s, s0, tales := w.s, OpenOnStart(w.s), TalesAfter(w.s, w.tales, Start(persistOk));
    StartGuards(w, persistOk);
    ChainIs(w);
    OpenChain(w, persistOk);
    OpenFields(s);
    OpenIsAside(s.disk);
    OpenProgram(s);
    DiskOfIs(s);
    DiskOfIs(s0);
    DiskHoldsIs(DiskOf(s), tales);
    DiskHoldsIs(DiskOf(s0), tales);
    var a, b := OpenOps(s.disk), HistoryOps(StartManifest(s.disk), persistOk);
    if k <= |a| {
      assert (a + b)[..k] == a[..k];
      PrefixHolds(DiskOf(s), OpenAside(s.disk), [Persist(StartManifest(s.disk))], tales, k);
    } else {
      assert (a + b)[..k] == a + b[..k - |a|];
      DoAllAppend(DiskOf(s), a, b[..k - |a|]);
      CutHistoryHolds(w, persistOk, k - |a|);
    }
  }

  lemma StartGuards(w: Writer, persistOk: bool)
    requires CanStep(w, Act(Start(persistOk))) && Enabled(w.s, Start(persistOk))
    ensures w.s.state.Down? && StartIsSafe(w.s)
    ensures w.s.disk.incr != [] ==> Clean(ContentOf(w.s.files, Last(w.s.disk)))
    ensures Program(w.s, Start(persistOk)) == OpenOps(w.s.disk) + HistoryOps(StartManifest(w.s.disk), persistOk)
    ensures Next(w.s, Start(persistOk)) == RemoveHistory(OpenOnStart(w.s), persistOk)
  {
    hide Clean, StartIsSafe, OpenOps, HistoryOps, StartManifest, OpenOnStart, RemoveHistory;
  }

  lemma CutHistoryHolds(w: Writer, persistOk: bool, k: nat)
    requires ChainInv(w) && CanStep(w, Act(Start(persistOk))) && Enabled(w.s, Start(persistOk))
    requires k <= |HistoryOps(StartManifest(w.s.disk), persistOk)|
    ensures DiskHolds(DoAll(DiskOf(OpenOnStart(w.s)), HistoryOps(StartManifest(w.s.disk), persistOk)[..k]),
                      TalesAfter(w.s, w.tales, Start(persistOk)))
  {
    hide *;
    var e: Event := Start(persistOk);
    var s0, tales := OpenOnStart(w.s), TalesAfter(w.s, w.tales, e);
    StartGuards(w, persistOk);
    ChainIs(w);
    OpenChain(w, persistOk);
    OpenFields(w.s);
    StartIsNoCrash(e);
    ActChain(w, e);
    NextOf(w, e);
    ChainIs(StepTo(w, Act(e)));
    HistoryProgram(s0, persistOk);
    DiskOfIs(s0);
    DiskOfIs(Next(w.s, e));
    DiskHoldsIs(DiskOf(s0), tales);
    DiskHoldsIs(DiskOf(Next(w.s, e)), tales);
    var ops, last := HistorySplit(s0.mem, s0.disk, persistOk);
    PrefixHolds(DiskOf(s0), ops, last, tales, k);
  }

  lemma StartIsNoCrash(e: Event)
    requires e.Start?
    ensures !e.Crash?
  {
  }

  lemma CrashChain(w: Writer, during: Event, ops: nat)
    requires ChainInv(w) && CanStep(w, Act(Crash(during, ops)))
    ensures ChainInv(StepTo(w, Act(Crash(during, ops))))
  {
    var c := StepTo(w, Act(Crash(during, ops)));
    CrashGuards(w, during, ops);
    hide *;
    ChainIs(w);
    ChainIs(c);
    CrashInv(w.s, during, ops);
    if during.Start? {
      CutStartHolds(w, during.persistOk, ops);
    } else {
      CutHolds(w, during, ops);
    }
    DiskHoldsIs(DoAll(DiskOf(w.s), Program(w.s, during)[..ops]), TalesAfter(w.s, w.tales, during));
  }

  lemma CrashGuards(w: Writer, during: Event, ops: nat)
    requires CanStep(w, Act(Crash(during, ops)))
    ensures Enabled(w.s, Crash(during, ops))
    ensures !during.Crash? && Enabled(w.s, during) && ops <= |Program(w.s, during)| && CanStep(w, Act(during))
    ensures var c, d := StepTo(w, Act(Crash(during, ops))), DoAll(DiskOf(w.s), Program(w.s, during)[..ops]);
      && c.s == Next(w.s, Crash(during, ops)) && c.s.files == d.files && c.s.disk == d.manifest && !Feeding(c.s)
      && c.tales == TalesAfter(w.s, w.tales, during)
  {
    hide Clean, StartIsSafe, DoAll, FlushOps, StartRewriteOps, FinishOps, HistoryOps, OpenOps, CleanupOps, StartManifest, Loaded1, TaleOf;
  }

  // ---------------------------------------------------------------- main result

  lemma StepChain(w: Writer, step: Step)
    requires ChainInv(w) && CanStep(w, step)
    ensures ChainInv(StepTo(w, step))
  {
    hide ChainInv, AfterFeed, AfterRepair, Next, Enabled, TalesAfter, Clean;
    match step
    case Feed(f) => FeedChain(w, f);
    case Repair => RepairChain(w);
    case Act(e) =>
      if e.Crash? {
        CrashChain(w, e.during, e.ops);
      } else {
        ActChain(w, e);
      }
  }

  lemma {:induction false} StepsChain(w: Writer, steps: seq<Step>)
    requires ChainInv(w) && IsHistory(w, steps)
    ensures ChainInv(AfterSteps(w, steps))
    decreases |steps|
  {
    if steps != [] {
      StepChain(w, steps[0]);
      hide ChainInv, CanStep, StepTo;
      StepsChain(StepTo(w, steps[0]), steps[1..]);
    }
  }

  /** A server that has never used AOF, and has fed nothing. */
  predicate Unused(w: Writer) {
    Initial(w.s) && w.selected == -1 && w.tales == map[]
  }

  lemma UnusedChain(w: Writer)
    requires Unused(w)
    ensures ChainInv(w)
  {
    InitialInv(w.s);
    NamedNone(w.s.files, w.tales);
    hide NamedHold, Inv;
  }

  /** Whatever happened before, crashes inside handlers, starts, failed rewrites and switching AOF included:
      loaded on its own, from no selected database, every incremental file of the chain gives exactly what was
      fed while it was open, each command in its database. Only the last one may have lost commands at its end,
      when the server has crashed or stopped; while AOF is on it gives everything together with the buffer. */
  lemma ChainDecodes(w0: Writer, steps: seq<Step>)
    requires Unused(w0) && IsHistory(w0, steps)
    ensures var w := AfterSteps(w0, steps); var s := w.s;
      && (forall i | 0 <= i < |s.disk.incr| ::
            var name := IncrFile(s.disk.incr[i]); var r := LoadFrom(ContentOf(s.files, name), 0, 0, 0);
            && r.status != Corrupt && r.commands <= TaleOf(w.tales, name).fed
            && (i < |s.disk.incr| - 1 ==> r.status == Complete && r.commands == TaleOf(w.tales, name).fed))
      && (s.state.AofOn? ==>
            && s.disk.incr != [] && Load(s.files, s.disk) + s.buf == s.log
            && var name := IncrFile(s.disk.incr[|s.disk.incr| - 1]); var r := LoadFrom(ContentOf(s.files, name) + s.buf, 0, 0, 0);
               r.status == Complete && r.commands == TaleOf(w.tales, name).fed)
  {
    hide *;
    var w := AfterSteps(w0, steps);
    UnusedChain(w0);
    StepsChain(w0, steps);
    ChainIs(w);
    forall i | 0 <= i < |w.s.disk.incr|
      ensures var name := IncrFile(w.s.disk.incr[i]); var r := LoadFrom(ContentOf(w.s.files, name), 0, 0, 0);
        && r.status != Corrupt && r.commands <= TaleOf(w.tales, name).fed
        && (i < |w.s.disk.incr| - 1 ==> r.status == Complete && r.commands == TaleOf(w.tales, name).fed)
    {
      FileDecodes(w.s.files, w.s.disk.incr, w.tales, i);
    }
    if w.s.state.AofOn? {
      SameWhileOn(w);
      OpenFile(w.s);
      OpenIs(w);
      HoldsLoads(ContentOf(w.s.files, w.s.fd.name) + w.s.buf, TaleOf(w.tales, w.s.fd.name));
      FlushedLoads(w.s);
      LoadDiskIs(w.s);
    }
  }

  lemma FileDecodes(files: Files, incr: seq<nat>, tales: map<FileName, Tale>, i: nat)
    requires NamedHold(files, incr, tales) && i < |incr|
    ensures var name := IncrFile(incr[i]); var r := LoadFrom(ContentOf(files, name), 0, 0, 0);
      && r.status != Corrupt && r.commands <= TaleOf(tales, name).fed
      && (i < |incr| - 1 ==> r.status == Complete && r.commands == TaleOf(tales, name).fed)
  {
    var name := IncrFile(incr[i]);
    hide Holds, HoldsFront, ContentOf, TaleOf, LoadFrom;
    assert NumberHolds(files, incr[i], i == |incr| - 1, tales);
    if i < |incr| - 1 {
      HoldsLoads(ContentOf(files, name), TaleOf(tales, name));
    } else {
      FrontLoads(ContentOf(files, name), TaleOf(tales, name));
    }
  }

  /** A truncation by the loader, in any run: the last file then loads without a short read and as it did before,
      and no other file changes. */
  lemma RepairEnds(w0: Writer, steps: seq<Step>)
    requires Unused(w0) && IsHistory(w0, steps) && CanStep(AfterSteps(w0, steps), Repair)
    ensures var w := AfterSteps(w0, steps); var w1, last := StepTo(w, Repair), IncrFile(w.s.disk.incr[|w.s.disk.incr| - 1]);
      var r, r1 := LoadFrom(ContentOf(w.s.files, last), 0, 0, 0), LoadFrom(ContentOf(w1.s.files, last), 0, 0, 0);
      && r1.status == Complete && r1.commands == r.commands && r1.db == r.db
      && ContentOf(w1.s.files, last) <= ContentOf(w.s.files, last)
      && (forall f | f != last :: ContentOf(w1.s.files, f) == ContentOf(w.s.files, f))
      && w1 == w.(s := w.s.(files := w1.s.files))
  {
    hide *;
    UnusedChain(w0);
    StepsChain(w0, steps);
    RepairIs(AfterSteps(w0, steps));
  }

  lemma RepairIs(w: Writer)
    requires ChainInv(w) && CanStep(w, Repair)
    ensures var w1, last := StepTo(w, Repair), IncrFile(w.s.disk.incr[|w.s.disk.incr| - 1]);
      var r, r1 := LoadFrom(ContentOf(w.s.files, last), 0, 0, 0), LoadFrom(ContentOf(w1.s.files, last), 0, 0, 0);
      && r1.status == Complete && r1.commands == r.commands && r1.db == r.db
      && ContentOf(w1.s.files, last) <= ContentOf(w.s.files, last)
      && (forall f | f != last :: ContentOf(w1.s.files, f) == ContentOf(w.s.files, f))
      && w1 == w.(s := w.s.(files := w1.s.files))
  {
    var last := IncrFile(w.s.disk.incr[|w.s.disk.incr| - 1]);
    assert StepTo(w, Repair) == w.(s := AfterRepair(w.s));
    LastRepaired(w.s);
    hide *;
    ChainIs(w);
    LastHolds(w.s.files, w.s.disk.incr, w.tales);
    FrontRepairs(ContentOf(w.s.files, last), TaleOf(w.tales, last));
  }

  lemma LastRepaired(s: Server)
    requires Inv(s) && s.state.Down? && s.disk.incr != []
    ensures var last := IncrFile(s.disk.incr[|s.disk.incr| - 1]);
      && AfterRepair(s) == s.(files := AfterRepair(s).files)
      && ContentOf(AfterRepair(s).files, last) == AfterLoad(ContentOf(s.files, last))
      && forall f | f != last :: ContentOf(AfterRepair(s).files, f) == ContentOf(s.files, f)
  {
    hide AfterLoad, Inv;
  }

  /** One more step after a run. */
  lemma {:induction false} StepsAppend(w: Writer, steps: seq<Step>, step: Step)
    requires IsHistory(w, steps) && CanStep(AfterSteps(w, steps), step)
    ensures IsHistory(w, steps + [step]) && AfterSteps(w, steps + [step]) == StepTo(AfterSteps(w, steps), step)
    decreases |steps|
  {
    hide CanStep, StepTo;
    if steps == [] {
      assert steps + [step] == [step] && [step][1..] == [];
    } else {
      assert (steps + [step])[1..] == steps[1..] + [step] && (steps + [step])[0] == steps[0];
      StepsAppend(StepTo(w, steps[0]), steps[1..], step);
    }
  }
}
