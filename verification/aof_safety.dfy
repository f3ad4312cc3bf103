/** What every step of the multi-part append only file keeps. */
module AofSafety {
  import opened Wrappers
  import opened AofManifest

  /** Numbers grow along the chain, and history files are older than the current ones. */
  predicate ManifestShape(m: Manifest) {
    && (m.base.Some? ==> m.base.value == m.currBase)
    && (forall i, j | 0 <= i < j < |m.incr| :: m.incr[i] < m.incr[j])
    && (m.incr != [] ==> m.incr[|m.incr| - 1] == m.currIncr)
    && HistoryShape(m.history, m)
  }

  predicate HistoryShape(history: seq<FileName>, m: Manifest) {
    forall f | f in history :: Older(f, m)
  }

  predicate Older(f: FileName, m: Manifest) {
    match f
    case BaseFile(n) => m.base.Some? && n < m.currBase
    case IncrFile(n) => n <= m.currIncr && forall k | k in m.incr :: n < k
    case TempIncr => false
  }

  /** Every file the manifest names exists. */
  predicate AllExist(files: Files, m: Manifest) {
    && (m.base.Some? ==> BaseFile(m.base.value) in files)
    && (forall n | n in m.incr :: IncrFile(n) in files)
  }

  /** What a start needs of the persisted manifest: numbers grow along the chain, and no file is both
      named and waiting to be deleted. */
  predicate DiskShape(m: Manifest) {
    && (forall i, j | 0 <= i < j < |m.incr| :: m.incr[i] < m.incr[j])
    && (forall f | f in m.history :: Superseded(f, m))
  }

  predicate Superseded(f: FileName, m: Manifest) {
    match f
    case BaseFile(n) => m.base.Some? && n < m.base.value
    case IncrFile(n) => n !in m.incr
    case TempIncr => false
  }

  predicate DiskInv(d: Disk) {
    DiskShape(d.manifest) && AllExist(d.files, d.manifest)
  }

  /** While AOF is on, the files and the buffer together are the log; the same holds for the snapshot of
      a running rewrite with the file opened at its fork. */
  predicate Covers(s: Server) {
    match s.state
    case AofOn =>
      && s.mem.incr != [] && s.fd == Open(Last(s.mem))
      && Load(s.files, s.mem) + s.buf == s.log
      && (s.child.Some? ==> s.child.value + ContentOf(s.files, Last(s.mem)) + s.buf == s.log)
    case WaitRewrite =>
      if s.child.None? then s.buf == ""
      else s.fd == Open(TempIncr) && s.child.value + ContentOf(s.files, TempIncr) + s.buf == s.log
    case AofOff => s.buf == "" && s.fd == Closed
    case Down => s == Crashed(s, Disk(s.files, s.disk))
  }

  predicate Inv(s: Server) {
    && DiskInv(Disk(s.files, s.disk))
    && (!s.state.Down? ==> ManifestShape(s.mem) && s.disk.base == s.mem.base && s.disk.incr == s.mem.incr)
    && Covers(s)
  }

  lemma ShapeOnDisk(m: Manifest)
    requires ManifestShape(m)
    ensures DiskShape(m)
  {
    forall f | f in m.history
      ensures Superseded(f, m)
    {
      assert Older(f, m);
    }
  }

  // ---------------------------------------------------------------- loading

  /** Loading looks only at the named files. */
  lemma {:induction false} LoadIncrFrame(files: Files, files1: Files, incr: seq<nat>)
    requires forall n | n in incr :: ContentOf(files, IncrFile(n)) == ContentOf(files1, IncrFile(n))
    ensures LoadIncr(files, incr) == LoadIncr(files1, incr)
    decreases |incr|
  {
    if incr != [] {
      assert incr[|incr| - 1] in incr;
      LoadIncrFrame(files, files1, incr[..|incr| - 1]);
    }
  }

  lemma LoadFrame(files: Files, files1: Files, m: Manifest)
    requires forall f | Names(m, f) :: ContentOf(files, f) == ContentOf(files1, f)
    ensures Load(files, m) == Load(files1, m)
  {
    forall n | n in m.incr
      ensures ContentOf(files, IncrFile(n)) == ContentOf(files1, IncrFile(n))
    {
      assert Names(m, IncrFile(n));
    }
    LoadIncrFrame(files, files1, m.incr);
    if m.base.Some? {
      assert Names(m, BaseFile(m.base.value));
    }
  }

  /** Appending to the last file appends to what is loaded. */
  lemma LoadAppend(files: Files, m: Manifest, bytes: string)
    requires ManifestShape(m) && m.incr != []
    ensures var files1 := files[Last(m) := ContentOf(files, Last(m)) + bytes];
            Load(files1, m) == Load(files, m) + bytes
  {
    var files1 := files[Last(m) := ContentOf(files, Last(m)) + bytes];
    LastIsOnce(m);
    LoadIncrAppend(files, m.incr, bytes);
    LoadParts(files, m);
    LoadParts(files1, m);
    SameBase(files, m, bytes);
    hide *;
    Regrouped(BaseOf(files, m), LoadIncr(files, m.incr), bytes);
  }

  lemma Regrouped(a: string, b: string, c: string)
    ensures a + (b + c) == a + b + c
  {
  }

  function BaseOf(files: Files, m: Manifest): string {
    if m.base.Some? then ContentOf(files, BaseFile(m.base.value)) else ""
  }

  lemma LoadParts(files: Files, m: Manifest)
    ensures Load(files, m) == BaseOf(files, m) + LoadIncr(files, m.incr)
  {
  }

  lemma SameBase(files: Files, m: Manifest, bytes: string)
    requires m.incr != []
    ensures BaseOf(files[Last(m) := ContentOf(files, Last(m)) + bytes], m) == BaseOf(files, m)
  {
  }

  lemma LastIsOnce(m: Manifest)
    requires ManifestShape(m) && m.incr != []
    ensures m.incr[|m.incr| - 1] !in m.incr[..|m.incr| - 1]
  {
    var init := m.incr[..|m.incr| - 1];
    forall i | 0 <= i < |init|
      ensures init[i] < m.incr[|m.incr| - 1]
    {
      assert m.incr[i] < m.incr[|m.incr| - 1];
    }
    hide ManifestShape;
  }

  lemma LoadIncrAppend(files: Files, incr: seq<nat>, bytes: string)
    requires incr != [] && incr[|incr| - 1] !in incr[..|incr| - 1]
    ensures var last := IncrFile(incr[|incr| - 1]);
            LoadIncr(files[last := ContentOf(files, last) + bytes], incr) == LoadIncr(files, incr) + bytes
  {
    var last := IncrFile(incr[|incr| - 1]);
    var c := ContentOf(files, last);
    LoadIncrFrame(files, files[last := c + bytes], incr[..|incr| - 1]);
    Regrouped(LoadIncr(files, incr[..|incr| - 1]), c, bytes);
  }

  /** An additional empty file at the end changes nothing. */
  lemma LoadNewIncr(files: Files, m: Manifest)
    requires ManifestShape(m)
    ensures Load(files[IncrFile(m.currIncr + 1) := ""], GetNewIncr(m)) == Load(files, m)
  {
    var files1 := files[IncrFile(m.currIncr + 1) := ""];
    var m1 := GetNewIncr(m);
    assert m1.incr[..|m1.incr| - 1] == m.incr;
    forall n | n in m.incr
      ensures n <= m.currIncr
    {
      var i :| 0 <= i < |m.incr| && m.incr[i] == n;
      if i < |m.incr| - 1 {
        assert m.incr[i] < m.incr[|m.incr| - 1];
      }
    }
    LoadIncrFrame(files, files1, m.incr);
  }

  lemma NumbersAreBounded(m: Manifest)
    requires ManifestShape(m)
    ensures forall n | n in m.incr :: n <= m.currIncr
  {
    forall n | n in m.incr
      ensures n <= m.currIncr
    {
      var i :| 0 <= i < |m.incr| && m.incr[i] == n;
      if i < |m.incr| - 1 {
        assert m.incr[i] < m.incr[|m.incr| - 1];
      }
    }
  }

  // ---------------------------------------------------------------- one step

  lemma FlushInv(s: Server, n: nat)
    requires Inv(s) && !s.state.Down? && n <= |s.buf|
    ensures Inv(FlushTo(s, n))
  {
    hide DiskShape, ManifestShape, Load;
    var bytes := s.buf[..n];
    assert bytes + s.buf[n..] == s.buf;
    if s.state.AofOn? {
      FlushOnInv(s, n);
    } else if s.state.WaitRewrite? && s.child.Some? {
      var c := ContentOf(s.files, TempIncr);
      assert s.child.value + (c + bytes) + s.buf[n..] == s.child.value + c + s.buf;
    }
  }

  lemma FlushOnInv(s: Server, n: nat)
    requires Inv(s) && s.state.AofOn? && n <= |s.buf|
    ensures Inv(FlushTo(s, n))
  {
    var bytes, rest := s.buf[..n], s.buf[n..];
    var l, c := Load(s.files, s.mem), ContentOf(s.files, Last(s.mem));
    LoadAppend(s.files, s.mem, bytes);
    hide DiskShape, ManifestShape, Load, LoadIncr;
    assert bytes + rest == s.buf;
    assert l + bytes + rest == l + s.buf;
    assert s.child.Some? ==> s.child.value + (c + bytes) + rest == s.child.value + c + s.buf;
    assert FlushTo(s, n) == s.(buf := rest, files := s.files[Last(s.mem) := c + bytes]);
    hide FlushTo;
  }

  lemma StartRewriteInv(s: Server, openOk: bool, persistOk: bool, forkOk: bool)
    requires Inv(s) && !s.state.Down? && s.buf == "" && s.child.None?
    ensures Inv(StartRewrite(s, openOk, persistOk, forkOk))
  {
    var name := IncrFile(s.mem.currIncr + 1);
    NumbersAreBounded(s.mem);
    assert !Names(s.mem, name) && !Names(s.mem, TempIncr);
    assert s.log + "" + "" == s.log;
    if s.state.AofOn? && openOk {
      hide DiskShape, ManifestShape, Load;
      LoadFrame(s.files, s.files[name := ""], s.mem);
      if persistOk {
        NewIncrOpened(s, forkOk);
      }
    } else {
      hide DiskShape, ManifestShape, Load;
    }
  }

  lemma NewIncrOpened(s: Server, forkOk: bool)
    requires Inv(s) && s.state.AofOn? && s.buf == "" && s.child.None?
    ensures Inv(StartRewrite(s, true, true, forkOk))
  {
    var m, name, s1 := GetNewIncr(s.mem), IncrFile(s.mem.currIncr + 1), StartRewrite(s, true, true, forkOk);
    var files1 := s.files[name := ""];
    assert s.mem.incr != [] && Load(s.files, s.mem) == s.log by {
      CoveredLog(s);
    }
    assert s1 == Server(AofOn, m, m, files1, Open(name), if forkOk then Some(s.log) else None, "", s.log);
    assert ManifestShape(s.mem) && AllExist(s.files, s.mem);
    hide Inv, StartRewrite, Load, ManifestShape, DiskShape, AllExist;
    LoadNewIncr(s.files, s.mem);
    NewIncrShape(s.mem);
    ShapeOnDisk(m);
    NewIncrExists(s.files, s.mem);
    JustOpened(s1);
  }

  lemma CoveredLog(s: Server)
    requires Inv(s) && s.state.AofOn? && s.buf == ""
    ensures s.mem.incr != [] && Load(s.files, s.mem) == s.log && s.fd == Open(Last(s.mem))
  {
    hide Load, DiskInv, ManifestShape;
    assert Load(s.files, s.mem) + "" == Load(s.files, s.mem);
  }

  /** AOF is on with an empty buffer, and a rewrite, if any, has just been started with an empty file. */
  lemma JustOpened(s: Server)
    requires s.mem.incr != [] && s == Server(AofOn, s.mem, s.disk, s.files, Open(Last(s.mem)), s.child, "", s.log)
    requires s.child.Some? ==> s.child.value == s.log && ContentOf(s.files, Last(s.mem)) == ""
    requires DiskInv(Disk(s.files, s.disk)) && ManifestShape(s.mem)
    requires s.disk.base == s.mem.base && s.disk.incr == s.mem.incr && Load(s.files, s.disk) == s.log
    ensures Inv(s)
  {
    hide DiskInv, ManifestShape;
    LoadSame(s.files, s.mem, s.disk);
    hide Load;
    assert s.log + "" == s.log;
  }

  lemma NewIncrExists(files: Files, m: Manifest)
    requires AllExist(files, m)
    ensures AllExist(files[IncrFile(m.currIncr + 1) := ""], GetNewIncr(m))
  {
  }

  lemma CleanupInv(s: Server)
    requires Inv(s)
    ensures Inv(RewriteCleanup(s))
  {
  }

  lemma UnlinkKeeps(files: Files, names: seq<FileName>)
    ensures forall f | f !in names :: ContentOf(Unlink(files, names), f) == ContentOf(files, f)
  {
  }

  /** After the current base becomes history and the rewritten files too, everything old is older. */
  lemma MarkedShape(m: Manifest, writing: bool)
    requires ManifestShape(m) && (writing ==> m.incr != [])
    ensures var m1 := MarkRewritten(GetNewBase(m), writing);
      && ManifestShape(m1) && m1.base == Some(m.currBase + 1) && m1.currIncr == m.currIncr
      && m1.incr == (if writing then [m.incr[|m.incr| - 1]] else [])
  {
    NumbersAreBounded(m);
    var m1 := MarkRewritten(GetNewBase(m), writing);
    var n := if writing then |m.incr| - 1 else |m.incr|;
    assert m1.incr == if writing then [m.incr[n]] else [];
    assert forall k | k in m1.incr :: k in m.incr;
    forall f | f in m1.history
      ensures Older(f, m1)
    {
      if f in IncrNames(m.incr[..n]) {
        var i :| 0 <= i < n && f == IncrFile(m.incr[i]);
      } else if f == BaseFile(m.currBase) {
        assert m1.currBase == m.currBase + 1;
      } else {
        assert f in m.history && Older(f, m);
      }
    }
  }

  lemma NewIncrShape(m: Manifest)
    requires ManifestShape(m)
    ensures ManifestShape(GetNewIncr(m))
  {
    NumbersAreBounded(m);
  }

  /** The child's snapshot, renamed into place, with the one file opened at the fork. */
  lemma LoadRewritten(files: Files, base: nat, num: nat, currBase: nat, history: seq<FileName>)
    ensures Load(files, Manifest(Some(base), [num], history, currBase, num)) ==
            ContentOf(files, BaseFile(base)) + ContentOf(files, IncrFile(num))
  {
    assert [num][..0] == [];
    assert LoadIncr(files, [num]) == "" + ContentOf(files, IncrFile(num));
  }

  lemma FinishOnInv(s: Server, renameIncrOk: bool)
    requires Inv(s) && s.state.AofOn? && s.child.Some?
    ensures Inv(FinishRewrite(s, true, renameIncrOk, true))
  {
    MarkedShape(s.mem, true);
    var s1 := FinishRewrite(s, true, renameIncrOk, true);
    var num := s.mem.incr[|s.mem.incr| - 1];
    LoadRewritten(s1.files, s.mem.currBase + 1, num, s1.mem.currBase, s1.mem.history);
    hide MarkRewritten;
    assert s1.mem == Manifest(Some(s.mem.currBase + 1), [num], s1.mem.history, s.mem.currBase + 1, num);
  }

  lemma FinishOffInv(s: Server, renameIncrOk: bool)
    requires Inv(s) && s.state.AofOff? && s.child.Some?
    ensures Inv(FinishRewrite(s, true, renameIncrOk, true))
  {
    MarkedShape(s.mem, false);
  }

  /** The files after the two renames of a rewrite that switches AOF on. */
  lemma FinishWaitFiles(s: Server)
    requires s.state.WaitRewrite? && s.child.Some? && s.fd == Open(TempIncr)
    ensures var s1, num := FinishRewrite(s, true, true, true), s.mem.currIncr + 1;
      && s1 == Server(AofOn, s1.mem, s1.mem, s1.files, Open(IncrFile(num)), None, s.buf, s.log)
      && s1.mem == MarkRewritten(GetNewBase(GetNewIncr(s.mem)), true)
      && BaseFile(s.mem.currBase + 1) in s1.files && IncrFile(num) in s1.files
      && ContentOf(s1.files, BaseFile(s.mem.currBase + 1)) == s.child.value
      && ContentOf(s1.files, IncrFile(num)) == ContentOf(s.files, TempIncr)
  {
    assert GetNewIncr(GetNewBase(s.mem)) == GetNewBase(GetNewIncr(s.mem));
    hide MarkRewritten;
  }

  /** A server that has one base file and one incremental file, which is open. */
  lemma TwoFiles(s1: Server, base: nat, num: nat)
    requires s1.state.AofOn? && s1.child.None? && s1.disk == s1.mem && ManifestShape(s1.mem)
    requires s1.mem.base == Some(base) && s1.mem.incr == [num] && s1.mem.currIncr == num
    requires s1.fd == Open(IncrFile(num)) && BaseFile(base) in s1.files && IncrFile(num) in s1.files
    requires ContentOf(s1.files, BaseFile(base)) + ContentOf(s1.files, IncrFile(num)) + s1.buf == s1.log
    ensures Inv(s1)
  {
    LoadRewritten(s1.files, base, num, s1.mem.currBase, s1.mem.history);
    hide ContentOf, LoadIncr;
    assert s1.mem == Manifest(Some(base), [num], s1.mem.history, s1.mem.currBase, num);
  }

  /** The switch from waiting to on: the temporary file becomes the first incremental file. */
  lemma FinishWaitInv(s: Server)
    requires Inv(s) && s.state.WaitRewrite? && s.child.Some?
    ensures Inv(FinishRewrite(s, true, true, true))
  {
    hide FinishRewrite, MarkRewritten, HistoryShape, AllExist, Load, ContentOf, GetNewBase;
    FinishWaitFiles(s);
    NewIncrShape(s.mem);
    MarkedShape(GetNewIncr(s.mem), true);
    hide ManifestShape;
    TwoFiles(FinishRewrite(s, true, true, true), s.mem.currBase + 1, s.mem.currIncr + 1);
  }

  /** A rewrite that fails after its child succeeded touches no file the manifest names. */
  lemma FinishFailedInv(s: Server, renameBaseOk: bool, renameIncrOk: bool, persistOk: bool)
    requires Inv(s) && s.child.Some?
    requires !(renameBaseOk && (s.state.WaitRewrite? ==> renameIncrOk) && persistOk)
    ensures Inv(FinishRewrite(s, renameBaseOk, renameIncrOk, persistOk))
  {
    NumbersAreBounded(s.mem);
    assert !Names(s.mem, BaseFile(s.mem.currBase + 1)) && !Names(s.mem, IncrFile(s.mem.currIncr + 1)) && !Names(s.mem, TempIncr);
    hide ManifestShape, DiskShape, Names, Load, MarkRewritten;
    var s1 := FinishRewrite(s, renameBaseOk, renameIncrOk, persistOk);
    assert s1.mem == s.mem && s1.disk == s.disk;
    forall f | Names(s.mem, f)
      ensures ContentOf(s1.files, f) == ContentOf(s.files, f) && (f in s.files ==> f in s1.files)
    {
    }
    LoadFrame(s.files, s1.files, s.mem);
    NamesExist(s.files, s1.files, s.mem);
    NamesExist(s.files, s1.files, s.disk);
    LastIsNamed(s.mem);
    hide AllExist;
  }

  lemma NamesExist(files: Files, files1: Files, m: Manifest)
    requires AllExist(files, m) && forall f | Names(m, f) && f in files :: f in files1
    ensures AllExist(files1, m)
  {
    assert m.base.Some? ==> Names(m, BaseFile(m.base.value));
    assert forall n | n in m.incr :: Names(m, IncrFile(n));
  }

  lemma LastIsNamed(m: Manifest)
    ensures m.incr != [] ==> Names(m, Last(m))
  {
  }

  lemma RemoveHistoryInv(s: Server, persistOk: bool)
    requires Inv(s) && !s.state.Down?
    ensures Inv(RemoveHistory(s, persistOk))
  {
    if s.mem.history != [] {
      var am, files1 := s.mem.(history := []), Unlink(s.files, s.mem.history);
      assert RemoveHistory(s, persistOk) == s.(files := files1, mem := am, disk := if persistOk then am else s.disk);
      UnlinkOld(s.files, s.mem);
      TempIsNotOld(s.mem);
      LoadSame(files1, am, s.mem);
      assert ManifestShape(am);
      ShapeOnDisk(am);
      assert s.state.AofOn? ==> Names(s.mem, Last(s.mem)) by {
        LastIsNamed(s.mem);
      }
      hide RemoveHistory, ManifestShape, DiskShape, Load, Unlink, Names;
    }
  }

  lemma UnlinkOld(files: Files, m: Manifest)
    requires ManifestShape(m) && AllExist(files, m)
    ensures var files1 := Unlink(files, m.history);
      && AllExist(files1, m) && Load(files1, m) == Load(files, m)
      && (forall f | f !in m.history :: ContentOf(files1, f) == ContentOf(files, f))
      && forall f | Names(m, f) :: f !in m.history && ContentOf(files1, f) == ContentOf(files, f)
  {
    OldIsUnnamed(m);
    UnlinkKeeps(files, m.history);
    hide ManifestShape, Load;
    LoadFrame(files, Unlink(files, m.history), m);
    assert m.base.Some? ==> Names(m, BaseFile(m.base.value));
    assert forall n | n in m.incr :: Names(m, IncrFile(n));
  }

  lemma OldIsUnnamed(m: Manifest)
    requires ManifestShape(m)
    ensures forall f | f in m.history :: !Names(m, f)
  {
    forall f | f in m.history
      ensures !Names(m, f)
    {
      assert Older(f, m);
    }
  }

  lemma TempIsNotOld(m: Manifest)
    requires ManifestShape(m)
    ensures TempIncr !in m.history
  {
    assert TempIncr in m.history ==> Older(TempIncr, m);
  }

  lemma StopInv(s: Server, persistOk: bool)
    requires Inv(s) && (s.state.WaitRewrite? || s.state.AofOn?)
    ensures Inv(Stop(s, persistOk))
  {
    FlushInv(s, |s.buf|);
    ShapeOnDisk(s.mem);
    hide Load, ManifestShape, DiskShape;
  }

  lemma WriteInv(s: Server, bytes: string)
    requires Inv(s) && !s.state.Down?
    ensures Inv(Next(s, Write(bytes)))
  {
    hide DiskInv, ManifestShape, Load;
    var b := s.buf;
    if s.state.AofOn? {
      assert Load(s.files, s.mem) + (b + bytes) == Load(s.files, s.mem) + b + bytes;
      if s.child.Some? {
        var c := s.child.value + ContentOf(s.files, Last(s.mem));
        assert c + (b + bytes) == c + b + bytes;
      }
    } else if s.state.WaitRewrite? && s.child.Some? {
      var c := s.child.value + ContentOf(s.files, TempIncr);
      assert c + (b + bytes) == c + b + bytes;
    }
  }

  // ---------------------------------------------------------------- starting

  lemma StartManifestShape(m: Manifest)
    requires DiskShape(m) && (m.incr == [] ==> IncrFile(1) !in m.history)
    ensures var am := StartManifest(m);
      && DiskShape(am) && ManifestShape(am.(history := [])) && am.history == m.history
      && am.incr == (if m.incr == [] then [1] else m.incr)
      && am.base == (if m.base.None? && m.incr == [] then Some(1) else m.base)
  {
    StartManifestIs(m);
    hide StartManifest;
    if m.incr == [] {
      FirstManifestShape(m, StartManifest(m));
    } else {
      hide Superseded;
      assert forall f | f in m.history :: Superseded(f, StartManifest(m)) by {
        assert forall f :: Superseded(f, m) <==> Superseded(f, StartManifest(m)) by {
          SupersededSame(m, StartManifest(m));
        }
      }
    }
  }

  lemma SupersededSame(m: Manifest, m1: Manifest)
    requires m.base == m1.base && m.incr == m1.incr
    ensures forall f :: Superseded(f, m) <==> Superseded(f, m1)
  {
  }

  lemma StartManifestIs(m: Manifest)
    ensures StartManifest(m) ==
      if m.incr != [] then Reload(m)
      else if m.base.None? then Manifest(Some(1), [1], m.history, 1, 1)
      else Manifest(m.base, [1], m.history, m.base.value, 1)
  {
    assert [] + m.history == m.history;
  }

  lemma FirstManifestShape(m: Manifest, am: Manifest)
    requires DiskShape(m) && m.incr == [] && IncrFile(1) !in m.history
    requires am == Manifest(if m.base.None? then Some(1) else m.base, [1], m.history, if m.base.None? then 1 else m.base.value, 1)
    ensures DiskShape(am) && ManifestShape(am.(history := []))
  {
    forall f | f in m.history
      ensures Superseded(f, am)
    {
      assert Superseded(f, m);
    }
    hide Superseded;
  }

  lemma OpenLoads(s: Server)
    requires DiskInv(Disk(s.files, s.disk)) && StartIsSafe(s)
    ensures var s1 := OpenOnStart(s);
      && s1.log == Load(s.files, s.disk) == Load(s1.files, s1.mem) && DiskInv(Disk(s1.files, s1.disk))
      && ManifestShape(s1.mem.(history := []))
  {
    StartManifestShape(s.disk);
    var s1 := OpenOnStart(s);
    hide ManifestShape, DiskShape;
    if s.disk.incr == [] {
      OpenEmpty(s, s1);
    } else {
      assert Last(s1.mem) == IncrFile(s.disk.incr[|s.disk.incr| - 1]);
      hide StartManifest;
      LoadFrame(s.files, s1.files, s.disk);
    }
  }

  lemma OpenEmpty(s: Server, s1: Server)
    requires s1 == OpenOnStart(s) && s.disk.incr == [] && ContentOf(s.files, IncrFile(1)) == ""
    requires s1.mem.incr == [1] && s1.mem.base == if s.disk.base.Some? then s.disk.base else Some(1)
    requires AllExist(s.files, s.disk)
    ensures Load(s1.files, s1.mem) == Load(s.files, s.disk) && AllExist(s1.files, s1.mem)
  {
    hide StartManifest;
    assert [1][..0] == [] && LoadIncr(s1.files, [1][..0]) == "";
    assert LoadIncr(s1.files, [1]) == "" + ContentOf(s1.files, IncrFile(1));
    assert LoadIncr(s.files, []) == "";
  }

  /** Deleting superseded files, and the list of them, leaves what is loaded. */
  lemma DeletedInv(s: Server, persistOk: bool)
    requires DiskInv(Disk(s.files, s.disk))
    requires s.mem.base == s.disk.base && s.mem.incr == s.disk.incr && s.mem.history == s.disk.history
    ensures var s1 := RemoveHistory(s, persistOk);
      && DiskInv(Disk(s1.files, s1.disk)) && Load(s1.files, s1.disk) == Load(s.files, s.disk)
      && s1.disk.base == s.disk.base && s1.disk.incr == s.disk.incr
      && forall f | Names(s.disk, f) :: ContentOf(s1.files, f) == ContentOf(s.files, f)
  {
    var s1 := RemoveHistory(s, persistOk);
    forall f | Names(s.disk, f)
      ensures f !in s.disk.history
    {
      assert f in s.disk.history ==> Superseded(f, s.disk);
    }
    UnlinkKeeps(s.files, s.mem.history);
    LoadFrame(s.files, s1.files, s.disk);
    assert Load(s1.files, s1.disk) == Load(s1.files, s.disk);
    hide Load;
  }

  lemma StartInv(s: Server, persistOk: bool)
    requires Inv(s) && s.state.Down? && StartIsSafe(s)
    ensures var s1 := StartServer(s, persistOk);
      Inv(s1) && s1.log == Load(s.files, s.disk) == Load(s1.files, s1.disk)
  {
    OpenLoads(s);
    var s0, s1 := OpenOnStart(s), StartServer(s, persistOk);
    assert s0.mem.incr != [] && s0 == Server(AofOn, s0.mem, s0.mem, s0.files, Open(Last(s0.mem)), None, "", s0.log);
    hide ManifestShape, DiskInv, StartManifest, OpenOnStart, Load;
    assert StartServer(s, persistOk) == RemoveHistory(s0, persistOk);
    DeletedInv(s0, persistOk);
    AfterDeletion(s0, persistOk);
    hide RemoveHistory, StartServer;
    JustOpened(s1);
  }

  lemma AfterDeletion(s: Server, persistOk: bool)
    ensures var s1 := RemoveHistory(s, persistOk);
      && s1 == s.(files := s1.files, mem := s.mem.(history := []), disk := s1.disk)
      && (s1.disk == s.disk || s1.disk == s.mem.(history := []))
  {
  }

  lemma LoadSame(files: Files, m: Manifest, m1: Manifest)
    requires m.base == m1.base && m.incr == m1.incr
    ensures Load(files, m) == Load(files, m1)
  {
  }

  lemma StartOffInv(s: Server, dataset: string, persistOk: bool)
    requires Inv(s) && s.state.Down?
    ensures Inv(StartServerOff(s, dataset, persistOk))
  {
    var s0 := Server(AofOff, Reload(s.disk), s.disk, s.files, Closed, None, "", dataset);
    DeletedInv(s0, persistOk);
    hide Load;
    assert DiskShape(s.disk) ==> ManifestShape(Reload(s.disk).(history := []));
  }
}
