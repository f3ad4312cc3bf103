/** Crashes inside the handlers: what every prefix of a handler's disk operations leaves behind. */
module AofCrash {
  import opened Wrappers
  import opened AofManifest
  import opened AofSafety

  function DiskOf(s: Server): Disk {
    Disk(s.files, s.disk)
  }

  function LoadDisk(d: Disk): string {
    Load(d.files, d.manifest)
  }

  /** Nothing is added to or taken from what is loaded, and a chain that has a file to append to keeps one. */
  predicate Same(d: Disk, d1: Disk) {
    LoadDisk(d1) == LoadDisk(d) && (d.manifest.incr != [] ==> d1.manifest.incr != [])
  }

  /** After every prefix of `ops` the manifest is sound and names existing files; `same`: and the files
      it names hold what they held before. */
  ghost predicate Survives(d: Disk, ops: seq<DiskOp>, same: bool) {
    forall k | 0 <= k <= |ops| :: SurvivesAt(d, ops, k, same)
  }

  ghost predicate SurvivesAt(d: Disk, ops: seq<DiskOp>, k: nat, same: bool)
    requires k <= |ops|
  {
    var cut := DoAll(d, ops[..k]);
    DiskInv(cut) && (same ==> Same(d, cut))
  }

  lemma {:induction false} DoAllAppend(d: Disk, a: seq<DiskOp>, b: seq<DiskOp>)
    ensures DoAll(d, a + b) == DoAll(DoAll(d, a), b)
    decreases |a|
  {
    if a == [] {
      assert a + b == b;
    } else {
      assert (a + b)[0] == a[0] && (a + b)[1..] == a[1..] + b;
      DoAllAppend(Do(d, a[0]), a[1..], b);
    }
  }

  lemma SurvivesAppend(d: Disk, a: seq<DiskOp>, b: seq<DiskOp>, same: bool)
    requires Survives(d, a, same) && Survives(DoAll(d, a), b, same)
    ensures Survives(d, a + b, same)
  {
    hide DiskInv, LoadDisk, DoAll;
    forall k | 0 <= k <= |a + b|
      ensures SurvivesAt(d, a + b, k, same)
    {
      if k <= |a| {
        assert (a + b)[..k] == a[..k] && SurvivesAt(d, a, k, same);
      } else {
        assert (a + b)[..k] == a + b[..k - |a|] && a[..|a|] == a;
        DoAllAppend(d, a, b[..k - |a|]);
        assert SurvivesAt(DoAll(d, a), b, k - |a|, same) && SurvivesAt(d, a, |a|, same);
      }
    }
  }

  lemma SurvivesNothing(d: Disk, same: bool)
    requires DiskInv(d)
    ensures Survives(d, [], same)
  {
  }

  lemma SurvivesOne(d: Disk, op: DiskOp, same: bool)
    requires DiskInv(d) && DiskInv(Do(d, op)) && (same ==> Same(d, Do(d, op)))
    ensures Survives(d, [op], same)
  {
    assert DoAll(d, [op]) == Do(d, op) by {
      assert [op][1..] == [];
    }
    hide DiskInv, LoadDisk, Do;
    forall k | 0 <= k <= 1
      ensures SurvivesAt(d, [op], k, same)
    {
      assert [op][..k] == if k == 0 then [] else [op];
    }
  }

  /** An operation on files the manifest does not name; opening a file for appending never harms. */
  predicate Aside(m: Manifest, op: DiskOp) {
    match op
    case Append(name, _) => !Names(m, name)
    case Truncate(name) => !Names(m, name)
    case OpenAppend(_) => true
    case Install(name, _) => !Names(m, name)
    case Rename(from, to) => !Names(m, from) && !Names(m, to)
    case Remove(name) => !Names(m, name)
    case Persist(_) => false
  }

  lemma AsideKeeps(d: Disk, op: DiskOp)
    requires DiskInv(d) && Aside(d.manifest, op)
    ensures Do(d, op).manifest == d.manifest && DiskInv(Do(d, op)) && LoadDisk(Do(d, op)) == LoadDisk(d)
  {
    var d1 := Do(d, op);
    hide DiskShape, Load;
    forall f | Names(d.manifest, f)
      ensures ContentOf(d1.files, f) == ContentOf(d.files, f)
    {
    }
    LoadFrame(d.files, d1.files, d.manifest);
  }

  lemma {:induction false} AsideSurvives(d: Disk, ops: seq<DiskOp>)
    requires DiskInv(d) && forall op | op in ops :: Aside(d.manifest, op)
    ensures Survives(d, ops, true) && DoAll(d, ops).manifest == d.manifest
    ensures DiskInv(DoAll(d, ops)) && LoadDisk(DoAll(d, ops)) == LoadDisk(d)
    decreases |ops|
  {
    if ops == [] {
      SurvivesNothing(d, true);
    } else {
      AsideKeeps(d, ops[0]);
      SurvivesOne(d, ops[0], true);
      assert [ops[0]] + ops[1..] == ops && DoAll(d, [ops[0]]) == Do(d, ops[0]);
      hide DiskInv, LoadDisk, Do, Aside;
      AsideSurvives(Do(d, ops[0]), ops[1..]);
      SurvivesAppend(d, [ops[0]], ops[1..], true);
    }
  }

  /** Operations aside from the named files, then possibly the manifest of the next state. */
  lemma AsideThenPersist(s: Server, t: Server, ops: seq<DiskOp>, last: seq<DiskOp>)
    requires Inv(s) && Inv(t) && (forall op | op in ops :: Aside(s.disk, op))
    requires last == [] || last == [Persist(t.disk)]
    requires DoAll(DiskOf(s), ops + last) == DiskOf(t)
    ensures Survives(DiskOf(s), ops + last, false)
    ensures Same(DiskOf(s), DiskOf(t)) ==> Survives(DiskOf(s), ops + last, true)
  {
    var d := DiskOf(s);
    assert DiskInv(d) && DiskInv(DiskOf(t));
    AsideSurvives(d, ops);
    var d1 := DoAll(d, ops);
    DoAllAppend(d, ops, last);
    if last == [] {
      assert ops + last == ops;
    } else {
      assert [Persist(t.disk)][1..] == [] && Do(d1, Persist(t.disk)) == DiskOf(t);
      SurvivesOne(d1, Persist(t.disk), false);
    }
    hide DiskInv, Do, Aside, Inv, DoAll;
    SurvivesWeaker(d, ops);
    if last != [] {
      SurvivesAppend(d, ops, last, false);
      if Same(d, DiskOf(t)) {
        SurvivesOne(d1, Persist(t.disk), true);
        SurvivesAppend(d, ops, last, true);
      }
    }
  }

  lemma SurvivesWeaker(d: Disk, ops: seq<DiskOp>)
    requires Survives(d, ops, true)
    ensures Survives(d, ops, false)
  {
    forall k | 0 <= k <= |ops|
      ensures SurvivesAt(d, ops, k, false)
    {
      assert SurvivesAt(d, ops, k, true);
    }
  }

  // ---------------------------------------------------------------- the programs end in the next state

  lemma {:induction false} RemovesUnlink(d: Disk, names: seq<FileName>)
    ensures DoAll(d, RemoveOps(names)) == d.(files := Unlink(d.files, names))
    ensures forall op | op in RemoveOps(names) :: op.Remove? && op.name in names
    decreases |names|
  {
    if names == [] {
      assert Unlink(d.files, names) == d.files;
    } else {
      var d1 := Do(d, Remove(names[0]));
      RemovesUnlink(d1, names[1..]);
      assert RemoveOps(names)[1..] == RemoveOps(names[1..]);
      assert names == [names[0]] + names[1..];
      assert Unlink(Unlink(d.files, [names[0]]), names[1..]) == Unlink(d.files, names);
    }
  }

  lemma Two(d: Disk, a: DiskOp, rest: seq<DiskOp>)
    ensures DoAll(d, [a] + rest) == DoAll(Do(d, a), rest)
    ensures DoAll(d, [a]) == Do(d, a) && DoAll(d, []) == d
  {
    assert ([a] + rest)[1..] == rest && [a][1..] == [];
  }

  lemma FlushProgram(s: Server, n: nat)
    requires n <= |s.buf|
    ensures DoAll(DiskOf(s), FlushOps(s, n)) == DiskOf(FlushTo(s, n))
  {
    if s.fd.Open? {
      Two(DiskOf(s), Append(s.fd.name, s.buf[..n]), []);
    }
  }

  lemma StartRewriteProgram(s: Server, openOk: bool, persistOk: bool, forkOk: bool)
    requires !s.state.Down?
    ensures DoAll(DiskOf(s), StartRewriteOps(s, openOk, persistOk)) == DiskOf(StartRewrite(s, openOk, persistOk, forkOk))
  {
    var am := GetNewIncr(s.mem);
    var first := if s.state.AofOn? then Truncate(IncrFile(am.currIncr)) else Truncate(TempIncr);
    Two(DiskOf(s), first, [Persist(am)]);
    Two(Do(DiskOf(s), first), Persist(am), []);
  }

  lemma HistoryProgram(s: Server, persistOk: bool)
    ensures DoAll(DiskOf(s), HistoryOps(s.mem, persistOk)) == DiskOf(RemoveHistory(s, persistOk))
  {
    var last := if s.mem.history != [] && persistOk then [Persist(s.mem.(history := []))] else [];
    RemovesUnlink(DiskOf(s), s.mem.history);
    DoAllAppend(DiskOf(s), RemoveOps(s.mem.history), last);
    var d1 := DoAll(DiskOf(s), RemoveOps(s.mem.history));
    Two(d1, Persist(s.mem.(history := [])), []);
    assert s.mem.history == [] ==> Unlink(s.files, s.mem.history) == s.files;
  }

  lemma OpenProgram(s: Server)
    ensures DoAll(DiskOf(s), OpenOps(s.disk)) == DiskOf(OpenOnStart(s))
  {
    var am := StartManifest(s.disk);
    var rest := [OpenAppend(Last(am)), Persist(am)];
    var d := DiskOf(s);
    Two(d, Install(BaseFile(1), ""), rest);
    var d1 := if s.disk.base.None? && s.disk.incr == [] then Do(d, Install(BaseFile(1), "")) else d;
    assert rest == [rest[0]] + [Persist(am)] && [] + rest == rest;
    Two(d1, rest[0], [Persist(am)]);
    Two(Do(d1, rest[0]), Persist(am), []);
  }

  lemma CleanupProgram(s: Server)
    ensures DoAll(DiskOf(s), CleanupOps(s)) == DiskOf(RewriteCleanup(s))
  {
    Two(DiskOf(s), Remove(TempIncr), []);
  }

  /** What precedes the manifest in the program of a finished rewrite, and the manifest. */
  function FinishAside(s: Server, renameBaseOk: bool, renameIncrOk: bool, persistOk: bool): seq<DiskOp>
    requires s.child.Some?
  {
    var base, incr := BaseFile(s.mem.currBase + 1), IncrFile(s.mem.currIncr + 1);
    var first := Install(base, s.child.value);
    if !renameBaseOk then CleanupOps(s)
    else if !s.state.WaitRewrite? then if persistOk then [first] else [first, Remove(base)]
    else if !renameIncrOk then [first, Remove(base), Remove(TempIncr)]
    else if persistOk then [first, Rename(TempIncr, incr)]
    else [first, Rename(TempIncr, incr), Remove(base), Remove(incr), Remove(TempIncr)]
  }

  predicate Finishes(s: Server, renameBaseOk: bool, renameIncrOk: bool, persistOk: bool) {
    renameBaseOk && (s.state.WaitRewrite? ==> renameIncrOk) && persistOk
  }

  lemma FinishProgram(s: Server, renameBaseOk: bool, renameIncrOk: bool, persistOk: bool)
    requires s.child.Some? && !s.state.Down?
    ensures DoAll(DiskOf(s), FinishOps(s, renameBaseOk, renameIncrOk, persistOk)) ==
            DiskOf(FinishRewrite(s, renameBaseOk, renameIncrOk, persistOk))
  {
    hide MarkRewritten, DoAll;
    var d, am := DiskOf(s), GetNewBase(s.mem);
    var base := BaseFile(am.currBase);
    var d1 := Do(d, Install(base, s.child.value));
    if !renameBaseOk {
      CleanupProgram(s);
    } else if !s.state.WaitRewrite? {
      var op := if persistOk then Persist(MarkRewritten(am, !s.fd.Closed?)) else Remove(base);
      Two(d, Install(base, s.child.value), [op]);
      Two(d1, op, []);
    } else if !renameIncrOk {
      Two(d, Install(base, s.child.value), [Remove(base)] + CleanupOps(s));
      assert [Install(base, s.child.value)] + ([Remove(base)] + CleanupOps(s)) == FinishOps(s, true, false, persistOk);
      Two(d1, Remove(base), CleanupOps(s));
      Two(Do(d1, Remove(base)), Remove(TempIncr), []);
    } else {
      FinishWaitProgram(s, d1, persistOk);
      var rest := FinishWaitOps(s, persistOk);
      Two(d, Install(base, s.child.value), rest);
      assert [Install(base, s.child.value)] + rest == FinishOps(s, true, true, persistOk);
    }
  }

  lemma ThreeRemoves(a: FileName, b: FileName, c: FileName)
    ensures RemoveOps([a, b, c]) == [Remove(a), Remove(b), Remove(c)]
  {
    assert [a, b, c][1..] == [b, c] && [b, c][1..] == [c] && [c][1..] == [];
    assert RemoveOps([c]) == [Remove(c)];
    assert RemoveOps([b, c]) == [Remove(b)] + RemoveOps([c]);
    assert RemoveOps([a, b, c]) == [Remove(a)] + RemoveOps([b, c]);
  }

  function FinishWaitOps(s: Server, persistOk: bool): seq<DiskOp> {
    var am := GetNewIncr(GetNewBase(s.mem));
    var incr := IncrFile(am.currIncr);
    [Rename(TempIncr, incr)] +
    if persistOk then [Persist(MarkRewritten(am, !s.fd.Closed?))]
    else [Remove(BaseFile(am.currBase)), Remove(incr)] + CleanupOps(s)
  }

  lemma FinishWaitProgram(s: Server, d: Disk, persistOk: bool)
    requires s.child.Some? && s.state.WaitRewrite?
    requires d == Do(DiskOf(s), Install(BaseFile(s.mem.currBase + 1), s.child.value))
    ensures DoAll(d, FinishWaitOps(s, persistOk)) == DiskOf(FinishRewrite(s, true, true, persistOk))
  {
    hide MarkRewritten, DoAll;
    var am := GetNewIncr(GetNewBase(s.mem));
    var base, incr := BaseFile(am.currBase), IncrFile(am.currIncr);
    var d2 := Do(d, Rename(TempIncr, incr));
    if persistOk {
      Two(d, Rename(TempIncr, incr), [Persist(MarkRewritten(am, !s.fd.Closed?))]);
      Two(d2, Persist(MarkRewritten(am, !s.fd.Closed?)), []);
    } else {
      var rest := [Remove(base), Remove(incr), Remove(TempIncr)];
      Two(d, Rename(TempIncr, incr), rest);
      assert [Rename(TempIncr, incr)] + rest == FinishWaitOps(s, false);
      ThreeRemoves(base, incr, TempIncr);
      RemovesUnlink(d2, [base, incr, TempIncr]);
      var u := Unlink(Unlink(d2.files, [base, incr]), [TempIncr]);
      assert Unlink(d2.files, [base, incr, TempIncr]) == u;
    }
  }
}
