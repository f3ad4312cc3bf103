/** What a failed rewrite and switching AOF off leave behind. */
module AofEndings {
  import opened Wrappers
  import opened AofManifest
  import opened AofSafety
  import opened AofRuns

  /** In every run a rewrite that fails gives the child up and nothing else while AOF is on or off. While AOF is being
      switched on, what was collected for the rewrite goes: the buffer, the temporary file and its descriptor. */
  lemma FailedRewrite(s0: Server, events: seq<Event>)
    requires Initial(s0) && IsRun(s0, events) && Enabled(After(s0, events), RewriteFailed)
    ensures var s := After(s0, events); var t := Next(s, RewriteFailed);
      && t.child == None && t.mem == s.mem && t.disk == s.disk && t.state == s.state && t.log == s.log
      && (forall f | f != TempIncr :: ContentOf(t.files, f) == ContentOf(s.files, f))
      && (if s.state.WaitRewrite? then t.buf == "" && TempIncr !in t.files && t.fd != Open(TempIncr)
          else t.buf == s.buf && t.files == s.files && t.fd == s.fd)
  {
    hide Load, IsRun, After, Initial;
  }

  /** In every run switching AOF off writes out the whole buffer and leaves files that hold, if AOF was on, exactly what
      was executed; no file is written any more and no child is waited for. */
  lemma StoppedHolds(s0: Server, events: seq<Event>, persistOk: bool)
    requires Initial(s0) && IsRun(s0, events) && Enabled(After(s0, events), StopAppendOnly(persistOk))
    ensures var s := After(s0, events); var t := Next(s, StopAppendOnly(persistOk));
      && t.state.AofOff? && t.fd == Closed && t.child == None && t.buf == "" && t.log == s.log && t.mem == s.mem
      && (s.state.AofOn? ==> Load(t.files, t.disk) == s.log)
      && (forall f | s.fd != Open(f) :: ContentOf(t.files, f) == ContentOf(s.files, f))
      && (s.fd.Open? ==> ContentOf(t.files, s.fd.name) == ContentOf(s.files, s.fd.name) + s.buf)
  {
    RunFromStart(s0, events);
    var s := After(s0, events);
    hide IsRun, After, Initial, Load;
    Stopped(s, persistOk);
  }

  lemma RunFromStart(s0: Server, events: seq<Event>)
    requires Initial(s0) && IsRun(s0, events)
    ensures Inv(After(s0, events))
  {
    hide *;
    InitialInv(s0);
    RunInv(s0, events);
  }

  lemma Stopped(s: Server, persistOk: bool)
    requires Inv(s) && (s.state.WaitRewrite? || s.state.AofOn?)
    ensures var t := Stop(s, persistOk);
      && t.state.AofOff? && t.fd == Closed && t.child == None && t.buf == "" && t.log == s.log && t.mem == s.mem
      && (s.state.AofOn? ==> Load(t.files, t.disk) == s.log)
      && (forall f | s.fd != Open(f) :: ContentOf(t.files, f) == ContentOf(s.files, f))
      && (s.fd.Open? ==> ContentOf(t.files, s.fd.name) == ContentOf(s.files, s.fd.name) + s.buf)
  {
    var flushed := FlushTo(s, |s.buf|);
    FlushInv(s, |s.buf|);
    assert flushed.buf == "" && s.buf[..|s.buf|] == s.buf;
    assert s.state.AofOn? ==> Load(flushed.files, flushed.mem) + "" == s.log;
    hide Load;
  }
}
