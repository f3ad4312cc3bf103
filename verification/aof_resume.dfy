/** Log files that are opened again: what a start leaves of a file whose tail was lost, and what becomes of
    the commands that are appended to it then. */
module AofResume {
  import opened Wrappers
  import opened AofLog
  import opened AofLoader

  /** What a start leaves of the last file: a short read truncates it behind the last whole command. */
  function AfterLoad(file: string): (r: string)
    ensures r <= file
  {
    var l := LoadFrom(file, 0, 0, 0);
    if l.status == Truncated then file[..l.valid] else file
  }

  /** The file ends inside a line. */
  predicate Unended(file: string) {
    file != "" && file[|file| - 1] != '\n'
  }

  predicate AllValid(entries: seq<Entry>) {
    forall e | e in entries :: ValidEntry(e)
  }

  // ---------------------------------------------------------------- whole logs

  lemma LoadWhole(file: string, pos: nat, entries: seq<Entry>, db: int, valid: nat)
    requires pos <= |file| && file[pos..] == AllBytes(entries) && AllValid(entries)
    ensures var r := LoadFrom(file, pos, db, valid);
      r.commands == Meaning(entries, db) && r.db == EndDb(entries, db) && r.status == Complete
  {
    WholeAll(entries);
    assert file[pos..] == AllBytes(entries)[..|AllBytes(entries)|] && entries[..|entries|] == entries;
    hide *;
    LoadCutLog(file, pos, entries, |AllBytes(entries)|, db, valid);
  }

  /** One whole entry at the front of a file is carried out first. */
  lemma LoadOne(file: string, pos: nat, e: Entry, db: int, valid: nat)
    requires pos <= |file| && ValidEntry(e) && Bytes(e) <= file[pos..]
    ensures var pos1 := pos + |Bytes(e)|;
      && pos1 <= |file|
      && var r := LoadFrom(file, pos1, EndDb([e], db), if e.Cmd? then pos1 else valid);
         LoadFrom(file, pos, db, valid) == r.(commands := Meaning([e], db) + r.commands)
  {
    LoadWholeEntry(file, pos, e, db, valid);
    OneMeaning(e, db);
    hide *;
    if e.Note? {
      var r := LoadFrom(file, pos + |Bytes(e)|, db, valid);
      assert [] + r.commands == r.commands;
    }
  }

  /** Whole entries at the front of a file are carried out first. */
  lemma {:induction false} LoadFront(file: string, pos: nat, entries: seq<Entry>, db: int, valid: nat) returns (valid1: nat)
    requires pos <= |file| && AllBytes(entries) <= file[pos..] && AllValid(entries)
    ensures pos + |AllBytes(entries)| <= |file|
    ensures var r := LoadFrom(file, pos + |AllBytes(entries)|, EndDb(entries, db), valid1);
      LoadFrom(file, pos, db, valid) == r.(commands := Meaning(entries, db) + r.commands)
    decreases |entries|
  {
    hide *;
    FirstOfLog(entries);
    if entries == [] {
      valid1 := valid;
      Unchanged(LoadFrom(file, pos, db, valid));
      NoMeaning(db);
    } else {
      var e, more := entries[0], entries[1..];
      PrefixParts(file, pos, Bytes(e), AllBytes(more));
      LoadOne(file, pos, e, db, valid);
      var pos1 := pos + |Bytes(e)|;
      valid1 := LoadFront(file, pos1, more, EndDb([e], db), if e.Cmd? then pos1 else valid);
      MeaningAppend([e], more, db);
      Chained(LoadFrom(file, pos, db, valid), Meaning([e], db),
              LoadFrom(file, pos1, EndDb([e], db), if e.Cmd? then pos1 else valid), Meaning(more, EndDb([e], db)),
              LoadFrom(file, pos1 + |AllBytes(more)|, EndDb(more, EndDb([e], db)), valid1));
    }
  }

  /** A line that starts with neither sign, a command without arguments, or a command in which something else stands
      for an argument. */
  ghost predicate Damaged(s: string) {
    || (s != "" && s[0] != '*' && s[0] != '#')
    || "*0\r\n" <= s
    || exists n: nat, args, bad :: s == DamagedCommand(n, args, bad) && 0 < n < 0x8000_0000 && |args| < n &&
         bad != "" && bad[0] != '$' && forall a | a in args :: |a| < 0x8000_0000_0000_0000
  }

  lemma DamagedIsMalformed(s: string)
    requires Damaged(s)
    ensures ReadOne(s) == Malformed
  {
    if (s != "" && s[0] != '*' && s[0] != '#') || "*0\r\n" <= s {
      StartDamaged(s);
    } else {
      var n: nat, args, bad :| s == DamagedCommand(n, args, bad) && 0 < n < 0x8000_0000 && |args| < n &&
        bad != "" && bad[0] != '$' && forall a | a in args :: |a| < 0x8000_0000_0000_0000;
      hide *;
      CommandDamaged(n, args, bad);
    }
  }

  /** A log that is damaged behind whole entries is corrupt, not cut: what stands before the damage has been carried
      out, in its databases, and nothing else. */
  lemma DamagedLog(entries: seq<Entry>, damage: string)
    requires AllValid(entries) && Damaged(damage)
    ensures var r := LoadFrom(AllBytes(entries) + damage, 0, 0, 0);
      r.status == Corrupt && r.commands == Meaning(entries, 0) && r.db == EndDb(entries, 0)
  {
    hide *;
    DamagedIsMalformed(damage);
    var file := AllBytes(entries) + damage;
    assert file[0..] == file && file[|AllBytes(entries)|..] == damage;
    var valid := LoadFront(file, 0, entries, 0, 0);
    LoadStep(file, |AllBytes(entries)|, EndDb(entries, 0), valid);
    assert Meaning(entries, 0) + [] == Meaning(entries, 0);
  }

  lemma Unchanged(r: Loaded)
    ensures r == r.(commands := [] + r.commands)
  {
    assert [] + r.commands == r.commands;
  }

  lemma NoMeaning(db: int)
    ensures Meaning([], db) == [] && EndDb([], db) == db
  {
  }

  lemma FirstOfLog(entries: seq<Entry>)
    requires AllValid(entries)
    ensures entries == [] ==> AllBytes(entries) == ""
    ensures entries != [] ==>
      && entries == [entries[0]] + entries[1..] && AllBytes(entries) == Bytes(entries[0]) + AllBytes(entries[1..])
      && ValidEntry(entries[0]) && AllValid(entries[1..])
  {
    hide Bytes, ValidEntry;
  }

  lemma Chained(all: Loaded, a: seq<Executed>, middle: Loaded, b: seq<Executed>, last: Loaded)
    requires all == middle.(commands := a + middle.commands) && middle == last.(commands := b + last.commands)
    ensures all == last.(commands := a + b + last.commands)
  {
    assert a + (b + last.commands) == a + b + last.commands;
  }

  lemma PrefixParts(s: string, pos: nat, a: string, b: string)
    requires pos <= |s| && a + b <= s[pos..]
    ensures pos + |a| + |b| <= |s| && a <= s[pos..] && b <= s[pos + |a|..]
  {
    var rest := s[pos..];
    assert rest[..|a + b|] == a + b;
    assert rest[..|a|] == (a + b)[..|a|] == a;
    assert s[pos + |a|..] == rest[|a|..];
    assert rest[|a|..][..|b|] == (a + b)[|a|..] == b;
  }

  // ---------------------------------------------------------------- the file that a start leaves

  /** The number of entries up to the last command. */
  function ToLastCommand(entries: seq<Entry>): (n: nat)
    ensures n <= |entries|
  {
    if entries == [] then 0
    else
      var n := ToLastCommand(entries[1..]);
      if n > 0 || entries[0].Cmd? then n + 1 else 0
  }

  lemma {:induction false} UpToLastCommand(entries: seq<Entry>, pos: nat, valid: nat, db: int)
    ensures var n := ToLastCommand(entries);
      && LastCommandEnd(entries, pos, valid) == (if n == 0 then valid else pos + |AllBytes(entries[..n])|)
      && Meaning(entries[..n], db) == Meaning(entries, db) && EndDb(entries[..n], db) == EndDb(entries, db)
    decreases |entries|
  {
    if entries != [] {
      var e, more := entries[0], entries[1..];
      var n, pos1 := ToLastCommand(entries), pos + |Bytes(e)|;
      UpToLastCommand(more, pos1, if e.Cmd? then pos1 else valid, if e.Cmd? then DbAfter(e.argv, db) else db);
      assert n > 0 ==> entries[..n] == [e] + more[..n - 1] && entries[..n][1..] == more[..n - 1];
      assert AllBytes([]) == "";
      hide DbAfter, RunsIn, Bytes;
    }
  }

  /** A part of an annotation, without the end of its line. */
  predicate PartOfNote(part: string) {
    part != "" && part[0] == '#' && |part| <= 30 && forall i | 0 <= i < |part| :: part[i] != '\n'
  }

  /** A cut log is its whole entries and the part of the next one. */
  lemma {:induction false} CutAt(entries: seq<Entry>, k: nat) returns (part: string)
    requires k <= |AllBytes(entries)| && AllValid(entries)
    ensures AllBytes(entries)[..k] == AllBytes(entries[..Whole(entries, k)]) + part
    ensures !CutsCommand(entries, k) ==> if CutsNote(entries, k) then PartOfNote(part) else part == ""
    ensures CutsCommand(entries, k) ==> !CutsNote(entries, k)
    decreases |entries|
  {
    if entries == [] {
      part := "";
    } else {
      var e, more := entries[0], entries[1..];
      assert e in entries && forall x | x in more :: x in entries;
      assert AllBytes(entries) == Bytes(e) + AllBytes(more) && AllValid(more);
      FirstBytes(entries, k);
      assert CutsNote(entries, k) == if k < |Bytes(e)| then k > 0 && e.Note? else CutsNote(more, k - |Bytes(e)|);
      hide CutsCommand, CutsNote, Whole, PartOfNote;
      if k < |Bytes(e)| {
        part := CutFirst(e, AllBytes(more), k);
        assert entries[..0] == [] && AllBytes([]) == "" && "" + part == part;
      } else {
        var n := Whole(more, k - |Bytes(e)|);
        part := CutAt(more, k - |Bytes(e)|);
        BytesOfMore(entries, n);
        hide *;
        CutBehind(Bytes(e), AllBytes(more), k, AllBytes(more[..n]), part);
      }
    }
  }

  lemma CutFirst(e: Entry, more: string, k: nat) returns (part: string)
    requires ValidEntry(e) && k < |Bytes(e)|
    ensures part == (Bytes(e) + more)[..k] && (k == 0 ==> part == "") && (k > 0 && e.Note? ==> PartOfNote(part))
  {
    part := Bytes(e)[..k];
    if e.Note? && k > 0 {
      NotePart(e.ts, k);
    }
    hide Bytes, PartOfNote;
  }

  lemma BytesOfMore(entries: seq<Entry>, n: nat)
    requires entries != [] && n < |entries|
    ensures AllBytes(entries[..n + 1]) == Bytes(entries[0]) + AllBytes(entries[1..][..n])
  {
    assert entries[..n + 1][1..] == entries[1..][..n];
    hide Bytes;
  }

  lemma CutBehind(first: string, more: string, k: nat, whole: string, part: string)
    requires |first| <= k <= |first| + |more| && more[..k - |first|] == whole + part
    ensures (first + more)[..k] == first + whole + part
  {
    assert (first + more)[..k] == first + more[..k - |first|];
  }

  lemma NotePart(ts: nat, k: nat)
    requires ts < 0x8000_0000_0000_0000 && 0 < k < |Bytes(Note(ts))|
    ensures PartOfNote(Bytes(Note(ts))[..k])
  {
    LongLength(ts);
    var text := "#TS:" + Dec(ts) + "\r";
    assert Bytes(Note(ts)) == text + "\n" && Bytes(Note(ts))[..k] == text[..k];
  }

  lemma {:induction false} ArgsEndLine(args: seq<string>)
    ensures EncodeArgs(args) != "" ==> EncodeArgs(args)[|EncodeArgs(args)| - 1] == '\n'
    decreases |args|
  {
    if args != [] {
      ArgsEndLine(args[1..]);
      assert EncodeArg(args[0])[|EncodeArg(args[0])| - 1] == '\n';
      hide EncodeArg;
    }
  }

  lemma EntryEndsLine(e: Entry)
    ensures Bytes(e) != "" && !Unended(Bytes(e))
  {
    if e.Cmd? {
      ArgsEndLine(e.argv);
      hide EncodeArgs;
      assert e.Cmd? ==> Bytes(e) == "*" + Dec(|e.argv|) + "\r\n" + EncodeArgs(e.argv);
    }
  }

  lemma {:induction false} LogEndsLine(entries: seq<Entry>)
    ensures !Unended(AllBytes(entries))
    decreases |entries|
  {
    if entries != [] {
      EntryEndsLine(entries[0]);
      LogEndsLine(entries[1..]);
      hide Bytes;
    }
  }

  /** What a start leaves of a cut log: the entries up to the last whole command when a command was cut, and
      otherwise all whole entries, with the part of the annotation that was cut. */
  lemma AfterLoadOfCut(entries: seq<Entry>, k: nat) returns (kept: seq<Entry>, part: string)
    requires k <= |AllBytes(entries)| && AllValid(entries)
    ensures var cut := AllBytes(entries)[..k]; var r := LoadFrom(cut, 0, 0, 0);
      && AfterLoad(cut) == AllBytes(kept) + part
      && r.commands == Meaning(kept, 0) && r.db == EndDb(kept, 0) && r.commands <= Meaning(entries, 0)
      && r.status != Corrupt
    ensures AllValid(kept) && (part == "" || PartOfNote(part))
    ensures part != "" <==> Unended(AfterLoad(AllBytes(entries)[..k]))
  {
    hide *;
    var n := Whole(entries, k);
    FrontValid(entries, n);
    LoadedCut(entries, k);
    MeaningPrefix(entries, n, 0);
    if CutsCommand(entries, k) {
      var m := ToLastCommand(entries[..n]);
      kept, part := entries[..n][..m], "";
      FrontValid(entries[..n], m);
      CutIsTruncated(entries, k);
    } else {
      kept := entries[..n];
      part := CutAt(entries, k);
      CutIsLeft(entries, k);
    }
    assert AllBytes(kept) + "" == AllBytes(kept);
    EndOfLog(kept, part);
  }

  lemma FrontValid(entries: seq<Entry>, n: nat)
    requires n <= |entries| && AllValid(entries)
    ensures AllValid(entries[..n])
  {
    hide ValidEntry;
  }

  lemma LoadedCut(entries: seq<Entry>, k: nat)
    requires k <= |AllBytes(entries)| && AllValid(entries)
    ensures var r, whole := LoadFrom(AllBytes(entries)[..k], 0, 0, 0), entries[..Whole(entries, k)];
      && r.commands == Meaning(whole, 0) && r.db == EndDb(whole, 0) && r.valid == LastCommandEnd(whole, 0, 0)
      && r.status == if CutsCommand(entries, k) then Truncated else Complete
  {
    var cut := AllBytes(entries)[..k];
    assert cut[0..] == cut;
    hide *;
    LoadCutLog(cut, 0, entries, k, 0, 0);
  }

  lemma CutIsLeft(entries: seq<Entry>, k: nat)
    requires k <= |AllBytes(entries)| && AllValid(entries) && !CutsCommand(entries, k)
    ensures AfterLoad(AllBytes(entries)[..k]) == AllBytes(entries)[..k]
  {
    LoadedCut(entries, k);
    hide LoadFrom, AllBytes, CutsCommand;
  }

  lemma CutIsTruncated(entries: seq<Entry>, k: nat)
    requires k <= |AllBytes(entries)| && AllValid(entries) && CutsCommand(entries, k)
    ensures var whole := entries[..Whole(entries, k)]; var kept := whole[..ToLastCommand(whole)];
      && AfterLoad(AllBytes(entries)[..k]) == AllBytes(kept)
      && Meaning(kept, 0) == Meaning(whole, 0) && EndDb(kept, 0) == EndDb(whole, 0)
  {
    var whole := entries[..Whole(entries, k)];
    var m := ToLastCommand(whole);
    var part := CutAt(entries, k);
    LoadedCut(entries, k);
    UpToLastCommand(whole, 0, 0, 0);
    FrontBytes(whole, m);
    assert AllBytes([]) == "" && (m == 0 ==> whole[..m] == []);
    hide LoadFrom, AllBytes, CutsCommand, Meaning, EndDb, Whole, ToLastCommand, LastCommandEnd, AllValid;
    assert AllBytes(entries)[..k][..|AllBytes(whole[..m])|] == AllBytes(whole[..m]);
  }

  lemma EndOfLog(kept: seq<Entry>, part: string)
    requires part == "" || PartOfNote(part)
    ensures part != "" <==> Unended(AllBytes(kept) + part)
  {
    LogEndsLine(kept);
    hide AllBytes;
    assert part == "" ==> AllBytes(kept) + part == AllBytes(kept);
    assert part != "" ==> (AllBytes(kept) + part)[|AllBytes(kept) + part| - 1] == part[|part| - 1];
  }

  lemma FrontBytes(entries: seq<Entry>, n: nat)
    requires n <= |entries|
    ensures AllBytes(entries[..n]) <= AllBytes(entries)
  {
    assert entries == entries[..n] + entries[n..];
    AllBytesAppend(entries[..n], entries[n..]);
    hide AllBytes;
  }

  // ---------------------------------------------------------------- commands appended after a start

  /** A part of an annotation and the entry that is appended to it are one line: an annotation is swallowed
      harmlessly, and of a command the header is lost. */
  lemma MergedLine(part: string, e: Entry, rest: string)
    requires PartOfNote(part) && ValidEntry(e)
    ensures ReadOne(part + (Bytes(e) + rest)) == Annotation(if e.Note? then rest else EncodeArgs(e.argv) + rest)
  {
    if e.Note? {
      LongLength(e.ts);
      var text := "#TS:" + Dec(e.ts) + "\r";
      assert Bytes(e) == text + "\n";
      hide Dec, Bytes;
      MergedText(part, text, rest);
    } else {
      LongLength(|e.argv|);
      var text := "*" + Dec(|e.argv|) + "\r";
      assert Bytes(e) == text + "\n" + EncodeArgs(e.argv);
      hide Dec, Bytes, EncodeArgs;
      assert Bytes(e) + rest == text + "\n" + (EncodeArgs(e.argv) + rest);
      MergedText(part, text, EncodeArgs(e.argv) + rest);
    }
  }

  lemma MergedText(part: string, text: string, rest: string)
    requires PartOfNote(part) && |text| <= 30 && forall i | 0 <= i < |text| :: text[i] != '\n'
    ensures ReadOne(part + (text + "\n" + rest)) == Annotation(rest)
  {
    var s := part + (text + "\n" + rest);
    assert s == (part + text) + "\n" + rest;
    LineOf(part + text, rest, LINE_MAX - 1);
    assert s[|part + text| + 1..] == rest;
    hide LineLength, ParseArgs, Atoi;
  }

  lemma PartAlone(part: string)
    requires PartOfNote(part)
    ensures ReadOne(part) == Annotation("")
  {
    LineOf(part, "", LINE_MAX - 1);
    assert part[|part|..] == "";
  }

  /** Arguments without their header are no log. */
  lemma ArgsAreMalformed(argv: Argv, rest: string)
    requires ValidArgv(argv)
    ensures ReadOne(EncodeArgs(argv) + rest) == Malformed
  {
    var s := EncodeArgs(argv) + rest;
    assert EncodeArgs(argv)[0] == '$' by {
      hide Dec;
    }
    hide LineLength, ParseArgs, Atoi, EncodeArgs;
  }

  /** The loader at the part of an annotation that is followed by the entries `more`. */
  lemma LoadBehindPart(file: string, pos: nat, part: string, more: seq<Entry>, db: int, valid: nat)
    requires PartOfNote(part) && AllValid(more) && pos <= |file| && file[pos..] == part + AllBytes(more)
    ensures var r := LoadFrom(file, pos, db, valid);
      if more != [] && more[0].Cmd? then r.commands == [] && r.status == Corrupt
      else r.commands == Meaning(more, db) && r.db == EndDb(more, db) && r.status == Complete
  {
    hide *;
    FirstOfLog(more);
    if more == [] {
      PartAlone(part);
      NoMeaning(db);
      assert file[pos..] == part + "" == part && file[|file|..] == "";
      AnnotationStep(file, pos, "", db, valid);
      LoadNothing(file, |file|, db, valid);
    } else {
      var e, rest := more[0], AllBytes(more[1..]);
      MergedLine(part, e, rest);
      if e.Note? {
        assert part + (Bytes(e) + rest) == part + Bytes(e) + rest;
        AnnotationStep(file, pos, rest, db, valid);
        SuffixIs(file, pos, part + Bytes(e), rest);
        LoadWhole(file, |file| - |rest|, more[1..], db, valid);
        MeaningAppend([e], more[1..], db);
        OneMeaning(e, db);
        assert [] + Meaning(more[1..], db) == Meaning(more[1..], db);
      } else {
        CommandSwallowed(file, pos, part, e, rest, db, valid);
      }
    }
  }

  lemma AnnotationStep(file: string, pos: nat, rest: string, db: int, valid: nat)
    requires pos <= |file| && ReadOne(file[pos..]) == Annotation(rest)
    ensures |rest| <= |file| && LoadFrom(file, pos, db, valid) == LoadFrom(file, |file| - |rest|, db, valid)
  {
    hide *;
    LoadStep(file, pos, db, valid);
  }

  lemma CommandSwallowed(file: string, pos: nat, part: string, e: Entry, rest: string, db: int, valid: nat)
    requires PartOfNote(part) && ValidEntry(e) && e.Cmd? && pos <= |file| && file[pos..] == part + (Bytes(e) + rest)
    ensures LoadFrom(file, pos, db, valid) == Loaded([], Corrupt, valid, db)
  {
    LoadStep(file, pos, db, valid);
    MergedLine(part, e, rest);
    ArgsAreMalformed(e.argv, rest);
    var left := EncodeArgs(e.argv) + rest;
    var head := "*" + Dec(|e.argv|) + "\r\n";
    assert Bytes(e) == head + EncodeArgs(e.argv);
    hide *;
    assert part + (head + EncodeArgs(e.argv) + rest) == part + head + left;
    SuffixIs(file, pos, part + head, left);
    LoadStep(file, |file| - |left|, db, valid);
  }

  lemma SuffixIs(file: string, pos: nat, a: string, b: string)
    requires pos <= |file| && file[pos..] == a + b
    ensures |b| <= |file| && file[|file| - |b|..] == b
  {
    assert file[|file| - |b|..] == file[pos..][|a|..];
  }

  /** Loading a file again that was appended to behind what a start had left. */
  lemma LoadResumed(kept: seq<Entry>, part: string, more: seq<Entry>)
    requires AllValid(kept) && AllValid(more) && (part == "" || PartOfNote(part))
    ensures var r := LoadFrom(AllBytes(kept) + part + AllBytes(more), 0, 0, 0);
      if part != "" && more != [] && more[0].Cmd? then r.commands == Meaning(kept, 0) && r.status == Corrupt
      else r.commands == Meaning(kept, 0) + Meaning(more, EndDb(kept, 0)) && r.status == Complete &&
           r.db == EndDb(more, EndDb(kept, 0))
  {
    hide *;
    var file := AllBytes(kept) + part + AllBytes(more);
    assert file == AllBytes(kept) + (part + AllBytes(more)) && file[0..] == file;
    var valid := LoadFront(file, 0, kept, 0, 0);
    SuffixIs(file, 0, AllBytes(kept), part + AllBytes(more));
    if part == "" {
      assert part + AllBytes(more) == AllBytes(more);
      LoadWhole(file, |AllBytes(kept)|, more, EndDb(kept, 0), valid);
    } else {
      LoadBehindPart(file, |AllBytes(kept)|, part, more, EndDb(kept, 0), valid);
      assert Meaning(kept, 0) + [] == Meaning(kept, 0);
    }
  }

  /** A log that was cut anywhere is loaded, truncated if a command was cut, and appended to by a new process.
      Loading it again gives what the first start carried out and everything that was fed since, if and only if
      the file did not end inside a line or the first new command comes with an annotation. Otherwise the
      header of that command is part of the annotation that was cut, and the file is refused as corrupt. */
  lemma ResumedIff(feds: seq<Fed>, k: nat, later: seq<Fed>)
    requires (forall f | f in feds :: ValidFed(f)) && forall f | f in later :: ValidFed(f)
    requires k <= |AllBytes(LogEntries(feds, -1))|
    ensures var cut := AllBytes(LogEntries(feds, -1))[..k]; var left := AfterLoad(cut);
      var first, r := LoadFrom(cut, 0, 0, 0), LoadFrom(left + AllBytes(LogEntries(later, -1)), 0, 0, 0);
      && first.commands <= Expected(feds, 0)
      && (r.commands == first.commands + Expected(later, first.db) && r.status == Complete <==>
            !(Unended(left) && later != [] && later[0].ts.None?))
      && (r.status == Corrupt <==> Unended(left) && later != [] && later[0].ts.None?)
  {
    var entries, more := LogEntries(feds, -1), LogEntries(later, -1);
    EntriesAreValid(feds, -1);
    EntriesAreValid(later, -1);
    FeedsMeaning(feds, -1, 0);
    FirstEntry(later, -1);
    assert AllValid(entries) && AllValid(more);
    hide *;
    var kept, part := AfterLoadOfCut(entries, k);
    FeedsMeaning(later, -1, EndDb(kept, 0));
    LoadResumed(kept, part, more);
  }

  lemma FirstEntry(feds: seq<Fed>, selected: int)
    ensures feds == [] <==> LogEntries(feds, selected) == []
    ensures feds != [] ==> (LogEntries(feds, selected)[0].Cmd? <==> feds[0].ts.None?)
  {
    if feds != [] {
      assert FedEntries(feds[0], selected) != [];
    }
  }

  /** Such a file: an annotation that was cut behind "#TS:" and a process that appends without annotations. */
  lemma CutAnnotationCorrupts(feds: seq<Fed>, later: seq<Fed>)
    requires feds == [Fed(0, ["PING"], Some(5))] && later == [Fed(0, ["PING"], None)]
    ensures var left := AfterLoad(AllBytes(LogEntries(feds, -1))[..4]);
      left == "#TS:" && LoadFrom(left + AllBytes(LogEntries(later, -1)), 0, 0, 0).status == Corrupt
  {
    var entries := LogEntries(feds, -1);
    assert entries[0] == Note(5) && Bytes(Note(5)) == "#TS:" + Dec(5) + "\r\n";
    assert AllBytes(entries) == Bytes(Note(5)) + AllBytes(entries[1..]);
    var cut := AllBytes(entries)[..4];
    assert cut == "#TS:" by {
      assert cut == Bytes(Note(5))[..4];
    }
    assert ValidFed(feds[0]) && ValidFed(later[0]);
    assert PartOfNote(cut) && cut[0..] == cut && cut[|cut|..] == "";
    PartAlone(cut);
    hide *;
    AnnotationStep(cut, 0, "", 0, 0);
    LoadNothing(cut, 4, 0, 0);
    LeftComplete(cut);
    ResumedIff(feds, 4, later);
  }

  lemma LeftComplete(cut: string)
    requires cut == "#TS:" && LoadFrom(cut, 0, 0, 0).status == Complete
    ensures AfterLoad(cut) == cut && Unended(cut)
  {
    hide LoadFrom;
  }
}
