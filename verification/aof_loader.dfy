/** Writing and loading a whole log: annotations, SELECT commands and the databases they select. */
module AofLoader {
  import opened Wrappers
  import opened AofLog

  /** A SELECT command, whatever its case. */
  predicate IsSelect(argv: Argv) {
    |argv| == 2 && |argv[0]| == 6 && forall i | 0 <= i < 6 :: LowerChar(argv[0][i]) == "select"[i]
  }

  /** Letter by letter: nothing else changes the database. */
  lemma SelectLetters(argv: Argv)
    ensures IsSelect(argv) <==>
      |argv| == 2 && |argv[0]| == 6 &&
      argv[0][0] in "sS" && argv[0][1] in "eE" && argv[0][2] in "lL" && argv[0][3] in "eE" && argv[0][4] in "cC" && argv[0][5] in "tT"
  {
    if |argv| == 2 && |argv[0]| == 6 {
      var w := argv[0];
      assert forall i | 0 <= i < 6 :: LowerChar(w[i]) == "select"[i] <==> (w[i] == "select"[i] || w[i] == "SELECT"[i]);
      assert IsSelect(argv) ==> LowerChar(w[0]) == 's' && LowerChar(w[1]) == 'e' && LowerChar(w[2]) == 'l' &&
                                LowerChar(w[3]) == 'e' && LowerChar(w[4]) == 'c' && LowerChar(w[5]) == 't';
    }
  }

  /** What feedAppendOnlyFile is given; `ts` is the time of an annotation that is due. */
  datatype Fed = Fed(dict: int, argv: Argv, ts: Option<nat>)

  predicate ValidFed(f: Fed) {
    && -1 <= f.dict < 0x8000_0000 && ValidArgv(f.argv) && !IsSelect(f.argv)
    && (f.ts.Some? ==> f.ts.value < 0x8000_0000_0000_0000)
  }

  /** The pieces a log consists of. */
  datatype Entry = Note(ts: nat) | Cmd(argv: Argv)

  predicate ValidEntry(e: Entry) {
    match e
    case Note(ts) => ts < 0x8000_0000_0000_0000
    case Cmd(argv) => ValidArgv(argv)
  }

  function Bytes(e: Entry): string {
    match e
    case Note(ts) => "#TS:" + Dec(ts) + "\r\n"
    case Cmd(argv) => Encode(argv)
  }

  function AllBytes(entries: seq<Entry>): string {
    if entries == [] then "" else Bytes(entries[0]) + AllBytes(entries[1..])
  }

  function SelectArgv(dict: nat): Argv {
    ["SELECT", Dec(dict)]
  }

  /** feedAppendOnlyFile: an annotation if one is due, SELECT if the database changed, the command. */
  function FedEntries(f: Fed, selected: int): seq<Entry> {
    (if f.ts.Some? then [Note(f.ts.value)] else []) +
    (if f.dict >= 0 && f.dict != selected then [Cmd(SelectArgv(f.dict))] else []) +
    [Cmd(f.argv)]
  }

  function SelectedAfter(f: Fed, selected: int): int {
    if f.dict >= 0 then f.dict else selected
  }

  function LogEntries(feds: seq<Fed>, selected: int): seq<Entry> {
    if feds == [] then []
    else FedEntries(feds[0], selected) + LogEntries(feds[1..], SelectedAfter(feds[0], selected))
  }

  /** A command and the database it runs in. */
  datatype Executed = Executed(db: int, argv: Argv)

  /** What was fed: commands without a database run in the one selected before. */
  function Expected(feds: seq<Fed>, db: int): seq<Executed> {
    if feds == [] then []
    else
      var db1 := SelectedAfter(feds[0], db);
      [Executed(db1, feds[0].argv)] + Expected(feds[1..], db1)
  }

  datatype Status = Complete | Truncated | Corrupt

  /** `valid` is the number of bytes up to the end of the last command, `db` the database selected in the end. */
  datatype Loaded = Loaded(commands: seq<Executed>, status: Status, valid: nat, db: int)

  function DbAfter(argv: Argv, db: int): int {
    if IsSelect(argv) then Atoi(argv[1]) else db
  }

  function RunsIn(argv: Argv, db: int): seq<Executed> {
    if IsSelect(argv) then [] else [Executed(db, argv)]
  }

  lemma {:induction false} ParseArgsShrinks(s: string, k: nat)
    ensures ParseArgs(s, k).GotArgs? ==> |ParseArgs(s, k).rest| <= |s|
    decreases k
  {
    if k > 0 && ParseArg(s).GotArg? {
      ParseArgsShrinks(ParseArg(s).rest, k - 1);
    }
  }

  lemma ReadOneShrinks(s: string)
    ensures ReadOne(s).Command? ==> |ReadOne(s).rest| < |s|
  {
    if s != "" {
      var n := Fgets(s);
      var argc := Atoi(s[..n][1..]);
      if argc >= 0 {
        ParseArgsShrinks(s[n..], argc);
      }
    }
  }

  /** The loader's loop from position `pos` of a file, in database `db`. */
  function LoadFrom(file: string, pos: nat, db: int, valid: nat): (r: Loaded)
    requires pos <= |file|
    ensures valid <= |file| ==> r.valid <= |file|
    decreases |file| - pos
  {
    ReadOneShrinks(file[pos..]);
    match ReadOne(file[pos..])
    case AtEnd => Loaded([], Complete, valid, db)
    case Annotation(rest) => LoadFrom(file, |file| - |rest|, db, valid)
    case ShortRead => Loaded([], Truncated, valid, db)
    case Malformed => Loaded([], Corrupt, valid, db)
    case Command(argv, rest) =>
      var r := LoadFrom(file, |file| - |rest|, DbAfter(argv, db), |file| - |rest|);
      r.(commands := RunsIn(argv, db) + r.commands)
  }

  // ---------------------------------------------------------------- entries and bytes

  lemma {:induction false} AllBytesAppend(a: seq<Entry>, b: seq<Entry>)
    ensures AllBytes(a + b) == AllBytes(a) + AllBytes(b)
    decreases |a|
  {
    if a == [] {
      assert a + b == b;
    } else {
      assert (a + b)[1..] == a[1..] + b;
      AllBytesAppend(a[1..], b);
    }
  }

  lemma NoteRoundTrip(ts: nat, rest: string)
    requires ts < 0x8000_0000_0000_0000
    ensures ReadOne(Bytes(Note(ts)) + rest) == Annotation(rest)
  {
    LongLength(ts);
    var text := "#TS:" + Dec(ts) + "\r";
    var s := Bytes(Note(ts)) + rest;
    assert s == text + "\n" + rest;
    LineOf(text, rest, LINE_MAX - 1);
    assert s[|text| + 1..] == rest;
  }

  /** An annotation that is cut is still one line, and the file ends behind it. */
  lemma NoteCut(ts: nat, k: nat)
    requires ts < 0x8000_0000_0000_0000 && 0 < k < |Bytes(Note(ts))|
    ensures ReadOne(Bytes(Note(ts))[..k]) == Annotation("")
  {
    LongLength(ts);
    var s := Bytes(Note(ts))[..k];
    LineOf(s, "", LINE_MAX - 1);
    assert s[k..] == "" && s[..k] == s;
  }

  /** What loading makes of the first `n` entries. */
  function Meaning(entries: seq<Entry>, db: int): seq<Executed> {
    if entries == [] then []
    else
      match entries[0]
      case Note(_) => Meaning(entries[1..], db)
      case Cmd(argv) => RunsIn(argv, db) + Meaning(entries[1..], DbAfter(argv, db))
  }

  /** The number of entries that lie completely within the first `k` bytes. */
  function Whole(entries: seq<Entry>, k: nat): (n: nat)
    ensures n <= |entries|
  {
    if entries == [] || k < |Bytes(entries[0])| then 0 else 1 + Whole(entries[1..], k - |Bytes(entries[0])|)
  }

  /** The position behind the last command, for entries that start at `pos`. */
  function LastCommandEnd(entries: seq<Entry>, pos: nat, valid: nat): nat {
    if entries == [] then valid
    else
      var pos1 := pos + |Bytes(entries[0])|;
      LastCommandEnd(entries[1..], pos1, if entries[0].Cmd? then pos1 else valid)
  }

  /** The database that is selected behind the entries. */
  function EndDb(entries: seq<Entry>, db: int): int {
    if entries == [] then db else EndDb(entries[1..], if entries[0].Cmd? then DbAfter(entries[0].argv, db) else db)
  }

  /** The cut after `k` bytes leaves a part of a command. */
  predicate CutsCommand(entries: seq<Entry>, k: nat) {
    entries != [] &&
    if k < |Bytes(entries[0])| then k > 0 && entries[0].Cmd? else CutsCommand(entries[1..], k - |Bytes(entries[0])|)
  }

  /** The cut leaves a part of an annotation. */
  predicate CutsNote(entries: seq<Entry>, k: nat) {
    entries != [] &&
    if k < |Bytes(entries[0])| then k > 0 && entries[0].Note? else CutsNote(entries[1..], k - |Bytes(entries[0])|)
  }

  /** Loading a log that was cut after `k` bytes executes exactly the commands that are whole, never
      another one, and reports a truncation if and only if a command was cut; the reported valid length is
      the end of the last whole command. */
  lemma {:induction false} LoadCutLog(file: string, pos: nat, entries: seq<Entry>, k: nat, db: int, valid: nat)
    requires pos <= |file| && k <= |AllBytes(entries)| && file[pos..] == AllBytes(entries)[..k]
    requires forall e | e in entries :: ValidEntry(e)
    ensures var r, whole := LoadFrom(file, pos, db, valid), entries[..Whole(entries, k)];
      && r.commands == Meaning(whole, db) && r.db == EndDb(whole, db) && r.valid == LastCommandEnd(whole, pos, valid)
      && r.status == (if CutsCommand(entries, k) then Truncated else Complete)
    decreases |entries|, 1
  {
    hide ReadOne, LoadFrom, Bytes, ValidEntry;
    if entries == [] {
      LoadNothing(file, pos, db, valid);
    } else {
      var e, more := entries[0], entries[1..];
      FirstBytes(entries, k);
      hide AllBytes, Whole, CutsCommand;
      assert ValidEntry(e) && forall x | x in more :: x in entries;
      if k < |Bytes(e)| {
        assert file[pos..] == Bytes(e)[..k];
        assert entries[..0] == [];
        LoadCutEntry(file, pos, e, k, db, valid);
      } else {
        hide Meaning, LastCommandEnd, EndDb;
        LoadCutRest(file, pos, e, more, k, db, valid);
        assert entries[..Whole(entries, k)] == [e] + more[..Whole(more, k - |Bytes(e)|)];
      }
    }
  }

  lemma {:induction false} LoadCutRest(file: string, pos: nat, e: Entry, more: seq<Entry>, k: nat, db: int, valid: nat)
    requires pos <= |file| && |Bytes(e)| <= k <= |Bytes(e)| + |AllBytes(more)|
    requires file[pos..] == (Bytes(e) + AllBytes(more))[..k]
    requires ValidEntry(e) && forall x | x in more :: ValidEntry(x)
    ensures var r, whole := LoadFrom(file, pos, db, valid), [e] + more[..Whole(more, k - |Bytes(e)|)];
      && r.commands == Meaning(whole, db) && r.db == EndDb(whole, db) && r.valid == LastCommandEnd(whole, pos, valid)
      && r.status == (if CutsCommand(more, k - |Bytes(e)|) then Truncated else Complete)
    decreases |more| + 1, 0
  {
    hide *;
    RestOfLog(file, pos, e, more, k);
    LoadWholeEntry(file, pos, e, db, valid);
    FirstMeaning(e, more[..Whole(more, k - |Bytes(e)|)], db, pos, valid);
    var pos1 := pos + |Bytes(e)|;
    if e.Note? {
      LoadCutLog(file, pos1, more, k - |Bytes(e)|, db, valid);
    } else {
      LoadCutLog(file, pos1, more, k - |Bytes(e)|, DbAfter(e.argv, db), pos1);
    }
  }

  lemma FirstBytes(entries: seq<Entry>, k: nat)
    requires entries != []
    ensures AllBytes(entries) == Bytes(entries[0]) + AllBytes(entries[1..])
    ensures Whole(entries, k) ==
            if k < |Bytes(entries[0])| then 0 else 1 + Whole(entries[1..], k - |Bytes(entries[0])|)
    ensures CutsCommand(entries, k) ==
            if k < |Bytes(entries[0])| then k > 0 && entries[0].Cmd?
            else CutsCommand(entries[1..], k - |Bytes(entries[0])|)
  {
  }

  lemma FirstMeaning(e: Entry, more: seq<Entry>, db: int, pos: nat, valid: nat)
    ensures var pos1 := pos + |Bytes(e)|;
      if e.Note?
      then Meaning([e] + more, db) == Meaning(more, db) && EndDb([e] + more, db) == EndDb(more, db) &&
           LastCommandEnd([e] + more, pos, valid) == LastCommandEnd(more, pos1, valid)
      else Meaning([e] + more, db) == RunsIn(e.argv, db) + Meaning(more, DbAfter(e.argv, db)) &&
           EndDb([e] + more, db) == EndDb(more, DbAfter(e.argv, db)) &&
           LastCommandEnd([e] + more, pos, valid) == LastCommandEnd(more, pos1, pos1)
  {
    assert ([e] + more)[1..] == more;
  }

  lemma RestOfLog(file: string, pos: nat, e: Entry, more: seq<Entry>, k: nat)
    requires pos <= |file| && |Bytes(e)| <= k <= |Bytes(e)| + |AllBytes(more)|
    requires file[pos..] == (Bytes(e) + AllBytes(more))[..k]
    ensures Bytes(e) <= file[pos..] && pos + |Bytes(e)| <= |file|
    ensures file[pos + |Bytes(e)|..] == AllBytes(more)[..k - |Bytes(e)|]
  {
    hide Bytes, AllBytes;
    var b := Bytes(e);
    assert file[pos..] == b + AllBytes(more)[..k - |b|];
    assert file[pos + |b|..] == file[pos..][|b|..];
  }

  lemma LoadCutEntry(file: string, pos: nat, e: Entry, k: nat, db: int, valid: nat)
    requires pos <= |file| && ValidEntry(e) && k < |Bytes(e)| && file[pos..] == Bytes(e)[..k]
    ensures var r := LoadFrom(file, pos, db, valid);
      r == Loaded([], if k > 0 && e.Cmd? then Truncated else Complete, valid, db)
  {
    if k > 0 {
      FirstEntryCut(e, k);
      hide ReadOne;
      if e.Note? {
        assert file[|file|..] == "" && ReadOne("") == AtEnd by {
          NothingLeft();
        }
        assert LoadFrom(file, |file|, db, valid) == Loaded([], Complete, valid, db);
      }
    } else {
      NothingLeft();
      hide ReadOne;
      assert file[pos..] == "";
    }
  }

  lemma LoadNothing(file: string, pos: nat, db: int, valid: nat)
    requires pos <= |file| && file[pos..] == ""
    ensures LoadFrom(file, pos, db, valid) == Loaded([], Complete, valid, db)
  {
    NothingLeft();
    hide ReadOne;
  }

  lemma NothingLeft()
    ensures ReadOne("") == AtEnd
  {
  }

  lemma LoadWholeEntry(file: string, pos: nat, e: Entry, db: int, valid: nat)
    requires pos <= |file| && ValidEntry(e) && Bytes(e) <= file[pos..]
    ensures var pos1 := pos + |Bytes(e)|;
      LoadFrom(file, pos, db, valid) ==
        if e.Note? then LoadFrom(file, pos1, db, valid)
        else
          var r := LoadFrom(file, pos1, DbAfter(e.argv, db), pos1);
          r.(commands := RunsIn(e.argv, db) + r.commands)
  {
    hide *;
    var rest := file[pos..][|Bytes(e)|..];
    assert file[pos..] == Bytes(e) + rest;
    FirstEntryWhole(e, rest);
    LoadStep(file, pos, db, valid);
    assert |file| - |rest| == pos + |Bytes(e)|;
  }

  lemma FirstEntryCut(e: Entry, k: nat)
    requires ValidEntry(e) && 0 < k < |Bytes(e)|
    ensures ReadOne(Bytes(e)[..k]) == if e.Note? then Annotation("") else ShortRead
  {
    match e
    case Note(ts) => NoteCut(ts, k);
    case Cmd(argv) => CommandCut(argv, k);
  }

  lemma FirstEntryWhole(e: Entry, rest: string)
    requires ValidEntry(e)
    ensures ReadOne(Bytes(e) + rest) == if e.Note? then Annotation(rest) else Command(e.argv, rest)
  {
    match e
    case Note(ts) => NoteRoundTrip(ts, rest);
    case Cmd(argv) => CommandRoundTrip(argv, rest);
  }

  // ---------------------------------------------------------------- the round trip

  lemma SelectIsSelect(dict: nat)
    requires dict < 0x8000_0000
    ensures IsSelect(SelectArgv(dict)) && ValidArgv(SelectArgv(dict)) && Atoi(Dec(dict)) == dict
  {
    ReadDec(dict, "");
    LongLength(dict);
    assert Dec(dict) + "" == Dec(dict);
  }

  lemma {:induction false} EntriesAreValid(feds: seq<Fed>, selected: int)
    requires forall f | f in feds :: ValidFed(f)
    ensures forall e | e in LogEntries(feds, selected) :: ValidEntry(e)
    decreases |feds|
  {
    if feds != [] {
      var f := feds[0];
      assert ValidFed(f);
      if f.dict >= 0 {
        SelectIsSelect(f.dict);
      }
      EntriesAreValid(feds[1..], SelectedAfter(f, selected));
    }
  }

  lemma {:induction false} MeaningAppend(a: seq<Entry>, b: seq<Entry>, db: int)
    ensures Meaning(a + b, db) == Meaning(a, db) + Meaning(b, EndDb(a, db))
    ensures EndDb(a + b, db) == EndDb(b, EndDb(a, db))
    decreases |a|
  {
    if a == [] {
      assert a + b == b;
    } else {
      assert (a + b)[1..] == a[1..] + b && (a + b)[0] == a[0];
      MeaningAppend(a[1..], b, if a[0].Cmd? then DbAfter(a[0].argv, db) else db);
      hide DbAfter, RunsIn;
    }
  }

  lemma OneMeaning(e: Entry, db: int)
    ensures Meaning([e], db) == if e.Note? then [] else RunsIn(e.argv, db)
    ensures EndDb([e], db) == if e.Note? then db else DbAfter(e.argv, db)
  {
    assert [e][1..] == [];
    hide DbAfter, RunsIn;
  }

  /** What is written for one fed command means that command, in its database. */
  lemma FedMeaning(f: Fed, selected: int, db: int)
    requires ValidFed(f) && (selected == -1 || selected == db)
    ensures Meaning(FedEntries(f, selected), db) == [Executed(SelectedAfter(f, db), f.argv)]
    ensures EndDb(FedEntries(f, selected), db) == SelectedAfter(f, db)
  {
    var a := if f.ts.Some? then [Note(f.ts.value)] else [];
    var b := if f.dict >= 0 && f.dict != selected then [Cmd(SelectArgv(f.dict))] else [];
    var c := [Cmd(f.argv)];
    if a != [] {
      OneMeaning(a[0], db);
    }
    if b != [] {
      SelectIsSelect(f.dict);
      OneMeaning(b[0], db);
    }
    OneMeaning(c[0], SelectedAfter(f, db));
    MeaningAppend(a, b, db);
    MeaningAppend(a + b, c, db);
    hide Meaning, EndDb, IsSelect, SelectArgv;
  }

  /** Interpreting what was fed gives what was fed, if the writer's idea of the selected database is
      none or the reader's. */
  lemma {:induction false} FeedsMeaning(feds: seq<Fed>, selected: int, db: int)
    requires forall f | f in feds :: ValidFed(f)
    requires selected == -1 || selected == db
    ensures Meaning(LogEntries(feds, selected), db) == Expected(feds, db)
    decreases |feds|
  {
    if feds != [] {
      var f := feds[0];
      var selected1 := SelectedAfter(f, selected);
      FedMeaning(f, selected, db);
      MeaningAppend(FedEntries(f, selected), LogEntries(feds[1..], selected1), db);
      FeedsMeaning(feds[1..], selected1, SelectedAfter(f, db));
    }
  }

  /** Loading a log file gives back every command fed to it, with its database and arguments, in order.
      A file starts with no selected database on the writer's side and database 0 on the loader's. */
  lemma LogRoundTrip(feds: seq<Fed>)
    requires forall f | f in feds :: ValidFed(f)
    ensures var r := LoadFrom(AllBytes(LogEntries(feds, -1)), 0, 0, 0);
      r.commands == Expected(feds, 0) && r.status == Complete
  {
    var entries := LogEntries(feds, -1);
    var file := AllBytes(entries);
    EntriesAreValid(feds, -1);
    WholeAll(entries);
    assert file[0..] == file && file[..|file|] == file && entries[..|entries|] == entries;
    LoadCutLog(file, 0, entries, |file|, 0, 0);
    FeedsMeaning(feds, -1, 0);
  }

  lemma {:induction false} WholeAll(entries: seq<Entry>)
    ensures Whole(entries, |AllBytes(entries)|) == |entries|
    ensures !CutsCommand(entries, |AllBytes(entries)|) && !CutsNote(entries, |AllBytes(entries)|)
    decreases |entries|
  {
    if entries != [] {
      WholeAll(entries[1..]);
    }
  }

  /** A log whose tail was lost loads as a log of its first commands. */
  lemma CutLogIsPrefix(feds: seq<Fed>, k: nat)
    requires forall f | f in feds :: ValidFed(f)
    requires k <= |AllBytes(LogEntries(feds, -1))|
    ensures var r := LoadFrom(AllBytes(LogEntries(feds, -1))[..k], 0, 0, 0);
      r.commands <= Expected(feds, 0) && r.status != Corrupt
  {
    var entries := LogEntries(feds, -1);
    var file := AllBytes(entries)[..k];
    EntriesAreValid(feds, -1);
    assert file[0..] == file;
    LoadCutLog(file, 0, entries, k, 0, 0);
    FeedsMeaning(feds, -1, 0);
    MeaningPrefix(entries, Whole(entries, k), 0);
  }

  lemma {:induction false} MeaningPrefix(entries: seq<Entry>, n: nat, db: int)
    requires n <= |entries|
    ensures Meaning(entries[..n], db) <= Meaning(entries, db)
    decreases |entries|
  {
    if n > 0 {
      assert entries[..n][1..] == entries[1..][..n - 1];
      MeaningPrefix(entries[1..], n - 1, if entries[0].Cmd? then DbAfter(entries[0].argv, db) else db);
    }
  }

  // ---------------------------------------------------------------- the running code

  /** server.aof_buf and server.aof_selected_db. */
  class LogWriter {
    var buf: string
    var selected: int

    constructor ()
      ensures buf == "" && selected == -1
    {
      buf, selected := "", -1;
    }

    method CatGenericCommand(dst: string, argv: Argv) returns (r: string)
      ensures r == dst + Encode(argv)
    {
      var header := dst + "*" + Dec(|argv|) + "\r\n";
      r := header;
      assert argv[..0] == [] && EncodeArgs([]) == "" && header + "" == header;
      for j := 0 to |argv|
        invariant r == header + EncodeArgs(argv[..j])
      {
        EncodeArgsSnoc(argv[..j], argv[j]);
        assert argv[..j + 1] == argv[..j] + [argv[j]];
        r := CatArgument(r, argv[j]);
        hide EncodeArg, EncodeArgs;
        assert header + EncodeArgs(argv[..j]) + EncodeArg(argv[j]) == header + (EncodeArgs(argv[..j]) + EncodeArg(argv[j]));
      }
      assert argv[..|argv|] == argv;
      hide EncodeArgs, Dec;
      assert header + EncodeArgs(argv) == dst + ("*" + Dec(|argv|) + "\r\n" + EncodeArgs(argv));
    }

    method CatArgument(dst: string, o: string) returns (r: string)
      ensures r == dst + EncodeArg(o)
    {
      hide Dec;
      r := dst + "$" + Dec(|o|) + "\r\n";
      r := r + o;
      r := r + "\r\n";
      assert r == dst + ("$" + Dec(|o|) + "\r\n" + o + "\r\n");
    }

    /** feedAppendOnlyFile. */
    method FeedAppendOnlyFile(f: Fed)
      requires ValidFed(f)
      modifies this
      ensures selected == SelectedAfter(f, old(selected))
      ensures buf == old(buf) + AllBytes(FedEntries(f, old(selected)))
    {
      var piece := "";
      ghost var a := if f.ts.Some? then [Note(f.ts.value)] else [];
      if f.ts.Some? {
        piece := "#TS:" + Dec(f.ts.value) + "\r\n";
        SingleEntry(Note(f.ts.value));
      }
      hide Encode, Bytes, Dec;
      assert piece == AllBytes(a);
      ghost var b := if f.dict >= 0 && f.dict != selected then [Cmd(SelectArgv(f.dict))] else [];
      AllBytesAppend(a, b);
      if f.dict != -1 && f.dict != selected {
        var select := SelectText(f.dict);
        piece := piece + select;
        selected := f.dict;
      }
      assert piece == AllBytes(a + b);
      piece := CatGenericCommand(piece, f.argv);
      AllBytesAppend(a + b, [Cmd(f.argv)]);
      SingleEntry(Cmd(f.argv));
      buf := buf + piece;
    }
  }

  lemma SingleEntry(e: Entry)
    ensures AllBytes([e]) == Bytes(e) && (e.Cmd? ==> Bytes(e) == Encode(e.argv))
  {
    assert [e][1..] == [] && AllBytes([]) == "";
    assert Bytes(e) + "" == Bytes(e);
  }

  /** The SELECT command is written out directly. */
  method SelectText(dict: nat) returns (text: string)
    ensures text == AllBytes([Cmd(SelectArgv(dict))])
  {
    var seldb := Dec(dict);
    text := "*2\r\n" + "$6\r\nSELECT\r\n" + ("$" + Dec(|seldb|) + "\r\n" + seldb + "\r\n");
    SingleEntry(Cmd(SelectArgv(dict)));
    SelectArguments(seldb);
    hide Encode, EncodeArgs, Dec;
  }

  lemma SelectArguments(seldb: string)
    ensures Encode(["SELECT", seldb]) == "*2\r\n" + "$6\r\nSELECT\r\n" + EncodeArg(seldb)
  {
    var argv, tail := ["SELECT", seldb], EncodeArg(seldb);
    SelectWord();
    hide EncodeArg;
    assert argv[1..] == [seldb] && [seldb][1..] == [];
    assert EncodeArgs([seldb]) == tail + "" == tail;
    assert EncodeArgs(argv) == EncodeArg("SELECT") + tail;
    assert Encode(argv) == "*" + Dec(2) + "\r\n" + (EncodeArg("SELECT") + tail);
  }

  lemma SelectWord()
    ensures EncodeArg("SELECT") == "$6\r\nSELECT\r\n"
    ensures "*" + Dec(2) + "\r\n" == "*2\r\n"
  {
    assert Dec(2) == "2" && Dec(6) == "6";
  }

  lemma {:induction false} EncodeArgsSnoc(args: seq<string>, a: string)
    ensures EncodeArgs(args + [a]) == EncodeArgs(args) + EncodeArg(a)
    decreases |args|
  {
    if args == [] {
      assert args + [a] == [a] && [a][1..] == [];
    } else {
      assert (args + [a])[1..] == args[1..] + [a];
      EncodeArgsSnoc(args[1..], a);
    }
  }

  /** What one reading tells of the rest of the loop. */
  lemma LoadStep(file: string, pos: nat, db: int, valid: nat)
    requires pos <= |file|
    ensures var one, r := ReadOne(file[pos..]), LoadFrom(file, pos, db, valid);
      match one
      case AtEnd => r == Loaded([], Complete, valid, db)
      case Annotation(rest) =>
        pos < |file| - |rest| && r == LoadFrom(file, |file| - |rest|, db, valid)
      case ShortRead => r == Loaded([], Truncated, valid, db)
      case Malformed => r == Loaded([], Corrupt, valid, db)
      case Command(argv, rest) =>
        && pos < |file| - |rest|
        && var later := LoadFrom(file, |file| - |rest|, DbAfter(argv, db), |file| - |rest|);
           r == later.(commands := RunsIn(argv, db) + later.commands)
  {
    ReadOneShrinks(file[pos..]);
    hide ReadOne;
  }

  lemma ContinuesStep(all: Loaded, commands: seq<Executed>, now: Loaded, first: seq<Executed>, later: Loaded)
    requires Continues(all, commands, now) && now == later.(commands := first + later.commands)
    ensures Continues(all, commands + first, later)
  {
    assert commands + (first + later.commands) == commands + first + later.commands;
  }

  /** An open log file. */
  class LogFile {
    const text: string
    var pos: nat

    constructor (text: string)
      ensures this.text == text && pos == 0
    {
      this.text, pos := text, 0;
    }

    /** What has not been read yet. */
    function Rest(): string
      reads this
      requires pos <= |text|
    {
      text[pos..]
    }

    /** fgets into the line buffer; an empty line stands for the end of the file. */
    method Gets() returns (line: string)
      requires pos <= |text|
      modifies this
      ensures old(pos) <= pos <= |text| && pos - old(pos) == Fgets(old(Rest()))
      ensures line == old(Rest())[..pos - old(pos)]
    {
      ghost var rest := Rest();
      var n, done := 0, false;
      while !done && pos + n < |text| && n < LINE_MAX - 1
        invariant pos + n <= |text| && n <= LINE_MAX - 1 && (done ==> n > 0)
        invariant Fgets(rest) == n + if done then 0 else LineLength(rest[n..], LINE_MAX - 1 - n)
        decreases |text| - pos - n, !done
      {
        assert rest[n..][0] == text[pos + n] && rest[n..][1..] == rest[n + 1..];
        done := text[pos + n] == '\n';
        n := n + 1;
      }
      line := text[pos..pos + n];
      pos := pos + n;
    }

    /** fread of a number of bytes, all or nothing; a negative number is a very large one. */
    method Read(len: int) returns (bytes: Option<string>)
      requires pos <= |text|
      modifies this
      ensures old(pos) <= pos <= |text|
      ensures bytes.None? <==> len < 0 || |old(Rest())| < len
      ensures bytes.Some? ==> bytes.value == old(Rest())[..len] && pos == old(pos) + len
    {
      if len < 0 || |text| - pos < len {
        return None;
      }
      bytes := Some(text[pos..pos + len]);
      pos := pos + len;
    }

    /** The length, the bytes and the line end of one argument. */
    method ReadArgument() returns (r: ArgResult)
      requires pos <= |text|
      modifies this
      ensures old(pos) <= pos <= |text| && r == ParseArg(old(Rest()))
      ensures r.GotArg? ==> r.rest == Rest()
    {
      var line := Gets();
      if line == "" {
        return ArgShort;
      }
      if line[0] != '$' {
        return ArgMalformed;
      }
      ghost var body := Rest();
      var len := Atoi(line[1..]);
      hide Atoi, Fgets;
      var arg := Read(len);
      if arg == None {
        return ArgShort;
      }
      assert Rest() == body[len..];
      var crlf := Read(2);
      if crlf == None {
        return ArgShort;
      }
      assert Rest() == body[len + 2..];
      r := GotArg(arg.value, Rest());
    }

    /** The loop over the arguments of a command. */
    method ReadArguments(argc: nat) returns (r: ArgsResult)
      requires pos <= |text|
      modifies this
      ensures old(pos) <= pos <= |text| && r == ParseArgs(old(Rest()), argc)
      ensures r.GotArgs? ==> r.rest == Rest()
    {
      hide ParseArg;
      ghost var rest := Rest();
      var args: seq<string> := [];
      BehindNone(ParseArgs(rest, argc));
      for j := 0 to argc
        invariant old(pos) <= pos <= |text| && ParseArgs(rest, argc) == Behind(args, ParseArgs(Rest(), argc - j))
      {
        var arg := ReadArgument();
        match arg {
          case ArgShort => return ArgsShort;
          case ArgMalformed => return ArgsMalformed;
          case GotArg(value, _) =>
            BehindOne(args, value, ParseArgs(Rest(), argc - j - 1));
            args := args + [value];
        }
      }
      r := GotArgs(args, Rest());
      assert args + [] == args;
    }

    /** One turn of the loop, up to the lookup of the command. */
    method ReadCommand() returns (r: Read)
      requires pos <= |text|
      modifies this
      ensures old(pos) <= pos <= |text| && r == ReadOne(old(Rest()))
      ensures r.Annotation? || r.Command? ==> r.rest == Rest()
    {
      hide ParseArgs, Fgets;
      ghost var was := Rest();
      var line := Gets();
      if line == "" {
        return AtEnd;
      }
      assert Rest() == was[|line|..];
      if line[0] == '#' {
        return Annotation(Rest());
      }
      if line[0] != '*' {
        return Malformed;
      }
      if |line| == 1 {
        return ShortRead;
      }
      var argc := Atoi(line[1..]);
      if argc < 1 {
        return Malformed;
      }
      var args := ReadArguments(argc);
      match args
      case GotArgs(argv, rest) => r := Command(argv, rest);
      case ArgsShort => r := ShortRead;
      case ArgsMalformed => r := Malformed;
    }
  }

  /** The result for all arguments, when some have been read. */
  function Behind(args: seq<string>, later: ArgsResult): ArgsResult {
    if later.GotArgs? then GotArgs(args + later.args, later.rest) else later
  }

  lemma BehindNone(all: ArgsResult)
    ensures Behind([], all) == all
  {
    assert all.GotArgs? ==> [] + all.args == all.args;
  }

  lemma BehindOne(args: seq<string>, a: string, later: ArgsResult)
    ensures Behind(args, Behind([a], later)) == Behind(args + [a], later)
  {
    if later.GotArgs? {
      assert args + ([a] + later.args) == args + [a] + later.args;
    }
  }

  /** The parsing loop of loadSingleAppendOnlyFile. */
  method LoadSingleAppendOnlyFile(file: string) returns (r: Loaded)
    ensures r == LoadFrom(file, 0, 0, 0)
  {
    hide ReadOne, LoadFrom, DbAfter, RunsIn;
    var fp := new LogFile(file);
    var db: int, valid: nat := 0, 0;
    var commands: seq<Executed> := [];
    var status := Complete;
    var reading := true;
    ghost var all := LoadFrom(file, 0, 0, 0);
    assert [] + all.commands == all.commands;
    while reading
      invariant fresh(fp) && fp.text == file && fp.pos <= |file|
      invariant reading ==> status == Complete && Continues(all, commands, LoadFrom(file, fp.pos, db, valid))
      invariant !reading ==> all == Loaded(commands, status, valid, db)
      decreases |file| - fp.pos, reading
    {
      ghost var pos := fp.pos;
      LoadStep(file, pos, db, valid);
      assert commands + [] == commands;
      var one := fp.ReadCommand();
      match one
      case AtEnd => reading := false;
      case Annotation(_) =>
      case ShortRead => status, reading := Truncated, false;
      case Malformed => status, reading := Corrupt, false;
      case Command(argv, _) =>
        ContinuesStep(all, commands, LoadFrom(file, pos, db, valid), RunsIn(argv, db),
                      LoadFrom(file, fp.pos, DbAfter(argv, db), fp.pos));
        commands := commands + RunsIn(argv, db);
        db, valid := DbAfter(argv, db), fp.pos;
    }
    r := Loaded(commands, status, valid, db);
  }

  ghost predicate Continues(all: Loaded, commands: seq<Executed>, rest: Loaded) {
    all == rest.(commands := commands + rest.commands)
  }
}
