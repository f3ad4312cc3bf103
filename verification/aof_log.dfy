/** The log format: commands as RESP arrays of bulk strings, SELECT commands where the database changes,
    and annotation lines. What feedAppendOnlyFile writes, loadSingleAppendOnlyFile reads. Bytes are
    characters. */
module AofLog {

  /** AOF_ANNOTATION_LINE_MAX_LEN, the size of the line buffer of the loader. */
  const LINE_MAX := 1024

  // ---------------------------------------------------------------- decimal numbers

  function Digit(d: nat): char
    requires d < 10
  {
    ('0' as int + d) as char
  }

  predicate IsDigit(c: char) {
    '0' <= c <= '9'
  }

  /** ll2string for a number that is not negative. */
  function Dec(n: nat): (s: string)
    ensures s != "" && forall i | 0 <= i < |s| :: IsDigit(s[i])
    ensures n > 0 ==> s[0] != '0'
  {
    if n < 10 then [Digit(n)] else Dec(n / 10) + [Digit(n % 10)]
  }

  /** The digits at the front of `s`, read after a number. */
  function ReadDigits(s: string, n: nat): nat {
    if s == "" || !IsDigit(s[0]) then n else ReadDigits(s[1..], n * 10 + (s[0] as int - '0' as int))
  }

  /** atoi and strtol: blanks, a sign, digits. */
  function Atoi(s: string): int {
    if s == "" then 0
    else if s[0] == ' ' || '\t' <= s[0] <= '\r' then Atoi(s[1..])
    else if s[0] == '-' then -(ReadDigits(s[1..], 0) as int)
    else if s[0] == '+' then ReadDigits(s[1..], 0)
    else ReadDigits(s, 0)
  }

  lemma {:induction false} ReadDigitsSplit(a: string, b: string, n: nat)
    requires forall i | 0 <= i < |a| :: IsDigit(a[i])
    ensures ReadDigits(a + b, n) == ReadDigits(b, ReadDigits(a, n))
    decreases |a|
  {
    if a == "" {
      assert a + b == b;
    } else {
      assert (a + b)[1..] == a[1..] + b;
      ReadDigitsSplit(a[1..], b, n * 10 + (a[0] as int - '0' as int));
    }
  }

  lemma {:induction false} ReadDec(n: nat, rest: string)
    requires rest == "" || rest[0] < '0' || rest[0] > '9'
    ensures ReadDigits(Dec(n) + rest, 0) == n && Atoi(Dec(n) + rest) == n
  {
    if n < 10 {
      var s := Dec(n) + rest;
      assert s[0] == Digit(n) && s[1..] == rest;
      assert ReadDigits(s, 0) == ReadDigits(rest, n);
    } else {
      ReadDec(n / 10, "");
      assert Dec(n / 10) + "" == Dec(n / 10);
      var last := [Digit(n % 10)] + rest;
      assert Dec(n) + rest == Dec(n / 10) + last;
      ReadDigitsSplit(Dec(n / 10), last, 0);
      assert last[1..] == rest;
    }
  }

  /** Blanks and a sign before a number are read as atoi and strtol read them, and what follows is left. */
  lemma {:induction false} ReadSigned(blanks: string, sign: string, n: nat, rest: string)
    requires (forall c | c in blanks :: c == ' ' || 9 <= c as int <= 13) && (sign == "" || sign == "+" || sign == "-")
    requires rest == "" || rest[0] < '0' || rest[0] > '9'
    ensures Atoi(blanks + sign + Dec(n) + rest) == if sign == "-" then 0 - n else n
    decreases |blanks|
  {
    var s := blanks + sign + Dec(n) + rest;
    ReadDec(n, rest);
    if blanks != "" {
      assert s[1..] == blanks[1..] + sign + Dec(n) + rest && s[0] == blanks[0] && blanks[0] in blanks;
      assert forall c | c in blanks[1..] :: c in blanks;
      assert s[0] == ' ' || '\t' <= s[0] <= '\r';
      ReadSigned(blanks[1..], sign, n, rest);
    } else if sign != "" {
      assert s[0] == sign[0] && s[1..] == Dec(n) + rest;
    } else {
      assert s == Dec(n) + rest;
    }
  }

  /** Without digits the number is zero. */
  lemma {:induction false} ReadNothing(blanks: string, rest: string)
    requires forall c | c in blanks :: c == ' ' || 9 <= c as int <= 13
    requires rest == "" || ('!' <= rest[0] <= '~' && rest[0] != '+' && rest[0] != '-' && (rest[0] < '0' || rest[0] > '9'))
    ensures Atoi(blanks + rest) == 0
    decreases |blanks|
  {
    var s := blanks + rest;
    if blanks == "" {
      assert s == rest;
    } else {
      assert s[0] == blanks[0] && blanks[0] in blanks && s[1..] == blanks[1..] + rest;
      assert forall c | c in blanks[1..] :: c in blanks;
      assert s[0] == ' ' || '\t' <= s[0] <= '\r';
      ReadNothing(blanks[1..], rest);
    }
  }

  /** A front part of a positive number reads as a positive number. */
  lemma ReadFront(n: nat, k: nat)
    requires n > 0 && 0 < k <= |Dec(n)|
    ensures Atoi(Dec(n)[..k]) > 0
  {
    var s := Dec(n)[..k];
    assert s[0] == Dec(n)[0];
    ReadDigitsGrow(s[1..], s[0] as int - '0' as int);
  }

  lemma {:induction false} ReadDigitsGrow(s: string, n: nat)
    ensures ReadDigits(s, n) >= n
    decreases |s|
  {
    if s != "" && IsDigit(s[0]) {
      ReadDigitsGrow(s[1..], n * 10 + (s[0] as int - '0' as int));
    }
  }

  function Pow10(k: nat): nat {
    if k == 0 then 1 else 10 * Pow10(k - 1)
  }

  lemma {:induction false} DecLength(n: nat, k: nat)
    requires n < Pow10(k) && k > 0
    ensures |Dec(n)| <= k
    decreases k
  {
    if n >= 10 {
      DecLength(n / 10, k - 1);
    }
  }

  /** A 64 bit number has at most twenty digits. */
  lemma LongLength(n: nat)
    requires n < 0x1_0000_0000_0000_0000
    ensures |Dec(n)| <= 20
  {
    assert Pow10(5) == 100000;
    assert Pow10(10) == 100000 * Pow10(5);
    assert Pow10(15) == 100000 * Pow10(10);
    assert Pow10(20) == 100000 * Pow10(15);
    DecLength(n, 20);
  }

  // ---------------------------------------------------------------- encoding

  type Argv = seq<string>

  predicate ValidArgv(argv: Argv) {
    0 < |argv| < 0x8000_0000 && forall a | a in argv :: |a| < 0x8000_0000_0000_0000
  }

  function EncodeArg(a: string): string {
    "$" + Dec(|a|) + "\r\n" + a + "\r\n"
  }

  function EncodeArgs(args: seq<string>): string {
    if args == [] then "" else EncodeArg(args[0]) + EncodeArgs(args[1..])
  }

  /** catAppendOnlyGenericCommand. */
  function Encode(argv: Argv): string {
    "*" + Dec(|argv|) + "\r\n" + EncodeArgs(argv)
  }

  // ---------------------------------------------------------------- decoding

  /** The number of characters fgets takes from a file that is not at its end. */
  function LineLength(s: string, room: nat): (n: nat)
    ensures n <= |s| && n <= room
    ensures s != "" && room > 0 ==> n > 0
  {
    if s == "" || room == 0 then 0
    else if s[0] == '\n' then 1
    else 1 + LineLength(s[1..], room - 1)
  }

  /** The length of the line at the front of a file. */
  function Fgets(s: string): (n: nat)
    ensures n <= |s| && (s != "" ==> n > 0)
  {
    LineLength(s, LINE_MAX - 1)
  }

  datatype ArgResult = GotArg(value: string, rest: string) | ArgShort | ArgMalformed

  function ParseArg(s: string): ArgResult {
    if s == "" then ArgShort
    else
      var n := Fgets(s);
      var line, rest := s[..n], s[n..];
      if line[0] != '$' then ArgMalformed
      else
        var len := Atoi(line[1..]);
        if len < 0 || |rest| < len || |rest| - len < 2 then ArgShort
        else GotArg(rest[..len], rest[len + 2..])
  }

  datatype ArgsResult = GotArgs(args: seq<string>, rest: string) | ArgsShort | ArgsMalformed

  function ParseArgs(s: string, k: nat): ArgsResult
    decreases k
  {
    if k == 0 then GotArgs([], s)
    else
      match ParseArg(s)
      case ArgShort => ArgsShort
      case ArgMalformed => ArgsMalformed
      case GotArg(a, rest) =>
        match ParseArgs(rest, k - 1)
        case GotArgs(args, rest1) => GotArgs([a] + args, rest1)
        case other => other
  }

  datatype Read =
    | AtEnd
    | Annotation(rest: string)
    | Command(argv: Argv, rest: string)
    | ShortRead
    | Malformed

  /** One turn of the loader's loop. */
  function ReadOne(s: string): (r: Read)
    ensures r.Annotation? ==> |r.rest| < |s|
  {
    if s == "" then AtEnd
    else
      var n := Fgets(s);
      var line, rest := s[..n], s[n..];
      if line[0] == '#' then Annotation(rest)
      else if line[0] != '*' then Malformed
      else if n == 1 then ShortRead
      else
        var argc := Atoi(line[1..]);
        if argc < 1 then Malformed
        else
          match ParseArgs(rest, argc)
          case GotArgs(args, rest1) => Command(args, rest1)
          case ArgsShort => ShortRead
          case ArgsMalformed => Malformed
  }

  // ---------------------------------------------------------------- one command, whole or cut

  lemma {:induction false} LineOf(text: string, rest: string, room: nat)
    requires forall i | 0 <= i < |text| :: text[i] != '\n'
    ensures |text| + 1 <= room ==> LineLength(text + "\n" + rest, room) == |text| + 1
    ensures |text| <= room ==> LineLength(text, room) == |text|
    decreases |text|
  {
    var s := text + "\n" + rest;
    if text != "" && room > 0 {
      assert s[1..] == text[1..] + "\n" + rest;
      LineOf(text[1..], rest, room - 1);
    }
  }

  /** The header of a command or of an argument. */
  function Header(sign: char, n: nat): string {
    [sign] + Dec(n) + "\r\n"
  }

  lemma ReadHeader(sign: char, n: nat, rest: string)
    requires n < 0x1_0000_0000_0000_0000 && sign != '\n'
    ensures Fgets(Header(sign, n) + rest) == |Header(sign, n)|
    ensures Atoi((Header(sign, n) + rest)[..|Header(sign, n)|][1..]) == n
  {
    LongLength(n);
    var text := [sign] + Dec(n) + "\r";
    assert Header(sign, n) + rest == text + "\n" + rest;
    LineOf(text, rest, LINE_MAX - 1);
    ReadDec(n, "\r\n");
    assert (Header(sign, n) + rest)[..|Header(sign, n)|][1..] == Dec(n) + "\r\n";
  }

  /** A header that is cut short is a line without an end. */
  lemma ReadCutHeader(sign: char, n: nat, k: nat)
    requires n < 0x1_0000_0000_0000_0000 && sign != '\n' && 0 < k < |Header(sign, n)|
    ensures Fgets(Header(sign, n)[..k]) == k
    ensures Atoi(Header(sign, n)[..k][1..]) >= 0
    ensures n > 0 && k > 1 ==> Atoi(Header(sign, n)[..k][1..]) > 0
  {
    LongLength(n);
    var cut := Header(sign, n)[..k];
    LineOf(cut, "", LINE_MAX - 1);
    if k > 1 {
      if k <= |Dec(n)| + 1 {
        assert cut[1..] == Dec(n)[..k - 1];
        if n > 0 {
          ReadFront(n, k - 1);
        }
      } else {
        ReadDec(n, "\r");
        assert cut[1..] == Dec(n) + "\r";
      }
    }
  }

  lemma ArgRoundTrip(a: string, rest: string)
    requires |a| < 0x8000_0000_0000_0000
    ensures ParseArg(EncodeArg(a) + rest) == GotArg(a, rest)
  {
    var s, h := EncodeArg(a) + rest, Header('$', |a|);
    assert s == h + (a + "\r\n" + rest);
    ReadHeader('$', |a|, a + "\r\n" + rest);
    assert s[|h|..] == a + "\r\n" + rest;
    assert s[..|h|] == h;
  }

  lemma ArgCut(a: string, k: nat)
    requires |a| < 0x8000_0000_0000_0000 && k < |EncodeArg(a)|
    ensures ParseArg(EncodeArg(a)[..k]) == ArgShort
  {
    var s, h := EncodeArg(a)[..k], Header('$', |a|);
    assert EncodeArg(a) == h + (a + "\r\n");
    if 0 < k < |h| {
      assert s == h[..k];
      ReadCutHeader('$', |a|, k);
    } else if k >= |h| {
      var tail := (a + "\r\n")[..k - |h|];
      assert s == h + tail;
      ReadHeader('$', |a|, tail);
      assert s[..|h|] == h && s[|h|..] == tail;
    }
  }

  lemma {:induction false} ArgsRoundTrip(args: seq<string>, rest: string)
    requires forall a | a in args :: |a| < 0x8000_0000_0000_0000
    ensures ParseArgs(EncodeArgs(args) + rest, |args|) == GotArgs(args, rest)
    decreases |args|
  {
    hide EncodeArg, ParseArg;
    if args == [] {
      assert EncodeArgs(args) + rest == rest;
    } else {
      var more := EncodeArgs(args[1..]) + rest;
      assert EncodeArgs(args) + rest == EncodeArg(args[0]) + more;
      ArgRoundTrip(args[0], more);
      ArgsRoundTrip(args[1..], rest);
      assert args == [args[0]] + args[1..];
    }
  }

  lemma {:induction false} ArgsCut(args: seq<string>, k: nat)
    requires forall a | a in args :: |a| < 0x8000_0000_0000_0000
    requires k < |EncodeArgs(args)|
    ensures ParseArgs(EncodeArgs(args)[..k], |args|) == ArgsShort
    decreases |args|
  {
    var first, more := EncodeArg(args[0]), EncodeArgs(args[1..]);
    var s := EncodeArgs(args)[..k];
    if k < |first| {
      assert s == first[..k];
      ArgCut(args[0], k);
    } else {
      assert s == first + more[..k - |first|];
      ArgRoundTrip(args[0], more[..k - |first|]);
      ArgsCut(args[1..], k - |first|);
    }
  }

  /** What is encoded is decoded, whatever bytes the arguments hold and whatever follows. */
  lemma CommandRoundTrip(argv: Argv, rest: string)
    requires ValidArgv(argv)
    ensures ReadOne(Encode(argv) + rest) == Command(argv, rest)
  {
    var s, h := Encode(argv) + rest, Header('*', |argv|);
    var tail := EncodeArgs(argv) + rest;
    assert s == h + tail;
    ReadHeader('*', |argv|, tail);
    ArgsRoundTrip(argv, rest);
    assert s[..|h|] == h && s[|h|..] == tail;
  }

  /** A command that is cut anywhere is a short read, never a different command. */
  lemma CommandCut(argv: Argv, k: nat)
    requires ValidArgv(argv) && 0 < k < |Encode(argv)|
    ensures ReadOne(Encode(argv)[..k]) == ShortRead
  {
    var s, h := Encode(argv)[..k], Header('*', |argv|);
    assert Encode(argv) == h + EncodeArgs(argv);
    if k < |h| {
      assert s == h[..k];
      ReadCutHeader('*', |argv|, k);
      if k > 1 {
        assert s[k..] == "" && s[..k] == s;
        var argc := Atoi(s[1..]);
        assert argc > 0;
        assert ParseArg("") == ArgShort;
        assert ParseArgs("", argc) == ArgsShort;
      }
    } else {
      var tail := EncodeArgs(argv)[..k - |h|];
      assert s == h + tail;
      ReadHeader('*', |argv|, tail);
      ArgsCut(argv, k - |h|);
      assert s[..|h|] == h && s[|h|..] == tail;
    }
  }

  // ---------------------------------------------------------------- damage is told from a cut

  /** A bulk string is expected and something else stands there. */
  lemma {:induction false} ArgsDamaged(args: seq<string>, bad: string, k: nat)
    requires forall a | a in args :: |a| < 0x8000_0000_0000_0000
    requires |args| < k && bad != "" && bad[0] != '$'
    ensures ParseArgs(EncodeArgs(args) + bad, k) == ArgsMalformed
    decreases |args|
  {
    hide EncodeArg, ParseArg;
    if args == [] {
      assert EncodeArgs(args) + bad == bad;
      ArgDamaged(bad);
    } else {
      var more := EncodeArgs(args[1..]) + bad;
      assert EncodeArgs(args) + bad == EncodeArg(args[0]) + more;
      ArgRoundTrip(args[0], more);
      ArgsDamaged(args[1..], bad, k - 1);
    }
  }

  lemma ArgDamaged(bad: string)
    requires bad != "" && bad[0] != '$'
    ensures ParseArg(bad) == ArgMalformed
  {
    hide LineLength, Atoi;
  }

  /** A part of the command with `n` arguments up to some argument, and something else in its place. */
  function DamagedCommand(n: nat, args: seq<string>, bad: string): string {
    "*" + Dec(n) + "\r\n" + EncodeArgs(args) + bad
  }

  /** A command with a wrong character in place of the dollar sign of one of its arguments is malformed, whatever
      follows: it is neither taken for a short read nor carried out. */
  lemma CommandDamaged(n: nat, args: seq<string>, bad: string)
    requires 0 < n < 0x8000_0000 && |args| < n && forall a | a in args :: |a| < 0x8000_0000_0000_0000
    requires bad != "" && bad[0] != '$'
    ensures ReadOne(DamagedCommand(n, args, bad)) == Malformed
  {
    var h, tail := Header('*', n), EncodeArgs(args) + bad;
    var s := DamagedCommand(n, args, bad);
    assert s == h + tail;
    ReadHeader('*', n, tail);
    ArgsDamaged(args, bad, n);
    assert s[..|h|] == h && s[|h|..] == tail;
  }

  /** The same for a command without arguments and for a line that is neither a command nor an annotation. */
  lemma StartDamaged(bad: string)
    requires (bad != "" && bad[0] != '*' && bad[0] != '#') || "*0\r\n" <= bad
    ensures ReadOne(bad) == Malformed
  {
    if "*0\r\n" <= bad {
      NoArguments(bad[4..]);
      assert bad == "*0\r\n" + bad[4..];
    }
  }

  lemma NoArguments(rest: string)
    ensures ReadOne("*0\r\n" + rest) == Malformed
  {
    assert Dec(0) == "0";
    assert "*0\r\n" + rest == Header('*', 0) + rest;
    ReadHeader('*', 0, rest);
  }
}
