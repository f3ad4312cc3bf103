/** Quoting: what sdscatrepr writes, the argument splitter reads back, for arbitrary bytes. */
module AclRepr {
  import opened Wrappers
  import opened AclText

  /** A digit of "%02x". */
  function HexDigit(d: nat): (c: char)
    requires d < 16
  {
    if d < 10 then ('0' as int + d) as char else ('a' as int + d - 10) as char
  }

  /** One byte as sdscatrepr writes it. */
  function ReprChar(c: char): (r: string)
    requires c as int < 256
    ensures r != ""
  {
    if c == '\\' || c == '"' then ['\\', c]
    else if c == '\n' then "\\n"
    else if c == '\r' then "\\r"
    else if c == '\t' then "\\t"
    else if c as int == 7 then "\\a"
    else if c as int == 8 then "\\b"
    else if ' ' <= c <= '~' then [c]
    else ['\\', 'x', HexDigit(c as int / 16), HexDigit(c as int % 16)]
  }

  predicate Bytes(s: string) {
    forall i | 0 <= i < |s| :: s[i] as int < 256
  }

  function ReprChars(s: string): string
    requires Bytes(s)
  {
    if s == "" then "" else ReprChar(s[0]) + ReprChars(s[1..])
  }

  /** sdscatrepr. */
  function Repr(s: string): string
    requires Bytes(s)
  {
    "\"" + ReprChars(s) + "\""
  }

  function Reprs(ss: seq<string>): (rs: seq<string>)
    requires forall s | s in ss :: Bytes(s)
    ensures |rs| == |ss|
  {
    if ss == [] then [] else [Repr(ss[0])] + Reprs(ss[1..])
  }

  /** The hexadecimal digits and their values, in either case. */
  lemma HexDigits(c: char)
    ensures IsHex(c) <==> c in "0123456789abcdefABCDEF"
    ensures forall d | 0 <= d < 16 && (c == "0123456789abcdef"[d] || c == "0123456789ABCDEF"[d]) :: IsHex(c) && HexValue(c) == d
  {
    assert "0123456789abcdef" + "ABCDEF" == "0123456789abcdefABCDEF";
    if IsHex(c) {
      var d := HexValue(c);
      assert d >= 10 ==> "0123456789ABCDEF"[d] == "ABCDEF"[d - 10];
    }
  }

  lemma EscapeReads(c: char, rest: string, current: string)
    requires c as int < 256
    ensures Scan(ReprChar(c) + rest, DoubleQuoted, current) == Scan(rest, DoubleQuoted, current + [c])
  {
    var r := ReprChar(c);
    var s := r + rest;
    if |r| == 4 {
      var high, low := HexDigit(c as int / 16), HexDigit(c as int % 16);
      assert s[0] == '\\' && s[1] == 'x' && s[2] == high && s[3] == low && s[4..] == rest;
      assert HexValue(high) == c as int / 16 && HexValue(low) == c as int % 16;
    } else if |r| == 2 {
      assert s[0] == '\\' && s[1] == r[1] != 'x' && s[2..] == rest;
      assert Unescape(r[1]) == c;
    } else {
      assert s[0] == c && s[1..] == rest;
    }
  }

  lemma {:induction false} CharsRead(s: string, rest: string, current: string)
    requires Bytes(s)
    ensures Scan(ReprChars(s) + rest, DoubleQuoted, current) == Scan(rest, DoubleQuoted, current + s)
    decreases |s|
  {
    if s == "" {
      assert ReprChars(s) + rest == rest && current + s == current;
    } else {
      var more := ReprChars(s[1..]) + rest;
      assert ReprChars(s) + rest == ReprChar(s[0]) + more;
      assert s[0] in s && current + [s[0]] + s[1..] == current + s;
      hide ReprChar, Scan;
      EscapeReads(s[0], more, current);
      CharsRead(s[1..], rest, current + [s[0]]);
    }
  }

  /** One quoted string and what follows it. */
  lemma QuotedReads(s: string, more: string)
    requires Bytes(s) && (more == "" || more[0] == ' ')
    ensures SplitArgs(Repr(s) + more) == Prepend(s, if more == "" then Some([]) else SplitArgs(more[1..]))
  {
    var text, tail := Repr(s) + more, "\"" + more;
    assert text[0] == '"' && text[1..] == ReprChars(s) + tail;
    OpenQuote(text);
    CharsRead(s, tail, "");
    assert "" + s == s && tail[0] == '"' && tail[1..] == more;
    CloseAt(s, more);
    hide ReprChars, Scan;
  }

  lemma OpenQuote(text: string)
    requires text != "" && text[0] == '"'
    ensures SplitArgs(text) == Scan(text[1..], DoubleQuoted, "")
  {
    assert Scan(text, Word, "") == Scan(text[1..], DoubleQuoted, "");
    assert Scan(text, Blanks, "") == Scan(text, Word, "");
  }

  lemma CloseAt(s: string, more: string)
    requires more == "" || more[0] == ' '
    ensures Scan("\"" + more, DoubleQuoted, s) == Prepend(s, if more == "" then Some([]) else SplitArgs(more[1..]))
  {
    var tail := "\"" + more;
    assert tail[0] == '"' && tail[1..] == more && (more != "" ==> tail[1] == more[0]);
    assert Scan(more, Blanks, "") == if more == "" then Some([]) else Scan(more[1..], Blanks, "");
    assert Scan(tail, DoubleQuoted, s) == CloseQuote(tail, s);
  }

  /** Any strings of bytes, quoted and put side by side with spaces, are split into themselves. */
  lemma {:induction false} ReprRoundTrip(ss: seq<string>)
    requires forall s | s in ss :: Bytes(s)
    ensures SplitArgs(Join(Reprs(ss))) == Some(ss)
    decreases |ss|
  {
    hide *;
    if ss == [] {
      NothingSplit();
    } else {
      var s, rest := ss[0], ss[1..];
      assert ss == [s] + rest && s in ss && forall x | x in rest :: x in ss;
      ReprRoundTrip(rest);
      var more := if rest == [] then "" else " " + Join(Reprs(rest));
      FirstRepr(ss, more);
      QuotedReads(s, more);
      assert rest != [] ==> more[1..] == Join(Reprs(rest));
      Prepended(s, rest);
    }
  }

  lemma NothingSplit()
    ensures SplitArgs(Join(Reprs([]))) == Some([])
  {
  }

  lemma Prepended(s: string, rest: seq<string>)
    ensures Prepend(s, Some(rest)) == Some([s] + rest)
  {
  }

  lemma FirstRepr(ss: seq<string>, more: string)
    requires ss != [] && forall s | s in ss :: Bytes(s)
    requires (forall s | s in ss[1..] :: Bytes(s)) && more == if ss[1..] == [] then "" else " " + Join(Reprs(ss[1..]))
    ensures Bytes(ss[0]) && Join(Reprs(ss)) == Repr(ss[0]) + more
  {
    hide Repr;
    assert ss[0] in ss;
    if ss[1..] != [] {
      assert Reprs(ss)[1..] == Reprs(ss[1..]);
      assert Repr(ss[0]) + " " + Join(Reprs(ss[1..])) == Repr(ss[0]) + more;
    } else {
      assert Reprs(ss) == [Repr(ss[0])] && Repr(ss[0]) + "" == Repr(ss[0]);
    }
  }

  // ---------------------------------------------------------------- blanks

  /** Blanks in front of a token, of any of the six kinds, are skipped. */
  lemma BlankSkipped(c: char, rest: string)
    requires c == ' ' || 9 <= c as int <= 13
    ensures SplitArgs([c] + rest) == SplitArgs(rest)
  {
    assert ([c] + rest)[1..] == rest && (c == ' ' || '\t' <= c <= '\r');
  }

  /** Four of them end a token outside of quotes; a vertical tab or a form feed goes on as part of it. */
  lemma BlankEnds(word: string, c: char, rest: string)
    requires word != "" && forall x | x in word :: '#' <= x <= '~' && x != '\''
    requires c == ' ' || 9 <= c as int <= 13
    ensures SplitArgs(word + [c] + rest) ==
      if c as int == 11 || c as int == 12 then Scan(rest, Word, word + [c]) else Prepend(word, SplitArgs(rest))
  {
    var s := word + [c] + rest;
    assert PlainText(word);
    assert s[0] == word[0] && word[0] in word && s == word + ([c] + rest);
    ScanWord(word, [c] + rest, "");
    assert "" + word == word && ([c] + rest)[1..] == rest;
    assert '\t' as int == 9 && '\n' as int == 10 && '\r' as int == 13;
  }
}
