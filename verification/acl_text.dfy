/** The textual side of an ACL selector: its rules are kept in one buffer, separated by single spaces.
    Rules are removed from the buffer in place and read back by the argument splitter. */
module AclText {
  import opened Wrappers

  /** sdstolower. */
  function Lower(s: string): (r: string)
    ensures |r| == |s| && forall i | 0 <= i < |s| :: r[i] == LowerChar(s[i])
  {
    seq(|s|, i requires 0 <= i < |s| => LowerChar(s[i]))
  }

  /** A rule is a sign and a name. */
  predicate IsRule(r: string) {
    |r| >= 1 && (r[0] == '+' || r[0] == '-')
  }

  /** The rules in the buffer, one space between two of them. */
  function Join(rules: seq<string>): string {
    if rules == [] then "" else if |rules| == 1 then rules[0] else rules[0] + " " + Join(rules[1..])
  }

  /** `existing` is the name `name` itself or a subcommand of it. */
  predicate Covers(name: string, existing: string) {
    existing == name || (|existing| > |name| && existing[..|name|] == name && existing[|name|] == '|')
  }

  /** The rules that a new rule called `name` leaves in place. */
  function Kept(rules: seq<string>, name: string): seq<string>
    requires forall r | r in rules :: IsRule(r)
  {
    if rules == [] then []
    else
      assert IsRule(rules[0]);
      if Covers(name, rules[0][1..]) then Kept(rules[1..], name)
    else [rules[0]] + Kept(rules[1..], name)
  }

  /** A rule stays unless its name is the new one or continues it with a bar. */
  lemma KeptNames(rules: seq<string>, name: string, r: string)
    requires (forall x | x in rules :: IsRule(x)) && r in rules
    ensures r in Kept(rules, name) <==> !(r[1..] == name || name + "|" <= r[1..])
  {
    KeptMembers(rules, name);
    assert IsRule(r);
    hide Kept;
    var existing := r[1..];
    assert name + "|" <= existing ==> existing[..|name|] == (name + "|")[..|name|] == name && existing[|name|] == (name + "|")[|name|];
    assert |existing| > |name| ==> existing[..|name| + 1] == existing[..|name|] + [existing[|name|]];
  }

  lemma {:induction false} KeptMembers(rules: seq<string>, name: string)
    requires forall r | r in rules :: IsRule(r)
    ensures forall r :: r in Kept(rules, name) <==> r in rules && !Covers(name, r[1..])
  {
    if rules != [] {
      assert IsRule(rules[0]);
      KeptMembers(rules[1..], name);
    }
  }

  // ---------------------------------------------------------------- the argument splitter

  predicate IsSpace(c: char) {
    c == ' ' || '\t' <= c <= '\r'
  }

  /** The characters that end or change a token outside of quotes. */
  predicate IsSpecial(c: char) {
    c == ' ' || c == '\n' || c == '\r' || c == '\t' || c == '"' || c == '\''
  }

  predicate PlainText(s: string) {
    forall c | c in s :: !IsSpecial(c)
  }

  predicate IsHex(c: char) {
    '0' <= c <= '9' || 'a' <= c <= 'f' || 'A' <= c <= 'F'
  }

  function HexValue(c: char): (v: nat)
    requires IsHex(c)
    ensures v < 16
  {
    if '0' <= c <= '9' then c as int - '0' as int
    else if 'a' <= c <= 'f' then c as int - 'a' as int + 10
    else c as int - 'A' as int + 10
  }

  function Unescape(c: char): char {
    match c
    case 'n' => '\n'
    case 'r' => '\r'
    case 't' => '\t'
    case 'b' => 8 as char
    case 'a' => 7 as char
    case _ => c
  }

  datatype Mode = Blanks | Word | DoubleQuoted | SingleQuoted

  /** sdssplitargs from a given position: `current` is the token being built. None stands for
      unbalanced quotes, or a closing quote followed by something else than a space. */
  function Scan(s: string, mode: Mode, current: string): Option<seq<string>>
    decreases |s|, if mode.Blanks? then 2 else 1
  {
    match mode
    case Blanks =>
      if s == "" then Some([])
      else if IsSpace(s[0]) then Scan(s[1..], Blanks, "")
      else Scan(s, Word, "")
    case Word =>
      if s == "" then Some([current])
      else if s[0] == '"' then Scan(s[1..], DoubleQuoted, current)
      else if s[0] == '\'' then Scan(s[1..], SingleQuoted, current)
      else if IsSpecial(s[0]) then Prepend(current, Scan(s[1..], Blanks, ""))
      else Scan(s[1..], Word, current + [s[0]])
    case DoubleQuoted =>
      if s == "" then None
      else if |s| >= 4 && s[0] == '\\' && s[1] == 'x' && IsHex(s[2]) && IsHex(s[3])
      then Scan(s[4..], DoubleQuoted, current + [(HexValue(s[2]) * 16 + HexValue(s[3])) as char])
      else if |s| >= 2 && s[0] == '\\' then Scan(s[2..], DoubleQuoted, current + [Unescape(s[1])])
      else if s[0] == '"' then CloseQuote(s, current)
      else Scan(s[1..], DoubleQuoted, current + [s[0]])
    case SingleQuoted =>
      if s == "" then None
      else if |s| >= 2 && s[0] == '\\' && s[1] == '\'' then Scan(s[2..], SingleQuoted, current + ['\''])
      else if s[0] == '\'' then CloseQuote(s, current)
      else Scan(s[1..], SingleQuoted, current + [s[0]])
  }

  function CloseQuote(s: string, current: string): Option<seq<string>>
    requires s != ""
    decreases |s|, 0
  {
    if |s| > 1 && !IsSpace(s[1]) then None else Prepend(current, Scan(s[1..], Blanks, ""))
  }

  function Prepend(token: string, tokens: Option<seq<string>>): Option<seq<string>> {
    if tokens.None? then None else Some([token] + tokens.value)
  }

  function SplitArgs(line: string): Option<seq<string>> {
    Scan(line, Blanks, "")
  }

  lemma {:induction false} ScanWord(word: string, rest: string, current: string)
    requires PlainText(word)
    ensures Scan(word + rest, Word, current) == Scan(rest, Word, current + word)
    decreases |word|
  {
    if word == "" {
      assert word + rest == rest && current + word == current;
    } else {
      assert word[0] in word && (word + rest)[1..] == word[1..] + rest;
      ScanWord(word[1..], rest, current + [word[0]]);
      assert current + [word[0]] + word[1..] == current + word;
    }
  }

  /** Plain rules are read back as they are. */
  lemma {:induction false} SplitOfPlain(rules: seq<string>)
    requires forall r | r in rules :: IsRule(r) && PlainText(r)
    ensures SplitArgs(Join(rules)) == Some(rules)
  {
    if rules != [] {
      var r, rest := rules[0], rules[1..];
      if rest == [] {
        ScanWord(r, "", "");
        assert r + "" == r && "" + r == r && rules == [r];
      } else {
        SplitOfPlain(rest);
        ScanWord(r, " " + Join(rest), "");
        assert Join(rules) == r + (" " + Join(rest)) && "" + r == r;
        assert (" " + Join(rest))[1..] == Join(rest);
        assert rules == [r] + rest;
      }
    }
  }

  /** The characters of the tokens and the gaps between them. */
  function Weight(tokens: seq<string>): int {
    if tokens == [] then -1 else |tokens[0]| + 1 + Weight(tokens[1..])
  }

  lemma {:induction false} JoinWeight(rules: seq<string>)
    requires rules != []
    ensures |Join(rules)| == Weight(rules)
  {
    if |rules| > 1 {
      JoinWeight(rules[1..]);
    }
  }

  /** The splitter never produces more text than it reads; quotes and extra blanks are lost, so a
      splitting that loses nothing has met neither, and all its tokens are plain. */
  lemma {:induction false} ScanWeight(s: string, mode: Mode, current: string, tokens: seq<string>)
    requires Scan(s, mode, current) == Some(tokens)
    requires mode.Blanks? ==> current == ""
    ensures mode.Blanks? ==> Weight(tokens) <= |s|
    ensures mode.Word? ==> tokens != [] && Weight(tokens) <= |current| + |s|
    ensures mode.DoubleQuoted? || mode.SingleQuoted? ==> tokens != [] && Weight(tokens) < |current| + |s|
    ensures (mode.Blanks? || mode.Word?) && PlainText(current) && Weight(tokens) == |current| + |s| ==>
              forall t | t in tokens :: PlainText(t)
    decreases |s|, if mode.Blanks? then 2 else 1
  {
    match mode
    case Blanks =>
      if s != "" {
        if IsSpace(s[0]) {
          ScanWeight(s[1..], Blanks, "", tokens);
        } else {
          ScanWeight(s, Word, "", tokens);
        }
      }
    case Word =>
      if s == "" {
        assert tokens == [current] && Weight(tokens[1..]) == -1;
      } else if s[0] == '"' {
        ScanWeight(s[1..], DoubleQuoted, current, tokens);
      } else if s[0] == '\'' {
        ScanWeight(s[1..], SingleQuoted, current, tokens);
      } else if IsSpecial(s[0]) {
        EndOfToken(s, current, tokens);
      } else {
        ScanWeight(s[1..], Word, current + [s[0]], tokens);
      }
    case DoubleQuoted =>
      if |s| >= 4 && s[0] == '\\' && s[1] == 'x' && IsHex(s[2]) && IsHex(s[3]) {
        ScanWeight(s[4..], DoubleQuoted, current + [(HexValue(s[2]) * 16 + HexValue(s[3])) as char], tokens);
      } else if |s| >= 2 && s[0] == '\\' {
        ScanWeight(s[2..], DoubleQuoted, current + [Unescape(s[1])], tokens);
      } else if s[0] == '"' {
        AfterQuote(s, current, tokens);
      } else {
        ScanWeight(s[1..], DoubleQuoted, current + [s[0]], tokens);
      }
    case SingleQuoted =>
      if |s| >= 2 && s[0] == '\\' && s[1] == '\'' {
        ScanWeight(s[2..], SingleQuoted, current + ['\''], tokens);
      } else if s[0] == '\'' {
        AfterQuote(s, current, tokens);
      } else {
        ScanWeight(s[1..], SingleQuoted, current + [s[0]], tokens);
      }
  }

  lemma {:induction false} EndOfToken(s: string, current: string, tokens: seq<string>)
    requires s != "" && Prepend(current, Scan(s[1..], Blanks, "")) == Some(tokens)
    ensures tokens != [] && Weight(tokens) <= |current| + |s|
    ensures PlainText(current) && Weight(tokens) == |current| + |s| ==> forall t | t in tokens :: PlainText(t)
    decreases |s|, 0
  {
    var rest := Scan(s[1..], Blanks, "").value;
    ScanWeight(s[1..], Blanks, "", rest);
    assert tokens[1..] == rest;
  }

  lemma {:induction false} AfterQuote(s: string, current: string, tokens: seq<string>)
    requires s != "" && CloseQuote(s, current) == Some(tokens)
    ensures tokens != [] && Weight(tokens) < |current| + |s|
    decreases |s|, 0
  {
    var rest := Scan(s[1..], Blanks, "").value;
    assert tokens[1..] == rest && tokens[0] == current;
    if |s| == 1 {
      assert rest == [];
    } else {
      var t := s[1..];
      assert Scan(t, Blanks, "") == Scan(t[1..], Blanks, "");
      ScanWeight(t[1..], Blanks, "", rest);
    }
  }

  /** The buffer is read back as the rules it was built from exactly when no rule contains a blank or a
      quote. */
  lemma SplitOfJoin(rules: seq<string>)
    requires forall r | r in rules :: IsRule(r)
    ensures SplitArgs(Join(rules)) == Some(rules) <==> forall r | r in rules :: PlainText(r)
  {
    if SplitArgs(Join(rules)) == Some(rules) && rules != [] {
      JoinWeight(rules);
      ScanWeight(Join(rules), Blanks, "", rules);
    }
    if forall r | r in rules :: PlainText(r) {
      SplitOfPlain(rules);
    }
  }
}
