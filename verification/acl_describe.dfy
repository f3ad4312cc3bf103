/** Describing a selector: its text is replayed on a new selector and the bitmaps are compared. */
module AclDescribe {
  import opened Wrappers
  import opened AclText
  import opened AclBuffer
  import opened AclSemantics
  import opened AclSelector

  lemma BaseOps(cat: Catalog)
    ensures CommandOp(cat, "+@all") == AllowAll && CommandOp(cat, "-@all") == DenyAll
  {
    assert Lower("+@all") == "+@all" && Lower("-@all") == "-@all";
    assert "+@all"[0] != "-@all"[0] && "+@all"[1] == '@' && "-@all"[1] == '@';
  }

  /** Each recorded rule is accepted again and has the effect it had. */
  lemma ReplayOneMore(cat: Catalog, rules: seq<string>, i: nat, x: Cell, base: bool)
    requires i < |rules| && forall r | r in rules :: IsRule(r)
    requires CommandOp(cat, rules[i]) == Rule(rules[i])
    ensures forall r | r in rules[..i + 1] :: IsRule(r)
    ensures Replay(cat, rules[..i + 1], x, base) == CellAfterOp(cat, rules[i], x, Replay(cat, rules[..i], x, base))
  {
    assert rules[..i + 1][..i] == rules[..i];
  }

  /** A recorded rule can be replayed, because it is plain. */
  lemma RecordedIsReadable(cat: Catalog, r: string)
    requires PlainText(r) && Stored(r)
    ensures Readable(cat, r) && '\0' !in r
  {
  }

  /** Replays the stored rules on `fake`; false stands for a failed assertion on the way. */
  method ReplayRules(s: Selector, fake: Selector) returns (ok: bool)
    requires s.Valid() && fake.Valid() && fake.cat == s.cat && s != fake
    requires s.bits != fake.bits && s.commandRules != fake.commandRules && s.commandRules.data != fake.commandRules.data
    requires forall x: Cell :: fake.Holds(x) == Base(s.bits[RESERVED], x)
    modifies fake, fake.bits, fake.commandRules, fake.commandRules.data
    ensures ok
    ensures forall x: Cell :: fake.Holds(x) == s.Holds(x)
  {
    SplitOfPlain(s.rules);
    var tokens := SplitArgs(s.commandRules.data[..s.commandRules.len]);
    if tokens == None {
      return false;
    }
    ghost var rules, base := s.rules, s.bits[RESERVED];
    assert tokens.value == rules;
    for i := 0 to |tokens.value|
      invariant fake.Valid() && fake.cat == s.cat && fake.commandRules == old(fake.commandRules)
      invariant fake.commandRules.data == old(fake.commandRules.data) || fresh(fake.commandRules.data)
      invariant forall r | r in rules[..i] :: IsRule(r)
      invariant forall x: Cell :: fake.Holds(x) == Replay(s.cat, rules[..i], x, Base(base, x))
    {
      RecordedIsReadable(s.cat, tokens.value[i]);
      label before:
      var accepted := fake.SetSelector(tokens.value[i]);
      if !accepted {
        return false;
      }
      forall x: Cell
        ensures fake.Holds(x) == Replay(s.cat, rules[..i + 1], x, Base(base, x))
      {
        ReplayOneMore(s.cat, rules, i, x, Base(base, x));
        assert old@before(fake.Holds(x)) == Replay(s.cat, rules[..i], x, Base(base, x));
      }
    }
    assert rules[..|rules|] == rules;
    ok := true;
  }

  /** A selector for checking, after +@all or -@all. */
  method BaseSelector(cat: Catalog, all: bool) returns (fake: Selector, text: string)
    requires WellFormed(cat)
    ensures text == if all then "+@all" else "-@all"
    ensures fake.Valid() && fake.cat == cat && forall x: Cell :: fake.Holds(x) == Base(all, x)
    ensures fresh(fake) && fresh(fake.bits) && fresh(fake.commandRules) && fresh(fake.commandRules.data)
  {
    BaseOps(cat);
    fake := new Selector(cat, false);
    text := if all then "+@all" else "-@all";
    hide WellFormed, Replay;
    var ok := fake.SetSelector(text);
  }

  /** memcmp of the bitmaps. */
  method BitmapsEqual(s: Selector, fake: Selector) returns (equal: bool)
    requires s.bits.Length == fake.bits.Length == COMMAND_BITS
    ensures equal <==> forall i | 0 <= i < COMMAND_BITS :: s.bits[i] == fake.bits[i]
  {
    for i := 0 to COMMAND_BITS
      invariant forall j | 0 <= j < i :: s.bits[j] == fake.bits[j]
    {
      if fake.bits[i] != s.bits[i] {
        return false;
      }
    }
    equal := true;
  }

  /** ACLDescribeSelectorCommandRules: neither an assertion nor the final panic can be reached. */
  method DescribeCommandRules(s: Selector) returns (text: string, panic: bool)
    requires s.Valid()
    ensures !panic
    ensures text == (if s.bits[RESERVED] then "+@all" else "-@all") + (if s.rules == [] then "" else " " + Join(s.rules))
  {
    var fake;
    fake, text := BaseSelector(s.cat, s.bits[RESERVED]);
    var ok := ReplayRules(s, fake);
    if s.commandRules.len != 0 {
      text := text + (" " + s.commandRules.data[..s.commandRules.len]);
    }
    JoinHasNoTerminator(s.rules);
    forall i | 0 <= i < COMMAND_BITS
      ensures fake.bits[i] == s.bits[i]
    {
      assert fake.Holds(Bit(i)) == s.Holds(Bit(i));
    }
    var equal := BitmapsEqual(s, fake);
    panic := !ok || !equal;
  }

  // ---------------------------------------------------------------- where replaying fails

  function OneCommand(): Catalog {
    Catalog(map["a" := Command(3, {}, map[])], map[])
  }

  lemma BarOf(name: string)
    requires name == "a|b c"
    ensures LastBar(name) == 1
  {
    assert LastBar(name) == LastBar(name[..4]);
    assert LastBar(name[..4]) == LastBar(name[..4][..3]);
    assert name[..4][..3][..2] == "a|";
  }

  lemma OneCommandResolves(name: string)
    requires name == "a|b c"
    ensures Resolve(OneCommand(), name) == FirstArg(3, "b c")
  {
    BarOf(name);
    hide LastBar;
    assert name[..1] == "a" && name[2..] == "b c" && name[0] == 'a';
  }

  lemma BlankIsRecorded(op: string)
    requires op == "+a|b c"
    ensures CommandOp(OneCommand(), op) == Rule(op)
  {
    assert Lower(op) == op && op[1..] == "a|b c" && op[0] == '+' && op[1] == 'a';
    OneCommandResolves(op[1..]);
    hide Resolve, Lower;
    assert |op| == 6;
  }

  lemma BlankIsSplit(op: string)
    requires op == "+a|b c"
    ensures SplitArgs(op) == Some(["+a|b", "c"])
  {
    ScanWord("+a|b", " c", "");
    assert op == "+a|b" + " c" && " c"[1..] == "c" && "" + "+a|b" == "+a|b";
    assert Scan(op, Word, "") == Scan(" c", Word, "+a|b");
    assert Scan(" c", Word, "+a|b") == Prepend("+a|b", Scan("c", Blanks, ""));
    ScanWord("c", "", "");
    assert "c" + "" == "c" && "" + "c" == "c";
    assert Scan("c", Blanks, "") == Scan("c", Word, "") == Scan("", Word, "c") == Some(["c"]);
    assert ["+a|b"] + ["c"] == ["+a|b", "c"];
    assert op[0] == '+' && SplitArgs(op) == Scan(op, Word, "");
  }

  /** The operation "+a|b c" is accepted and recorded as one rule; read back it is two tokens, and the
      second is no operation at all. */
  lemma BlankInFirstArg(op: string)
    requires op == "+a|b c"
    ensures WellFormed(OneCommand())
    ensures RulesAfter(OneCommand(), [op]) == [op]
    ensures Join([op]) == op && SplitArgs(op) == Some(["+a|b", "c"])
    ensures CommandOp(OneCommand(), "c").Rejected?
  {
    var cat := OneCommand();
    BlankIsRecorded(op);
    BlankIsSplit(op);
    SingleJoin(op);
    hide Scan, Resolve, CommandOp, Join, WellFormed;
    assert [op][..0] == [];
    assert RulesAfter(cat, []) == [];
    assert RulesAfter(cat, [op]) == RulesAfterOp(cat, [], op);
  }
}
