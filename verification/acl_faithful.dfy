/** What comes of describing a selector after any operations, first arguments with blanks and quotes
    included: when everything is rebuilt, and how the assertion and the panic can be reached. */
module AclFaithful {
  import opened Wrappers
  import opened AclText
  import opened AclBuffer
  import opened AclSemantics
  import opened AclSelector
  import opened AclDescribe

  /** The operation that the description starts with. */
  function BaseOp(all: bool): string {
    if all then "+@all" else "-@all"
  }

  function TokensAfter(cat: Catalog, ops: seq<string>): Option<seq<string>> {
    SplitArgs(Join(RulesAfter(cat, ops)))
  }

  predicate AllAccepted(cat: Catalog, tokens: seq<string>) {
    forall t | t in tokens :: !CommandOp(cat, t).Rejected?
  }

  /** A cell of the selector that replays the text. */
  predicate ReplayedCell(cat: Catalog, ops: seq<string>, tokens: seq<string>, x: Cell) {
    CellAfter(cat, [BaseOp(CellAfter(cat, ops, Bit(RESERVED)))] + tokens, x)
  }

  datatype Outcome = AssertionFails | BitmapsDiffer | Printed

  /** ACLDescribeSelectorCommandRules on a selector that the operations have led to. */
  ghost function Describe(cat: Catalog, ops: seq<string>): Outcome {
    var tokens := TokensAfter(cat, ops);
    if tokens.None? || !AllAccepted(cat, tokens.value) then AssertionFails
    else if forall i | 0 <= i < COMMAND_BITS :: ReplayedCell(cat, ops, tokens.value, Bit(i)) == CellAfter(cat, ops, Bit(i))
    then Printed
    else BitmapsDiffer
  }

  /** The text is accepted again and gives back every bit and every allowed first argument. */
  ghost predicate Rebuilt(cat: Catalog, ops: seq<string>) {
    var tokens := TokensAfter(cat, ops);
    && tokens.Some? && AllAccepted(cat, tokens.value)
    && forall x: Cell :: ReplayedCell(cat, ops, tokens.value, x) == CellAfter(cat, ops, x)
  }

  // ---------------------------------------------------------------- plain operations

  predicate Recorded(cat: Catalog, r: string) {
    Stored(r) && PlainText(r) && IsRule(r) && CommandOp(cat, r) == Rule(r)
  }

  predicate AllReadable(cat: Catalog, ops: seq<string>) {
    forall op | op in ops :: '\0' !in op && Readable(cat, op)
  }

  lemma {:induction false} RulesRecorded(cat: Catalog, ops: seq<string>)
    requires WellFormed(cat) && AllReadable(cat, ops)
    ensures forall r | r in RulesAfter(cat, ops) :: Recorded(cat, r)
    decreases |ops|
  {
    if ops != [] {
      var init, op := ops[..|ops| - 1], ops[|ops| - 1];
      assert op in ops && forall o | o in init :: o in ops;
      RulesRecorded(cat, init);
      var o := CommandOp(cat, op);
      hide Recorded, CommandOp, Readable, WellFormed, Resolve;
      if o.Rule? {
        OpRecorded(cat, op);
        KeptMembers(RulesAfter(cat, init), o.rule[1..]);
      }
    }
  }

  lemma OpRecorded(cat: Catalog, op: string)
    requires WellFormed(cat) && '\0' !in op && Readable(cat, op) && CommandOp(cat, op).Rule?
    ensures Recorded(cat, CommandOp(cat, op).rule)
  {
    RuleText(cat, op, CommandOp(cat, op).rule);
    RecordedRule(cat, op);
    hide CommandOp, WellFormed, Resolve;
  }

  /** Operations after the first one, on top of what it left. */
  lemma {:induction false} ReplayFrom(cat: Catalog, base: string, rules: seq<string>, x: Cell)
    requires forall r | r in rules :: IsRule(r) && CommandOp(cat, r) == Rule(r)
    ensures CellAfter(cat, [base] + rules, x) == Replay(cat, rules, x, CellAfter(cat, [base], x))
    decreases |rules|
  {
    var all := [base] + rules;
    if rules == [] {
      assert all == [base];
    } else {
      var init := rules[..|rules| - 1];
      assert all[..|all| - 1] == [base] + init && rules[|rules| - 1] in rules;
      ReplayFrom(cat, base, init, x);
    }
  }

  lemma BaseCell(cat: Catalog, all: bool, x: Cell)
    ensures CellAfter(cat, [BaseOp(all)], x) == Base(all, x)
  {
    BaseOps(cat);
    var op := BaseOp(all);
    assert [op][..0] == [] && [op][0] == op;
    hide CommandOp;
  }

  /** After plain operations the description rebuilds everything. */
  lemma PlainIsRebuilt(cat: Catalog, ops: seq<string>)
    requires WellFormed(cat) && AllReadable(cat, ops)
    ensures Rebuilt(cat, ops)
  {
    var rules := RulesAfter(cat, ops);
    RulesRecorded(cat, ops);
    SplitOfPlain(rules);
    hide CommandOp, SplitArgs, Join, WellFormed, Readable;
    assert TokensAfter(cat, ops) == Some(rules);
    var reserved := CellAfter(cat, ops, Bit(RESERVED));
    forall x: Cell
      ensures ReplayedCell(cat, ops, rules, x) == CellAfter(cat, ops, x)
    {
      ReplayRebuilds(cat, ops, x);
      ReplayFrom(cat, BaseOp(reserved), rules, x);
      BaseCell(cat, reserved, x);
    }
  }

  /** What is rebuilt is printed. */
  lemma RebuiltIsPrinted(cat: Catalog, ops: seq<string>)
    requires Rebuilt(cat, ops)
    ensures Describe(cat, ops) == Printed
  {
    hide ReplayedCell, CellAfter, TokensAfter, AllAccepted;
  }

  // ---------------------------------------------------------------- the first operation that is not plain

  lemma {:induction false} SplitAfterPlain(kept: seq<string>, r: string)
    requires r != "" && forall k | k in kept :: IsRule(k) && PlainText(k)
    ensures var rest := SplitArgs(r);
      SplitArgs(Join(kept + [r])) == if rest.None? then None else Some(kept + rest.value)
    decreases |kept|
  {
    if kept == [] {
      assert kept + [r] == [r];
      assert SplitArgs(r).Some? ==> [] + SplitArgs(r).value == SplitArgs(r).value;
    } else {
      var k, later := kept[0], kept[1..];
      SplitAfterPlain(later, r);
      var j := Join(later + [r]);
      assert kept + [r] == [k] + (later + [r]) && (kept + [r])[1..] == later + [r];
      assert Join(kept + [r]) == k + (" " + j);
      ScanWord(k, " " + j, "");
      assert (" " + j)[1..] == j && "" + k == k;
      var rest := SplitArgs(r);
      assert rest.Some? ==> [k] + (later + rest.value) == kept + rest.value;
    }
  }

  lemma {:induction false} TokenWeight(tokens: seq<string>, t: string)
    requires t in tokens
    ensures |t| <= Weight(tokens)
    decreases |tokens|
  {
    if t == tokens[0] {
      WeightBound(tokens[1..]);
    } else {
      TokenWeight(tokens[1..], t);
    }
  }

  lemma {:induction false} WeightBound(tokens: seq<string>)
    ensures Weight(tokens) >= -1
    decreases |tokens|
  {
    if tokens != [] {
      WeightBound(tokens[1..]);
    }
  }

  lemma LowerPlain(s: string)
    ensures PlainText(Lower(s)) <==> PlainText(s)
  {
    var l := Lower(s);
    forall i | 0 <= i < |s|
      ensures IsSpecial(l[i]) <==> IsSpecial(s[i])
    {
      assert l[i] == LowerChar(s[i]);
    }
    assert forall i | 0 <= i < |s| :: s[i] in s && l[i] in l;
  }

  /** The operation allows a first argument. */
  predicate Allows(cat: Catalog, op: string, id: nat, arg: string) {
    CommandOp(cat, op).Rule? && Resolve(cat, CommandOp(cat, op).rule[1..]) == FirstArg(id, arg)
  }

  /** A first argument is allowed only when some operation allowed it. */
  lemma {:induction false} ArgHasOp(cat: Catalog, ops: seq<string>, id: nat, arg: string)
    requires CellAfter(cat, ops, Arg(id, arg))
    ensures exists op :: op in ops && Allows(cat, op, id, arg)
    decreases |ops|
  {
    var init, last := ops[..|ops| - 1], ops[|ops| - 1];
    assert last in ops && forall op | op in init :: op in ops;
    if !Allows(cat, last, id, arg) {
      LastAllows(cat, last, id, arg, CellAfter(cat, init, Arg(id, arg)));
      hide Allows, CellAfterOp;
      ArgHasOp(cat, init, id, arg);
    }
  }

  lemma LastAllows(cat: Catalog, op: string, id: nat, arg: string, before: bool)
    requires CellAfterOp(cat, op, Arg(id, arg), before)
    ensures Allows(cat, op, id, arg) || before
  {
    hide Resolve, Lower;
  }

  /** The text of an operation that allows a first argument: the sign, the command, a bar, the argument. */
  lemma AllowsText(cat: Catalog, op: string, id: nat, arg: string) returns (name: string)
    requires WellFormed(cat) && Allows(cat, op, id, arg)
    ensures name in cat.commands && cat.commands[name].id == id && PlainText(name)
    ensures op != "" && Lower(op) == op[..1] + name + "|" + arg && PlainText(op[..1])
  {
    var r := SignedText(cat, op, id, arg);
    hide *;
    name := ArgName(cat, r[1..], id, arg);
    Regrouped(op[..1], name, "|", arg);
  }

  lemma Regrouped(a: string, b: string, c: string, d: string)
    ensures a + (b + c + d) == a + b + c + d
  {
  }

  lemma SignedText(cat: Catalog, op: string, id: nat, arg: string) returns (r: string)
    requires Allows(cat, op, id, arg)
    ensures r != "" && r == Lower(op) == op[..1] + r[1..] && op != "" && PlainText(op[..1])
    ensures Resolve(cat, r[1..]) == FirstArg(id, arg)
  {
    SignOfOp(cat, op);
    r := CommandOp(cat, op).rule;
    hide CommandOp, Lower, Resolve;
    assert r == [r[0]] + r[1..] && op[..1] == [op[0]];
  }

  lemma ArgName(cat: Catalog, name: string, id: nat, arg: string) returns (parent: string)
    requires WellFormed(cat) && Resolve(cat, name) == FirstArg(id, arg)
    ensures parent in cat.commands && cat.commands[parent].id == id && PlainText(parent) && name == parent + "|" + arg
  {
    FirstArgHasBar(cat, name);
    var bar := LastBar(name);
    parent := name[..bar];
    assert WellFormedCommand(cat, parent, cat.commands[parent]);
    assert name == parent + "|" + name[bar + 1..];
    hide WellFormed, LastBar;
  }

  /** Two texts that allow the same first argument are equally long, and plain only with the argument. */
  lemma SameLength(cat: Catalog, op: string, t: string, id: nat, arg: string)
    requires WellFormed(cat) && DistinctIds(cat) && Allows(cat, op, id, arg) && Allows(cat, t, id, arg)
    ensures |op| == |t| && (PlainText(op) <==> PlainText(arg)) && (PlainText(t) <==> PlainText(arg))
  {
    var m := AllowsText(cat, op, id, arg);
    var n := AllowsText(cat, t, id, arg);
    assert m == n;
    hide *;
    PlainParts(op, m, arg);
    PlainParts(t, n, arg);
  }

  lemma PlainParts(op: string, name: string, arg: string)
    requires op != "" && Lower(op) == op[..1] + name + "|" + arg && PlainText(op[..1]) && PlainText(name)
    ensures |op| == |name| + |arg| + 2 && (PlainText(op) <==> PlainText(arg))
  {
    LowerPlain(op);
    assert |Lower(op)| == |op|;
    var l := Lower(op);
    hide Lower;
    assert forall c :: c in l <==> c in op[..1] || c in name || c == '|' || c in arg;
  }

  /** No token that a rule with a blank or a quote is split into allows the rule's first argument. */
  lemma SplitLosesArg(cat: Catalog, r: string, tokens: seq<string>, t: string, id: nat, arg: string)
    requires WellFormed(cat) && DistinctIds(cat) && Allows(cat, r, id, arg) && !PlainText(r)
    requires SplitArgs(r) == Some(tokens) && t in tokens
    ensures !Allows(cat, t, id, arg)
  {
    ScanWeight(r, Blanks, "", tokens);
    TokenWeight(tokens, t);
    if Allows(cat, t, id, arg) {
      SameLength(cat, r, t, id, arg);
    }
  }

  /** The first operation whose first argument is not plain breaks the description: the argument it allows
      is not rebuilt, whether or not anything fails on the way. */
  lemma NotPlainIsLost(cat: Catalog, ops: seq<string>, op: string)
    requires WellFormed(cat) && DistinctIds(cat) && AllReadable(cat, ops) && !Readable(cat, op)
    ensures !Rebuilt(cat, ops + [op])
  {
    var all, r := ops + [op], CommandOp(cat, op).rule;
    var t := Resolve(cat, r[1..]);
    var kept := Kept(RulesAfter(cat, ops), r[1..]);
    assert all[..|all| - 1] == ops;
    RecordedRule(cat, op);
    assert Allows(cat, op, t.id, t.arg) && Allows(cat, r, t.id, t.arg);
    ArgIsSet(cat, ops, op, t.id, t.arg);
    RulesRecorded(cat, ops);
    KeptMembers(RulesAfter(cat, ops), r[1..]);
    LowerPlain(op);
    assert forall k | k in kept :: IsRule(k) && PlainText(k);
    SplitAfterPlain(kept, r);
    assert RulesAfter(cat, all) == kept + [r];
    var rest := SplitArgs(r);
    hide *;
    if rest.Some? {
      TokensLoseArg(cat, r, kept, rest.value, CellAfter(cat, all, Bit(RESERVED)), t.id, t.arg);
    }
    LostCell(cat, all, if rest.Some? then Some(kept + rest.value) else None, t.id, t.arg);
  }

  lemma LostCell(cat: Catalog, ops: seq<string>, tokens: Option<seq<string>>, id: nat, arg: string)
    requires SplitArgs(Join(RulesAfter(cat, ops))) == tokens && CellAfter(cat, ops, Arg(id, arg))
    requires tokens.Some? ==> !CellAfter(cat, [BaseOp(CellAfter(cat, ops, Bit(RESERVED)))] + tokens.value, Arg(id, arg))
    ensures !Rebuilt(cat, ops)
  {
    hide CellAfter, SplitArgs, Join, RulesAfter, AllAccepted;
    assert tokens.Some? ==> ReplayedCell(cat, ops, tokens.value, Arg(id, arg)) != CellAfter(cat, ops, Arg(id, arg));
  }

  lemma ArgIsSet(cat: Catalog, ops: seq<string>, op: string, id: nat, arg: string)
    requires Allows(cat, op, id, arg)
    ensures CellAfter(cat, ops + [op], Arg(id, arg))
  {
    var all := ops + [op];
    assert all[..|all| - 1] == ops && all[|all| - 1] == op;
    hide Resolve, Lower;
  }

  lemma TokensLoseArg(cat: Catalog, r: string, kept: seq<string>, rest: seq<string>, all: bool, id: nat, arg: string)
    requires WellFormed(cat) && DistinctIds(cat) && Allows(cat, r, id, arg) && !PlainText(r)
    requires SplitArgs(r) == Some(rest) && forall k | k in kept :: PlainText(k)
    ensures !CellAfter(cat, [BaseOp(all)] + (kept + rest), Arg(id, arg))
  {
    hide *;
    var tokens := [BaseOp(all)] + (kept + rest);
    if CellAfter(cat, tokens, Arg(id, arg)) {
      ArgHasOp(cat, tokens, id, arg);
      var t :| t in tokens && Allows(cat, t, id, arg);
      assert t in kept || t in rest || t == BaseOp(all);
      if t in kept {
        SameLength(cat, r, t, id, arg);
      } else if t in rest {
        SplitLosesArg(cat, r, rest, t, id, arg);
      } else {
        BaseAllowsNothing(cat, all, id, arg);
      }
      assert false;
    }
  }

  lemma BaseAllowsNothing(cat: Catalog, all: bool, id: nat, arg: string)
    ensures !Allows(cat, BaseOp(all), id, arg)
  {
    BaseOps(cat);
    hide CommandOp;
  }

  /** As long as every operation was plain, describing after one more rebuilds everything if and only if
      that one is plain too. */
  lemma RebuiltIffPlain(cat: Catalog, ops: seq<string>, op: string)
    requires WellFormed(cat) && DistinctIds(cat) && AllReadable(cat, ops) && '\0' !in op
    ensures Rebuilt(cat, ops + [op]) <==> Readable(cat, op)
  {
    if Readable(cat, op) {
      assert forall o | o in ops + [op] :: o in ops || o == op;
      hide Readable;
      PlainIsRebuilt(cat, ops + [op]);
    } else {
      NotPlainIsLost(cat, ops, op);
    }
  }

  // ---------------------------------------------------------------- what fails, and what is printed

  /** A cell after some more operations. */
  predicate Continued(cat: Catalog, ops: seq<string>, x: Cell, before: bool) {
    if ops == [] then before else CellAfterOp(cat, ops[|ops| - 1], x, Continued(cat, ops[..|ops| - 1], x, before))
  }

  lemma {:induction false} AfterThen(cat: Catalog, first: seq<string>, more: seq<string>, x: Cell)
    ensures CellAfter(cat, first + more, x) == Continued(cat, more, x, CellAfter(cat, first, x))
    decreases |more|
  {
    if more == [] {
      assert first + more == first;
    } else {
      AfterThen(cat, first, more[..|more| - 1], x);
      assert (first + more)[..|first + more| - 1] == first + more[..|more| - 1];
    }
  }

  /** The operations change no bit of a selector. */
  ghost predicate ChangesNoBit(cat: Catalog, ops: seq<string>, more: seq<string>) {
    forall i | 0 <= i < COMMAND_BITS :: Continued(cat, more, Bit(i), CellAfter(cat, ops, Bit(i))) == CellAfter(cat, ops, Bit(i))
  }

  /** The rules that are left when the rule of an operation replaces others. */
  function KeptAfter(cat: Catalog, ops: seq<string>, op: string): (r: seq<string>)
    requires CommandOp(cat, op).Rule?
    ensures forall k | k in r :: IsRule(k) && k in RulesAfter(cat, ops)
  {
    var name := CommandOp(cat, op).rule[1..];
    KeptMembers(RulesAfter(cat, ops), name);
    Kept(RulesAfter(cat, ops), name)
  }

  /** A rule about a first argument changes no bit, and what it replaces did not either. */
  lemma KeptBit(cat: Catalog, ops: seq<string>, op: string, i: nat)
    requires WellFormed(cat) && AllReadable(cat, ops) && !Readable(cat, op)
    ensures CellAfter(cat, ops + [op], Bit(i)) == CellAfter(cat, ops, Bit(i))
    ensures Replay(cat, KeptAfter(cat, ops, op), Bit(i), Base(CellAfter(cat, ops, Bit(RESERVED)), Bit(i)))
            == CellAfter(cat, ops, Bit(i))
  {
    assert (ops + [op])[..|ops + [op]| - 1] == ops;
    KeptReplay(cat, RulesAfter(cat, ops), CommandOp(cat, op).rule[1..], Bit(i), Base(CellAfter(cat, ops, Bit(RESERVED)), Bit(i)));
    ReplayRebuilds(cat, ops, Bit(i));
    hide Resolve, Lower, WellFormed, Replay, Kept, RulesAfter, AllReadable;
  }

  lemma LastRule(cat: Catalog, ops: seq<string>, op: string)
    requires CommandOp(cat, op).Rule?
    ensures RulesAfter(cat, ops + [op]) == KeptAfter(cat, ops, op) + [Lower(op)] && Lower(op) != ""
  {
    assert (ops + [op])[..|ops + [op]| - 1] == ops;
    hide Resolve, Lower, Kept;
  }

  lemma KeptRecorded(cat: Catalog, ops: seq<string>, op: string)
    requires WellFormed(cat) && AllReadable(cat, ops) && CommandOp(cat, op).Rule?
    ensures forall k | k in KeptAfter(cat, ops, op) :: PlainText(k) && IsRule(k) && CommandOp(cat, k) == Rule(k)
    ensures AllAccepted(cat, KeptAfter(cat, ops, op))
  {
    RulesRecorded(cat, ops);
    hide WellFormed, AllReadable, CommandOp, KeptAfter, PlainText, RulesAfter, Stored;
  }

  /** The rules of plain operations are replayed first, and lead to the bits before the last operation. */
  lemma ReplayedBit(cat: Catalog, ops: seq<string>, op: string, rest: seq<string>, all: bool, i: nat)
    requires WellFormed(cat) && AllReadable(cat, ops) && !Readable(cat, op) && CommandOp(cat, op).Rule?
    requires CellAfter(cat, ops, Bit(RESERVED)) == CellAfter(cat, ops + [op], Bit(RESERVED)) == all
    ensures ReplayedCell(cat, ops + [op], KeptAfter(cat, ops, op) + rest, Bit(i))
            == Continued(cat, rest, Bit(i), CellAfter(cat, ops, Bit(i)))
  {
    hide *;
    var kept := KeptAfter(cat, ops, op);
    KeptReplayed(cat, ops, op, all, i);
    ReplayedIs(cat, ops + [op], all, kept + rest, Bit(i));
    assert [BaseOp(all)] + (kept + rest) == [BaseOp(all)] + kept + rest;
    AfterThen(cat, [BaseOp(all)] + kept, rest, Bit(i));
  }

  lemma ArgRuleOp(cat: Catalog, op: string)
    requires !Readable(cat, op)
    ensures CommandOp(cat, op).Rule?
  {
  }

  lemma KeptReplayed(cat: Catalog, ops: seq<string>, op: string, all: bool, i: nat)
    requires WellFormed(cat) && AllReadable(cat, ops) && !Readable(cat, op) && CommandOp(cat, op).Rule?
    requires CellAfter(cat, ops, Bit(RESERVED)) == all
    ensures CellAfter(cat, [BaseOp(all)] + KeptAfter(cat, ops, op), Bit(i)) == CellAfter(cat, ops, Bit(i))
  {
    hide *;
    KeptBit(cat, ops, op, i);
    KeptRecorded(cat, ops, op);
    ReplayFrom(cat, BaseOp(all), KeptAfter(cat, ops, op), Bit(i));
    BaseCell(cat, all, Bit(i));
  }

  lemma ReplayedIs(cat: Catalog, ops: seq<string>, all: bool, tokens: seq<string>, x: Cell)
    requires CellAfter(cat, ops, Bit(RESERVED)) == all
    ensures ReplayedCell(cat, ops, tokens, x) == CellAfter(cat, [BaseOp(all)] + tokens, x)
  {
    hide CellAfter;
  }

  /** What the last operation is split into. */
  lemma TokensOfLast(cat: Catalog, ops: seq<string>, op: string)
    requires WellFormed(cat) && AllReadable(cat, ops) && CommandOp(cat, op).Rule?
    ensures var rest := SplitArgs(Lower(op));
      TokensAfter(cat, ops + [op]) == if rest.None? then None else Some(KeptAfter(cat, ops, op) + rest.value)
  {
    hide *;
    LastRule(cat, ops, op);
    KeptRecorded(cat, ops, op);
    SplitAfterPlain(KeptAfter(cat, ops, op), Lower(op));
    TokensAre(cat, ops + [op]);
  }

  lemma TokensAre(cat: Catalog, ops: seq<string>)
    ensures TokensAfter(cat, ops) == SplitArgs(Join(RulesAfter(cat, ops)))
  {
  }

  /** The first operation that is not plain. The assertion fails if and only if the operation's own text is not
      split, or one of its tokens is no operation; otherwise the panic is reached if and only if the tokens,
      carried out on the selector, change one of its bits. */
  lemma PrintedIff(cat: Catalog, ops: seq<string>, op: string)
    requires WellFormed(cat) && AllReadable(cat, ops) && '\0' !in op
    ensures var rest := SplitArgs(Lower(op));
      && (Describe(cat, ops + [op]) == AssertionFails <==>
            !Readable(cat, op) && (rest.None? || !AllAccepted(cat, rest.value)))
      && (Describe(cat, ops + [op]) == Printed <==>
            Readable(cat, op) || (rest.Some? && AllAccepted(cat, rest.value) && ChangesNoBit(cat, ops, rest.value)))
  {
    if Readable(cat, op) {
      assert forall o | o in ops + [op] :: o in ops || o == op;
      hide Readable;
      PlainIsRebuilt(cat, ops + [op]);
      RebuiltIsPrinted(cat, ops + [op]);
    } else {
      ArgRuleOp(cat, op);
      var rest := SplitArgs(Lower(op));
      var kept := KeptAfter(cat, ops, op);
      TokensOfLast(cat, ops, op);
      KeptRecorded(cat, ops, op);
      if rest.Some? {
        forall i: nat
          ensures ReplayedCell(cat, ops + [op], kept + rest.value, Bit(i)) == Continued(cat, rest.value, Bit(i), CellAfter(cat, ops, Bit(i)))
          ensures CellAfter(cat, ops + [op], Bit(i)) == CellAfter(cat, ops, Bit(i))
        {
          KeptBit(cat, ops, op, RESERVED);
          ReplayedBit(cat, ops, op, rest.value, CellAfter(cat, ops, Bit(RESERVED)), i);
          KeptBit(cat, ops, op, i);
        }
      }
      hide ReplayedCell, Continued, CellAfter, SplitArgs, Lower, Readable, WellFormed, CommandOp, TokensAfter;
    }
  }

  // ---------------------------------------------------------------- the three outcomes

  function TwoCommands(): Catalog {
    Catalog(map["a" := Command(3, {}, map[]), "c" := Command(4, {}, map[])], map[])
  }

  lemma TablesAreWellFormed()
    ensures WellFormed(OneCommand()) && DistinctIds(OneCommand())
    ensures WellFormed(TwoCommands()) && DistinctIds(TwoCommands())
  {
    assert ProperCommand("a", Command(3, {}, map[])) && ProperCommand("c", Command(4, {}, map[])) by {
      assert "a"[0] == 'a' && "c"[0] == 'c' && Lower("a") == "a" && Lower("c") == "c";
    }
    hide ProperCommand;
  }

  /** "+a|x" is accepted and recorded as it is. */
  lemma ArgOp(cat: Catalog, x: string, op: string)
    requires "a" in cat.commands && cat.commands["a"] == Command(3, {}, map[])
    requires x != "" && '|' !in x && Lower(x) == x && op == "+a|" + x
    ensures CommandOp(cat, op) == Rule(op) && Allows(cat, op, 3, x)
    ensures RulesAfter(cat, [op]) == [op] && TokensAfter(cat, [op]) == SplitArgs(op)
    ensures forall y: Cell :: CellAfter(cat, [op], y) == (y == Arg(3, x))
  {
    ArgAccepted(cat, x, op);
    SingleJoin(op);
    hide Resolve, Lower, SplitArgs, CommandOp, Join;
    assert [op][..0] == [] && [op][0] == op;
    assert RulesAfter(cat, []) == [] && RulesAfter(cat, [op]) == RulesAfterOp(cat, [], op);
    assert forall y: Cell :: !CellAfter(cat, [], y);
  }

  lemma ArgAccepted(cat: Catalog, x: string, op: string)
    requires "a" in cat.commands && cat.commands["a"] == Command(3, {}, map[])
    requires x != "" && '|' !in x && Lower(x) == x && op == "+a|" + x
    ensures CommandOp(cat, op) == Rule(op) && Resolve(cat, op[1..]) == FirstArg(3, x)
  {
    assert op[1..] == "a|" + x;
    ArgResolves(cat, x, op[1..]);
    LowerOfArg(x, op);
    assert op[0] == '+' && op[1] == 'a' && |op| > 3;
    RuleOp(cat, op);
    hide *;
    NotBase(op);
  }

  lemma NotBase(op: string)
    requires |op| > 1 && op[1] == 'a'
    ensures op != "+@all" && op != "-@all"
  {
    assert "+@all"[1] == '@' && "-@all"[1] == '@';
  }

  lemma ArgResolves(cat: Catalog, x: string, name: string)
    requires "a" in cat.commands && cat.commands["a"] == Command(3, {}, map[])
    requires x != "" && '|' !in x && name == "a|" + x
    ensures Resolve(cat, name) == FirstArg(3, x)
  {
    assert name[0] == 'a' && name[1] == '|' && forall j | 1 < j < |name| :: name[j] == x[j - 2];
    assert LastBar(name) == 1 && name[..1] == "a" && name[2..] == x;
  }

  lemma LowerOfArg(x: string, op: string)
    requires Lower(x) == x && op == "+a|" + x
    ensures Lower(op) == op
  {
    assert forall i | 0 <= i < |x| :: op[i + 3] == x[i] && Lower(x)[i] == LowerChar(x[i]);
    assert forall i | 3 <= i < |op| :: op[i] == x[i - 3];
  }

  lemma FirstCommandKept()
    ensures "a" in TwoCommands().commands && TwoCommands().commands["a"] == Command(3, {}, map[])
    ensures "a" in OneCommand().commands && OneCommand().commands["a"] == Command(3, {}, map[])
  {
  }

  /** "+a|b c" is split, its second token is no operation, and the assertion fails. */
  lemma AssertionIsReachable(op: string)
    requires op == "+a|b c"
    ensures Describe(OneCommand(), [op]) == AssertionFails
  {
    BlankInFirstArg(op);
    hide SplitArgs, CommandOp, RulesAfter, Join;
    assert TokensAfter(OneCommand(), [op]) == Some(["+a|b", "c"]);
    assert "c" in ["+a|b", "c"];
  }

  /** "+a|'b'" loses its quotes: the text is printed, but it allows another first argument. */
  lemma QuoteIsPrinted(op: string)
    requires op == "+a|'b'"
    ensures WellFormed(OneCommand()) && DistinctIds(OneCommand())
    ensures Describe(OneCommand(), [op]) == Printed && !Rebuilt(OneCommand(), [op])
  {
    TablesAreWellFormed();
    var cat := OneCommand();
    QuoteTokens(cat, op);
    hide *;
    var reserved := CellAfter(cat, [op], Bit(RESERVED));
    forall x: Cell
      ensures ReplayedCell(cat, [op], ["+a|b"], x) == (x == Arg(3, "b"))
    {
      ReplayedFromNothing(cat, [op], ["+a|b"], x);
    }
    assert Arg(3, "'b'") != Arg(3, "b") by {
      assert |"'b'"| == 3;
    }
    DescribeWith(cat, [op], ["+a|b"]);
    assert ReplayedCell(cat, [op], ["+a|b"], Arg(3, "'b'")) != CellAfter(cat, [op], Arg(3, "'b'"));
  }

  lemma QuoteTokens(cat: Catalog, op: string)
    requires op == "+a|'b'" && cat == OneCommand()
    ensures TokensAfter(cat, [op]) == Some(["+a|b"]) && AllAccepted(cat, ["+a|b"])
    ensures forall x: Cell :: CellAfter(cat, [op], x) == (x == Arg(3, "'b'"))
    ensures forall x: Cell :: CellAfter(cat, ["+a|b"], x) == (x == Arg(3, "b"))
  {
    FirstCommandKept();
    assert Lower("'b'") == "'b'" && Lower("b") == "b" && op == "+a|" + "'b'";
    ArgOp(cat, "'b'", op);
    ArgOp(cat, "b", "+a|b");
    QuoteIsDropped(op);
    hide SplitArgs, CommandOp, RulesAfter, Resolve, Lower, CellAfter, TokensAfter;
  }

  /** A description that reaches the comparison of the bitmaps. */
  lemma DescribeWith(cat: Catalog, ops: seq<string>, tokens: seq<string>)
    requires TokensAfter(cat, ops) == Some(tokens) && AllAccepted(cat, tokens)
    ensures Describe(cat, ops) ==
      if forall i | 0 <= i < COMMAND_BITS :: ReplayedCell(cat, ops, tokens, Bit(i)) == CellAfter(cat, ops, Bit(i))
      then Printed else BitmapsDiffer
    ensures Rebuilt(cat, ops) <==> forall x: Cell :: ReplayedCell(cat, ops, tokens, x) == CellAfter(cat, ops, x)
  {
    hide TokensAfter, AllAccepted, ReplayedCell, CellAfter;
  }

  /** Without the reserved bit the replay starts with a new selector. */
  lemma ReplayedFromNothing(cat: Catalog, ops: seq<string>, tokens: seq<string>, x: Cell)
    requires !CellAfter(cat, ops, Bit(RESERVED))
    ensures ReplayedCell(cat, ops, tokens, x) == CellAfter(cat, tokens, x)
  {
    AfterBase(cat, tokens, x);
    hide CellAfter;
  }

  /** Starting from -@all is starting with a new selector. */
  lemma {:induction false} AfterBase(cat: Catalog, ops: seq<string>, x: Cell)
    ensures CellAfter(cat, ["-@all"] + ops, x) == CellAfter(cat, ops, x)
    decreases |ops|
  {
    var all := ["-@all"] + ops;
    if ops == [] {
      BaseCell(cat, false, x);
      assert all == ["-@all"];
    } else {
      assert all[..|all| - 1] == ["-@all"] + ops[..|ops| - 1];
      AfterBase(cat, ops[..|ops| - 1], x);
    }
  }

  lemma QuoteIsDropped(op: string)
    requires op == "+a|'b'"
    ensures SplitArgs(op) == Some(["+a|b"])
  {
    ScanWord("+a|", "'b'", "");
    assert op == "+a|" + "'b'" && "" + "+a|" == "+a|" && op[0] == '+';
    assert SplitArgs(op) == Scan("'b'", Word, "+a|");
    assert "'b'"[1..] == "b'" && "b'"[1..] == "'" && "'"[1..] == "" && "+a|" + ['b'] == "+a|b";
    assert Scan("'b'", Word, "+a|") == Scan("b'", SingleQuoted, "+a|") == Scan("'", SingleQuoted, "+a|b");
    assert Scan("", Blanks, "") == Some([]) && ["+a|b"] + [] == ["+a|b"];
  }

  /** "+a|b +c" is split into two operations that are both accepted, and the second allows a command that
      the selector does not: the panic is reached. */
  lemma PanicIsReachable(op: string)
    requires op == "+a|b +c"
    ensures WellFormed(TwoCommands()) && DistinctIds(TwoCommands())
    ensures Describe(TwoCommands(), [op]) == BitmapsDiffer
  {
    TablesAreWellFormed();
    var cat, tokens := TwoCommands(), ["+a|b", "+c"];
    CommandTokens(op);
    CommandCells(cat, op);
    hide *;
    ReplayedFromNothing(cat, [op], tokens, Bit(4));
    DescribeWith(cat, [op], tokens);
    assert ReplayedCell(cat, [op], tokens, Bit(4)) != CellAfter(cat, [op], Bit(4));
    assert 4 < COMMAND_BITS;
  }

  lemma CommandCells(cat: Catalog, op: string)
    requires op == "+a|b +c" && cat == TwoCommands()
    ensures TokensAfter(cat, [op]) == SplitArgs(op) && AllAccepted(cat, ["+a|b", "+c"])
    ensures !CellAfter(cat, [op], Bit(RESERVED)) && !CellAfter(cat, [op], Bit(4)) && CellAfter(cat, ["+a|b", "+c"], Bit(4))
  {
    FirstCommandKept();
    assert Lower("b +c") == "b +c" && Lower("b") == "b" && op == "+a|" + "b +c";
    ArgOp(cat, "b +c", op);
    ArgOp(cat, "b", "+a|b");
    CommandAllowed(cat);
    hide *;
    BothAccepted(cat);
    TwoOps(cat, Bit(4));
  }

  lemma BothAccepted(cat: Catalog)
    requires !CommandOp(cat, "+a|b").Rejected? && !CommandOp(cat, "+c").Rejected?
    ensures AllAccepted(cat, ["+a|b", "+c"])
  {
    hide CommandOp;
  }

  lemma TwoOps(cat: Catalog, x: Cell)
    ensures CellAfter(cat, ["+a|b", "+c"], x) == CellAfterOp(cat, "+c", x, CellAfter(cat, ["+a|b"], x))
  {
    hide CellAfterOp;
    assert ["+a|b", "+c"][..1] == ["+a|b"];
  }

  lemma CommandTokens(op: string)
    requires op == "+a|b +c"
    ensures SplitArgs(op) == Some(["+a|b", "+c"])
  {
    SplitOfPlain(["+a|b", "+c"]);
    assert ["+a|b", "+c"][1..] == ["+c"] && Join(["+c"]) == "+c";
    assert Join(["+a|b", "+c"]) == "+a|b" + " " + "+c" == op;
  }

  lemma CommandAllowed(cat: Catalog)
    requires cat == TwoCommands()
    ensures CommandOp(cat, "+c") == Rule("+c") && CellAfterOp(cat, "+c", Bit(4), false) && 4 != RESERVED
  {
    assert Lower("+c") == "+c" && "+c"[1..] == "c" && "+c"[0] == '+' && "c"[0] == 'c' && |"+c"| == 2;
    assert LastBar("c") == -1 && "c" in cat.commands;
    assert Resolve(cat, "c") == Whole(Command(4, {}, map[]));
  }
}
