/** The selector as the server keeps it: a command bitmap, the first arguments allowed per command, and
    the text of the rules. Describing a selector replays its text; the panic there is unreachable. */
module AclSelector {
  import opened Wrappers
  import opened AclText
  import opened AclBuffer
  import opened AclSemantics
  import opened AclKeys
  import opened AclMeaning

  type CString = s: string | '\0' !in s witness ""

  /** Operations whose rule can be read back: the first argument they may carry has no blank or quote
      in it (see AclText.SplitOfJoin). Everything else in a rule comes from the command table. */
  predicate Readable(cat: Catalog, op: string) {
    CommandOp(cat, op).Rule? && Resolve(cat, CommandOp(cat, op).rule[1..]).FirstArg? ==> PlainText(op)
  }

  class Selector {
    const bits: array<bool>
    var allCommands: bool
    var firstArgs: map<nat, seq<string>>
    var commandRules: RuleBuffer
    var access: Access
    const cat: Catalog
    ghost var rules: seq<string>

    ghost predicate Shape()
      reads this, bits, commandRules, commandRules.data
    {
      && WellFormed(cat) && bits.Length == COMMAND_BITS
      && commandRules.Valid() && commandRules.Text() == Join(rules)
      && (forall r | r in rules :: Stored(r) && PlainText(r) && CommandOp(cat, r) == Rule(r))
      && (forall id | id in firstArgs :: IsCommandId(cat, id))
    }

    /** Whether a cell of the selector is set. First arguments are compared without regard to case. */
    ghost predicate Holds(x: Cell)
      reads this, bits
      requires bits.Length == COMMAND_BITS
    {
      match x
      case Bit(id) => id < COMMAND_BITS && bits[id]
      case Arg(id, arg) => id in firstArgs && exists i :: 0 <= i < |firstArgs[id]| && Lower(firstArgs[id][i]) == arg
    }

    /** The replay invariant. */
    ghost predicate Valid()
      reads this, bits, commandRules, commandRules.data
    {
      && Shape()
      && (forall r | r in rules :: IsRule(r))
      && forall x: Cell :: Holds(x) == Replay(cat, rules, x, Base(bits[RESERVED], x))
    }

    /** ACLCreateSelector; the default decides about all channels. */
    constructor (cat: Catalog, allChannels: bool)
      requires WellFormed(cat)
      ensures access == Access(false, [], allChannels, [])
      ensures Valid() && fresh(bits) && fresh(commandRules) && fresh(commandRules.data)
      ensures this.cat == cat && rules == [] && forall x: Cell :: !Holds(x)
    {
      this.cat := cat;
      bits := new bool[COMMAND_BITS](_ => false);
      allCommands, firstArgs, rules, access := false, map[], [], Access(false, [], allChannels, []);
      commandRules := new RuleBuffer();
    }

    method SetCommandBit(id: nat, value: bool)
      requires bits.Length == COMMAND_BITS
      modifies this`allCommands, bits
      ensures forall i | 0 <= i < COMMAND_BITS :: bits[i] == if i == id then value else old(bits[i])
    {
      if id >= COMMAND_BITS {
        return;
      }
      bits[id] := value;
      if !value {
        allCommands := false;
      }
    }

    /** ACLChangeSelectorPerm for a command: its bit, its first arguments, the bits of its subcommands. */
    method ChangeCommandPerm(cmd: Command, allow: bool)
      requires bits.Length == COMMAND_BITS
      modifies this`allCommands, this`firstArgs, bits
      ensures firstArgs.Keys <= old(firstArgs).Keys
      ensures forall x: Cell ::
        Holds(x) == (if (x.Bit? ==> x.id < COMMAND_BITS) && WholeAssigns(cmd, x) then x.Bit? && allow else old(Holds(x)))
    {
      SetCommandBit(cmd.id, allow);
      firstArgs := firstArgs - {cmd.id};
      var names := cmd.subs.Keys;
      ghost var done: set<string> := {};
      while names != {}
        invariant done + names == cmd.subs.Keys
        invariant firstArgs == old(firstArgs) - {cmd.id}
        invariant forall i | 0 <= i < COMMAND_BITS ::
          bits[i] == (if i == cmd.id || (exists s :: s in done && cmd.subs[s].id == i) then allow else old(bits[i]))
        decreases names
      {
        var s :| s in names;
        SetCommandBit(cmd.subs[s].id, allow);
        names, done := names - {s}, done + {s};
      }
      assert done == cmd.subs.Keys;
      forall x: Cell
        ensures Holds(x) ==
          (if (x.Bit? ==> x.id < COMMAND_BITS) && WholeAssigns(cmd, x) then x.Bit? && allow else old(Holds(x)))
      {
        if x.Bit? {
          assert WholeAssigns(cmd, x) <==> x.id == cmd.id || exists s :: s in done && cmd.subs[s].id == x.id;
        } else {
          assert WholeAssigns(cmd, x) <==> x.id == cmd.id;
        }
      }
    }

    /** ACLChangeSelectorPerm for a subcommand, which has neither subcommands nor first arguments. */
    method ChangeSubcommandPerm(sub: Subcommand, allow: bool)
      requires bits.Length == COMMAND_BITS && sub.id !in firstArgs
      modifies this`allCommands, this`firstArgs, bits
      ensures firstArgs == old(firstArgs)
      ensures forall x: Cell :: Holds(x) == if x == Bit(sub.id) && sub.id < COMMAND_BITS then allow else old(Holds(x))
    {
      SetCommandBit(sub.id, allow);
      firstArgs := firstArgs - {sub.id};
    }

    /** ACLSetSelectorCommandBitsForCategory on one command and its subcommands. */
    method SetCategoryIn(name: string, flag: nat, allow: bool)
      requires bits.Length == COMMAND_BITS && WellFormed(cat) && name in cat.commands
      requires forall id | id in firstArgs :: IsCommandId(cat, id)
      modifies this`allCommands, this`firstArgs, bits
      ensures firstArgs.Keys <= old(firstArgs).Keys
      ensures forall x: Cell ::
        Holds(x) == (if (x.Bit? ==> x.id < COMMAND_BITS) && CategoryAssignsIn(cat.commands[name], flag, x)
                     then x.Bit? && allow else old(Holds(x)))
    {
      var cmd := cat.commands[name];
      assert WellFormedCommand(cat, name, cmd);
      if flag in cmd.categories {
        ChangeCommandPerm(cmd, allow);
      }
      label afterCommand:
      var names := cmd.subs.Keys;
      ghost var done: set<string> := {};
      while names != {}
        invariant done + names == cmd.subs.Keys
        invariant firstArgs == old@afterCommand(firstArgs)
        invariant forall x: Cell ::
          Holds(x) == (if x.Bit? && x.id < COMMAND_BITS &&
                          (exists s :: s in done && flag in cmd.subs[s].categories && cmd.subs[s].id == x.id)
                       then allow else old@afterCommand(Holds(x)))
        decreases names
      {
        var s :| s in names;
        if flag in cmd.subs[s].categories {
          ChangeSubcommandPerm(cmd.subs[s], allow);
        }
        names, done := names - {s}, done + {s};
      }
    }

    method SetCategory(flag: nat, allow: bool)
      requires bits.Length == COMMAND_BITS && WellFormed(cat)
      requires forall id | id in firstArgs :: IsCommandId(cat, id)
      modifies this`allCommands, this`firstArgs, bits
      ensures firstArgs.Keys <= old(firstArgs).Keys
      ensures forall x: Cell ::
        Holds(x) == (if Assigns(cat, Category(flag), x) then x.Bit? && allow else old(Holds(x)))
    {
      var names := cat.commands.Keys;
      ghost var done: set<string> := {};
      while names != {}
        invariant done + names == cat.commands.Keys
        invariant firstArgs.Keys <= old(firstArgs).Keys
        invariant forall x: Cell ::
          Holds(x) == (if (x.Bit? ==> x.id < COMMAND_BITS) && (exists n :: n in done && CategoryAssignsIn(cat.commands[n], flag, x))
                       then x.Bit? && allow else old(Holds(x)))
        decreases names
      {
        var n :| n in names;
        SetCategoryIn(n, flag, allow);
        names, done := names - {n}, done + {n};
      }
    }

    /** ACLAddAllowedFirstArg. */
    method AddAllowedFirstArg(id: nat, arg: string)
      requires bits.Length == COMMAND_BITS
      modifies this`firstArgs
      ensures firstArgs.Keys == old(firstArgs).Keys + {id}
      ensures forall x: Cell :: Holds(x) == (x == Arg(id, Lower(arg)) || old(Holds(x)))
    {
      var items := if id in firstArgs then firstArgs[id] else [];
      for i := 0 to |items|
        invariant forall j | 0 <= j < i :: Lower(items[j]) != Lower(arg)
      {
        if Lower(items[i]) == Lower(arg) {
          assert old(Holds(Arg(id, Lower(arg))));
          return;
        }
      }
      firstArgs := firstArgs[id := items + [arg]];
      assert firstArgs[id][|items|] == arg;
      forall x: Cell
        ensures Holds(x) == (x == Arg(id, Lower(arg)) || old(Holds(x)))
      {
        if x.Arg? && x.id == id {
          assert old(Holds(x)) <==> exists i :: 0 <= i < |items| && Lower(items[i]) == x.arg;
          assert forall i | 0 <= i < |items| :: firstArgs[id][i] == items[i];
        }
      }
    }

    /** ACLUpdateCommandRules. */
    method UpdateCommandRules(name: string, allow: bool)
      requires Shape()
      requires var r := [if allow then '+' else '-'] + name;
               Stored(r) && PlainText(r) && CommandOp(cat, r) == Rule(r)
      modifies this`rules, commandRules, commandRules.data
      ensures Shape() && (commandRules.data == old(commandRules.data) || fresh(commandRules.data))
      ensures rules == Kept(old(rules), name) + [[if allow then '+' else '-'] + name]
    {
      ghost var kept := Kept(rules, name);
      var r := [if allow then '+' else '-'] + name;
      KeptMembers(rules, name);
      commandRules.ReplaceRule(name, r, rules);
      hide Join, Kept, CommandOp, WellFormed, PlainText, Stored;
      rules := kept + [r];
    }

    /** memset on the bitmap, with the rules and the first arguments dropped. */
    method SetAll(value: bool)
      requires Valid()
      modifies this, bits, commandRules, commandRules.data
      ensures Valid() && unchanged(this`commandRules, this`access) && commandRules.data == old(commandRules.data)
      ensures rules == [] && forall x: Cell :: Holds(x) == Base(value, x)
    {
      for i := 0 to COMMAND_BITS
        modifies bits
        invariant forall j | 0 <= j < i :: bits[j] == value
      {
        bits[i] := value;
      }
      allCommands := value;
      commandRules.Clear();
      rules, firstArgs := [], map[];
    }

    /** The bits and first arguments that an accepted rule changes. */
    method ApplyTarget(t: Target, allow: bool, arg: string)
      requires Shape() && !t.Unknown? && (t.FirstArg? ==> allow && Lower(arg) == t.arg && IsCommandId(cat, t.id))
      requires t.Sub? ==> !IsCommandId(cat, t.sub.id)
      modifies this`allCommands, this`firstArgs, bits
      ensures Shape()
      ensures forall x: Cell :: Holds(x) == (if Assigns(cat, t, x) then Value(t, allow, x) else old(Holds(x)))
    {
      match t
      case Whole(cmd) => ChangeCommandPerm(cmd, allow);
      case Sub(sub) => ChangeSubcommandPerm(sub, allow);
      case FirstArg(id, _) => AddAllowedFirstArg(id, arg);
      case Category(flag) => SetCategory(flag, allow);
    }

    /** The operations on keys and channels. */
    method SetAccess(op: CString) returns (ok: bool)
      modifies this`access
      ensures ok == Applied(old(access), op).Some? && access == Applied(old(access), op).UnwrapOr(old(access))
    {
      var lower := Lower(op);
      if lower == "allkeys" || lower == "~*" {
        access := access.(allKeys := true, patterns := []);
      } else if lower == "resetkeys" {
        access := access.(allKeys := false, patterns := []);
      } else if lower == "allchannels" || lower == "&*" {
        access := access.(allChannels := true, channels := []);
      } else if lower == "resetchannels" {
        access := access.(allChannels := false, channels := []);
      } else if op != "" && (op[0] == '~' || op[0] == '%') {
        ok := AddKeyPattern(op);
        return;
      } else if op != "" && op[0] == '&' {
        ok := AddChannel(op);
        return;
      } else {
        return false;
      }
      ok := true;
    }

    method AddKeyPattern(op: CString) returns (ok: bool)
      requires op != "" && (op[0] == '~' || op[0] == '%')
      modifies this`access
      ensures var p, a := PatternOf(op), old(access);
        && ok == (!a.allKeys && p.Some? && !HasSpaces(p.value.text))
        && access == if ok then a.(patterns := Added(a.patterns, p.value)) else a
    {
      if access.allKeys {
        return false;
      }
      var offset, read, write := 1, true, true;
      if op[0] == '%' {
        var proper;
        read, write, offset, proper := ReadLetters(op);
        if !proper || !(read || write) {
          return false;
        }
      }
      var spaces := StringHasSpaces(op[offset..]);
      if spaces {
        return false;
      }
      AddPattern(Pattern(op[offset..], read, write));
      ok := true;
    }

    method AddPattern(p: Pattern)
      modifies this`access
      ensures access == old(access).(patterns := Added(old(access).patterns, p))
    {
      var ps, i := access.patterns, 0;
      while i < |ps| && ps[i].text != p.text
        invariant i <= |ps| && forall j | 0 <= j < i :: ps[j].text != p.text
      {
        i := i + 1;
      }
      AddedAt(ps, p, i);
      if i == |ps| {
        access := access.(patterns := ps + [p]);
      } else {
        access := access.(patterns := ps[i := ps[i].(read := ps[i].read || p.read, write := ps[i].write || p.write)]);
      }
    }

    method AddChannel(op: CString) returns (ok: bool)
      requires op != "" && op[0] == '&'
      modifies this`access
      ensures var a := old(access);
        && ok == (!a.allChannels && !HasSpaces(op[1..]))
        && access == if !ok || op[1..] in a.channels then a else a.(channels := a.channels + [op[1..]])
    {
      if access.allChannels {
        return false;
      }
      var spaces := StringHasSpaces(op[1..]);
      if spaces {
        return false;
      }
      ok := true;
      for i := 0 to |access.channels|
        invariant op[1..] !in access.channels[..i]
      {
        if access.channels[i] == op[1..] {
          return;
        }
      }
      access := access.(channels := access.channels + [op[1..]]);
    }

    /** ACLSetSelector. */
    method SetSelector(op: CString) returns (ok: bool)
      requires Valid() && Readable(cat, op)
      modifies this, bits, commandRules, commandRules.data
      ensures Valid() && commandRules == old(commandRules)
      ensures commandRules.data == old(commandRules.data) || fresh(commandRules.data)
      ensures var o := CommandOp(cat, op);
        && ok == (if o.KeysOrChannels? then Applied(old(access), op).Some? else !o.Rejected?)
        && access == if o.KeysOrChannels? then Applied(old(access), op).UnwrapOr(old(access)) else old(access)
      ensures rules == RulesAfterOp(cat, old(rules), op)
      ensures forall x: Cell :: Holds(x) == CellAfterOp(cat, op, x, old(Holds(x)))
      ensures forall id: nat | id < COMMAND_BITS :: bits[id] == BitAfter(cat, op, id, old(bits[id]))
    {
      hide BitAfter;
      BitsAfterOp(cat, op);
      assert forall id: nat | id < COMMAND_BITS :: bits[id] == Holds(Bit(id));
      ok := CarryOut(op);
      assert forall id: nat | id < COMMAND_BITS :: bits[id] == Holds(Bit(id));
    }

    /** The body of ACLSetSelector. */
    method CarryOut(op: CString) returns (ok: bool)
      requires Valid() && Readable(cat, op)
      modifies this, bits, commandRules, commandRules.data
      ensures Valid() && commandRules == old(commandRules)
      ensures commandRules.data == old(commandRules.data) || fresh(commandRules.data)
      ensures var o := CommandOp(cat, op);
        && ok == (if o.KeysOrChannels? then Applied(old(access), op).Some? else !o.Rejected?)
        && access == if o.KeysOrChannels? then Applied(old(access), op).UnwrapOr(old(access)) else old(access)
      ensures rules == RulesAfterOp(cat, old(rules), op)
      ensures forall x: Cell :: Holds(x) == CellAfterOp(cat, op, x, old(Holds(x)))
    {
      if !IsRule(op) {
        ghost var a := access;
        ok := SetOther(op);
        OtherOp(cat, a, op);
        return;
      }
      hide Applied, Resolve;
      RuleOp(cat, op);
      var lower := Lower(op);
      if lower == "+@all" || lower == "-@all" {
        SetAll(lower == "+@all");
        return true;
      }
      var t := LookupTarget(lower[1..]);
      if t.Unknown? || (t.FirstArg? && op[0] != '+') {
        return false;
      }
      ApplyRule(op, lower);
      ok := true;
    }

    /** The operations without a sign. */
    method SetOther(op: CString) returns (ok: bool)
      requires Valid() && !IsRule(op)
      modifies this, bits, commandRules, commandRules.data
      ensures Valid() && commandRules == old(commandRules)
      ensures commandRules.data == old(commandRules.data)
      ensures var l := Lower(op); var all, none := l == "allcommands", l == "nocommands";
        && (all || none ==> ok && access == old(access) && rules == [] && forall x: Cell :: Holds(x) == Base(all, x))
        && (!all && !none ==>
              && ok == Applied(old(access), op).Some? && access == Applied(old(access), op).UnwrapOr(old(access))
              && rules == old(rules) && forall x: Cell :: Holds(x) == old(Holds(x)))
    {
      hide Applied;
      var lower := Lower(op);
      if lower == "allcommands" || lower == "nocommands" {
        SetAll(lower == "allcommands");
        ok := true;
      } else {
        ok := SetAccess(op);
      }
    }

    /** What the name of a rule refers to: a category, a command, a subcommand or a first argument. */
    method LookupTarget(name: string) returns (t: Target)
      ensures t == Resolve(cat, name)
    {
      if name != "" && name[0] == '@' {
        return if name[1..] in cat.categories then Category(cat.categories[name[1..]]) else Unknown;
      }
      var bar := FindLastBar(name);
      if bar < 0 {
        return if name in cat.commands then Whole(cat.commands[name]) else Unknown;
      }
      var parent, arg := name[..bar], name[bar + 1..];
      if parent !in cat.commands || arg == "" {
        return Unknown;
      }
      var cmd := cat.commands[parent];
      if cmd.subs == map[] {
        return FirstArg(cmd.id, arg);
      }
      return if arg in cmd.subs then Sub(cmd.subs[arg]) else Unknown;
    }

    method ApplyRule(op: CString, rule: string)
      requires Valid() && Readable(cat, op) && CommandOp(cat, op) == Rule(rule)
      modifies this, bits, commandRules, commandRules.data
      ensures Valid() && commandRules == old(commandRules)
      ensures commandRules.data == old(commandRules.data) || fresh(commandRules.data)
      ensures rules == RulesAfterOp(cat, old(rules), op) && access == old(access)
      ensures forall x: Cell :: Holds(x) == CellAfterOp(cat, op, x, old(Holds(x)))
    {
      ghost var rules0, reserved0 := rules, bits[RESERVED];
      assert forall x: Cell :: Holds(x) == Replay(cat, rules0, x, Base(reserved0, x));
      hide CommandOp, Resolve, Replay, WellFormed, PlainText, Stored, Join, Kept;
      ChangeBitsAndText(op, rule);
      forall x: Cell
        ensures Holds(x) == Replay(cat, rules, x, Base(bits[RESERVED], x))
      {
        OpReplay(cat, rules0, op, x, reserved0);
        assert Holds(Bit(RESERVED)) == bits[RESERVED];
      }
    }

    /** The bits and first arguments that the rule assigns, and the rule itself. */
    method ChangeBitsAndText(op: CString, rule: string)
      requires Shape() && (forall r | r in rules :: IsRule(r)) && Readable(cat, op) && CommandOp(cat, op) == Rule(rule)
      modifies this, bits, commandRules, commandRules.data
      ensures Shape() && commandRules == old(commandRules) && access == old(access)
      ensures commandRules.data == old(commandRules.data) || fresh(commandRules.data)
      ensures rules == RulesAfterOp(cat, old(rules), op)
      ensures forall x: Cell :: Holds(x) == CellAfterOp(cat, op, x, old(Holds(x)))
    {
      RuleText(cat, op, rule);
      RecordedRule(cat, op);
      ghost var rules0 := rules;
      hide CommandOp, Resolve, Replay, WellFormed, PlainText, Stored, Join, Kept, Readable, CellAfterOp;
      ChangeBits(op, rule);
      label bitsDone:
      UpdateCommandRules(rule[1..], op[0] == '+');
      assert rules == RulesAfterOp(cat, rules0, op);
      forall x: Cell
        ensures Holds(x) == CellAfterOp(cat, op, x, old(Holds(x)))
      {
        assert Holds(x) == old@bitsDone(Holds(x));
      }
    }

    method ChangeBits(op: CString, rule: string)
      requires Shape() && CommandOp(cat, op) == Rule(rule)
      modifies this`allCommands, this`firstArgs, bits
      ensures Shape()
      ensures forall x: Cell :: Holds(x) == CellAfterOp(cat, op, x, old(Holds(x)))
    {
      RuleTarget(cat, op, rule);
      var t := Resolve(cat, rule[1..]);
      var arg := if t.FirstArg? then op[LastBar(op) + 1..] else "";
      RuleCells(cat, op, rule);
      hide *;
      ApplyTarget(t, op[0] == '+', arg);
    }
  }

  lemma RuleCells(cat: Catalog, op: CString, r: string)
    requires CommandOp(cat, op) == Rule(r)
    ensures r != "" && op != ""
    ensures forall x: Cell, before: bool :: CellAfterOp(cat, op, x, before) ==
              var t := Resolve(cat, r[1..]); if Assigns(cat, t, x) then Value(t, op[0] == '+', x) else before
  {
    SignOfOp(cat, op);
    hide CommandOp, Resolve, Assigns, Value;
  }

  /** strrchr. */
  method FindLastBar(s: string) returns (i: int)
    ensures i == LastBar(s)
  {
    i := |s| - 1;
    while i >= 0 && s[i] != '|'
      invariant -1 <= i < |s| && forall j | i < j < |s| :: s[j] != '|'
    {
      i := i - 1;
    }
  }

  /** The loop over the letters of a '%' pattern. */
  method ReadLetters(op: string) returns (read: bool, write: bool, offset: nat, proper: bool)
    requires op != ""
    ensures proper == Letters(op, 1, false, false).Some? && offset <= |op|
    ensures proper ==> Letters(op, 1, false, false).value == (read, write, offset)
  {
    read, write, offset, proper := false, false, 1, true;
    while offset < |op|
      invariant 1 <= offset <= |op| && Letters(op, 1, false, false) == Letters(op, offset, read, write)
    {
      if (op[offset] == 'R' || op[offset] == 'r') && !read {
        read := true;
      } else if (op[offset] == 'W' || op[offset] == 'w') && !write {
        write := true;
      } else if op[offset] == '~' {
        offset := offset + 1;
        return;
      } else {
        return read, write, offset, false;
      }
      offset := offset + 1;
    }
  }

  method StringHasSpaces(s: string) returns (b: bool)
    ensures b == HasSpaces(s)
  {
    for i := 0 to |s|
      invariant forall j | 0 <= j < i :: !IsSpace(s[j]) && s[j] != '\0'
    {
      if IsSpace(s[i]) || s[i] == '\0' {
        return true;
      }
    }
    return false;
  }

  /** The position found by searching a pattern with the same text. */
  lemma {:induction false} AddedAt(ps: seq<Pattern>, p: Pattern, i: nat)
    requires i <= |ps| && (forall j | 0 <= j < i :: ps[j].text != p.text) && (i < |ps| ==> ps[i].text == p.text)
    ensures Added(ps, p) == if i == |ps| then ps + [p]
                            else ps[i := ps[i].(read := ps[i].read || p.read, write := ps[i].write || p.write)]
    decreases i
  {
    if i > 0 {
      AddedAt(ps[1..], p, i - 1);
      assert ps == [ps[0]] + ps[1..];
    }
  }

  /** An operation without a sign. */
  lemma OtherOp(cat: Catalog, a: Access, op: string)
    requires !IsRule(op)
    ensures var o, l := CommandOp(cat, op), Lower(op);
      && (l == "allcommands" ==> o.AllowAll?) && (l == "nocommands" ==> o.DenyAll?)
      && (l != "allcommands" && l != "nocommands" ==> o.KeysOrChannels? || (o.Rejected? && Applied(a, op).None?))
  {
    hide Letters, Added, HasSpaces, Resolve;
    var l := Lower(op);
    assert op != "" ==> l[0] == LowerChar(op[0]);
  }

  /** The name of a rule that is not about a first argument comes from the catalog. */
  lemma NameIsPlain(cat: Catalog, name: string)
    requires WellFormed(cat) && !Resolve(cat, name).Unknown? && !Resolve(cat, name).FirstArg?
    ensures PlainName(name)
  {
    hide PlainName, LastBar, Lower;
    var bar := LastBar(name);
    if name != "" && name[0] == '@' {
      assert ProperCategory(name[1..]) && name == "@" + name[1..];
      PlainSign(name[1..]);
    } else if bar < 0 {
      assert WellFormedCommand(cat, name, cat.commands[name]);
    } else {
      var parent, arg := name[..bar], name[bar + 1..];
      assert WellFormedCommand(cat, parent, cat.commands[parent]);
      assert name == parent + "|" + arg;
      PlainParts(parent, arg);
    }
  }

  lemma PlainSign(n: string)
    requires PlainName(n)
    ensures PlainName("@" + n)
  {
  }

  lemma PlainParts(parent: string, arg: string)
    requires PlainName(parent) && PlainName(arg)
    ensures PlainName(parent + "|" + arg)
  {
  }

  lemma TargetIds(cat: Catalog, name: string)
    requires WellFormed(cat)
    ensures var t := Resolve(cat, name);
      && (t.FirstArg? ==> t.arg == name[LastBar(name) + 1..] && IsCommandId(cat, t.id))
      && (t.Sub? ==> !IsCommandId(cat, t.sub.id))
  {
    var t := Resolve(cat, name);
    if t.Sub? {
      var parent := name[..LastBar(name)];
      assert WellFormedCommand(cat, parent, cat.commands[parent]);
    }
  }

  lemma LastBarOfLower(s: string)
    requires s != "" && LastBar(Lower(s)[1..]) >= 0
    ensures LastBar(s) == LastBar(Lower(s)[1..]) + 1
  {
    var l := Lower(s)[1..];
    var b := LastBar(l);
    assert l[b] == LowerChar(s[b + 1]);
    forall j | b + 1 < j < |s|
      ensures s[j] != '|'
    {
      assert l[j - 1] == LowerChar(s[j]);
    }
  }

  /** A recorded rule is plain text, with the sign of the operation. */
  lemma RuleText(cat: Catalog, op: CString, r: string)
    requires WellFormed(cat) && CommandOp(cat, op) == Rule(r) && Readable(cat, op)
    ensures r == [op[0]] + r[1..] && (op[0] == '+' || op[0] == '-')
    ensures Stored(r) && PlainText(r)
  {
    hide CommandOp, Lower;
    SignOfOp(cat, op);
    if !Resolve(cat, r[1..]).FirstArg? {
      NameIsPlain(cat, r[1..]);
    }
    hide Resolve, WellFormed;
    SignedIsStored(r);
  }

  /** A first argument is the operation's last part, in lower case. */
  lemma RuleTarget(cat: Catalog, op: CString, r: string)
    requires WellFormed(cat) && CommandOp(cat, op) == Rule(r)
    ensures var t := Resolve(cat, r[1..]);
      && !t.Unknown? && (t.FirstArg? ==> op[0] == '+' && Lower(op[LastBar(op) + 1..]) == t.arg && IsCommandId(cat, t.id))
      && (t.Sub? ==> !IsCommandId(cat, t.sub.id))
  {
    hide CommandOp, Lower, WellFormed;
    SignOfOp(cat, op);
    TargetIds(cat, r[1..]);
    if Resolve(cat, r[1..]).FirstArg? {
      FirstArgHasBar(cat, r[1..]);
      LastBarOfLower(op);
      hide Resolve, LastBar;
      assert r[1..][LastBar(r[1..]) + 1..] == r[LastBar(op) + 1..];
    }
  }

  lemma FirstArgHasBar(cat: Catalog, name: string)
    requires Resolve(cat, name).FirstArg?
    ensures LastBar(name) >= 0
  {
  }

  lemma SignedIsStored(r: string)
    requires IsRule(r) && (PlainName(r[1..]) || PlainName(r))
    ensures Stored(r) && PlainText(r) && r == [r[0]] + r[1..]
  {
    assert r == [r[0]] + r[1..];
  }

  lemma SignOfOp(cat: Catalog, op: string)
    requires CommandOp(cat, op).Rule?
    ensures var r := CommandOp(cat, op).rule;
      && IsRule(op) && r == Lower(op) && r[0] == op[0]
      && (Resolve(cat, r[1..]).FirstArg? ==> op[0] == '+')
  {
    hide Resolve;
    assert Lower(op)[0] == LowerChar(op[0]);
  }
}
