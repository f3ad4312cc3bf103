/** What ACL rules mean. A selector's permissions are cells: one bit for each command ID, and one cell
    for each first argument allowed to an otherwise denied command. Every rule assigns some cells. */
module AclSemantics {
  import opened Wrappers
  import opened AclText

  const COMMAND_BITS := 1024
  /** The bit that only +@all sets: it stands for commands loaded in the future. */
  const RESERVED := COMMAND_BITS - 1

  datatype Subcommand = Subcommand(id: nat, categories: set<nat>)
  datatype Command = Command(id: nat, categories: set<nat>, subs: map<string, Subcommand>)

  /** The original command table and the categories, under lower-case names. */
  datatype Catalog = Catalog(commands: map<string, Command>, categories: map<string, nat>)

  /** Names and IDs as the server assigns them (see `AclCommandIds`): no command uses the reserved bit,
      and a subcommand shares its ID with no command. */
  predicate WellFormed(cat: Catalog) {
    && (forall n | n in cat.commands :: WellFormedCommand(cat, n, cat.commands[n]))
    && (forall n | n in cat.categories :: ProperCategory(n))
  }

  predicate ProperCategory(n: string) {
    n != "" && '|' !in n && Lower(n) == n && PlainName(n)
  }

  /** Names are ordinary C strings without blanks and quotes. */
  predicate PlainName(n: string) {
    PlainText(n) && '\0' !in n
  }

  predicate WellFormedCommand(cat: Catalog, name: string, cmd: Command) {
    && ProperCommand(name, cmd) && cmd.id != RESERVED
    && forall s | s in cmd.subs :: cmd.subs[s].id != RESERVED && !IsCommandId(cat, cmd.subs[s].id)
  }

  predicate ProperCommand(name: string, cmd: Command) {
    && name != "" && '|' !in name && name[0] != '@' && Lower(name) == name && PlainName(name)
    && forall s | s in cmd.subs :: s != "" && '|' !in s && Lower(s) == s && PlainName(s)
  }

  /** No two commands share an ID. */
  predicate DistinctIds(cat: Catalog) {
    forall m, n | m in cat.commands && n in cat.commands && cat.commands[m].id == cat.commands[n].id :: m == n
  }

  predicate IsCommandId(cat: Catalog, id: nat) {
    exists n :: n in cat.commands && cat.commands[n].id == id
  }

  /** What the name of a rule refers to. */
  datatype Target =
    | Whole(cmd: Command)
    | Sub(sub: Subcommand)
    | FirstArg(id: nat, arg: string)
    | Category(flag: nat)
    | Unknown

  /** The position of the last '|', or -1 (strrchr). */
  function LastBar(s: string): (i: int)
    ensures -1 <= i < |s|
    ensures i >= 0 ==> s[i] == '|'
    ensures forall j | i < j < |s| :: s[j] != '|'
  {
    if s == "" then -1 else if s[|s| - 1] == '|' then |s| - 1 else LastBar(s[..|s| - 1])
  }

  /** The meaning of a lower-case rule name. */
  function Resolve(cat: Catalog, name: string): Target {
    var bar := LastBar(name);
    if name != "" && name[0] == '@' then
      if name[1..] in cat.categories then Category(cat.categories[name[1..]]) else Unknown
    else if bar < 0 then
      if name in cat.commands then Whole(cat.commands[name]) else Unknown
    else
      var parent, arg := name[..bar], name[bar + 1..];
      if parent !in cat.commands || arg == "" then Unknown
      else if cat.commands[parent].subs == map[] then FirstArg(cat.commands[parent].id, arg)
      else if arg in cat.commands[parent].subs then Sub(cat.commands[parent].subs[arg])
      else Unknown
  }

  datatype Cell = Bit(id: nat) | Arg(id: nat, arg: string)

  predicate WholeAssigns(cmd: Command, x: Cell) {
    x.id == cmd.id || (x.Bit? && exists s :: s in cmd.subs && cmd.subs[s].id == x.id)
  }

  predicate CategoryAssigns(cat: Catalog, flag: nat, x: Cell) {
    exists n :: n in cat.commands && CategoryAssignsIn(cat.commands[n], flag, x)
  }

  predicate CategoryAssignsIn(cmd: Command, flag: nat, x: Cell) {
    (flag in cmd.categories && WholeAssigns(cmd, x)) ||
    (x.Bit? && exists s :: s in cmd.subs && flag in cmd.subs[s].categories && cmd.subs[s].id == x.id)
  }

  /** Whether a rule with this target assigns the cell. */
  predicate Assigns(cat: Catalog, t: Target, x: Cell) {
    (x.Bit? ==> x.id < COMMAND_BITS) &&
    match t
    case Whole(cmd) => WholeAssigns(cmd, x)
    case Sub(sub) => x == Bit(sub.id)
    case FirstArg(id, arg) => x == Arg(id, arg)
    case Category(flag) => CategoryAssigns(cat, flag, x)
    case Unknown => false
  }

  /** The value a rule gives to the cells it assigns: bits follow the sign, first arguments are dropped
      unless the rule is about one. */
  predicate Value(t: Target, allow: bool, x: Cell) {
    if x.Bit? then allow else t.FirstArg?
  }

  predicate AfterRule(cat: Catalog, rule: string, x: Cell, before: bool)
    requires IsRule(rule)
  {
    var t := Resolve(cat, rule[1..]);
    if Assigns(cat, t, x) then Value(t, rule[0] == '+', x) else before
  }

  /** The cell after applying the rules in order to an initial value. */
  predicate Replay(cat: Catalog, rules: seq<string>, x: Cell, base: bool)
    requires forall r | r in rules :: IsRule(r)
  {
    if rules == [] then base
    else
      assert rules[|rules| - 1] in rules;
      AfterRule(cat, rules[|rules| - 1], x, Replay(cat, rules[..|rules| - 1], x, base))
  }

  /** +@all sets every bit and -@all clears it; both drop all first arguments. */
  predicate Base(all: bool, x: Cell) {
    x.Bit? && x.id < COMMAND_BITS && all
  }

  // ---------------------------------------------------------------- removed rules do not matter

  /** A name that starts with `name` and a bar refers to a subcommand or a first argument of it. */
  lemma CoveredIsAssigned(cat: Catalog, name: string, existing: string, x: Cell)
    requires WellFormed(cat) && Covers(name, existing)
    requires Assigns(cat, Resolve(cat, existing), x)
    ensures Assigns(cat, Resolve(cat, name), x)
  {
    if existing != name {
      assert WellFormedCommand(cat, name, cat.commands[name]);
      assert LastBar(name) < 0 by {
        assert forall j | 0 <= j < |name| :: name[j] in name;
      }
      assert Resolve(cat, name) == Whole(cat.commands[name]);
    }
  }

  /** A covered rule changes no cell outside those of the new rule. */
  lemma CoveredRule(cat: Catalog, name: string, rule: string, x: Cell, before: bool)
    requires WellFormed(cat) && !Resolve(cat, name).Unknown?
    requires IsRule(rule) && Covers(name, rule[1..]) && !Assigns(cat, Resolve(cat, name), x)
    ensures AfterRule(cat, rule, x, before) == before
  {
    if Assigns(cat, Resolve(cat, rule[1..]), x) {
      CoveredIsAssigned(cat, name, rule[1..], x);
    }
  }

  /** Dropping the rules a new rule covers leaves every cell the new rule does not assign as it was. */
  lemma {:induction false} KeptReplay(cat: Catalog, rules: seq<string>, name: string, x: Cell, base: bool)
    requires WellFormed(cat) && !Resolve(cat, name).Unknown?
    requires forall r | r in rules :: IsRule(r)
    requires !Assigns(cat, Resolve(cat, name), x)
    ensures forall r | r in Kept(rules, name) :: IsRule(r)
    ensures Replay(cat, Kept(rules, name), x, base) == Replay(cat, rules, x, base)
    decreases |rules|
  {
    KeptMembers(rules, name);
    hide Resolve, Assigns, Value, WellFormed, Covers;
    if rules != [] {
      var init, last := rules[..|rules| - 1], rules[|rules| - 1];
      assert rules == init + [last];
      KeptReplay(cat, init, name, x, base);
      KeptAppend(init, last, name);
      if Covers(name, last[1..]) {
        CoveredRule(cat, name, last, x, Replay(cat, init, x, base));
        assert Kept(rules, name) == Kept(init, name);
      } else {
        var kept := Kept(init, name) + [last];
        assert kept[..|kept| - 1] == Kept(init, name);
      }
    }
  }

  lemma {:induction false} KeptAppend(rules: seq<string>, last: string, name: string)
    requires IsRule(last) && forall r | r in rules :: IsRule(r)
    ensures Kept(rules + [last], name) == Kept(rules, name) + if Covers(name, last[1..]) then [] else [last]
  {
    if rules == [] {
      assert rules + [last] == [last] && [last][1..] == [];
    } else {
      assert (rules + [last])[1..] == rules[1..] + [last];
      KeptAppend(rules[1..], last, name);
    }
  }

  /** The compressed rules with the new one at the end give what the new rule gives after the old ones. */
  lemma NewRuleReplay(cat: Catalog, rules: seq<string>, rule: string, x: Cell, base: bool)
    requires WellFormed(cat) && IsRule(rule) && !Resolve(cat, rule[1..]).Unknown?
    requires forall r | r in rules :: IsRule(r)
    ensures forall r | r in Kept(rules, rule[1..]) + [rule] :: IsRule(r)
    ensures Replay(cat, Kept(rules, rule[1..]) + [rule], x, base) ==
            AfterRule(cat, rule, x, Replay(cat, rules, x, base))
  {
    var name := rule[1..];
    KeptMembers(rules, name);
    var all := Kept(rules, name) + [rule];
    assert all[..|all| - 1] == Kept(rules, name);
    if !Assigns(cat, Resolve(cat, name), x) {
      KeptReplay(cat, rules, name, x, base);
    }
  }

  /** No rule assigns the reserved bit, so it remembers the base. */
  lemma {:induction false} ReservedIsBase(cat: Catalog, rules: seq<string>, base: bool)
    requires WellFormed(cat) && forall r | r in rules :: IsRule(r)
    ensures Replay(cat, rules, Bit(RESERVED), base) == base
    decreases |rules|
  {
    if rules != [] {
      assert rules[|rules| - 1] in rules;
      ReservedIsBase(cat, rules[..|rules| - 1], base);
      ReservedUnassigned(cat, Resolve(cat, rules[|rules| - 1][1..]), rules[|rules| - 1][1..]);
    }
  }

  lemma ReservedUnassigned(cat: Catalog, t: Target, name: string)
    requires WellFormed(cat) && t == Resolve(cat, name)
    ensures !Assigns(cat, t, Bit(RESERVED))
  {
    match t
    case Whole(cmd) => assert WellFormedCommand(cat, name, cmd);
    case Sub(sub) =>
      var parent := name[..LastBar(name)];
      assert WellFormedCommand(cat, parent, cat.commands[parent]);
    case Category(flag) =>
      forall n | n in cat.commands
        ensures !CategoryAssignsIn(cat.commands[n], flag, Bit(RESERVED))
      {
        assert WellFormedCommand(cat, n, cat.commands[n]);
      }
    case _ =>
  }

  // ---------------------------------------------------------------- operations

  /** What ACLSetSelector makes of an operation, as far as commands are concerned. An accepted command
      rule is recorded in lower case. */
  datatype Op = AllowAll | DenyAll | KeysOrChannels | Rule(rule: string) | Rejected

  function CommandOp(cat: Catalog, op: string): (o: Op)
    ensures o.Rule? ==> IsRule(o.rule) && o.rule == Lower(op) && !Resolve(cat, o.rule[1..]).Unknown?
  {
    var l := Lower(op);
    if l == "allkeys" || l == "~*" || l == "resetkeys" || l == "allchannels" || l == "&*" || l == "resetchannels"
    then KeysOrChannels
    else if l == "allcommands" || l == "+@all" then AllowAll
    else if l == "nocommands" || l == "-@all" then DenyAll
    else if op != "" && (op[0] == '~' || op[0] == '%' || op[0] == '&') then KeysOrChannels
    else if !IsRule(op) then Rejected
    else
      match Resolve(cat, l[1..])
      case Unknown => Rejected
      case FirstArg(_, _) => if op[0] == '+' then Rule(l) else Rejected
      case _ => Rule(l)
  }

  /** An operation with a sign. */
  lemma RuleOp(cat: Catalog, op: string)
    requires IsRule(op)
    ensures var l := Lower(op); var t := Resolve(cat, l[1..]);
      CommandOp(cat, op) ==
        if l == "+@all" then AllowAll else if l == "-@all" then DenyAll
        else if t.Unknown? || (t.FirstArg? && op[0] != '+') then Rejected else Rule(l)
  {
    hide Resolve;
    assert Lower(op)[0] == LowerChar(op[0]) == op[0];
  }

  lemma LowerTwice(s: string)
    ensures Lower(Lower(s)) == Lower(s)
  {
  }

  /** A recorded rule is read as itself. */
  lemma RecordedRule(cat: Catalog, op: string)
    requires CommandOp(cat, op).Rule?
    ensures CommandOp(cat, CommandOp(cat, op).rule) == CommandOp(cat, op)
  {
    LowerTwice(op);
    assert Lower(op)[0] == LowerChar(op[0]);
  }

  /** The rules after an operation. */
  function RulesAfterOp(cat: Catalog, rules: seq<string>, op: string): (r: seq<string>)
    requires forall r | r in rules :: IsRule(r)
    ensures forall q | q in r :: IsRule(q)
  {
    match CommandOp(cat, op)
    case AllowAll => []
    case DenyAll => []
    case Rule(rule) => KeptMembers(rules, rule[1..]); Kept(rules, rule[1..]) + [rule]
    case _ => rules
  }

  /** A cell after an operation. */
  predicate CellAfterOp(cat: Catalog, op: string, x: Cell, before: bool) {
    match CommandOp(cat, op)
    case AllowAll => Base(true, x)
    case DenyAll => Base(false, x)
    case Rule(rule) => AfterRule(cat, rule, x, before)
    case _ => before
  }

  function RulesAfter(cat: Catalog, ops: seq<string>): (r: seq<string>)
    ensures forall q | q in r :: IsRule(q)
  {
    if ops == [] then [] else RulesAfterOp(cat, RulesAfter(cat, ops[..|ops| - 1]), ops[|ops| - 1])
  }

  /** A cell of a new selector after a sequence of operations; a new selector allows nothing. */
  predicate CellAfter(cat: Catalog, ops: seq<string>, x: Cell) {
    if ops == [] then false else CellAfterOp(cat, ops[|ops| - 1], x, CellAfter(cat, ops[..|ops| - 1], x))
  }

  lemma OpReplay(cat: Catalog, rules: seq<string>, op: string, x: Cell, reserved: bool)
    requires WellFormed(cat) && forall r | r in rules :: IsRule(r)
    ensures var reserved1 := CellAfterOp(cat, op, Bit(RESERVED), reserved);
            CellAfterOp(cat, op, x, Replay(cat, rules, x, Base(reserved, x))) ==
            Replay(cat, RulesAfterOp(cat, rules, op), x, Base(reserved1, x))
  {
    var o := CommandOp(cat, op);
    if o.Rule? {
      NewRuleReplay(cat, rules, o.rule, x, Base(reserved, x));
      ReservedUnassigned(cat, Resolve(cat, o.rule[1..]), o.rule[1..]);
    }
  }

  /** The replay invariant: after any sequence of operations on a new selector, replaying the recorded
      rules from the base that the reserved bit selects gives every bit and every allowed first argument
      that the operations gave. */
  lemma {:induction false} ReplayRebuilds(cat: Catalog, ops: seq<string>, x: Cell)
    requires WellFormed(cat)
    ensures CellAfter(cat, ops, x) ==
            Replay(cat, RulesAfter(cat, ops), x, Base(CellAfter(cat, ops, Bit(RESERVED)), x))
    decreases |ops|
  {
    if ops != [] {
      var init := ops[..|ops| - 1];
      ReplayRebuilds(cat, init, x);
      OpReplay(cat, RulesAfter(cat, init), ops[|ops| - 1], x, CellAfter(cat, init, Bit(RESERVED)));
    }
  }
}
