/** What an operation on commands means to whoever writes it: which bits it sets or clears, in terms of its
    text and the command table. */
module AclMeaning {
  import opened Wrappers
  import opened AclText
  import opened AclSemantics

  /** The bits of a command: its own and those of its subcommands. */
  predicate OfCommand(cmd: Command, id: nat) {
    id == cmd.id || exists s :: s in cmd.subs && cmd.subs[s].id == id
  }

  /** The bits of a category among those of a command. */
  predicate InCategory(cmd: Command, flag: nat, id: nat) {
    (flag in cmd.categories && OfCommand(cmd, id)) ||
    exists s :: s in cmd.subs && flag in cmd.subs[s].categories && cmd.subs[s].id == id
  }

  predicate NamesCommand(cat: Catalog, name: string, id: nat) {
    name in cat.commands && OfCommand(cat.commands[name], id)
  }

  predicate NamesSub(cat: Catalog, name: string, id: nat) {
    exists n, s :: n in cat.commands && s in cat.commands[n].subs && name == n + "|" + s && cat.commands[n].subs[s].id == id
  }

  predicate NamesCategory(cat: Catalog, name: string, id: nat) {
    exists g, n :: g in cat.categories && name == "@" + g && n in cat.commands && InCategory(cat.commands[n], cat.categories[g], id)
  }

  /** The name of a rule, in lower case, refers to the command or subcommand with this bit. */
  predicate Names(cat: Catalog, name: string, id: nat) {
    NamesCommand(cat, name, id) || NamesSub(cat, name, id) || NamesCategory(cat, name, id)
  }

  /** The operations about all commands. */
  predicate AllowsAll(op: string) {
    Lower(op) == "+@all" || Lower(op) == "allcommands"
  }

  predicate DeniesAll(op: string) {
    Lower(op) == "-@all" || Lower(op) == "nocommands"
  }

  // ---------------------------------------------------------------- names

  lemma CommandText(cat: Catalog, n: string)
    requires WellFormed(cat) && n in cat.commands
    ensures n != "" && n[0] != '@' && '|' !in n && Lower(n) == n
    ensures forall s | s in cat.commands[n].subs :: s != "" && '|' !in s && Lower(s) == s
  {
    assert WellFormedCommand(cat, n, cat.commands[n]);
  }

  lemma NoBar(n: string)
    requires '|' !in n
    ensures LastBar(n) == -1
  {
    forall j | 0 <= j < |n|
      ensures n[j] != '|'
    {
      assert n[j] in n;
    }
  }

  lemma BarBetween(n: string, s: string)
    requires '|' !in s
    ensures LastBar(n + "|" + s) == |n|
  {
    hide LastBar;
    BarAt(n + "|" + s, n, s, LastBar(n + "|" + s));
  }

  lemma BarAt(name: string, n: string, s: string, i: int)
    requires '|' !in s && name == n + "|" + s && -1 <= i < |name|
    requires (i >= 0 ==> name[i] == '|') && forall j | i < j < |name| :: name[j] != '|'
    ensures i == |n|
  {
    assert name[|n|] == '|';
    forall j | |n| < j < |name|
      ensures name[j] != '|'
    {
      assert name[j] == s[j - |n| - 1] && s[j - |n| - 1] in s;
    }
  }

  lemma PartsOf(name: string, n: string, s: string)
    requires '|' !in s
    ensures name == n + "|" + s <==> LastBar(name) >= 0 && name[..LastBar(name)] == n && name[LastBar(name) + 1..] == s
  {
    BarBetween(n, s);
    var bar := LastBar(name);
    if bar >= 0 {
      assert name == name[..bar] + "|" + name[bar + 1..];
    }
    assert (n + "|" + s)[..|n|] == n && (n + "|" + s)[|n| + 1..] == s;
    hide LastBar;
  }

  lemma CategoryText(name: string, g: string)
    ensures name == "@" + g <==> name != "" && name[0] == '@' && name[1..] == g
  {
    if name != "" && name[0] == '@' {
      assert name == "@" + name[1..];
    }
  }

  /** A name that begins with '@' can only be a category, and no other name can. */
  lemma CategoryNames(cat: Catalog, name: string, id: nat)
    requires WellFormed(cat)
    ensures NamesCategory(cat, name, id) <==>
            (name != "" && name[0] == '@' && name[1..] in cat.categories &&
             exists n :: n in cat.commands && InCategory(cat.commands[n], cat.categories[name[1..]], id))
    ensures NamesCommand(cat, name, id) || NamesSub(cat, name, id) ==> name != "" && name[0] != '@'
  {
    hide InCategory, OfCommand, WellFormed;
    forall g
      ensures name == "@" + g <==> name != "" && name[0] == '@' && name[1..] == g
    {
      CategoryText(name, g);
    }
    forall n | n in cat.commands
      ensures n != "" && n[0] != '@'
    {
      CommandText(cat, n);
    }
  }

  /** A name with a bar can only be a subcommand. */
  lemma SubNames(cat: Catalog, name: string, id: nat)
    requires WellFormed(cat)
    ensures var bar := LastBar(name);
      NamesSub(cat, name, id) <==>
        bar >= 0 && name[..bar] in cat.commands && name[bar + 1..] in cat.commands[name[..bar]].subs &&
        cat.commands[name[..bar]].subs[name[bar + 1..]].id == id
    ensures NamesCommand(cat, name, id) ==> LastBar(name) < 0
  {
    hide OfCommand, WellFormed;
    forall n, s | n in cat.commands && s in cat.commands[n].subs
      ensures name == n + "|" + s <==> LastBar(name) >= 0 && name[..LastBar(name)] == n && name[LastBar(name) + 1..] == s
    {
      CommandText(cat, n);
      PartsOf(name, n, s);
    }
    if name in cat.commands {
      CommandText(cat, name);
      NoBar(name);
    }
    hide LastBar;
    var bar := LastBar(name);
    if bar >= 0 && name[..bar] in cat.commands && name[bar + 1..] in cat.commands[name[..bar]].subs {
      CommandText(cat, name[..bar]);
      PartsOf(name, name[..bar], name[bar + 1..]);
    }
  }

  /** The bits that a rule assigns are those that its name refers to. */
  lemma NamesIsAssigns(cat: Catalog, name: string, id: nat)
    requires WellFormed(cat) && id < COMMAND_BITS
    ensures Names(cat, name, id) <==> Assigns(cat, Resolve(cat, name), Bit(id))
  {
    hide *;
    CategoryNames(cat, name, id);
    SubNames(cat, name, id);
    NamesAre(cat, name, id);
    if name != "" && name[0] == '@' {
      AssignsByCategory(cat, name, id);
    } else if LastBar(name) < 0 {
      AssignsByCommand(cat, name, id);
    } else {
      AssignsBySub(cat, name, id);
    }
  }

  lemma NamesAre(cat: Catalog, name: string, id: nat)
    ensures Names(cat, name, id) <==> NamesCommand(cat, name, id) || NamesSub(cat, name, id) || NamesCategory(cat, name, id)
    ensures NamesCommand(cat, name, id) <==> name in cat.commands && OfCommand(cat.commands[name], id)
  {
  }

  lemma AssignsByCategory(cat: Catalog, name: string, id: nat)
    requires name != "" && name[0] == '@' && id < COMMAND_BITS
    ensures Assigns(cat, Resolve(cat, name), Bit(id)) <==>
            (name[1..] in cat.categories && exists n :: n in cat.commands && InCategory(cat.commands[n], cat.categories[name[1..]], id))
  {
    hide InCategory, CategoryAssigns, LastBar;
    if name[1..] in cat.categories {
      CategoryBits(cat, cat.categories[name[1..]], id);
    }
  }

  lemma AssignsByCommand(cat: Catalog, name: string, id: nat)
    requires (name == "" || name[0] != '@') && LastBar(name) < 0 && id < COMMAND_BITS
    ensures Assigns(cat, Resolve(cat, name), Bit(id)) <==> name in cat.commands && OfCommand(cat.commands[name], id)
  {
    hide WholeAssigns, OfCommand, LastBar;
    if name in cat.commands {
      WholeBits(cat.commands[name], id);
    }
  }

  lemma AssignsBySub(cat: Catalog, name: string, id: nat)
    requires WellFormed(cat) && (name == "" || name[0] != '@') && LastBar(name) >= 0 && id < COMMAND_BITS
    ensures var bar := LastBar(name);
      Assigns(cat, Resolve(cat, name), Bit(id)) <==>
        name[..bar] in cat.commands && name[bar + 1..] in cat.commands[name[..bar]].subs &&
        cat.commands[name[..bar]].subs[name[bar + 1..]].id == id
  {
    hide WellFormed, LastBar;
    var bar := LastBar(name);
    if name[..bar] in cat.commands {
      CommandText(cat, name[..bar]);
    }
  }

  lemma WholeBits(cmd: Command, id: nat)
    ensures WholeAssigns(cmd, Bit(id)) <==> OfCommand(cmd, id)
  {
  }

  lemma CategoryBits(cat: Catalog, flag: nat, id: nat)
    ensures CategoryAssigns(cat, flag, Bit(id)) <==> exists n :: n in cat.commands && InCategory(cat.commands[n], flag, id)
  {
    forall n | n in cat.commands
      ensures CategoryAssignsIn(cat.commands[n], flag, Bit(id)) <==> InCategory(cat.commands[n], flag, id)
    {
      WholeBits(cat.commands[n], id);
    }
    hide CategoryAssignsIn, InCategory;
  }

  // ---------------------------------------------------------------- one operation

  /** A bit after an operation: set or cleared by the operations about everything, set by '+' and cleared by '-'
      for what the operation names, and otherwise as it was. */
  lemma BitAfterOp(cat: Catalog, op: string, id: nat, before: bool)
    requires WellFormed(cat) && id < COMMAND_BITS
    ensures CellAfterOp(cat, op, Bit(id), before) ==
      if AllowsAll(op) then true else if DeniesAll(op) then false
      else if IsRule(op) && Names(cat, Lower(op)[1..], id) then op[0] == '+'
      else before
  {
    if IsRule(op) {
      RuleOp(cat, op);
      NamesIsAssigns(cat, Lower(op)[1..], id);
      hide CommandOp, WellFormed, Names, Resolve, Lower, Assigns;
      assert Lower(op)[0] == op[0];
    } else {
      NoRule(cat, op);
      hide CommandOp, WellFormed, Names, Resolve, Lower, Assigns;
    }
  }

  /** The bit that an operation leaves, where it was `before`. */
  predicate BitAfter(cat: Catalog, op: string, id: nat, before: bool) {
    if AllowsAll(op) then true else if DeniesAll(op) then false
    else if IsRule(op) && Names(cat, Lower(op)[1..], id) then op[0] == '+'
    else before
  }

  lemma BitsAfterOp(cat: Catalog, op: string)
    requires WellFormed(cat)
    ensures forall id: nat, before: bool | id < COMMAND_BITS :: CellAfterOp(cat, op, Bit(id), before) == BitAfter(cat, op, id, before)
  {
    hide WellFormed, CellAfterOp, Names, AllowsAll, DeniesAll;
    forall id: nat, before: bool | id < COMMAND_BITS
      ensures CellAfterOp(cat, op, Bit(id), before) == BitAfter(cat, op, id, before)
    {
      BitAfterOp(cat, op, id, before);
    }
  }

  /** An operation without a sign is about everything, or leaves the bits alone. */
  lemma NoRule(cat: Catalog, op: string)
    requires !IsRule(op)
    ensures var o := CommandOp(cat, op);
      && !o.Rule? && (o.AllowAll? <==> AllowsAll(op)) && (o.DenyAll? <==> DeniesAll(op))
  {
    hide Resolve, Lower;
    assert op != "" ==> Lower(op)[0] == LowerChar(op[0]);
  }

  /** The operations about everything set or clear every bit and drop every first argument. */
  lemma EverythingRule(cat: Catalog, op: string, x: Cell, before: bool)
    requires x.Bit? ==> x.id < COMMAND_BITS
    ensures Lower(op) == "+@all" || Lower(op) == "allcommands" ==> CellAfterOp(cat, op, x, before) == x.Bit?
    ensures Lower(op) == "-@all" || Lower(op) == "nocommands" ==> !CellAfterOp(cat, op, x, before)
  {
    hide Lower, Resolve, AfterRule;
  }

  ghost predicate IsSubName(cat: Catalog, name: string) {
    exists n, s :: n in cat.commands && s in cat.commands[n].subs && name == n + "|" + s
  }

  ghost predicate IsFirstArgName(cat: Catalog, name: string) {
    exists n, a :: n in cat.commands && cat.commands[n].subs == map[] && a != "" && '|' !in a && name == n + "|" + a
  }

  ghost predicate IsCategoryName(cat: Catalog, name: string) {
    exists g :: g in cat.categories && name == "@" + g
  }

  /** An operation with a sign is accepted if and only if it names a command, a subcommand or a category, or
      allows a first argument of a command without subcommands. */
  lemma AcceptedForms(cat: Catalog, op: string)
    requires WellFormed(cat) && op != "" && (op[0] == '+' || op[0] == '-') && Lower(op)[1..] != "@all"
    ensures var name := Lower(op)[1..];
      !CommandOp(cat, op).Rejected? <==>
        name in cat.commands || IsCategoryName(cat, name) || IsSubName(cat, name) || (op[0] == '+' && IsFirstArgName(cat, name))
  {
    var name := Lower(op)[1..];
    RuleOp(cat, op);
    NotAll(op, name);
    hide CommandOp, Lower;
    ResolvedForms(cat, name);
    hide *;
  }

  lemma ResolvedForms(cat: Catalog, name: string)
    requires WellFormed(cat)
    ensures var t := Resolve(cat, name);
      && (t.Whole? <==> name in cat.commands) && (t.Category? <==> IsCategoryName(cat, name))
      && (t.Sub? <==> IsSubName(cat, name)) && (t.FirstArg? <==> IsFirstArgName(cat, name))
  {
    hide WellFormed, LastBar, Resolve;
    if name != "" && name[0] == '@' {
      CategoryForm(cat, name);
    } else if LastBar(name) < 0 {
      CommandForm(cat, name);
    } else {
      BarForm(cat, name);
    }
  }

  lemma CategoryForm(cat: Catalog, name: string)
    requires WellFormed(cat) && name != "" && name[0] == '@'
    ensures var t := Resolve(cat, name);
      && !t.Whole? && !t.Sub? && !t.FirstArg? && name !in cat.commands && !IsSubName(cat, name) && !IsFirstArgName(cat, name)
      && (t.Category? <==> IsCategoryName(cat, name))
  {
    hide WellFormed, LastBar;
    forall n | n in cat.commands
      ensures n != "" && n[0] != '@'
    {
      CommandText(cat, n);
    }
    forall g
      ensures name == "@" + g <==> name[1..] == g
    {
      CategoryText(name, g);
    }
  }

  lemma CommandForm(cat: Catalog, name: string)
    requires WellFormed(cat) && (name == "" || name[0] != '@') && LastBar(name) < 0
    ensures var t := Resolve(cat, name);
      && !t.Category? && !t.Sub? && !t.FirstArg? && !IsCategoryName(cat, name) && !IsSubName(cat, name) && !IsFirstArgName(cat, name)
      && (t.Whole? <==> name in cat.commands)
  {
    hide WellFormed, LastBar;
    forall n, s
      ensures name != n + "|" + s
    {
      assert (n + "|" + s)[|n|] == '|';
    }
  }

  lemma BarForm(cat: Catalog, name: string)
    requires WellFormed(cat) && (name == "" || name[0] != '@') && LastBar(name) >= 0
    ensures var t := Resolve(cat, name);
      && !t.Category? && !t.Whole? && !IsCategoryName(cat, name) && name !in cat.commands
      && (t.Sub? <==> IsSubName(cat, name)) && (t.FirstArg? <==> IsFirstArgName(cat, name))
  {
    var bar := LastBar(name);
    var n, a := name[..bar], name[bar + 1..];
    assert name == n + "|" + a && '|' !in a;
    hide WellFormed, LastBar, Resolve;
    assert name[bar] in name;
    if name in cat.commands {
      CommandText(cat, name);
    }
    forall m, s | m in cat.commands && '|' !in s
      ensures name == m + "|" + s <==> n == m && a == s
    {
      PartsOf(name, m, s);
    }
    forall m, s | m in cat.commands && s in cat.commands[m].subs
      ensures '|' !in s && s != ""
    {
      CommandText(cat, m);
    }
    if n in cat.commands && a != "" {
      BarResolves(cat, n, a);
    } else {
      BarUnknown(cat, name);
    }
  }

  lemma BarUnknown(cat: Catalog, name: string)
    requires var bar := LastBar(name); bar >= 0 && (name[..bar] !in cat.commands || name[bar + 1..] == "") && name[0] != '@'
    ensures Resolve(cat, name).Unknown?
  {
    hide LastBar;
  }

  /** '+' and '-' in front of a command: its bit and those of its subcommands are set or cleared, no other bit
      changes, and the first arguments it allowed are gone. */
  lemma CommandRule(cat: Catalog, op: string, n: string, x: Cell, before: bool)
    requires WellFormed(cat) && IsRule(op) && Lower(op)[1..] == n && n in cat.commands && (x.Bit? ==> x.id < COMMAND_BITS)
    ensures CellAfterOp(cat, op, x, before) ==
      var cmd := cat.commands[n];
      if x.id == cmd.id then x.Bit? && op[0] == '+'
      else if x.Bit? && exists s :: s in cmd.subs && cmd.subs[s].id == x.id then op[0] == '+'
      else before
  {
    CommandText(cat, n);
    NoBar(n);
    RuleOp(cat, op);
    NotAll(op, n);
    hide WellFormed, LastBar, Lower, CommandOp;
  }

  lemma NotAll(op: string, name: string)
    requires IsRule(op) && Lower(op)[1..] == name
    ensures Lower(op)[0] == op[0] && (name != "@all" ==> Lower(op) != "+@all" && Lower(op) != "-@all")
  {
    assert "+@all"[1..] == "@all" && "-@all"[1..] == "@all";
    assert Lower(op)[0] == LowerChar(op[0]);
  }

  /** A name with a bar, of a command and a part that has no bar. */
  lemma BarResolves(cat: Catalog, n: string, a: string)
    requires WellFormed(cat) && n in cat.commands && a != "" && '|' !in a
    ensures var subs := cat.commands[n].subs;
      Resolve(cat, n + "|" + a) == if subs == map[] then FirstArg(cat.commands[n].id, a) else if a in subs then Sub(subs[a]) else Unknown
    ensures n + "|" + a != "@all"
  {
    CommandText(cat, n);
    BarBetween(n, a);
    PartsOf(n + "|" + a, n, a);
    hide WellFormed, LastBar;
    assert (n + "|" + a)[0] == n[0];
  }

  /** The same for one subcommand: its bit only. */
  lemma SubRule(cat: Catalog, op: string, n: string, s: string, x: Cell, before: bool)
    requires WellFormed(cat) && IsRule(op) && Lower(op)[1..] == n + "|" + s
    requires n in cat.commands && s in cat.commands[n].subs && (x.Bit? ==> x.id < COMMAND_BITS)
    ensures CellAfterOp(cat, op, x, before) == if x == Bit(cat.commands[n].subs[s].id) then op[0] == '+' else before
  {
    CommandText(cat, n);
    BarResolves(cat, n, s);
    hide WellFormed, LastBar, Lower, CommandOp, Resolve;
    RuleOp(cat, op);
    NotAll(op, n + "|" + s);
  }

  /** The same for a category: the bits of its commands with all their subcommands, and of its subcommands; the
      first arguments of its commands are gone. */
  lemma CategoryRule(cat: Catalog, op: string, g: string, x: Cell, before: bool)
    requires WellFormed(cat) && IsRule(op) && Lower(op)[1..] == "@" + g
    requires g in cat.categories && g != "all" && (x.Bit? ==> x.id < COMMAND_BITS)
    ensures CellAfterOp(cat, op, x, before) ==
      var flag := cat.categories[g];
      if exists n :: n in cat.commands && flag in cat.commands[n].categories && x.id == cat.commands[n].id
      then x.Bit? && op[0] == '+'
      else if x.Bit? && exists n, s :: n in cat.commands && s in cat.commands[n].subs && cat.commands[n].subs[s].id == x.id &&
                          (flag in cat.commands[n].categories || flag in cat.commands[n].subs[s].categories)
      then op[0] == '+'
      else before
  {
    var name := "@" + g;
    assert name[0] == '@' && name[1..] == g && "@all"[1..] == "all";
    RuleOp(cat, op);
    NotAll(op, name);
    assert Resolve(cat, name) == Category(cat.categories[g]);
    CategoryMembers(cat, cat.categories[g], x);
    hide WellFormed, LastBar, Lower, CommandOp, Resolve, CategoryAssigns;
  }

  lemma CategoryMembers(cat: Catalog, flag: nat, x: Cell)
    ensures CategoryAssigns(cat, flag, x) <==>
      || (exists n :: n in cat.commands && flag in cat.commands[n].categories && x.id == cat.commands[n].id)
      || (x.Bit? && exists n, s :: n in cat.commands && s in cat.commands[n].subs && cat.commands[n].subs[s].id == x.id &&
                       (flag in cat.commands[n].categories || flag in cat.commands[n].subs[s].categories))
  {
  }

  /** '+' and a first argument of a command without subcommands: that argument, compared without case, is allowed. */
  lemma FirstArgRule(cat: Catalog, op: string, n: string, a: string, x: Cell, before: bool)
    requires WellFormed(cat) && IsRule(op) && op[0] == '+' && Lower(op)[1..] == n + "|" + a && a != "" && '|' !in a
    requires n in cat.commands && cat.commands[n].subs == map[]
    ensures CellAfterOp(cat, op, x, before) == (x == Arg(cat.commands[n].id, a) || before)
  {
    BarResolves(cat, n, a);
    hide WellFormed, LastBar, Lower, CommandOp, Resolve;
    RuleOp(cat, op);
    NotAll(op, n + "|" + a);
  }

  // ---------------------------------------------------------------- sequences of operations

  /** The operation is about everything, or about this bit. */
  predicate Decides(cat: Catalog, op: string, id: nat) {
    AllowsAll(op) || DeniesAll(op) || (IsRule(op) && Names(cat, Lower(op)[1..], id))
  }

  predicate Allowing(op: string) {
    AllowsAll(op) || (op != "" && op[0] == '+')
  }

  /** The last operation that decides about the bit. */
  ghost predicate LastDecides(cat: Catalog, ops: seq<string>, id: nat, i: int) {
    0 <= i < |ops| && Decides(cat, ops[i], id) && forall j | i < j < |ops| :: !Decides(cat, ops[j], id)
  }

  /** The last word: after any operations on a new selector a bit is set if and only if the last operation about
      it, its command, one of its categories or everything was an allowing one. */
  lemma {:induction false} LastWord(cat: Catalog, ops: seq<string>, id: nat)
    requires WellFormed(cat) && id < COMMAND_BITS
    ensures CellAfter(cat, ops, Bit(id)) <==> exists i :: LastDecides(cat, ops, id, i) && Allowing(ops[i])
    decreases |ops|
  {
    if ops != [] {
      var init, last := ops[..|ops| - 1], ops[|ops| - 1];
      hide WellFormed, CellAfterOp, AllowsAll, DeniesAll, Names, LastDecides, Allowing;
      BitAfterOp(cat, last, id, CellAfter(cat, init, Bit(id)));
      DecidingSign(last);
      LastWord(cat, init, id);
      LastOne(cat, init, last, id);
      assert ops == init + [last];
      if Decides(cat, last, id) {
        assert LastDecides(cat, ops, id, |ops| - 1);
      }
    }
  }

  lemma DecidingSign(op: string)
    ensures DeniesAll(op) ==> !Allowing(op) && !AllowsAll(op)
    ensures IsRule(op) && !AllowsAll(op) ==> (Allowing(op) <==> op[0] == '+')
  {
    assert op != "" ==> Lower(op)[0] == LowerChar(op[0]);
    hide Lower;
    assert "-@all"[0] == '-' && "nocommands"[0] == 'n' && "+@all"[0] == '+' && "allcommands"[0] == 'a';
  }

  /** Whether the last one that decides is the last operation, or one before it. */
  lemma LastOne(cat: Catalog, init: seq<string>, last: string, id: nat)
    ensures forall i :: LastDecides(cat, init + [last], id, i) <==>
      if Decides(cat, last, id) then i == |init| else LastDecides(cat, init, id, i)
    ensures forall i | 0 <= i < |init| :: (init + [last])[i] == init[i]
  {
    hide Decides;
    var ops := init + [last];
    assert ops[|init|] == last && forall j | 0 <= j < |init| :: ops[j] == init[j];
  }
}
