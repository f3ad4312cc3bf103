/** The keys and channels of a selector: what the operations on them change and when they are rejected. */
module AclKeys {
  import opened Wrappers
  import opened AclText

  datatype Pattern = Pattern(text: string, read: bool, write: bool)

  /** Flags and pattern lists of a selector. */
  datatype Access = Access(allKeys: bool, patterns: seq<Pattern>, allChannels: bool, channels: seq<string>)

  /** The letters between '%' and '~': which permissions they name and where they stop. Every letter may
      come once; None stands for anything else. */
  function Letters(op: string, i: nat, read: bool, write: bool): (r: Option<(bool, bool, nat)>)
    requires i <= |op|
    ensures r.Some? ==> i <= r.value.2 <= |op| && (read ==> r.value.0) && (write ==> r.value.1)
    decreases |op| - i
  {
    if i == |op| then Some((read, write, i))
    else if (op[i] == 'R' || op[i] == 'r') && !read then Letters(op, i + 1, true, write)
    else if (op[i] == 'W' || op[i] == 'w') && !write then Letters(op, i + 1, read, true)
    else if op[i] == '~' then Some((read, write, i + 1))
    else None
  }

  /** The pattern an operation adds, with its permissions. */
  function PatternOf(op: string): Option<Pattern>
    requires op != ""
  {
    if op[0] != '%' then Some(Pattern(op[1..], true, true))
    else
      match Letters(op, 1, false, false)
      case None => None
      case Some((read, write, offset)) => if read || write then Some(Pattern(op[offset..], read, write)) else None
  }

  /** ACLStringHasSpaces. */
  predicate HasSpaces(s: string) {
    exists i :: 0 <= i < |s| && (IsSpace(s[i]) || s[i] == '\0')
  }

  predicate Matches(p: Pattern, text: string) {
    p.text == text
  }

  /** A pattern is listed once: adding it again adds its permissions. */
  function Added(ps: seq<Pattern>, p: Pattern): seq<Pattern> {
    if ps == [] then [p]
    else if Matches(ps[0], p.text) then [Pattern(p.text, ps[0].read || p.read, ps[0].write || p.write)] + ps[1..]
    else [ps[0]] + Added(ps[1..], p)
  }

  /** An operation on keys or channels; None is an error that changes nothing. */
  function Applied(a: Access, op: string): Option<Access> {
    var l := Lower(op);
    if l == "allkeys" || l == "~*" then Some(a.(allKeys := true, patterns := []))
    else if l == "resetkeys" then Some(a.(allKeys := false, patterns := []))
    else if l == "allchannels" || l == "&*" then Some(a.(allChannels := true, channels := []))
    else if l == "resetchannels" then Some(a.(allChannels := false, channels := []))
    else if op != "" && (op[0] == '~' || op[0] == '%') then
      if a.allKeys then None
      else
        match PatternOf(op)
        case None => None
        case Some(p) => if HasSpaces(p.text) then None else Some(a.(patterns := Added(a.patterns, p)))
    else if op != "" && op[0] == '&' then
      if a.allChannels || HasSpaces(op[1..]) then None
      else Some(a.(channels := if op[1..] in a.channels then a.channels else a.channels + [op[1..]]))
    else None
  }

  /** Blanks of any kind, and the terminator, are refused in key patterns and channels. */
  lemma BlanksAreRefused(a: Access, op: string, i: nat)
    requires 1 <= i < |op| && (op[0] == '~' || op[0] == '&')
    requires op[i] == ' ' || 9 <= op[i] as int <= 13 || op[i] as int == 0
    ensures Applied(a, op) == None
  {
    var text, l := op[1..], Lower(op);
    assert text[i - 1] == op[i] && (IsSpace(op[i]) || op[i] == '\0');
    assert HasSpaces(text);
    assert l[0] == op[0] && l[i] == op[i];
    hide HasSpaces;
  }

  /** A channel or a key pattern without blanks is accepted and listed, unless everything is granted already. */
  lemma PlainIsAccepted(a: Access, op: string)
    requires op != "" && (op[0] == '~' || op[0] == '&') && op != "~*" && op != "&*"
    requires forall i | 1 <= i < |op| :: '!' <= op[i] <= '~'
    ensures op[0] == '~' ==> (Applied(a, op).Some? <==> !a.allKeys)
    ensures op[0] == '&' ==> (Applied(a, op).Some? <==> !a.allChannels)
  {
    var text, l := op[1..], Lower(op);
    assert forall i | 0 <= i < |text| :: text[i] == op[i + 1];
    assert !HasSpaces(text);
    assert l[0] == op[0] && (|op| == 2 ==> l[1] == LowerChar(op[1]));
    assert |op| == 2 ==> op == [op[0], op[1]];
    hide HasSpaces;
  }

  // ---------------------------------------------------------------- what the lists grant

  /** Some pattern with this text grants the permission. */
  predicate Grants(ps: seq<Pattern>, text: string, write: bool) {
    exists p :: p in ps && p.text == text && if write then p.write else p.read
  }

  ghost predicate Distinct(a: Access) {
    && (forall i, j | 0 <= i < j < |a.patterns| :: a.patterns[i].text != a.patterns[j].text)
    && (forall i, j | 0 <= i < j < |a.channels| :: a.channels[i] != a.channels[j])
    && (a.allKeys ==> a.patterns == []) && (a.allChannels ==> a.channels == [])
  }

  lemma {:induction false} AddedMembers(ps: seq<Pattern>, p: Pattern)
    requires forall i, j | 0 <= i < j < |ps| :: ps[i].text != ps[j].text
    ensures forall i, j | 0 <= i < j < |Added(ps, p)| :: Added(ps, p)[i].text != Added(ps, p)[j].text
    ensures forall q | q in Added(ps, p) :: q.text == p.text || q in ps
    ensures forall text, write :: Grants(Added(ps, p), text, write) <==>
              Grants(ps, text, write) || (text == p.text && if write then p.write else p.read)
    decreases |ps|
  {
    var now := Added(ps, p);
    if ps == [] {
      assert now == [p];
    } else {
      var first, rest := ps[0], ps[1..];
      assert ps == [first] + rest;
      forall text, write
        ensures Grants(ps, text, write) <==> Grants([first], text, write) || Grants(rest, text, write)
      {
      }
      if Matches(first, p.text) {
        var joined := Pattern(p.text, first.read || p.read, first.write || p.write);
        assert now == [joined] + rest;
        forall text, write
          ensures Grants(now, text, write) <==> Grants([joined], text, write) || Grants(rest, text, write)
        {
        }
        OneGrants(first);
        OneGrants(joined);
        hide Grants;
      } else {
        AddedMembers(rest, p);
        var more := Added(rest, p);
        assert now == [first] + more;
        forall text, write
          ensures Grants(now, text, write) <==> Grants([first], text, write) || Grants(more, text, write)
        {
        }
        hide Grants;
      }
    }
  }

  lemma OneGrants(p: Pattern)
    ensures forall text, write :: Grants([p], text, write) <==> text == p.text && if write then p.write else p.read
  {
    assert p in [p];
  }

  /** An accepted operation keeps the lists without duplicates, and a key pattern adds exactly the
      permissions it names for its text, to those that were granted before. */
  lemma AppliedGrants(a: Access, op: string)
    requires Distinct(a) && Applied(a, op).Some?
    ensures Distinct(Applied(a, op).value)
    ensures op != "" && (op[0] == '~' || op[0] == '%') && !Applied(a, op).value.allKeys ==>
      var p := PatternOf(op);
      && !a.allKeys && p.Some? && forall text, write :: Grants(Applied(a, op).value.patterns, text, write) <==>
           Grants(a.patterns, text, write) || (text == p.value.text && if write then p.value.write else p.value.read)
  {
    hide Grants, Added, HasSpaces, Letters;
    if op != "" && (op[0] == '~' || op[0] == '%') && PatternOf(op).Some? {
      assert Lower(op)[0] == LowerChar(op[0]);
      AddedMembers(a.patterns, PatternOf(op).value);
    }
  }

  // ---------------------------------------------------------------- what operations grant

  predicate IsR(c: char) {
    c == 'R' || c == 'r'
  }

  predicate IsW(c: char) {
    c == 'W' || c == 'w'
  }

  /** The permissions of a key pattern, letter by letter: '~' stands for reading and writing, and behind '%' come
      R, W or both, in any order and case, then '~' and the pattern. Without the '~' the pattern is empty. */
  lemma PatternForms(op: string)
    requires op != "" && (op[0] == '~' || op[0] == '%')
    ensures var n := |op|;
      PatternOf(op) ==
        if op[0] == '~' then Some(Pattern(op[1..], true, true))
        else if n > 2 && IsR(op[1]) && op[2] == '~' then Some(Pattern(op[3..], true, false))
        else if n > 2 && IsW(op[1]) && op[2] == '~' then Some(Pattern(op[3..], false, true))
        else if n > 3 && ((IsR(op[1]) && IsW(op[2])) || (IsW(op[1]) && IsR(op[2]))) && op[3] == '~'
        then Some(Pattern(op[4..], true, true))
        else if n == 2 && IsR(op[1]) then Some(Pattern("", true, false))
        else if n == 2 && IsW(op[1]) then Some(Pattern("", false, true))
        else if n == 3 && ((IsR(op[1]) && IsW(op[2])) || (IsW(op[1]) && IsR(op[2]))) then Some(Pattern("", true, true))
        else None
  {
    assert op[|op|..] == "";
    if op[0] == '%' && |op| > 1 && (IsR(op[1]) || IsW(op[1])) {
      OneLetter(op, 1, false, false);
      var r, w := IsR(op[1]), IsW(op[1]);
      OneLetter(op, 2, r, w);
      if |op| > 2 && ((r && IsW(op[2])) || (w && IsR(op[2]))) {
        OneLetter(op, 3, true, true);
      }
      hide Letters;
    }
  }

  lemma OneLetter(op: string, i: nat, read: bool, write: bool)
    requires i <= |op|
    ensures Letters(op, i, read, write) ==
      if i == |op| then Some((read, write, i))
      else if IsR(op[i]) && !read then Letters(op, i + 1, true, write)
      else if IsW(op[i]) && !write then Letters(op, i + 1, read, true)
      else if op[i] == '~' then Some((read, write, i + 1))
      else None
  {
  }

  /** Everything that has been given access to so far. */
  predicate KeyGranted(a: Access, text: string, write: bool) {
    a.allKeys || Grants(a.patterns, text, write)
  }

  predicate ChannelGranted(a: Access, channel: string) {
    a.allChannels || channel in a.channels
  }

  /** The operation gives access to keys that match this pattern. */
  predicate GivesKey(op: string, text: string, write: bool) {
    || Lower(op) == "allkeys" || Lower(op) == "~*"
    || (op != "" && (op[0] == '~' || op[0] == '%') && PatternOf(op).Some? && !HasSpaces(text) &&
        PatternOf(op).value.text == text && if write then PatternOf(op).value.write else PatternOf(op).value.read)
  }

  predicate GivesChannel(op: string, channel: string) {
    || Lower(op) == "allchannels" || Lower(op) == "&*"
    || (op != "" && op[0] == '&' && op[1..] == channel && !HasSpaces(channel))
  }

  function AfterOp(a: Access, op: string): Access {
    Applied(a, op).UnwrapOr(a)
  }

  function AfterOps(a: Access, ops: seq<string>): Access {
    if ops == [] then a else AfterOp(AfterOps(a, ops[..|ops| - 1]), ops[|ops| - 1])
  }

  lemma ChannelStep(a: Access, op: string, channel: string)
    ensures ChannelGranted(AfterOp(a, op), channel) <==>
            GivesChannel(op, channel) || (ChannelGranted(a, channel) && Lower(op) != "resetchannels")
  {
    hide HasSpaces, PatternOf, Added;
    assert op != "" ==> Lower(op)[0] == LowerChar(op[0]);
  }

  lemma KeyStep(a: Access, op: string, text: string, write: bool)
    requires Distinct(a)
    ensures KeyGranted(AfterOp(a, op), text, write) <==>
            GivesKey(op, text, write) || (KeyGranted(a, text, write) && Lower(op) != "resetkeys")
    ensures Distinct(AfterOp(a, op))
  {
    NothingGranted(text, write);
    if Applied(a, op).Some? {
      AppliedGrants(a, op);
    }
    KeyOps(a, op);
    hide HasSpaces, PatternOf, Added, Grants, Applied, Distinct, Lower;
  }

  lemma NothingGranted(text: string, write: bool)
    ensures !Grants([], text, write)
  {
  }

  /** The operations on keys, and those that leave the keys alone. */
  lemma KeyOps(a: Access, op: string)
    ensures var b := AfterOp(a, op); var l := Lower(op);
      && (l == "allkeys" || l == "~*" ==> b.allKeys)
      && (l == "resetkeys" ==> !b.allKeys && b.patterns == [])
      && (l != "allkeys" && l != "~*" && l != "resetkeys" ==>
            && b.allKeys == a.allKeys
            && (b.patterns == a.patterns ||
                (op != "" && (op[0] == '~' || op[0] == '%') && PatternOf(op).Some? && !HasSpaces(PatternOf(op).value.text) &&
                 !a.allKeys && b.patterns == Added(a.patterns, PatternOf(op).value)))
            && (op != "" && (op[0] == '~' || op[0] == '%') && PatternOf(op).Some? && !HasSpaces(PatternOf(op).value.text) && !a.allKeys
                ==> Applied(a, op).Some? && b.patterns == Added(a.patterns, PatternOf(op).value)))
      && (op != "" && (op[0] == '~' || op[0] == '%') ==> l != "allkeys" && l != "resetkeys")
  {
    hide HasSpaces, PatternOf, Added;
    assert op != "" ==> Lower(op)[0] == LowerChar(op[0]);
  }

  /** The last word on a channel: it is granted if and only if some operation gave it, or it was there at first, and
      nothing was reset since. */
  lemma {:induction false} ChannelLastWord(a: Access, ops: seq<string>, channel: string)
    ensures ChannelGranted(AfterOps(a, ops), channel) <==>
      (exists i :: 0 <= i < |ops| && GivesChannel(ops[i], channel) && NoneAfter(ops, i + 1, "resetchannels"))
      || (ChannelGranted(a, channel) && NoneAfter(ops, 0, "resetchannels"))
    decreases |ops|
  {
    hide GivesChannel, ChannelGranted, AfterOp;
    if ops != [] {
      var init, last := ops[..|ops| - 1], ops[|ops| - 1];
      ChannelLastWord(a, init, channel);
      ChannelStep(AfterOps(a, init), last, channel);
      NoneUpTo(init, last, "resetchannels");
      hide NoneAfter;
      assert ops == init + [last];
      if GivesChannel(last, channel) {
        assert NoneAfter(ops, |ops|, "resetchannels");
      }
    }
  }

  /** From position `n` on no operation is this one. */
  ghost predicate NoneAfter(ops: seq<string>, n: int, reset: string) {
    forall j | n <= j < |ops| && 0 <= j :: Lower(ops[j]) != reset
  }

  lemma NoneUpTo(init: seq<string>, last: string, reset: string)
    ensures forall n | 0 <= n <= |init| :: NoneAfter(init + [last], n, reset) <==> NoneAfter(init, n, reset) && Lower(last) != reset
    ensures NoneAfter(init + [last], |init| + 1, reset)
    ensures forall i | 0 <= i < |init| :: (init + [last])[i] == init[i]
  {
    hide Lower;
    var ops := init + [last];
    assert ops[|init|] == last && forall j | 0 <= j < |init| :: ops[j] == init[j];
  }

  /** The last word on a key pattern, for reading and for writing. */
  lemma {:induction false} KeyLastWord(a: Access, ops: seq<string>, text: string, write: bool)
    requires Distinct(a)
    ensures Distinct(AfterOps(a, ops))
    ensures KeyGranted(AfterOps(a, ops), text, write) <==>
      (exists i :: 0 <= i < |ops| && GivesKey(ops[i], text, write) && NoneAfter(ops, i + 1, "resetkeys"))
      || (KeyGranted(a, text, write) && NoneAfter(ops, 0, "resetkeys"))
    decreases |ops|
  {
    hide GivesKey, KeyGranted, AfterOp, Distinct;
    if ops != [] {
      var init, last := ops[..|ops| - 1], ops[|ops| - 1];
      KeyLastWord(a, init, text, write);
      KeyStep(AfterOps(a, init), last, text, write);
      NoneUpTo(init, last, "resetkeys");
      hide NoneAfter;
      assert ops == init + [last];
      if GivesKey(last, text, write) {
        assert NoneAfter(ops, |ops|, "resetkeys");
      }
    }
  }
}
