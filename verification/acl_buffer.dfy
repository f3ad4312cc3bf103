/** The string buffer that holds a selector's rules, and the in-place removal of rules from it. */
module AclBuffer {
  import opened AclText

  /** Two lists of rules side by side. */
  lemma {:induction false} JoinOfTwo(a: seq<string>, b: seq<string>)
    ensures Join(a + b) == if a == [] then Join(b) else if b == [] then Join(a) else Join(a) + " " + Join(b)
  {
    if a == [] {
      assert a + b == b;
    } else if b == [] {
      assert a + b == a;
    } else {
      assert (a + b)[1..] == a[1..] + b;
      JoinOfTwo(a[1..], b);
      if |a| > 1 {
        assert a[0] + " " + (Join(a[1..]) + " " + Join(b)) == a[0] + " " + Join(a[1..]) + " " + Join(b);
      }
    }
  }

  /** A rule as it is stored: a sign and a name without spaces and without the terminator. */
  predicate Stored(r: string) {
    IsRule(r) && ' ' !in r && '\0' !in r
  }

  predicate AllStored(rules: seq<string>) {
    forall r | r in rules :: Stored(r)
  }

  /** The text in front of the next rule when `done` has been passed. */
  function Before(done: seq<string>): string {
    if done == [] then "" else Join(done) + " "
  }

  function Behind(later: seq<string>): string {
    if later == [] then "" else " " + Join(later)
  }

  /** Where a rule stands in the text, and the text without it. */
  lemma Layout(done: seq<string>, r: string, later: seq<string>)
    ensures Join(done + ([r] + later)) == Before(done) + r + Behind(later)
    ensures Join(done + later) == if later != [] then Before(done) + Join(later) else Join(done)
  {
    JoinOfTwo(done, [r] + later);
    JoinOfTwo([r], later);
    JoinOfTwo(done, later);
    SingleJoin(r);
    hide Join;
    var j := Join([r] + later);
    assert j == r + Behind(later) by {
      assert later == [] ==> r + "" == r;
      assert later != [] ==> r + " " + Join(later) == r + (" " + Join(later));
    }
    var d := Before(done);
    assert Join(done + ([r] + later)) == d + j by {
      assert done == [] ==> "" + j == j;
    }
    assert done == [] ==> "" + Join(later) == Join(later);
    hide Before, Behind;
    assert d + (r + Behind(later)) == d + r + Behind(later);
  }

  lemma RuleAt(done: seq<string>, r: string, later: seq<string>, text: string)
    requires text == Before(done) + r + Behind(later)
    ensures var p := |Before(done)|;
      && p + |r| <= |text| && text[p..p + |r|] == r
      && (if later == [] then p + |r| == |text| else p + |r| < |text| && text[p + |r|] == ' ')
  {
    hide Join;
  }

  lemma SingleJoin(r: string)
    ensures Join([r]) == r && Join([]) == ""
  {
  }

  lemma KeptStep(name: string, done: seq<string>, r: string, later: seq<string>)
    requires Stored(r) && AllStored(later)
    ensures AllStored([r] + later)
    ensures done + Kept([r] + later, name) == (if Covers(name, r[1..]) then done else done + [r]) + Kept(later, name)
    ensures (done + [r]) + later == done + ([r] + later)
  {
    assert ([r] + later)[1..] == later;
  }

  lemma KeptNothing(name: string)
    ensures Kept([], name) == []
  {
  }

  lemma CutMiddle(front: string, r: string, after: string, text: string)
    requires text == front + r + (" " + after)
    ensures text[..|front|] + text[|front| + |r| + 1..] == front + after
  {
    assert text == front + (r + " ") + after;
    assert text[|front| + |r| + 1..] == after;
  }

  lemma CutInner(done: seq<string>, r: string, later: seq<string>, text: string)
    requires text == Before(done) + r + Behind(later) && later != []
    ensures text[..|Before(done)|] + text[|Before(done)| + |r| + 1..] == Before(done) + Join(later)
  {
    hide Join;
    CutMiddle(Before(done), r, Join(later), text);
  }

  lemma CutLast(done: seq<string>, r: string, text: string)
    requires text == Before(done) + r + Behind([]) && done != []
    ensures text[..|Join(done)|] + text[|text|..] == Join(done)
  {
    hide Join;
    assert text == Join(done) + " " + r;
  }

  /** Where a removal starts and ends. */
  function CutStart(done: seq<string>, later: seq<string>): nat {
    if later == [] && done != [] then |Join(done)| else |Before(done)|
  }

  /** Cutting a rule with one neighbouring space. */
  lemma Cut(done: seq<string>, r: string, later: seq<string>, text: string, copyEnd: nat)
    requires text == Before(done) + r + Behind(later)
    requires copyEnd == if later == [] then |text| else |Before(done)| + |r| + 1
    ensures CutStart(done, later) <= copyEnd <= |text|
    ensures text[..CutStart(done, later)] + text[copyEnd..] == Join(done + later)
  {
    Layout(done, r, later);
    if later != [] {
      CutInner(done, r, later, text);
    } else {
      assert done + later == done;
      if done != [] {
        CutLast(done, r, text);
      }
    }
    hide Before, Behind, Join;
  }

  lemma {:induction false} JoinHasNoTerminator(rules: seq<string>)
    requires AllStored(rules)
    ensures '\0' !in Join(rules)
    ensures rules != [] ==> Join(rules) != ""
  {
    if rules != [] {
      assert Stored(rules[0]);
      JoinHasNoTerminator(rules[1..]);
    }
  }

  /** A zero-terminated string in an array. */
  class RuleBuffer {
    var data: array<char>
    var len: nat

    ghost predicate Valid()
      reads this, data
    {
      len < data.Length && data[len] == '\0' && '\0' !in data[..len]
    }

    ghost function Text(): string
      reads this, data
      requires Valid()
    {
      data[..len]
    }

    constructor ()
      ensures Valid() && fresh(data) && Text() == ""
    {
      data := new char[1](_ => '\0');
      len := 0;
    }

    method Clear()
      requires Valid()
      modifies this`len, data
      ensures Valid() && data == old(data) && Text() == ""
    {
      data[0] := '\0';
      len := 0;
    }

    /** memmove towards the front, including the terminator at `end`. */
    method MoveDown(dst: nat, src: nat, end: nat)
      requires dst <= src <= end < data.Length
      modifies data
      ensures data[..dst + (end + 1 - src)] == old(data[..dst] + data[src..end + 1])
    {
      ghost var was := data[..];
      for i := 0 to end + 1 - src
        invariant data[..dst + i] == was[..dst] + was[src..src + i]
        invariant data[dst + i..] == was[dst + i..]
      {
        assert data[src + i] == data[dst + i..][src - dst] == was[src + i];
        ghost var tail := data[dst + i + 1..];
        assert tail == data[dst + i..][1..] == was[dst + i + 1..];
        data[dst + i] := data[src + i];
        assert data[dst + i + 1..] == tail;
      }
    }

    /** strchr, or the terminator: the end of the name that starts at `pos`. */
    method NameEnd(pos: nat, ghost name: string) returns (stop: nat)
      requires pos + |name| < data.Length && (data[pos + |name|] == ' ' || data[pos + |name|] == '\0')
      requires forall i | 0 <= i < |name| :: name[i] == data[pos + i] && name[i] != ' ' && name[i] != '\0'
      ensures stop == pos + |name|
    {
      stop := pos;
      while data[stop] != ' ' && data[stop] != '\0'
        invariant pos <= stop <= pos + |name|
        invariant stop < pos + |name| ==> data[stop] == name[stop - pos]
        decreases pos + |name| - stop
      {
        stop := stop + 1;
      }
    }

    /** ACLSelectorRemoveCommandRule: `rules` are the rules in the buffer. */
    method RemoveCommandRule(name: string, ghost rules: seq<string>)
      requires Valid() && AllStored(rules) && Text() == Join(rules)
      modifies this`len, data
      ensures Valid() && data == old(data) && AllStored(Kept(rules, name))
      ensures Text() == Join(Kept(rules, name))
    {
      var pos: nat, end: nat := 0, len;
      ghost var done: seq<string>, rest := [], rules;
      assert done + rest == rules && done + Kept(rest, name) == Kept(rules, name);
      hide Join, Kept;
      while data[pos] != '\0'
        invariant AllStored(done) && AllStored(rest) && Kept(rules, name) == done + Kept(rest, name)
        invariant end < data.Length && data[end] == '\0' && data[..end] == Join(done + rest)
        invariant pos <= end && pos == if rest == [] then end else |Before(done)|
        decreases |rest|
      {
        ghost var r, later := rest[0], rest[1..];
        KeptStep(name, done, r, later);
        assert rest == [r] + later;
        Layout(done, r, later);
        var removed, newPos, newEnd := RemoveOne(name, pos, end, done, r, later);
        pos, end, rest := newPos, newEnd, later;
        done := if removed then done else done + [r];
      }
      SignAhead(done, rest, pos, end);
      JoinHasNoTerminator(done);
      KeptNothing(name);
      assert done + [] == done;
      len := end;
    }

    /** In front of a rule the loop sees its sign. */
    lemma SignAhead(done: seq<string>, rest: seq<string>, pos: nat, end: nat)
      requires AllStored(rest) && end < data.Length && data[..end] == Join(done + rest)
      requires pos <= end && pos == if rest == [] then end else |Before(done)|
      ensures rest != [] ==> data[pos] != '\0'
    {
      if rest != [] {
        var r, later := rest[0], rest[1..];
        assert rest == [r] + later && Stored(r);
        Layout(done, r, later);
        hide Join, Before, Behind;
        assert data[..end][pos] == r[0] && r[0] in r;
      }
    }

    /** The comparison in the loop, at the rule `r`: is it covered, and which part of the text goes with it? */
    method Compare(name: string, pos: nat, end: nat, ghost r: string, ghost last: bool)
      returns (covered: bool, copyPosition: nat, copyEnd: nat)
      requires Stored(r) && pos + |r| <= end < data.Length && (last ==> end == pos + |r|)
      requires data[pos..pos + |r|] == r && data[pos + |r|] == if last then '\0' else ' '
      requires !last ==> pos + |r| < end
      ensures covered == Covers(name, r[1..])
      ensures copyPosition == if last && pos > 0 then pos - 1 else pos
      ensures copyEnd == if last then end else pos + |r| + 1
    {
      copyPosition := pos;
      var nameStart := pos + 1;
      var ruleEnd := FindNameEnd(pos, r);
      if data[ruleEnd] == '\0' && copyPosition != 0 {
        copyPosition := copyPosition - 1;
      }
      copyEnd := ruleEnd;
      if data[copyEnd] == ' ' {
        copyEnd := copyEnd + 1;
      }
      var existing := ruleEnd - nameStart;
      assert data[nameStart..ruleEnd] == data[pos..pos + |r|][1..] == r[1..];
      var m := if existing < |name| then existing else |name|;
      assert data[nameStart..nameStart + m] == r[1..][..m];
      assert forall i | 0 <= i < existing :: data[nameStart + i] == r[1..][i];
      covered := data[nameStart..nameStart + m] == name[..m] &&
        (existing == |name| || (existing > |name| && data[nameStart + |name|] == '|'));
    }

    method FindNameEnd(pos: nat, ghost r: string) returns (stop: nat)
      requires Stored(r) && pos + |r| < data.Length && data[pos..pos + |r|] == r
      requires data[pos + |r|] == ' ' || data[pos + |r|] == '\0'
      ensures stop == pos + |r|
    {
      ghost var name := r[1..];
      forall i | 0 <= i < |name|
        ensures name[i] == data[pos + 1 + i] && name[i] != ' ' && name[i] != '\0'
      {
        assert r[i + 1] in r && data[pos..pos + |r|][i + 1] == r[i + 1];
      }
      stop := NameEnd(pos + 1, name);
    }

    /** One turn of the loop, at the rule `r` behind `done`. */
    method RemoveOne(name: string, pos: nat, end: nat, ghost done: seq<string>, ghost r: string, ghost later: seq<string>)
      returns (removed: bool, newPos: nat, newEnd: nat)
      requires Stored(r) && end < data.Length && data[end] == '\0' && pos == |Before(done)|
      requires data[..end] == Before(done) + r + Behind(later)
      modifies data
      ensures removed == Covers(name, r[1..])
      ensures newPos <= newEnd < data.Length && data[newEnd] == '\0'
      ensures data[..newEnd] == Join(if removed then done + later else done + ([r] + later))
      ensures newPos == if later == [] then newEnd else |Before(if removed then done else done + [r])|
    {
      ghost var text := data[..end];
      RuleAt(done, r, later, text);
      assert data[pos..pos + |r|] == text[pos..pos + |r|];
      var copyPosition, copyEnd;
      removed, copyPosition, copyEnd := Compare(name, pos, end, r, later == []);
      Cut(done, r, later, text, copyEnd);
      Layout(done, r, later);
      JoinOfTwo(done, [r]);
      assert copyPosition == CutStart(done, later);
      hide Join, CutStart, Behind;
      if removed {
        newEnd := RemoveAt(copyPosition, copyEnd, end);
        newPos := copyPosition;
      } else {
        newPos, newEnd := copyEnd, end;
      }
    }

    /** Remove the text between two positions. */
    method RemoveAt(copyPosition: nat, copyEnd: nat, end: nat) returns (newEnd: nat)
      requires copyPosition <= copyEnd <= end < data.Length && data[end] == '\0'
      modifies data
      ensures newEnd == end - (copyEnd - copyPosition) && data[newEnd] == '\0'
      ensures data[..newEnd] == old(data[..end][..copyPosition] + data[..end][copyEnd..])
    {
      ghost var was := data[..end];
      assert data[..copyPosition] + data[copyEnd..end + 1] == was[..copyPosition] + was[copyEnd..] + ['\0'];
      MoveDown(copyPosition, copyEnd, end);
      newEnd := end - (copyEnd - copyPosition);
      assert data[..newEnd] == data[..newEnd + 1][..newEnd];
      assert data[newEnd] == data[..newEnd + 1][newEnd];
    }

    /** sdscat: the buffer may be reallocated. */
    method Append(s: string)
      requires Valid() && '\0' !in s
      modifies this
      ensures Valid() && fresh(data) && Text() == old(Text()) + s
    {
      var bigger := new char[len + |s| + 1](_ => '\0');
      forall i | 0 <= i < len {
        bigger[i] := data[i];
      }
      forall i | 0 <= i < |s| {
        bigger[len + i] := s[i];
      }
      data := bigger;
      len := len + |s|;
    }

    /** ACLUpdateCommandRules on the text: drop what `name` covers, then add the rule at the end. */
    method ReplaceRule(name: string, r: string, ghost rules: seq<string>)
      requires Valid() && AllStored(rules) && Text() == Join(rules) && Stored(r)
      modifies this, data
      ensures Valid() && (data == old(data) || fresh(data))
      ensures AllStored(Kept(rules, name)) && Text() == Join(Kept(rules, name) + [r])
    {
      ghost var kept := Kept(rules, name);
      JoinOfTwo(kept, [r]);
      SingleJoin(r);
      RemoveCommandRule(name, rules);
      JoinHasNoTerminator(kept);
      hide Join, Kept;
      assert Join(kept) + (" " + r) == Join(kept) + " " + r && "" + r == r;
      Append(if len != 0 then " " + r else r);
    }
  }
}
