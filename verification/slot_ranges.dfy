/** Arrays of slot ranges: what normalization keeps, and the canonical form it leads to. */
module SlotRanges {
  /** Both ends are included; they are 16-bit unsigned integers. */
  datatype Range = Range(start: nat, end: nat)

  const CLUSTER_SLOTS := 16384

  predicate WellFormed(r: Range) {
    r.start <= r.end
  }

  predicate Has(r: Range, slot: nat) {
    r.start <= slot <= r.end
  }

  /** How many of the ranges hold a slot. */
  function Times(rs: seq<Range>, slot: nat): nat {
    if rs == [] then 0 else Times(rs[..|rs| - 1], slot) + if Has(rs[|rs| - 1], slot) then 1 else 0
  }

  ghost predicate AllWellFormed(rs: seq<Range>) {
    forall r | r in rs :: WellFormed(r)
  }

  ghost predicate Disjoint(rs: seq<Range>) {
    forall slot: nat :: Times(rs, slot) <= 1
  }

  ghost predicate Sorted(rs: seq<Range>) {
    forall i, j | 0 <= i < j < |rs| :: rs[i].start <= rs[j].start
  }

  /** Sorted, without overlaps and without neighbours that could be one range. */
  ghost predicate Canonical(rs: seq<Range>) {
    && AllWellFormed(rs)
    && forall i, j | 0 <= i < j < |rs| :: rs[i].end + 1 < rs[j].start
  }

  /** One turn of the merging loop: a range that follows the last one directly prolongs it. */
  function Joined(m: seq<Range>, r: Range): (j: seq<Range>)
    requires m != []
    ensures j != [] && |m| <= |j| <= |m| + 1 && j[|j| - 1].end == r.end
  {
    var last := m[|m| - 1];
    if last.end + 1 == r.start then m[..|m| - 1] + [Range(last.start, r.end)] else m + [r]
  }

  /** The merging loop. */
  function Merged(rs: seq<Range>): (m: seq<Range>)
    ensures rs == [] <==> m == []
    ensures |m| <= |rs|
  {
    if |rs| <= 1 then rs else Joined(Merged(rs[..|rs| - 1]), rs[|rs| - 1])
  }

  // ---------------------------------------------------------------- counting

  lemma {:induction false} TimesAppend(a: seq<Range>, b: seq<Range>, slot: nat)
    ensures Times(a + b, slot) == Times(a, slot) + Times(b, slot)
    decreases |b|
  {
    if b == [] {
      assert a + b == a;
    } else {
      var front, last := b[..|b| - 1], b[|b| - 1];
      assert a + b == (a + front) + [last] && b == front + [last];
      TimesAppend(a, front, slot);
    }
  }

  lemma {:induction false} TimesHeld(rs: seq<Range>, slot: nat)
    ensures Times(rs, slot) > 0 <==> exists r :: r in rs && Has(r, slot)
    decreases |rs|
  {
    if rs != [] {
      var front, last := rs[..|rs| - 1], rs[|rs| - 1];
      assert rs == front + [last];
      TimesHeld(front, slot);
    }
  }

  /** Ranges in a different order hold the same slots. */
  lemma {:induction false} TimesPermuted(a: seq<Range>, b: seq<Range>, slot: nat)
    requires multiset(a) == multiset(b)
    ensures Times(a, slot) == Times(b, slot)
    decreases |a|
  {
    if a == [] {
      assert |multiset(a)| == |a| && |multiset(b)| == |b|;
    } else {
      var front, last := a[..|a| - 1], a[|a| - 1];
      assert a == front + [last];
      assert last in multiset(b);
      var k :| 0 <= k < |b| && b[k] == last;
      var before, after := b[..k], b[k + 1..];
      assert b == before + [last] + after;
      assert multiset(a) == multiset(front) + multiset{last};
      assert multiset(b) == multiset(before) + multiset{last} + multiset(after);
      assert multiset(front) == multiset(a) - multiset{last};
      assert multiset(before + after) == multiset(b) - multiset{last};
      TimesPermuted(front, before + after, slot);
      TimesAppend(before, after, slot);
      TimesAppend(before + [last], after, slot);
    }
  }

  // ---------------------------------------------------------------- merging

  lemma JoinedTimes(m: seq<Range>, r: Range, slot: nat)
    requires m != [] && WellFormed(m[|m| - 1]) && WellFormed(r)
    ensures Times(Joined(m, r), slot) == Times(m, slot) + if Has(r, slot) then 1 else 0
  {
    var before, last := m[..|m| - 1], m[|m| - 1];
    assert m == before + [last];
    hide Times;
  }

  /** Sorted well-formed ranges of which no two neighbours could be one. */
  ghost predicate Tidy(m: seq<Range>) {
    && AllWellFormed(m) && Sorted(m)
    && forall i | 0 < i < |m| :: m[i - 1].end + 1 != m[i].start
  }

  lemma JoinedTidy(m: seq<Range>, r: Range)
    requires m != [] && Tidy(m) && WellFormed(r) && m[|m| - 1].start <= r.start
    ensures Tidy(Joined(m, r)) && var j := Joined(m, r); j[|j| - 1].start <= r.start
  {
    var j, last := Joined(m, r), m[|m| - 1];
    assert last in m;
    forall x | x in j
      ensures WellFormed(x)
    {
      assert x in m || x == r || x == Range(last.start, r.end);
    }
    hide WellFormed;
  }

  /** Merging keeps the order and the shape of the ranges, and joins all neighbours. */
  lemma {:induction false} MergedTidy(rs: seq<Range>)
    requires AllWellFormed(rs) && Sorted(rs)
    ensures Tidy(Merged(rs))
    ensures rs != [] ==> Merged(rs)[|Merged(rs)| - 1].start <= rs[|rs| - 1].start
    decreases |rs|
  {
    if |rs| > 1 {
      var front, r := rs[..|rs| - 1], rs[|rs| - 1];
      assert r in rs && front[|front| - 1] == rs[|rs| - 2] && forall x | x in front :: x in rs;
      MergedTidy(front);
      assert Merged(rs) == Joined(Merged(front), r);
      hide Merged, Joined, Tidy, WellFormed;
      JoinedTidy(Merged(front), r);
    }
  }

  /** Merging keeps the slots, each as often as before. */
  lemma {:induction false} MergedTimes(rs: seq<Range>, slot: nat)
    requires AllWellFormed(rs) && Sorted(rs)
    ensures Times(Merged(rs), slot) == Times(rs, slot)
    decreases |rs|
  {
    if |rs| > 1 {
      var front, r := rs[..|rs| - 1], rs[|rs| - 1];
      assert rs == front + [r] && r in rs && forall x | x in front :: x in rs;
      MergedTimes(front, slot);
      MergedTidy(front);
      var m := Merged(front);
      assert m[|m| - 1] in m && Merged(rs) == Joined(m, r);
      hide Merged, Joined, Times, WellFormed, Sorted;
      JoinedTimes(m, r, slot);
    }
  }

  /** Disjoint ranges are merged to the canonical form. */
  lemma MergedCanonical(rs: seq<Range>)
    requires AllWellFormed(rs) && Sorted(rs) && Disjoint(rs)
    ensures Canonical(Merged(rs))
  {
    var m := Merged(rs);
    MergedTidy(rs);
    forall slot: nat
      ensures Times(m, slot) <= 1
    {
      MergedTimes(rs, slot);
    }
    hide Merged, Times;
    DisjointOrder(m);
    TidyCanonical(m);
  }

  lemma TidyCanonical(m: seq<Range>)
    requires Tidy(m) && forall i, j | 0 <= i < j < |m| :: m[i].end < m[j].start
    ensures Canonical(m)
  {
    forall i, j | 0 <= i < j < |m|
      ensures m[i].end + 1 < m[j].start
    {
      assert m[i + 1 - 1].end + 1 != m[i + 1].start && m[i].end < m[i + 1].start;
    }
  }

  /** Sorted ranges that are disjoint come one behind the other. */
  lemma DisjointOrder(m: seq<Range>)
    requires AllWellFormed(m) && Sorted(m) && Disjoint(m)
    ensures forall i, j | 0 <= i < j < |m| :: m[i].end < m[j].start
  {
    forall i, j | 0 <= i < j < |m|
      ensures m[i].end < m[j].start
    {
      var slot := m[j].start;
      assert m[i] in m && m[j] in m && WellFormed(m[i]) && WellFormed(m[j]);
      if m[i].end >= slot {
        TwoHolders(m, i, j, slot);
      }
    }
  }

  lemma TwoHolders(m: seq<Range>, i: nat, j: nat, slot: nat)
    requires i < j < |m| && Has(m[i], slot) && Has(m[j], slot)
    ensures Times(m, slot) >= 2
  {
    assert m == (m[..i] + [m[i]]) + m[i + 1..];
    TimesAppend(m[..i] + [m[i]], m[i + 1..], slot);
    assert m[i + 1..][j - i - 1] == m[j];
    TimesHeld(m[i + 1..], slot);
    hide Times;
    assert m[j] in m[i + 1..];
  }

  // ---------------------------------------------------------------- the slots of a canonical array

  ghost predicate Holds(rs: seq<Range>, slot: nat) {
    exists r :: r in rs && Has(r, slot)
  }

  ghost predicate SameSlots(a: seq<Range>, b: seq<Range>) {
    forall slot: nat :: Holds(a, slot) <==> Holds(b, slot)
  }

  lemma CanonicalTail(a: seq<Range>)
    requires Canonical(a) && a != []
    ensures Canonical(a[1..]) && WellFormed(a[0])
    ensures forall slot: nat | Holds(a[1..], slot) :: slot > a[0].end + 1
    ensures forall slot: nat :: Holds(a, slot) <==> Has(a[0], slot) || Holds(a[1..], slot)
  {
    CanonicalRest(a);
    hide Canonical;
    var b := a[1..];
    forall slot: nat | Holds(b, slot)
      ensures slot > a[0].end + 1
    {
      var r :| r in b && Has(r, slot);
    }
    hide Holds;
  }

  lemma CanonicalRest(a: seq<Range>)
    requires Canonical(a) && a != []
    ensures Canonical(a[1..]) && WellFormed(a[0]) && forall r | r in a[1..] :: r.start > a[0].end + 1
  {
    var b := a[1..];
    assert forall r | r in b :: r in a;
    assert forall k | 0 <= k < |b| :: b[k] == a[k + 1] && a[0].end + 1 < b[k].start;
    assert a[0] in a;
  }

  /** The first ranges of two canonical arrays that hold the same slots are the same. */
  lemma SameFirst(a: seq<Range>, b: seq<Range>)
    requires Canonical(a) && Canonical(b) && SameSlots(a, b) && a != [] && b != []
    ensures a[0] == b[0]
  {
    CanonicalTail(a);
    CanonicalTail(b);
    var x, y := a[0], b[0];
    hide Canonical, Holds;
    assert Has(x, x.start) && Has(y, y.start) && Has(x, x.end) && Has(y, y.end);
    assert Holds(a, x.start) && Holds(b, y.start) && Holds(b, x.start) && Holds(a, y.start);
    assert x.start == y.start;
    assert Holds(a, x.end) && Holds(b, y.end);
    assert Holds(a, x.end + 1) <==> Holds(b, x.end + 1);
    assert Holds(a, y.end + 1) <==> Holds(b, y.end + 1);
  }

  /** The canonical form is unique: arrays that hold the same slots are equal. */
  lemma {:induction false} CanonicalUnique(a: seq<Range>, b: seq<Range>)
    requires Canonical(a) && Canonical(b) && SameSlots(a, b)
    ensures a == b
    decreases |a|
  {
    if a == [] || b == [] {
      EmptyHolds(a, b);
    } else {
      SameFirst(a, b);
      CanonicalTail(a);
      CanonicalTail(b);
      RestSame(a, b);
      CanonicalUnique(a[1..], b[1..]);
      assert a == [a[0]] + a[1..] && b == [b[0]] + b[1..];
    }
  }

  lemma EmptyHolds(a: seq<Range>, b: seq<Range>)
    requires Canonical(a) && Canonical(b) && SameSlots(a, b) && (a == [] || b == [])
    ensures a == [] && b == []
  {
    if a != [] {
      FirstHolds(a);
    } else if b != [] {
      FirstHolds(b);
    }
  }

  lemma FirstHolds(a: seq<Range>)
    requires Canonical(a) && a != []
    ensures Holds(a, a[0].start)
  {
    assert a[0] in a && WellFormed(a[0]) && Has(a[0], a[0].start);
  }

  lemma RestSame(a: seq<Range>, b: seq<Range>)
    requires Canonical(a) && Canonical(b) && SameSlots(a, b) && a != [] && b != [] && a[0] == b[0]
    ensures SameSlots(a[1..], b[1..])
  {
    CanonicalTail(a);
    CanonicalTail(b);
    hide Canonical, Holds;
    forall slot: nat
      ensures Holds(a[1..], slot) <==> Holds(b[1..], slot)
    {
      assert Holds(a, slot) <==> Holds(b, slot);
    }
  }

  lemma HoldsTimes(rs: seq<Range>, slot: nat)
    ensures Holds(rs, slot) <==> Times(rs, slot) > 0
  {
    TimesHeld(rs, slot);
  }

  lemma CanonicalDisjoint(a: seq<Range>)
    requires Canonical(a)
    ensures Disjoint(a) && Sorted(a) && AllWellFormed(a) && Tidy(a)
  {
    forall slot: nat
      ensures Times(a, slot) <= 1
    {
      CanonicalTimes(a, slot);
    }
    assert forall i | 0 <= i < |a| :: a[i] in a;
  }

  lemma {:induction false} CanonicalTimes(a: seq<Range>, slot: nat)
    requires Canonical(a)
    ensures Times(a, slot) <= 1
    decreases |a|
  {
    if a != [] {
      CanonicalTail(a);
      CanonicalTimes(a[1..], slot);
      assert a == [a[0]] + a[1..];
      TimesAppend([a[0]], a[1..], slot);
      TimesHeld(a[1..], slot);
      assert [a[0]] == [] + [a[0]];
      hide Canonical;
    }
  }

  // ---------------------------------------------------------------- appending in ascending order

  /** slotRangeArrayAppend. */
  function Appended(rs: seq<Range>, slot: nat): seq<Range> {
    if rs != [] && slot == rs[|rs| - 1].end + 1 then rs[..|rs| - 1] + [Range(rs[|rs| - 1].start, slot)]
    else rs + [Range(slot, slot)]
  }

  /** Appending a slot behind the last one keeps the canonical form and adds this slot only. */
  lemma AppendKeeps(rs: seq<Range>, slot: nat)
    requires Canonical(rs) && (rs != [] ==> slot > rs[|rs| - 1].end)
    ensures Canonical(Appended(rs, slot)) && var a := Appended(rs, slot); a[|a| - 1].end == slot
    ensures forall x: nat :: Holds(Appended(rs, slot), x) <==> Holds(rs, x) || x == slot
  {
    if rs == [] {
      var a := Appended(rs, slot);
      assert a == [Range(slot, slot)] == [] + [Range(slot, slot)];
      forall x: nat
        ensures Holds(a, x) <==> x == slot
      {
        HoldsTimes(a, x);
      }
    } else {
      AppendShape(rs, slot);
      AppendHolds(rs, slot);
      hide Canonical, Holds;
    }
  }

  lemma AppendHolds(rs: seq<Range>, slot: nat)
    requires Canonical(rs) && rs != [] && slot > rs[|rs| - 1].end
    ensures forall x: nat :: Holds(Appended(rs, slot), x) <==> Holds(rs, x) || x == slot
  {
    var a, before, last := Appended(rs, slot), rs[..|rs| - 1], rs[|rs| - 1];
    assert rs == before + [last] && last in rs && WellFormed(last);
    hide Canonical;
    forall x: nat
      ensures Holds(a, x) <==> Holds(rs, x) || x == slot
    {
      HoldsTimes(rs, x);
      HoldsTimes(a, x);
      hide Times, Holds;
    }
  }

  lemma AppendShape(rs: seq<Range>, slot: nat)
    requires Canonical(rs) && rs != [] && slot > rs[|rs| - 1].end
    ensures Canonical(Appended(rs, slot))
  {
    var a, last := Appended(rs, slot), rs[|rs| - 1];
    assert last in rs;
    forall r | r in a
      ensures WellFormed(r)
    {
      assert r in rs || r == Range(slot, slot) || r == Range(last.start, slot);
    }
    forall i, j | 0 <= i < j < |a|
      ensures a[i].end + 1 < a[j].start
    {
      assert i < |rs| - 1 ==> rs[i].end + 1 < rs[|rs| - 1].start;
      assert j < |rs| ==> a[j].start == rs[j].start;
    }
  }

  /** Building an array from slots in ascending order. */
  function Built(slots: seq<nat>): seq<Range> {
    if slots == [] then [] else Appended(Built(slots[..|slots| - 1]), slots[|slots| - 1])
  }

  lemma {:induction false} BuiltIsCanonical(slots: seq<nat>)
    requires forall i, j | 0 <= i < j < |slots| :: slots[i] < slots[j]
    ensures Canonical(Built(slots))
    ensures slots != [] ==> Built(slots) != [] && Built(slots)[|Built(slots)| - 1].end == slots[|slots| - 1]
    ensures slots == [] ==> Built(slots) == []
    ensures forall x: nat :: Holds(Built(slots), x) <==> x in slots
    decreases |slots|
  {
    if slots != [] {
      var front, last := slots[..|slots| - 1], slots[|slots| - 1];
      BuiltIsCanonical(front);
      assert slots == front + [last] && Built(slots) == Appended(Built(front), last);
      assert front != [] ==> front[|front| - 1] < last;
      AppendKeeps(Built(front), last);
      hide Canonical, Holds;
    }
  }
}
