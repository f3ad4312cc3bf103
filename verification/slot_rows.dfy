/** What merging makes of any sorted array, ranges with a start above their end included. A row is a
    longest stretch of ranges each of which starts right behind the end of the one before. */
module SlotRows {
  import opened SlotRanges

  /** What the check behind the merging accepts. */
  ghost predicate Acceptable(m: seq<Range>) {
    && (forall r | r in m :: r.start < CLUSTER_SLOTS && r.end < CLUSTER_SLOTS)
    && AllWellFormed(m) && Disjoint(m)
  }

  /** The range at `i` starts right behind the one before it. */
  predicate Follows(s: seq<Range>, i: nat)
    requires i < |s|
  {
    i > 0 && s[i - 1].end + 1 == s[i].start
  }

  /** The first slot of the row that the range at `i` belongs to. */
  function RowStart(s: seq<Range>, i: nat): nat
    requires i < |s|
    decreases i
  {
    if Follows(s, i) then RowStart(s, i - 1) else s[i].start
  }

  predicate EndsRow(s: seq<Range>, i: nat)
    requires i < |s|
  {
    i + 1 < |s| ==> !Follows(s, i + 1)
  }

  predicate StartsLater(s: seq<Range>, i: nat)
    requires 0 < i < |s|
  {
    s[i - 1].end < s[i].start
  }

  /** Every range ends before the next one starts. */
  ghost predicate InOrder(s: seq<Range>) {
    forall i | 0 < i < |s| :: StartsLater(s, i)
  }

  /** The range at `i` disappears in a row: the next range starts right behind its end, or it continues
      a row that started at or below its end. */
  predicate Absorbed(s: seq<Range>, i: nat)
    requires i < |s|
  {
    || (i + 1 < |s| && s[i].end + 1 == s[i + 1].start)
    || (i > 0 && s[i - 1].end + 1 == s[i].start && RowStart(s, i - 1) <= s[i].end)
  }

  /** Sorted ranges that are accepted: those with a start above their end are absorbed, all are in order
      and the last one ends below the limit. */
  ghost predicate Accepts(s: seq<Range>) {
    && s != []
    && (forall i | 0 <= i < |s| && s[i].start > s[i].end :: Absorbed(s, i))
    && InOrder(s)
    && s[|s| - 1].end < CLUSTER_SLOTS
  }

  // ---------------------------------------------------------------- the shape of the merged array

  lemma {:induction false} RowStartOfPrefix(s: seq<Range>, k: nat, i: nat)
    requires i < k <= |s|
    ensures RowStart(s[..k], i) == RowStart(s, i)
    decreases i
  {
    if Follows(s, i) {
      RowStartOfPrefix(s, k, i - 1);
    }
  }

  lemma {:induction false} RowStartBelow(s: seq<Range>, i: nat)
    requires Sorted(s) && i < |s|
    ensures RowStart(s, i) <= s[i].start
    decreases i
  {
    if Follows(s, i) {
      RowStartBelow(s, i - 1);
      assert s[i - 1].start <= s[i].start;
    }
  }

  /** No range of `m` starts right behind the one before it. */
  ghost predicate Apart(m: seq<Range>) {
    forall i | 0 < i < |m| :: !Follows(m, i)
  }

  ghost predicate Shape(s: seq<Range>, m: seq<Range>) {
    && s != [] && m != [] && Sorted(m) && Apart(m)
    && m[|m| - 1] == Range(RowStart(s, |s| - 1), s[|s| - 1].end)
    && (InOrder(m) <==> InOrder(s))
    && (AllWellFormed(m[..|m| - 1]) <==> RowsBefore(s, |s| - 1))
  }

  /** The rows that end before `n` have a start at or below their end. */
  ghost predicate RowsBefore(s: seq<Range>, n: nat)
    requires n <= |s|
  {
    forall i | 0 <= i < n && EndsRow(s, i) :: RowStart(s, i) <= s[i].end
  }

  lemma {:induction false} MergedShape(s: seq<Range>)
    requires s != [] && Sorted(s)
    ensures Shape(s, Merged(s))
    decreases |s|
  {
    if |s| == 1 {
      assert Merged(s) == s && s[..0] == [];
    } else {
      var front := s[..|s| - 1];
      FrontSorted(s, front);
      MergedShape(front);
      RowStartOfPrefix(s, |s| - 1, |s| - 2);
      RowStartBelow(front, |front| - 1);
      assert Merged(s) == Joined(Merged(front), s[|s| - 1]);
      hide *;
      JoinedShape(s, front, Merged(front));
    }
  }

  lemma FrontSorted(s: seq<Range>, front: seq<Range>)
    requires |s| > 1 && Sorted(s) && front == s[..|s| - 1]
    ensures Sorted(front) && front[|front| - 1] == s[|s| - 2] && s[|s| - 2].start <= s[|s| - 1].start
  {
  }

  lemma JoinedShape(s: seq<Range>, front: seq<Range>, m: seq<Range>)
    requires |s| > 1 && front == s[..|s| - 1] && Shape(front, m)
    requires RowStart(front, |front| - 1) == RowStart(s, |s| - 2) <= s[|s| - 2].start <= s[|s| - 1].start
    ensures Shape(s, Joined(m, s[|s| - 1]))
  {
    hide Sorted, Apart, InOrder, AllWellFormed, RowsBefore;
    JoinedSorted(m, s[|s| - 1]);
    JoinedOrder(s, front, m);
    JoinedRows(s, front, m);
  }

  lemma JoinedSorted(m: seq<Range>, r: Range)
    requires m != [] && Sorted(m) && Apart(m) && m[|m| - 1].start <= r.start
    ensures Sorted(Joined(m, r)) && Apart(Joined(m, r))
  {
    var j := Joined(m, r);
    forall i | 0 < i < |j|
      ensures !Follows(j, i)
    {
      assert i < |m| ==> !Follows(m, i);
    }
  }

  lemma OrderedAppend(s: seq<Range>, r: Range)
    requires s != []
    ensures InOrder(s + [r]) <==> InOrder(s) && s[|s| - 1].end < r.start
  {
    var t := s + [r];
    assert forall i | 0 < i < |s| :: StartsLater(t, i) <==> StartsLater(s, i);
    assert StartsLater(t, |s|) <==> s[|s| - 1].end < r.start;
  }

  lemma JoinedOrder(s: seq<Range>, front: seq<Range>, m: seq<Range>)
    requires |s| > 1 && front == s[..|s| - 1] && m != [] && m[|m| - 1].end == front[|front| - 1].end
    requires InOrder(m) <==> InOrder(front)
    ensures InOrder(Joined(m, s[|s| - 1])) <==> InOrder(s)
  {
    var r, j := s[|s| - 1], Joined(m, s[|s| - 1]);
    assert s == front + [r];
    OrderedAppend(front, r);
    if m[|m| - 1].end + 1 == r.start {
      assert forall i | 0 < i < |m| :: StartsLater(j, i) <==> StartsLater(m, i);
    } else {
      OrderedAppend(m, r);
    }
  }

  lemma JoinedRows(s: seq<Range>, front: seq<Range>, m: seq<Range>)
    requires |s| > 1 && front == s[..|s| - 1] && m != []
    requires m[|m| - 1] == Range(RowStart(front, |front| - 1), front[|front| - 1].end)
    requires AllWellFormed(m[..|m| - 1]) <==> RowsBefore(front, |front| - 1)
    ensures var j := Joined(m, s[|s| - 1]); AllWellFormed(j[..|j| - 1]) <==> RowsBefore(s, |s| - 1)
  {
    var n := |s| - 1;
    var r, j := s[n], Joined(m, s[n]);
    RowsOfFront(s, front);
    RowStartOfPrefix(s, n, n - 1);
    assert RowsBefore(s, n) <==> RowsBefore(s, n - 1) && (EndsRow(s, n - 1) ==> RowStart(s, n - 1) <= s[n - 1].end);
    hide RowStart, RowsBefore;
    if Follows(s, n) {
      assert j[..|j| - 1] == m[..|m| - 1];
    } else {
      assert j[..|j| - 1] == m;
      WellFormedAppend(m);
    }
  }

  lemma WellFormedAppend(m: seq<Range>)
    requires m != []
    ensures AllWellFormed(m) <==> AllWellFormed(m[..|m| - 1]) && WellFormed(m[|m| - 1])
  {
    assert m == m[..|m| - 1] + [m[|m| - 1]];
  }

  lemma RowsOfFront(s: seq<Range>, front: seq<Range>)
    requires |s| > 1 && front == s[..|s| - 1]
    ensures RowsBefore(front, |front| - 1) <==> RowsBefore(s, |front| - 1)
  {
    forall i | 0 <= i < |front| - 1
      ensures RowStart(front, i) == RowStart(s, i) && front[i] == s[i] && (EndsRow(front, i) <==> EndsRow(s, i))
    {
      RowStartOfPrefix(s, |front|, i);
    }
    hide RowStart, EndsRow;
  }

  // ---------------------------------------------------------------- acceptance

  /** Normalization accepts exactly these arrays, whatever ranges they hold. */
  lemma AcceptedIff(s: seq<Range>)
    requires s != [] && Sorted(s)
    ensures Acceptable(Merged(s)) <==> Accepts(s)
    ensures Acceptable(Merged(s)) ==> Canonical(Merged(s))
  {
    MergedShape(s);
    hide Merged;
    AcceptableShape(s, Merged(s));
    RowsIffAbsorbed(s);
    hide Shape, Acceptable, Canonical, InOrder, RowsBefore, Absorbed;
  }

  lemma AcceptableShape(s: seq<Range>, m: seq<Range>)
    requires s != [] && Shape(s, m)
    ensures Acceptable(m) <==> InOrder(s) && RowsBefore(s, |s|) && s[|s| - 1].end < CLUSTER_SLOTS
    ensures Acceptable(m) ==> Canonical(m)
  {
    hide RowStart, RowsBefore, InOrder, AllWellFormed, Disjoint, Canonical, Sorted, Apart;
    WellFormedAppend(m);
    RowsBeforeLast(s);
    if AllWellFormed(m) {
      OrderedIffDisjoint(m);
    }
  }

  lemma RowsBeforeLast(s: seq<Range>)
    requires s != []
    ensures RowsBefore(s, |s|) <==> RowsBefore(s, |s| - 1) && RowStart(s, |s| - 1) <= s[|s| - 1].end
  {
    assert EndsRow(s, |s| - 1);
    hide RowStart;
  }

  lemma OrderedIffDisjoint(m: seq<Range>)
    requires m != [] && AllWellFormed(m) && Apart(m) && Sorted(m)
    ensures InOrder(m) <==> Disjoint(m)
    ensures InOrder(m) ==> Canonical(m) && forall r | r in m :: r.start <= r.end <= m[|m| - 1].end
    ensures m[|m| - 1] in m
  {
    if Disjoint(m) {
      hide Disjoint;
      DisjointOrder(m);
    }
    if InOrder(m) {
      OrderedCanonical(m);
      hide Disjoint, Canonical;
      CanonicalDisjoint(m);
    }
  }

  lemma OrderedCanonical(m: seq<Range>)
    requires m != [] && AllWellFormed(m) && InOrder(m) && Apart(m) && Sorted(m)
    ensures Canonical(m) && forall r | r in m :: r.end <= m[|m| - 1].end
  {
    forall i, j | 0 <= i < j < |m|
      ensures m[i].end + 1 < m[j].start
    {
      assert !Follows(m, i + 1) && StartsLater(m, i + 1) && m[i + 1].start <= m[j].start;
    }
    assert m[|m| - 1] in m && WellFormed(m[|m| - 1]);
  }

  lemma RowsIffAbsorbed(s: seq<Range>)
    requires Sorted(s)
    ensures RowsBefore(s, |s|) <==> forall i | 0 <= i < |s| && s[i].start > s[i].end :: Absorbed(s, i)
  {
    forall i | 0 <= i < |s| && EndsRow(s, i)
      ensures RowStart(s, i) <= s[i].end <==> s[i].start <= s[i].end || Absorbed(s, i)
    {
      RowStartBelow(s, i);
    }
    forall i | 0 <= i < |s| && !EndsRow(s, i)
      ensures Absorbed(s, i)
    {
    }
    hide RowStart, Absorbed;
  }

  /** The verdict can depend on the order in which the sort leaves ranges with the same start. */
  lemma VerdictDependsOnTies()
    ensures var s, t := [Range(5, 4), Range(5, 9)], [Range(5, 9), Range(5, 4)];
      && multiset(s) == multiset(t) && Sorted(s) && Sorted(t)
      && Acceptable(Merged(s)) && !Acceptable(Merged(t))
  {
    hide Merged, Acceptable;
    TieAccepted([Range(5, 4), Range(5, 9)]);
    TieRejected([Range(5, 9), Range(5, 4)]);
  }

  lemma TieAccepted(s: seq<Range>)
    requires s == [Range(5, 4), Range(5, 9)]
    ensures Sorted(s) && Acceptable(Merged(s))
  {
    AcceptedIff(s);
    hide Merged, Acceptable;
    assert Absorbed(s, 0);
  }

  lemma TieRejected(t: seq<Range>)
    requires t == [Range(5, 9), Range(5, 4)]
    ensures Sorted(t) && !Acceptable(Merged(t))
  {
    AcceptedIff(t);
    hide Merged, Acceptable;
    assert t[1].start > t[1].end && !Absorbed(t, 1);
  }

  // ---------------------------------------------------------------- what an accepted array keeps and loses

  /** The slots strictly between the end and the start of a range whose start is above its end. */
  predicate InGap(r: Range, slot: nat) {
    r.end < slot < r.start
  }

  function Gaps(s: seq<Range>, slot: nat): nat {
    if s == [] then 0 else Gaps(s[..|s| - 1], slot) + if InGap(s[|s| - 1], slot) then 1 else 0
  }

  /** Every row starts at most one above the end of each of its ranges. */
  ghost predicate Loose(s: seq<Range>) {
    forall i | 0 <= i < |s| :: RowStart(s, i) <= s[i].end + 1
  }

  lemma AcceptsLoose(s: seq<Range>)
    requires Sorted(s) && Accepts(s)
    ensures Loose(s)
  {
    forall i | 0 <= i < |s|
      ensures RowStart(s, i) <= s[i].end + 1
    {
      RowStartBelow(s, i);
    }
  }

  lemma {:induction false} LooseTimes(s: seq<Range>, slot: nat)
    requires Sorted(s) && Loose(s)
    ensures Times(Merged(s), slot) + Gaps(s, slot) == Times(s, slot)
    decreases |s|
  {
    if |s| > 1 {
      var front, r := s[..|s| - 1], s[|s| - 1];
      LooseFront(s, front);
      LooseTimes(front, slot);
      assert Merged(s) == Joined(Merged(front), r);
      assert Times(s, slot) == Times(front, slot) + if Has(r, slot) then 1 else 0;
      hide *;
      JoinedGap(Merged(front), r, slot);
      GapsStep(s, front, slot);
    } else if |s| == 1 {
      assert RowStart(s, 0) == s[0].start && s[..0] == [];
      assert Gaps(s, slot) == 0;
    }
  }

  lemma GapsStep(s: seq<Range>, front: seq<Range>, slot: nat)
    requires |s| > 0 && front == s[..|s| - 1]
    ensures Gaps(s, slot) == Gaps(front, slot) + if InGap(s[|s| - 1], slot) then 1 else 0
  {
  }

  lemma LooseFront(s: seq<Range>, front: seq<Range>)
    requires |s| > 1 && Sorted(s) && Loose(s) && front == s[..|s| - 1]
    ensures Sorted(front) && Loose(front)
    ensures Merged(front) != [] && CanFollow(Merged(front)[|Merged(front)| - 1], s[|s| - 1])
  {
    FrontSorted(s, front);
    forall i | 0 <= i < |front|
      ensures RowStart(front, i) == RowStart(s, i) <= front[i].end + 1
    {
      RowStartOfPrefix(s, |front|, i);
    }
    MergedShape(front);
    assert RowStart(s, |s| - 1) <= s[|s| - 1].end + 1;
    assert RowStart(s, |s| - 1) == if Follows(s, |s| - 1) then RowStart(s, |s| - 2) else s[|s| - 1].start;
    hide Merged, Loose, RowStart, Sorted, Apart, InOrder, AllWellFormed, RowsBefore;
  }

  /** The row `last` so far stays loose when `r` comes next. */
  predicate CanFollow(last: Range, r: Range) {
    && last.start <= last.end + 1
    && if last.end + 1 == r.start then last.start <= r.end + 1 else r.start <= r.end + 1
  }

  lemma JoinedGap(m: seq<Range>, r: Range, slot: nat)
    requires m != [] && CanFollow(m[|m| - 1], r)
    ensures Times(Joined(m, r), slot) + (if InGap(r, slot) then 1 else 0) == Times(m, slot) + if Has(r, slot) then 1 else 0
  {
    var before, last := m[..|m| - 1], m[|m| - 1];
    assert m == before + [last];
    hide Times;
    if last.end + 1 == r.start {
      LastTimes(before, last, slot);
      LastTimes(before, Range(last.start, r.end), slot);
    } else {
      LastTimes(m, r, slot);
    }
  }

  lemma LastTimes(a: seq<Range>, r: Range, slot: nat)
    ensures Times(a + [r], slot) == Times(a, slot) + if Has(r, slot) then 1 else 0
  {
    assert (a + [r])[..|a|] == a;
  }

  /** An accepted array keeps every slot it was given, except those in the gap of a range whose start is
      above its end: each such range takes one holder away from each slot of its gap. */
  lemma AcceptedTimes(s: seq<Range>, slot: nat)
    requires s != [] && Sorted(s) && Acceptable(Merged(s))
    ensures Times(Merged(s), slot) == Times(s, slot) - Gaps(s, slot)
  {
    AcceptedIff(s);
    hide Merged, Times, Acceptable, Gaps;
    AcceptsLoose(s);
    LooseTimes(s, slot);
  }

  lemma {:induction false} GapsPositive(s: seq<Range>, slot: nat)
    ensures Gaps(s, slot) > 0 <==> exists r :: r in s && InGap(r, slot)
    decreases |s|
  {
    if s != [] {
      assert s == s[..|s| - 1] + [s[|s| - 1]];
      GapsPositive(s[..|s| - 1], slot);
    }
  }

  /** Merging keeps every slot as often as it was given. */
  ghost predicate KeepsAll(s: seq<Range>) {
    forall slot: nat :: Times(Merged(s), slot) == Times(s, slot)
  }

  /** An accepted array keeps all its slots exactly when no range ends more than one below its start. */
  lemma KeepsAllIff(s: seq<Range>)
    requires s != [] && Sorted(s) && Acceptable(Merged(s))
    ensures KeepsAll(s) <==> forall r | r in s :: r.start <= r.end + 1
  {
    hide Acceptable, Merged, Times, Gaps;
    forall r | r in s && r.start > r.end + 1
      ensures Times(Merged(s), r.end + 1) != Times(s, r.end + 1)
    {
      AcceptedTimes(s, r.end + 1);
      GapsPositive(s, r.end + 1);
      assert InGap(r, r.end + 1);
    }
    if forall r | r in s :: r.start <= r.end + 1 {
      forall slot: nat
        ensures Times(Merged(s), slot) == Times(s, slot)
      {
        AcceptedTimes(s, slot);
        GapsPositive(s, slot);
      }
    } else {
      var r :| r in s && r.start > r.end + 1;
      assert Times(Merged(s), r.end + 1) != Times(s, r.end + 1);
    }
  }

  /** How many holders of a slot an accepted array keeps. */
  function Kept(s: seq<Range>, slot: nat): int {
    Times(s, slot) - Gaps(s, slot)
  }

  /** Two accepted arrays become equal exactly when they keep the same slots. */
  lemma EqualIffSameKept(s: seq<Range>, t: seq<Range>)
    requires s != [] && Sorted(s) && Acceptable(Merged(s)) && t != [] && Sorted(t) && Acceptable(Merged(t))
    ensures Merged(s) == Merged(t) <==> forall slot: nat :: Kept(s, slot) == Kept(t, slot)
  {
    AcceptedIff(s);
    AcceptedIff(t);
    KeptHeld(s);
    KeptHeld(t);
    hide Merged, Kept, Acceptable, Holds, Canonical, Times;
    if forall slot: nat :: Kept(s, slot) == Kept(t, slot) {
      CanonicalUnique(Merged(s), Merged(t));
    }
  }

  lemma KeptHeld(s: seq<Range>)
    requires s != [] && Sorted(s) && Acceptable(Merged(s))
    ensures forall slot: nat :: Times(Merged(s), slot) == Kept(s, slot)
    ensures forall slot: nat :: Kept(s, slot) == Times(Merged(s), slot)
    ensures forall slot: nat :: Holds(Merged(s), slot) <==> Kept(s, slot) > 0
  {
    hide Merged, Acceptable, Holds, Times;
    forall slot: nat
      ensures Times(Merged(s), slot) == Kept(s, slot) && (Holds(Merged(s), slot) <==> Kept(s, slot) > 0)
    {
      AcceptedTimes(s, slot);
      HoldsTimes(Merged(s), slot);
    }
  }
}
