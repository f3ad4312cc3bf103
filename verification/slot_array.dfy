/** slotRangeArray: sorted, merged, validated, extended and iterated in place. */
module SlotArray {
  import opened SlotRanges
  import opened SlotRows

  datatype Verdict = Accepted | BadCount | OutOfRange(index: nat) | Inverted(index: nat) | Repeated(slot: nat)

  /** The used_slots table after some ranges. */
  ghost predicate Marks(used: seq<bool>, m: seq<Range>) {
    && |used| == CLUSTER_SLOTS && Acceptable(m)
    && forall slot | 0 <= slot < CLUSTER_SLOTS :: used[slot] == (Times(m, slot) > 0)
  }

  lemma MarksMore(used: seq<bool>, now: seq<bool>, m: seq<Range>, r: Range)
    requires Marks(used, m) && |now| == CLUSTER_SLOTS && WellFormed(r) && r.end < CLUSTER_SLOTS
    requires forall slot | r.start <= slot <= r.end :: !used[slot]
    requires forall slot | 0 <= slot < CLUSTER_SLOTS :: now[slot] == (used[slot] || Has(r, slot))
    ensures Marks(now, m + [r])
  {
    forall slot: nat
      ensures Times(m + [r], slot) == Times(m, slot) + if Has(r, slot) then 1 else 0
      ensures Times(m + [r], slot) <= 1
    {
      assert Times(m, slot) <= 1;
      assert Has(r, slot) ==> !used[slot];
    }
    assert forall x | x in m + [r] :: x in m || x == r;
    hide Times;
  }

  /** A slot that is used already makes the ranges unacceptable. */
  lemma RepeatedSlot(m: seq<Range>, i: nat, slot: nat)
    requires i < |m| && Times(m[..i], slot) > 0 && Has(m[i], slot)
    ensures !Disjoint(m) && Times(m, slot) > 1
  {
    assert m == (m[..i] + [m[i]]) + m[i + 1..];
    TimesAppend(m[..i] + [m[i]], m[i + 1..], slot);
    assert Times(m, slot) > 1;
  }

  function Inserted(r: Range, s: seq<Range>): (t: seq<Range>)
    ensures |t| == |s| + 1
  {
    if s == [] || r.start <= s[0].start then [r] + s else [s[0]] + Inserted(r, s[1..])
  }

  function ByStart(s: seq<Range>): (t: seq<Range>)
    ensures |t| == |s|
  {
    if s == [] then [] else Inserted(s[0], ByStart(s[1..]))
  }

  lemma {:induction false} InsertedMembers(r: Range, s: seq<Range>)
    ensures multiset(Inserted(r, s)) == multiset(s) + multiset{r}
    ensures forall x | x in Inserted(r, s) :: x == r || x in s
    decreases |s|
  {
    if s != [] && r.start > s[0].start {
      InsertedMembers(r, s[1..]);
      assert s == [s[0]] + s[1..];
    }
  }

  lemma {:induction false} InsertedSorts(r: Range, s: seq<Range>)
    requires Sorted(s)
    ensures Sorted(Inserted(r, s))
    decreases |s|
  {
    if s != [] && r.start > s[0].start {
      InsertedSorts(r, s[1..]);
      InsertedMembers(r, s[1..]);
      var t := Inserted(r, s[1..]);
      hide Inserted;
      FirstIsLeast(s);
    }
  }

  lemma FirstIsLeast(s: seq<Range>)
    requires Sorted(s) && s != []
    ensures forall x | x in s[1..] :: s[0].start <= x.start
  {
  }

  lemma {:induction false} ByStartSorts(s: seq<Range>)
    ensures Sorted(ByStart(s)) && multiset(ByStart(s)) == multiset(s)
    decreases |s|
  {
    if s != [] {
      ByStartSorts(s[1..]);
      InsertedSorts(s[0], ByStart(s[1..]));
      InsertedMembers(s[0], ByStart(s[1..]));
      assert s == [s[0]] + s[1..];
    }
  }

  /** Marks the slots of one range; the result is the first slot that is used already, or CLUSTER_SLOTS. */
  method MarkRange(used: array<bool>, r: Range) returns (slot: nat)
    requires used.Length == CLUSTER_SLOTS && r.start <= r.end < CLUSTER_SLOTS
    modifies used
    ensures slot < CLUSTER_SLOTS ==> Has(r, slot) && old(used[slot])
    ensures slot >= CLUSTER_SLOTS ==>
      && (forall j | r.start <= j <= r.end :: !old(used[j]))
      && forall j | 0 <= j < CLUSTER_SLOTS :: used[j] == (old(used[j]) || Has(r, j))
  {
    slot := r.start;
    while slot <= r.end
      invariant r.start <= slot <= r.end + 1
      invariant forall j | r.start <= j < slot :: !old(used[j])
      invariant forall j | 0 <= j < CLUSTER_SLOTS :: used[j] == (old(used[j]) || r.start <= j < slot)
    {
      if used[slot] {
        return;
      }
      used[slot] := true;
      slot := slot + 1;
    }
    slot := CLUSTER_SLOTS;
  }

  lemma BuiltFirst(slots: seq<nat>)
    requires slots != []
    ensures Built(slots[..1]) == [Range(slots[0], slots[0])]
  {
    assert slots[..1][..0] == [] && Built([]) == [];
  }

  lemma BuiltNext(slots: seq<nat>, i: nat)
    requires 0 < i < |slots| && forall j, k | 0 <= j < k < |slots| :: slots[j] < slots[k]
    ensures var b := Built(slots[..i]);
      Built(slots[..i + 1]) == Appended(b, slots[i]) && b != [] && b[|b| - 1].end < slots[i]
  {
    assert slots[..i + 1][..i] == slots[..i] && slots[..i + 1][i] == slots[i];
    BuiltIsCanonical(slots[..i]);
    hide Appended, Canonical, Holds;
  }

  lemma MergedOne(rs: seq<Range>)
    requires rs != []
    ensures Merged(rs[..1]) == rs[..1]
  {
  }

  lemma MergedNext(rs: seq<Range>, i: nat)
    requires 0 < i < |rs|
    ensures Merged(rs[..i]) != [] && Merged(rs[..i + 1]) == Joined(Merged(rs[..i]), rs[i])
  {
    assert rs[..i + 1][..i] == rs[..i] && rs[..i + 1][i] == rs[i];
  }

  /** One turn of the merging loop: `idx` is the last range so far, `i` the next one. */
  method MergeNext(ranges: array<Range>, idx: nat, i: nat) returns (last: nat)
    requires idx < i < ranges.Length
    modifies ranges
    ensures idx <= last <= i && ranges[..last + 1] == Joined(old(ranges[..idx + 1]), old(ranges[i]))
    ensures forall k | i < k < ranges.Length :: ranges[k] == old(ranges[k])
  {
    last := idx;
    if ranges[idx].end + 1 == ranges[i].start {
      ranges[idx] := ranges[idx].(end := ranges[i].end);
    } else {
      last := idx + 1;
      ranges[last] := ranges[i];
    }
  }

  class SlotRangeArray {
    var ranges: array<Range>
    var numRanges: nat

    ghost predicate Valid()
      reads this
    {
      numRanges <= ranges.Length
    }

    ghost function View(): seq<Range>
      reads this, ranges
      requires Valid()
    {
      ranges[..numRanges]
    }

    /** slotRangeArrayCreate and slotRangeArraySet for each range. */
    constructor (rs: seq<Range>)
      ensures Valid() && View() == rs && fresh(ranges)
    {
      ranges := new Range[|rs|](i requires 0 <= i < |rs| => rs[i]);
      numRanges := |rs|;
    }

    /** qsort by start; what it does to ranges with the same start is not specified. */
    method Qsort()
      requires Valid()
      modifies ranges
      ensures Valid() && Sorted(View()) && multiset(View()) == multiset(old(View()))
    {
      var s := ByStart(ranges[..numRanges]);
      ByStartSorts(ranges[..numRanges]);
      forall i | 0 <= i < numRanges {
        ranges[i] := s[i];
      }
      assert ranges[..numRanges] == s;
    }

    /** The merging loop of slotRangeArraySortAndMerge. */
    method MergeRanges()
      requires Valid() && numRanges > 0
      modifies this`numRanges, ranges
      ensures Valid() && View() == Merged(old(View()))
    {
      hide Merged, Joined;
      ghost var sorted := View();
      var idx, n := 0, numRanges;
      MergedOne(sorted);
      assert ranges[..1] == sorted[..1];
      for i := 1 to n
        invariant numRanges == n == |sorted| && n <= ranges.Length
        invariant idx < i && ranges[..idx + 1] == Merged(sorted[..i])
        invariant forall k | i <= k < n :: ranges[k] == sorted[k]
      {
        MergedNext(sorted, i);
        idx := MergeNext(ranges, idx, i);
      }
      numRanges := idx + 1;
      assert sorted[..|sorted|] == sorted;
    }

    /** slotRangeArraySortAndMerge; `sorted` is what the sort leaves. */
    method SortAndMerge() returns (ghost sorted: seq<Range>)
      requires Valid()
      modifies this`numRanges, ranges
      ensures Valid()
      ensures Sorted(sorted) && multiset(sorted) == multiset(old(View())) && View() == Merged(sorted)
    {
      sorted := View();
      if numRanges <= 1 {
        return;
      }
      hide Merged, Sorted;
      Qsort();
      sorted := View();
      MergeRanges();
    }

    /** slotRangeArrayNormalizeAndValidate. */
    method NormalizeAndValidate() returns (v: Verdict, ghost sorted: seq<Range>)
      requires Valid()
      modifies this, ranges
      ensures Valid() && Sorted(sorted) && multiset(sorted) == multiset(old(View()))
      ensures v.BadCount? <==> old(numRanges) == 0 || old(numRanges) >= CLUSTER_SLOTS
      ensures v.BadCount? ==> View() == old(View())
      ensures !v.BadCount? ==> View() == Merged(sorted) && (v.Accepted? <==> Accepts(sorted))
      ensures v.Accepted? ==> Canonical(View())
      ensures v.OutOfRange? ==> v.index < numRanges && (View()[v.index].start >= CLUSTER_SLOTS || View()[v.index].end >= CLUSTER_SLOTS)
      ensures v.Inverted? ==> v.index < numRanges && View()[v.index].start > View()[v.index].end
      ensures v.Repeated? ==> Times(View(), v.slot) > 1
    {
      sorted := ByStart(View());
      ByStartSorts(View());
      if numRanges == 0 || numRanges >= CLUSTER_SLOTS {
        return BadCount, sorted;
      }
      hide Merged, Times, Sorted, Accepts, Canonical;
      sorted := SortAndMerge();
      v := Validate();
      hide Acceptable;
      AcceptedIff(sorted);
    }

    /** The loops behind the merging. */
    method Validate() returns (v: Verdict)
      requires Valid()
      ensures v.Accepted? <==> Acceptable(View())
      ensures !v.BadCount?
      ensures v.OutOfRange? ==> v.index < numRanges && (View()[v.index].start >= CLUSTER_SLOTS || View()[v.index].end >= CLUSTER_SLOTS)
      ensures v.Inverted? ==> v.index < numRanges && View()[v.index].start > View()[v.index].end
      ensures v.Repeated? ==> Times(View(), v.slot) > 1
    {
      var used := new bool[CLUSTER_SLOTS](_ => false);
      ghost var m := View();
      assert m[..0] == [];
      for i := 0 to numRanges
        invariant Marks(used[..], m[..i]) && View() == m
      {
        var r := ranges[i];
        assert r == m[i] && r in m;
        if r.start >= CLUSTER_SLOTS || r.end >= CLUSTER_SLOTS {
          return OutOfRange(i);
        }
        if r.start > r.end {
          return Inverted(i);
        }
        ghost var before := used[..];
        var slot := MarkRange(used, r);
        if slot < CLUSTER_SLOTS {
          RepeatedSlot(m, i, slot);
          return Repeated(slot);
        }
        assert m[..i + 1] == m[..i] + [r];
        MarksMore(before, used[..], m[..i], r);
      }
      assert m[..|m|] == m;
      return Accepted;
    }

    /** slotRangeArrayIsEqual: both arrays are normalized, then compared. */
    method IsEqual(o: SlotRangeArray) returns (equal: bool, ghost sorted: seq<Range>, ghost sortedOther: seq<Range>)
      requires Valid() && o.Valid() && this != o && ranges != o.ranges
      modifies this, ranges, o, o.ranges
      ensures Valid() && o.Valid()
      ensures Sorted(sorted) && multiset(sorted) == multiset(old(View())) && View() == Merged(sorted)
      ensures Sorted(sortedOther) && multiset(sortedOther) == multiset(old(o.View())) && o.View() == Merged(sortedOther)
      ensures equal <==> View() == o.View()
    {
      hide Sorted, Merged;
      sorted := SortAndMerge();
      sortedOther := o.SortAndMerge();
      if numRanges != o.numRanges {
        return false, sorted, sortedOther;
      }
      for i := 0 to numRanges
        invariant View() == Merged(sorted) && o.View() == Merged(sortedOther)
        invariant forall k | 0 <= k < i :: ranges[k] == o.ranges[k]
      {
        if ranges[i].start != o.ranges[i].start || ranges[i].end != o.ranges[i].end {
          assert View()[i] != o.View()[i];
          return false, sorted, sortedOther;
        }
      }
      assert View() == o.View();
      return true, sorted, sortedOther;
    }

    /** slotRangeArrayAppend for an array that exists; it grows when it is full. */
    method Append(slot: nat)
      requires Valid() && numRanges > 0 && slot > View()[numRanges - 1].end
      modifies this, ranges
      ensures Valid() && View() == Appended(old(View()), slot) && (ranges == old(ranges) || fresh(ranges))
    {
      ghost var was := View();
      if slot == ranges[numRanges - 1].end + 1 {
        ranges[numRanges - 1] := ranges[numRanges - 1].(end := slot);
        assert View() == Appended(was, slot);
        return;
      }
      if numRanges >= ranges.Length {
        Grow();
      }
      ranges[numRanges] := Range(slot, slot);
      numRanges := numRanges + 1;
      assert View() == was + [Range(slot, slot)];
    }

    /** The reallocation to twice the capacity. */
    method Grow()
      requires Valid() && ranges.Length > 0
      modifies this`ranges
      ensures Valid() && fresh(ranges) && ranges.Length == 2 * old(ranges.Length) && View() == old(View())
    {
      var larger := new Range[2 * ranges.Length](_ => Range(0, 0));
      forall i | 0 <= i < numRanges {
        larger[i] := ranges[i];
      }
      ranges := larger;
    }

    /** An array built from slots in ascending order; the first slot makes the array. */
    static method Build(slots: seq<nat>) returns (a: SlotRangeArray)
      requires slots != [] && forall i, j | 0 <= i < j < |slots| :: slots[i] < slots[j]
      ensures a.Valid() && a.View() == Built(slots) && Canonical(a.View())
      ensures forall x: nat :: Holds(a.View(), x) <==> x in slots
    {
      hide Built, Appended, Canonical, Holds;
      a := new SlotRangeArray([Range(slots[0], slots[0])]);
      BuiltFirst(slots);
      for i := 1 to |slots|
        invariant a.Valid() && fresh(a) && fresh(a.ranges) && a.View() == Built(slots[..i])
      {
        BuiltNext(slots, i);
        a.Append(slots[i]);
      }
      assert slots[..|slots|] == slots;
      BuiltIsCanonical(slots);
    }

    /** A whole iteration: the slots that slotRangeArrayGetCurrentSlot and slotRangeArrayNext give. */
    method AllSlots() returns (visited: seq<nat>)
      requires Valid() && AllWellFormed(View())
      ensures visited == SlotsOf(View())
    {
      var it := new SlotIter(this);
      ghost var m := View();
      visited := [];
      hide *;
      while it.curSlot != -1
        invariant fresh(it) && Valid() && View() == m && AllWellFormed(m) && it.At(m)
        invariant Visited(m, it.rangeIndex, it.curSlot, visited)
        decreases Remaining(m, it.rangeIndex, it.curSlot).0, Remaining(m, it.rangeIndex, it.curSlot).1
      {
        ghost var r, cur := it.rangeIndex, it.curSlot;
        visited := visited + [it.curSlot];
        var next := it.Next(this);
        ViewLength(this);
        VisitedNext(m, r, cur, visited, it.rangeIndex, it.curSlot);
      }
    }
  }

  lemma ViewLength(a: SlotRangeArray)
    requires a.Valid()
    ensures |a.View()| == a.numRanges
  {
  }

  /** What has been visited when the iterator is at slot `cur` of range `r`. */
  ghost predicate Visited(m: seq<Range>, r: nat, cur: int, visited: seq<nat>) {
    if cur == -1 then visited == SlotsOf(m)
    else r < |m| && m[r].start <= cur && visited == SlotsOf(m[..r]) + Span(m[r].start, cur)
  }

  ghost function Remaining(m: seq<Range>, r: nat, cur: int): (nat, nat) {
    if r < |m| && cur <= m[r].end then (|m| - r, m[r].end - cur + 1) else (0, 0)
  }

  lemma VisitedNext(m: seq<Range>, r: nat, cur: int, visited: seq<nat>, r1: nat, cur1: int)
    requires r < |m| && 0 <= m[r].start <= cur <= m[r].end && |visited| > 0 && visited[|visited| - 1] == cur
    requires Visited(m, r, cur, visited[..|visited| - 1])
    requires if cur < m[r].end then r1 == r && cur1 == cur + 1
             else r1 == r + 1 && cur1 == if r + 1 < |m| then m[r + 1].start else -1
    ensures Visited(m, r1, cur1, visited)
    ensures Remaining(m, r1, cur1).0 < Remaining(m, r, cur).0 ||
            (Remaining(m, r1, cur1).0 == Remaining(m, r, cur).0 && Remaining(m, r1, cur1).1 < Remaining(m, r, cur).1)
  {
    SlotsStep(m, r);
    assert visited == visited[..|visited| - 1] + [cur];
    hide Span, SlotsOf;
  }

  /** The slots from `lo` up to, not including, `hi`. */
  function Span(lo: nat, hi: nat): seq<nat>
    requires lo <= hi
    decreases hi
  {
    if lo == hi then [] else Span(lo, hi - 1) + [hi - 1]
  }

  /** All slots, range after range. */
  function SlotsOf(rs: seq<Range>): seq<nat> {
    if rs == [] then []
    else
      var last := rs[|rs| - 1];
      SlotsOf(rs[..|rs| - 1]) + if WellFormed(last) then Span(last.start, last.end + 1) else []
  }

  lemma SlotsStep(m: seq<Range>, r: nat)
    requires r < |m| && WellFormed(m[r])
    ensures SlotsOf(m[..r + 1]) == SlotsOf(m[..r]) + Span(m[r].start, m[r].end + 1)
    ensures r + 1 == |m| ==> m[..r + 1] == m
    ensures r + 1 < |m| ==> Span(m[r + 1].start, m[r + 1].start) == []
  {
    assert m[..r + 1][..r] == m[..r] && m[..r + 1][r] == m[r];
  }

  class SlotIter {
    var rangeIndex: nat
    var curSlot: int

    /** slotRangeArrayGetIterator. */
    constructor (a: SlotRangeArray)
      requires a.Valid() && AllWellFormed(a.View())
      ensures At(a.View()) && rangeIndex == 0
      ensures curSlot == if a.View() != [] then a.View()[0].start else -1
    {
      rangeIndex := 0;
      curSlot := if a.numRanges > 0 then a.ranges[0].start else -1;
      new;
      assert a.View() != [] ==> a.View()[0] in a.View();
    }

    /** The iterator is at a slot of its range, or at the end. */
    ghost predicate At(m: seq<Range>)
      reads this
    {
      if curSlot == -1 then rangeIndex >= |m|
      else rangeIndex < |m| && m[rangeIndex].start <= curSlot <= m[rangeIndex].end
    }

    /** slotRangeArrayNext. */
    method Next(a: SlotRangeArray) returns (slot: int)
      requires a.Valid() && AllWellFormed(a.View()) && At(a.View())
      modifies this
      ensures At(a.View()) && (rangeIndex < a.numRanges ==> slot == curSlot)
      ensures var m, r, cur := a.View(), old(rangeIndex), old(curSlot);
        if cur == -1 then slot == -1 && rangeIndex == r && curSlot == -1
        else if cur < m[r].end then rangeIndex == r && curSlot == cur + 1
        else rangeIndex == r + 1 && curSlot == if r + 1 < |m| then m[r + 1].start else -1
    {
      if rangeIndex >= a.numRanges {
        return -1;
      }
      assert forall k | 0 <= k < |a.View()| :: a.View()[k] in a.View();
      if curSlot < a.ranges[rangeIndex].end {
        curSlot := curSlot + 1;
      } else {
        rangeIndex := rangeIndex + 1;
        if rangeIndex < a.numRanges {
          curSlot := a.ranges[rangeIndex].start;
        } else {
          curSlot := -1;
        }
      }
      return curSlot;
    }
  }

  // ---------------------------------------------------------------- the results

  /** For ranges that are well-formed, normalization accepts exactly the disjoint ones below 16384, keeps every
      slot as often as it was given, and leaves the canonical form. */
  lemma NormalizeExact(rs: seq<Range>, sorted: seq<Range>)
    requires AllWellFormed(rs) && Sorted(sorted) && multiset(sorted) == multiset(rs)
    ensures forall slot: nat :: Times(Merged(sorted), slot) == Times(rs, slot)
    ensures Acceptable(Merged(sorted)) <==> Disjoint(rs) && forall r | r in rs :: r.end < CLUSTER_SLOTS
    ensures Acceptable(Merged(sorted)) ==> Canonical(Merged(sorted))
  {
    var m := Merged(sorted);
    SameMembers(rs, sorted);
    MergedTidy(sorted);
    forall slot: nat
      ensures Times(m, slot) == Times(rs, slot) == Times(sorted, slot)
    {
      MergedTimes(sorted, slot);
      TimesPermuted(sorted, rs, slot);
    }
    assert Disjoint(m) <==> Disjoint(rs);
    assert Disjoint(sorted) <==> Disjoint(rs);
    hide Merged, Disjoint, Sorted;
    BelowLimit(rs, m);
    if Disjoint(rs) {
      MergedCanonical(sorted);
    }
  }

  lemma SameMembers(rs: seq<Range>, sorted: seq<Range>)
    requires AllWellFormed(rs) && multiset(sorted) == multiset(rs)
    ensures AllWellFormed(sorted)
  {
    forall r | r in sorted
      ensures r in rs
    {
      assert r in multiset(sorted);
    }
  }

  /** The same slots are below the limit when the ranges that hold them are. */
  lemma BelowLimit(a: seq<Range>, b: seq<Range>)
    requires AllWellFormed(a) && AllWellFormed(b) && forall slot: nat :: Times(b, slot) == Times(a, slot)
    ensures (forall r | r in a :: r.end < CLUSTER_SLOTS) <==> forall r | r in b :: r.start < CLUSTER_SLOTS && r.end < CLUSTER_SLOTS
  {
    forall r | r in a
      ensures Times(a, r.end) > 0
    {
      assert Has(r, r.end);
      TimesHeld(a, r.end);
    }
    forall r | r in b
      ensures Times(b, r.end) > 0
    {
      assert Has(r, r.end);
      TimesHeld(b, r.end);
    }
    forall slot: nat
      ensures Times(a, slot) > 0 ==> exists r :: r in a && Has(r, slot)
      ensures Times(b, slot) > 0 ==> exists r :: r in b && Has(r, slot)
    {
      TimesHeld(a, slot);
      TimesHeld(b, slot);
    }
    hide Times;
  }

  /** A range that is not well-formed can be accepted: 1-4 and 5-2 become 1-2, and the slots 3 and 4 are lost. */
  lemma InvertedRangeAccepted()
    ensures var rs := [Range(1, 4), Range(5, 2)];
      && Sorted(rs) && Merged(rs) == [Range(1, 2)] && Acceptable(Merged(rs))
      && Times(rs, 3) == 1 && Times(Merged(rs), 3) == 0
  {
    var rs := [Range(1, 4), Range(5, 2)];
    MergedTwo(Range(1, 4), Range(5, 2));
    TimesOne(Range(1, 4), 3);
    TimesOne(Range(1, 2), 3);
    assert rs == [Range(1, 4)] + [Range(5, 2)];
    SingleIsAcceptable(Range(1, 2));
    hide Merged, Times, Acceptable;
  }

  lemma MergedTwo(x: Range, y: Range)
    requires x.end + 1 == y.start
    ensures Merged([x, y]) == [Range(x.start, y.end)]
  {
    assert [x, y][..1] == [x] && Merged([x]) == [x] && [x][..0] == [];
  }

  lemma TimesOne(r: Range, slot: nat)
    ensures Times([r], slot) == if Has(r, slot) then 1 else 0
  {
    assert [r][..0] == [] && Times([], slot) == 0;
  }

  lemma SingleIsAcceptable(r: Range)
    requires r.start <= r.end < CLUSTER_SLOTS
    ensures Acceptable([r])
  {
    assert Canonical([r]);
    hide Times;
    CanonicalDisjoint([r]);
    hide Disjoint, Canonical;
  }

  /** Normalized arrays are equal exactly when they hold the same slots. */
  lemma EqualIffSameSlots(a: seq<Range>, b: seq<Range>, sortedA: seq<Range>, sortedB: seq<Range>)
    requires AllWellFormed(a) && AllWellFormed(b) && Disjoint(a) && Disjoint(b)
    requires Sorted(sortedA) && multiset(sortedA) == multiset(a) && Sorted(sortedB) && multiset(sortedB) == multiset(b)
    ensures Merged(sortedA) == Merged(sortedB) <==> SameSlots(a, b)
  {
    MergedHolds(a, sortedA);
    MergedHolds(b, sortedB);
    hide Merged, Holds, Canonical;
    if SameSlots(a, b) {
      CanonicalUnique(Merged(sortedA), Merged(sortedB));
    }
  }

  lemma MergedHolds(a: seq<Range>, sorted: seq<Range>)
    requires AllWellFormed(a) && Disjoint(a) && Sorted(sorted) && multiset(sorted) == multiset(a)
    ensures SameSlots(Merged(sorted), a) && Canonical(Merged(sorted))
  {
    NormalizeExact(a, sorted);
    SameMembers(a, sorted);
    forall slot: nat
      ensures Times(sorted, slot) == Times(a, slot)
      ensures Holds(Merged(sorted), slot) <==> Holds(a, slot)
    {
      TimesPermuted(sorted, a, slot);
      HoldsTimes(Merged(sorted), slot);
      HoldsTimes(a, slot);
    }
    hide Merged, Times, Holds;
    MergedCanonical(sorted);
  }

  ghost predicate Ascending(s: seq<nat>) {
    forall i, j | 0 <= i < j < |s| :: s[i] < s[j]
  }

  lemma {:induction false} SpanAscends(lo: nat, hi: nat)
    requires lo <= hi
    ensures Ascending(Span(lo, hi)) && forall x: nat :: x in Span(lo, hi) <==> lo <= x < hi
    decreases hi
  {
    if lo < hi {
      SpanAscends(lo, hi - 1);
      var front := Span(lo, hi - 1);
      assert forall x | x in front :: x < hi - 1;
      AscendingAppend(front, [hi - 1]);
    }
  }

  lemma AscendingAppend(a: seq<nat>, b: seq<nat>)
    requires Ascending(a) && Ascending(b) && forall x, y | x in a && y in b :: x < y
    ensures Ascending(a + b)
  {
    forall i, j | 0 <= i < j < |a + b|
      ensures (a + b)[i] < (a + b)[j]
    {
      assert i < |a| <= j ==> a[i] in a && b[j - |a|] in b;
    }
  }

  /** The iterator gives every slot of a canonical array once, in ascending order. */
  lemma {:induction false} SlotsAscend(rs: seq<Range>)
    requires Canonical(rs)
    ensures Ascending(SlotsOf(rs))
    ensures forall x: nat :: x in SlotsOf(rs) <==> Holds(rs, x)
    ensures rs == [] ==> SlotsOf(rs) == []
    ensures rs != [] ==> forall x | x in SlotsOf(rs) :: x <= rs[|rs| - 1].end
    decreases |rs|
  {
    if rs == [] {
      assert SlotsOf(rs) == [];
    } else {
      var front, last := rs[..|rs| - 1], rs[|rs| - 1];
      FrontCanonical(rs, front, last);
      SlotsAscend(front);
      SpanAscends(last.start, last.end + 1);
      assert SlotsOf(rs) == SlotsOf(front) + Span(last.start, last.end + 1);
      hide Canonical, Span, SlotsOf, Holds, Ascending;
      AscendingAppend(SlotsOf(front), Span(last.start, last.end + 1));
    }
  }

  lemma FrontCanonical(rs: seq<Range>, front: seq<Range>, last: Range)
    requires Canonical(rs) && rs != [] && front == rs[..|rs| - 1] && last == rs[|rs| - 1]
    ensures Canonical(front) && WellFormed(last)
    ensures front != [] ==> front[|front| - 1].end < last.start
    ensures forall x: nat :: Holds(rs, x) <==> Holds(front, x) || Has(last, x)
  {
    assert rs == front + [last] && last in rs && forall r | r in front :: r in rs;
    assert Canonical(front) && WellFormed(last);
    hide Canonical, Holds;
  }

}
