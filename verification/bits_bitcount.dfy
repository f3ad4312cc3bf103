/** BITCOUNT over a clamped range of bytes or bits. */
module Bitcount {
  import opened BitmapBytes
  import opened Popcount

  /** The optional start and end arguments. */
  datatype Range = Everything | Given(start: int, end: int, isBit: bool)

  function Clamp(index: int, total: nat): nat {
    if index >= 0 then index else if total + index < 0 then 0 else total + index
  }

  /** The half-open interval of bit positions that a range means in a string of `len` bytes. */
  function Interval(len: nat, start: int, end: int, isBit: bool): (r: (nat, nat))
    ensures r.0 <= r.1 <= 8 * len
  {
    var total := if isBit then 8 * len else len;
    var unit := if isBit then 1 else 8;
    var first, last := Clamp(start, total), Clamp(end, total);
    var stop := if last >= total then total else last + 1;
    if first < stop then (first * unit, stop * unit) else (0, 0)
  }

  /** Two negative indexes in the wrong order count as an empty range before they are clamped. */
  function Counted(len: nat, range: Range): (r: (nat, nat))
    ensures r.0 <= r.1 <= 8 * len
  {
    match range
    case Everything => (0, 8 * len)
    case Given(start, end, isBit) =>
      if end < start < 0 then (0, 0) else Interval(len, start, end, isBit)
  }

  // ---------------------------------------------------------------- what the arguments mean

  /** The bytes or bits that indexes count. */
  function Units(len: nat, isBit: bool): nat {
    if isBit then 8 * len else len
  }

  /** Unit `u` of `total` is not before the index. Negative indexes count from the end, -1 is the last unit. */
  predicate NotBefore(index: int, total: nat, u: nat) {
    if index < 0 then index <= (u as int) - total else index <= u
  }

  /** Unit `u` is not behind the index; an index below -total stands for the first unit. */
  predicate NotBehind(index: int, total: nat, u: nat) {
    if index < 0 then (u as int) - total <= index || u == 0 else u <= index
  }

  /** Bit position `p` lies in the byte or bit range from `start` to `end`, the end included. */
  predicate Within(len: nat, start: int, end: int, isBit: bool, p: nat) {
    var total, u := Units(len, isBit), if isBit then p else p / 8;
    u < total && NotBefore(start, total, u) && NotBehind(end, total, u)
  }

  /** The interval holds exactly the positions of the range. */
  lemma IntervalIsWithin(len: nat, start: int, end: int, isBit: bool, p: nat)
    ensures var (lo, hi) := Interval(len, start, end, isBit); lo <= p < hi <==> Within(len, start, end, isBit, p)
  {
  }

  /** An index from the end and the same unit counted from the front mean the same, at the start and at the end;
      indexes before the first unit mean the first, and ends behind the last unit mean the last. */
  lemma IndexesFromTheEnd(len: nat, i: int, j: int, isBit: bool)
    ensures var total: int := Units(len, isBit);
      && (-total <= i < 0 ==> Interval(len, i, j, isBit) == Interval(len, total + i, j, isBit))
      && (-total <= j < 0 ==> Interval(len, i, j, isBit) == Interval(len, i, total + j, isBit))
      && (i < -total ==> Interval(len, i, j, isBit) == Interval(len, 0, j, isBit))
      && (j < -total ==> Interval(len, i, j, isBit) == Interval(len, i, 0, isBit))
      && (j >= total > 0 ==> Interval(len, i, j, isBit) == Interval(len, i, total - 1, isBit))
      && (0 <= i <= j < total ==>
            Interval(len, i, j, isBit) == if isBit then (i, j + 1) else (8 * i, 8 * j + 8))
  {
  }

  /** The bit positions that BITCOUNT counts: none when two negative indexes come in the wrong order. */
  predicate InRange(len: nat, range: Range, p: nat) {
    match range
    case Everything => p < 8 * len
    case Given(start, end, isBit) => !(end < start < 0) && Within(len, start, end, isBit, p)
  }

  ghost function SetPositions(s: seq<Byte>, range: Range): set<nat> {
    set p: nat | p < 8 * |s| && BitAt(s, p) && InRange(|s|, range, p)
  }

  ghost function SetBetween(s: seq<Byte>, lo: nat, hi: nat): set<nat>
    requires lo <= hi <= 8 * |s|
  {
    set p: nat | p < hi && lo <= p && BitAt(s, p)
  }

  lemma SetBetweenMembers(s: seq<Byte>, lo: nat, hi: nat)
    requires lo <= hi <= 8 * |s|
    ensures forall p :: p in SetBetween(s, lo, hi) <==> lo <= p < hi && BitAt(s, p)
  {
    hide BitAt;
  }

  lemma SetBetweenLast(s: seq<Byte>, lo: nat, hi: nat)
    requires lo < hi <= 8 * |s|
    ensures var front := SetBetween(s, lo, hi - 1);
      hi - 1 !in front && SetBetween(s, lo, hi) == if BitAt(s, hi - 1) then front + {hi - 1} else front
  {
    SetBetweenMembers(s, lo, hi);
    SetBetweenMembers(s, lo, hi - 1);
    hide BitAt, SetBetween;
  }

  lemma SetBetweenNone(s: seq<Byte>, lo: nat)
    requires lo <= 8 * |s|
    ensures SetBetween(s, lo, lo) == {}
  {
  }

  lemma {:induction false} CountIsSize(s: seq<Byte>, lo: nat, hi: nat)
    requires lo <= hi <= 8 * |s|
    ensures CountBits(s, lo, hi) == |SetBetween(s, lo, hi)|
    decreases hi
  {
    hide BitAt, SetBetween;
    if lo < hi {
      CountIsSize(s, lo, hi - 1);
      SetBetweenLast(s, lo, hi);
    } else {
      SetBetweenNone(s, lo);
    }
  }

  lemma PositionsMembers(s: seq<Byte>, range: Range, lo: nat, hi: nat)
    requires Counted(|s|, range) == (lo, hi) && hi <= 8 * |s|
    ensures forall p: nat :: p in SetPositions(s, range) <==> lo <= p < hi && BitAt(s, p)
  {
    forall p: nat
      ensures lo <= p < hi <==> p < 8 * |s| && InRange(|s|, range, p)
    {
      if range.Given? {
        IntervalIsWithin(|s|, range.start, range.end, range.isBit, p);
      }
    }
    hide BitAt, InRange, Counted;
  }

  /** The count is the number of set bits in the range. */
  lemma CountedIsSize(s: seq<Byte>, range: Range)
    ensures var (lo, hi) := Counted(|s|, range); CountBits(s, lo, hi) == |SetPositions(s, range)|
  {
    var lo: nat, hi: nat := Counted(|s|, range).0, Counted(|s|, range).1;
    hide BitAt, CountBits, Counted, SetPositions, SetBetween;
    CountIsSize(s, lo, hi);
    PositionsMembers(s, range, lo, hi);
    SetBetweenMembers(s, lo, hi);
    assert SetPositions(s, range) == SetBetween(s, lo, hi);
  }

  lemma {:induction false} OnesInFront(b: Byte, c: Byte, k: nat, n: nat)
    requires k < 8 && n <= 8 && forall i | 0 <= i < 8 :: BitOf(c, i) == (i < k && BitOf(b, i))
    ensures FirstOnes(c, n) == FirstOnes(b, if n < k then n else k)
    decreases n
  {
    hide BitOf;
    if n > 0 {
      OnesInFront(b, c, k, n - 1);
    }
  }

  lemma {:induction false} OnesBehind(b: Byte, c: Byte, k: nat, n: nat)
    requires k < 8 && n <= 8 && forall i | 0 <= i < 8 :: BitOf(c, i) == (i > k && BitOf(b, i))
    ensures FirstOnes(c, n) == if n <= k + 1 then 0 else FirstOnes(b, n) - FirstOnes(b, k + 1)
    decreases n
  {
    hide BitOf;
    if n > 0 {
      OnesBehind(b, c, k, n - 1);
    }
  }

  lemma MaskedFirst(b: Byte, k: nat)
    requires k < 8
    ensures FirstOnes(b & FirstMask(k), 8) == FirstOnes(b, k)
  {
    hide BitOf, FirstMask, FirstOnes;
    var c := b & FirstMask(k);
    forall i: nat | i < 8
      ensures BitOf(c, i) == (i < k && BitOf(b, i))
    {
      AndBit(b, FirstMask(k), i);
      FirstMaskBits(k, i);
    }
    OnesInFront(b, c, k, 8);
  }

  lemma MaskedLast(b: Byte, k: nat)
    requires k < 8
    ensures FirstOnes(b & LastMask(k), 8) == FirstOnes(b, 8) - FirstOnes(b, k + 1)
  {
    hide BitOf, LastMask;
    var c := b & LastMask(k);
    forall i: nat | i < 8
      ensures BitOf(c, i) == (i > k && BitOf(b, i))
    {
      AndBit(b, LastMask(k), i);
      LastMaskBits(k, i);
    }
    OnesBehind(b, c, k, 8);
    assert k == 7 ==> FirstOnes(b, 8) == FirstOnes(b, k + 1);
    hide FirstOnes;
  }

  lemma EdgeOnes(b: Byte, first: nat, last: nat)
    requires first < 8 && last < 8
    ensures Ones(b & FirstMask(first)) == FirstOnes(b, first)
    ensures Ones(b & LastMask(last)) == Ones(b) - FirstOnes(b, last + 1)
    ensures FirstMask(first) == 0 ==> FirstOnes(b, first) == 0
    ensures LastMask(last) == 0 ==> Ones(b) == FirstOnes(b, last + 1)
  {
    hide BitOf, FirstMask, LastMask, Ones;
    MaskedFirst(b, first);
    MaskedLast(b, last);
    AllOnes(b);
    AllOnes(b & FirstMask(first));
    AllOnes(b & LastMask(last));
    FirstMaskBits(first, 0);
    LastMaskBits(last, 0);
  }

  lemma CountTwo(a: Byte, b: Byte)
    ensures CountBits([a, b], 0, 16) == Ones(a) + Ones(b)
  {
    hide *;
    var s := [a, b];
    EmptyCount(s, 0);
    CountNextByte(s, 0, 0);
    CountNextByte(s, 0, 1);
  }

  lemma NoOnes()
    ensures Ones(0) == 0
  {
  }

  /** The bits of the whole bytes, without those in front of `lo` and those behind `hi`. */
  lemma CountEdges(s: seq<Byte>, lo: nat, last: nat)
    requires lo <= last < 8 * |s|
    ensures CountBits(s, 8 * (lo / 8), 8 * (last / 8) + 8) ==
            CountBits(s, lo, last + 1) + FirstOnes(s[lo / 8], lo % 8) +
            (Ones(s[last / 8]) - FirstOnes(s[last / 8], last % 8 + 1))
  {
    hide CountBits, Ones;
    CountInByte(s, lo / 8, lo % 8);
    CountInByte(s, last / 8, last % 8 + 1);
    CountByte(s, last / 8);
    CountSplit(s, 8 * (lo / 8), lo, 8 * (last / 8) + 8);
    CountSplit(s, lo, last + 1, 8 * (last / 8) + 8);
    CountSplit(s, 8 * (last / 8), last + 1, 8 * (last / 8) + 8);
  }

  lemma CountSlice(s: seq<Byte>, start: nat, end: nat)
    requires start <= end < |s|
    ensures CountBits(s[start..end + 1], 0, 8 * (end - start + 1)) == CountBits(s, 8 * start, 8 * end + 8)
  {
    hide CountBits, SameBits;
    SliceBits(s, start, end + 1);
    CountAgrees(s[start..end + 1], s, 0, 8 * (end - start + 1), start);
  }

  lemma EmptyCount(s: seq<Byte>, n: nat)
    requires n <= 8 * |s|
    ensures CountBits(s, n, n) == 0
  {
  }

  /** How bitcountCommand and bitposCommand turn the arguments into bytes and edge masks; `lo` and `last`
      are the first and the last bit of the range. */
  method ByteRange(len: nat, start0: int, end0: int, isBit: bool)
    returns (start: int, end: int, firstMask: Byte, lastMask: Byte, ghost lo: int, ghost last: int)
    ensures start <= end ==>
      && 0 <= start && end < len && 0 <= lo <= last < 8 * len && Interval(len, start0, end0, isBit) == (lo, last + 1)
      && start == lo / 8 && end == last / 8
      && firstMask == FirstMask(lo % 8) && lastMask == LastMask(last % 8)
    ensures start > end ==> Interval(len, start0, end0, isBit) == (0, 0)
  {
    hide FirstMask, LastMask;
    start, end, firstMask, lastMask, lo, last := start0, end0, 0, 0, 0, 0;
    var total := if isBit then 8 * len else len;
    if start < 0 { start := total + start; }
    if end < 0 { end := total + end; }
    if start < 0 { start := 0; }
    if end < 0 { end := 0; }
    if end >= total { end := total - 1; }
    assert 0 <= start && end < total;
    if start <= end {
      lo, last := if isBit then start else 8 * start, if isBit then end else 8 * end + 7;
      assert Interval(len, start0, end0, isBit) == (lo, last + 1);
      FirstMaskBits(0, 0);
      LastMaskBits(7, 0);
      if isBit {
        firstMask := FirstMask(start % 8);
        lastMask := LastMask(end % 8);
        start := start / 8;
        end := end / 8;
      }
    }
  }

  /** bitcountCommand for a string `s`, which is empty for a key that does not exist. */
  method BitcountCommand(s: seq<Byte>, range: Range, addr: nat) returns (count: int)
    ensures count == |SetPositions(s, range)|
  {
    CountedIsSize(s, range);
    hide SetPositions, CountBits, Ones, FirstOnes, FirstMask, LastMask, Interval;
    var start, end: int := 0, |s| - 1;
    var firstMask: Byte, lastMask: Byte := 0, 0;
    ghost var lo, last: int := 0, 8 * |s| - 1;
    EmptyCount(s, 0);
    FirstMaskBits(0, 0);
    LastMaskBits(7, 0);
    if range.Given? {
      if range.start < 0 && range.end < 0 && range.start > range.end {
        return 0;
      }
      start, end, firstMask, lastMask, lo, last := ByteRange(|s|, range.start, range.end, range.isBit);
    }
    if start > end {
      return 0;
    }
    count := CountMasked(s, start, end, firstMask, lastMask, lo, last, addr);
  }

  /** A byte whose bits are subtracted, or none. */
  function Masked(b: Byte, mask: Byte): Byte {
    if mask != 0 then b & mask else 0
  }

  lemma CountUnmasked(s: seq<Byte>, lo: nat, last: nat)
    requires lo <= last < 8 * |s|
    ensures var start, end := lo / 8, last / 8;
      CountBits(s[start..end + 1], 0, 8 * (end - start + 1)) == CountBits(s, lo, last + 1) +
      Ones(Masked(s[start], FirstMask(lo % 8))) + Ones(Masked(s[end], LastMask(last % 8)))
  {
    hide CountBits, Ones, FirstOnes, FirstMask, LastMask;
    CountSlice(s, lo / 8, last / 8);
    CountEdges(s, lo, last);
    EdgeOnes(s[lo / 8], lo % 8, last % 8);
    EdgeOnes(s[last / 8], lo % 8, last % 8);
    NoOnes();
  }

  method CountMasked(s: seq<Byte>, start: nat, end: nat, firstMask: Byte, lastMask: Byte,
      ghost lo: nat, ghost last: nat, addr: nat) returns (count: int)
    requires lo <= last < 8 * |s| && start == lo / 8 && end == last / 8
    requires firstMask == FirstMask(lo % 8) && lastMask == LastMask(last % 8)
    ensures count == CountBits(s, lo, last + 1)
  {
    hide CountBits, Ones, FirstOnes, FirstMask, LastMask;
    count := RedisPopcount(s[start..end + 1], addr + start);
    CountUnmasked(s, lo, last);
    NoOnes();
    assert firstMask == 0 ==> Masked(s[start], firstMask) == 0;
    assert lastMask == 0 ==> Masked(s[end], lastMask) == 0;
    if firstMask != 0 || lastMask != 0 {
      var first: Byte, second: Byte := 0, 0;
      if firstMask != 0 { first := s[start] & firstMask; }
      if lastMask != 0 { second := s[end] & lastMask; }
      assert first == Masked(s[start], firstMask) && second == Masked(s[end], lastMask);
      CountTwo(first, second);
      var outside := RedisPopcount([first, second], 0);
      count := count - outside;
    }
  }
}
