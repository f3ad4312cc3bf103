/** BITPOS: the first bit with a given value in a clamped range. */
module BitposRange {
  import opened Wrappers
  import opened BitmapBytes
  import opened Bitpos
  import Bitcount

  datatype Range = Everything | From(start: int) | Given(start: int, end: int, isBit: bool)

  /** The bit positions a range means in a string of `len` bytes; without an end it reaches to the end. */
  function Sought(len: nat, range: Range): (r: (nat, nat))
    ensures r.0 <= r.1 <= 8 * len
  {
    match range
    case Everything => (0, 8 * len)
    case From(start) => Bitcount.Interval(len, start, len - 1, false)
    case Given(start, end, isBit) => Bitcount.Interval(len, start, end, isBit)
  }

  /** What BITPOS promises: the least matching position of the range, otherwise -1, or the first position
      behind the string when a clear bit is sought in a range that is not empty and has no end. */
  ghost predicate Answer(s: seq<Byte>, bit: bool, range: Range, pos: int) {
    var (lo, hi) := Sought(|s|, range);
    if NoneIn(s, lo, hi, bit) then
      pos == if lo < hi && !bit && !range.Given? then 8 * |s| else -1
    else
      lo <= pos < hi && Padded(s, pos) == bit && NoneIn(s, lo, pos, bit)
  }

  /** The bit positions that the arguments of BITPOS name. */
  predicate InRange(len: nat, range: Range, p: nat) {
    p < 8 * len &&
    match range
    case Everything => true
    case From(start) => Bitcount.NotBefore(start, len, p / 8)
    case Given(start, end, isBit) => Bitcount.Within(len, start, end, isBit, p)
  }

  /** Some position of the range holds the bit that is sought. */
  ghost predicate Holds(s: seq<Byte>, bit: bool, range: Range) {
    exists p: nat :: p < 8 * |s| && InRange(|s|, range, p) && BitAt(s, p) == bit
  }

  /** `pos` is the first position of the range with this bit. */
  ghost predicate IsFirst(s: seq<Byte>, bit: bool, range: Range, pos: nat) {
    && pos < 8 * |s| && InRange(|s|, range, pos) && BitAt(s, pos) == bit
    && forall p: nat | p < pos && InRange(|s|, range, p) :: BitAt(s, p) != bit
  }

  /** What BITPOS promises, position by position. */
  ghost predicate Promised(s: seq<Byte>, bit: bool, range: Range, pos: int) {
    if Holds(s, bit, range) then pos >= 0 && IsFirst(s, bit, range, pos)
    else pos == if !bit && !range.Given? && (exists p: nat :: InRange(|s|, range, p)) then 8 * |s| else -1
  }

  lemma SoughtIsInRange(len: nat, range: Range, p: nat)
    ensures var (lo, hi) := Sought(len, range); lo <= p < hi <==> InRange(len, range, p)
  {
    match range
    case Everything =>
    case From(start) => Bitcount.IntervalIsWithin(len, start, len - 1, false, p);
    case Given(start, end, isBit) => Bitcount.IntervalIsWithin(len, start, end, isBit, p);
  }

  lemma AnswerIsPromised(s: seq<Byte>, bit: bool, range: Range, pos: int)
    requires Answer(s, bit, range, pos)
    ensures Promised(s, bit, range, pos)
  {
    var (lo, hi) := Sought(|s|, range);
    forall p: nat
      ensures lo <= p < hi <==> InRange(|s|, range, p)
      ensures Padded(s, p) == (p < 8 * |s| && BitAt(s, p))
    {
      SoughtIsInRange(|s|, range, p);
      PaddedBit(s, p);
    }
    hide BitAt, Padded, InRange, Sought;
    if NoneIn(s, lo, hi, bit) {
      assert !Holds(s, bit, range);
      assert lo < hi ==> InRange(|s|, range, lo);
    } else {
      assert Holds(s, bit, range);
    }
  }

  /** `part` stands for the bytes of `s` from `start` on: the bits `lo` to `hi` are the same, the others
      do not match. */
  ghost predicate Stands(s: seq<Byte>, part: seq<Byte>, start: nat, lo: nat, hi: nat, bit: bool) {
    && 8 * start <= lo <= hi <= 8 * (start + |part|) && hi <= 8 * |s|
    && forall n | 0 <= n < 8 * |part| ::
         Padded(part, n) == if lo <= 8 * start + n < hi then Padded(s, 8 * start + n) else !bit
  }

  /** A result of redisBitpos that means there is no such bit. */
  predicate NotFound(part: seq<Byte>, bit: bool, pos: int) {
    pos == if bit then -1 else 8 * |part|
  }

  lemma PartNone(s: seq<Byte>, part: seq<Byte>, start: nat, lo: nat, hi: nat, bit: bool, pos: int)
    requires Stands(s, part, start, lo, hi, bit) && FirstBit(part, bit, pos)
    requires pos == -1 || pos == 8 * |part|
    ensures NoneIn(s, lo, hi, bit) && NotFound(part, bit, pos)
  {
    hide Padded, BitAt;
    PaddedEnd(part);
    forall n | lo <= n < hi
      ensures Padded(s, n) != bit
    {
      PaddedBit(part, n - 8 * start);
      assert Padded(part, n - 8 * start) == Padded(s, 8 * start + (n - 8 * start));
    }
  }

  lemma PaddedEnd(s: seq<Byte>)
    ensures !Padded(s, 8 * |s|)
  {
    PaddedBit(s, 8 * |s|);
  }

  lemma PartFound(s: seq<Byte>, part: seq<Byte>, start: nat, lo: nat, hi: nat, bit: bool, pos: int)
    requires Stands(s, part, start, lo, hi, bit) && FirstBit(part, bit, pos)
    requires pos != -1 && pos != 8 * |part|
    ensures 0 <= pos < 8 * |part| && lo <= 8 * start + pos < hi
    ensures Padded(s, 8 * start + pos) == bit && NoneIn(s, lo, 8 * start + pos, bit)
  {
    hide Padded, BitAt;
    PosInPart(part, bit, pos);
    forall n | lo <= n < 8 * start + pos
      ensures Padded(s, n) != bit
    {
      assert Padded(part, n - 8 * start) != bit;
      assert 8 * start + (n - 8 * start) == n;
    }
  }

  /** A position behind the string is its end: the zero bit there is the first one. */
  lemma PosInPart(part: seq<Byte>, bit: bool, pos: int)
    requires FirstBit(part, bit, pos)
    ensures pos <= 8 * |part|
  {
    hide Padded, BitAt;
    PaddedEnd(part);
    if pos > 8 * |part| {
      PaddedBit(part, pos);
    }
  }

  lemma SliceStands(s: seq<Byte>, start: nat, end: nat, lo: nat, hi: nat, bit: bool)
    requires start <= end <= |s| && lo == 8 * start && hi == 8 * end
    ensures Stands(s, s[start..end], start, lo, hi, bit)
  {
    hide BitOf;
    var part := s[start..end];
    forall n | 0 <= n < 8 * |part|
      ensures Padded(part, n) == Padded(s, 8 * start + n)
    {
      assert (8 * start + n) / 8 == start + n / 8 && (8 * start + n) % 8 == n % 8;
    }
  }

  // ---------------------------------------------------------------- the bytes at the edges

  /** A byte of the range with the bits of `mask` set to what is not sought. */
  function EdgeByte(b: Byte, mask: Byte, bit: bool): Byte {
    if bit then b & !mask else b | mask
  }

  lemma EdgeBit(b: Byte, mask: Byte, bit: bool, i: nat)
    requires i < 8
    ensures BitOf(EdgeByte(b, mask, bit), i) == if BitOf(mask, i) then !bit else BitOf(b, i)
  {
    AndBit(b, !mask, i);
    NotBit(mask, i);
    OrBit(b, mask, i);
    hide BitOf;
  }

  lemma EdgeStands(s: seq<Byte>, edge: Byte, start: nat, lo: nat, hi: nat, bit: bool)
    requires start < |s| && 8 * start <= lo <= hi <= 8 * start + 8
    requires forall i | 0 <= i < 8 ::
               BitOf(edge, i) == if lo <= 8 * start + i < hi then BitOf(s[start], i) else !bit
    ensures Stands(s, [edge], start, lo, hi, bit)
  {
    hide BitOf;
    forall n | 0 <= n < 8
      ensures Padded(s, 8 * start + n) == BitOf(s[start], n) && Padded([edge], n) == BitOf(edge, n)
    {
      assert (8 * start + n) / 8 == start && (8 * start + n) % 8 == n;
    }
  }

  lemma FirstEdge(s: seq<Byte>, start: nat, first: nat, bit: bool)
    requires start < |s| && first < 8
    ensures Stands(s, [EdgeByte(s[start], FirstMask(first), bit)], start, 8 * start + first, 8 * start + 8, bit)
  {
    hide BitOf, FirstMask, EdgeByte, Stands;
    var edge := EdgeByte(s[start], FirstMask(first), bit);
    forall i | 0 <= i < 8
      ensures BitOf(edge, i) == if first <= i then BitOf(s[start], i) else !bit
    {
      EdgeBit(s[start], FirstMask(first), bit, i);
      FirstMaskBits(first, i);
    }
    EdgeStands(s, edge, start, 8 * start + first, 8 * start + 8, bit);
  }

  lemma LastEdge(s: seq<Byte>, end: nat, last: nat, bit: bool)
    requires end < |s| && last < 8
    ensures Stands(s, [EdgeByte(s[end], LastMask(last), bit)], end, 8 * end, 8 * end + last + 1, bit)
  {
    hide BitOf, LastMask, EdgeByte, Stands;
    var edge := EdgeByte(s[end], LastMask(last), bit);
    forall i | 0 <= i < 8
      ensures BitOf(edge, i) == if i <= last then BitOf(s[end], i) else !bit
    {
      EdgeBit(s[end], LastMask(last), bit, i);
      LastMaskBits(last, i);
    }
    EdgeStands(s, edge, end, 8 * end, 8 * end + last + 1, bit);
  }

  lemma BothEdges(s: seq<Byte>, start: nat, first: nat, last: nat, bit: bool)
    requires start < |s| && first <= last < 8
    ensures var edge := EdgeByte(EdgeByte(s[start], FirstMask(first), bit), LastMask(last), bit);
      Stands(s, [edge], start, 8 * start + first, 8 * start + last + 1, bit)
  {
    hide BitOf, FirstMask, LastMask, EdgeByte, Stands;
    var one := EdgeByte(s[start], FirstMask(first), bit);
    var edge := EdgeByte(one, LastMask(last), bit);
    forall i | 0 <= i < 8
      ensures BitOf(edge, i) == if first <= i <= last then BitOf(s[start], i) else !bit
    {
      EdgeBit(s[start], FirstMask(first), bit, i);
      EdgeBit(one, LastMask(last), bit, i);
      FirstMaskBits(first, i);
      LastMaskBits(last, i);
    }
    EdgeStands(s, edge, start, 8 * start + first, 8 * start + last + 1, bit);
  }

  // ---------------------------------------------------------------- the search

  ghost predicate FoundFrom(s: seq<Byte>, lo: nat, hi: nat, bit: bool, endless: bool, pos: int) {
    if NoneIn(s, lo, hi, bit) then pos == if endless && !bit then hi else -1
    else lo <= pos < hi && Padded(s, pos) == bit && NoneIn(s, lo, pos, bit)
  }

  /** The end of bitposCommand: `bytes` bytes from `start` on were left when `pos` was found in `part`. */
  method Finish(s: seq<Byte>, ghost part: seq<Byte>, start: nat, bytes: nat, ghost lo: nat, ghost mid: nat,
      ghost hi: nat, ghost end: nat, bit: bool, endGiven: bool, found: int) returns (pos: int)
    requires Stands(s, part, start, mid, hi, bit) && FirstBit(part, bit, found)
    requires lo <= mid && hi <= end && NoneIn(s, lo, mid, bit) && |part| <= bytes
    requires found == -1 || found == 8 * |part| ==> hi == end && |part| == bytes
    requires !endGiven ==> end == 8 * (start + bytes)
    ensures FoundFrom(s, lo, end, bit, !endGiven, pos)
  {
    hide Padded, BitAt, Stands;
    pos := found;
    if found == -1 || found == 8 * |part| {
      PartNone(s, part, start, mid, hi, bit, found);
      BeginsBelow(s, part, start, mid, hi, bit);
      Joined(s, lo, mid, end, bit);
    } else {
      PartFound(s, part, start, mid, hi, bit, found);
      Joined(s, lo, mid, 8 * start + found, bit);
      assert !NoneIn(s, lo, end, bit);
    }
    hide NoneIn;
    if endGiven && !bit && pos == 8 * bytes {
      return -1;
    }
    if pos != -1 {
      pos := pos + 8 * start;
    }
  }

  lemma BeginsBelow(s: seq<Byte>, part: seq<Byte>, start: nat, lo: nat, hi: nat, bit: bool)
    requires Stands(s, part, start, lo, hi, bit)
    ensures lo <= hi
  {
  }

  method SearchRange(s: seq<Byte>, start0: nat, end: nat, firstMask: Byte, lastMask: Byte, ghost lo: nat,
      ghost last: nat, bit: bool, endGiven: bool, addr: nat) returns (pos: int)
    requires lo <= last < 8 * |s| && start0 == lo / 8 && end == last / 8
    requires firstMask == FirstMask(lo % 8) && lastMask == LastMask(last % 8)
    requires !endGiven ==> lo % 8 == 0 && last % 8 == 7
    ensures FoundFrom(s, lo, last + 1, bit, !endGiven, pos)
  {
    hide Padded, BitAt, Stands, FirstBit, NoneIn, FoundFrom, FirstMask, LastMask, EdgeByte;
    FirstMaskBits(lo % 8, 0);
    LastMaskBits(last % 8, 0);
    var start, bytes := start0, end - start0 + 1;
    NoneYet(s, lo, bit);
    ghost var mid := lo;
    if firstMask != 0 {
      var edge := EdgeByte(s[start], firstMask, bit);
      ghost var hi := 8 * start + 8;
      FirstEdge(s, start, lo % 8, bit);
      if lastMask != 0 && bytes == 1 {
        edge := EdgeByte(edge, lastMask, bit);
        hi := last + 1;
        BothEdges(s, start, lo % 8, last % 8, bit);
      }
      pos := RedisBitpos([edge], 0, bit);
      if bytes == 1 || (pos != -1 && pos != 8) {
        pos := Finish(s, [edge], start, bytes, lo, lo, hi, last + 1, bit, endGiven, pos);
        return;
      }
      PartNone(s, [edge], start, lo, hi, bit, pos);
      start, bytes, mid := start + 1, bytes - 1, hi;
    }
    pos := SearchRest(s, start, bytes, end, lastMask, lo, mid, last, bit, endGiven, addr);
  }

  method SearchRest(s: seq<Byte>, start0: nat, bytes0: nat, end: nat, lastMask: Byte, ghost lo: nat,
      ghost mid0: nat, ghost last: nat, bit: bool, endGiven: bool, addr: nat) returns (pos: int)
    requires lo <= mid0 <= last < 8 * |s| && mid0 == 8 * start0 && end == last / 8
    requires bytes0 > 0 && start0 + bytes0 == end + 1 && lastMask == LastMask(last % 8)
    requires NoneIn(s, lo, mid0, bit) && (!endGiven ==> last % 8 == 7)
    ensures FoundFrom(s, lo, last + 1, bit, !endGiven, pos)
  {
    hide Padded, BitAt, Stands, FirstBit, NoneIn, FoundFrom, FirstMask, LastMask, EdgeByte;
    LastMaskBits(last % 8, 0);
    var start, bytes := start0, bytes0;
    ghost var mid := mid0;
    var curbytes := bytes - if lastMask != 0 then 1 else 0;
    if curbytes > 0 {
      ghost var hi := 8 * (start + curbytes);
      SliceStands(s, start, start + curbytes, mid, hi, bit);
      pos := RedisBitpos(s[start..start + curbytes], addr + start, bit);
      if bytes == curbytes || (pos != -1 && pos != 8 * curbytes) {
        pos := Finish(s, s[start..start + curbytes], start, bytes, lo, mid, hi, last + 1, bit, endGiven, pos);
        return;
      }
      PartNone(s, s[start..start + curbytes], start, mid, hi, bit, pos);
      Joined(s, lo, mid, hi, bit);
      start, bytes, mid := start + curbytes, bytes - curbytes, hi;
    }
    var edge := EdgeByte(s[end], lastMask, bit);
    LastEdge(s, end, last % 8, bit);
    pos := RedisBitpos([edge], 0, bit);
    pos := Finish(s, [edge], start, bytes, lo, mid, last + 1, last + 1, bit, endGiven, pos);
  }

  /** bitposCommand, for a key that may not exist. */
  method BitposCommand(o: Option<seq<Byte>>, bit: bool, range: Range, addr: nat) returns (pos: int)
    ensures o.None? ==> pos == if bit then -1 else 0
    ensures o.Some? ==> Promised(o.value, bit, range, pos)
  {
    if o.None? {
      return if bit then -1 else 0;
    }
    pos := SearchString(o.value, bit, range, addr);
    AnswerIsPromised(o.value, bit, range, pos);
    hide Answer, Promised;
  }

  method SearchString(s: seq<Byte>, bit: bool, range: Range, addr: nat) returns (pos: int)
    ensures Answer(s, bit, range, pos)
  {
    hide Padded, NoneIn, FirstMask, LastMask;
    var start, end: int := 0, |s| - 1;
    var firstMask: Byte, lastMask: Byte := 0, 0;
    ghost var lo, last: int := 0, 8 * |s| - 1;
    FirstMaskBits(0, 0);
    LastMaskBits(7, 0);
    match range {
      case Everything =>
      case From(first) =>
        start, end, firstMask, lastMask, lo, last := Bitcount.ByteRange(|s|, first, |s| - 1, false);
      case Given(first, stop, isBit) =>
        start, end, firstMask, lastMask, lo, last := Bitcount.ByteRange(|s|, first, stop, isBit);
    }
    if start > end {
      NoneYet(s, 0, bit);
      return -1;
    }
    pos := SearchRange(s, start, end, firstMask, lastMask, lo, last, bit, range.Given?, addr);
  }
}
