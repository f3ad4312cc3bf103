/** Bitmaps: bit 0 of a string is the most significant bit of its first byte. */
module BitmapBytes {
  type Byte = bv8

  function Mask(i: nat): bv8
    requires i < 8
  {
    match i
    case 0 => 0x80
    case 1 => 0x40
    case 2 => 0x20
    case 3 => 0x10
    case 4 => 0x08
    case 5 => 0x04
    case 6 => 0x02
    case _ => 0x01
  }

  predicate BitOf(b: Byte, i: nat)
    requires i < 8
  {
    b & Mask(i) != 0
  }

  /** Bit 0 of a byte is worth 128, bit 7 is worth 1. */
  lemma MostSignificantFirst(b: Byte)
    ensures b as nat == 128 * One(BitOf(b, 0)) + 64 * One(BitOf(b, 1)) + 32 * One(BitOf(b, 2)) + 16 * One(BitOf(b, 3)) +
                        8 * One(BitOf(b, 4)) + 4 * One(BitOf(b, 5)) + 2 * One(BitOf(b, 6)) + One(BitOf(b, 7))
  {
  }

  predicate BitAt(s: seq<Byte>, n: nat)
    requires n < 8 * |s|
  {
    BitOf(s[n / 8], n % 8)
  }

  /** Byte `j` of a string that is followed by zero bytes without end. */
  function ByteAt(s: seq<Byte>, j: nat): Byte {
    if j < |s| then s[j] else 0
  }

  predicate Padded(s: seq<Byte>, n: nat) {
    BitOf(ByteAt(s, n / 8), n % 8)
  }

  lemma PaddedBit(s: seq<Byte>, n: nat)
    ensures Padded(s, n) == (n < 8 * |s| && BitAt(s, n))
  {
    assert forall i | 0 <= i < 8 :: !BitOf(0, i);
  }

  function One(c: bool): nat {
    if c then 1 else 0
  }

  /** The number of bits set among the positions from `lo` up to, not including, `hi`. */
  function CountBits(s: seq<Byte>, lo: nat, hi: nat): nat
    requires lo <= hi <= 8 * |s|
    decreases hi
  {
    if lo == hi then 0 else CountBits(s, lo, hi - 1) + One(BitAt(s, hi - 1))
  }

  lemma {:induction false} CountSplit(s: seq<Byte>, lo: nat, mid: nat, hi: nat)
    requires lo <= mid <= hi <= 8 * |s|
    ensures CountBits(s, lo, hi) == CountBits(s, lo, mid) + CountBits(s, mid, hi)
    decreases hi
  {
    if mid < hi {
      CountSplit(s, lo, mid, hi - 1);
    }
  }

  /** Equal bits at positions that are `shift` bytes apart. */
  ghost predicate SameBits(s: seq<Byte>, t: seq<Byte>, lo: nat, hi: nat, shift: nat) {
    && hi <= 8 * |s| && hi + 8 * shift <= 8 * |t|
    && forall n | lo <= n < hi :: BitAt(s, n) == BitAt(t, n + 8 * shift)
  }

  lemma {:induction false} CountAgrees(s: seq<Byte>, t: seq<Byte>, lo: nat, hi: nat, shift: nat)
    requires lo <= hi && SameBits(s, t, lo, hi, shift)
    ensures CountBits(s, lo, hi) == CountBits(t, lo + 8 * shift, hi + 8 * shift)
    decreases hi
  {
    hide BitAt;
    if lo < hi {
      CountAgrees(s, t, lo, hi - 1, shift);
    }
  }

  lemma SliceBits(s: seq<Byte>, start: nat, end: nat)
    requires start <= end <= |s|
    ensures SameBits(s[start..end], s, 0, 8 * (end - start), start)
  {
    hide BitOf;
    forall n | 0 <= n < 8 * (end - start)
      ensures BitAt(s[start..end], n) == BitAt(s, n + 8 * start)
    {
    }
  }

  /** bitsinbyte: the number of bits set in one byte. */
  function Ones(b: Byte): nat {
    One(b & 0x80 != 0) + One(b & 0x40 != 0) + One(b & 0x20 != 0) + One(b & 0x10 != 0) +
    One(b & 0x08 != 0) + One(b & 0x04 != 0) + One(b & 0x02 != 0) + One(b & 0x01 != 0)
  }

  /** The same sum with the bits taken from the left. */
  function FirstOnes(b: Byte, k: nat): nat
    requires k <= 8
  {
    if k == 0 then 0 else FirstOnes(b, k - 1) + One(BitOf(b, k - 1))
  }

  lemma AllOnes(b: Byte)
    ensures FirstOnes(b, 8) == Ones(b)
  {
    EachBit(b);
    hide BitOf, One;
    assert FirstOnes(b, 0) == 0;
    assert FirstOnes(b, 1) == FirstOnes(b, 0) + One(BitOf(b, 0));
    assert FirstOnes(b, 2) == FirstOnes(b, 1) + One(BitOf(b, 1));
    assert FirstOnes(b, 3) == FirstOnes(b, 2) + One(BitOf(b, 2));
    assert FirstOnes(b, 4) == FirstOnes(b, 3) + One(BitOf(b, 3));
    assert FirstOnes(b, 5) == FirstOnes(b, 4) + One(BitOf(b, 4));
    assert FirstOnes(b, 6) == FirstOnes(b, 5) + One(BitOf(b, 5));
    assert FirstOnes(b, 7) == FirstOnes(b, 6) + One(BitOf(b, 6));
  }

  lemma EachBit(b: Byte)
    ensures Ones(b) == One(BitOf(b, 0)) + One(BitOf(b, 1)) + One(BitOf(b, 2)) + One(BitOf(b, 3)) +
                       One(BitOf(b, 4)) + One(BitOf(b, 5)) + One(BitOf(b, 6)) + One(BitOf(b, 7))
  {
    BitMasks(b);
    hide One, BitOf, Mask;
  }

  lemma BitMasks(b: Byte)
    ensures One(BitOf(b, 0)) == One(b & 0x80 != 0)
    ensures One(BitOf(b, 1)) == One(b & 0x40 != 0)
    ensures One(BitOf(b, 2)) == One(b & 0x20 != 0)
    ensures One(BitOf(b, 3)) == One(b & 0x10 != 0)
    ensures One(BitOf(b, 4)) == One(b & 0x08 != 0)
    ensures One(BitOf(b, 5)) == One(b & 0x04 != 0)
    ensures One(BitOf(b, 6)) == One(b & 0x02 != 0)
    ensures One(BitOf(b, 7)) == One(b & 0x01 != 0)
  {
  }

  lemma {:induction false} CountInByte(s: seq<Byte>, j: nat, k: nat)
    requires j < |s| && k <= 8
    ensures CountBits(s, 8 * j, 8 * j + k) == FirstOnes(s[j], k)
    decreases k
  {
    if k > 0 {
      CountInByte(s, j, k - 1);
      assert (8 * j + k - 1) / 8 == j && (8 * j + k - 1) % 8 == k - 1;
    }
  }

  lemma CountByte(s: seq<Byte>, j: nat)
    requires j < |s|
    ensures CountBits(s, 8 * j, 8 * j + 8) == Ones(s[j])
  {
    CountInByte(s, j, 8);
    AllOnes(s[j]);
  }

  lemma CountNextByte(s: seq<Byte>, lo: nat, j: nat)
    requires lo <= 8 * j && j < |s|
    ensures CountBits(s, lo, 8 * (j + 1)) == CountBits(s, lo, 8 * j) + Ones(s[j])
  {
    CountSplit(s, lo, 8 * j, 8 * (j + 1));
    CountByte(s, j);
  }

  // ---------------------------------------------------------------- bitwise operators and edge masks

  lemma AndBit(a: Byte, b: Byte, i: nat)
    requires i < 8
    ensures BitOf(a & b, i) == (BitOf(a, i) && BitOf(b, i))
  {
  }

  lemma OrBit(a: Byte, b: Byte, i: nat)
    requires i < 8
    ensures BitOf(a | b, i) == (BitOf(a, i) || BitOf(b, i))
  {
  }

  lemma XorBit(a: Byte, b: Byte, i: nat)
    requires i < 8
    ensures BitOf(a ^ b, i) == (BitOf(a, i) != BitOf(b, i))
  {
    SingleBit(i);
    hide Mask;
  }

  lemma SingleBit(i: nat)
    requires i < 8
    ensures Mask(i) & (Mask(i) - 1) == 0
  {
  }

  lemma NotBit(a: Byte, i: nat)
    requires i < 8
    ensures BitOf(!a, i) == !BitOf(a, i)
  {
  }

  /** 1 << n, kept to one byte. */
  function ByteShift(n: nat): Byte
    requires n <= 8
  {
    match n
    case 0 => 0x01
    case 1 => 0x02
    case 2 => 0x04
    case 3 => 0x08
    case 4 => 0x10
    case 5 => 0x20
    case 6 => 0x40
    case 7 => 0x80
    case _ => 0x00
  }

  /** first_byte_neg_mask: the bits in front of bit `k`. */
  function FirstMask(k: nat): Byte
    requires k < 8
  {
    !(ByteShift(8 - k) - 1)
  }

  /** last_byte_neg_mask: the bits behind bit `k`. */
  function LastMask(k: nat): Byte
    requires k < 8
  {
    ByteShift(7 - k) - 1
  }

  lemma FirstMaskBits(k: nat, i: nat)
    requires k < 8 && i < 8
    ensures BitOf(FirstMask(k), i) == (i < k)
    ensures FirstMask(k) == 0 <==> k == 0
  {
    assert FirstMask(0) == 0 && FirstMask(1) == 0x80 && FirstMask(2) == 0xc0 && FirstMask(3) == 0xe0;
    assert FirstMask(4) == 0xf0 && FirstMask(5) == 0xf8 && FirstMask(6) == 0xfc && FirstMask(7) == 0xfe;
    hide FirstMask;
  }

  lemma LastMaskBits(k: nat, i: nat)
    requires k < 8 && i < 8
    ensures BitOf(LastMask(k), i) == (i > k)
    ensures LastMask(k) == 0 <==> k == 7
  {
    assert LastMask(0) == 0x7f && LastMask(1) == 0x3f && LastMask(2) == 0x1f && LastMask(3) == 0x0f;
    assert LastMask(4) == 0x07 && LastMask(5) == 0x03 && LastMask(6) == 0x01 && LastMask(7) == 0;
    hide LastMask;
  }
}
