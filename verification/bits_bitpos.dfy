/** redisBitpos: the first bit with a given value, found by skipping whole words. */
module Bitpos {
  import opened BitmapBytes

  // ---------------------------------------------------------------- words of eight bytes

  /** Bytes in one word, the first one in the most significant place. */
  function Half(b0: Byte, b1: Byte, b2: Byte, b3: Byte): bv64 {
    ((b0 as bv64) << 24) | ((b1 as bv64) << 16) | ((b2 as bv64) << 8) | (b3 as bv64)
  }

  function Eight(b0: Byte, b1: Byte, b2: Byte, b3: Byte, b4: Byte, b5: Byte, b6: Byte, b7: Byte): bv64 {
    (Half(b0, b1, b2, b3) << 32) | Half(b4, b5, b6, b7)
  }

  /** The word at byte `p`, as the machine reads it: the first byte in the least significant place. */
  function MachineWord(s: seq<Byte>, p: nat): bv64
    requires p + 8 <= |s|
  {
    Eight(s[p + 7], s[p + 6], s[p + 5], s[p + 4], s[p + 3], s[p + 2], s[p + 1], s[p])
  }

  const ULONG_MAX: bv64 := 0xffff_ffff_ffff_ffff

  lemma EightZero(b0: Byte, b1: Byte, b2: Byte, b3: Byte, b4: Byte, b5: Byte, b6: Byte, b7: Byte)
    ensures Eight(b0, b1, b2, b3, b4, b5, b6, b7) == 0 <==>
            b0 == 0 && b1 == 0 && b2 == 0 && b3 == 0 && b4 == 0 && b5 == 0 && b6 == 0 && b7 == 0
  {
  }

  /** The bytes `p` and following, loaded one by one, the first one in the most significant place. */
  function Loaded(s: seq<Byte>, p: nat, j: nat): bv64 {
    if j == 0 then 0 else (Loaded(s, p, j - 1) << 8) | (ByteAt(s, p + j - 1) as bv64)
  }

  /** 1 in place `t`, counted from the left. */
  function WordMask(t: nat): bv64
    requires t <= 64
  {
    if t == 64 then 0 else InByte(Mask(t % 8), t / 8)
  }

  function InByte(m: Byte, q: nat): bv64
    requires q < 8
  {
    match q
    case 0 => (m as bv64) << 56
    case 1 => (m as bv64) << 48
    case 2 => (m as bv64) << 40
    case 3 => (m as bv64) << 32
    case 4 => (m as bv64) << 24
    case 5 => (m as bv64) << 16
    case 6 => (m as bv64) << 8
    case _ => m as bv64
  }

  lemma InByteShift(m: Byte, q: nat)
    requires q < 8
    ensures m & 1 == 0 ==> InByte(m, q) >> 1 == InByte(m >> 1, q)
    ensures q < 7 ==> InByte(0x01, q) >> 1 == InByte(0x80, q + 1)
    ensures InByte(0x01, 7) >> 1 == 0
    ensures m != 0 ==> InByte(m, q) != 0
  {
  }

  lemma WordMaskStep(t: nat)
    requires t < 64
    ensures WordMask(t) != 0 && WordMask(t) >> 1 == WordMask(t + 1)
  {
    InByteShift(Mask(t % 8), t / 8);
    hide Mask, InByte;
    assert t % 8 < 7 ==> (t + 1) % 8 == t % 8 + 1 && (t + 1) / 8 == t / 8;
    assert t % 8 == 7 ==> (t + 1) % 8 == 0 && (t + 1) / 8 == t / 8 + 1;
  }

  lemma LeftmostOne()
    ensures WordMask(0) == !(ULONG_MAX >> 1)
  {
  }

  function ByteOfWord(w: bv64, q: nat): Byte
    requires q < 8
  {
    match q
    case 0 => (w >> 56) as bv8
    case 1 => ((w >> 48) & 0xff) as bv8
    case 2 => ((w >> 40) & 0xff) as bv8
    case 3 => ((w >> 32) & 0xff) as bv8
    case 4 => ((w >> 24) & 0xff) as bv8
    case 5 => ((w >> 16) & 0xff) as bv8
    case 6 => ((w >> 8) & 0xff) as bv8
    case _ => (w & 0xff) as bv8
  }

  predicate Hits(x: bv64, w: bv64) {
    x & w != 0
  }

  predicate HitsByte(m: Byte, b: Byte) {
    m & b != 0
  }

  lemma HitsInLow(m: Byte, w: bv64)
    ensures Hits(InByte(m, 6), w) == HitsByte(m, ByteOfWord(w, 6))
    ensures Hits(InByte(m, 7), w) == HitsByte(m, ByteOfWord(w, 7))
  {
  }

  lemma HitsInSecond(m: Byte, w: bv64)
    ensures Hits(InByte(m, 4), w) == HitsByte(m, ByteOfWord(w, 4))
    ensures Hits(InByte(m, 5), w) == HitsByte(m, ByteOfWord(w, 5))
  {
  }

  lemma HitsInThird(m: Byte, w: bv64)
    ensures Hits(InByte(m, 2), w) == HitsByte(m, ByteOfWord(w, 2))
    ensures Hits(InByte(m, 3), w) == HitsByte(m, ByteOfWord(w, 3))
  {
  }

  lemma HitsInHigh(m: Byte, w: bv64)
    ensures Hits(InByte(m, 0), w) == HitsByte(m, ByteOfWord(w, 0))
    ensures Hits(InByte(m, 1), w) == HitsByte(m, ByteOfWord(w, 1))
  {
  }

  lemma HitsInByte(m: Byte, q: nat, w: bv64)
    requires q < 8
    ensures Hits(InByte(m, q), w) == HitsByte(m, ByteOfWord(w, q))
  {
    hide *;
    HitsInLow(m, w);
    HitsInSecond(m, w);
    HitsInThird(m, w);
    HitsInHigh(m, w);
  }

  lemma BytesOfEight(b0: Byte, b1: Byte, b2: Byte, b3: Byte, b4: Byte, b5: Byte, b6: Byte, b7: Byte)
    ensures var w := Eight(b0, b1, b2, b3, b4, b5, b6, b7);
      ByteOfWord(w, 0) == b0 && ByteOfWord(w, 1) == b1 && ByteOfWord(w, 2) == b2 && ByteOfWord(w, 3) == b3 &&
      ByteOfWord(w, 4) == b4 && ByteOfWord(w, 5) == b5 && ByteOfWord(w, 6) == b6 && ByteOfWord(w, 7) == b7
  {
  }

  function EightAt(s: seq<Byte>, p: nat): bv64 {
    Eight(ByteAt(s, p), ByteAt(s, p + 1), ByteAt(s, p + 2), ByteAt(s, p + 3),
          ByteAt(s, p + 4), ByteAt(s, p + 5), ByteAt(s, p + 6), ByteAt(s, p + 7))
  }

  lemma LoadedStep(s: seq<Byte>, p: nat, j: nat)
    ensures Loaded(s, p, j + 1) == (Loaded(s, p, j) << 8) | (ByteAt(s, p + j) as bv64)
  {
  }

  lemma ShiftIn(w: bv64, b0: Byte, b1: Byte, b2: Byte, b3: Byte)
    ensures (((((((w << 8) | (b0 as bv64)) << 8) | (b1 as bv64)) << 8) | (b2 as bv64)) << 8) | (b3 as bv64) ==
            (w << 32) | Half(b0, b1, b2, b3)
  {
  }

  lemma LoadedFour(s: seq<Byte>, p: nat, j: nat)
    ensures Loaded(s, p, j + 4) == (Loaded(s, p, j) << 32) |
              Half(ByteAt(s, p + j), ByteAt(s, p + j + 1), ByteAt(s, p + j + 2), ByteAt(s, p + j + 3))
  {
    hide *;
    LoadedStep(s, p, j);
    LoadedStep(s, p, j + 1);
    LoadedStep(s, p, j + 2);
    LoadedStep(s, p, j + 3);
    ShiftIn(Loaded(s, p, j), ByteAt(s, p + j), ByteAt(s, p + j + 1), ByteAt(s, p + j + 2), ByteAt(s, p + j + 3));
  }

  lemma LoadedEight(s: seq<Byte>, p: nat)
    ensures Loaded(s, p, 8) == EightAt(s, p)
  {
    assert Loaded(s, p, 0) == 0;
    hide Loaded, Half, ByteAt;
    LoadedFour(s, p, 0);
    LoadedFour(s, p, 4);
  }

  lemma EightBytesAt(s: seq<Byte>, p: nat, q: nat)
    requires q < 8
    ensures ByteOfWord(EightAt(s, p), q) == ByteAt(s, p + q)
  {
    BytesOfEight(ByteAt(s, p), ByteAt(s, p + 1), ByteAt(s, p + 2), ByteAt(s, p + 3),
                 ByteAt(s, p + 4), ByteAt(s, p + 5), ByteAt(s, p + 6), ByteAt(s, p + 7));
    hide ByteOfWord, Eight, ByteAt;
  }

  lemma HitsIsBit(b: Byte, i: nat)
    requires i < 8
    ensures HitsByte(Mask(i), b) == BitOf(b, i)
  {
    hide Mask;
  }

  lemma WordBit(s: seq<Byte>, p: nat, t: nat)
    requires t < 64
    ensures Hits(WordMask(t), Loaded(s, p, 8)) == Padded(s, 8 * p + t)
  {
    hide Mask, InByte, Hits, HitsByte, BitOf, ByteAt, Loaded, EightAt, ByteOfWord;
    LoadedEight(s, p);
    HitsInByte(Mask(t % 8), t / 8, EightAt(s, p));
    EightBytesAt(s, p, t / 8);
    HitsIsBit(ByteAt(s, p + t / 8), t % 8);
    assert (8 * p + t) / 8 == p + t / 8 && (8 * p + t) % 8 == t % 8;
  }

  // ---------------------------------------------------------------- bytes without the wanted bit

  function Skip(bit: bool): Byte {
    if bit then 0 else 0xff
  }

  lemma SkipBits(b: Byte, bit: bool, i: nat)
    requires i < 8 && b == Skip(bit)
    ensures BitOf(b, i) != bit
  {
  }

  lemma OtherByte(b: Byte, bit: bool) returns (i: nat)
    requires b != Skip(bit)
    ensures i < 8 && BitOf(b, i) == bit
  {
    BitMeaning(b);
    hide BitOf;
    i := if BitOf(b, 0) == bit then 0 else if BitOf(b, 1) == bit then 1 else if BitOf(b, 2) == bit then 2
         else if BitOf(b, 3) == bit then 3 else if BitOf(b, 4) == bit then 4 else if BitOf(b, 5) == bit then 5
         else if BitOf(b, 6) == bit then 6 else 7;
  }

  lemma BitMeaning(b: Byte)
    ensures b == 0 <==> !(BitOf(b, 0) || BitOf(b, 1) || BitOf(b, 2) || BitOf(b, 3) ||
                          BitOf(b, 4) || BitOf(b, 5) || BitOf(b, 6) || BitOf(b, 7))
    ensures b == 0xff <==> (BitOf(b, 0) && BitOf(b, 1) && BitOf(b, 2) && BitOf(b, 3) &&
                            BitOf(b, 4) && BitOf(b, 5) && BitOf(b, 6) && BitOf(b, 7))
  {
  }

  ghost predicate NoneIn(s: seq<Byte>, lo: nat, hi: nat, bit: bool) {
    forall n | lo <= n < hi :: Padded(s, n) != bit
  }

  lemma SkipByteAt(s: seq<Byte>, p: nat, bit: bool)
    requires ByteAt(s, p) == Skip(bit) && NoneIn(s, 0, 8 * p, bit)
    ensures NoneIn(s, 0, 8 * (p + 1), bit)
  {
    hide BitOf, ByteAt;
    forall n | 8 * p <= n < 8 * (p + 1)
      ensures Padded(s, n) != bit
    {
      SkipBits(ByteAt(s, p), bit, n % 8);
    }
  }

  lemma MachineWordSkips(s: seq<Byte>, p: nat, bit: bool)
    requires p + 8 <= |s|
    ensures MachineWord(s, p) == (if bit then 0 else ULONG_MAX) <==>
            forall q | p <= q < p + 8 :: s[q] == Skip(bit)
  {
    EightZero(s[p + 7], s[p + 6], s[p + 5], s[p + 4], s[p + 3], s[p + 2], s[p + 1], s[p]);
    hide Eight;
  }

  lemma LoadedZero(s: seq<Byte>, p: nat)
    ensures Loaded(s, p, 8) == 0 <==> forall q | p <= q < p + 8 :: ByteAt(s, q) == 0
  {
    hide Loaded, ByteAt, Eight;
    LoadedEight(s, p);
    EightZero(ByteAt(s, p), ByteAt(s, p + 1), ByteAt(s, p + 2), ByteAt(s, p + 3),
              ByteAt(s, p + 4), ByteAt(s, p + 5), ByteAt(s, p + 6), ByteAt(s, p + 7));
  }

  /** redisBitpos of the bytes of `s`, which start at address `addr`: the string goes on with zero bits
      when a clear bit is sought, and -1 means that no bit is set. */
  ghost predicate FirstBit(s: seq<Byte>, bit: bool, pos: int) {
    if pos == -1 then bit && forall n | 0 <= n < 8 * |s| :: !BitAt(s, n)
    else pos >= 0 && Padded(s, pos) == bit && NoneIn(s, 0, pos, bit)
  }

  lemma {:induction false} SkipBytes(s: seq<Byte>, p: nat, k: nat, bit: bool)
    requires NoneIn(s, 0, 8 * p, bit) && forall q | p <= q < p + k :: ByteAt(s, q) == Skip(bit)
    ensures NoneIn(s, 0, 8 * (p + k), bit)
    decreases k
  {
    hide NoneIn, ByteAt;
    if k > 0 {
      SkipByteAt(s, p, bit);
      SkipBytes(s, p + 1, k - 1, bit);
    }
  }

  lemma NothingSet(s: seq<Byte>, p: nat)
    requires NoneIn(s, 0, 8 * p, true) && forall q | p <= q < p + 8 :: ByteAt(s, q) == 0
    requires p + 8 >= |s|
    ensures forall n | 0 <= n < 8 * |s| :: !BitAt(s, n)
  {
    SkipBytes(s, p, 8, true);
    hide BitOf, BitAt;
    forall n | 0 <= n < 8 * |s|
      ensures !BitAt(s, n)
    {
      PaddedBit(s, n);
    }
  }

  /** A word that holds the wanted bit. */
  lemma BitInWord(s: seq<Byte>, p: nat, q: nat, bit: bool)
    requires p <= q < p + 8 && ByteAt(s, q) != Skip(bit)
    ensures !NoneIn(s, 8 * p, 8 * p + 64, bit)
  {
    hide BitOf, ByteAt, Skip;
    var i := OtherByte(ByteAt(s, q), bit);
    var n := 8 * q + i;
    assert n / 8 == q && n % 8 == i && 8 * p <= n < 8 * p + 64;
    assert Padded(s, n) == bit;
  }

  lemma NoneYet(s: seq<Byte>, p: nat, bit: bool)
    ensures NoneIn(s, p, p, bit)
  {
  }

  lemma OneMore(s: seq<Byte>, lo: nat, hi: nat, bit: bool)
    requires lo <= hi && NoneIn(s, lo, hi, bit) && Padded(s, hi) != bit
    ensures NoneIn(s, lo, hi + 1, bit)
  {
    hide Padded;
  }

  lemma Joined(s: seq<Byte>, lo: nat, mid: nat, hi: nat, bit: bool)
    requires lo <= mid <= hi && NoneIn(s, lo, mid, bit) && NoneIn(s, mid, hi, bit)
    ensures NoneIn(s, lo, hi, bit)
  {
    hide Padded;
  }

  lemma InBytes(s: seq<Byte>)
    ensures forall q | 0 <= q < |s| :: ByteAt(s, q) == s[q]
  {
  }

  /** Skips bytes up to a word boundary, then whole words; `pos` is the position of byte `c`. */
  method SkipWhole(s: seq<Byte>, addr: nat, bit: bool) returns (c: nat, pos: int)
    ensures c <= |s| && pos == 8 * c && NoneIn(s, 0, 8 * c, bit)
    ensures c + 8 <= |s| ==> exists q :: c <= q < c + 8 && ByteAt(s, q) != Skip(bit)
  {
    hide NoneIn, MachineWord, ByteAt;
    InBytes(s);
    var found := false;
    c, pos := 0, 0;
    NoneYet(s, 0, bit);
    while (addr + c) % 8 != 0 && c < |s|
      invariant c <= |s| && pos == 8 * c && !found && NoneIn(s, 0, 8 * c, bit)
      decreases |s| - c
    {
      if s[c] != Skip(bit) {
        found := true;
        break;
      }
      SkipByteAt(s, c, bit);
      c := c + 1;
      pos := pos + 8;
    }
    if !found {
      while |s| - c >= 8
        invariant c <= |s| && pos == 8 * c && NoneIn(s, 0, 8 * c, bit)
        decreases |s| - c
      {
        MachineWordSkips(s, c, bit);
        if MachineWord(s, c) != (if bit then 0 else ULONG_MAX) {
          break;
        }
        SkipBytes(s, c, 8, bit);
        c := c + 8;
        pos := pos + 64;
      }
    }
  }

  /** Loads the next eight bytes, zeros behind the end. */
  method LoadLeft(s: seq<Byte>, c: nat) returns (word: bv64)
    ensures word == Loaded(s, c, 8)
  {
    hide Loaded, ByteAt;
    word := 0;
    LoadedNothing(s, c);
    for j := 0 to 8
      invariant word == Loaded(s, c, j)
    {
      LoadedStep(s, c, j);
      word := (word << 8) | (ByteAt(s, c + j) as bv64);
    }
  }

  /** Looks at one bit after the other. */
  method ScanWord(s: seq<Byte>, c: nat, word: bv64, bit: bool) returns (pos: nat)
    requires word == Loaded(s, c, 8) && !NoneIn(s, 8 * c, 8 * c + 64, bit)
    ensures 8 * c <= pos && Padded(s, pos) == bit && NoneIn(s, 8 * c, pos, bit)
  {
    hide NoneIn, Loaded, WordMask, BitAt, Padded, ByteAt, Hits;
    pos := 8 * c;
    var one := !(ULONG_MAX >> 1);
    LeftmostOne();
    ghost var t: nat := 0;
    NoneYet(s, 8 * c, bit);
    while one != 0
      invariant t <= 64 && one == WordMask(t) && pos == 8 * c + t && NoneIn(s, 8 * c, pos, bit)
      decreases 64 - t
    {
      MaskEnds(t);
      WordBit(s, c, t);
      if Hits(one, word) == bit {
        return;
      }
      OneMore(s, 8 * c, pos, bit);
      WordMaskStep(t);
      one := one >> 1;
      pos := pos + 1;
      t := t + 1;
    }
    MaskEnds(t);
    assert false;
  }

  method RedisBitpos(s: seq<Byte>, addr: nat, bit: bool) returns (pos: int)
    ensures FirstBit(s, bit, pos)
  {
    hide NoneIn, Loaded, BitAt, Padded;
    var c: nat;
    c, pos := SkipWhole(s, addr, bit);
    var word := LoadLeft(s, c);
    if bit && word == 0 {
      LoadedZero(s, c);
      NothingSet(s, c);
      return -1;
    }
    LastWordHolds(s, c, bit);
    pos := ScanWord(s, c, word, bit);
    Joined(s, 0, 8 * c, pos, bit);
  }

  lemma LastWordHolds(s: seq<Byte>, c: nat, bit: bool)
    requires c <= |s| && (bit ==> Loaded(s, c, 8) != 0)
    requires c + 8 <= |s| ==> exists q :: c <= q < c + 8 && ByteAt(s, q) != Skip(bit)
    ensures !NoneIn(s, 8 * c, 8 * c + 64, bit)
  {
    LoadedZero(s, c);
    hide NoneIn, Loaded;
    var q: nat :| c <= q < c + 8 && ByteAt(s, q) != Skip(bit) by {
      if !bit && c + 8 > |s| {
        assert ByteAt(s, |s|) != Skip(bit);
      }
    }
    BitInWord(s, c, q, bit);
  }

  lemma LoadedNothing(s: seq<Byte>, p: nat)
    ensures Loaded(s, p, 0) == 0
  {
  }

  lemma MaskEnds(t: nat)
    requires t <= 64
    ensures WordMask(t) == 0 <==> t == 64
  {
    if t < 64 {
      WordMaskStep(t);
    }
  }
}
