/** Integers of up to 64 bits at any bit offset of a bitmap. */
module Bitfield {
  import opened BitmapBytes

  function Pow2(n: nat): (p: nat)
    ensures p > 0
  {
    if n == 0 then 1 else 2 * Pow2(n - 1)
  }

  /** Bit `k` of a value, the least significant one being bit 0. */
  predicate ValueBit(value: nat, k: nat) {
    ShiftedRight(value, k) % 2 == 1
  }

  /** value >> k. */
  function ShiftedRight(value: nat, k: nat): nat {
    if k == 0 then value else ShiftedRight(value, k - 1) / 2
  }

  /** The `k` low bits of a value. */
  function Low(value: nat, k: nat): nat {
    value % Pow2(k)
  }

  /** The unsigned integer in `bits` bits from `offset` on, most significant bit first; behind its end the
      string goes on with zeros. */
  function Field(s: seq<Byte>, offset: nat, bits: nat): (v: nat)
    ensures v < Pow2(bits)
  {
    if bits == 0 then 0 else 2 * Field(s, offset, bits - 1) + One(Padded(s, offset + bits - 1))
  }

  /** Two's complement. */
  function AsSigned(v: nat, bits: nat): int
    requires bits > 0
  {
    if v >= Pow2(bits - 1) then v - Pow2(bits) else v
  }

  // ---------------------------------------------------------------- reading

  lemma PowersGrow(a: nat, b: nat)
    requires a <= b
    ensures Pow2(a) <= Pow2(b)
  {
  }

  lemma Pow64()
    ensures Pow2(64) == 0x1_0000_0000_0000_0000 && Pow2(63) == 0x8000_0000_0000_0000
  {
    assert Pow2(7) == 0x80;
    assert Pow2(64) == 2 * Pow2(63);
    PowerSum(7, 7);
    PowerSum(14, 14);
    PowerSum(28, 28);
    PowerSum(56, 7);
    hide Pow2;
  }

  lemma {:induction false} PowerSum(a: nat, b: nat)
    ensures Pow2(a + b) == Pow2(a) * Pow2(b)
    decreases b
  {
    if b > 0 {
      PowerSum(a, b - 1);
      assert Pow2(a + b) == 2 * Pow2(a + (b - 1));
      assert Pow2(a) * Pow2(b) == 2 * (Pow2(a) * Pow2(b - 1));
    }
  }

  lemma NoField(p: seq<Byte>, offset: nat)
    ensures Field(p, offset, 0) == 0
  {
  }

  lemma NextBit(p: seq<Byte>, offset: nat, j: nat)
    requires offset + j < 8 * |p|
    ensures Field(p, offset, j + 1) ==
            2 * Field(p, offset, j) + if BitOf(p[(offset + j) / 8], (offset + j) % 8) then 1 else 0
    ensures 2 * Field(p, offset, j) < Pow2(j + 1)
  {
    hide BitOf;
  }

  /** getUnsignedBitfield: shifting left never loses a bit, as the value has at most 64 of them. */
  method GetUnsignedBitfield(p: seq<Byte>, offset0: nat, bits: nat) returns (value: nat)
    requires offset0 + bits <= 8 * |p| && bits <= 64
    ensures value == Field(p, offset0, bits)
  {
    hide *;
    var offset := offset0;
    value := 0;
    NoField(p, offset);
    for j := 0 to bits
      invariant offset == offset0 + j && value == Field(p, offset0, j)
    {
      PowersGrow(j + 1, 64);
      Pow64();
      NextBit(p, offset0, j);
      var bitval := if BitOf(p[offset / 8], offset % 8) then 1 else 0;
      value := (2 * value) % 0x1_0000_0000_0000_0000 + bitval;
      offset := offset + 1;
    }
  }

  function Reinterpreted(u: nat): int {
    if u >= 0x8000_0000_0000_0000 then u - 0x1_0000_0000_0000_0000 else u
  }

  /** getSignedBitfield: the union reinterprets the 64 bits, then the top bit of the field is propagated. */
  method GetSignedBitfield(p: seq<Byte>, offset: nat, bits: nat) returns (value: int)
    requires offset + bits <= 8 * |p| && 0 < bits <= 64
    ensures value == AsSigned(Field(p, offset, bits), bits)
  {
    var u := GetUnsignedBitfield(p, offset, bits);
    Propagated(u, bits);
    hide *;
    value := Reinterpreted(u);
    if bits < 64 && ValueBit(u, bits - 1) {
      value := value - Pow2(bits);
    }
  }

  lemma Propagated(u: nat, bits: nat)
    requires 0 < bits <= 64 && u < Pow2(bits)
    ensures AsSigned(u, bits) == Reinterpreted(u) - if bits < 64 && ValueBit(u, bits - 1) then Pow2(bits) else 0
  {
    TopBit(u, bits);
    Pow64();
    if bits < 64 {
      PowersGrow(bits, 63);
    }
    hide Pow2, ValueBit;
  }

  lemma TopBit(u: nat, bits: nat)
    requires 0 < bits && u < Pow2(bits)
    ensures ValueBit(u, bits - 1) <==> u >= Pow2(bits - 1)
  {
    ShiftIsDivision(u, bits - 1);
    var p := Pow2(bits - 1);
    assert u < 2 * p;
    if u >= p {
      assert u / p == 1 by { DivideOnce(u, p, 1); }
    } else {
      assert u / p == 0 by { DivideOnce(u, p, 0); }
    }
  }

  lemma Multiples(a: nat, b: nat, p: nat)
    requires a <= b
    ensures a * p <= b * p
  {
  }

  lemma DivideOnce(u: nat, p: nat, q: nat)
    requires p > 0 && q * p <= u < (q + 1) * p
    ensures u / p == q
  {
    var d, m := u / p, u % p;
    assert u == d * p + m && 0 <= m < p;
    if d < q {
      Multiples(d + 1, q, p);
    } else if d > q {
      Multiples(q + 1, d, p);
    }
  }

  // ---------------------------------------------------------------- writing

  /** One bit of a byte, as in `byteval &= ~(1 << bit); byteval |= bitval << bit`. */
  function PutBit(b: Byte, i: nat, bit: bool): Byte
    requires i < 8
  {
    PutMask(b, Mask(i), bit)
  }

  function PutMask(b: Byte, m: Byte, bit: bool): Byte {
    if bit then (b & !m) | m else b & !m
  }

  lemma PutBitBits(b: Byte, i: nat, bit: bool, k: nat)
    requires i < 8 && k < 8
    ensures BitOf(PutBit(b, i, bit), k) == if k == i then bit else BitOf(b, k)
  {
    MasksApart(i, k);
    hide Mask, PutMask;
  }

  lemma MasksApart(i: nat, k: nat)
    requires i < 8 && k < 8
    ensures Mask(i) != 0 && (i != k ==> Mask(i) & Mask(k) == 0)
  {
  }

  /** `now` is `was` with the `bits` low bits of `value` at `offset`; every other bit is as it was. */
  ghost predicate Stored(was: seq<Byte>, now: seq<Byte>, offset: nat, bits: nat, value: nat) {
    && |now| == |was| && offset + bits <= 8 * |was|
    && forall n | 0 <= n < 8 * |was| ::
         BitAt(now, n) == if offset <= n < offset + bits then ValueBit(value, bits - 1 - (n - offset)) else BitAt(was, n)
  }

  /** The first `j` bits have been written. */
  ghost predicate StoredSoFar(was: seq<Byte>, now: seq<Byte>, offset: nat, bits: nat, value: nat, j: nat) {
    && j <= bits && |now| == |was| && offset + bits <= 8 * |was|
    && forall n | 0 <= n < 8 * |was| ::
         BitAt(now, n) == if offset <= n < offset + j then ValueBit(value, bits - 1 - (n - offset)) else BitAt(was, n)
  }

  lemma StoreBit(was: seq<Byte>, now: seq<Byte>, next: seq<Byte>, offset: nat, bits: nat, value: nat, j: nat)
    requires StoredSoFar(was, now, offset, bits, value, j) && j < bits
    requires var byte, i := (offset + j) / 8, (offset + j) % 8;
      next == now[byte := PutBit(now[byte], i, ValueBit(value, bits - 1 - j))]
    ensures StoredSoFar(was, next, offset, bits, value, j + 1)
  {
    hide BitOf, PutBit, ValueBit;
    var byte, i := (offset + j) / 8, (offset + j) % 8;
    forall n | 0 <= n < 8 * |was|
      ensures BitAt(next, n) == if n == offset + j then ValueBit(value, bits - 1 - j) else BitAt(now, n)
    {
      PutBitBits(now[byte], i, ValueBit(value, bits - 1 - j), n % 8);
    }
    hide BitAt;
  }

  /** setUnsignedBitfield. */
  method SetUnsignedBitfield(p: array<Byte>, offset0: nat, bits: nat, value: nat)
    requires offset0 + bits <= 8 * p.Length
    modifies p
    ensures Stored(old(p[..]), p[..], offset0, bits, value)
  {
    hide BitAt, PutBit, ValueBit;
    ghost var was := p[..];
    var offset := offset0;
    for j := 0 to bits
      invariant offset == offset0 + j && StoredSoFar(was, p[..], offset0, bits, value, j)
    {
      ghost var now := p[..];
      var byte, i := offset / 8, offset % 8;
      p[byte] := PutBit(p[byte], i, ValueBit(value, bits - 1 - j));
      assert p[..] == now[byte := p[byte]];
      StoreBit(was, now, p[..], offset0, bits, value, j);
      offset := offset + 1;
    }
  }

  /** setSignedBitfield: the cast to an unsigned integer is modulo 2^64. */
  method SetSignedBitfield(p: array<Byte>, offset: nat, bits: nat, value: int)
    requires offset + bits <= 8 * p.Length
    modifies p
    ensures Stored(old(p[..]), p[..], offset, bits, value % 0x1_0000_0000_0000_0000)
  {
    SetUnsignedBitfield(p, offset, bits, value % 0x1_0000_0000_0000_0000);
  }

  // ---------------------------------------------------------------- what was stored is read back

  lemma {:induction false} ShiftIsDivision(v: nat, k: nat)
    ensures ShiftedRight(v, k) == v / Pow2(k)
    decreases k
  {
    if k == 0 {
      assert Pow2(0) == 1;
    } else {
      ShiftIsDivision(v, k - 1);
      Halved(v, Pow2(k - 1), v / Pow2(k - 1), v % Pow2(k - 1));
    }
  }

  lemma Halved(v: nat, p: nat, q: nat, r: nat)
    requires p > 0 && q == v / p && r == v % p
    ensures v / (2 * p) == q / 2
  {
    Parts(v, p);
    Spread(q / 2, q % 2, p);
    DivideOnce(v, 2 * p, q / 2);
  }

  lemma Parts(v: nat, p: nat)
    requires p > 0
    ensures v == (v / p) * p + v % p && v % p < p
  {
  }

  lemma Spread(h: nat, b: nat, p: nat)
    requires b < 2
    ensures (2 * h + b) * p == h * (2 * p) + b * p && b * p <= p
    ensures (h + 1) * (2 * p) == h * (2 * p) + 2 * p
  {
  }

  lemma LowBits(w: nat, k: nat)
    ensures Low(w, k + 1) == 2 * Low(w / 2, k) + w % 2
  {
    var p := Pow2(k);
    assert Pow2(k + 1) == 2 * p;
    hide Pow2;
    var h, b := w / 2, w % 2;
    Parts(h, p);
    var q, r := h / p, h % p;
    Spread(q, 0, p);
    Remainder(w, 2 * p, q, 2 * r + b);
  }

  lemma Remainder(w: nat, p: nat, q: nat, r: nat)
    requires p > 0 && r < p && w == q * p + r
    ensures w % p == r
  {
    Spread(q, 1, p);
    DivideOnce(w, p, q);
    Parts(w, p);
  }

  /** The bits of `value` from `offset` on, most significant bit first. */
  ghost predicate Holds(s: seq<Byte>, offset: nat, bits: nat, value: nat) {
    forall n | offset <= n < offset + bits :: Padded(s, n) == ValueBit(value, bits - 1 - (n - offset))
  }

  /** Reading the first `j` of the bits that hold `value`. */
  lemma {:induction false} ReadHeld(s: seq<Byte>, offset: nat, bits: nat, value: nat, j: nat)
    requires j <= bits && Holds(s, offset, bits, value)
    ensures Field(s, offset, j) == Low(ShiftedRight(value, bits - j), j)
    decreases j
  {
    if j == 0 {
      assert Pow2(0) == 1 && Low(ShiftedRight(value, bits), 0) == 0;
    } else {
      hide *;
      ReadHeld(s, offset, bits, value, j - 1);
      HeldStep(s, offset, bits, value, j - 1);
    }
  }

  lemma HeldStep(s: seq<Byte>, offset: nat, bits: nat, value: nat, j: nat)
    requires j < bits && Holds(s, offset, bits, value)
    requires Field(s, offset, j) == Low(ShiftedRight(value, bits - j), j)
    ensures Field(s, offset, j + 1) == Low(ShiftedRight(value, bits - (j + 1)), j + 1)
  {
    HeldBit(s, offset, bits, value, j);
    hide *;
    LowBits(ShiftedRight(value, bits - 1 - j), j);
  }

  lemma HeldBit(s: seq<Byte>, offset: nat, bits: nat, value: nat, i: nat)
    requires i < bits && Holds(s, offset, bits, value)
    ensures One(Padded(s, offset + i)) == ShiftedRight(value, bits - 1 - i) % 2
  {
    hide Padded, ShiftedRight;
    var n := offset + i;
    assert Padded(s, n) == ValueBit(value, bits - 1 - (n - offset));
  }

  lemma StoredHolds(was: seq<Byte>, now: seq<Byte>, offset: nat, bits: nat, value: nat)
    requires Stored(was, now, offset, bits, value)
    ensures Holds(now, offset, bits, value)
  {
    hide BitAt, Padded, ValueBit;
    forall n | offset <= n < offset + bits
      ensures Padded(now, n) == ValueBit(value, bits - 1 - (n - offset))
    {
      PaddedBit(now, n);
    }
  }

  /** Reading a field after storing a value gives the value modulo 2^bits. */
  lemma StoreThenLoad(was: seq<Byte>, now: seq<Byte>, offset: nat, bits: nat, value: nat)
    requires Stored(was, now, offset, bits, value)
    ensures Field(now, offset, bits) == value % Pow2(bits)
  {
    StoredHolds(was, now, offset, bits, value);
    hide Holds, Stored;
    ReadHeld(now, offset, bits, value, bits);
    assert ShiftedRight(value, 0) == value by { assert Pow2(0) == 1; }
  }

  /** A field that does not overlap the stored one reads as before. */
  lemma {:induction false} StoreElsewhere(was: seq<Byte>, now: seq<Byte>, offset: nat, bits: nat, value: nat,
      other: nat, width: nat)
    requires Stored(was, now, offset, bits, value) && (other + width <= offset || offset + bits <= other)
    ensures Field(now, other, width) == Field(was, other, width)
    decreases width
  {
    hide BitAt, Padded, ValueBit;
    if width > 0 {
      StoreElsewhere(was, now, offset, bits, value, other, width - 1);
      PaddedBit(was, other + width - 1);
      PaddedBit(now, other + width - 1);
    }
  }

  /** The same bits at two places. */
  ghost predicate SameBitsAt(s: seq<Byte>, t: seq<Byte>, offset: nat, at: nat, bits: nat) {
    forall n | offset <= n < offset + bits :: Padded(s, n) == Padded(t, at + (n - offset))
  }

  lemma {:induction false} SameField(s: seq<Byte>, t: seq<Byte>, offset: nat, at: nat, bits: nat)
    requires SameBitsAt(s, t, offset, at, bits)
    ensures Field(s, offset, bits) == Field(t, at, bits)
    decreases bits
  {
    hide Padded;
    if bits > 0 {
      SameField(s, t, offset, at, bits - 1);
      var n := offset + bits - 1;
      assert Padded(s, n) == Padded(t, at + (n - offset));
    }
  }

  /** GET copies up to nine bytes to a buffer of zeros and reads there. */
  method CopyNine(s: seq<Byte>, byte: nat) returns (buf: seq<Byte>)
    ensures |buf| == 9 && forall i | 0 <= i < 9 :: buf[i] == ByteAt(s, byte + i)
  {
    var copy := new Byte[9](_ => 0);
    var i := 0;
    while i < 9
      invariant i <= 9
      invariant forall k | 0 <= k < i :: copy[k] == ByteAt(s, byte + k)
      invariant forall k | i <= k < 9 :: copy[k] == 0
    {
      if byte + i >= |s| {
        break;
      }
      copy[i] := s[byte + i];
      i := i + 1;
    }
    buf := copy[..];
  }

  lemma NineBytesSuffice(s: seq<Byte>, buf: seq<Byte>, offset: nat, bits: nat)
    requires |buf| == 9 && forall i | 0 <= i < 9 :: buf[i] == ByteAt(s, offset / 8 + i)
    requires bits <= 64
    ensures Field(buf, offset - 8 * (offset / 8), bits) == Field(s, offset, bits)
  {
    hide BitOf, Field;
    var at, byte := offset - 8 * (offset / 8), offset / 8;
    forall n | offset <= n < offset + bits
      ensures Padded(s, n) == Padded(buf, at + (n - offset))
    {
      var m := at + (n - offset);
      assert n == 8 * byte + m && n / 8 == byte + m / 8 && n % 8 == m % 8 && m / 8 < 9;
    }
    SameField(s, buf, offset, at, bits);
  }

  /** GET: the field of the string that goes on with zeros, although only nine bytes are copied. */
  method GetField(s: seq<Byte>, offset: nat, bits: nat, signed: bool) returns (value: int)
    requires 0 < bits <= 64
    ensures value == if signed then AsSigned(Field(s, offset, bits), bits) else Field(s, offset, bits)
  {
    hide Field, AsSigned;
    var byte := offset / 8;
    var buf := CopyNine(s, byte);
    NineBytesSuffice(s, buf, offset, bits);
    if signed {
      value := GetSignedBitfield(buf, offset - 8 * byte, bits);
    } else {
      value := GetUnsignedBitfield(buf, offset - 8 * byte, bits);
    }
  }

  /** lookupStringForBitCommand: zero bytes are added up to the highest bit that is written. */
  function Grown(s: seq<Byte>, highest: nat): (r: seq<Byte>)
    ensures s <= r && 8 * |r| > highest
  {
    if highest / 8 < |s| then s else s + seq(highest / 8 + 1 - |s|, _ => 0)
  }

  lemma GrownReads(s: seq<Byte>, highest: nat, offset: nat, bits: nat)
    ensures Field(Grown(s, highest), offset, bits) == Field(s, offset, bits)
  {
    hide BitOf;
    assert forall j: nat :: ByteAt(Grown(s, highest), j) == ByteAt(s, j);
    hide Grown;
    SameField(Grown(s, highest), s, offset, offset, bits);
  }
}
