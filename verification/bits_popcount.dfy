/** redisPopcount without the POPCNT instruction: 28 bytes at a time in 32-bit words. */
module Popcount {
  import opened BitmapBytes

  /** A word in memory, least significant byte first. */
  function Word(b0: Byte, b1: Byte, b2: Byte, b3: Byte): bv32 {
    (b0 as bv32) | ((b1 as bv32) << 8) | ((b2 as bv32) << 16) | ((b3 as bv32) << 24)
  }

  function Load(s: seq<Byte>, p: nat): bv32
    requires p + 4 <= |s|
  {
    Word(s[p], s[p + 1], s[p + 2], s[p + 3])
  }

  /** The four byte lanes of a word. */
  function Lane0(w: bv32): Byte { (w & 0xff) as bv8 }
  function Lane1(w: bv32): Byte { ((w >> 8) & 0xff) as bv8 }
  function Lane2(w: bv32): Byte { ((w >> 16) & 0xff) as bv8 }
  function Lane3(w: bv32): Byte { (w >> 24) as bv8 }

  function AsInt(x: Byte): nat {
    x as int
  }

  function LaneSum(w: bv32): nat {
    AsInt(Lane0(w)) + AsInt(Lane1(w)) + AsInt(Lane2(w)) + AsInt(Lane3(w))
  }

  predicate LanesUpTo(w: bv32, m: nat) {
    AsInt(Lane0(w)) <= m && AsInt(Lane1(w)) <= m && AsInt(Lane2(w)) <= m && AsInt(Lane3(w)) <= m
  }

  function Sum(x: Byte, y: Byte): Byte {
    x + y
  }

  function Add(x: bv32, y: bv32): bv32 {
    x + y
  }

  lemma WordLanes(b0: Byte, b1: Byte, b2: Byte, b3: Byte)
    ensures var w := Word(b0, b1, b2, b3);
      Lane0(w) == b0 && Lane1(w) == b1 && Lane2(w) == b2 && Lane3(w) == b3
  {
  }

  /** Each lane of the result counts the bits of its own byte. */
  function Fold(x: bv32): bv32 {
    var pairs := x - ((x >> 1) & 0x55555555);
    var nibbles := (pairs & 0x33333333) + ((pairs >> 2) & 0x33333333);
    (nibbles + (nibbles >> 4)) & 0x0F0F0F0F
  }

  function Tally(b: Byte): Byte {
    ((b >> 7) & 1) + ((b >> 6) & 1) + ((b >> 5) & 1) + ((b >> 4) & 1) +
    ((b >> 3) & 1) + ((b >> 2) & 1) + ((b >> 1) & 1) + (b & 1)
  }

  lemma TallyIsOnes(b: Byte)
    ensures AsInt(Tally(b)) == Ones(b) <= 8
  {
  }

  lemma FoldLow(x: bv32)
    ensures Lane0(Fold(x)) == Tally(Lane0(x)) && Lane1(Fold(x)) == Tally(Lane1(x))
  {
  }

  lemma FoldHigh(x: bv32)
    ensures Lane2(Fold(x)) == Tally(Lane2(x)) && Lane3(Fold(x)) == Tally(Lane3(x))
  {
  }

  lemma FoldCounts(b0: Byte, b1: Byte, b2: Byte, b3: Byte)
    ensures var f := Fold(Word(b0, b1, b2, b3));
      LanesUpTo(f, 8) && LaneSum(f) == Ones(b0) + Ones(b1) + Ones(b2) + Ones(b3)
  {
    var w := Word(b0, b1, b2, b3);
    WordLanes(b0, b1, b2, b3);
    FoldLow(w);
    FoldHigh(w);
    TallyIsOnes(b0);
    TallyIsOnes(b1);
    TallyIsOnes(b2);
    TallyIsOnes(b3);
    hide Fold, Tally, Word, Lane0, Lane1, Lane2, Lane3, Ones;
  }

  lemma NextByte(x: Byte)
    requires x < 0xff
    ensures (x + 1) as int == x as int + 1
  {
  }

  lemma NoCarry(x: Byte, y: Byte, less: Byte, sum: Byte)
    requires x <= 112 && 0 < y <= 112 && less == y - 1 && sum == x + less
    ensures x + y == sum + 1 && sum < 0xff && less + 1 == y && less < 112
  {
  }

  lemma {:induction false} AddBytes(x: Byte, y: Byte, n: nat)
    requires x <= 112 && y <= 112 && n == AsInt(y)
    ensures AsInt(x + y) == AsInt(x) + AsInt(y)
    decreases n
  {
    if y == 0 {
      assert x + y == x && AsInt(y) == 0;
    } else {
      var less, sum := y - 1, x + (y - 1);
      NoCarry(x, y, less, sum);
      NextByte(less);
      NextByte(sum);
      assert AsInt(sum + 1) == AsInt(sum) + 1;
      assert AsInt(less + 1) == AsInt(less) + 1;
      hide AsInt;
      AddBytes(x, less, n - 1);
    }
  }

  lemma Lane0Add(x: bv32, y: bv32)
    requires Lane0(x) <= 48 && Lane0(y) <= 8
    ensures Lane0(Add(x, y)) == Sum(Lane0(x), Lane0(y))
  {
  }

  lemma Lane1Add(x: bv32, y: bv32)
    requires Lane0(x) <= 48 && Lane0(y) <= 8 && Lane1(x) <= 48 && Lane1(y) <= 8
    ensures Lane1(Add(x, y)) == Sum(Lane1(x), Lane1(y))
  {
  }

  lemma Lane2Add(x: bv32, y: bv32)
    requires Lane0(x) <= 48 && Lane0(y) <= 8 && Lane1(x) <= 48 && Lane1(y) <= 8
    requires Lane2(x) <= 48 && Lane2(y) <= 8
    ensures Lane2(Add(x, y)) == Sum(Lane2(x), Lane2(y))
  {
  }

  lemma Lane3Add(x: bv32, y: bv32)
    requires Lane0(x) <= 48 && Lane0(y) <= 8 && Lane1(x) <= 48 && Lane1(y) <= 8
    requires Lane2(x) <= 48 && Lane2(y) <= 8 && Lane3(x) <= 48 && Lane3(y) <= 8
    ensures Lane3(Add(x, y)) == Sum(Lane3(x), Lane3(y))
  {
  }

  lemma Small(x: Byte)
    ensures AsInt(x) <= 8 ==> x <= 8
    ensures AsInt(x) <= 48 ==> x <= 48
    ensures AsInt(x) <= 56 ==> x <= 56
    ensures AsInt(x) <= 112 ==> x <= 112
  {
  }

  lemma AddLane(x: Byte, y: Byte)
    requires AsInt(x) <= 112 && AsInt(y) <= 112
    ensures AsInt(Sum(x, y)) == AsInt(x) + AsInt(y)
  {
    Small(x);
    Small(y);
    hide AsInt;
    AddBytes(x, y, AsInt(y));
  }

  lemma SmallLanes(w: bv32)
    ensures LanesUpTo(w, 8) ==> Lane0(w) <= 8 && Lane1(w) <= 8 && Lane2(w) <= 8 && Lane3(w) <= 8
    ensures LanesUpTo(w, 48) ==> Lane0(w) <= 48 && Lane1(w) <= 48 && Lane2(w) <= 48 && Lane3(w) <= 48
    ensures LanesUpTo(w, 56) ==> Lane0(w) <= 56 && Lane1(w) <= 56 && Lane2(w) <= 56 && Lane3(w) <= 56
  {
    hide Lane0, Lane1, Lane2, Lane3, AsInt;
    Small(Lane0(w));
    Small(Lane1(w));
    Small(Lane2(w));
    Small(Lane3(w));
  }

  lemma LanesAdd(x: bv32, y: bv32)
    requires LanesUpTo(x, 48) && LanesUpTo(y, 8)
    ensures Lane0(Add(x, y)) == Sum(Lane0(x), Lane0(y)) && Lane1(Add(x, y)) == Sum(Lane1(x), Lane1(y))
    ensures Lane2(Add(x, y)) == Sum(Lane2(x), Lane2(y)) && Lane3(Add(x, y)) == Sum(Lane3(x), Lane3(y))
  {
    hide Lane0, Lane1, Lane2, Lane3;
    SmallLanes(x);
    SmallLanes(y);
    hide LanesUpTo, AsInt;
    Lane0Add(x, y);
    Lane1Add(x, y);
    Lane2Add(x, y);
    Lane3Add(x, y);
  }

  lemma AddFolds(x: bv32, y: bv32, m: nat)
    requires LanesUpTo(x, m) && m <= 48 && LanesUpTo(y, 8)
    ensures LaneSum(Add(x, y)) == LaneSum(x) + LaneSum(y) && LanesUpTo(Add(x, y), m + 8)
  {
    hide Lane0, Lane1, Lane2, Lane3, AsInt, Add, Sum;
    LanesAdd(x, y);
    AddLane(Lane0(x), Lane0(y));
    AddLane(Lane1(x), Lane1(y));
    AddLane(Lane2(x), Lane2(y));
    AddLane(Lane3(x), Lane3(y));
  }

  /** The multiplication is the sum of `s` and `s << 8`, added to itself shifted by two bytes. */
  function Twice(s: bv32): bv32 {
    s + (s << 8)
  }

  function Twice16(t: bv32): bv32 {
    t + (t << 16)
  }

  function Spread(s: bv32): bv32 {
    s * 0x01010101
  }

  lemma FirstAdd(s: bv32)
    requires Lane0(s) <= 56 && Lane1(s) <= 56 && Lane2(s) <= 56 && Lane3(s) <= 56
    ensures Lane3(Twice(s)) == Sum(Lane3(s), Lane2(s)) && Lane1(Twice(s)) == Sum(Lane1(s), Lane0(s))
    ensures Lane0(Twice(s)) <= 56 && Lane2(Twice(s)) <= 112 && Lane1(Twice(s)) <= 112 && Lane3(Twice(s)) <= 112
  {
  }

  lemma SecondAdd(t: bv32)
    requires Lane0(t) <= 56 && Lane1(t) <= 112 && Lane2(t) <= 112 && Lane3(t) <= 112
    ensures Lane3(Twice16(t)) == Sum(Lane3(t), Lane1(t))
  {
  }

  lemma SpreadRaw(s: bv32)
    ensures Spread(s) == (s + (s << 8)) + ((s + (s << 8)) << 16)
  {
  }

  lemma TwiceRaw(s: bv32)
    ensures Twice16(s + (s << 8)) == (s + (s << 8)) + ((s + (s << 8)) << 16)
  {
  }

  lemma SpreadFirst(s: bv32)
    ensures Spread(s) == Twice16(s + (s << 8))
  {
    hide *;
    SpreadRaw(s);
    TwiceRaw(s);
  }

  lemma SpreadIsTwice(s: bv32)
    ensures Spread(s) == Twice16(Twice(s))
  {
    SpreadFirst(s);
    assert Twice(s) == s + (s << 8);
    hide *;
  }

  function Top(w: bv32): nat {
    (w >> 24) as int
  }

  lemma TopLane(w: bv32)
    ensures Top(w) == AsInt(Lane3(w))
  {
  }

  lemma TopOfSpread(s: bv32)
    requires LanesUpTo(s, 56)
    ensures Lane3(Spread(s)) == Sum(Lane3(Twice(s)), Lane1(Twice(s)))
    ensures Lane3(Twice(s)) == Sum(Lane3(s), Lane2(s)) && Lane1(Twice(s)) == Sum(Lane1(s), Lane0(s))
  {
    hide Lane0, Lane1, Lane2, Lane3, Twice, Twice16, Spread;
    SpreadIsTwice(s);
    SmallLanes(s);
    hide LanesUpTo, AsInt;
    FirstAdd(s);
    SecondAdd(Twice(s));
  }

  /** Lanes of at most 56 add up to at most 224, so the multiplication never carries into the top byte. */
  lemma MultiplyAddsLanes(s: bv32)
    requires LanesUpTo(s, 56)
    ensures Top(Spread(s)) == LaneSum(s) <= 224
  {
    hide Lane0, Lane1, Lane2, Lane3, Twice, Twice16, Spread;
    hide AsInt, Top, Sum;
    TopLane(Spread(s));
    TopOfSpread(s);
    AddLane(Lane3(s), Lane2(s));
    AddLane(Lane1(s), Lane0(s));
    AddLane(Lane3(Twice(s)), Lane1(Twice(s)));
  }

  function OnesOf(s: seq<Byte>, p: nat): nat
    requires p + 4 <= |s|
  {
    Ones(s[p]) + Ones(s[p + 1]) + Ones(s[p + 2]) + Ones(s[p + 3])
  }

  lemma CountWord(s: seq<Byte>, p: nat)
    requires p + 4 <= |s|
    ensures CountBits(s, 0, 8 * (p + 4)) == CountBits(s, 0, 8 * p) + OnesOf(s, p)
  {
    CountNextByte(s, 0, p);
    CountNextByte(s, 0, p + 1);
    CountNextByte(s, 0, p + 2);
    CountNextByte(s, 0, p + 3);
    hide CountBits, Ones;
  }

  lemma CountSevenWords(s: seq<Byte>, p: nat)
    requires p + 28 <= |s|
    ensures CountBits(s, 0, 8 * (p + 28)) == CountBits(s, 0, 8 * p) +
            OnesOf(s, p) + OnesOf(s, p + 4) + OnesOf(s, p + 8) + OnesOf(s, p + 12) +
            OnesOf(s, p + 16) + OnesOf(s, p + 20) + OnesOf(s, p + 24)
  {
    CountWord(s, p);
    CountWord(s, p + 4);
    CountWord(s, p + 8);
    CountWord(s, p + 12);
    CountWord(s, p + 16);
    CountWord(s, p + 20);
    CountWord(s, p + 24);
    hide CountBits, OnesOf;
  }

  lemma FoldAt(s: seq<Byte>, p: nat)
    requires p + 4 <= |s|
    ensures LanesUpTo(Fold(Load(s, p)), 8) && LaneSum(Fold(Load(s, p))) == OnesOf(s, p)
  {
    hide Fold, LanesUpTo, LaneSum, Ones, Word;
    FoldCounts(s[p], s[p + 1], s[p + 2], s[p + 3]);
  }

  /** Seven words at a time. */
  method CountBlock(s: seq<Byte>, p: nat) returns (bits: nat)
    requires p + 28 <= |s|
    ensures CountBits(s, 0, 8 * (p + 28)) == CountBits(s, 0, 8 * p) + bits
  {
    hide *;
    CountSevenWords(s, p);
    var aux1, aux2, aux3, aux4 := Load(s, p), Load(s, p + 4), Load(s, p + 8), Load(s, p + 12);
    var aux5, aux6, aux7 := Load(s, p + 16), Load(s, p + 20), Load(s, p + 24);
    aux1 := Fold(aux1);
    aux2 := Fold(aux2);
    aux3 := Fold(aux3);
    aux4 := Fold(aux4);
    aux5 := Fold(aux5);
    aux6 := Fold(aux6);
    aux7 := Fold(aux7);
    FoldAt(s, p);
    FoldAt(s, p + 4);
    FoldAt(s, p + 8);
    FoldAt(s, p + 12);
    FoldAt(s, p + 16);
    FoldAt(s, p + 20);
    FoldAt(s, p + 24);
    var sum := Add(Add(Add(Add(Add(Add(aux1, aux2), aux3), aux4), aux5), aux6), aux7);
    AddFolds(aux1, aux2, 8);
    AddFolds(Add(aux1, aux2), aux3, 16);
    AddFolds(Add(Add(aux1, aux2), aux3), aux4, 24);
    AddFolds(Add(Add(Add(aux1, aux2), aux3), aux4), aux5, 32);
    AddFolds(Add(Add(Add(Add(aux1, aux2), aux3), aux4), aux5), aux6, 40);
    AddFolds(Add(Add(Add(Add(Add(aux1, aux2), aux3), aux4), aux5), aux6), aux7, 48);
    MultiplyAddsLanes(sum);
    bits := Top(Spread(sum));
  }

  /** redisPopcount of the bytes of `s`, which start at address `addr`. */
  method RedisPopcount(s: seq<Byte>, addr: nat) returns (bits: nat)
    ensures bits == CountBits(s, 0, 8 * |s|)
  {
    hide CountBits, Ones;
    bits := 0;
    var p := 0;
    CountNothing(s);
    while (addr + p) % 4 != 0 && p < |s|
      decreases |s| - p
      invariant p <= |s| && bits == CountBits(s, 0, 8 * p)
    {
      CountNextByte(s, 0, p);
      bits := bits + Ones(s[p]);
      p := p + 1;
    }
    while |s| - p >= 28
      invariant p <= |s| && bits == CountBits(s, 0, 8 * p)
    {
      var block := CountBlock(s, p);
      bits := bits + block;
      p := p + 28;
    }
    while p < |s|
      invariant p <= |s| && bits == CountBits(s, 0, 8 * p)
    {
      CountNextByte(s, 0, p);
      bits := bits + Ones(s[p]);
      p := p + 1;
    }
  }

  lemma CountNothing(s: seq<Byte>)
    ensures CountBits(s, 0, 0) == 0
  {
  }
}
