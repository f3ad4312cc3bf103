/** The compute part of bitopCommand: a fast path over 32 bytes at a time and a loop over single bytes. */
module BitopCompute {
  import opened BitmapBytes
  import opened Bitpos
  import opened BitopMeaning

  // ---------------------------------------------------------------- words in memory

  function ApplyWord(how: Combine, x: bv64, y: bv64): bv64 {
    match how
    case And => x & y
    case Or => x | y
    case Xor => x ^ y
    case AndNot => ClearWord(x, y)
    case NotAnd => ClearWord(y, x)
    case Flip => !x
  }

  function ClearWord(x: bv64, y: bv64): bv64 {
    x & !y
  }

  predicate OnByte(how: Combine, x: bv64, y: bv64, q: nat)
    requires q < 8
  {
    ByteOfWord(ApplyWord(how, x, y), q) == Apply(how, ByteOfWord(x, q), ByteOfWord(y, q))
  }

  lemma AndLowest(x: bv64, y: bv64)
    ensures OnByte(And, x, y, 6)
    ensures OnByte(And, x, y, 7)
  {
  }

  lemma AndLow(x: bv64, y: bv64)
    ensures OnByte(And, x, y, 4)
    ensures OnByte(And, x, y, 5)
  {
  }

  lemma AndHigh(x: bv64, y: bv64)
    ensures OnByte(And, x, y, 2)
    ensures OnByte(And, x, y, 3)
  {
  }

  lemma AndHighest(x: bv64, y: bv64)
    ensures OnByte(And, x, y, 0)
    ensures OnByte(And, x, y, 1)
  {
  }

  lemma OrLowest(x: bv64, y: bv64)
    ensures OnByte(Or, x, y, 6)
    ensures OnByte(Or, x, y, 7)
  {
  }

  lemma OrLow(x: bv64, y: bv64)
    ensures OnByte(Or, x, y, 4)
    ensures OnByte(Or, x, y, 5)
  {
  }

  lemma OrHigh(x: bv64, y: bv64)
    ensures OnByte(Or, x, y, 2)
    ensures OnByte(Or, x, y, 3)
  {
  }

  lemma OrHighest(x: bv64, y: bv64)
    ensures OnByte(Or, x, y, 0)
    ensures OnByte(Or, x, y, 1)
  {
  }

  lemma XorLowest(x: bv64, y: bv64)
    ensures OnByte(Xor, x, y, 6)
    ensures OnByte(Xor, x, y, 7)
  {
  }

  lemma XorLow(x: bv64, y: bv64)
    ensures OnByte(Xor, x, y, 4)
    ensures OnByte(Xor, x, y, 5)
  {
  }

  lemma XorHigh(x: bv64, y: bv64)
    ensures OnByte(Xor, x, y, 2)
    ensures OnByte(Xor, x, y, 3)
  {
  }

  lemma XorHighest(x: bv64, y: bv64)
    ensures OnByte(Xor, x, y, 0)
    ensures OnByte(Xor, x, y, 1)
  {
  }

  lemma FlipLowest(x: bv64, y: bv64)
    ensures OnByte(Flip, x, y, 6)
    ensures OnByte(Flip, x, y, 7)
  {
  }

  lemma FlipLow(x: bv64, y: bv64)
    ensures OnByte(Flip, x, y, 4)
    ensures OnByte(Flip, x, y, 5)
  {
  }

  lemma FlipHigh(x: bv64, y: bv64)
    ensures OnByte(Flip, x, y, 2)
    ensures OnByte(Flip, x, y, 3)
  {
  }

  lemma FlipHighest(x: bv64, y: bv64)
    ensures OnByte(Flip, x, y, 0)
    ensures OnByte(Flip, x, y, 1)
  {
  }

  lemma AndNotLowest(x: bv64, y: bv64)
    ensures OnByte(AndNot, x, y, 6)
    ensures OnByte(AndNot, x, y, 7)
  {
  }

  lemma AndNotLow(x: bv64, y: bv64)
    ensures OnByte(AndNot, x, y, 4)
    ensures OnByte(AndNot, x, y, 5)
  {
  }

  lemma AndNotHigh(x: bv64, y: bv64)
    ensures OnByte(AndNot, x, y, 2)
    ensures OnByte(AndNot, x, y, 3)
  {
  }

  lemma AndNotHighest(x: bv64, y: bv64)
    ensures OnByte(AndNot, x, y, 0)
    ensures OnByte(AndNot, x, y, 1)
  {
  }

  lemma NotAndOnByte(x: bv64, y: bv64, q: nat)
    requires q < 8 && OnByte(AndNot, y, x, q)
    ensures OnByte(NotAnd, x, y, q)
  {
    hide ByteOfWord, Clear, ClearWord;
  }

  /** A word operation works on each of its bytes. */
  lemma OnBytes(how: Combine, x: bv64, y: bv64, q: nat)
    requires q < 8
    ensures OnByte(how, x, y, q)
    decreases how == NotAnd
  {
    hide *;
    match how
    case And =>
      AndLowest(x, y);
      AndLow(x, y);
      AndHigh(x, y);
      AndHighest(x, y);
    case Or =>
      OrLowest(x, y);
      OrLow(x, y);
      OrHigh(x, y);
      OrHighest(x, y);
    case Xor =>
      XorLowest(x, y);
      XorLow(x, y);
      XorHigh(x, y);
      XorHighest(x, y);
    case Flip =>
      FlipLowest(x, y);
      FlipLow(x, y);
      FlipHigh(x, y);
      FlipHighest(x, y);
    case AndNot =>
      AndNotLowest(x, y);
      AndNotLow(x, y);
      AndNotHigh(x, y);
      AndNotHighest(x, y);
    case NotAnd =>
      OnBytes(AndNot, y, x, q);
      NotAndOnByte(x, y, q);
  }

  /** The byte of a word that is stored `q` bytes behind its address. */
  lemma MemoryByte(s: seq<Byte>, p: nat, q: nat)
    requires p + 8 <= |s| && q < 8
    ensures ByteOfWord(MachineWord(s, p), 7 - q) == s[p + q]
  {
    BytesOfEight(s[p + 7], s[p + 6], s[p + 5], s[p + 4], s[p + 3], s[p + 2], s[p + 1], s[p]);
    hide Eight, ByteOfWord;
  }

  method StoreWord(a: array<Byte>, p: nat, w: bv64)
    requires p + 8 <= a.Length
    modifies a
    ensures forall q | p <= q < p + 8 :: a[q] == ByteOfWord(w, p + 7 - q)
    ensures forall q | 0 <= q < a.Length && !(p <= q < p + 8) :: a[q] == old(a[q])
  {
    hide ByteOfWord;
    for k := 0 to 8
      invariant forall q | p <= q < p + k :: a[q] == ByteOfWord(w, p + 7 - q)
      invariant forall q | 0 <= q < a.Length && !(p <= q < p + 8) :: a[q] == old(a[q])
    {
      a[p + k] := ByteOfWord(w, 7 - k);
    }
  }

  lemma CombinedBytes(how: Combine, s: seq<Byte>, t: seq<Byte>, p: nat, w: bv64)
    requires p + 8 <= |s| && p + 8 <= |t| && w == ApplyWord(how, MachineWord(s, p), MachineWord(t, p))
    ensures forall q | p <= q < p + 8 :: ByteOfWord(w, p + 7 - q) == Apply(how, s[q], t[q])
  {
    hide MachineWord, ByteOfWord, ApplyWord, Apply;
    forall q | p <= q < p + 8
      ensures ByteOfWord(w, p + 7 - q) == Apply(how, s[q], t[q])
    {
      OnBytes(how, MachineWord(s, p), MachineWord(t, p), p + 7 - q);
      MemoryByte(s, p, q - p);
      MemoryByte(t, p, q - p);
    }
  }

  /** One word of the result and one word of a key, as in `lres[0] &= lp[i][k]`. */
  method CombineWord(a: array<Byte>, p: nat, how: Combine, s: seq<Byte>)
    requires p + 8 <= a.Length && p + 8 <= |s|
    modifies a
    ensures forall q | p <= q < p + 8 :: a[q] == Apply(how, old(a[q]), s[q])
    ensures forall q | 0 <= q < a.Length && !(p <= q < p + 8) :: a[q] == old(a[q])
  {
    hide MachineWord, ByteOfWord, ApplyWord, Apply;
    var w := ApplyWord(how, MachineWord(a[..], p), MachineWord(s, p));
    CombinedBytes(how, a[..], s, p, w);
    StoreWord(a, p, w);
  }

  /** Four words. */
  method CombineBlock(a: array<Byte>, p: nat, how: Combine, s: seq<Byte>)
    requires p + 32 <= a.Length && p + 32 <= |s|
    modifies a
    ensures forall q | p <= q < p + 32 :: a[q] == Apply(how, old(a[q]), s[q])
    ensures forall q | 0 <= q < a.Length && !(p <= q < p + 32) :: a[q] == old(a[q])
  {
    hide Apply;
    CombineWord(a, p, how, s);
    CombineWord(a, p + 8, how, s);
    CombineWord(a, p + 16, how, s);
    CombineWord(a, p + 24, how, s);
  }

  // ---------------------------------------------------------------- folds over whole blocks

  /** Every key has at least `n` bytes. */
  ghost predicate Reach(keys: Keys, n: nat) {
    forall k | 0 <= k < |keys| :: n <= |keys[k]|
  }

  ghost predicate PartialIn(kind: Kind, keys: Keys, lo: nat, hi: nat, i: nat, bytes: seq<Byte>) {
    hi <= |bytes| && forall q | lo <= q < hi :: Partial(kind, keys, q, i, bytes[q])
  }

  ghost predicate SameOutside(a: seq<Byte>, b: seq<Byte>, lo: nat, hi: nat) {
    |a| == |b| && forall q | 0 <= q < |a| && !(lo <= q < hi) :: a[q] == b[q]
  }

  lemma BlockStep(kind: Kind, keys: Keys, j: nat, i: nat, was: seq<Byte>, now: seq<Byte>)
    requires kind in {All, Any, Odd, Rest} && 0 < i < |keys| && j + 32 <= |keys[i]|
    requires PartialIn(kind, keys, j, j + 32, i, was) && |now| == |was|
    requires forall q | j <= q < j + 32 :: now[q] == Apply(HowOf(kind), was[q], keys[i][q])
    ensures PartialIn(kind, keys, j, j + 32, i + 1, now)
  {
    hide Partial, Apply;
    forall q | j <= q < j + 32
      ensures Partial(kind, keys, q, i + 1, now[q])
    {
      PartialStep(kind, keys, q, i, was[q]);
    }
  }

  /** The unrolled loops of AND, OR and XOR, and the disjunction of DIFF, DIFF1 and ANDOR. */
  method FoldBlocks(res: array<Byte>, keys: Keys, kind: Kind, minlen: nat) returns (j: nat)
    requires |keys| > 0 && Reach(keys, minlen) && minlen <= res.Length && kind in {All, Any, Odd, Rest}
    requires PartialIn(kind, keys, 0, minlen, 1, res[..])
    modifies res
    ensures j <= minlen && j % 32 == 0 && PartialIn(kind, keys, 0, j, |keys|, res[..])
  {
    hide Partial, Apply;
    var left := minlen;
    j := 0;
    while left >= 32
      invariant j + left == minlen && j % 32 == 0
      invariant PartialIn(kind, keys, 0, j, |keys|, res[..])
      invariant PartialIn(kind, keys, j, minlen, 1, res[..])
    {
      ghost var start := res[..];
      for i := 1 to |keys|
        invariant PartialIn(kind, keys, j, j + 32, i, res[..])
        invariant SameOutside(start, res[..], j, j + 32)
      {
        ghost var was := res[..];
        CombineBlock(res, j, HowOf(kind), keys[i]);
        BlockStep(kind, keys, j, i, was, res[..]);
      }
      j := j + 32;
      left := left - 32;
    }
  }

  ghost predicate RightUpTo(op: Op, keys: Keys, n: nat, bytes: seq<Byte>) {
    n <= |bytes| && forall q | 0 <= q < n :: Right(op, keys, q, bytes[q])
  }

  lemma FoldedIsRight(op: Op, keys: Keys, n: nat, bytes: seq<Byte>)
    requires op in {AND, OR, XOR, ONE} && |keys| > 0 && PartialIn(KindOf(op), keys, 0, n, |keys|, bytes)
    ensures RightUpTo(op, keys, n, bytes)
  {
    hide Partial, Right;
    forall q | 0 <= q < n
      ensures Right(op, keys, q, bytes[q])
    {
      FoldIsRight(op, keys, q, bytes[q]);
    }
  }

  /** NOT: the result starts as a copy of the only key. */
  method FlipBlocks(res: array<Byte>, keys: Keys, minlen: nat) returns (j: nat)
    requires |keys| > 0 && Reach(keys, minlen) && minlen <= res.Length
    requires forall q | 0 <= q < minlen :: res[q] == keys[0][q]
    modifies res
    ensures j <= minlen && RightUpTo(NOT, keys, j, res[..])
  {
    hide Right, Apply;
    var left := minlen;
    j := 0;
    while left >= 32
      invariant j + left == minlen && RightUpTo(NOT, keys, j, res[..])
      invariant forall q | j <= q < minlen :: res[q] == keys[0][q]
    {
      ghost var was := res[..];
      CombineBlock(res, j, Flip, keys[0]);
      forall q | j <= q < j + 32
        ensures Right(NOT, keys, q, res[q])
      {
        assert was[q] == keys[0][q] == ByteAt(keys[0], q);
        FlipIsRight(keys, q);
      }
      j := j + 32;
      left := left - 32;
    }
  }

  /** The second pass of DIFF, DIFF1 and ANDOR over the bytes that hold the disjunction. */
  method JoinBlocks(res: array<Byte>, keys: Keys, op: Op, processed: nat)
    requires op in {DIFF, DIFF1, ANDOR} && |keys| > 0 && processed <= |keys[0]| && processed % 32 == 0
    requires PartialIn(Rest, keys, 0, processed, |keys|, res[..])
    modifies res
    ensures RightUpTo(op, keys, processed, res[..])
  {
    hide Partial, Right, Apply;
    var i := 0;
    while i < processed
      invariant i <= processed && i % 32 == 0 && RightUpTo(op, keys, i, res[..])
      invariant PartialIn(Rest, keys, i, processed, |keys|, res[..])
    {
      ghost var was := res[..];
      CombineBlock(res, i, JoinOf(op), keys[0]);
      forall q | i <= q < i + 32
        ensures Right(op, keys, q, res[q])
      {
        assert Partial(Rest, keys, q, |keys|, was[q]) && keys[0][q] == ByteAt(keys[0], q);
        JoinIsRight(op, keys, q, was[q]);
      }
      i := i + 32;
    }
  }

  // ---------------------------------------------------------------- ONE: bits seen in more than one key

  /** Byte `r` of the block that four words describe. */
  function CommonByte(common: seq<bv64>, r: nat): Byte
    requires |common| == 4 && r < 32
  {
    ByteOfWord(common[r / 8], 7 - r % 8)
  }

  /** Word `w` of the block that starts at byte `j`. */
  function WordAt(s: seq<Byte>, j: nat, w: nat): bv64
    requires j + 8 * w + 8 <= |s|
  {
    MachineWord(s, j + 8 * w)
  }

  function Repeat(common: bv64, x: bv64, y: bv64): bv64 {
    ApplyWord(Or, common, ApplyWord(And, x, y))
  }

  lemma RepeatByte(common: bv64, s: seq<Byte>, t: seq<Byte>, p: nat, r: nat)
    requires p + 8 <= |s| && p + 8 <= |t| && r < 8
    ensures ByteOfWord(Repeat(common, MachineWord(s, p), MachineWord(t, p)), 7 - r) ==
            Apply(Or, ByteOfWord(common, 7 - r), Apply(And, s[p + r], t[p + r]))
  {
    hide ByteOfWord, ApplyWord, Apply, MachineWord;
    var x, y := MachineWord(s, p), MachineWord(t, p);
    OnBytes(And, x, y, 7 - r);
    OnBytes(Or, common, ApplyWord(And, x, y), 7 - r);
    MemoryByte(s, p, r);
    MemoryByte(t, p, r);
  }

  lemma CommonStep(common: seq<bv64>, now: seq<bv64>, s: seq<Byte>, t: seq<Byte>, p: nat, r: nat)
    requires |common| == 4 && |now| == 4 && p + 32 <= |s| && p + 32 <= |t| && r < 32
    requires now[r / 8] == Repeat(common[r / 8], WordAt(s, p, r / 8), WordAt(t, p, r / 8))
    ensures CommonByte(now, r) == Apply(Or, CommonByte(common, r), Apply(And, s[p + r], t[p + r]))
  {
    hide ByteOfWord, Repeat, Apply, MachineWord;
    RepeatByte(common[r / 8], s, t, p + 8 * (r / 8), r % 8);
    assert p + 8 * (r / 8) + r % 8 == p + r;
  }

  ghost predicate ManyIn(keys: Keys, j: nat, i: nat, common: seq<bv64>) {
    |common| == 4 && forall r | 0 <= r < 32 :: Partial(Many, keys, j + r, i, CommonByte(common, r))
  }

  lemma NothingRepeated(keys: Keys, j: nat, common: seq<bv64>)
    requires |keys| > 0 && common == [0, 0, 0, 0]
    ensures ManyIn(keys, j, 1, common)
  {
    hide Partial;
    forall r | 0 <= r < 32
      ensures Partial(Many, keys, j + r, 1, CommonByte(common, r))
    {
      assert ByteOfWord(0, 7 - r % 8) == 0;
      PartialFirst(Many, keys, j + r);
    }
  }

  lemma ManyBlock(keys: Keys, j: nat, i: nat, common: seq<bv64>, now: seq<bv64>, bytes: seq<Byte>)
    requires 0 < i < |keys| && ManyIn(keys, j, i, common) && Repeated(now, common, bytes, keys[i], j)
    requires PartialIn(Odd, keys, j, j + 32, i, bytes)
    ensures ManyIn(keys, j, i + 1, now)
  {
    hide Partial, Repeat, Apply, WordAt, CommonByte;
    forall r | 0 <= r < 32
      ensures Partial(Many, keys, j + r, i + 1, CommonByte(now, r))
    {
      CommonStep(common, now, bytes, keys[i], j, r);
      assert Partial(Odd, keys, j + r, i, bytes[j + r]) && keys[i][j + r] == ByteAt(keys[i], j + r);
      ManyStep(Odd, keys, j + r, i, bytes[j + r], CommonByte(common, r));
    }
  }

  ghost predicate Repeated(now: seq<bv64>, common: seq<bv64>, s: seq<Byte>, t: seq<Byte>, j: nat) {
    && |now| == 4 && |common| == 4 && j + 32 <= |s| && j + 32 <= |t|
    && now[0] == Repeat(common[0], WordAt(s, j, 0), WordAt(t, j, 0))
    && now[1] == Repeat(common[1], WordAt(s, j, 1), WordAt(t, j, 1))
    && now[2] == Repeat(common[2], WordAt(s, j, 2), WordAt(t, j, 2))
    && now[3] == Repeat(common[3], WordAt(s, j, 3), WordAt(t, j, 3))
  }

  method RepeatBlock(common: array<bv64>, bytes: seq<Byte>, j: nat, s: seq<Byte>)
    requires common.Length == 4 && j + 32 <= |bytes| && j + 32 <= |s|
    modifies common
    ensures Repeated(common[..], old(common[..]), bytes, s, j)
  {
    hide Repeat, WordAt;
    common[0] := Repeat(common[0], WordAt(bytes, j, 0), WordAt(s, j, 0));
    common[1] := Repeat(common[1], WordAt(bytes, j, 1), WordAt(s, j, 1));
    common[2] := Repeat(common[2], WordAt(bytes, j, 2), WordAt(s, j, 2));
    common[3] := Repeat(common[3], WordAt(bytes, j, 3), WordAt(s, j, 3));
  }

  /** lres[w] &= ~lcommon_bits[w]. */
  method ClearWordAt(res: array<Byte>, p: nat, common: bv64)
    requires p + 8 <= res.Length
    modifies res
    ensures forall q | p <= q < p + 8 :: res[q] == Apply(AndNot, old(res[q]), ByteOfWord(common, p + 7 - q))
    ensures forall q | 0 <= q < res.Length && !(p <= q < p + 8) :: res[q] == old(res[q])
  {
    hide ByteOfWord, ApplyWord, Apply, MachineWord;
    ghost var was := res[..];
    var x := MachineWord(res[..], p);
    StoreWord(res, p, ApplyWord(AndNot, x, common));
    forall q | p <= q < p + 8
      ensures res[q] == Apply(AndNot, was[q], ByteOfWord(common, p + 7 - q))
    {
      OnBytes(AndNot, x, common, p + 7 - q);
      MemoryByte(was, p, q - p);
    }
  }

  method ClearBlock(res: array<Byte>, j: nat, common: seq<bv64>)
    requires |common| == 4 && j + 32 <= res.Length
    modifies res
    ensures forall r | 0 <= r < 32 :: res[j + r] == Apply(AndNot, old(res[j + r]), CommonByte(common, r))
    ensures forall q | 0 <= q < res.Length && !(j <= q < j + 32) :: res[q] == old(res[q])
  {
    hide ByteOfWord, Apply;
    ClearWordAt(res, j, common[0]);
    ClearWordAt(res, j + 8, common[1]);
    ClearWordAt(res, j + 16, common[2]);
    ClearWordAt(res, j + 24, common[3]);
    forall r | 0 <= r < 32
      ensures CommonByte(common, r) == ByteOfWord(common[r / 8], (j + 8 * (r / 8)) + 7 - (j + r))
    {
    }
  }

  method OneBlocks(res: array<Byte>, keys: Keys, minlen: nat) returns (j: nat)
    requires |keys| > 0 && Reach(keys, minlen) && minlen <= res.Length
    requires PartialIn(Odd, keys, 0, minlen, 1, res[..])
    modifies res
    ensures j <= minlen && PartialIn(Once, keys, 0, j, |keys|, res[..])
  {
    hide Partial, Apply, CommonByte, WordAt, Repeat;
    var left := minlen;
    j := 0;
    while left >= 32
      invariant j + left == minlen
      invariant PartialIn(Once, keys, 0, j, |keys|, res[..])
      invariant PartialIn(Odd, keys, j, minlen, 1, res[..])
    {
      ghost var start := res[..];
      OneBlock(res, keys, j);
      assert SameOutside(start, res[..], j, j + 32);
      j := j + 32;
      left := left - 32;
    }
  }

  method OneBlock(res: array<Byte>, keys: Keys, j: nat)
    requires |keys| > 0 && Reach(keys, j + 32) && j + 32 <= res.Length
    requires PartialIn(Odd, keys, j, j + 32, 1, res[..])
    modifies res
    ensures PartialIn(Once, keys, j, j + 32, |keys|, res[..]) && SameOutside(old(res[..]), res[..], j, j + 32)
  {
    hide Partial, Apply, CommonByte, WordAt, Repeat;
    ghost var start := res[..];
    var common := new bv64[4](_ => 0);
    NothingRepeated(keys, j, common[..]);
    for i := 1 to |keys|
      invariant PartialIn(Odd, keys, j, j + 32, i, res[..]) && ManyIn(keys, j, i, common[..])
      invariant SameOutside(start, res[..], j, j + 32)
    {
      ghost var was, before := res[..], common[..];
      RepeatBlock(common, res[..], j, keys[i]);
      ManyBlock(keys, j, i, before, common[..], was);
      CombineBlock(res, j, Xor, keys[i]);
      BlockStep(Odd, keys, j, i, was, res[..]);
    }
    ghost var was := res[..];
    ClearBlock(res, j, common[..]);
    forall q | j <= q < j + 32
      ensures Partial(Once, keys, q, |keys|, res[q])
    {
      var r := q - j;
      assert q == j + r && Partial(Odd, keys, q, |keys|, was[q]);
      assert Partial(Many, keys, j + r, |keys|, CommonByte(common[..], r));
      OnceOfOdd(keys, q, |keys|, was[q], CommonByte(common[..], r));
    }
  }

  // ---------------------------------------------------------------- the loop over single bytes

  /** Brings one more byte into a fold; `common` is used by ONE only. */
  method FoldByte(op: Op, keys: Keys, j: nat) returns (output: Byte, disjunction: Byte)
    requires |keys| > 0 && op != NOT
    ensures op in {AND, OR, XOR, ONE} ==> Partial(KindOf(op), keys, j, |keys|, output)
    ensures op in {DIFF, DIFF1, ANDOR} ==>
      output == ByteAt(keys[0], j) && Partial(Rest, keys, j, |keys|, disjunction)
  {
    hide Partial, Apply, ByteAt;
    output, disjunction := ByteAt(keys[0], j), 0;
    var common: Byte := 0;
    PartialFirst(KindOf(op), keys, j);
    PartialFirst(Many, keys, j);
    var i := 1;
    while i < |keys|
      invariant 0 < i <= |keys|
      invariant op in {AND, OR, XOR, ONE} ==> Partial(KindOf(op), keys, j, i, output)
      invariant op in {DIFF, DIFF1, ANDOR} ==> output == ByteAt(keys[0], j) && Partial(Rest, keys, j, i, disjunction)
      invariant op == ONE ==> Partial(Many, keys, j, i, common)
    {
      var byte := ByteAt(keys[i], j);
      var skip := false;
      if op == AND {
        PartialStep(All, keys, j, i, output);
        output := Apply(And, output, byte);
        skip := output == 0;
        if skip { StopEarly(All, keys, j, i + 1); }
      } else if op == OR {
        PartialStep(Any, keys, j, i, output);
        output := Apply(Or, output, byte);
        skip := output == 0xff;
        if skip { StopEarly(Any, keys, j, i + 1); }
      } else if op == XOR {
        PartialStep(Odd, keys, j, i, output);
        output := Apply(Xor, output, byte);
      } else if op == ONE {
        ManyStep(Once, keys, j, i, output, common);
        common := Apply(Or, common, Apply(And, output, byte));
        OnceStep(keys, j, i, output, common);
        output := Apply(Xor, output, byte);
        output := Apply(AndNot, output, common);
        skip := common == 0xff;
        if skip { StopOnce(keys, j, i + 1, output); }
      } else {
        PartialStep(Rest, keys, j, i, disjunction);
        disjunction := Apply(Or, disjunction, byte);
        skip := disjunction == 0xff;
        if skip { StopEarly(Rest, keys, j, i + 1); }
      }
      if skip {
        break;
      }
      i := i + 1;
    }
  }

  method ByteResult(op: Op, keys: Keys, j: nat) returns (x: Byte)
    requires |keys| > 0 && (op == NOT ==> |keys| == 1)
    ensures Right(op, keys, j, x)
  {
    hide Partial, Right, Apply, ByteAt;
    if op == NOT {
      FlipIsRight(keys, j);
      return Apply(Flip, ByteAt(keys[0], j), ByteAt(keys[0], j));
    }
    var output, disjunction := FoldByte(op, keys, j);
    match op {
      case DIFF =>
        JoinIsRight(op, keys, j, disjunction);
        x := Apply(NotAnd, disjunction, output);
      case DIFF1 =>
        JoinIsRight(op, keys, j, disjunction);
        x := Apply(AndNot, disjunction, output);
      case ANDOR =>
        JoinIsRight(op, keys, j, disjunction);
        x := Apply(And, disjunction, output);
      case _ =>
        FoldIsRight(op, keys, j, output);
        x := output;
    }
  }

  // ---------------------------------------------------------------- the command

  datatype Result = Stored(bytes: seq<Byte>) | NotNeedsOneKey | NeedsTwoKeys

  /** The shortest and the longest key. */
  method Lengths(keys: Keys) returns (minlen: nat, maxlen: nat)
    requires |keys| > 0
    ensures Reach(keys, minlen) && forall k | 0 <= k < |keys| :: |keys[k]| <= maxlen
    ensures exists k :: 0 <= k < |keys| && |keys[k]| == maxlen
    ensures minlen <= maxlen
  {
    minlen, maxlen := |keys[0]|, |keys[0]|;
    for j := 1 to |keys|
      invariant forall k | 0 <= k < j :: minlen <= |keys[k]| <= maxlen
      invariant exists k :: 0 <= k < j && |keys[k]| == maxlen
    {
      if |keys[j]| > maxlen { maxlen := |keys[j]|; }
      if |keys[j]| < minlen { minlen := |keys[j]|; }
    }
  }

  /** The fast path: `j` is the next byte to process. */
  method FastPath(op: Op, keys: Keys, res: array<Byte>, minlen: nat) returns (j: nat)
    requires |keys| > 0 && Reach(keys, minlen) && minlen <= res.Length
    requires forall q | 0 <= q < res.Length :: res[q] == 0
    modifies res
    ensures j <= minlen && RightUpTo(op, keys, j, res[..])
  {
    hide Partial, Right;
    if op in {DIFF, DIFF1, ANDOR} {
      forall q | 0 <= q < minlen
        ensures Partial(Rest, keys, q, 1, res[q])
      {
        PartialFirst(Rest, keys, q);
      }
      j := FoldBlocks(res, keys, Rest, minlen);
      JoinBlocks(res, keys, op, j);
    } else {
      var kind := if op == ONE then Odd else if op == NOT then Any else KindOf(op);
      forall q | 0 <= q < minlen {
        res[q] := keys[0][q];
      }
      forall q | 0 <= q < minlen
        ensures Partial(kind, keys, q, 1, res[q])
      {
        PartialFirst(kind, keys, q);
        assert ByteAt(keys[0], q) == keys[0][q];
      }
      if op == NOT {
        j := FlipBlocks(res, keys, minlen);
      } else if op == ONE {
        j := OneBlocks(res, keys, minlen);
        FoldedIsRight(op, keys, j, res[..]);
      } else {
        j := FoldBlocks(res, keys, kind, minlen);
        FoldedIsRight(op, keys, j, res[..]);
      }
    }
  }

  /** bitopCommand for the strings of the source keys; a key that does not exist is an empty string. */
  method BitopCommand(op: Op, keys: Keys) returns (r: Result)
    requires |keys| > 0
    ensures r.NotNeedsOneKey? <==> op == NOT && |keys| != 1
    ensures r.NeedsTwoKeys? <==> op in {DIFF, DIFF1, ANDOR} && |keys| < 2
    ensures r.Stored? ==>
      && (forall k | 0 <= k < |keys| :: |keys[k]| <= |r.bytes|)
      && (exists k :: 0 <= k < |keys| && |keys[k]| == |r.bytes|)
      && forall n | 0 <= n < 8 * |r.bytes| :: BitAt(r.bytes, n) == Declared(op, Column(keys, n))
  {
    if op == NOT && |keys| != 1 {
      return NotNeedsOneKey;
    }
    if op in {DIFF, DIFF1, ANDOR} && |keys| < 2 {
      return NeedsTwoKeys;
    }
    hide Right, BitOf, Declared, Column;
    var minlen, maxlen := Lengths(keys);
    var res := new Byte[maxlen](_ => 0);
    var j := 0;
    if minlen >= 32 {
      j := FastPath(op, keys, res, minlen);
    }
    while j < maxlen
      invariant j <= maxlen && RightUpTo(op, keys, j, res[..])
    {
      var x := ByteResult(op, keys, j);
      res[j] := x;
      j := j + 1;
    }
    r := Stored(res[..]);
    forall n | 0 <= n < 8 * |r.bytes|
      ensures BitAt(r.bytes, n) == Declared(op, Column(keys, n))
    {
      RightBit(op, keys, n, r.bytes[n / 8]);
    }
  }

  lemma RightBit(op: Op, keys: Keys, n: nat, x: Byte)
    requires Right(op, keys, n / 8, x)
    ensures BitOf(x, n % 8) == Declared(op, Column(keys, n))
  {
    hide BitOf, Declared, Column;
    var q, b: nat := n / 8, n % 8;
    assert 8 * q + b == n;
  }
}
