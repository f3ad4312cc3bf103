/** What the eight BITOP operators mean, bit by bit, and the partial results of folding over the keys. */
module BitopMeaning {
  import opened BitmapBytes

  datatype Op = AND | OR | XOR | NOT | DIFF | DIFF1 | ANDOR | ONE

  type Keys = seq<seq<Byte>>

  /** Bit `n` of every key; keys that are too short go on with zeros. */
  function Column(keys: Keys, n: nat): (c: seq<bool>)
    ensures |c| == |keys| && forall k | 0 <= k < |c| :: c[k] == Padded(keys[k], n)
  {
    seq(|keys|, k requires 0 <= k < |keys| => Padded(keys[k], n))
  }

  ghost predicate InRest(c: seq<bool>) {
    exists k :: 1 <= k < |c| && c[k]
  }

  /** The number of bits set among the first `i` keys. */
  function Tally(c: seq<bool>, i: nat): (n: nat)
    requires i <= |c|
    ensures n <= i
  {
    if i == 0 then 0 else Tally(c, i - 1) + One(c[i - 1])
  }

  /** Bit `m` is the only one set among the first `i`. */
  ghost predicate OnlyOne(c: seq<bool>, i: nat, m: nat) {
    m < i <= |c| && c[m] && forall l | 0 <= l < i && l != m :: !c[l]
  }

  /** The operators as they are declared. */
  ghost predicate Declared(op: Op, c: seq<bool>)
    requires |c| > 0
  {
    match op
    case AND => forall k | 0 <= k < |c| :: c[k]
    case OR => exists k :: 0 <= k < |c| && c[k]
    case XOR => Tally(c, |c|) % 2 == 1
    case NOT => !c[0]
    case DIFF => c[0] && !InRest(c)
    case DIFF1 => !c[0] && InRest(c)
    case ANDOR => c[0] && InRest(c)
    case ONE => exists m: nat :: OnlyOne(c, |c|, m)
  }

  // ---------------------------------------------------------------- folding over the keys

  datatype Kind = All | Any | Odd | Rest | Many | Once

  /** What a bit of a partial result over `i` keys says about the number of set bits so far. */
  predicate Sense(kind: Kind, first: bool, count: nat, i: nat) {
    match kind
    case All => count == i
    case Any => count >= 1
    case Odd => count % 2 == 1
    case Rest => count > One(first)
    case Many => count >= 2
    case Once => count == 1
  }

  /** `x` is the partial result for byte `q` after the first `i` keys. */
  ghost predicate Partial(kind: Kind, keys: Keys, q: nat, i: nat, x: Byte) {
    && 0 < i <= |keys|
    && forall b: nat | b < 8 :: BitOf(x, b) == SenseAt(kind, Column(keys, 8 * q + b), i)
  }

  predicate SenseAt(kind: Kind, c: seq<bool>, i: nat)
    requires 0 < i <= |c|
  {
    Sense(kind, c[0], Tally(c, i), i)
  }

  lemma ColumnBit(keys: Keys, q: nat, b: nat, k: nat)
    requires b < 8 && k < |keys|
    ensures Column(keys, 8 * q + b)[k] == BitOf(ByteAt(keys[k], q), b)
  {
    hide BitOf;
    assert (8 * q + b) / 8 == q && (8 * q + b) % 8 == b;
  }

  /** The first key alone, and nothing of the others. */
  lemma PartialFirst(kind: Kind, keys: Keys, q: nat)
    requires |keys| > 0
    ensures kind in {All, Any, Odd, Once} ==> Partial(kind, keys, q, 1, ByteAt(keys[0], q))
    ensures kind in {Rest, Many} ==> Partial(kind, keys, q, 1, 0)
  {
    hide Column, BitOf;
    forall b: nat | b < 8
      ensures BitOf(ByteAt(keys[0], q), b) == Column(keys, 8 * q + b)[0] && !BitOf(0, b)
      ensures Tally(Column(keys, 8 * q + b), 1) == One(Column(keys, 8 * q + b)[0])
    {
      ColumnBit(keys, q, b, 0);
      ZeroBit(b);
    }
  }

  lemma ZeroBit(b: nat)
    requires b < 8
    ensures !BitOf(0, b) && BitOf(0xff, b)
  {
  }

  /** The operator that brings in the next key. */
  datatype Combine = And | Or | Xor | AndNot | NotAnd | Flip

  function Apply(how: Combine, x: Byte, y: Byte): Byte {
    match how
    case And => x & y
    case Or => x | y
    case Xor => x ^ y
    case AndNot => Clear(x, y)
    case NotAnd => Clear(y, x)
    case Flip => !x
  }

  function Clear(x: Byte, y: Byte): Byte {
    x & !y
  }

  predicate ApplyBit(how: Combine, x: bool, y: bool) {
    match how
    case And => x && y
    case Or => x || y
    case Xor => x != y
    case AndNot => x && !y
    case NotAnd => !x && y
    case Flip => !x
  }

  lemma ClearBit(x: Byte, y: Byte, b: nat)
    requires b < 8
    ensures BitOf(Clear(x, y), b) == (BitOf(x, b) && !BitOf(y, b))
  {
    AndBit(x, !y, b);
    NotBit(y, b);
    hide BitOf;
  }

  lemma ApplyBits(how: Combine, x: Byte, y: Byte, b: nat)
    requires b < 8
    ensures BitOf(Apply(how, x, y), b) == ApplyBit(how, BitOf(x, b), BitOf(y, b))
  {
    AndBit(x, y, b);
    OrBit(x, y, b);
    XorBit(x, y, b);
    NotBit(x, b);
    NotBit(y, b);
    ClearBit(x, y, b);
    ClearBit(y, x, b);
    hide BitOf, Clear;
  }

  function HowOf(kind: Kind): Combine {
    match kind
    case All => And
    case Odd => Xor
    case _ => Or
  }

  lemma SenseStep(kind: Kind, c: seq<bool>, i: nat)
    requires kind in {All, Any, Odd, Rest} && 0 < i < |c|
    ensures SenseAt(kind, c, i + 1) == ApplyBit(HowOf(kind), SenseAt(kind, c, i), c[i])
  {
    FirstCounts(c, i);
  }

  lemma RepeatStep(kind: Kind, c: seq<bool>, i: nat)
    requires kind in {Odd, Once} && 0 < i < |c|
    ensures SenseAt(Many, c, i + 1) == (SenseAt(Many, c, i) || (SenseAt(kind, c, i) && c[i]))
    ensures SenseAt(Once, c, i + 1) == ((SenseAt(Once, c, i) != c[i]) && !SenseAt(Many, c, i + 1))
  {
  }

  lemma OddNotMany(c: seq<bool>, i: nat)
    requires 0 < i <= |c|
    ensures SenseAt(Once, c, i) == (SenseAt(Odd, c, i) && !SenseAt(Many, c, i))
  {
  }

  /** One more key for All, Any, Odd and Rest. */
  lemma PartialStep(kind: Kind, keys: Keys, q: nat, i: nat, x: Byte)
    requires kind in {All, Any, Odd, Rest} && Partial(kind, keys, q, i, x) && i < |keys|
    ensures Partial(kind, keys, q, i + 1, Apply(HowOf(kind), x, ByteAt(keys[i], q)))
  {
    hide Column, BitOf, Apply, ByteAt, HowOf, SenseAt, ApplyBit;
    var y := ByteAt(keys[i], q);
    forall b: nat | b < 8
      ensures BitOf(Apply(HowOf(kind), x, y), b) == SenseAt(kind, Column(keys, 8 * q + b), i + 1)
    {
      ApplyBits(HowOf(kind), x, y, b);
      ColumnBit(keys, q, b, i);
      SenseStep(kind, Column(keys, 8 * q + b), i);
    }
  }

  lemma {:induction false} FirstCounts(c: seq<bool>, i: nat)
    requires 0 < i <= |c|
    ensures Tally(c, i) >= One(c[0])
  {
    if i > 1 {
      FirstCounts(c, i - 1);
    }
  }

  /** One more key for the bits seen more than once; `x` holds those seen an odd number of times, or once. */
  lemma ManyStep(kind: Kind, keys: Keys, q: nat, i: nat, x: Byte, many: Byte)
    requires kind in {Odd, Once} && Partial(kind, keys, q, i, x) && Partial(Many, keys, q, i, many) && i < |keys|
    ensures Partial(Many, keys, q, i + 1, Apply(Or, many, Apply(And, x, ByteAt(keys[i], q))))
  {
    hide Column, BitOf, ByteAt, Apply, SenseAt;
    var y := ByteAt(keys[i], q);
    var z := Apply(And, x, y);
    var r := Apply(Or, many, z);
    forall b: nat | b < 8
      ensures BitOf(r, b) == SenseAt(Many, Column(keys, 8 * q + b), i + 1)
    {
      ApplyBits(And, x, y, b);
      ApplyBits(Or, many, z, b);
      ColumnBit(keys, q, b, i);
      RepeatStep(kind, Column(keys, 8 * q + b), i);
    }
  }

  /** The bits set in exactly one key: those seen an odd number of times without those seen repeatedly. */
  lemma OnceOfOdd(keys: Keys, q: nat, i: nat, x: Byte, many: Byte)
    requires Partial(Odd, keys, q, i, x) && Partial(Many, keys, q, i, many)
    ensures Partial(Once, keys, q, i, Apply(AndNot, x, many))
  {
    hide Column, BitOf, Apply, SenseAt;
    forall b: nat | b < 8
      ensures BitOf(Apply(AndNot, x, many), b) == SenseAt(Once, Column(keys, 8 * q + b), i)
    {
      ApplyBits(AndNot, x, many, b);
      OddNotMany(Column(keys, 8 * q + b), i);
    }
  }

  lemma OnceStep(keys: Keys, q: nat, i: nat, x: Byte, many: Byte)
    requires Partial(Once, keys, q, i, x) && i < |keys| && Partial(Many, keys, q, i + 1, many)
    ensures Partial(Once, keys, q, i + 1, Apply(AndNot, Apply(Xor, x, ByteAt(keys[i], q)), many))
  {
    hide Column, BitOf, ByteAt, Apply, SenseAt;
    var y := ByteAt(keys[i], q);
    var z := Apply(Xor, x, y);
    var r := Apply(AndNot, z, many);
    forall b: nat | b < 8
      ensures BitOf(r, b) == SenseAt(Once, Column(keys, 8 * q + b), i + 1)
    {
      ApplyBits(Xor, x, y, b);
      ApplyBits(AndNot, z, many, b);
      ColumnBit(keys, q, b, i);
      RepeatStep(Once, Column(keys, 8 * q + b), i);
    }
  }

  // ---------------------------------------------------------------- stopping early

  lemma {:induction false} TallyGrows(c: seq<bool>, i: nat, n: nat)
    requires 0 < i <= n <= |c|
    ensures Tally(c, i) <= Tally(c, n) <= Tally(c, i) + (n - i)
    decreases n
  {
    if i < n {
      TallyGrows(c, i, n - 1);
    }
  }

  /** The byte at which a fold can stop: the other keys change nothing. */
  function Settled(kind: Kind): Byte {
    if kind == All then 0 else 0xff
  }

  lemma StopEarly(kind: Kind, keys: Keys, q: nat, i: nat)
    requires kind in {All, Any, Rest, Many} && Partial(kind, keys, q, i, Settled(kind))
    ensures Partial(kind, keys, q, |keys|, Settled(kind))
  {
    hide Column, BitOf;
    forall b: nat | b < 8
      ensures BitOf(Settled(kind), b) == SenseAt(kind, Column(keys, 8 * q + b), |keys|)
    {
      ZeroBit(b);
      TallyGrows(Column(keys, 8 * q + b), i, |keys|);
    }
  }

  /** Once every bit was seen repeatedly, none is set in exactly one key any more. */
  lemma StopOnce(keys: Keys, q: nat, i: nat, x: Byte)
    requires Partial(Many, keys, q, i, 0xff) && Partial(Once, keys, q, i, x)
    ensures Partial(Once, keys, q, |keys|, x)
  {
    hide Column, BitOf;
    forall b: nat | b < 8
      ensures BitOf(x, b) == SenseAt(Once, Column(keys, 8 * q + b), |keys|)
    {
      ZeroBit(b);
      TallyGrows(Column(keys, 8 * q + b), i, |keys|);
    }
  }

  // ---------------------------------------------------------------- the result

  /** `x` is byte `q` of the result. */
  ghost predicate Right(op: Op, keys: Keys, q: nat, x: Byte) {
    |keys| > 0 && forall b: nat | b < 8 :: BitOf(x, b) == Declared(op, Column(keys, 8 * q + b))
  }

  lemma {:induction false} TallyIsZero(c: seq<bool>, i: nat)
    requires i <= |c|
    ensures Tally(c, i) == 0 <==> forall k | 0 <= k < i :: !c[k]
  {
    if i > 0 {
      TallyIsZero(c, i - 1);
    }
  }

  lemma {:induction false} TallyIsFull(c: seq<bool>, i: nat)
    requires i <= |c|
    ensures Tally(c, i) == i <==> forall k | 0 <= k < i :: c[k]
  {
    if i > 0 {
      TallyIsFull(c, i - 1);
    }
  }

  lemma {:induction false} TallyIsOne(c: seq<bool>, i: nat)
    requires i <= |c|
    ensures Tally(c, i) == 1 <==> exists m: nat :: OnlyOne(c, i, m)
  {
    if i > 0 {
      TallyIsOne(c, i - 1);
      TallyIsZero(c, i - 1);
      var before, now := Tally(c, i - 1), Tally(c, i);
      assert now == before + One(c[i - 1]);
      hide Tally;
      if now == 1 && c[i - 1] {
        assert OnlyOne(c, i, i - 1);
      } else if now == 1 {
        var m: nat :| OnlyOne(c, i - 1, m);
        assert OnlyOne(c, i, m);
      } else if exists m: nat :: OnlyOne(c, i, m) {
        OnlyOneBack(c, i, i - 1);
        assert false;
      }
    }
  }

  lemma OnlyOneBack(c: seq<bool>, i: nat, last: nat)
    requires i == last + 1 <= |c| && exists m: nat :: OnlyOne(c, i, m)
    ensures if c[last] then forall k | 0 <= k < last :: !c[k] else exists m: nat :: OnlyOne(c, last, m)
  {
    var m: nat :| OnlyOne(c, i, m);
    if !c[last] {
      assert OnlyOne(c, last, m);
    }
  }

  lemma {:induction false} RestTally(c: seq<bool>, i: nat)
    requires 0 < i <= |c|
    ensures Tally(c, i) > One(c[0]) <==> exists k :: 1 <= k < i && c[k]
  {
    if i > 1 {
      RestTally(c, i - 1);
      FirstCounts(c, i - 1);
    }
  }

  /** The kind of partial result that a fold over all keys gives for an operator. */
  function KindOf(op: Op): Kind {
    match op
    case AND => All
    case OR => Any
    case XOR => Odd
    case ONE => Once
    case _ => Rest
  }

  lemma SenseIsDeclared(op: Op, c: seq<bool>)
    requires |c| > 0
    ensures op in {AND, OR, XOR, ONE} ==> SenseAt(KindOf(op), c, |c|) == Declared(op, c)
    ensures SenseAt(Rest, c, |c|) == InRest(c)
  {
    TallyIsZero(c, |c|);
    TallyIsFull(c, |c|);
    TallyIsOne(c, |c|);
    RestTally(c, |c|);
    hide Tally;
  }

  lemma FoldIsRight(op: Op, keys: Keys, q: nat, x: Byte)
    requires op in {AND, OR, XOR, ONE} && Partial(KindOf(op), keys, q, |keys|, x)
    ensures Right(op, keys, q, x)
  {
    hide Column, BitOf, Declared, SenseAt;
    forall b: nat | b < 8
      ensures BitOf(x, b) == Declared(op, Column(keys, 8 * q + b))
    {
      SenseIsDeclared(op, Column(keys, 8 * q + b));
    }
  }

  /** How DIFF, DIFF1 and ANDOR join the disjunction of the other keys and the first one. */
  function JoinOf(op: Op): Combine {
    match op
    case DIFF => NotAnd
    case DIFF1 => AndNot
    case _ => And
  }

  lemma JoinIsRight(op: Op, keys: Keys, q: nat, rest: Byte)
    requires op in {DIFF, DIFF1, ANDOR} && Partial(Rest, keys, q, |keys|, rest)
    ensures Right(op, keys, q, Apply(JoinOf(op), rest, ByteAt(keys[0], q)))
  {
    hide Column, BitOf, SenseAt, Apply, ByteAt;
    var x := ByteAt(keys[0], q);
    forall b: nat | b < 8
      ensures BitOf(Apply(JoinOf(op), rest, x), b) == Declared(op, Column(keys, 8 * q + b))
    {
      SenseIsDeclared(op, Column(keys, 8 * q + b));
      ColumnBit(keys, q, b, 0);
      ApplyBits(JoinOf(op), rest, x, b);
    }
  }

  lemma FlipIsRight(keys: Keys, q: nat)
    requires |keys| > 0
    ensures Right(NOT, keys, q, Apply(Flip, ByteAt(keys[0], q), ByteAt(keys[0], q)))
  {
    hide Column, BitOf, ByteAt, Apply;
    var x := ByteAt(keys[0], q);
    var r := Apply(Flip, x, x);
    forall b: nat | b < 8
      ensures BitOf(r, b) == Declared(NOT, Column(keys, 8 * q + b))
    {
      ColumnBit(keys, q, b, 0);
      ApplyBits(Flip, x, x, b);
    }
  }
}
