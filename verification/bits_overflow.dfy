/** Overflow of a bitfield that is set or incremented. */
module BitfieldOverflow {
  import opened Wrappers
  import opened Bitfield

  datatype Overflow = WRAP | SAT | FAIL

  const INT64_MIN := -0x8000_0000_0000_0000
  const INT64_MAX := 0x7fff_ffff_ffff_ffff
  const TWO_64 := 0x1_0000_0000_0000_0000

  predicate IsInt64(x: int) {
    INT64_MIN <= x <= INT64_MAX
  }

  /** The 64-bit integer with the same low bits. */
  function Int64(x: int): int {
    (x - INT64_MIN) % TWO_64 + INT64_MIN
  }

  lemma Int64Fits(x: int)
    ensures IsInt64(x) ==> Int64(x) == x
    ensures INT64_MAX < x <= INT64_MAX + TWO_64 ==> Int64(x) == x - TWO_64
  {
  }

  // ---------------------------------------------------------------- what the operations are to compute

  function Least(signed: bool, bits: nat): int
    requires bits > 0
  {
    var half: int := Pow2(bits - 1);
    if signed then -half else 0
  }

  function Greatest(signed: bool, bits: nat): int
    requires bits > 0
  {
    if signed then Pow2(bits - 1) - 1 else Pow2(bits) - 1
  }

  predicate Fits(x: int, signed: bool, bits: nat)
    requires bits > 0
  {
    Least(signed, bits) <= x <= Greatest(signed, bits)
  }

  function Clamp(x: int, signed: bool, bits: nat): int
    requires bits > 0
  {
    if x > Greatest(signed, bits) then Greatest(signed, bits)
    else if x < Least(signed, bits) then Least(signed, bits) else x
  }

  /** `x` modulo 2^bits, as a value of the field. */
  function Wrapped(x: int, signed: bool, bits: nat): int
    requires bits > 0
  {
    if signed then AsSigned(x % Pow2(bits), bits) else x % Pow2(bits)
  }

  predicate Congruent(x: int, y: int, bits: nat) {
    (x - y) % Pow2(bits) == 0
  }

  lemma ModuloOf(x: int, p: int)
    requires p > 0
    ensures (x % p - x) % p == 0 && 0 <= x % p < p
  {
    var q := x / p;
    assert x == q * p + x % p;
    ZeroModulo(-q, p);
    assert -q * p == x % p - x;
  }

  lemma AtLeastOnce(k: int, p: int)
    requires p > 0 && k >= 1
    ensures k * p >= p
  {
  }

  lemma ZeroModulo(q: int, p: int)
    requires p > 0
    ensures (q * p) % p == 0
  {
    var r := (q * p) % p;
    var d := (q * p) / p;
    assert q * p == d * p + r;
    assert (q - d) * p == r && (d - q) * p == -r;
    if q > d {
      AtLeastOnce(q - d, p);
    } else if q < d {
      AtLeastOnce(d - q, p);
    }
  }

  lemma MultipleOf(x: int, p: int)
    requires p > 0 && x % p == 0 && -p < x < p
    ensures x == 0
  {
  }

  lemma AddMultiples(x: int, y: int, p: int)
    requires p > 0 && x % p == 0 && y % p == 0
    ensures (x + y) % p == 0 && (x - y) % p == 0
  {
    var a, b := x / p, y / p;
    assert x == a * p && y == b * p;
    assert (a + b) * p == x + y && (a - b) * p == x - y;
    ZeroModulo(a + b, p);
    ZeroModulo(a - b, p);
  }

  /** Wrapping gives a value of the field that is congruent to the exact result, and there is no other one. */
  lemma WrappedIsUnique(x: int, y: int, signed: bool, bits: nat)
    requires bits > 0
    ensures Fits(Wrapped(x, signed, bits), signed, bits) && Congruent(Wrapped(x, signed, bits), x, bits)
    ensures Fits(y, signed, bits) && Congruent(y, x, bits) ==> y == Wrapped(x, signed, bits)
  {
    var p := Pow2(bits);
    assert p == 2 * Pow2(bits - 1);
    ModuloOf(x, p);
    ZeroModulo(1, p);
    assert 1 * p == p;
    AddMultiples(x % p - x, p, p);
    var w := Wrapped(x, signed, bits);
    assert Congruent(w, x, bits);
    if Fits(y, signed, bits) && Congruent(y, x, bits) {
      AddMultiples(y - x, w - x, p);
      assert (y - x) - (w - x) == y - w;
      MultipleOf(y - w, p);
    }
  }

  // ---------------------------------------------------------------- the checks

  /** The range of an unsigned field, and the wrapped sum as 64-bit arithmetic computes it. */
  lemma UnsignedRange(x: int, bits: nat)
    requires 0 < bits <= 63
    ensures Greatest(false, bits) == Pow2(bits) - 1 <= INT64_MAX && Least(false, bits) == 0
    ensures (x % TWO_64) % Pow2(bits) == Wrapped(x, false, bits)
  {
    PowersGrow(bits, 63);
    Pow64();
    ModuloPowers(x, bits);
    hide Pow2;
  }

  /** 2^bits divides 2^64. */
  lemma ModuloPowers(x: int, bits: nat)
    requires bits <= 64
    ensures (x % TWO_64) % Pow2(bits) == x % Pow2(bits)
  {
    var p, c := Pow2(bits), Pow2(64 - bits);
    PowerSum(64 - bits, bits);
    Pow64();
    hide Pow2;
    assert c * p == TWO_64;
    NestedModulo(x, p, c);
  }

  lemma NestedModulo(x: int, p: int, c: int)
    requires p > 0 && c > 0 && c * p > 0
    ensures (x % (c * p)) % p == x % p
  {
    var q, r := x / (c * p), x % (c * p);
    assert x == q * (c * p) + r;
    assert q * (c * p) == (q * c) * p;
    SameModulo(r, p, q * c);
  }

  lemma SameModulo(r: int, p: int, k: int)
    requires p > 0
    ensures (k * p + r) % p == r % p
  {
    var a, b := (k * p + r) % p, r % p;
    ModuloOf(k * p + r, p);
    ModuloOf(r, p);
    ZeroModulo(k, p);
    AddMultiples(a - (k * p + r), k * p, p);
    AddMultiples(a - r, b - r, p);
    assert a - (k * p + r) + k * p == a - r && (a - r) - (b - r) == a - b;
    MultipleOf(a - b, p);
  }

  /** checkUnsignedBitfieldOverflow. With WRAP the code is 1 in both directions. A field is 63 bits wide at
      most, and a value that does not fit comes with no increment. */
  method CheckUnsigned(value: nat, incr: int, bits: nat, owtype: Overflow) returns (code: int, limit: Option<int>)
    requires 0 < bits <= 63 && value < TWO_64 && IsInt64(incr)
    requires Fits(value, false, bits) || incr == 0
    ensures code == 0 <==> Fits(value + incr, false, bits)
    ensures code == 0 || owtype == FAIL ==> limit == None
    ensures code != 0 && owtype == WRAP ==> code == 1 && limit == Some(Wrapped(value + incr, false, bits))
    ensures code != 0 && owtype == SAT ==> limit == Some(Clamp(value + incr, false, bits))
    ensures code != 0 && owtype != WRAP ==> code == if value + incr < 0 then -1 else 1
  {
    UnsignedRange(value + incr, bits);
    hide Pow2, Wrapped, Int64;
    Int64Fits(Pow2(bits) - 1 - value);
    Int64Fits(-(value as int));
    var max: int := Pow2(bits) - 1;
    var maxincr := Int64(max - value);
    var minincr := Int64(-(value as int));
    limit := None;
    if value > max || (incr > 0 && incr > maxincr) {
      match owtype {
        case WRAP => limit := Some(((value + incr) % TWO_64) % Pow2(bits));
        case SAT => limit := Some(max);
        case FAIL =>
      }
      return 1, limit;
    } else if incr < 0 && incr < minincr {
      match owtype {
        case WRAP =>
          limit := Some(((value + incr) % TWO_64) % Pow2(bits));
          return 1, limit;
        case SAT => limit := Some(0);
        case FAIL =>
      }
      return -1, limit;
    }
    return 0, limit;
  }

  /** The values for which the difference to the greatest value wraps around to a negative number, so that
      an underflow passes for an overflow. */
  predicate Misjudged(value: int, bits: nat)
    requires bits > 0
  {
    bits < 64 && value < INT64_MIN + Pow2(bits - 1)
  }

  lemma SignedRange(x: int, bits: nat)
    requires 0 < bits <= 64
    ensures 1 <= Pow2(bits - 1) <= 0x8000_0000_0000_0000
    ensures bits < 64 ==> Pow2(bits - 1) <= 0x4000_0000_0000_0000
    ensures bits == 64 ==> Pow2(bits - 1) == 0x8000_0000_0000_0000
    ensures Greatest(true, bits) == Pow2(bits - 1) - 1 && Least(true, bits) == -(Pow2(bits - 1) as int)
  {
    Pow64();
    PowersGrow(bits - 1, 63);
    assert Pow2(63) == 2 * Pow2(62);
    if bits < 64 {
      PowersGrow(bits - 1, 62);
    }
    hide Pow2;
  }

  /** A value in range is never misjudged. */
  lemma InRangeIsJudged(value: int, bits: nat)
    requires 0 < bits <= 64 && Fits(value, true, bits)
    ensures !Misjudged(value, bits)
  {
    SignedRange(value, bits);
    hide Pow2;
  }

  /** handle_wrap: an addition modulo 2^64, then the bits above the field are set or cleared. */
  function WrapSigned(x: int, bits: nat): int
    requires 0 < bits <= 64
  {
    var c := x % TWO_64;
    var low := c % Pow2(bits);
    var capped :=
      if bits == 64 then c
      else if ValueBit(c, bits - 1) then low + (TWO_64 - Pow2(bits))
      else low;
    Int64(capped)
  }

  lemma {:induction false} SameTopBit(c: nat, bits: nat)
    requires 0 < bits
    ensures ValueBit(c, bits - 1) == ValueBit(Low(c, bits), bits - 1)
  {
    var k := bits - 1;
    var h := Pow2(k);
    ShiftIsDivision(c, k);
    ShiftIsDivision(Low(c, bits), k);
    assert Pow2(bits) == 2 * h;
    hide Pow2;
    Parts(c, h);
    Parts(c / h, 2);
    var q, r := c / h, c % h;
    Spread(q / 2, q % 2, h);
    Remainder(c, 2 * h, q / 2, (q % 2) * h + r);
    DivideOnce((q % 2) * h + r, h, q % 2);
  }

  lemma WrapSignedIsWrapped(x: int, bits: nat)
    requires 0 < bits <= 64
    ensures WrapSigned(x, bits) == Wrapped(x, true, bits)
  {
    var c := x % TWO_64;
    ModuloPowers(x, bits);
    SameTopBit(c, bits);
    TopBit(Low(c, bits), bits);
    SignedRange(x, bits);
    assert Pow2(bits) == 2 * Pow2(bits - 1);
    Pow64();
    hide Pow2, ValueBit, Int64;
    var low := Low(c, bits);
    Int64Fits(low);
    Int64Fits(c);
    Int64Fits(low + (TWO_64 - Pow2(bits)));
  }

  /** checkSignedBitfieldOverflow. SAT gives the nearest value of the field except for the misjudged values,
      which only SET can bring. */
  method CheckSigned(value: int, incr: int, bits: nat, owtype: Overflow) returns (code: int, limit: Option<int>)
    requires 0 < bits <= 64 && IsInt64(value) && IsInt64(incr)
    requires Fits(value, true, bits) || incr == 0
    ensures code == 0 <==> Fits(value + incr, true, bits)
    ensures code == 0 || owtype == FAIL ==> limit == None
    ensures code != 0 && owtype == WRAP ==> code == 1 && limit == Some(Wrapped(value + incr, true, bits))
    ensures code != 0 && owtype == SAT ==>
      limit == Some(if Misjudged(value, bits) then Greatest(true, bits) else Clamp(value + incr, true, bits))
    ensures code != 0 && owtype != WRAP ==> code == if value + incr < 0 && !Misjudged(value, bits) then -1 else 1
  {
    SignedRange(value, bits);
    WrapSignedIsWrapped(value + incr, bits);
    hide Pow2, Wrapped, Int64, WrapSigned;
    var max: int := Pow2(bits - 1) - 1;
    var min := -max - 1;
    Int64Fits(max - value);
    Int64Fits(min - value);
    var maxincr := Int64(max - value);
    var minincr := Int64(min - value);
    limit := None;
    if value > max || (bits != 64 && incr > maxincr) || (value >= 0 && incr > 0 && incr > maxincr) {
      match owtype {
        case WRAP => limit := Some(WrapSigned(value + incr, bits));
        case SAT => limit := Some(max);
        case FAIL =>
      }
      return 1, limit;
    } else if value < min || (bits != 64 && incr < minincr) || (value < 0 && incr < 0 && incr < minincr) {
      match owtype {
        case WRAP =>
          limit := Some(WrapSigned(value + incr, bits));
          return 1, limit;
        case SAT => limit := Some(min);
        case FAIL =>
      }
      return -1, limit;
    }
    return 0, limit;
  }

  /** Saturating a value that SET brings gives the nearest value of the field if and only if the value is
      not misjudged. */
  lemma SaturationExact(value: int, bits: nat)
    requires 0 < bits <= 64 && IsInt64(value)
    ensures (if Misjudged(value, bits) then Greatest(true, bits) else Clamp(value, true, bits)) == Clamp(value, true, bits)
            <==> !Misjudged(value, bits)
    ensures Misjudged(value, bits) ==> Clamp(value, true, bits) == Least(true, bits)
  {
    SignedRange(value, bits);
    hide Pow2;
  }

  /** SET i8 to the least 64-bit integer, saturating, stores 127. */
  method LeastIntegerSaturatesUpwards() returns (limit: Option<int>)
    ensures limit == Some(127) && Clamp(INT64_MIN, true, 8) == -128
  {
    assert Pow2(7) == 128;
    SignedRange(INT64_MIN, 8);
    hide Pow2;
    var code;
    code, limit := CheckSigned(INT64_MIN, 0, 8, SAT);
  }
}
