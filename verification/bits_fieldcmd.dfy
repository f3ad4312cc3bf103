/** bitfieldGeneric: a list of GET, SET and INCRBY operations on one string. */
module BitfieldCommand {
  import opened Wrappers
  import opened BitmapBytes
  import opened Bitfield
  import opened BitfieldOverflow

  datatype Action = GET | SET(value: int) | INCRBY(incr: int)
  datatype FieldOp = FieldOp(action: Action, signed: bool, bits: nat, offset: nat, owtype: Overflow)
  datatype Reply = Number(n: int) | Nil

  predicate ValidOp(op: FieldOp) {
    && 0 < op.bits <= (if op.signed then 64 else 63)
    && (op.action.SET? ==> IsInt64(op.action.value))
    && (op.action.INCRBY? ==> IsInt64(op.action.incr))
  }

  /** The value of a field. */
  function Reading(s: seq<Byte>, signed: bool, bits: nat, offset: nat): int
    requires bits > 0
  {
    if signed then AsSigned(Field(s, offset, bits), bits) else Field(s, offset, bits)
  }

  lemma ReadingFits(s: seq<Byte>, signed: bool, bits: nat, offset: nat)
    requires bits > 0
    ensures Fits(Reading(s, signed, bits, offset), signed, bits)
  {
    assert Pow2(bits) == 2 * Pow2(bits - 1);
    hide Field;
  }

  /** The exact result of SET or INCRBY; SET of an unsigned field reads its argument modulo 2^64. */
  function Exact(op: FieldOp, was: int): int
    requires !op.action.GET?
  {
    if op.action.INCRBY? then was + op.action.incr
    else if op.signed then op.action.value else op.action.value % TWO_64
  }

  /** What is stored: the exact result where it fits, otherwise what the overflow type says. */
  function NewValue(op: FieldOp, was: int): Option<int>
    requires ValidOp(op) && !op.action.GET?
  {
    var x := Exact(op, was);
    if Fits(x, op.signed, op.bits) then Some(x)
    else
      match op.owtype
      case WRAP => Some(Wrapped(x, op.signed, op.bits))
      case SAT =>
        if op.signed && op.action.SET? && Misjudged(x, op.bits) then Some(Greatest(true, op.bits))
        else Some(Clamp(x, op.signed, op.bits))
      case FAIL => None
  }

  /** One operation: what it answers and what the string is afterwards. */
  ghost predicate StepOk(op: FieldOp, s: seq<Byte>, reply: Reply, t: seq<Byte>)
    requires ValidOp(op)
  {
    var was := Reading(s, op.signed, op.bits, op.offset);
    if op.action.GET? then t == s && reply == Number(was)
    else
      match NewValue(op, was)
      case None => t == s && reply == Nil
      case Some(x) =>
        && Stored(s, t, op.offset, op.bits, x % TWO_64)
        && reply == Number(if op.action.SET? then was else x)
  }

  /** The value an operation stores is the value that is read afterwards. */
  lemma StoredReads(s: seq<Byte>, t: seq<Byte>, signed: bool, bits: nat, offset: nat, x: int)
    requires 0 < bits <= 64 && Fits(x, signed, bits) && Stored(s, t, offset, bits, x % TWO_64)
    ensures Reading(t, signed, bits, offset) == x
  {
    StoreThenLoad(s, t, offset, bits, x % TWO_64);
    ModuloPowers(x, bits);
    WrappedIsUnique(x, x, signed, bits);
    ZeroModulo(0, Pow2(bits));
    hide Stored, Field, Fits;
  }

  predicate Writes(op: FieldOp) {
    !op.action.GET?
  }

  /** SET or INCRBY on a string that is long enough. */
  method WriteField(o: array<Byte>, op: FieldOp) returns (reply: Reply)
    requires ValidOp(op) && Writes(op) && op.offset + op.bits <= 8 * o.Length
    modifies o
    ensures StepOk(op, old(o[..]), reply, o[..])
  {
    hide Stored, Field, AsSigned, Pow2, Wrapped, Clamp, Fits, Misjudged, Greatest;
    ghost var s := o[..];
    ReadingFits(s, op.signed, op.bits, op.offset);
    var oldval, newval, retval: int;
    var code: int, limit: Option<int>;
    if op.signed {
      oldval := GetSignedBitfield(o[..], op.offset, op.bits);
      InRangeIsJudged(oldval, op.bits);
      if op.action.INCRBY? {
        FitsInt64(oldval, true, op.bits);
        code, limit := CheckSigned(oldval, op.action.incr, op.bits, op.owtype);
        newval := if code != 0 then limit.UnwrapOr(0) else oldval + op.action.incr;
        retval := newval;
      } else {
        newval := op.action.value;
        code, limit := CheckSigned(newval, 0, op.bits, op.owtype);
        if code != 0 { newval := limit.UnwrapOr(0); }
        retval := oldval;
      }
    } else {
      oldval := GetUnsignedBitfield(o[..], op.offset, op.bits);
      if op.action.INCRBY? {
        FitsInt64(oldval, false, op.bits);
        newval := (oldval + op.action.incr) % TWO_64;
        code, limit := CheckUnsigned(oldval, op.action.incr, op.bits, op.owtype);
        SumIsExact(oldval + op.action.incr, op.bits);
        if code != 0 { newval := limit.UnwrapOr(0); }
        retval := newval;
      } else {
        newval := op.action.value % TWO_64;
        code, limit := CheckUnsigned(newval, 0, op.bits, op.owtype);
        if code != 0 { newval := limit.UnwrapOr(0); }
        retval := oldval;
      }
    }
    if !(code != 0 && op.owtype == FAIL) {
      reply := Number(retval);
      if op.signed {
        SetSignedBitfield(o, op.offset, op.bits, newval);
      } else {
        SetUnsignedBitfield(o, op.offset, op.bits, newval % TWO_64);
      }
    } else {
      reply := Nil;
    }
  }

  lemma FitsInt64(x: int, signed: bool, bits: nat)
    requires 0 < bits <= (if signed then 64 else 63) && Fits(x, signed, bits)
    ensures IsInt64(x) && (!signed ==> 0 <= x)
  {
    if signed {
      SignedRange(x, bits);
    } else {
      UnsignedRange(x, bits);
    }
    hide Pow2;
  }

  lemma SumIsExact(x: int, bits: nat)
    requires 0 < bits <= 63
    ensures Fits(x, false, bits) ==> x % TWO_64 == x
  {
    UnsignedRange(x, bits);
    hide Pow2;
  }

  // ---------------------------------------------------------------- a whole command

  /** The highest bit that a command writes. */
  function Highest(ops: seq<FieldOp>): (h: nat)
    requires forall op | op in ops :: ValidOp(op)
    ensures forall op | op in ops && Writes(op) :: op.offset + op.bits - 1 <= h
  {
    if ops == [] then 0
    else
      var rest, op := Highest(ops[1..]), ops[0];
      if Writes(op) && rest < op.offset + op.bits - 1 then op.offset + op.bits - 1 else rest
  }

  /** The string a command works on: grown when some operation writes. */
  function Start(s: seq<Byte>, ops: seq<FieldOp>): seq<Byte>
    requires forall op | op in ops :: ValidOp(op)
  {
    if exists op :: op in ops && Writes(op) then Grown(s, Highest(ops)) else s
  }

  /** Each operation starts from the string that the one before it left. */
  ghost predicate Run(ops: seq<FieldOp>, replies: seq<Reply>, states: seq<seq<Byte>>) {
    && |replies| == |ops| && |states| == |ops| + 1
    && forall i | 0 <= i < |ops| :: ValidOp(ops[i]) && StepOk(ops[i], states[i], replies[i], states[i + 1])
  }

  datatype Result = Done(replies: seq<Reply>, final: seq<Byte>) | OnlyGetAllowed

  method OneOp(o: array<Byte>, op: FieldOp) returns (reply: Reply)
    requires ValidOp(op) && (Writes(op) ==> op.offset + op.bits <= 8 * o.Length)
    modifies o
    ensures StepOk(op, old(o[..]), reply, o[..])
  {
    hide Field, AsSigned, NewValue;
    if Writes(op) {
      reply := WriteField(o, op);
    } else {
      var value := GetField(o[..], op.offset, op.bits, op.signed);
      reply := Number(value);
    }
  }

  /** bitfieldGeneric, for BITFIELD and, with `readonly`, for BITFIELD_RO. */
  method BitfieldGeneric(s: seq<Byte>, ops: seq<FieldOp>, readonly: bool)
    returns (r: Result, ghost states: seq<seq<Byte>>)
    requires forall op | op in ops :: ValidOp(op)
    ensures r.OnlyGetAllowed? <==> readonly && exists op :: op in ops && Writes(op)
    ensures r.Done? ==>
      Run(ops, r.replies, states) && states[0] == Start(s, ops) && states[|ops|] == r.final
  {
    hide StepOk, Highest, Grown;
    states := [];
    if (exists op :: op in ops && Writes(op)) && readonly {
      return OnlyGetAllowed, states;
    }
    var start := Start(s, ops);
    var o := new Byte[|start|](i requires 0 <= i < |start| => start[i]);
    assert o[..] == start;
    states := [start];
    var replies: seq<Reply> := [];
    for j := 0 to |ops|
      invariant |replies| == j && |states| == j + 1 && states[0] == start && states[j] == o[..]
      invariant o.Length == |start|
      invariant forall i | 0 <= i < j :: StepOk(ops[i], states[i], replies[i], states[i + 1])
    {
      var reply := OneOp(o, ops[j]);
      replies := replies + [reply];
      states := states + [o[..]];
    }
    r := Done(replies, o[..]);
  }

  // ---------------------------------------------------------------- what a run does to one field

  predicate Apart(op: FieldOp, bits: nat, offset: nat) {
    op.action.GET? || op.offset + op.bits <= offset || offset + bits <= op.offset
  }

  lemma StepApart(op: FieldOp, s: seq<Byte>, reply: Reply, t: seq<Byte>, signed: bool, bits: nat, offset: nat)
    requires ValidOp(op) && StepOk(op, s, reply, t) && bits > 0 && Apart(op, bits, offset)
    ensures Reading(t, signed, bits, offset) == Reading(s, signed, bits, offset)
  {
    var was := Reading(s, op.signed, op.bits, op.offset);
    if !op.action.GET? && NewValue(op, was).Some? {
      var x := NewValue(op, was).value % TWO_64;
      hide NewValue, Reading, Stored;
      StoreElsewhere(s, t, op.offset, op.bits, x, offset, bits);
    }
  }

  lemma StepReads(op: FieldOp, s: seq<Byte>, reply: Reply, t: seq<Byte>)
    requires ValidOp(op) && StepOk(op, s, reply, t) && Writes(op)
    ensures var was, now := Reading(s, op.signed, op.bits, op.offset), Reading(t, op.signed, op.bits, op.offset);
      && now == (match NewValue(op, was) case None => was case Some(x) => x)
      && (op.action.INCRBY? ==> reply == match NewValue(op, was) case None => Nil case Some(x) => Number(x))
      && (op.action.SET? ==> reply == match NewValue(op, was) case None => Nil case Some(_) => Number(was))
  {
    var was := Reading(s, op.signed, op.bits, op.offset);
    hide Reading, NewValue, Stored, Fits;
    if NewValue(op, was).Some? {
      StoredReads(s, t, op.signed, op.bits, op.offset, NewValue(op, was).value);
    }
  }

  /** What SET leaves in the field: the value if the field can hold it; otherwise with WRAP a value with the same
      low bits, with SAT the nearest value of the field, except that a negative value saturates an unsigned field
      upwards, as a value near the least 64-bit integer does in a signed one, and with FAIL what was there. */
  lemma SetReads(op: FieldOp, s: seq<Byte>, reply: Reply, t: seq<Byte>)
    requires ValidOp(op) && op.action.SET? && StepOk(op, s, reply, t)
    ensures var v, was := op.action.value, Reading(s, op.signed, op.bits, op.offset);
      var now, p := Reading(t, op.signed, op.bits, op.offset), Pow2(op.bits - 1);
      var least, greatest := if op.signed then -(p as int) else 0, if op.signed then p - 1 else 2 * p - 1;
      && least <= now <= greatest
      && (least <= v <= greatest ==> now == v && reply == Number(was))
      && (!(least <= v <= greatest) ==>
            && (op.owtype == WRAP ==> (now - v) % Pow2(op.bits) == 0 && reply == Number(was))
            && (op.owtype == SAT && v > greatest ==> now == greatest && reply == Number(was))
            && (op.owtype == SAT && v < least ==>
                  && reply == Number(was)
                  && now == if !op.signed || (op.bits < 64 && v < INT64_MIN + p) then greatest else least)
            && (op.owtype == FAIL ==> t == s && reply == Nil))
  {
    var v := op.action.value;
    var was := Reading(s, op.signed, op.bits, op.offset);
    StepReads(op, s, reply, t);
    ReadingFits(t, op.signed, op.bits, op.offset);
    SetExact(op, was);
    hide Reading, Stored, NewValue, Wrapped, Exact;
  }

  lemma SetExact(op: FieldOp, was: int)
    requires ValidOp(op) && op.action.SET?
    ensures var v, p, stored := op.action.value, Pow2(op.bits - 1), NewValue(op, was);
      var least, greatest := if op.signed then -(p as int) else 0, if op.signed then p - 1 else 2 * p - 1;
      && least == Least(op.signed, op.bits) && greatest == Greatest(op.signed, op.bits)
      && (least <= v <= greatest ==> stored == Some(v))
      && (!(least <= v <= greatest) ==>
            && (op.owtype == WRAP ==> stored.Some? && (stored.value - v) % Pow2(op.bits) == 0)
            && (op.owtype == SAT && v > greatest ==> stored == Some(greatest))
            && (op.owtype == SAT && v < least ==>
                  stored == Some(if !op.signed || (op.bits < 64 && v < INT64_MIN + p) then greatest else least))
            && (op.owtype == FAIL ==> stored == None))
  {
    var v, x, p := op.action.value, Exact(op, was), Pow2(op.bits - 1);
    assert Pow2(op.bits) == 2 * p;
    WrappedIsUnique(x, x, op.signed, op.bits);
    if op.signed {
      SignedRange(v, op.bits);
    } else {
      UnsignedRange(v, op.bits);
      ModuloPowers(v, op.bits);
      WrappedIsUnique(v, v, false, op.bits);
      assert Wrapped(x, false, op.bits) == Wrapped(v, false, op.bits);
    }
    hide Pow2, Wrapped;
  }

  /** What INCRBY leaves in the field: the sum if the field can hold it; otherwise with WRAP a value with the same
      low bits, with SAT the end of the range that was passed, and with FAIL what was there. */
  lemma IncrReads(op: FieldOp, s: seq<Byte>, reply: Reply, t: seq<Byte>)
    requires ValidOp(op) && op.action.INCRBY? && StepOk(op, s, reply, t)
    ensures var sum := Reading(s, op.signed, op.bits, op.offset) + op.action.incr;
      var now, p := Reading(t, op.signed, op.bits, op.offset), Pow2(op.bits - 1);
      var least, greatest := if op.signed then -(p as int) else 0, if op.signed then p - 1 else 2 * p - 1;
      && least <= now <= greatest
      && (least <= sum <= greatest ==> now == sum && reply == Number(now))
      && (!(least <= sum <= greatest) ==>
            && (op.owtype == WRAP ==> (now - sum) % Pow2(op.bits) == 0 && reply == Number(now))
            && (op.owtype == SAT ==> now == (if sum < least then least else greatest) && reply == Number(now))
            && (op.owtype == FAIL ==> t == s && reply == Nil))
  {
    var was := Reading(s, op.signed, op.bits, op.offset);
    var sum := was + op.action.incr;
    StepReads(op, s, reply, t);
    ReadingFits(t, op.signed, op.bits, op.offset);
    WrappedIsUnique(sum, sum, op.signed, op.bits);
    assert Pow2(op.bits) == 2 * Pow2(op.bits - 1);
    hide Reading, Stored, Wrapped, Pow2;
  }

  /** The increments of one field. */
  function Sum(ops: seq<FieldOp>, n: nat, signed: bool, bits: nat, offset: nat): int
    requires n <= |ops|
  {
    if n == 0 then 0
    else Sum(ops, n - 1, signed, bits, offset) +
         if Adds(ops[n - 1], signed, bits, offset) then ops[n - 1].action.incr else 0
  }

  predicate Adds(op: FieldOp, signed: bool, bits: nat, offset: nat) {
    op.action.INCRBY? && op.owtype == WRAP && op.signed == signed && op.bits == bits && op.offset == offset
  }

  /** A field that is only ever incremented with wrapping is a counter modulo 2^bits, whatever the other
      operations do to other fields. */
  lemma {:induction false} WrappingCounter(ops: seq<FieldOp>, replies: seq<Reply>, states: seq<seq<Byte>>, n: nat,
      signed: bool, bits: nat, offset: nat)
    requires Run(ops, replies, states) && n <= |ops| && bits > 0
    requires forall op | op in ops :: Adds(op, signed, bits, offset) || Apart(op, bits, offset)
    ensures Reading(states[n], signed, bits, offset) ==
            Wrapped(Reading(states[0], signed, bits, offset) + Sum(ops, n, signed, bits, offset), signed, bits)
    decreases n
  {
    hide Reading, Wrapped, StepOk, Fits, Adds, Apart;
    var first := Reading(states[0], signed, bits, offset);
    if n == 0 {
      ReadingFits(states[0], signed, bits, offset);
      ItselfWrapped(first, signed, bits);
    } else {
      WrappingCounter(ops, replies, states, n - 1, signed, bits, offset);
      var op, before := ops[n - 1], Sum(ops, n - 1, signed, bits, offset);
      assert op in ops && StepOk(op, states[n - 1], replies[n - 1], states[n]);
      hide Run;
      CounterStep(op, states[n - 1], replies[n - 1], states[n], signed, bits, offset, first + before);
    }
  }

  lemma CounterStep(op: FieldOp, s: seq<Byte>, reply: Reply, t: seq<Byte>, signed: bool, bits: nat, offset: nat, x: int)
    requires ValidOp(op) && StepOk(op, s, reply, t) && bits > 0
    requires Reading(s, signed, bits, offset) == Wrapped(x, signed, bits)
    requires Adds(op, signed, bits, offset) || Apart(op, bits, offset)
    ensures Reading(t, signed, bits, offset) ==
            Wrapped(x + if Adds(op, signed, bits, offset) then op.action.incr else 0, signed, bits)
  {
    if Adds(op, signed, bits, offset) {
      StepReads(op, s, reply, t);
      ItselfWrapped(Exact(op, Reading(s, signed, bits, offset)), signed, bits);
      WrapAgain(x, op.action.incr, signed, bits);
      hide Reading, Wrapped, StepOk, Fits;
    } else {
      StepApart(op, s, reply, t, signed, bits, offset);
    }
  }

  lemma ItselfWrapped(x: int, signed: bool, bits: nat)
    requires bits > 0
    ensures Fits(x, signed, bits) ==> Wrapped(x, signed, bits) == x
  {
    WrappedIsUnique(x, x, signed, bits);
    ZeroModulo(0, Pow2(bits));
    hide Wrapped, Fits;
  }

  lemma WrapAgain(x: int, incr: int, signed: bool, bits: nat)
    requires bits > 0
    ensures Wrapped(Wrapped(x, signed, bits) + incr, signed, bits) == Wrapped(x + incr, signed, bits)
  {
    var w := Wrapped(x, signed, bits);
    WrappedIsUnique(x, 0, signed, bits);
    WrappedIsUnique(w + incr, 0, signed, bits);
    var y := Wrapped(w + incr, signed, bits);
    WrappedIsUnique(x + incr, y, signed, bits);
    hide Wrapped, Fits;
    AddMultiples(w - x, y - (w + incr), Pow2(bits));
    assert (w - x) + (y - (w + incr)) == y - (x + incr);
  }

  /** Making room changes no field, not even one that ends behind the string. */
  lemma StartReads(s: seq<Byte>, ops: seq<FieldOp>, signed: bool, bits: nat, offset: nat)
    requires bits > 0 && forall op | op in ops :: ValidOp(op)
    ensures Reading(Start(s, ops), signed, bits, offset) == Reading(s, signed, bits, offset)
  {
    GrownReads(s, Highest(ops), offset, bits);
    hide Field, Grown, Highest;
  }
}
