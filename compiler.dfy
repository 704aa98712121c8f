// What the JIT compiler's builders compute (`lang/src/compiler/mod.rs`),
// stated on values rather than on LLVM instructions: the names of intrinsic
// types, the intrinsic function table, the truthiness of a condition, the
// division and bit-shift guards, vector casts, conversion to a boolean, the
// split of a function's variables into in/out and stack variables, and
// the return codes.
//
// An LLVM integer value of width 64 is held as its bit pattern, a natural
// below 2^64 (`Word`); `ToSigned` reads it as two's complement. A vector
// value is the sequence of its lanes.
module Jit {
  import opened Wrappers
  import opened Numbers
  import opened LangTypes

  /** The source's debug switch; with it on, every variable is passed in/out. */
  const DEBUG_MODE: bool := false

  // ---------------------------------------------------------------------
  // Machine integers.

  const WORD_MODULUS: nat := 0x1_0000_0000_0000_0000
  const INT_MIN: int := -0x8000_0000_0000_0000
  const INT_MAX: int := 0x7FFF_FFFF_FFFF_FFFF

  /** The bits of a 64-bit integer value. */
  type Word = w: nat | w < 0x1_0000_0000_0000_0000

  /** The bits of an 8-bit cell-state value. */
  type CellBits = c: nat | c < 0x100

  predicate InRange(x: int)
  {
    INT_MIN <= x <= INT_MAX
  }

  /** The two's-complement reading of a word. */
  function ToSigned(w: Word): (r: int)
    ensures InRange(r)
    ensures r >= 0 <==> w < 0x8000_0000_0000_0000
  {
    if w < 0x8000_0000_0000_0000 then w else w - WORD_MODULUS
  }

  /** `const_int`: a sign-extended constant. */
  function ConstInt(v: int): (r: Word)
    requires InRange(v)
    ensures ToSigned(r) == v
  {
    if v >= 0 then v else v + WORD_MODULUS
  }

  /** `const_uint`: a zero-extended constant. */
  function ConstUint(v: nat): (r: Word)
    requires v < WORD_MODULUS
    ensures r == v && ToSigned(r) == (if v < 0x8000_0000_0000_0000 then v else v - WORD_MODULUS)
  {
    v
  }

  /** A zero-extended constant is the sign-extended constant of its
      two's-complement reading, and below 2^63 the two agree. */
  lemma {:induction false} ConstUintSigned(v: nat)
    requires v < WORD_MODULUS
    ensures InRange(ToSigned(v)) && ConstUint(v) == ConstInt(ToSigned(v))
    ensures v < 0x8000_0000_0000_0000 ==> ConstUint(v) == ConstInt(v)
  {
  }

  /** Reading as two's complement loses nothing. */
  lemma {:induction false} ToSignedInjective(a: Word, b: Word)
    ensures ToSigned(a) == ToSigned(b) <==> a == b
  {
  }

  lemma {:induction false} Pow2Of63()
    ensures Pow2(63) == 0x8000_0000_0000_0000
  {
    assert Pow2(3) == 8;
    Pow2Add(3, 3);
    assert Pow2(6) == 64;
    Pow2Add(6, 6);
    assert Pow2(12) == 0x1000;
    Pow2Add(12, 12);
    assert Pow2(24) == 0x100_0000;
    Pow2Add(24, 24);
    assert Pow2(48) == 0x1_0000_0000_0000;
    Pow2Add(48, 12);
    assert Pow2(60) == 0x1000_0000_0000_0000;
    Pow2Add(60, 3);
  }

  /** `const_shl` on 64-bit words: bits shifted past the top are lost. */
  function ShiftLeft(w: Word, amount: nat): Word
    requires amount < INT_BITS
  {
    (w * Pow2(amount)) % WORD_MODULUS
  }

  /** `get_min_int_value`: 1 shifted left by one less than the width; it is
      the least signed 64-bit integer. */
  function MinIntValue(): (r: Word)
    ensures ToSigned(r) == INT_MIN
    ensures forall w: Word :: ToSigned(r) <= ToSigned(w)
  {
    Pow2Of63();
    ShiftLeft(ConstUint(1), INT_BITS - 1)
  }

  // ---------------------------------------------------------------------
  // Lane-wise operations and reductions (the LLVM instructions the checks
  // build; a scalar is a one-lane vector).

  function CompareEq(a: seq<Word>, b: seq<Word>): (r: seq<bool>)
    requires |a| == |b|
    ensures |r| == |a| && forall i :: 0 <= i < |a| ==> r[i] == (a[i] == b[i])
  {
    seq(|a|, i requires 0 <= i < |a| => a[i] == b[i])
  }

  /** Unsigned less-than on the bit patterns. */
  function CompareUlt(a: seq<Word>, b: seq<Word>): (r: seq<bool>)
    requires |a| == |b|
    ensures |r| == |a| && forall i :: 0 <= i < |a| ==> r[i] == (a[i] < b[i])
  {
    seq(|a|, i requires 0 <= i < |a| => a[i] < b[i])
  }

  function AndLanes(a: seq<bool>, b: seq<bool>): (r: seq<bool>)
    requires |a| == |b|
    ensures |r| == |a| && forall i :: 0 <= i < |a| ==> r[i] == (a[i] && b[i])
  {
    seq(|a|, i requires 0 <= i < |a| => a[i] && b[i])
  }

  /** `build_reduce("or", ..)` on flags: true iff some lane is true. */
  function ReduceOr(bs: seq<bool>): (r: bool)
    ensures r <==> exists i :: 0 <= i < |bs| && bs[i]
  {
    if bs == [] then false else ReduceOr(bs[..|bs| - 1]) || bs[|bs| - 1]
  }

  /** An and-reduction: true iff every lane is true. */
  function ReduceAnd(bs: seq<bool>): (r: bool)
    ensures r <==> forall i :: 0 <= i < |bs| ==> bs[i]
  {
    if bs == [] then true else ReduceAnd(bs[..|bs| - 1]) && bs[|bs| - 1]
  }

  /** Bitwise OR of two naturals. */
  function BitOr(a: nat, b: nat): (r: nat)
    ensures r == 0 <==> a == 0 && b == 0
    decreases a + b
  {
    if a == 0 then b
    else if b == 0 then a
    else 2 * BitOr(a / 2, b / 2) + (if a % 2 == 1 || b % 2 == 1 then 1 else 0)
  }

  /** OR of two k-bit values is a k-bit value. */
  lemma {:induction false} BitOrBound(a: nat, b: nat, k: nat)
    requires a < Pow2(k) && b < Pow2(k)
    ensures BitOr(a, b) < Pow2(k)
    decreases a + b
  {
    if a != 0 && b != 0 {
      assert k >= 1;
      BitOrBound(a / 2, b / 2, k - 1);
    }
  }

  /** `build_reduce("or", ..)` on a vector of integers. */
  function OrReduce(ws: seq<Word>): (r: nat)
    ensures r == 0 <==> forall i :: 0 <= i < |ws| ==> ws[i] == 0
  {
    if ws == [] then 0 else BitOr(OrReduce(ws[..|ws| - 1]), ws[|ws| - 1])
  }

  /** The reduction of 64-bit lanes is again a 64-bit value. */
  lemma {:induction false} OrReduceIsWord(ws: seq<Word>)
    ensures OrReduce(ws) < WORD_MODULUS
  {
    Pow2Of63();
    if ws != [] {
      OrReduceIsWord(ws[..|ws| - 1]);
      BitOrBound(OrReduce(ws[..|ws| - 1]), ws[|ws| - 1], 64);
    }
  }

  // ---------------------------------------------------------------------
  // Values and vector casts.

  datatype Value = IntVal(i: Word) | CellStateVal(c: CellBits) | VectorVal(lanes: seq<Word>)

  function ValueType(v: Value): Type
  {
    match v
    case IntVal(_) => Int
    case CellStateVal(_) => CellState
    case VectorVal(ls) => Vector(|ls|)
  }

  /** Lane k of a cast to a vector: the integer itself, or the vector's lane
      k, zero past its end. */
  function CastLane(v: Value, k: nat): Word
  {
    match v
    case IntVal(i) => i
    case VectorVal(ls) => if k < |ls| then ls[k] else 0
    case CellStateVal(_) => 0
  }

  /** `build_vector_cast`: an integer is repeated `len` times; a vector of
      length `len` is returned whole; any other vector is cut or padded
      with zeros; a cell state is an internal error. */
  function VectorCast(v: Value, len: nat): (r: Result<seq<Word>, LangError>)
    ensures r.Ok? <==> !v.CellStateVal?
    ensures r.Ok? ==> |r.value| == len && forall k :: 0 <= k < len ==> r.value[k] == CastLane(v, k)
  {
    match v
    case IntVal(i) => Ok(seq(len, _ => i))
    case VectorVal(ls) =>
      if |ls| == len then Ok(ls)
      else Ok(seq(len, k requires 0 <= k < len => if k < |ls| then ls[k] else 0))
    case CellStateVal(_) =>
      Err(LangError(InternalError("Cannot convert " + DisplayName(ValueType(v)) + " to vector"), None))
  }

  /** An integer constant as a vector of `len` equal lanes. */
  function Splat(w: Word, len: nat): (r: seq<Word>)
    ensures |r| == len && forall k :: 0 <= k < len ==> r[k] == w
  {
    VectorCast(IntVal(w), len).value
  }

  /** Casting to a vector's own length changes nothing, and casting twice
      to the same length as casting once. */
  lemma {:induction false} VectorCastIdempotent(v: Value, len: nat)
    requires !v.CellStateVal?
    ensures VectorCast(VectorVal(VectorCast(v, len).value), len) == VectorCast(v, len)
    ensures v.VectorVal? ==> VectorCast(v, |v.lanes|) == Ok(v.lanes)
  {
  }

  /** `build_vector_cast`, building the result one inserted lane at a time. */
  method BuildVectorCast(v: Value, len: nat) returns (r: Result<seq<Word>, LangError>)
    ensures r == VectorCast(v, len)
  {
    var values: seq<Word>;
    match v {
      case IntVal(i) =>
        values := seq(len, _ => i);
      case VectorVal(ls) =>
        if |ls| == len {
          return Ok(ls);
        }
        values := [];
        for k := 0 to len
          invariant |values| == k
          invariant forall j :: 0 <= j < k ==> values[j] == CastLane(v, j)
        {
          if k < |ls| {
            values := values + [ls[k]];
          } else {
            values := values + [ConstInt(0)];
          }
        }
      case CellStateVal(_) =>
        return Err(LangError(InternalError("Cannot convert " + DisplayName(ValueType(v)) + " to vector"), None));
    }
    assert |values| == len && forall j :: 0 <= j < len ==> values[j] == CastLane(v, j);
    // The vector starts out undefined; every lane is then inserted.
    var ret: seq<Word> := seq(len, _ => 0);
    for k := 0 to len
      invariant |ret| == len
      invariant forall j :: 0 <= j < k ==> ret[j] == values[j]
    {
      ret := ret[k := values[k]];
    }
    assert ret == VectorCast(v, len).value;
    r := Ok(ret);
  }

  // ---------------------------------------------------------------------
  // Conditionals and conversion to a boolean.

  datatype Block = IfTrue | IfFalse

  /** LLVM `switch`: the block of the first case equal to the value, else
      the default block. */
  function Switch(value: nat, cases: seq<(nat, Block)>, default: Block): Block
    decreases |cases|
  {
    if cases == [] then default
    else if cases[0].0 == value then cases[0].1
    else Switch(value, cases[1..], default)
  }

  lemma {:induction false} SwitchSpec(value: nat, cases: seq<(nat, Block)>, default: Block, i: nat)
    ensures (forall j :: 0 <= j < |cases| ==> cases[j].0 != value) ==> Switch(value, cases, default) == default
    ensures i < |cases| && cases[i].0 == value && (forall j :: 0 <= j < i ==> cases[j].0 != value)
        ==> Switch(value, cases, default) == cases[i].1
    decreases |cases|
  {
    if cases != [] && cases[0].0 != value {
      SwitchSpec(value, cases[1..], default, if i == 0 then 0 else i - 1);
      assert forall j :: 0 <= j < |cases| - 1 ==> cases[1..][j] == cases[j + 1];
    }
  }

  /** `build_conditional`: a switch on the condition with the zero of its
      type leading to the false block and everything else to the true one. */
  function Conditional(width: nat, cond: nat): Block
    requires cond < Pow2(width)
  {
    Switch(cond, [(0, IfFalse)], IfTrue)
  }

  /** Any nonzero value is truthy and zero is falsey, at every width. */
  lemma {:induction false} ConditionalTruthiness(width: nat, cond: nat)
    requires cond < Pow2(width)
    ensures Conditional(width, cond) == IfTrue <==> cond != 0
    ensures Conditional(width, cond) == IfFalse <==> cond == 0
  {
    SwitchSpec(cond, [(0, IfFalse)], IfTrue, 0);
  }

  /** Some component of the value is nonzero. */
  predicate Truthy(v: Value)
  {
    match v
    case IntVal(i) => i != 0
    case CellStateVal(c) => c != 0
    case VectorVal(ls) => exists k :: 0 <= k < |ls| && ls[k] != 0
  }

  /** `build_convert_to_bool`: OR-reduce, compare with zero, widen to an
      integer. */
  function ConvertToBool(v: Value): (r: Word)
    ensures r == 1 <==> Truthy(v)
    ensures r == 0 <==> !Truthy(v)
  {
    var reduced: nat := match v
      case IntVal(i) => i
      case CellStateVal(c) => c
      case VectorVal(ls) => OrReduce(ls);
    if reduced != 0 then 1 else 0
  }

  /** Branching on a converted value takes the true block iff the value is
      truthy. */
  lemma {:induction false} ConditionalOnBool(v: Value)
    ensures ConvertToBool(v) < Pow2(INT_BITS)
    ensures Conditional(INT_BITS, ConvertToBool(v)) == IfTrue <==> Truthy(v)
  {
    Pow2Monotone(1, INT_BITS);
    ConditionalTruthiness(INT_BITS, ConvertToBool(v));
  }

  // ---------------------------------------------------------------------
  // The division guard.

  datatype DivOutcome = DivideByZero | Overflow | Safe

  /** `build_generic_div_check`: divide-by-zero if some divisor lane equals
      `zero`; otherwise overflow if some lane has both the dividend equal to
      `minValue` and the divisor equal to `negOne`; otherwise the division
      may proceed. */
  function GenericDivCheck(dividend: seq<Word>, divisor: seq<Word>, zero: seq<Word>, minValue: seq<Word>, negOne: seq<Word>): DivOutcome
    requires |divisor| == |dividend| == |zero| == |minValue| == |negOne|
  {
    if ReduceOr(CompareEq(divisor, zero)) then DivideByZero
    else if ReduceOr(AndLanes(CompareEq(dividend, minValue), CompareEq(divisor, negOne))) then Overflow
    else Safe
  }

  /** `build_int_div_check`. */
  function IntDivCheck(dividend: Word, divisor: Word): DivOutcome
  {
    GenericDivCheck([dividend], [divisor], [ConstInt(0)], [MinIntValue()], [ConstInt(-1)])
  }

  /** `build_vec_div_check`: the constants are cast to the dividend's length. */
  function VecDivCheck(dividend: seq<Word>, divisor: seq<Word>): DivOutcome
    requires |dividend| == |divisor|
  {
    var len := |dividend|;
    GenericDivCheck(dividend, divisor, Splat(ConstInt(0), len), Splat(MinIntValue(), len), Splat(ConstInt(-1), len))
  }

  function Abs(x: int): nat
  {
    if x < 0 then -x else x
  }

  /** Signed division rounding toward zero, as LLVM's `sdiv` computes it. */
  function TruncDiv(a: int, b: int): int
    requires b != 0
  {
    var q := Abs(a) / Abs(b);
    if (a < 0) == (b < 0) then q else -q
  }

  lemma {:induction false} DivBounds(n: nat, d: nat)
    requires d >= 1
    ensures n / d <= n
    ensures d == 1 ==> n / d == n
    ensures d >= 2 ==> 2 * (n / d) <= n
  {
    var q := n / d;
    assert d * q <= n;
    assert q <= d * q by {
      assert d * q == q + (d - 1) * q;
      assert (d - 1) * q >= 0;
    }
    if d >= 2 {
      assert 2 * q <= d * q by {
        assert d * q == 2 * q + (d - 2) * q;
        assert (d - 2) * q >= 0;
      }
    }
  }

  /** The quotient of two 64-bit integers fits in 64 bits except for the
      least integer divided by -1. */
  lemma {:induction false} QuotientInRange(a: int, b: int)
    requires InRange(a) && InRange(b) && b != 0
    ensures InRange(TruncDiv(a, b)) <==> !(a == INT_MIN && b == -1)
  {
    var n, d := Abs(a), Abs(b);
    DivBounds(n, d);
    var q := n / d;
    assert n <= 0x8000_0000_0000_0000;
    if (a < 0) == (b < 0) {
      if a == INT_MIN && b == -1 {
        assert q == 0x8000_0000_0000_0000;
      } else if n == 0x8000_0000_0000_0000 {
        assert d >= 2;
      }
    }
  }

  /** The vector division guard: divide-by-zero iff some divisor lane is 0;
      otherwise overflow iff some lane divides the least integer by -1; and
      the division proceeds iff every lane's divisor is nonzero and every
      lane's quotient fits in 64 bits. */
  lemma {:induction false} VecDivCheckSpec(a: seq<Word>, b: seq<Word>)
    requires |a| == |b|
    ensures VecDivCheck(a, b) == DivideByZero <==> exists i :: 0 <= i < |b| && ToSigned(b[i]) == 0
    ensures VecDivCheck(a, b) == Overflow <==> (
      && (forall i :: 0 <= i < |b| ==> ToSigned(b[i]) != 0)
      && (exists i :: 0 <= i < |a| && ToSigned(a[i]) == INT_MIN && ToSigned(b[i]) == -1))
    ensures VecDivCheck(a, b) == Safe <==> (
      forall i :: 0 <= i < |a| ==> ToSigned(b[i]) != 0 && InRange(TruncDiv(ToSigned(a[i]), ToSigned(b[i]))))
  {
    var len := |a|;
    var zero, minValue, negOne := Splat(ConstInt(0), len), Splat(MinIntValue(), len), Splat(ConstInt(-1), len);
    forall i | 0 <= i < len
      ensures (b[i] == zero[i]) <==> ToSigned(b[i]) == 0
      ensures (a[i] == minValue[i]) <==> ToSigned(a[i]) == INT_MIN
      ensures (b[i] == negOne[i]) <==> ToSigned(b[i]) == -1
    {
      ToSignedInjective(b[i], zero[i]);
      ToSignedInjective(a[i], minValue[i]);
      ToSignedInjective(b[i], negOne[i]);
    }
    forall i | 0 <= i < len && ToSigned(b[i]) != 0
      ensures InRange(TruncDiv(ToSigned(a[i]), ToSigned(b[i]))) <==> !(ToSigned(a[i]) == INT_MIN && ToSigned(b[i]) == -1)
    {
      QuotientInRange(ToSigned(a[i]), ToSigned(b[i]));
    }
  }

  /** The integer guard is the one-lane vector guard. */
  lemma {:induction false} IntDivCheckSpec(a: Word, b: Word)
    ensures IntDivCheck(a, b) == VecDivCheck([a], [b])
    ensures IntDivCheck(a, b) == DivideByZero <==> ToSigned(b) == 0
    ensures IntDivCheck(a, b) == Overflow <==> ToSigned(a) == INT_MIN && ToSigned(b) == -1
    ensures IntDivCheck(a, b) == Safe <==> ToSigned(b) != 0 && InRange(TruncDiv(ToSigned(a), ToSigned(b)))
  {
    assert Splat(ConstInt(0), 1) == [ConstInt(0)];
    assert Splat(MinIntValue(), 1) == [MinIntValue()];
    assert Splat(ConstInt(-1), 1) == [ConstInt(-1)];
    VecDivCheckSpec([a], [b]);
    assert [a][0] == a && [b][0] == b;
  }

  // ---------------------------------------------------------------------
  // The bit-shift guard.

  /** `build_generic_bitshift_check` as written: the lane-wise flags
      "amount < max, unsigned" are OR-reduced, and the shift may proceed
      when the reduction is true. */
  function GenericBitshiftCheck(amount: seq<Word>, maxShift: seq<Word>): (pass: bool)
    requires |amount| == |maxShift|
  {
    ReduceOr(CompareUlt(amount, maxShift))
  }

  /** `build_bitshift_int_check`: the bound is the integer width. */
  function IntBitshiftCheck(amount: Word): bool
  {
    GenericBitshiftCheck([amount], [ConstUint(INT_BITS)])
  }

  /** `build_bitshift_vec_check`: the bound cast to the vector's length. */
  function VecBitshiftCheck(amounts: seq<Word>): bool
  {
    GenericBitshiftCheck(amounts, Splat(ConstUint(INT_BITS), |amounts|))
  }

  /** A scalar shift passes iff the amount is 0 to 63; a negative amount
      reads as a huge unsigned one and fails. */
  lemma {:induction false} IntBitshiftCheckSpec(amount: Word)
    ensures IntBitshiftCheck(amount) <==> 0 <= ToSigned(amount) < INT_BITS
  {
    assert CompareUlt([amount], [ConstUint(INT_BITS)])[0] == (amount < INT_BITS);
  }

  /** As written, a vector shift passes iff SOME lane's amount is in range. */
  lemma {:induction false} VecBitshiftCheckAsWritten(amounts: seq<Word>)
    ensures VecBitshiftCheck(amounts) <==> exists i :: 0 <= i < |amounts| && 0 <= ToSigned(amounts[i]) < INT_BITS
  {
    var flags := CompareUlt(amounts, Splat(ConstUint(INT_BITS), |amounts|));
    assert forall i :: 0 <= i < |amounts| ==> (flags[i] <==> 0 <= ToSigned(amounts[i]) < INT_BITS);
  }

  /** So the vector check lets through a shift by 64 in the second lane. */
  lemma {:induction false} VecBitshiftCheckAcceptsOutOfRange()
    ensures VecBitshiftCheck([1, 64]) && !IntBitshiftCheck(64)
  {
    VecBitshiftCheckAsWritten([1, 64]);
    IntBitshiftCheckSpec(64);
    assert [1, 64][0] == 1;
  }

  /** The vector check with the flags AND-reduced: every lane must be in range. */
  function VecBitshiftCheckCorrected(amounts: seq<Word>): bool
  {
    ReduceAnd(CompareUlt(amounts, Splat(ConstUint(INT_BITS), |amounts|)))
  }

  /** The corrected vector check passes iff every lane would pass the
      scalar check; on one lane it is the scalar check. */
  lemma {:induction false} VecBitshiftCheckCorrectedSpec(amounts: seq<Word>)
    ensures VecBitshiftCheckCorrected(amounts) <==> forall i :: 0 <= i < |amounts| ==> 0 <= ToSigned(amounts[i]) < INT_BITS
    ensures VecBitshiftCheckCorrected(amounts) <==> forall i :: 0 <= i < |amounts| ==> IntBitshiftCheck(amounts[i])
    ensures |amounts| == 1 ==> VecBitshiftCheckCorrected(amounts) == IntBitshiftCheck(amounts[0])
  {
    var flags := CompareUlt(amounts, Splat(ConstUint(INT_BITS), |amounts|));
    forall i | 0 <= i < |amounts|
      ensures (flags[i] <==> 0 <= ToSigned(amounts[i]) < INT_BITS) && (flags[i] <==> IntBitshiftCheck(amounts[i]))
    {
      IntBitshiftCheckSpec(amounts[i]);
    }
  }

  // ---------------------------------------------------------------------
  // Intrinsic type names.

  /** The LLVM types an intrinsic can be named after; only integers and
      vectors have names. */
  datatype LlvmType =
    | IntTy(width: nat)
    | VectorTy(size: nat, elem: LlvmType)
    | ArrayTy
    | FloatTy
    | PointerTy
    | StructTy

  /** The types `llvm_intrinsic_type_name` can name (the others panic). */
  predicate Nameable(ty: LlvmType)
  {
    match ty
    case IntTy(_) => true
    case VectorTy(_, e) => Nameable(e)
    case _ => false
  }

  /** `llvm_intrinsic_type_name`: "i" and the width for an integer, "v",
      the length and the element's name for a vector; `None` where the
      source panics. */
  function IntrinsicTypeName(ty: LlvmType): (r: Option<string>)
    ensures r.Some? <==> Nameable(ty)
    ensures r.Some? ==> |r.value| >= 2 && (r.value[0] == 'i' || r.value[0] == 'v')
  {
    match ty
    case IntTy(w) => Some("i" + Dec(w))
    case VectorTy(n, e) =>
      var inner := IntrinsicTypeName(e);
      if inner.None? then None else Some("v" + Dec(n) + inner.value)
    case _ => None
  }

  /** The number of leading decimal digits of s. */
  function LeadingDigits(s: string): (n: nat)
    ensures n <= |s|
  {
    if s == [] || !IsDigit(s[0]) then 0 else 1 + LeadingDigits(s[1..])
  }

  lemma {:induction false} LeadingDigitsOfNumber(digits: string, rest: string)
    requires forall i :: 0 <= i < |digits| ==> IsDigit(digits[i])
    requires rest == [] || !IsDigit(rest[0])
    ensures LeadingDigits(digits + rest) == |digits|
  {
    if digits != [] {
      assert (digits + rest)[1..] == digits[1..] + rest;
      LeadingDigitsOfNumber(digits[1..], rest);
    } else {
      assert digits + rest == rest;
    }
  }

  /** Reads an intrinsic type name back. */
  function ParseTypeName(s: string): Option<LlvmType>
    decreases |s|
  {
    if |s| < 2 then None
    else if s[0] == 'i' then
      var rest := s[1..];
      if LeadingDigits(rest) == |rest| then
        assert forall i :: 0 <= i < |rest| ==> IsDigit(rest[i]) by {
          LeadingDigitsAreDigits(rest);
        }
        Some(IntTy(DecValue(rest)))
      else None
    else if s[0] == 'v' then
      var rest := s[1..];
      var k := LeadingDigits(rest);
      if k == 0 then None
      else
        LeadingDigitsAreDigits(rest);
        var elem := ParseTypeName(rest[k..]);
        if elem.None? then None else Some(VectorTy(DecValue(rest[..k]), elem.value))
    else None
  }

  lemma {:induction false} LeadingDigitsAreDigits(s: string)
    ensures forall i :: 0 <= i < LeadingDigits(s) ==> IsDigit(s[i])
    ensures forall i :: 0 <= i < LeadingDigits(s) ==> IsDigit(s[..LeadingDigits(s)][i])
  {
    if s != [] && IsDigit(s[0]) {
      LeadingDigitsAreDigits(s[1..]);
      assert forall i :: 1 <= i < LeadingDigits(s) ==> s[i] == s[1..][i - 1];
    }
  }

  /** Every name can be read back to its type, so distinct types have
      distinct names. */
  lemma {:induction false} IntrinsicTypeNameRoundTrip(ty: LlvmType)
    requires Nameable(ty)
    ensures ParseTypeName(IntrinsicTypeName(ty).value) == Some(ty)
  {
    match ty
    case IntTy(w) =>
      var s := IntrinsicTypeName(ty).value;
      assert s[1..] == Dec(w);
      LeadingDigitsOfNumber(Dec(w), []);
      assert Dec(w) + [] == Dec(w);
      DecRoundTrip(w);
    case VectorTy(n, e) =>
      var inner := IntrinsicTypeName(e).value;
      var s := IntrinsicTypeName(ty).value;
      assert s[1..] == Dec(n) + inner;
      LeadingDigitsOfNumber(Dec(n), inner);
      assert (Dec(n) + inner)[|Dec(n)|..] == inner;
      assert (Dec(n) + inner)[..|Dec(n)|] == Dec(n);
      DecRoundTrip(n);
      IntrinsicTypeNameRoundTrip(e);
  }

  lemma {:induction false} IntrinsicTypeNameInjective(a: LlvmType, b: LlvmType)
    requires Nameable(a) && Nameable(b)
    ensures IntrinsicTypeName(a) == IntrinsicTypeName(b) <==> a == b
  {
    IntrinsicTypeNameRoundTrip(a);
    IntrinsicTypeNameRoundTrip(b);
  }

  /** The examples of the source's documentation. */
  lemma {:induction false} IntrinsicTypeNameExamples()
    ensures IntrinsicTypeName(IntTy(32)) == Some("i32")
    ensures IntrinsicTypeName(VectorTy(3, IntTy(64))) == Some("v3i64")
  {
    assert Dec(3) == "3" && DigitChar(2) == '2';
    assert Dec(32) == Dec(3) + [DigitChar(2)] == "32";
    assert Dec(6) == "6" && DigitChar(4) == '4';
    assert Dec(64) == Dec(6) + [DigitChar(4)] == "64";
    assert IntrinsicTypeName(IntTy(32)).value == "i" + Dec(32) == "i32";
    assert IntrinsicTypeName(IntTy(64)).value == "i" + Dec(64) == "i64";
    assert IntrinsicTypeName(VectorTy(3, IntTy(64))).value == "v" + Dec(3) + "i64" == "v3i64";
  }

  // ---------------------------------------------------------------------
  // The intrinsic function table (`get_llvm_intrinisic`).

  datatype FnType = FnType(ret: LlvmType, params: seq<LlvmType>)
  datatype FnValue = FnValue(name: string, ty: FnType)

  const DUPLICATE_INTRINSIC: string := "Requested multiple LLVM intrinsics with same name but different type signatures"

  /** The result of asking for an intrinsic, and the table afterwards. */
  function GetIntrinsic(table: map<string, FnType>, name: string, ty: FnType): (Result<FnValue, LangError>, map<string, FnType>)
  {
    if name in table then
      if table[name] == ty then (Ok(FnValue(name, ty)), table)
      else (Err(LangError(InternalError(DUPLICATE_INTRINSIC), None)), table)
    else (Ok(FnValue(name, ty)), table[name := ty])
  }

  /** A request succeeds iff the name is free or has that very type; on
      success the table maps the name to the type; existing entries never
      change and only the requested name can be added. */
  lemma {:induction false} GetIntrinsicSpec(table: map<string, FnType>, name: string, ty: FnType)
    ensures GetIntrinsic(table, name, ty).0.Ok? <==> (name !in table || table[name] == ty)
    ensures GetIntrinsic(table, name, ty).0.Ok? ==> GetIntrinsic(table, name, ty).0.value == FnValue(name, ty)
    ensures GetIntrinsic(table, name, ty).0.Err? ==> GetIntrinsic(table, name, ty).0.error.msg.InternalError?
    ensures var t := GetIntrinsic(table, name, ty).1;
      && (GetIntrinsic(table, name, ty).0.Ok? ==> name in t && t[name] == ty)
      && t.Keys == table.Keys + (if GetIntrinsic(table, name, ty).0.Ok? then {name} else {})
      && forall k :: k in table ==> k in t && t[k] == table[k]
  {
  }

  /** Asking again gives the same answer and leaves the table alone. */
  lemma {:induction false} GetIntrinsicIdempotent(table: map<string, FnType>, name: string, ty: FnType)
    ensures var (r, t) := GetIntrinsic(table, name, ty); GetIntrinsic(t, name, ty) == (r, t)
  {
  }

  /** The LLVM module's function table. */
  class Module {
    var functions: map<string, FnType>

    constructor()
      ensures functions == map[]
    {
      functions := map[];
    }

    method GetLlvmIntrinsic(name: string, ty: FnType) returns (r: Result<FnValue, LangError>)
      modifies this
      ensures (r, functions) == GetIntrinsic(old(functions), name, ty)
    {
      if name in functions {
        var existing := FnValue(name, functions[name]);
        if existing.ty == ty {
          r := Ok(existing);
        } else {
          r := Err(LangError(InternalError(DUPLICATE_INTRINSIC), None));
        }
      } else {
        functions := functions[name := ty];
        r := Ok(FnValue(name, ty));
      }
    }
  }

  // ---------------------------------------------------------------------
  // Return codes (`build_return_ok`, `build_return_err`,
  // `build_return_internal_err`): the function's actual return value is a
  // 32-bit integer.

  const RETURN_MODULUS: nat := 0x1_0000_0000

  /** `u64::MAX` made a 32-bit constant: its low 32 bits, all ones. */
  function ReturnOk(): nat
  {
    0xFFFF_FFFF_FFFF_FFFF % RETURN_MODULUS
  }

  function ReturnErr(index: nat): nat
  {
    index % RETURN_MODULUS
  }

  /** Error index 0 is reserved for internal errors. */
  function ReturnInternalErr(): nat
  {
    ReturnErr(0)
  }

  /** Success is all ones (-1 as a signed 32-bit value); an error code is
      its index modulo 2^32, internal errors return 0, and an error is
      mistaken for success exactly when its index is 2^32 - 1 modulo 2^32. */
  lemma {:induction false} ReturnCodes(index: nat)
    ensures ReturnOk() == RETURN_MODULUS - 1
    ensures ReturnInternalErr() == 0 && ReturnInternalErr() != ReturnOk()
    ensures ReturnErr(index) < RETURN_MODULUS
    ensures ReturnErr(index) == ReturnOk() <==> index % RETURN_MODULUS == RETURN_MODULUS - 1
  {
  }

  // ---------------------------------------------------------------------
  // The variables of an extern function (`begin_extern_function`).

  /** Where a variable lives: field `index` of the in/out struct, or the stack. */
  datatype Storage = Inout(index: nat) | Alloca

  datatype Variable = Variable(name: string, ty: Type, isArg: bool, storage: Storage)

  /** The names of `order` that are not arguments, in order. */
  function NonArgs(order: seq<string>, args: seq<string>): seq<string>
  {
    if order == [] then []
    else NonArgs(order[..|order| - 1], args) + (if order[|order| - 1] in args then [] else [order[|order| - 1]])
  }

  /** The non-arguments are exactly the names of `order` that are not in `args`. */
  lemma {:induction false} NonArgsMembers(order: seq<string>, args: seq<string>)
    ensures forall n :: n in NonArgs(order, args) <==> n in order && n !in args
  {
    if order != [] {
      var init, last := order[..|order| - 1], order[|order| - 1];
      NonArgsMembers(init, args);
      assert order == init + [last];
    }
  }

  /** The first loop of `begin_extern_function`: the arguments, then the
      other variables in walk order, which go to the in/out list in debug
      mode and to the stack list otherwise. */
  method PartitionNames(argNames: seq<string>, varOrder: seq<string>, debugMode: bool)
      returns (inout: seq<string>, alloca: seq<string>)
    ensures inout == argNames + (if debugMode then NonArgs(varOrder, argNames) else [])
    ensures alloca == (if debugMode then [] else NonArgs(varOrder, argNames))
  {
    inout := argNames;
    alloca := [];
    for i := 0 to |varOrder|
      invariant inout == argNames + (if debugMode then NonArgs(varOrder[..i], argNames) else [])
      invariant alloca == (if debugMode then [] else NonArgs(varOrder[..i], argNames))
    {
      var name := varOrder[i];
      assert varOrder[..i + 1][..i] == varOrder[..i];
      assert NonArgs(varOrder[..i + 1], argNames)
          == NonArgs(varOrder[..i], argNames) + (if name in argNames then [] else [name]);
      if name !in argNames {
        if debugMode {
          inout := inout + [name];
        } else {
          alloca := alloca + [name];
        }
      }
    }
    assert varOrder[..|varOrder|] == varOrder;
  }

  /** The in/out variables: field k of the struct holds the k-th name. */
  method InoutVariables(inout: seq<string>, argNames: seq<string>, varTypes: map<string, Type>)
      returns (vars: map<string, Variable>)
    requires forall n :: n in inout ==> n in varTypes
    ensures forall n :: n in vars <==> n in inout
    ensures forall n :: n in vars ==> vars[n] == Variable(n, varTypes[n], n in argNames, vars[n].storage)
    ensures forall n :: n in vars ==> vars[n].storage.Inout? && vars[n].storage.index < |inout| && inout[vars[n].storage.index] == n
  {
    vars := map[];
    for k := 0 to |inout|
      invariant forall n :: n in vars <==> n in inout[..k]
      invariant forall n :: n in vars ==> vars[n] == Variable(n, varTypes[n], n in argNames, vars[n].storage)
      invariant forall n :: n in vars ==> vars[n].storage.Inout? && vars[n].storage.index < k && inout[vars[n].storage.index] == n
    {
      assert inout[..k + 1] == inout[..k] + [inout[k]];
      var name := inout[k];
      vars := vars[name := Variable(name, varTypes[name], name in argNames, Inout(k))];
    }
    assert inout[..|inout|] == inout;
  }

  /** The stack variables, added to the map; none of them is an argument. */
  method AddAllocaVariables(vars0: map<string, Variable>, alloca: seq<string>, varTypes: map<string, Type>)
      returns (vars: map<string, Variable>)
    requires forall n :: n in alloca ==> n in varTypes
    ensures forall n :: n in vars <==> n in vars0 || n in alloca
    ensures forall n :: n in vars ==> vars[n] == (if n in alloca then Variable(n, varTypes[n], false, Alloca) else vars0[n])
  {
    vars := vars0;
    for k := 0 to |alloca|
      invariant forall n :: n in vars <==> n in vars0 || n in alloca[..k]
      invariant forall n :: n in vars ==> vars[n] == (if n in alloca[..k] then Variable(n, varTypes[n], false, Alloca) else vars0[n])
    {
      assert alloca[..k + 1] == alloca[..k] + [alloca[k]];
      var name := alloca[k];
      vars := vars[name := Variable(name, varTypes[name], false, Alloca)];
    }
    assert alloca[..|alloca|] == alloca;
  }

  /** With the source's switch (`DEBUG_MODE` off), the in/out lists of
      `PartitionNames` and `BeginExternFunction` hold just the arguments, and
      every other variable goes on the stack. */
  lemma {:induction false} ReleasePartition(argNames: seq<string>, varOrder: seq<string>)
    ensures argNames + (if DEBUG_MODE then NonArgs(varOrder, argNames) else []) == argNames
    ensures (if DEBUG_MODE then [] else NonArgs(varOrder, argNames)) == NonArgs(varOrder, argNames)
  {
    assert argNames + [] == argNames;
  }

  /** Splits the variables: the arguments, in order, then (in debug mode)
      every other variable go into the in/out struct; without debug mode the
      other variables are allocated on the stack. `varOrder` is the order in
      which the variable-type map is walked. Every variable is recorded with
      its type and whether it is an argument. */
  method BeginExternFunction(argNames: seq<string>, varTypes: map<string, Type>, varOrder: seq<string>, debugMode: bool)
      returns (inout: seq<string>, alloca: seq<string>, vars: map<string, Variable>)
    requires forall n :: n in varOrder <==> n in varTypes
    requires forall n :: n in argNames ==> n in varTypes
    ensures inout == argNames + (if debugMode then NonArgs(varOrder, argNames) else [])
    ensures alloca == (if debugMode then [] else NonArgs(varOrder, argNames))
    ensures vars.Keys == varTypes.Keys
    ensures forall n :: n in vars ==> vars[n].name == n && vars[n].ty == varTypes[n] && (vars[n].isArg <==> n in argNames)
    ensures forall n :: n in vars ==> (vars[n].storage.Alloca? <==> n in alloca)
    ensures forall n :: n in vars && vars[n].storage.Inout? ==>
      vars[n].storage.index < |inout| && inout[vars[n].storage.index] == n
  {
    inout, alloca := PartitionNames(argNames, varOrder, debugMode);
    NonArgsMembers(varOrder, argNames);
    assert forall n :: n in inout ==> n in varTypes;
    assert forall n :: n in alloca ==> n in varTypes && n !in argNames && n !in inout;
    var inoutVars := InoutVariables(inout, argNames, varTypes);
    vars := AddAllocaVariables(inoutVars, alloca, varTypes);
    forall n | n in varTypes
      ensures n in vars
    {
      assert n in argNames || n in NonArgs(varOrder, argNames);
    }
  }
}
