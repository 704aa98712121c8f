// The types of the NDCA language (`lang/src/types.rs`): the `Type` enum, its
// names, its runtime sizes, and the type errors raised when a value has the
// wrong type.
module LangTypes {
  import opened Wrappers
  import opened Numbers

  /** Bits of an NDCA integer (`i64`) and of a cell state (`u8`). */
  const INT_BITS: nat := 64
  const CELL_STATE_BITS: nat := 8
  /** Longest vector the language allows. */
  const MAX_VECTOR_LEN: nat := 256
  /** `size_of` of the Rust types behind integers and cell states. */
  const LANG_INT_BYTES: nat := 8
  const LANG_CELL_STATE_BYTES: nat := 1

  /** Any data type; a vector carries its length. */
  datatype Type = Int | CellState | Vector(len: nat)

  /** `Type::default()`. */
  const DEFAULT_TYPE: Type := Int

  /** The `Debug` rendering of a type. */
  function DebugName(t: Type): string
  {
    match t
    case Int => "int"
    case CellState => "cellstate"
    case Vector(n) => "vec" + Dec(n)
  }

  /** The `Display` rendering of a type. */
  function DisplayName(t: Type): string
  {
    match t
    case Int => "integer"
    case CellState => "cellstate"
    case Vector(n) => "vector" + Dec(n)
  }

  /** A name that is a fixed prefix followed by a decimal number determines
      the number. */
  lemma {:induction false} PrefixedDecInjective(prefix: string, a: nat, b: nat)
    requires prefix + Dec(a) == prefix + Dec(b)
    ensures a == b
  {
    assert Dec(a) == (prefix + Dec(a))[|prefix|..];
    assert Dec(b) == (prefix + Dec(b))[|prefix|..];
    DecInjective(a, b);
  }

  /** Both renderings tell every type apart, and they differ exactly for the
      types other than the cell state. */
  lemma {:induction false} NamesInjective(a: Type, b: Type)
    ensures DebugName(a) == DebugName(b) <==> a == b
    ensures DisplayName(a) == DisplayName(b) <==> a == b
    ensures DebugName(a) == DisplayName(a) <==> a == CellState
  {
    if DebugName(a) == DebugName(b) {
      if a.Vector? && b.Vector? {
        PrefixedDecInjective("vec", a.len, b.len);
      }
    }
    if DisplayName(a) == DisplayName(b) {
      if a.Vector? && b.Vector? {
        PrefixedDecInjective("vector", a.len, b.len);
      }
    }
    if a.Vector? {
      assert IsDigit(DebugName(a)[3]) && !IsDigit(DisplayName(a)[3]);
    } else if a == Int {
      assert |DebugName(a)| != |DisplayName(a)|;
    }
  }

  /** Whether a variable can hold a value of this type; every type can. */
  function HasRuntimeRepresentation(t: Type): (r: bool)
    ensures r
  {
    match t
    case Int => true
    case CellState => true
    case Vector(_) => true
  }

  /** Bytes of the compiled representation; `None` would mean "no runtime
      representation", which no type has. */
  function SizeOf(t: Type): (r: Option<nat>)
    ensures r.Some? <==> HasRuntimeRepresentation(t)
  {
    match t
    case Int => Some(LANG_INT_BYTES)
    case CellState => Some(LANG_CELL_STATE_BYTES)
    case Vector(len) => Some(len * LANG_INT_BYTES)
  }

  /** The width in bits of the compiled representation: `INT_BITS` for an
      integer, `CELL_STATE_BITS` for a cell state, one integer per lane. */
  function WidthBits(t: Type): nat
  {
    match t
    case Int => INT_BITS
    case CellState => CELL_STATE_BITS
    case Vector(len) => len * INT_BITS
  }

  /** `size_of` always answers, and its bytes hold exactly the bits of the
      compiled representation; a longer vector never takes less room. */
  lemma {:induction false} SizeOfMatchesWidth(t: Type)
    ensures SizeOf(t).Some?
    ensures SizeOf(t).value * 8 == WidthBits(t)
    ensures t.Vector? ==> SizeOf(t).value == t.len * SizeOf(Int).value
  {
  }

  lemma {:induction false} SizeOfVectorMonotone(m: nat, n: nat)
    requires m <= n
    ensures SizeOf(Vector(m)).value <= SizeOf(Vector(n)).value
  {
    assert SizeOf(Vector(n)).value - SizeOf(Vector(m)).value == (n - m) * LANG_INT_BYTES;
  }

  /** A type the language allows: a vector has from 1 to `MAX_VECTOR_LEN`
      lanes. */
  predicate ValidType(t: Type)
  {
    t.Vector? ==> 1 <= t.len <= MAX_VECTOR_LEN
  }

  /** The default type is the integer type, a valid type of 8 bytes. */
  lemma {:induction false} DefaultTypeSpec()
    ensures DEFAULT_TYPE == Int && ValidType(DEFAULT_TYPE)
    ensures SizeOf(DEFAULT_TYPE) == Some(LANG_INT_BYTES)
  {
  }

  /** Every valid type takes from 1 byte up to the size of the longest
      vector. */
  lemma {:induction false} SizeOfBounded(t: Type)
    requires ValidType(t)
    ensures 1 <= SizeOf(t).value <= SizeOf(Vector(MAX_VECTOR_LEN)).value
  {
    if t.Vector? {
      SizeOfVectorMonotone(t.len, MAX_VECTOR_LEN);
    }
  }

  /** A source range, carried by errors. */
  datatype Span = Span(start: nat, end: nat)

  /** The error messages used by this model. Both type errors carry what
      was expected: a type, or for `CustomTypeError` a description of the
      types allowed (a destructor name cannot be shared at two types, hence
      `expectedText`). */
  datatype LangErrorMsg =
    | TypeError(expected: Type, got: Type)
    | CustomTypeError(expectedText: string, got: Type)
    | InternalError(message: string)

  /** An error message, with a span (`with_span`) or without (`without_span`). */
  datatype LangError = LangError(msg: LangErrorMsg, span: Option<Span>)

  /** `type_error`: this type is the one that was got. */
  function TypeErrorOf(got: Type, expected: Type): LangErrorMsg
  {
    TypeError(expected, got)
  }

  /** Succeeds iff the type is the expected one; the error names both. */
  function ExpectEq(t: Type, expected: Type, span: Span): (r: Result<(), LangError>)
    ensures r.Ok? <==> t == expected
    ensures r.Err? ==> r.error.span == Some(span) && r.error.msg.TypeError?
    ensures r.Err? ==> r.error.msg.expected == expected && r.error.msg.got == t
  {
    if t == expected then Ok(()) else Err(LangError(TypeErrorOf(t, expected), Some(span)))
  }

  /** Succeeds iff the type is an integer or a vector. */
  function ExpectIntOrVec(t: Type, span: Span): (r: Result<(), LangError>)
    ensures r.Ok? <==> (t.Int? || t.Vector?)
    ensures r.Err? ==> t == CellState
    ensures r.Err? ==> r.error == LangError(CustomTypeError("integer or vector", t), Some(span))
  {
    match t
    case Int => Ok(())
    case Vector(_) => Ok(())
    case _ => Err(LangError(CustomTypeError("integer or vector", t), Some(span)))
  }

  /** The two checks agree on what they accept: a type passes `expect_eq`
      against some integer or vector type exactly when it passes
      `expect_int_or_vec`. */
  lemma {:induction false} ExpectIntOrVecAsEq(t: Type, span: Span)
    ensures ExpectIntOrVec(t, span).Ok? <==> (ExpectEq(t, Int, span).Ok? || (t.Vector? && ExpectEq(t, Vector(t.len), span).Ok?))
  {
  }
}
