/** The primitive C types the relational matchers and the return actions are
    generated for, with the value range of each on the 64-bit (LP64) target,
    and the six relational operators. One `Kind` value stands for one
    `DEFINE_MATCHER(...)` / `DEFINE_RETURN_ACTION(...)` expansion. */
module Kinds {

  datatype Kind =
    | U8 | U16 | U32 | U64
    | Char | UChar | SChar
    | Short | UShort
    | Int | UInt
    | Long | ULong
    | LongLong | ULongLong
    | Ptr

  /** Width in bits. `long` and pointers are 64 bits wide (LP64). */
  function Bits(k: Kind): nat
  {
    match k
    case U8 | Char | UChar | SChar => 8
    case U16 | Short | UShort => 16
    case U32 | Int | UInt => 32
    case U64 | Long | ULong | LongLong | ULongLong | Ptr => 64
  }

  /** Plain `char` is taken to be unsigned, as on arm64. */
  predicate IsSigned(k: Kind)
  {
    k.SChar? || k.Short? || k.Int? || k.Long? || k.LongLong?
  }

  /** 2 to the power `Bits(k)`: the number of distinct values of the type. */
  function Modulus(k: Kind): (m: nat)
    ensures m > 1
  {
    match Bits(k)
    case 8 => 0x100
    case 16 => 0x1_0000
    case 32 => 0x1_0000_0000
    case _ => 0x1_0000_0000_0000_0000
  }

  function MinValue(k: Kind): int
  {
    if IsSigned(k) then -(Modulus(k) / 2) else 0
  }

  function MaxValue(k: Kind): int
  {
    if IsSigned(k) then Modulus(k) / 2 - 1 else Modulus(k) - 1
  }

  /** `v` is a value of C type `k`. */
  predicate InRange(k: Kind, v: int)
  {
    MinValue(k) <= v <= MaxValue(k)
  }

  /** Every kind has exactly `Modulus(k)` values: a signed kind as many
      negative ones as non-negative ones, an unsigned kind from zero up. */
  lemma RangeSize(k: Kind)
    ensures MaxValue(k) - MinValue(k) + 1 == Modulus(k)
    ensures IsSigned(k) ==> MinValue(k) == -(MaxValue(k) + 1)
    ensures !IsSigned(k) ==> MinValue(k) == 0
  {
  }

  datatype Op = Eq | Ne | Le | Lt | Ge | Gt

  /** `a op e` on two values of one type. Both operands have the same type,
      so C's usual arithmetic conversions keep their values, and the
      comparison is the mathematical one on the values. */
  predicate Holds(op: Op, a: int, e: int)
  {
    match op
    case Eq => a == e
    case Ne => a != e
    case Le => a <= e
    case Lt => a < e
    case Ge => a >= e
    case Gt => a > e
  }

  /** The operator as it is stringified (`#op`) into the trace format. */
  function Token(op: Op): string
  {
    match op
    case Eq => "=="
    case Ne => "!="
    case Le => "<="
    case Lt => "<"
    case Ge => ">="
    case Gt => ">"
  }

  /** How the `FORMAT_<type>` conversion renders a value of the kind. */
  datatype Rendering = Decimal | Character | Address

  function RenderingOf(k: Kind): Rendering
  {
    match k
    case Char | UChar | SChar => Character
    case Ptr => Address
    case _ => Decimal
  }
}
