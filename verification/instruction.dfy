/** The WebAssembly instruction syntax (section 2.4 of the WebAssembly Core
    Specification): the seven instruction families, the memory argument, the
    block type and the expression, with the conversions that build them.
    Every value here is immutable; the conversions are pure. */
module Instructions {
  import opened Wrappers
  import opened Types

  datatype Instruction =
    | Numeric(numeric: NumericInstruction)
    | Reference(reference: ReferenceInstruction)
    | Parametric(parametric: ParametricInstruction)
    | Variable(variable: VariableInstruction)
    | Table(table: TableInstruction)
    | Memory(memory: MemoryInstruction)
    | Control(control: ControlInstruction)

  datatype SignExtension = Signed | Unsigned

  /** Numeric instructions. The integer constants hold the bit pattern of the
      literal as an unsigned value of their width. */
  datatype NumericInstruction =
    | I32Constant(bits32: U32)
    | I64Constant(bits64: U64)
    | F32Constant(float32: Float32)
    | F64Constant(float64: Float64)
    | CountLeadingZeros(IntegerType)
    | CountTrailingZeros(IntegerType)
    | CountOnes(IntegerType)
    | AbsoluteValue(FloatType)
    | Negate(FloatType)
    | SquareRoot(FloatType)
    | Ceiling(FloatType)
    | Floor(FloatType)
    | Truncate(FloatType)
    | Nearest(FloatType)
    | Add(NumberType)
    | Subtract(NumberType)
    | Multiply(NumberType)
    | DivideInteger(IntegerType, SignExtension)
    | DivideFloat(FloatType)
    | Remainder(IntegerType, SignExtension)
    | And(IntegerType)
    | Or(IntegerType)
    | Xor(IntegerType)
    | ShiftLeft(IntegerType)
    | ShiftRight(IntegerType, SignExtension)
    | RotateLeft(IntegerType)
    | RotateRight(IntegerType)
    | Minimum(FloatType)
    | Maximum(FloatType)
    | CopySign(FloatType)
    | EqualToZero(IntegerType)
    | Equal(NumberType)
    | NotEqual(NumberType)
    | LessThanInteger(IntegerType, SignExtension)
    | LessThanFloat(FloatType)
    | GreaterThanInteger(IntegerType, SignExtension)
    | GreaterThanFloat(FloatType)
    | LessThanOrEqualToInteger(IntegerType, SignExtension)
    | LessThanOrEqualToFloat(FloatType)
    | GreaterThanOrEqualToInteger(IntegerType, SignExtension)
    | GreaterThanOrEqualToFloat(FloatType)
    | ExtendSigned8(IntegerType)
    | ExtendSigned16(IntegerType)
    | ExtendSigned32
    | Wrap
    | ExtendWithSignExtension(SignExtension)
    | ConvertAndTruncate(IntegerType, FloatType, SignExtension)
    | ConvertAndTruncateWithSaturation(IntegerType, FloatType, SignExtension)
    | Demote
    | Promote
    | Convert(FloatType, IntegerType, SignExtension)
    | ReinterpretFloat(IntegerType, FloatType)
    | ReinterpretInteger(FloatType, IntegerType)

  datatype ReferenceInstruction =
    | Null(ReferenceType)
    | IsNull
    | Function(FunctionIndex)

  datatype ParametricInstruction =
    | Drop
    | Select(Option<seq<ValueType>>)

  datatype VariableInstruction =
    | LocalGet(LocalIndex)
    | LocalSet(LocalIndex)
    | LocalTee(LocalIndex)
    | GlobalGet(GlobalIndex)
    | GlobalSet(GlobalIndex)

  datatype TableInstruction =
    | Get(TableIndex)
    | Set(TableIndex)
    | Size(TableIndex)
    | Grow(TableIndex)
    | Fill(TableIndex)
    | Copy(TableIndex, TableIndex)
    | Init(ElementIndex, TableIndex)
    | ElementDrop(ElementIndex)

  datatype MemoryInstruction =
    | Load(NumberType, MemoryArgument)
    | Store(NumberType, MemoryArgument)
    | Load8(IntegerType, SignExtension, MemoryArgument)
    | Load16(IntegerType, SignExtension, MemoryArgument)
    | Load32(SignExtension, MemoryArgument)
    | Store8(IntegerType, MemoryArgument)
    | Store16(IntegerType, MemoryArgument)
    | Store32(MemoryArgument)
    | Size
    | Grow
    | Fill
    | Copy
    | Init(DataIndex)
    | DataDrop(DataIndex)

  /** Control instructions; `Block`, `Loop` and `If` bracket nested expressions. */
  datatype ControlInstruction =
    | Nop
    | Unreachable
    | Block(BlockType, Expression)
    | Loop(BlockType, Expression)
    | If(BlockType, Expression, Option<Expression>)
    | Branch(LabelIndex)
    | BranchIf(LabelIndex)
    | BranchTable(seq<LabelIndex>, LabelIndex)
    | Return
    | Call(FunctionIndex)
    | CallIndirect(TypeIndex, TableIndex)

  datatype BlockType =
    | None
    | Index(TypeIndex)
    | ValueType(ValueType)

  // ---------------------------------------------------------------------
  // Conversions from host integer literals (the `From` impls). A Rust `as`
  // cast to an unsigned type keeps the low bits of the two's-complement
  // representation, that is, the value modulo 2^width.

  /** The `as u32` cast from any integer type: the 32-bit pattern congruent
      to v; a value already in range is kept, and a negative value in the
      range of the signed type gets its two's-complement pattern. */
  function AsU32(v: int): (r: U32)
    ensures (v - r) % TWO_32 == 0
    ensures 0 <= v < TWO_32 ==> r == v
    ensures -TWO_32 <= v < 0 ==> r == v + TWO_32
  {
    v % TWO_32
  }

  /** The `as u64` cast from any integer type: the 64-bit pattern congruent
      to v; a value already in range is kept, and a negative value in the
      range of the signed type gets its two's-complement pattern. */
  function AsU64(v: int): (r: U64)
    ensures (v - r) % TWO_64 == 0
    ensures 0 <= v < TWO_64 ==> r == v
    ensures -TWO_64 <= v < 0 ==> r == v + TWO_64
  {
    v % TWO_64
  }

  /** Reading a 32-bit pattern back as a signed integer (the `as i32` cast). */
  function AsI32(u: U32): I32 {
    if u < TWO_31 then u else u - TWO_32
  }

  /** Reading a 64-bit pattern back as a signed integer (the `as i64` cast). */
  function AsI64(u: U64): I64 {
    if u < TWO_63 then u else u - TWO_64
  }

  /** An `i8` literal becomes a 32-bit constant holding its sign-extended bit
      pattern: negative values fill the upper 24 bits with ones. */
  function FromI8(v: I8): (r: Instruction)
    ensures r.Numeric? && r.numeric.I32Constant?
    ensures r.numeric.bits32 == if v < 0 then v + TWO_32 else v
    ensures v < 0 <==> r.numeric.bits32 >= 0xFFFF_FF80
    ensures AsI32(r.numeric.bits32) == v
  {
    Numeric(I32Constant(AsU32(v)))
  }

  /** An `i16` literal becomes a 32-bit constant holding its sign-extended bit
      pattern: negative values fill the upper 16 bits with ones. */
  function FromI16(v: I16): (r: Instruction)
    ensures r.Numeric? && r.numeric.I32Constant?
    ensures r.numeric.bits32 == if v < 0 then v + TWO_32 else v
    ensures v < 0 <==> r.numeric.bits32 >= 0xFFFF_8000
    ensures AsI32(r.numeric.bits32) == v
  {
    Numeric(I32Constant(AsU32(v)))
  }

  /** An `i32` literal becomes a 32-bit constant holding its two's-complement
      bit pattern, from which the literal is recovered exactly. */
  function FromI32(v: I32): (r: Instruction)
    ensures r.Numeric? && r.numeric.I32Constant?
    ensures r.numeric.bits32 == if v < 0 then v + TWO_32 else v
    ensures AsI32(r.numeric.bits32) == v
  {
    Numeric(I32Constant(AsU32(v)))
  }

  /** An `i64` literal always becomes a 64-bit constant holding its
      two's-complement bit pattern, never a 32-bit one. */
  function FromI64(v: I64): (r: Instruction)
    ensures r.Numeric? && r.numeric.I64Constant?
    ensures r.numeric.bits64 == if v < 0 then v + TWO_64 else v
    ensures AsI64(r.numeric.bits64) == v
  {
    Numeric(I64Constant(AsU64(v)))
  }

  /** A `u8` literal becomes a 32-bit constant with the same numeric value. */
  function FromU8(v: U8): (r: Instruction)
    ensures r.Numeric? && r.numeric.I32Constant?
    ensures r.numeric.bits32 == v && r.numeric.bits32 < TWO_8
  {
    Numeric(I32Constant(AsU32(v)))
  }

  /** A `u16` literal becomes a 32-bit constant with the same numeric value. */
  function FromU16(v: U16): (r: Instruction)
    ensures r.Numeric? && r.numeric.I32Constant?
    ensures r.numeric.bits32 == v && r.numeric.bits32 < TWO_16
  {
    Numeric(I32Constant(AsU32(v)))
  }

  /** A `u32` literal becomes a 32-bit constant with the same value. */
  function FromU32(v: U32): (r: Instruction)
    ensures r.Numeric? && r.numeric.I32Constant?
    ensures r.numeric.bits32 == v
  {
    Numeric(I32Constant(v))
  }

  /** A `u64` literal becomes a 64-bit constant with the same value, even when
      it would fit in 32 bits. */
  function FromU64(v: U64): (r: Instruction)
    ensures r.Numeric? && r.numeric.I64Constant?
    ensures r.numeric.bits64 == v
  {
    Numeric(I64Constant(v))
  }

  /** A `usize` literal becomes a 32-bit constant: the value is truncated to
      its low 32 bits without any range check, so it survives unchanged
      exactly when it is below 2^32. */
  function FromUsize(v: Usize): (r: Instruction)
    ensures r.Numeric? && r.numeric.I32Constant?
    ensures v < TWO_32 <==> r.numeric.bits32 == v
    ensures (v - r.numeric.bits32) % TWO_32 == 0
  {
    Numeric(I32Constant(AsU32(v)))
  }

  // ---------------------------------------------------------------------
  // Conversions from an instruction family into `Instruction`.

  function FromReference(i: ReferenceInstruction): (r: Instruction)
    ensures r.Reference? && r.reference == i
  {
    Reference(i)
  }

  function FromParametric(i: ParametricInstruction): (r: Instruction)
    ensures r.Parametric? && r.parametric == i
  {
    Parametric(i)
  }

  function FromVariable(i: VariableInstruction): (r: Instruction)
    ensures r.Variable? && r.variable == i
  {
    Variable(i)
  }

  function FromTable(i: TableInstruction): (r: Instruction)
    ensures r.Table? && r.table == i
  {
    Table(i)
  }

  function FromMemory(i: MemoryInstruction): (r: Instruction)
    ensures r.Memory? && r.memory == i
  {
    Memory(i)
  }

  function FromControl(i: ControlInstruction): (r: Instruction)
    ensures r.Control? && r.control == i
  {
    Control(i)
  }

  // ---------------------------------------------------------------------
  // The memory argument of loads and stores: a static offset and an optional
  // alignment exponent (None standing for the natural alignment of the access).

  datatype MemoryArgument = MemoryArgument(offsetValue: U32, alignValue: Option<U32>) {
    /** The static address offset. */
    function Offset(): (o: U32)
      ensures MemoryArgument(o, alignValue) == this
    {
      offsetValue
    }

    /** The alignment exponent, or None when the default alignment is meant. */
    function Align(): (a: Option<U32>)
      ensures MemoryArgument(offsetValue, a) == this
    {
      alignValue
    }
  }

  function NewMemoryArgument(offset: U32, align: Option<U32>): (r: MemoryArgument)
    ensures r.Offset() == offset && r.Align() == align
  {
    MemoryArgument(offset, align)
  }

  function DefaultMemoryArgument(): (r: MemoryArgument)
    ensures r.Offset() == 0 && r.Align() == Option.None
  {
    MemoryArgument(0, Option.None)
  }

  function DefaultAlign(offset: U32): (r: MemoryArgument)
    ensures r.Offset() == offset && r.Align() == Option.None
  {
    MemoryArgument(offset, Option.None)
  }

  function DefaultOffset(align: U32): (r: MemoryArgument)
    ensures r.Offset() == 0 && r.Align() == Some(align)
  {
    MemoryArgument(0, Some(align))
  }

  /** A memory argument is determined by its two accessors, so each shorthand
      constructor is `new` with the corresponding defaults filled in. */
  lemma MemoryArgumentShorthands(offset: U32, align: U32, m: MemoryArgument)
    ensures NewMemoryArgument(m.Offset(), m.Align()) == m
    ensures DefaultMemoryArgument() == NewMemoryArgument(0, Option.None)
    ensures DefaultAlign(offset) == NewMemoryArgument(offset, Option.None)
    ensures DefaultOffset(align) == NewMemoryArgument(0, Some(align))
  {
  }

  // ---------------------------------------------------------------------
  // Expressions: ordered instruction sequences. The `end` terminator of the
  // binary format is not stored.

  datatype Expression = Expression(instructions: seq<Instruction>) {
    /** The instructions, in the order the expression was built with. */
    function Instructions(): (r: seq<Instruction>)
      ensures Expression(r) == this
    {
      instructions
    }

    /** The number of instructions. */
    function Len(): (n: nat)
      ensures n == |Instructions()|
    {
      |instructions|
    }

    /** Whether the expression has no instructions. */
    function IsEmpty(): (b: bool)
      ensures b <==> Len() == 0
      ensures b <==> Instructions() == []
    {
      |instructions| == 0
    }
  }

  function NewExpression(instructions: seq<Instruction>): (r: Expression)
    ensures r.Instructions() == instructions
    ensures r.Len() == |instructions|
    ensures r.IsEmpty() <==> |instructions| == 0
  {
    Expression(instructions)
  }

  function EmptyExpression(): (r: Expression)
    ensures r.Instructions() == [] && r.Len() == 0 && r.IsEmpty()
  {
    Expression([])
  }

  /** The `From<Vec<Instruction>>` conversion. */
  function ExpressionFrom(instructions: seq<Instruction>): (r: Expression)
    ensures r.Instructions() == instructions
  {
    Expression(instructions)
  }

  /** Building an expression is injective and every way of building one agrees
      with `new`: the empty expression is `new([])` and the conversion from a
      vector is `new` on the same vector. */
  lemma ExpressionConstructorsAgree(xs: seq<Instruction>, ys: seq<Instruction>)
    ensures EmptyExpression() == NewExpression([])
    ensures ExpressionFrom(xs) == NewExpression(xs)
    ensures NewExpression(xs) == NewExpression(ys) <==> xs == ys
  {
  }
}
