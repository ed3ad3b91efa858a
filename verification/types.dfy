/** Host integer widths and the small enumerations and index aliases that the
    instruction model imports from the rest of the crate. Only what the core
    needs of them is declared here: the index aliases are 32-bit unsigned
    integers and the enumerations are closed tag sets. */
module Types {

  const TWO_7: int := 0x80
  const TWO_8: int := 0x100
  const TWO_15: int := 0x8000
  const TWO_16: int := 0x1_0000
  const TWO_31: int := 0x8000_0000
  const TWO_32: int := 0x1_0000_0000
  const TWO_63: int := 0x8000_0000_0000_0000
  const TWO_64: int := 0x1_0000_0000_0000_0000

  /** One byte of the binary format (`u8`). */
  type Byte = b: int | 0 <= b < TWO_8

  type U8 = x: int | 0 <= x < TWO_8
  type U16 = x: int | 0 <= x < TWO_16
  type U32 = x: int | 0 <= x < TWO_32
  type U64 = x: int | 0 <= x < TWO_64
  /** `usize` on a 64-bit host. */
  type Usize = x: int | 0 <= x < TWO_64

  type I8 = x: int | -TWO_7 <= x < TWO_7
  type I16 = x: int | -TWO_15 <= x < TWO_15
  type I32 = x: int | -TWO_31 <= x < TWO_31
  type I64 = x: int | -TWO_63 <= x < TWO_63

  type LabelIndex = U32
  type LocalIndex = U32
  type GlobalIndex = U32
  type FunctionIndex = U32
  type TableIndex = U32
  type ElementIndex = U32
  type DataIndex = U32
  type TypeIndex = U32

  datatype IntegerType = I32 | I64
  datatype FloatType = F32 | F64
  datatype NumberType = I32 | I64 | F32 | F64
  datatype ReferenceType = Function | External
  datatype ValueType = I32 | I64 | F32 | F64 | V128 | FunctionReference | ExternalReference

  /** The bit pattern of a 32-bit or 64-bit float; floating-point semantics are
      not part of this model. */
  datatype Float32 = Float32(bits: U32)
  datatype Float64 = Float64(bits: U64)
}
