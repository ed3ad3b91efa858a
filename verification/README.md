# wasm-ast core in Dafny

A model of two pieces of the `wasm-ast` Rust crate, a syntax model and binary
emitter for WebAssembly:

- **The instruction syntax** (`src/model/instruction.rs`, module
  `Instructions`, file `instruction.dfy`). The `Instruction` sum type over
  its seven families (numeric, reference, parametric, variable, table, memory,
  control) is modelled, together with `BlockType`, `SignExtension`,
  `MemoryArgument` and `Expression`. These are immutable values. The `From`
  conversions and the constructors and accessors are pure functions. The
  integer-literal conversions state the exact bit pattern that Rust's `as`
  casts produce. Signed literals are sign-extended to two's complement. For
  example, `-1i8` becomes `I32Constant(0xFFFF_FFFF)`, and reading that
  pattern back as a signed integer gives the literal again. Unsigned literals
  keep their value. A `usize` is truncated to 32 bits.
- **The emitter's value primitives** (`src/emitter/values.rs`, module
  `Values`, file `values.dfy`). The output sink is a `Sink` class whose byte
  sequence only grows by appends. The emitters are methods that modify it and
  return `Result<nat, EmitError>`. Each emitter is proved against a
  specification function of what it writes: `Repeated`, `Vector`, `ByteRun`
  and the LEB128 encodings. On success the sink grows by exactly those bytes
  and the returned count is their length. On failure the contract says
  exactly which bytes were written before the error. A failed length prefix
  means no item is written. If item k fails, the items before k stay written
  and the items after k are never emitted.
- **LEB128** (module `Leb128`, file `leb128.dfy`). The crate's
  `crate::leb128` module is not part of this model. Its `encode_unsigned` and
  `encode_signed` are specified here as functions, following section 5.2.2 of
  the WebAssembly Core Specification. They are proved to be minimal-length
  and canonical, to round-trip through independent decoders whatever bytes
  follow, and to fit 5 bytes for 32-bit values and 10 bytes for 64-bit values.

`wrappers.dfy` holds the `Option`, `Result` and `Outcome` types. `Result`
and `Outcome` work with `:-`, which plays the role of Rust's `?`.
`types.dfy` holds the integer widths and stand-ins for the enumerations and
index aliases that the instruction file imports from elsewhere in the crate.

Two choices of the code are kept as written:

- `From<i64>` and `From<u64>` always give `I64Constant`, even for values that
  fit in 32 bits (src/model/instruction.rs:132-136, 156-160); `FromI64` and
  `FromU64` state that.
- `MemoryArgument` stores an `Option<u32>` alignment, where `None` stands for
  the default alignment (src/model/instruction.rs:690-693, 730-735); the
  model keeps the option.

## Model

| member | source | states |
|---|---|---|
| `Instructions.FromI8` | src/model/instruction.rs:114-118 | the result is an `I32Constant` holding v + 2^32 for negative v and v otherwise; the upper 24 bits are all ones exactly when v is negative; reading the pattern back as i32 gives v |
| `Instructions.FromI16` | src/model/instruction.rs:120-124 | the result is an `I32Constant` holding the two's-complement pattern of v; the upper 16 bits are all ones exactly when v is negative; reading it back as i32 gives v |
| `Instructions.FromI32` | src/model/instruction.rs:126-130 | the result is an `I32Constant` holding the two's-complement pattern of v; reading it back as i32 gives v |
| `Instructions.FromI64` | src/model/instruction.rs:132-136 | the result is an `I64Constant`, never an `I32Constant`, holding the 64-bit two's-complement pattern of v; reading it back as i64 gives v |
| `Instructions.FromU8` | src/model/instruction.rs:138-142 | the result is an `I32Constant` with the same numeric value, below 2^8 |
| `Instructions.FromU16` | src/model/instruction.rs:144-148 | the result is an `I32Constant` with the same numeric value, below 2^16 |
| `Instructions.FromU32` | src/model/instruction.rs:150-154 | the result is an `I32Constant` with the same value |
| `Instructions.FromU64` | src/model/instruction.rs:156-160 | the result is an `I64Constant` with the same value, even when it fits in 32 bits |
| `Instructions.FromUsize` | src/model/instruction.rs:162-166 | the result is an `I32Constant` that differs from v by a multiple of 2^32 (no range check); it equals v exactly when v < 2^32 |
| `Instructions.FromReference` | src/model/instruction.rs:212-216 | the result is the `Reference` variant holding the given instruction unchanged |
| `Instructions.FromParametric` | src/model/instruction.rs:253-257 | the result is the `Parametric` variant holding the given instruction unchanged |
| `Instructions.FromVariable` | src/model/instruction.rs:304-308 | the result is the `Variable` variant holding the given instruction unchanged |
| `Instructions.FromTable` | src/model/instruction.rs:378-382 | the result is the `Table` variant holding the given instruction unchanged |
| `Instructions.FromMemory` | src/model/instruction.rs:497-501 | the result is the `Memory` variant holding the given instruction unchanged |
| `Instructions.FromControl` | src/model/instruction.rs:622-626 | the result is the `Control` variant holding the given instruction unchanged |
| `Instructions.AsU32` | src/model/instruction.rs:116-164 | the `as u32` cast: a 32-bit pattern congruent to v modulo 2^32; a value already in range is kept; a negative value down to -2^32 becomes v + 2^32 |
| `Instructions.AsU64` | src/model/instruction.rs:134 | the `as u64` cast: a 64-bit pattern congruent to v modulo 2^64; a value already in range is kept; a negative value down to -2^64 becomes v + 2^64 |
| `Instructions.MemoryArgument.Offset` | src/model/instruction.rs:726-728 | returns the stored offset unchanged: rebuilding the argument from it and the stored alignment gives the same argument |
| `Instructions.MemoryArgument.Align` | src/model/instruction.rs:730-735 | returns the stored alignment option unchanged, `None` for the default alignment |
| `Instructions.NewMemoryArgument` | src/model/instruction.rs:697-699 | `offset()` is the given offset and `align()` the given alignment |
| `Instructions.DefaultMemoryArgument` | src/model/instruction.rs:702-707 | `offset()` is 0 and `align()` is None |
| `Instructions.DefaultAlign` | src/model/instruction.rs:710-715 | `offset()` is the given offset and `align()` is None |
| `Instructions.DefaultOffset` | src/model/instruction.rs:718-723 | `offset()` is 0 and `align()` is Some of the given alignment |
| `Instructions.MemoryArgumentShorthands` | src/model/instruction.rs:650-688 | a memory argument is rebuilt by `new` from its two accessors; `default`, `default_align(o)` and `default_offset(a)` equal `new(0, None)`, `new(o, None)` and `new(0, Some(a))` |
| `Instructions.NewExpression` | src/model/instruction.rs:805-807 | `instructions()` is the given sequence, in order; `len()` is its length; `is_empty()` holds exactly when it is empty |
| `Instructions.EmptyExpression` | src/model/instruction.rs:810-814 | no instructions, length 0, and `is_empty()` holds |
| `Instructions.ExpressionFrom` | src/model/instruction.rs:832-836 | `instructions()` is the given vector |
| `Instructions.Expression.Instructions` | src/model/instruction.rs:817-819 | returns the stored instructions unchanged and in order: an expression built from them is the same expression |
| `Instructions.Expression.Len` | src/model/instruction.rs:827-829 | the length is the number of instructions |
| `Instructions.Expression.IsEmpty` | src/model/instruction.rs:822-824 | true exactly when `len()` is 0, that is, when there are no instructions |
| `Instructions.ExpressionConstructorsAgree` | src/model/instruction.rs:786-796 | `empty()` equals `new([])`; the conversion from a vector equals `new` on it; two expressions built by `new` are equal exactly when their instruction sequences are |
| `Leb128.EncodeUnsigned` | src/emitter/values.rs:76-101 | what `encode_unsigned` writes: at least one byte; the last byte has no continuation bit, and it is zero only for the value 0, so there is no redundant trailing byte |
| `Leb128.UnsignedFramed` | src/emitter/values.rs:76-101 | every byte of the unsigned encoding but the last carries the continuation bit, so the last byte is where the number ends |
| `Leb128.EncodeSigned` | src/emitter/values.rs:106-121 | what `encode_signed` writes: at least one byte; the last byte has no continuation bit, and its sign bit is the sign of the value; no redundant final byte |
| `Leb128.SignedFramed` | src/emitter/values.rs:106-121 | every byte of the signed encoding but the last carries the continuation bit |
| `Leb128.UnsignedRoundTrip` | src/emitter/values.rs:76-101 | decoding the unsigned encoding of n, followed by any bytes, yields n and consumes exactly the encoding |
| `Leb128.SignedRoundTrip` | src/emitter/values.rs:106-121 | decoding the signed encoding of v, followed by any bytes, yields v and consumes exactly the encoding |
| `Leb128.UnsignedCanonical` | src/emitter/values.rs:76-101 | an unsigned LEB128 sequence with no redundant trailing byte is the encoding of the value it decodes to, so the minimal encoding is unique |
| `Leb128.SignedCanonical` | src/emitter/values.rs:106-121 | a signed LEB128 sequence with no redundant final byte is the encoding of the value it decodes to |
| `Leb128.UnsignedLength` | src/emitter/values.rs:76-101 | a value below 128^k takes at most k bytes |
| `Leb128.SignedLength` | src/emitter/values.rs:106-121 | a value in [-64 * 128^(k-1), 64 * 128^(k-1)) takes at most k bytes |
| `Leb128.U32Width` | src/emitter/values.rs:76-81 | a u32 takes at most 5 bytes |
| `Leb128.U64Width` | src/emitter/values.rs:86-101 | a u64 (and a 64-bit usize) takes at most 10 bytes |
| `Leb128.I32Width` | src/emitter/values.rs:106-111 | an i32 takes at most 5 bytes |
| `Leb128.I64Width` | src/emitter/values.rs:116-121 | an i64 takes at most 10 bytes |
| `Leb128.SmallUnsigned` | src/emitter/values.rs:174-175 | a value below 128 encodes as the single byte holding it |
| `Values.Sink.WriteAll` | src/emitter/values.rs:68 | `write_all` appends all of the data when it fits, and otherwise fails and appends nothing |
| `Values.WriteUnsigned` | src/emitter/values.rs:80 | `encode_unsigned` appends the unsigned LEB128 of n and returns its length, or fails with `Io` leaving the sink unchanged |
| `Values.WriteSigned` | src/emitter/values.rs:110 | `encode_signed` appends the signed LEB128 of v and returns its length, or fails with `Io` leaving the sink unchanged |
| `Values.ByteItem` | src/emitter/values.rs:45 | the encoding of one byte is exactly that byte |
| `Values.EmitByte` | src/emitter/values.rs:41-48 | appends exactly the given byte and returns 1, or fails leaving the sink unchanged |
| `Values.EmitU32` | src/emitter/values.rs:76-81 | appends the unsigned LEB128 of v and returns its length, between 1 and 5 |
| `Values.EmitUsize` | src/emitter/values.rs:86-91 | appends the unsigned LEB128 of the mathematical value of v, whatever the word size, and returns its length, between 1 and 10 |
| `Values.EmitU64` | src/emitter/values.rs:96-101 | appends the unsigned LEB128 of v and returns its length, between 1 and 10 |
| `Values.EmitI32` | src/emitter/values.rs:106-111 | appends the signed LEB128 of v and returns its length, between 1 and 5 |
| `Values.EmitI64` | src/emitter/values.rs:116-121 | appends the signed LEB128 of v and returns its length, between 1 and 10 |
| `Values.EmitBytes` | src/emitter/values.rs:57-71 | without a prefix it appends exactly the bytes and returns their count; with one it appends LEB128(length) then the bytes and returns prefix length + length; on failure the sink holds nothing new, or only the prefix when the prefix fitted |
| `Values.EmitName` | src/emitter/values.rs:34-36 | behaves as `emit_bytes` on the name's UTF-8 bytes with the length prefix |
| `Values.Utf8` | src/emitter/values.rs:35 | a string's bytes take between one and four bytes per character |
| `Values.EmitItem` | src/emitter/values.rs:157 | one call of the `emit` callback appends that item's encoding and returns its length, or fails leaving the sink unchanged |
| `Values.EmitRepeated` | src/emitter/values.rs:145-161 | succeeds exactly when all items fit; then it appends the items' encodings in slice order with no prefix and returns their total length (an empty slice appends nothing and returns 0); on failure at item k it leaves the items before k written and never emits the items after k |
| `Values.EmitVector` | src/emitter/values.rs:127-142 | succeeds exactly when the whole vector fits; then it appends LEB128(item count) followed by the items and returns prefix length + item bytes; if the prefix fails nothing is written; if item k fails, the prefix and the items before k are written and nothing after |
| `Values.RepeatedAppend` | src/emitter/values.rs:154-158 | emitting the items of xs + ys writes the items of xs, then those of ys |
| `Values.RepeatedPrefixLength` | src/emitter/values.rs:154-158 | what is written for the first k items is a prefix of what is written for all of them |
| `Values.RepeatedCount` | src/emitter/values.rs:154-160 | the number of bytes written equals the sum of the per-item counts |
| `Values.RepeatedBytes` | src/emitter/values.rs:50-52 | emitting bytes one `emit_byte` at a time writes exactly those bytes |
| `Values.ByteRunIsVector` | src/emitter/values.rs:50-52 | `emit_bytes(v, true)` writes the same as `emit_vector(v, emit_byte)`, and `emit_bytes(v, false)` the same as `emit_repeated(v, emit_byte)` |
| `Values.VectorFraming` | src/emitter/values.rs:136-139 | a vector's prefix decodes to the item count, the bytes after the prefix are the items, and its length is prefix length + the sum of the item counts |
| `Values.VectorOfFourBytes` | src/emitter/values.rs:167-177 | the vector of bytes 1, 2, 3, 4 is the five bytes 4, 1, 2, 3, 4 |
| `Values.VectoredExample` | src/emitter/values.rs:167-177 | `emit_vector` of the bytes 1, 2, 3, 4 through `emit_byte` into a growable buffer succeeds with count 1 + 4; the buffer's first byte is the count 4 and the rest are the bytes 1, 2, 3, 4 |

## Left out

- Floating point. The `F32Constant`/`F64Constant` payloads are kept as opaque
  bit patterns. Float equality, the `From<f32>`/`From<f64>` conversions
  (src/model/instruction.rs:168-178) and `emit_f32`/`emit_f64`
  (src/emitter/values.rs:10-29) are not modelled.
- `crate::leb128` is not part of this model. `encode_unsigned` and
  `encode_signed` are specified by `Leb128.EncodeUnsigned` and
  `Leb128.EncodeSigned`, after section 5.2.2 of the WebAssembly Core
  Specification.
- Values.WriteUnsigned: assumes that `encode_unsigned` writes its whole
  encoding with one write and returns its length, because its code is not
  available. Values.WriteSigned makes the same assumption about
  `encode_signed`.
- Values.EmitByte: is modelled with `write_all` semantics. The source calls
  `write` (src/emitter/values.rs:46), which may accept fewer bytes than
  offered, and it returns 1 whatever `write` accepted. Partial writes are not
  modelled.
- Values.Sink.WriteAll: a write either appends all of its bytes or fails with
  `Io` and appends nothing. Partial writes before an error, and I/O errors
  that do not come from a full sink, are not modelled. The sink is a buffer
  with a fixed capacity; a growable `Vec<u8>` is a sink with room for 2^64
  bytes.
- Values.EmitItem: the `emit` callback is a function from item to bytes,
  written with one write, and its count is the number of bytes it wrote. A
  callback that writes several pieces, or that returns a count unrelated to
  what it wrote, is not modelled.
- `usize` is taken to be 64 bits wide. Byte counts are unbounded naturals, so
  an overflow of the `usize` byte counters is not modelled.
- `EmitError` (defined in the emitter's error module, not part of this
  model) has only its I/O case here. In the model the `emit` callbacks of
  `emit_repeated` and `emit_vector` fail only through the sink, so only `Io`
  arises; a callback that fails with another `EmitError` variant
  (src/emitter/values.rs:139, 157 pass such an error on) is not modelled, nor
  is an error of `encode_unsigned`/`encode_signed` other than a failed write.
- `Name` is not part of this model. The stand-in holds a string, and its
  `as_bytes` is that string's UTF-8 encoding.
- The index aliases and the enumerations imported from the rest of the model
  (`ValueType`, `NumberType`, `IntegerType`, `FloatType`, `ReferenceType`,
  the `*Index` types) are small stand-ins, not models of their sources.
- `src/lib.rs` only wires modules together and has no logic.
- The instruction encoder, the decoder and module assembly are not among the
  modelled files, so opcodes and instruction round trips are not covered.
