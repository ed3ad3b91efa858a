/** The binary emitter's value primitives: bytes, names, LEB128 integers
    (sections 5.2.1, 5.2.2 and 5.2.4 of the WebAssembly Core Specification)
    and the vector convention (section 5.1.3). Every emitter appends to a
    caller-supplied sink and returns the number of bytes it emitted, or the
    sink's I/O error. */
module Values {
  import opened Wrappers
  import opened Types
  import Leb128

  /** The emitter's error; only the sink's I/O failure arises here. */
  datatype EmitError = Io

  /** An output sink (`std::io::Write`). It accepts bytes until `capacity`
      bytes have been written; a write that does not fit fails with `Io` and
      writes nothing. */
  class Sink {
    var bytes: seq<Byte>
    const capacity: nat

    ghost predicate Valid()
      reads this
    {
      |bytes| <= capacity
    }

    /** How many more bytes the sink accepts. */
    function Room(): nat
      reads this
      requires Valid()
    {
      capacity - |bytes|
    }

    constructor (capacity: nat)
      ensures Valid() && bytes == [] && this.capacity == capacity
    {
      bytes := [];
      this.capacity := capacity;
    }

    /** `write_all`: appends all of `data`, or fails and appends nothing. */
    method WriteAll(data: seq<Byte>) returns (r: Outcome<EmitError>)
      requires Valid()
      modifies this
      ensures Valid()
      ensures r.Pass? <==> |data| <= old(Room())
      ensures bytes == if r.Pass? then old(bytes) + data else old(bytes)
    {
      if |data| <= capacity - |bytes| {
        bytes := bytes + data;
        r := Pass;
      } else {
        r := Fail(Io);
      }
    }
  }

  /** An emitter that writes `piece` with a single write: on success the sink
      grew by exactly `piece` and the count is its length; on failure the sink
      is unchanged. Success depends only on the room left. */
  ghost predicate WroteAtomically(before: seq<Byte>, after: seq<Byte>, room: nat,
                                  piece: seq<Byte>, r: Result<nat, EmitError>)
  {
    && (r.Ok? <==> |piece| <= room)
    && (r.Ok? ==> after == before + piece && r.value == |piece|)
    && (r.Err? ==> after == before)
  }

  // ---------------------------------------------------------------------
  // What the emitters write.

  /** The bytes `emit_byte` writes for one byte, as a per-item encoding. */
  function ByteItem(b: Byte): (r: seq<Byte>)
    ensures |r| == 1 && r[0] == b
  {
    [b]
  }

  /** The items' encodings concatenated in order, with no prefix. */
  function Repeated<I>(items: seq<I>, emit: I -> seq<Byte>): seq<Byte>
    decreases |items|
  {
    if items == [] then []
    else Repeated(items[..|items| - 1], emit) + emit(items[|items| - 1])
  }

  /** The sum of the per-item byte counts, accumulated from the first item. */
  function SumOfCounts<I>(items: seq<I>, emit: I -> seq<Byte>): nat
    decreases |items|
  {
    if items == [] then 0
    else |emit(items[0])| + SumOfCounts(items[1..], emit)
  }

  /** A vector: the unsigned LEB128 item count, then the items. */
  function Vector<I>(items: seq<I>, emit: I -> seq<Byte>): seq<Byte>
  {
    Leb128.EncodeUnsigned(|items|) + Repeated(items, emit)
  }

  /** A run of raw bytes, optionally prefixed by its length. */
  function ByteRun(value: seq<Byte>, includeLength: bool): seq<Byte>
  {
    if includeLength then Leb128.EncodeUnsigned(|value|) + value else value
  }

  /** The emitter fails at item k: items before k fit in `room`, item k does
      not, and the sink holds exactly the items before k. */
  ghost predicate StoppedAtItem<I>(items: seq<I>, emit: I -> seq<Byte>, room: nat,
                                   before: seq<Byte>, after: seq<Byte>)
  {
    exists k :: 0 <= k < |items|
      && |Repeated(items[..k], emit)| <= room < |Repeated(items[..k + 1], emit)|
      && after == before + Repeated(items[..k], emit)
  }

  // ---------------------------------------------------------------------
  // Names: a name is written as the length-prefixed run of its UTF-8 bytes.

  /** The UTF-8 encoding of one Unicode scalar value. */
  function Utf8Char(c: char): (r: seq<Byte>)
    ensures 1 <= |r| <= 4
    ensures |r| == 1 <==> c as int < TWO_7
    ensures |r| == 1 ==> r[0] == c as int
  {
    var n := c as int;
    if n < 0x80 then [n]
    else if n < 0x800 then [0xC0 + n / 0x40, 0x80 + n % 0x40]
    else if n < 0x1_0000 then [0xE0 + n / 0x1000, 0x80 + n / 0x40 % 0x40, 0x80 + n % 0x40]
    else [0xF0 + n / 0x4_0000, 0x80 + n / 0x1000 % 0x40, 0x80 + n / 0x40 % 0x40, 0x80 + n % 0x40]
  }

  /** The UTF-8 encoding of a string: between one and four bytes per
      character. */
  function Utf8(s: string): (r: seq<Byte>)
    ensures |s| <= |r| <= 4 * |s|
  {
    if s == [] then [] else Utf8Char(s[0]) + Utf8(s[1..])
  }

  /** A WebAssembly name: a string, held by value. */
  datatype Name = Name(value: string) {
    /** The name's bytes (`as_bytes`), its UTF-8 encoding. */
    function AsBytes(): seq<Byte> {
      Utf8(value)
    }
  }

  // ---------------------------------------------------------------------
  // The emitters.

  /** The unsigned LEB128 writer (`encode_unsigned`), assumed to write the
      whole encoding in one write and to return its length. */
  method WriteUnsigned(n: nat, out: Sink) returns (r: Result<nat, EmitError>)
    requires out.Valid()
    modifies out
    ensures out.Valid()
    ensures WroteAtomically(old(out.bytes), out.bytes, old(out.Room()), Leb128.EncodeUnsigned(n), r)
  {
    var bytes := Leb128.EncodeUnsigned(n);
    :- out.WriteAll(bytes);
    return Ok(|bytes|);
  }

  /** The signed LEB128 writer (`encode_signed`), assumed to write the whole
      encoding in one write and to return its length. */
  method WriteSigned(v: int, out: Sink) returns (r: Result<nat, EmitError>)
    requires out.Valid()
    modifies out
    ensures out.Valid()
    ensures WroteAtomically(old(out.bytes), out.bytes, old(out.Room()), Leb128.EncodeSigned(v), r)
  {
    var bytes := Leb128.EncodeSigned(v);
    :- out.WriteAll(bytes);
    return Ok(|bytes|);
  }

  method EmitByte(b: Byte, out: Sink) returns (r: Result<nat, EmitError>)
    requires out.Valid()
    modifies out
    ensures out.Valid()
    ensures WroteAtomically(old(out.bytes), out.bytes, old(out.Room()), [b], r)
    ensures r.Ok? ==> r.value == 1
  {
    var bytes := [b];
    :- out.WriteAll(bytes);
    return Ok(|bytes|);
  }

  method EmitU32(v: U32, out: Sink) returns (r: Result<nat, EmitError>)
    requires out.Valid()
    modifies out
    ensures out.Valid()
    ensures WroteAtomically(old(out.bytes), out.bytes, old(out.Room()), Leb128.EncodeUnsigned(v), r)
    ensures r.Ok? ==> 1 <= r.value <= 5
  {
    Leb128.U32Width(v);
    r := WriteUnsigned(v, out);
  }

  /** A `usize` is widened to `u128` first, so its bytes are the LEB128 of its
      mathematical value whatever the host's word size. */
  method EmitUsize(v: Usize, out: Sink) returns (r: Result<nat, EmitError>)
    requires out.Valid()
    modifies out
    ensures out.Valid()
    ensures WroteAtomically(old(out.bytes), out.bytes, old(out.Room()), Leb128.EncodeUnsigned(v), r)
    ensures r.Ok? ==> 1 <= r.value <= 10
  {
    Leb128.U64Width(v);
    r := WriteUnsigned(v, out);
  }

  method EmitU64(v: U64, out: Sink) returns (r: Result<nat, EmitError>)
    requires out.Valid()
    modifies out
    ensures out.Valid()
    ensures WroteAtomically(old(out.bytes), out.bytes, old(out.Room()), Leb128.EncodeUnsigned(v), r)
    ensures r.Ok? ==> 1 <= r.value <= 10
  {
    Leb128.U64Width(v);
    r := WriteUnsigned(v, out);
  }

  method EmitI32(v: I32, out: Sink) returns (r: Result<nat, EmitError>)
    requires out.Valid()
    modifies out
    ensures out.Valid()
    ensures WroteAtomically(old(out.bytes), out.bytes, old(out.Room()), Leb128.EncodeSigned(v), r)
    ensures r.Ok? ==> 1 <= r.value <= 5
  {
    Leb128.I32Width(v);
    r := WriteSigned(v, out);
  }

  method EmitI64(v: I64, out: Sink) returns (r: Result<nat, EmitError>)
    requires out.Valid()
    modifies out
    ensures out.Valid()
    ensures WroteAtomically(old(out.bytes), out.bytes, old(out.Room()), Leb128.EncodeSigned(v), r)
    ensures r.Ok? ==> 1 <= r.value <= 10
  {
    Leb128.I64Width(v);
    r := WriteSigned(v, out);
  }

  /** Raw bytes, preceded by their length when `includeLength` holds. If the
      length prefix fails nothing is written; if the bytes fail, only the
      prefix is. */
  method EmitBytes(value: seq<Byte>, out: Sink, includeLength: bool) returns (r: Result<nat, EmitError>)
    requires |value| < TWO_64
    requires out.Valid()
    modifies out
    ensures out.Valid()
    ensures r.Ok? <==> |ByteRun(value, includeLength)| <= old(out.Room())
    ensures r.Ok? ==> out.bytes == old(out.bytes) + ByteRun(value, includeLength)
                      && r.value == |ByteRun(value, includeLength)|
    ensures r.Err? ==>
      var prefix := Leb128.EncodeUnsigned(|value|);
      out.bytes == old(out.bytes) + (if includeLength && |prefix| <= old(out.Room()) then prefix else [])
  {
    var prefix := 0;
    if includeLength {
      prefix :- EmitUsize(|value|, out);
    }
    :- out.WriteAll(value);
    return Ok(prefix + |value|);
  }

  /** A name: the length-prefixed run of its UTF-8 bytes. */
  method EmitName(name: Name, out: Sink) returns (r: Result<nat, EmitError>)
    requires |name.AsBytes()| < TWO_64
    requires out.Valid()
    modifies out
    ensures out.Valid()
    ensures r.Ok? <==> |ByteRun(name.AsBytes(), true)| <= old(out.Room())
    ensures r.Ok? ==> out.bytes == old(out.bytes) + ByteRun(name.AsBytes(), true)
                      && r.value == |ByteRun(name.AsBytes(), true)|
    ensures r.Err? ==>
      var prefix := Leb128.EncodeUnsigned(|name.AsBytes()|);
      out.bytes == old(out.bytes) + (if |prefix| <= old(out.Room()) then prefix else [])
  {
    r := EmitBytes(name.AsBytes(), out, true);
  }

  /** The `emit` callback applied to one item: it writes the item's encoding
      in one write and returns its length. */
  method EmitItem<I>(item: I, out: Sink, emit: I -> seq<Byte>) returns (r: Result<nat, EmitError>)
    requires out.Valid()
    modifies out
    ensures out.Valid()
    ensures WroteAtomically(old(out.bytes), out.bytes, old(out.Room()), emit(item), r)
  {
    var bytes := emit(item);
    :- out.WriteAll(bytes);
    return Ok(|bytes|);
  }

  /** Each item's encoding in order, with no prefix. The first item that fails
      stops the loop: the items before it stay written, the ones after it are
      never emitted, and its error is returned. */
  method EmitRepeated<I>(items: seq<I>, out: Sink, emit: I -> seq<Byte>) returns (r: Result<nat, EmitError>)
    requires out.Valid()
    modifies out
    ensures out.Valid()
    ensures r.Ok? <==> |Repeated(items, emit)| <= old(out.Room())
    ensures r.Ok? ==> out.bytes == old(out.bytes) + Repeated(items, emit)
                      && r.value == |Repeated(items, emit)|
    ensures r.Err? ==> StoppedAtItem(items, emit, old(out.Room()), old(out.bytes), out.bytes)
  {
    var bytes := 0;
    var i := 0;
    while i < |items|
      invariant 0 <= i <= |items|
      invariant out.Valid()
      invariant |Repeated(items[..i], emit)| <= old(out.Room())
      invariant out.bytes == old(out.bytes) + Repeated(items[..i], emit)
      invariant bytes == |Repeated(items[..i], emit)|
    {
      assert items[..i + 1][..i] == items[..i];
      var n := EmitItem(items[i], out, emit);
      if n.Err? {
        RepeatedPrefixLength(items, emit, i + 1);
        return Err(n.error);
      }
      bytes := bytes + n.value;
      i := i + 1;
    }
    assert items[..i] == items;
    return Ok(bytes);
  }

  /** A vector: the item count as a `usize`, then the items. If the count
      fails no item is emitted. */
  method EmitVector<I>(items: seq<I>, out: Sink, emit: I -> seq<Byte>) returns (r: Result<nat, EmitError>)
    requires |items| < TWO_64
    requires out.Valid()
    modifies out
    ensures out.Valid()
    ensures r.Ok? <==> |Vector(items, emit)| <= old(out.Room())
    ensures r.Ok? ==> out.bytes == old(out.bytes) + Vector(items, emit)
                      && r.value == |Vector(items, emit)|
    ensures r.Err? ==>
      var prefix := Leb128.EncodeUnsigned(|items|);
      if |prefix| > old(out.Room()) then out.bytes == old(out.bytes)
      else StoppedAtItem(items, emit, old(out.Room()) - |prefix|, old(out.bytes) + prefix, out.bytes)
  {
    var bytes := 0;
    var prefix :- EmitUsize(|items|, out);
    bytes := bytes + prefix;
    var n :- EmitRepeated(items, out, emit);
    bytes := bytes + n;
    return Ok(bytes);
  }

  // ---------------------------------------------------------------------
  // Properties of what the emitters write.

  /** Repetition distributes over concatenation of the item sequence. */
  lemma {:induction false} RepeatedAppend<I>(xs: seq<I>, ys: seq<I>, emit: I -> seq<Byte>)
    ensures Repeated(xs + ys, emit) == Repeated(xs, emit) + Repeated(ys, emit)
    decreases |ys|
  {
    if ys != [] {
      var zs := xs + ys;
      var ys' := ys[..|ys| - 1];
      assert zs[..|zs| - 1] == xs + ys';
      assert zs[|zs| - 1] == ys[|ys| - 1];
      RepeatedAppend(xs, ys', emit);
    } else {
      assert xs + ys == xs;
    }
  }

  /** The bytes written for a prefix of the items are a prefix of the bytes
      written for all of them. */
  lemma RepeatedPrefixLength<I>(items: seq<I>, emit: I -> seq<Byte>, k: nat)
    requires k <= |items|
    ensures |Repeated(items[..k], emit)| <= |Repeated(items, emit)|
    ensures Repeated(items, emit)[..|Repeated(items[..k], emit)|] == Repeated(items[..k], emit)
  {
    assert items == items[..k] + items[k..];
    RepeatedAppend(items[..k], items[k..], emit);
  }

  /** The number of bytes repetition writes is the sum of the per-item counts. */
  lemma {:induction false} RepeatedCount<I>(items: seq<I>, emit: I -> seq<Byte>)
    ensures |Repeated(items, emit)| == SumOfCounts(items, emit)
    decreases |items|
  {
    if items != [] {
      assert items == [items[0]] + items[1..];
      RepeatedAppend([items[0]], items[1..], emit);
      assert [items[0]][..0] == [];
      RepeatedCount(items[1..], emit);
    }
  }

  /** Repeating single bytes reproduces them. */
  lemma {:induction false} RepeatedBytes(value: seq<Byte>)
    ensures Repeated(value, ByteItem) == value
    decreases |value|
  {
    if value != [] {
      RepeatedBytes(value[..|value| - 1]);
    }
  }

  /** `emit_bytes` is the optimised form of the generic emitters over
      `emit_byte`: with a prefix it writes the same as `emit_vector`, without
      one the same as `emit_repeated`. */
  lemma ByteRunIsVector(value: seq<Byte>)
    ensures ByteRun(value, true) == Vector(value, ByteItem)
    ensures ByteRun(value, false) == Repeated(value, ByteItem)
  {
    RepeatedBytes(value);
  }

  /** A vector is self-describing: its prefix decodes to the item count and
      the bytes after the prefix are the items. */
  lemma VectorFraming<I>(items: seq<I>, emit: I -> seq<Byte>)
    ensures var prefixLength := |Leb128.EncodeUnsigned(|items|)|;
      && Leb128.DecodeUnsigned(Vector(items, emit)) == Some((|items|, prefixLength))
      && Vector(items, emit)[prefixLength..] == Repeated(items, emit)
      && |Vector(items, emit)| == prefixLength + SumOfCounts(items, emit)
  {
    Leb128.UnsignedRoundTrip(|items|, Repeated(items, emit));
    RepeatedCount(items, emit);
  }

  /** Four single-byte items make a five-byte vector: the count 4 in one byte,
      then the items themselves. */
  lemma VectorOfFourBytes()
    ensures Vector<Byte>([1, 2, 3, 4], ByteItem) == [4, 1, 2, 3, 4]
  {
    RepeatedBytes([1, 2, 3, 4]);
  }

  /** The emitters on a growable buffer: `emit_vector` over `emit_byte`. */
  method VectoredExample() returns (emitted: Result<nat, EmitError>, written: seq<Byte>)
    ensures emitted == Ok(1 + 4)
    ensures |written| == 5 && written[0] == 4 && written[1..] == [1, 2, 3, 4]
  {
    var buffer := new Sink(TWO_64);
    emitted := EmitVector<Byte>([1, 2, 3, 4], buffer, ByteItem);
    VectorOfFourBytes();
    written := buffer.bytes;
  }
}
