/** Variable-length integers of the WebAssembly binary format (section 5.2.2
    of the WebAssembly Core Specification): LEB128, seven value bits per byte,
    least-significant group first, the high bit of every byte but the last
    set, and no redundant trailing byte.

    The encoders specify what the emitter's `encode_unsigned` and
    `encode_signed` write; the decoders are independent reference
    definitions of what those bytes mean. */
module Leb128 {
  import opened Wrappers
  import opened Types

  /** 128 to the power k: the range of k groups of seven bits. */
  function Pow128(k: nat): (p: nat)
    ensures p >= 1
  {
    if k == 0 then 1 else 0x80 * Pow128(k - 1)
  }

  /** The framing of a LEB128 number: the continuation bit (0x80) is set on
      every byte but the last, so the last byte is where the number ends. */
  predicate Framed(bs: seq<Byte>) {
    && |bs| >= 1
    && (forall i :: 0 <= i < |bs| - 1 ==> bs[i] >= 0x80)
    && bs[|bs| - 1] < 0x80
  }

  /** Splitting off the low seven bits of a number that needs more than one
      byte leaves a smaller, non-zero rest. */
  lemma UnsignedStep(n: nat)
    requires n >= 0x80
    ensures 0 < n / 0x80 < n
    ensures n == n % 0x80 + 0x80 * (n / 0x80)
  {
  }

  /** The unsigned LEB128 encoding of n. It ends in a byte without the
      continuation bit, and that last byte is zero only when n is. */
  function EncodeUnsigned(n: nat): (r: seq<Byte>)
    ensures |r| >= 1
    ensures r[|r| - 1] < 0x80
    ensures r[|r| - 1] == 0 <==> n == 0
    decreases n
  {
    if n < 0x80 then [n]
    else
      UnsignedStep(n);
      [n % 0x80 + 0x80] + EncodeUnsigned(n / 0x80)
  }

  /** A two's-complement value fits in the seven data bits of a final byte:
      after removing those bits only sign copies are left. */
  predicate FitsSevenBits(v: int) {
    -64 <= v < 64
  }

  /** A final byte `last` is redundant after `prev` when it only repeats the
      sign bit (0x40) of `prev`'s seven data bits. */
  predicate RedundantSignByte(prev: Byte, last: Byte) {
    (last == 0 && prev % 0x80 < 64) || (last == 0x7F && prev % 0x80 >= 64)
  }

  /** A signed LEB128 sequence of minimal length: no redundant final byte. */
  predicate SignedMinimal(bs: seq<Byte>) {
    |bs| >= 2 ==> !RedundantSignByte(bs[|bs| - 2], bs[|bs| - 1])
  }

  /** The number of significant groups left in v: the value itself, or its
      bitwise complement when v is negative. */
  function SignedMeasure(v: int): nat {
    if v >= 0 then v else -v - 1
  }

  /** Removing the low seven bits of a value that does not fit in them leaves
      a smaller value of the same sign; when what is left fits in one byte,
      that byte is not a mere copy of the sign of the bits removed. */
  lemma SignedStep(v: int)
    requires !FitsSevenBits(v)
    ensures var rest := (v - v % 0x80) / 0x80;
      && SignedMeasure(rest) < SignedMeasure(v)
      && (rest < 0 <==> v < 0)
      && (FitsSevenBits(rest) ==> !RedundantSignByte(v % 0x80 + 0x80, rest % 0x80))
  {
  }

  /** The signed LEB128 encoding of v. It ends in a byte without the
      continuation bit; that byte's sign bit (0x40) is the sign of v, and
      the encoding has no redundant final byte. */
  function EncodeSigned(v: int): (r: seq<Byte>)
    ensures |r| >= 1
    ensures r[|r| - 1] < 0x80
    ensures r[|r| - 1] >= 64 <==> v < 0
    ensures SignedMinimal(r)
    decreases SignedMeasure(v)
  {
    var low := v % 0x80;
    var rest := (v - low) / 0x80;
    if FitsSevenBits(v) then [low]
    else
      SignedStep(v);
      [low + 0x80] + EncodeSigned(rest)
  }

  /** Decodes an unsigned LEB128 number at the start of bs: its value and the
      number of bytes it occupies, or None when bs ends before a byte without
      the continuation bit. */
  function DecodeUnsigned(bs: seq<Byte>): (r: Option<(nat, nat)>)
    ensures r.Some? ==> 1 <= r.value.1 <= |bs|
  {
    if bs == [] then None
    else if bs[0] < 0x80 then Some((bs[0], 1))
    else
      var tail := DecodeUnsigned(bs[1..]);
      if tail.None? then None
      else Some((bs[0] as int - 0x80 + 0x80 * tail.value.0, tail.value.1 + 1))
  }

  /** Decodes a signed LEB128 number at the start of bs; the final byte is read
      as a seven-bit two's-complement value, which sign-extends the result. */
  function DecodeSigned(bs: seq<Byte>): (r: Option<(int, nat)>)
    ensures r.Some? ==> 1 <= r.value.1 <= |bs|
  {
    if bs == [] then None
    else if bs[0] < 0x80 then Some((if bs[0] >= 64 then bs[0] as int - 0x80 else bs[0] as int, 1))
    else
      var tail := DecodeSigned(bs[1..]);
      if tail.None? then None
      else Some((bs[0] as int - 0x80 + 0x80 * tail.value.0, tail.value.1 + 1))
  }

  /** Every byte of the unsigned encoding but the last carries the
      continuation bit. */
  lemma {:induction false} UnsignedFramed(n: nat)
    ensures Framed(EncodeUnsigned(n))
    decreases n
  {
    if n >= 0x80 {
      UnsignedFramed(n / 0x80);
    }
  }

  /** Every byte of the signed encoding but the last carries the continuation
      bit. */
  lemma {:induction false} SignedFramed(v: int)
    ensures Framed(EncodeSigned(v))
    decreases SignedMeasure(v)
  {
    if !FitsSevenBits(v) {
      SignedStep(v);
      SignedFramed((v - v % 0x80) / 0x80);
    }
  }

  /** Decoding reads back exactly the encoded number and stops at its last
      byte, whatever follows it. */
  lemma {:induction false} UnsignedRoundTrip(n: nat, rest: seq<Byte>)
    ensures DecodeUnsigned(EncodeUnsigned(n) + rest) == Some((n, |EncodeUnsigned(n)|))
    decreases n
  {
    if n >= 0x80 {
      var low := n % 0x80;
      var m := n / 0x80;
      UnsignedStep(n);
      UnsignedRoundTrip(m, rest);
      assert EncodeUnsigned(n) + rest == [low + 0x80] + (EncodeUnsigned(m) + rest);
      DecodeUnsignedCons(low + 0x80, EncodeUnsigned(m) + rest);
    }
  }

  /** Decoding a continuation byte in front of a decodable sequence. */
  lemma DecodeUnsignedCons(first: Byte, tail: seq<Byte>)
    requires first >= 0x80 && DecodeUnsigned(tail).Some?
    ensures DecodeUnsigned([first] + tail).Some?
    ensures DecodeUnsigned([first] + tail).value.0 == first - 0x80 + 0x80 * DecodeUnsigned(tail).value.0
    ensures DecodeUnsigned([first] + tail).value.1 == DecodeUnsigned(tail).value.1 + 1
  {
    var bs := [first] + tail;
    assert bs[0] == first && bs[1..] == tail;
  }

  /** A value that fits in seven bits is one byte that decodes back to it. */
  lemma SignedRoundTripLast(v: int, rest: seq<Byte>)
    requires FitsSevenBits(v)
    ensures DecodeSigned(EncodeSigned(v) + rest) == Some((v, |EncodeSigned(v)|))
  {
    assert EncodeSigned(v) == [v % 0x80];
    assert (EncodeSigned(v) + rest)[0] == v % 0x80;
  }

  lemma {:induction false} SignedRoundTrip(v: int, rest: seq<Byte>)
    ensures DecodeSigned(EncodeSigned(v) + rest) == Some((v, |EncodeSigned(v)|))
    decreases SignedMeasure(v)
  {
    if FitsSevenBits(v) {
      SignedRoundTripLast(v, rest);
    } else {
      var low := v % 0x80;
      var w := (v - low) / 0x80;
      SignedStep(v);
      SplitLow(v);
      EncodeSignedUnfold(v, low, w);
      SignedRoundTrip(w, rest);
      DecodeSignedCons(low + 0x80, EncodeSigned(w) + rest);
      assert EncodeSigned(v) + rest == [low + 0x80] + (EncodeSigned(w) + rest);
    }
  }

  /** Only the minimal encoding decodes to n: an unsigned LEB128 sequence
      whose last byte is non-zero (or that is a single byte) is the encoding
      of the number it decodes to. */
  lemma {:induction false} UnsignedCanonical(bs: seq<Byte>)
    requires DecodeUnsigned(bs).Some? && DecodeUnsigned(bs).value.1 == |bs|
    requires |bs| == 1 || bs[|bs| - 1] != 0
    ensures bs == EncodeUnsigned(DecodeUnsigned(bs).value.0)
  {
    if bs[0] >= 0x80 {
      var tail := bs[1..];
      UnsignedCanonical(tail);
      var v := DecodeUnsigned(tail).value.0;
      ContinuationStep(bs[0] - 0x80, v);
      assert bs == [bs[0]] + EncodeUnsigned(v);
    }
  }

  /** A value is its low seven bits plus 128 times the rest. */
  lemma SplitLow(v: int)
    ensures v == v % 0x80 + 0x80 * ((v - v % 0x80) / 0x80)
  {
  }

  /** Unfolding the signed encoder at a value that needs more than one byte:
      a continuation byte with its low seven bits, then the encoding of the
      rest. */
  lemma EncodeSignedUnfold(v: int, low: int, rest: int)
    requires !FitsSevenBits(v) && low == v % 0x80 && rest == (v - low) / 0x80
    ensures EncodeSigned(v) == [low + 0x80] + EncodeSigned(rest)
  {
  }

  /** Decoding a continuation byte in front of a decodable sequence. */
  lemma DecodeSignedCons(first: Byte, tail: seq<Byte>)
    requires first >= 0x80 && DecodeSigned(tail).Some?
    ensures DecodeSigned([first] + tail).Some?
    ensures DecodeSigned([first] + tail).value.0 == first - 0x80 + 0x80 * DecodeSigned(tail).value.0
    ensures DecodeSigned([first] + tail).value.1 == DecodeSigned(tail).value.1 + 1
  {
    var bs := [first] + tail;
    assert bs[0] == first && bs[1..] == tail;
  }

  /** The low seven bits and the rest of a value built from them. */
  lemma ContinuationStep(low: int, w: int)
    requires 0 <= low < 0x80
    ensures (low + 0x80 * w) % 0x80 == low
    ensures (low + 0x80 * w - low) / 0x80 == w
    ensures (low + 0x80 * w) / 0x80 == w
  {
  }

  /** A continuation byte followed by the minimal encoding of w, with no
      redundant final byte, encodes a value that does not fit in one byte. */
  lemma ContinuationNeeded(first: Byte, w: int)
    requires first >= 0x80
    requires SignedMinimal([first] + EncodeSigned(w))
    ensures !FitsSevenBits(first - 0x80 + 0x80 * w)
  {
    var e := EncodeSigned(w);
    if |e| == 1 {
      assert ([first] + e)[0] == first && ([first] + e)[1] == e[0];
      assert !RedundantSignByte(first, e[0]);
      assert FitsSevenBits(w);
      assert e[0] == w % 0x80;
    } else {
      assert !FitsSevenBits(w);
    }
  }

  /** Dropping the first byte of a minimal sequence leaves it minimal. */
  lemma MinimalTail(bs: seq<Byte>)
    requires |bs| >= 1 && SignedMinimal(bs)
    ensures SignedMinimal(bs[1..])
  {
    var tail := bs[1..];
    if |tail| >= 2 {
      assert tail[|tail| - 2] == bs[|bs| - 2] && tail[|tail| - 1] == bs[|bs| - 1];
    }
  }

  /** A final byte is a whole minimal encoding of the value it decodes to. */
  lemma SignedCanonicalLast(bs: seq<Byte>)
    requires |bs| == 1 && bs[0] < 0x80
    ensures DecodeSigned(bs).Some?
    ensures bs == EncodeSigned(DecodeSigned(bs).value.0)
  {
    var v := DecodeSigned(bs).value.0;
    assert v % 0x80 == bs[0];
  }

  /** Decoding a sequence that starts with a continuation byte decodes its
      tail first. */
  lemma DecodeSignedTail(bs: seq<Byte>)
    requires DecodeSigned(bs).Some? && bs[0] >= 0x80
    ensures DecodeSigned(bs[1..]).Some?
    ensures DecodeSigned(bs).value.1 == DecodeSigned(bs[1..]).value.1 + 1
    ensures DecodeSigned(bs).value.0 == bs[0] - 0x80 + 0x80 * DecodeSigned(bs[1..]).value.0
  {
  }

  /** A continuation byte in front of the encoding of w is the encoding of the
      value they make up together, when that value needs more than one byte. */
  lemma CanonicalStep(first: Byte, w: int)
    requires first >= 0x80 && !FitsSevenBits(first - 0x80 + 0x80 * w)
    ensures EncodeSigned(first - 0x80 + 0x80 * w) == [first] + EncodeSigned(w)
  {
    var low := first - 0x80;
    ContinuationStep(low, w);
    EncodeSignedUnfold(low + 0x80 * w, low, w);
  }

  /** Only the minimal encoding decodes to v: a signed LEB128 sequence with no
      redundant final byte is the encoding of the number it decodes to. */
  lemma {:induction false} SignedCanonical(bs: seq<Byte>)
    requires DecodeSigned(bs).Some? && DecodeSigned(bs).value.1 == |bs|
    requires SignedMinimal(bs)
    ensures bs == EncodeSigned(DecodeSigned(bs).value.0)
  {
    if bs[0] < 0x80 {
      SignedCanonicalLast(bs);
    } else {
      var tail := bs[1..];
      DecodeSignedTail(bs);
      MinimalTail(bs);
      SignedCanonical(tail);
      var w := DecodeSigned(tail).value.0;
      assert bs == [bs[0]] + EncodeSigned(w);
      ContinuationNeeded(bs[0], w);
      CanonicalStep(bs[0], w);
    }
  }

  /** A number below 128^k takes at most k bytes. */
  lemma {:induction false} UnsignedLength(n: nat, k: nat)
    requires k >= 1 && n < Pow128(k)
    ensures |EncodeUnsigned(n)| <= k
  {
    if n >= 0x80 {
      UnsignedLength(n / 0x80, k - 1);
    }
  }

  /** Removing the low seven bits divides the range of a value by 128. */
  lemma RestBounds(v: int, p: nat)
    requires -64 * 0x80 * p <= v < 64 * 0x80 * p
    ensures -64 * p <= (v - v % 0x80) / 0x80 < 64 * p
  {
  }

  /** A number in [-64 * 128^(k-1), 64 * 128^(k-1)) takes at most k bytes. */
  lemma {:induction false} SignedLength(v: int, k: nat)
    requires k >= 1 && -64 * Pow128(k - 1) <= v < 64 * Pow128(k - 1)
    ensures |EncodeSigned(v)| <= k
    decreases k
  {
    if !FitsSevenBits(v) {
      assert k >= 2;
      assert Pow128(k - 1) == 0x80 * Pow128(k - 2);
      var low := v % 0x80;
      var rest := (v - low) / 0x80;
      RestBounds(v, Pow128(k - 2));
      EncodeSignedUnfold(v, low, rest);
      SignedLength(rest, k - 1);
    }
  }

  /** The width bounds of the format: at most ceil(N / 7) bytes for an N-bit
      integer, so 5 for 32-bit and 10 for 64-bit values. */
  lemma U32Width(v: U32)
    ensures |EncodeUnsigned(v)| <= 5
  {
    assert Pow128(5) == 0x8_0000_0000 by {
      assert Pow128(2) == 0x4000;
    }
    UnsignedLength(v, 5);
  }

  lemma U64Width(v: U64)
    ensures |EncodeUnsigned(v)| <= 10
  {
    assert Pow128(10) == 0x40_0000_0000_0000_0000 by {
      assert Pow128(7) == 0x2_0000_0000_0000;
    }
    UnsignedLength(v, 10);
  }

  lemma I32Width(v: I32)
    ensures |EncodeSigned(v)| <= 5
  {
    assert Pow128(4) == 0x1000_0000 by {
      assert Pow128(2) == 0x4000;
    }
    SignedLength(v, 5);
  }

  lemma I64Width(v: I64)
    ensures |EncodeSigned(v)| <= 10
  {
    assert Pow128(9) == 0x8000_0000_0000_0000 by {
      assert Pow128(7) == 0x2_0000_0000_0000;
    }
    SignedLength(v, 10);
  }

  /** A value below 128 is its own one-byte encoding. */
  lemma SmallUnsigned(n: nat)
    requires n < 0x80
    ensures EncodeUnsigned(n) == [n]
  {
  }
}
