/**
 * The byte-stream helpers the PSD structures are read and written with:
 * big-endian fixed-width integers (`read_fmt`/`write_fmt`), length-prefixed
 * blocks padded to a multiple of a divisor (`read_length_block`,
 * `write_length_block`), one-byte-length Pascal strings in ASCII, and the
 * stream cursor itself.
 *
 * Each reader is stated on the bytes that remain in the stream: it yields the
 * value and the bytes left after it, or the exception it raises.
 */
module Stream {
  import opened Wrappers
  import opened Arith

  type Byte = x: int | 0 <= x < 256
  type Bytes = seq<Byte>

  type U16 = x: int | 0 <= x < 0x1_0000
  type U32 = x: int | 0 <= x < 0x1_0000_0000
  type I32 = x: int | -0x8000_0000 <= x < 0x8000_0000

  /** What a read can raise: a short read fails the helpers' length assertion. */
  datatype Error = ShortRead | InvalidVersion(version: nat)

  // ---------------------------------------------------------------------------
  // Fixed-width integers
  // ---------------------------------------------------------------------------

  function Pow256(n: nat): (r: nat)
    ensures r >= 1
  {
    if n == 0 then 1 else 256 * Pow256(n - 1)
  }

  /** The n-byte big-endian form of the low n bytes of v. */
  function EncUInt(v: nat, n: nat): (r: Bytes)
    ensures |r| == n
  {
    if n == 0 then [] else EncUInt(v / 256, n - 1) + [v % 256]
  }

  /** The value of a big-endian byte string. */
  function DecUInt(s: Bytes): (v: nat)
    ensures v < Pow256(|s|)
  {
    if s == [] then 0 else DecUInt(s[..|s| - 1]) * 256 + s[|s| - 1]
  }

  lemma {:induction false} DecEncUInt(v: nat, n: nat)
    requires v < Pow256(n)
    ensures DecUInt(EncUInt(v, n)) == v
  {
    if n > 0 {
      DecEncUInt(v / 256, n - 1);
      var s := EncUInt(v, n);
      assert s[..|s| - 1] == EncUInt(v / 256, n - 1);
    }
  }

  lemma {:induction false} EncDecUInt(s: Bytes)
    ensures EncUInt(DecUInt(s), |s|) == s
  {
    if s != [] {
      var init := s[..|s| - 1];
      EncDecUInt(init);
      var v := DecUInt(s);
      assert v / 256 == DecUInt(init) && v % 256 == s[|s| - 1];
      assert init + [s[|s| - 1]] == s;
    }
  }

  /** The 32-bit two's-complement form of a signed value (`'i'`). */
  function EncI32(v: I32): (r: Bytes)
    ensures |r| == 4
  {
    EncUInt(if v >= 0 then v else v + 0x1_0000_0000, 4)
  }

  function DecI32(s: Bytes): (v: I32)
    requires |s| == 4
  {
    var u := DecUInt(s);
    assert Pow256(4) == 0x1_0000_0000;
    if u >= 0x8000_0000 then u - 0x1_0000_0000 else u
  }

  lemma DecEncI32(v: I32)
    ensures DecI32(EncI32(v)) == v
  {
    assert Pow256(4) == 0x1_0000_0000;
    DecEncUInt(if v >= 0 then v else v + 0x1_0000_0000, 4);
  }

  // ---------------------------------------------------------------------------
  // Readers on the remaining bytes
  // ---------------------------------------------------------------------------

  /** `read_fmt` of one n-byte unsigned field. */
  function DecodeUInt(s: Bytes, n: nat): (r: Result<(nat, Bytes), Error>)
    ensures r.Err? <==> |s| < n
    ensures r.Ok? ==> r.value.1 == s[n..] && r.value.0 < Pow256(n)
  {
    if |s| < n then Err(ShortRead) else Ok((DecUInt(s[..n]), s[n..]))
  }

  function DecodeI32(s: Bytes): (r: Result<(I32, Bytes), Error>)
    ensures r.Err? <==> |s| < 4
    ensures r.Ok? ==> r.value.1 == s[4..]
  {
    if |s| < 4 then Err(ShortRead) else Ok((DecI32(s[..4]), s[4..]))
  }

  lemma DecodeUIntOfEnc(v: nat, n: nat, rest: Bytes)
    requires v < Pow256(n)
    ensures DecodeUInt(EncUInt(v, n) + rest, n) == Ok((v, rest))
  {
    var s := EncUInt(v, n) + rest;
    assert s[..n] == EncUInt(v, n) && s[n..] == rest;
    DecEncUInt(v, n);
  }

  lemma DecodeI32OfEnc(v: I32, rest: Bytes)
    ensures DecodeI32(EncI32(v) + rest) == Ok((v, rest))
  {
    var s := EncI32(v) + rest;
    assert s[..4] == EncI32(v) && s[4..] == rest;
    DecEncI32(v);
  }

  /** The byte widths of `'B'`, `'H'` and `'I'`. */
  lemma Pow256Widths()
    ensures Pow256(1) == 0x100 && Pow256(2) == 0x1_0000 && Pow256(4) == 0x1_0000_0000
  {
    assert Pow256(2) == 256 * Pow256(1);
    assert Pow256(4) == 256 * Pow256(3);
  }

  /** `read_fmt('B')`, `read_fmt('H')` and `read_fmt('I')`, typed. */
  function DecodeU8(s: Bytes): (r: Result<(Byte, Bytes), Error>)
    ensures r.Err? <==> |s| < 1
    ensures r.Ok? ==> r.value.1 == s[1..] && r.value.0 == s[0]
  {
    Pow256Widths();
    var (v, rest) :- DecodeUInt(s, 1);
    assert s[..1] == [] + [s[0]];
    Ok((v, rest))
  }

  function DecodeU16(s: Bytes): (r: Result<(U16, Bytes), Error>)
    ensures r.Err? <==> |s| < 2
    ensures r.Ok? ==> r.value.1 == s[2..]
  {
    Pow256Widths();
    var (v, rest) :- DecodeUInt(s, 2);
    Ok((v, rest))
  }

  function DecodeU32(s: Bytes): (r: Result<(U32, Bytes), Error>)
    ensures r.Err? <==> |s| < 4
    ensures r.Ok? ==> r.value.1 == s[4..]
  {
    Pow256Widths();
    var (v, rest) :- DecodeUInt(s, 4);
    Ok((v, rest))
  }

  lemma DecodeU8OfEnc(v: Byte, rest: Bytes)
    ensures DecodeU8(EncUInt(v, 1) + rest) == Ok((v, rest))
  {
    Pow256Widths();
    DecodeUIntOfEnc(v, 1, rest);
  }

  lemma DecodeU16OfEnc(v: U16, rest: Bytes)
    ensures DecodeU16(EncUInt(v, 2) + rest) == Ok((v, rest))
  {
    Pow256Widths();
    DecodeUIntOfEnc(v, 2, rest);
  }

  lemma DecodeU32OfEnc(v: U32, rest: Bytes)
    ensures DecodeU32(EncUInt(v, 4) + rest) == Ok((v, rest))
  {
    Pow256Widths();
    DecodeUIntOfEnc(v, 4, rest);
  }

  /** The number of zero bytes that bring a length up to a multiple of the divisor. */
  function PadLen(length: nat, padding: nat): (r: nat)
    requires padding > 0
    ensures r < padding
  {
    if length % padding == 0 then 0 else padding - length % padding
  }

  /** Padding brings a block's content to a multiple of the divisor. */
  lemma PadLenAligns(length: nat, padding: nat)
    requires padding > 0
    ensures (length + PadLen(length, padding)) % padding == 0
  {
    var q := length / padding;
    if length % padding != 0 {
      ModUnique(length + PadLen(length, padding), padding, q + 1, 0);
    }
  }

  function Zeros(n: nat): (r: Bytes)
    ensures |r| == n && forall i :: 0 <= i < n ==> r[i] == 0
  {
    seq(n, i => 0)
  }

  /** `write_length_block`: an n-byte length, the content, then zero padding. */
  function EncodeLengthBlock(content: Bytes, n: nat, padding: nat): (r: Bytes)
    requires padding > 0
    ensures |r| == n + |content| + PadLen(|content|, padding)
  {
    EncUInt(|content|, n) + content + Zeros(PadLen(|content|, padding))
  }

  /** `read_length_block`: the content, with the padding after it skipped as far as the stream goes. */
  function DecodeLengthBlock(s: Bytes, n: nat, padding: nat): (r: Result<(Bytes, Bytes), Error>)
    requires padding > 0
    ensures r.Ok? ==> |r.value.1| <= |s| - n - |r.value.0|
  {
    var (length, rest) :- DecodeUInt(s, n);
    if |rest| < length then Err(ShortRead)
    else
      var skip := if PadLen(length, padding) <= |rest| - length then PadLen(length, padding) else |rest| - length;
      Ok((rest[..length], rest[length + skip..]))
  }

  /** Reading back a written block gives its content and leaves what followed it. */
  lemma DecodeLengthBlockOfEnc(content: Bytes, n: nat, padding: nat, rest: Bytes)
    requires padding > 0 && |content| < Pow256(n)
    ensures DecodeLengthBlock(EncodeLengthBlock(content, n, padding) + rest, n, padding) == Ok((content, rest))
  {
    var pad := Zeros(PadLen(|content|, padding));
    var tail := content + pad + rest;
    assert EncodeLengthBlock(content, n, padding) + rest == EncUInt(|content|, n) + tail;
    DecodeUIntOfEnc(|content|, n, tail);
    assert tail[..|content|] == content;
    assert tail[|content| + |pad|..] == rest;
  }

  /** A block is never shorter than its length field. */
  lemma DecodeLengthBlockShort(s: Bytes, n: nat, padding: nat)
    requires padding > 0 && |s| < n
    ensures DecodeLengthBlock(s, n, padding) == Err(ShortRead)
  {
  }

  // ---------------------------------------------------------------------------
  // Pascal strings in ASCII
  // ---------------------------------------------------------------------------

  function AsciiOnly(u: string): (r: string)
    ensures |r| <= |u|
    ensures forall i :: 0 <= i < |r| ==> r[i] < 128 as char
  {
    if u == [] then []
    else (if u[0] < 128 as char then [u[0]] else []) + AsciiOnly(u[1..])
  }

  /** `u.encode('ascii', 'ignore')`: the ASCII characters' codes, others dropped. */
  function AsciiEncode(u: string): (r: Bytes)
    ensures |r| == |AsciiOnly(u)|
  {
    var a := AsciiOnly(u);
    seq(|a|, i requires 0 <= i < |a| => a[i] as int)
  }

  /** `b.decode('ascii', 'ignore')`: bytes below 128 as characters, others dropped. */
  function AsciiDecode(b: Bytes): string {
    if b == [] then []
    else (if b[0] < 128 then [b[0] as char] else []) + AsciiDecode(b[1..])
  }

  lemma {:induction false} AsciiDecodeOfAscii(b: Bytes)
    requires forall i :: 0 <= i < |b| ==> b[i] < 128
    ensures |AsciiDecode(b)| == |b|
    ensures forall i :: 0 <= i < |b| ==> AsciiDecode(b)[i] == b[i] as char
  {
    if b != [] {
      AsciiDecodeOfAscii(b[1..]);
    }
  }

  /** Decoding what was encoded gives the string with its non-ASCII characters dropped. */
  lemma AsciiRoundTrip(u: string)
    ensures AsciiDecode(AsciiEncode(u)) == AsciiOnly(u)
  {
    AsciiDecodeOfAscii(AsciiEncode(u));
  }

  lemma {:induction false} AsciiOnlyIdempotent(u: string)
    ensures AsciiOnly(AsciiOnly(u)) == AsciiOnly(u)
  {
    if u != [] {
      AsciiOnlyIdempotent(u[1..]);
      AsciiOnlyConcat(if u[0] < 128 as char then [u[0]] else [], AsciiOnly(u[1..]));
    }
  }

  lemma {:induction false} AsciiOnlyConcat(a: string, b: string)
    ensures AsciiOnly(a + b) == AsciiOnly(a) + AsciiOnly(b)
  {
    if a != [] {
      assert (a + b)[1..] == a[1..] + b;
      AsciiOnlyConcat(a[1..], b);
    } else {
      assert a + b == b;
    }
  }

  /** `write_pascal_string(fp, u, 'ascii', padding=1)`: one length byte, then the bytes. */
  function EncodePascal(u: string): (r: Bytes)
    ensures |r| == 1 + |AsciiOnly(u)|
  {
    var a := AsciiEncode(u);
    EncUInt(|a|, 1) + a
  }

  /** `read_pascal_string(fp, 'ascii', padding=1)`. */
  function DecodePascal(s: Bytes): (r: Result<(string, Bytes), Error>)
    ensures r.Ok? ==> |r.value.1| < |s|
  {
    var (length, rest) :- DecodeUInt(s, 1);
    if |rest| < length then Err(ShortRead)
    else Ok((AsciiDecode(rest[..length]), rest[length..]))
  }

  lemma DecodePascalOfEnc(u: string, rest: Bytes)
    requires |AsciiOnly(u)| < 256
    ensures DecodePascal(EncodePascal(u) + rest) == Ok((AsciiOnly(u), rest))
  {
    var a := AsciiEncode(u);
    assert EncodePascal(u) + rest == EncUInt(|a|, 1) + (a + rest);
    DecodeUIntOfEnc(|a|, 1, a + rest);
    assert (a + rest)[..|a|] == a && (a + rest)[|a|..] == rest;
    AsciiRoundTrip(u);
  }

  /** Only the ASCII characters reach the stream. */
  lemma EncodePascalAscii(u: string)
    ensures EncodePascal(AsciiOnly(u)) == EncodePascal(u)
  {
    AsciiOnlyIdempotent(u);
  }

  // ---------------------------------------------------------------------------
  // The stream cursor
  // ---------------------------------------------------------------------------

  /** The reader agrees with the specification: the same value and the same bytes left, or the same error. */
  ghost predicate Agrees<T>(r: Result<T, Error>, spec: Result<(T, Bytes), Error>, rest: Bytes) {
    match spec
    case Ok((v, rest')) => r == Ok(v) && rest == rest'
    case Err(e) => r == Err(e)
  }

  /** A readable stream: fixed contents and a position in them. */
  class Reader {
    const data: Bytes
    var pos: nat

    ghost predicate Valid()
      reads this
    {
      pos <= |data|
    }

    function Remaining(): Bytes
      reads this
      requires Valid()
    {
      data[pos..]
    }

    /** `io.BytesIO(data)`. */
    constructor (data: Bytes)
      ensures Valid() && Remaining() == data
    {
      this.data := data;
      pos := 0;
    }

    /** `is_readable(fp, n)`: at least n bytes remain. */
    predicate IsReadable(n: nat)
      reads this
      requires Valid()
    {
      |data| - pos >= n
    }

    method Advance(n: nat)
      requires Valid() && n <= |data| - pos
      modifies this
      ensures Valid() && Remaining() == old(Remaining())[n..]
    {
      pos := pos + n;
    }

    /** `read_fmt` of one n-byte unsigned field. */
    method ReadUInt(n: nat) returns (r: Result<nat, Error>)
      requires Valid()
      modifies this
      ensures Valid() && Agrees(r, DecodeUInt(old(Remaining()), n), Remaining())
    {
      if |data| - pos < n {
        return Err(ShortRead);
      }
      var v := DecUInt(data[pos..pos + n]);
      assert data[pos..pos + n] == Remaining()[..n];
      Advance(n);
      r := Ok(v);
    }

    method ReadU8() returns (r: Result<Byte, Error>)
      requires Valid()
      modifies this
      ensures Valid() && Agrees(r, DecodeU8(old(Remaining())), Remaining())
    {
      Pow256Widths();
      var v :- ReadUInt(1);
      r := Ok(v);
    }

    method ReadU16() returns (r: Result<U16, Error>)
      requires Valid()
      modifies this
      ensures Valid() && Agrees(r, DecodeU16(old(Remaining())), Remaining())
    {
      Pow256Widths();
      var v :- ReadUInt(2);
      r := Ok(v);
    }

    method ReadU32() returns (r: Result<U32, Error>)
      requires Valid()
      modifies this
      ensures Valid() && Agrees(r, DecodeU32(old(Remaining())), Remaining())
    {
      Pow256Widths();
      var v :- ReadUInt(4);
      r := Ok(v);
    }

    /** `read_fmt` of one signed 32-bit field. */
    method ReadI32() returns (r: Result<I32, Error>)
      requires Valid()
      modifies this
      ensures Valid() && Agrees(r, DecodeI32(old(Remaining())), Remaining())
    {
      if |data| - pos < 4 {
        return Err(ShortRead);
      }
      var v := DecI32(data[pos..pos + 4]);
      assert data[pos..pos + 4] == Remaining()[..4];
      Advance(4);
      r := Ok(v);
    }

    /** `fp.read()`: everything that is left. */
    method ReadRest() returns (r: Bytes)
      requires Valid()
      modifies this
      ensures Valid() && r == old(Remaining()) && Remaining() == []
    {
      r := data[pos..];
      pos := |data|;
    }

    /** `read_length_block(fp, fmt, padding)`. */
    method ReadLengthBlock(n: nat, padding: nat) returns (r: Result<Bytes, Error>)
      requires Valid() && padding > 0
      modifies this
      ensures Valid() && Agrees(r, DecodeLengthBlock(old(Remaining()), n, padding), Remaining())
    {
      var length :- ReadUInt(n);
      if |data| - pos < length {
        return Err(ShortRead);
      }
      var content := data[pos..pos + length];
      assert content == Remaining()[..length];
      Advance(length);
      var pad := PadLen(length, padding);
      if pad > |data| - pos {
        pad := |data| - pos;
      }
      Advance(pad);
      r := Ok(content);
    }

    /** `read_pascal_string(fp, 'ascii', padding=1)`. */
    method ReadPascalString() returns (r: Result<string, Error>)
      requires Valid()
      modifies this
      ensures Valid() && Agrees(r, DecodePascal(old(Remaining())), Remaining())
    {
      var length :- ReadUInt(1);
      if |data| - pos < length {
        return Err(ShortRead);
      }
      var bytes := data[pos..pos + length];
      assert bytes == Remaining()[..length];
      Advance(length);
      r := Ok(AsciiDecode(bytes));
    }
  }

  /** A writable stream: the bytes written so far. */
  class Writer {
    var out: Bytes

    /** An empty `io.BytesIO()`. */
    constructor ()
      ensures out == []
    {
      out := [];
    }

    /** `write_fmt` of one n-byte unsigned field; the count of bytes written is returned. */
    method WriteUInt(v: nat, n: nat) returns (written: nat)
      modifies this
      ensures out == old(out) + EncUInt(v, n) && written == n
    {
      out := out + EncUInt(v, n);
      written := n;
    }

    method WriteI32(v: I32) returns (written: nat)
      modifies this
      ensures out == old(out) + EncI32(v) && written == 4
    {
      out := out + EncI32(v);
      written := 4;
    }

    /** `write_bytes`. */
    method WriteBytes(b: Bytes) returns (written: nat)
      modifies this
      ensures out == old(out) + b && written == |b|
    {
      out := out + b;
      written := |b|;
    }

    /** `write_pascal_string(fp, u, 'ascii', padding=1)`. */
    method WritePascalString(u: string) returns (written: nat)
      modifies this
      ensures out == old(out) + EncodePascal(u) && written == |EncodePascal(u)|
    {
      var a := AsciiEncode(u);
      var l := WriteUInt(|a|, 1);
      var b := WriteBytes(a);
      written := l + b;
    }

    /** The first half of `write_length_block`: room for the length field, at the position returned. */
    method ReserveLength(n: nat) returns (at: nat)
      modifies this
      ensures out == old(out) + Zeros(n) && at == |old(out)|
    {
      at := |out|;
      out := out + Zeros(n);
    }

    /**
     * The second half of `write_length_block`: the content written since the
     * reservation at `at` has `length` bytes; its length goes into the reserved
     * field, and zero padding follows. The count covers field, content and padding.
     */
    method FinishLength(at: nat, n: nat, length: nat, padding: nat) returns (written: nat)
      requires padding > 0 && at + n + length == |out|
      modifies this
      ensures out == old(out)[..at] + EncodeLengthBlock(old(out)[at + n..], n, padding)
      ensures written == |EncodeLengthBlock(old(out)[at + n..], n, padding)|
    {
      ghost var content := out[at + n..];
      out := out[..at] + EncUInt(length, n) + out[at + n..];
      var pad := PadLen(length, padding);
      out := out + Zeros(pad);
      written := length + pad + n;
    }
  }

  /** Appending two pieces one after the other appends their concatenation. */
  lemma Appended(o: Bytes, a: Bytes, b: Bytes)
    ensures (o + a) + b == o + (a + b)
  {
  }

  /** Reserving the field, writing the content and finishing the block appends exactly the block. */
  lemma LengthBlockAppends(before: Bytes, content: Bytes, n: nat, padding: nat)
    requires padding > 0
    ensures var buffer := before + Zeros(n) + content;
            buffer[..|before|] + EncodeLengthBlock(buffer[|before| + n..], n, padding)
            == before + EncodeLengthBlock(content, n, padding)
  {
    var buffer := before + Zeros(n) + content;
    assert buffer[..|before|] == before;
    assert buffer[|before| + n..] == content;
  }
}
