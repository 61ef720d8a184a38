/** Fixed-offset little-endian reading and writing of byte buffers, the
    `struct.unpack('<I')`, `struct.unpack('<i')` and `struct.pack_into` calls
    the V4L2 backend makes on its ioctl buffers. */
module Bytes {

  type Byte = b: int | 0 <= b < 256

  const TwoTo32: int := 0x1_0000_0000
  const TwoTo31: int := 0x8000_0000

  /** A value `struct.pack('<I')` accepts. */
  predicate IsU32(x: int) {
    0 <= x < TwoTo32
  }

  /** A value `struct.pack('<i')` accepts. */
  predicate IsI32(x: int) {
    -TwoTo31 <= x < TwoTo31
  }

  /** Python's `(v >> (8 * i)) & 0xFF` for any integer v. A right shift by 8*i
      is i successive floor divisions by 256; Dafny's division by a positive
      number rounds down like Python's shift, and its remainder is never
      negative like Python's mask. */
  function ByteOf(v: int, i: nat): (b: Byte)
    decreases i
  {
    if i == 0 then v % 256 else ByteOf(v / 256, i - 1)
  }

  /** The unsigned 32-bit little-endian word stored at `off`. */
  function U32At(buf: seq<Byte>, off: nat): (r: int)
    requires off + 4 <= |buf|
    ensures IsU32(r)
  {
    var b0: int, b1: int, b2: int, b3: int := buf[off], buf[off + 1], buf[off + 2], buf[off + 3];
    b0 + 0x100 * b1 + 0x1_0000 * b2 + 0x100_0000 * b3
  }

  /** Reinterpretation of an unsigned word as two's-complement. */
  function ToSigned32(u: int): (r: int)
    requires IsU32(u)
    ensures IsI32(r)
    ensures (r - u) % TwoTo32 == 0
    ensures r >= 0 <==> u < TwoTo31
  {
    if u >= TwoTo31 then u - TwoTo32 else u
  }

  /** Reinterpretation of a signed word as unsigned. */
  function ToUnsigned32(s: int): (r: int)
    requires IsI32(s)
    ensures IsU32(r)
    ensures (r - s) % TwoTo32 == 0
  {
    if s < 0 then s + TwoTo32 else s
  }

  /** The signed 32-bit little-endian word stored at `off`. */
  function I32At(buf: seq<Byte>, off: nat): (r: int)
    requires off + 4 <= |buf|
    ensures IsI32(r)
  {
    ToSigned32(U32At(buf, off))
  }

  /** The four little-endian bytes of an unsigned word. */
  function EncodeU32(x: int): (r: seq<Byte>)
    requires IsU32(x)
    ensures |r| == 4
  {
    [ByteOf(x, 0), ByteOf(x, 1), ByteOf(x, 2), ByteOf(x, 3)]
  }

  /** The four little-endian bytes of a signed word. */
  function EncodeI32(x: int): (r: seq<Byte>)
    requires IsI32(x)
    ensures |r| == 4
  {
    EncodeU32(ToUnsigned32(x))
  }

  /** Division by 256 splits a number into a low byte and the rest, uniquely. */
  lemma SplitLowByte(x: int, lo: int, hi: int)
    requires 0 <= lo < 256
    requires x == lo + 256 * hi
    ensures x % 256 == lo && x / 256 == hi
  {
  }

  /** Decoding the encoding of a word gives the word back. */
  lemma {:induction false} DecodeEncodeU32(x: int)
    requires IsU32(x)
    ensures U32At(EncodeU32(x), 0) == x
  {
    var q1 := x / 256;
    var q2 := q1 / 256;
    var q3 := q2 / 256;
    assert 0 <= q3 < 256;
    ByteOfSteps(x);
  }

  /** The bytes of a word are its successive remainders modulo 256. */
  lemma ByteOfSteps(x: int)
    ensures ByteOf(x, 0) == x % 256
    ensures ByteOf(x, 1) == x / 256 % 256
    ensures ByteOf(x, 2) == x / 256 / 256 % 256
    ensures ByteOf(x, 3) == x / 256 / 256 / 256 % 256
  {
    assert ByteOf(x, 3) == ByteOf(x / 256, 2) == ByteOf(x / 256 / 256, 1);
  }

  /** Encoding the word read at `off` reproduces the four bytes there. */
  lemma {:induction false} EncodeDecodeU32(buf: seq<Byte>, off: nat)
    requires off + 4 <= |buf|
    ensures EncodeU32(U32At(buf, off)) == buf[off..off + 4]
  {
    var b0: int, b1: int, b2: int, b3: int := buf[off], buf[off + 1], buf[off + 2], buf[off + 3];
    var x := U32At(buf, off);
    var h1 := b1 + 256 * b2 + 0x1_0000 * b3;
    var h2 := b2 + 256 * b3;
    SplitLowByte(x, b0, h1);
    SplitLowByte(h1, b1, h2);
    SplitLowByte(h2, b2, b3);
    ByteOfSteps(x);
    var e := EncodeU32(x);
    assert e[0] == b0 && e[1] == b1 && e[2] == b2 && e[3] == b3;
  }

  /** The signed round trip: decoding the signed encoding of a value gives it back. */
  lemma DecodeEncodeI32(x: int)
    requires IsI32(x)
    ensures I32At(EncodeI32(x), 0) == x
  {
    DecodeEncodeU32(ToUnsigned32(x));
  }

  /** A word is read from its four bytes alone. */
  lemma ReadU32(buf: seq<Byte>, off: nat, x: int)
    requires IsU32(x)
    requires off + 4 <= |buf| && buf[off..off + 4] == EncodeU32(x)
    ensures U32At(buf, off) == x
  {
    DecodeEncodeU32(x);
    var e := EncodeU32(x);
    assert buf[off] == e[0] && buf[off + 1] == e[1] && buf[off + 2] == e[2] && buf[off + 3] == e[3];
  }

  /** The signed counterpart of ReadU32. */
  lemma ReadI32(buf: seq<Byte>, off: nat, x: int)
    requires IsI32(x)
    requires off + 4 <= |buf| && buf[off..off + 4] == EncodeI32(x)
    ensures I32At(buf, off) == x
  {
    ReadU32(buf, off, ToUnsigned32(x));
  }

  /** A buffer of n zero bytes, the fresh `bytearray(n)`. */
  function Zeros(n: nat): (r: seq<Byte>)
    ensures |r| == n
    ensures forall i :: 0 <= i < n ==> r[i] == 0
  {
    seq(n, _ => 0)
  }

  /** `buf` with the bytes `part` written at `off`; nothing outside changes. */
  function PutBytes(buf: seq<Byte>, off: nat, part: seq<Byte>): (r: seq<Byte>)
    requires off + |part| <= |buf|
    ensures |r| == |buf|
    ensures r[off..off + |part|] == part
    ensures forall i :: 0 <= i < |buf| && !(off <= i < off + |part|) ==> r[i] == buf[i]
  {
    buf[..off] + part + buf[off + |part|..]
  }

  /** `struct.pack_into('<I', buf, off, x)`. */
  function PutU32(buf: seq<Byte>, off: nat, x: int): (r: seq<Byte>)
    requires off + 4 <= |buf|
    requires IsU32(x)
    ensures |r| == |buf|
    ensures U32At(r, off) == x
    ensures forall i :: 0 <= i < |buf| && !(off <= i < off + 4) ==> r[i] == buf[i]
  {
    var r := PutBytes(buf, off, EncodeU32(x));
    DecodeEncodeU32(x);
    assert r[off..off + 4] == EncodeU32(x);
    assert U32At(r, off) == U32At(EncodeU32(x), 0);
    r
  }

  /** `struct.pack_into('<i', buf, off, x)`. */
  function PutI32(buf: seq<Byte>, off: nat, x: int): (r: seq<Byte>)
    requires off + 4 <= |buf|
    requires IsI32(x)
    ensures |r| == |buf|
    ensures I32At(r, off) == x
    ensures forall i :: 0 <= i < |buf| && !(off <= i < off + 4) ==> r[i] == buf[i]
  {
    var r := PutU32(buf, off, ToUnsigned32(x));
    assert I32At(r, off) == ToSigned32(ToUnsigned32(x));
    r
  }

  /** A byte string with its trailing NUL bytes removed, `rstrip('\x00')`. */
  function StripTrailingZeros(bs: seq<Byte>): (r: seq<Byte>)
    ensures |r| <= |bs| && r == bs[..|r|]
    ensures r == [] || r[|r| - 1] != 0
    ensures forall i :: |r| <= i < |bs| ==> bs[i] == 0
  {
    if bs == [] then []
    else if bs[|bs| - 1] == 0 then StripTrailingZeros(bs[..|bs| - 1])
    else bs
  }

  /** A NUL-terminated field of `width` bytes holding `s`: what a driver
      writes into a fixed-size name field. */
  function PadZeros(s: seq<Byte>, width: nat): (r: seq<Byte>)
    requires |s| <= width
    ensures |r| == width
    ensures r[..|s|] == s
  {
    s + Zeros(width - |s|)
  }

  /** A name with no trailing NUL survives being written into a field and read back. */
  lemma {:induction false} StripPadded(s: seq<Byte>, width: nat)
    requires |s| <= width
    requires s == [] || s[|s| - 1] != 0
    ensures StripTrailingZeros(PadZeros(s, width)) == s
  {
    var p := PadZeros(s, width);
    var r := StripTrailingZeros(p);
    assert forall i :: |s| <= i < width ==> p[i] == 0;
    if |r| > |s| {
      assert p[|r| - 1] == 0;
    }
  }
}
