/**
 * Byte-level building blocks of the Bitcoin peer-to-peer wire format:
 * little-endian 32-bit integers, 32-byte hashes, the variable-length
 * integer ("CompactSize") and null-padded fixed-width text fields.
 */
module Codec {

  datatype Option<+T> = None | Some(value: T)

  datatype Result<+T, +E> = Success(value: T) | Failure(error: E)

  /** An octet on the wire. */
  type byte = x: int | 0 <= x < 0x100

  /** A C++ `uint32_t`. */
  type uint32 = x: int | 0 <= x < 0x1_0000_0000

  /** A character of a C++ `std::string`: eight bits wide. */
  type Char8 = c: char | c as int < 256 witness 'a'

  /** A C++ `std::string`, such as a message command. */
  type Text = seq<Char8>

  /** A 32-byte hash digest (`hash_digest`). */
  type Hash = s: seq<byte> | |s| == 32 witness seq(32, _ => 0)

  const NullHash: Hash := seq(32, _ => 0)

  function Zeros(n: nat): (r: seq<byte>)
    ensures |r| == n
  {
    seq(n, _ => 0)
  }

  /** The value of `static_cast<uint32_t>(n)`: truncation modulo 2^32. */
  function Uint32(n: nat): (r: uint32)
    ensures n < 0x1_0000_0000 ==> r == n
  {
    n % 0x1_0000_0000
  }

  // ---------------------------------------------------------------- uint32

  /** `write_4_bytes_little_endian`: least significant byte first. */
  function Le32(x: uint32): (r: seq<byte>)
    ensures |r| == 4
  {
    [x % 0x100, x / 0x100 % 0x100, x / 0x100 / 0x100 % 0x100, x / 0x100 / 0x100 / 0x100]
  }

  /** `read_4_bytes_little_endian` applied to four bytes. */
  function FromLe32(b: seq<byte>): uint32
    requires |b| == 4
  {
    b[0] as int + 0x100 * (b[1] as int + 0x100 * (b[2] as int + 0x100 * b[3] as int))
  }

  /** One step of base-256 place value: the low digit and the rest. */
  lemma PlaceValue(low: byte, high: int)
    ensures (low + 0x100 * high) % 0x100 == low
    ensures (low + 0x100 * high) / 0x100 == high
  {
  }

  lemma Le32RoundTrip(x: uint32)
    ensures FromLe32(Le32(x)) == x
  {
  }

  lemma FromLe32RoundTrip(b: seq<byte>)
    requires |b| == 4
    ensures Le32(FromLe32(b)) == b
  {
    var hi2 := b[2] as int + 0x100 * b[3] as int;
    var hi1 := b[1] as int + 0x100 * hi2;
    PlaceValue(b[0], hi1);
    PlaceValue(b[1], hi2);
    PlaceValue(b[2], b[3]);
  }

  // ------------------------------------------------- variable-length integer

  const MaxUint64: nat := 0x1_0000_0000_0000_0000

  /** 256 to the power `n`: one past the largest value `n` bytes hold. */
  function Pow256(n: nat): (r: nat)
    ensures r > 0
  {
    if n == 0 then 1 else 0x100 * Pow256(n - 1)
  }

  /** Little-endian encoding of the low `n` bytes of `v`. */
  function LeBytes(v: nat, n: nat): (r: seq<byte>)
    ensures |r| == n
  {
    if n == 0 then [] else [v % 0x100] + LeBytes(v / 0x100, n - 1)
  }

  /** The number that little-endian bytes stand for. */
  function LeValue(b: seq<byte>): nat
  {
    if b == [] then 0 else b[0] + 0x100 * LeValue(b[1..])
  }

  /** A value that fits `n` bytes is what its `n` little-endian bytes stand for. */
  lemma {:induction false} LeBytesValue(v: nat, n: nat)
    requires v < Pow256(n)
    ensures LeValue(LeBytes(v, n)) == v
  {
    if n > 0 {
      var b := LeBytes(v, n);
      assert b[1..] == LeBytes(v / 0x100, n - 1);
      assert v / 0x100 < Pow256(n - 1);
      LeBytesValue(v / 0x100, n - 1);
    }
  }

  /** `variable_size`: the width of the CompactSize encoding of `v`. */
  function VariableSize(v: nat): nat
  {
    if v < 0xFD then 1
    else if v <= 0xFFFF then 3
    else if v <= 0xFFFF_FFFF then 5
    else 9
  }

  /** How many little-endian bytes follow the marker byte 0xFD, 0xFE or 0xFF. */
  function MarkerWidth(marker: byte): nat
    requires marker >= 0xFD
  {
    if marker == 0xFD then 2 else if marker == 0xFE then 4 else 8
  }

  /**
   * `write_variable`: a value below 0xFD is one byte; larger values are a
   * marker byte 0xFD, 0xFE or 0xFF followed by 2, 4 or 8 little-endian bytes.
   */
  function EncodeVariable(v: nat): (r: seq<byte>)
    requires v < MaxUint64
    ensures |r| == VariableSize(v)
    ensures v < 0xFD ==> r == [v]
    ensures v >= 0xFD ==> r[0] >= 0xFD && |r| == 1 + MarkerWidth(r[0]) && LeValue(r[1..]) == v
  {
    if v < 0xFD then [v]
    else if v <= 0xFFFF then
      LeBytesValue(v, 2);
      [0xFD] + LeBytes(v, 2)
    else if v <= 0xFFFF_FFFF then
      LeBytesValue(v, 4);
      [0xFE] + LeBytes(v, 4)
    else
      LeBytesValue(v, 8);
      [0xFF] + LeBytes(v, 8)
  }

  /** The variable-length encoding of zero is the single byte 0x00. */
  lemma VariableZero()
    ensures EncodeVariable(0) == [0x00] && VariableSize(0) == 1
  {
  }

  // ------------------------------------------------------ fixed-width text

  function CharByte(c: Char8): byte
  {
    c as int
  }

  function ByteChar(b: byte): Char8
  {
    b as char
  }

  lemma ByteCharZero(b: byte)
    ensures ByteChar(b) == '\0' <==> b == 0
  {
  }

  predicate NoNul(s: Text)
  {
    forall i | 0 <= i < |s| :: s[i] != '\0'
  }

  /** A text that survives a fixed-width field of `width` bytes unchanged. */
  predicate FitsWidth(s: Text, width: nat)
  {
    |s| <= width && NoNul(s)
  }

  /**
   * `write_string(s, width)`: the first `width` characters of `s`, then
   * zero bytes up to `width`.
   */
  function PadText(s: Text, width: nat): (r: seq<byte>)
    ensures |r| == width
    ensures forall i | 0 <= i < width :: r[i] == if i < |s| then CharByte(s[i]) else 0
    decreases width
  {
    if width == 0 then []
    else if s == [] then [0] + PadText([], width - 1)
    else [CharByte(s[0])] + PadText(s[1..], width - 1)
  }

  /**
   * `read_string` over a fixed-width field: the characters before the first
   * zero byte (all of them if there is none).
   */
  function UnpadText(b: seq<byte>): (s: Text)
    ensures |s| <= |b| && NoNul(s)
    ensures forall i | 0 <= i < |s| :: b[i] != 0 && s[i] == ByteChar(b[i])
    ensures |s| < |b| ==> b[|s|] == 0
  {
    if b == [] || b[0] == 0 then []
    else
      ByteCharZero(b[0]);
      [ByteChar(b[0])] + UnpadText(b[1..])
  }

  /** A field in which every byte after the first zero is zero too. */
  predicate ZeroPadded(b: seq<byte>)
  {
    forall i, j | 0 <= i < j < |b| :: b[i] == 0 ==> b[j] == 0
  }

  /** A zero-padded field is written back exactly as it was read. */
  lemma {:induction false} PaddedFieldRoundTrip(b: seq<byte>)
    requires ZeroPadded(b)
    ensures PadText(UnpadText(b), |b|) == b
  {
    if b == [] {
    } else if b[0] == 0 {
      var r := PadText([], |b|);
      forall i | 0 <= i < |b|
        ensures r[i] == b[i]
      {
        if i > 0 {
          assert b[0] == 0 ==> b[i] == 0;
        }
      }
    } else {
      var tail := b[1..];
      assert ZeroPadded(tail) by {
        forall i, j | 0 <= i < j < |tail| && tail[i] == 0
          ensures tail[j] == 0
        {
          assert b[i + 1] == 0 ==> b[j + 1] == 0;
        }
      }
      PaddedFieldRoundTrip(tail);
      assert UnpadText(b) == [ByteChar(b[0])] + UnpadText(tail);
      assert CharByte(ByteChar(b[0])) == b[0];
      assert b == [b[0]] + tail;
    }
  }

  /** A text that fits its field is read back exactly as it was written. */
  lemma {:induction false} TextRoundTrip(s: Text, width: nat)
    requires FitsWidth(s, width)
    ensures UnpadText(PadText(s, width)) == s
    decreases width
  {
    if width > 0 && s != [] {
      var b := PadText(s, width);
      assert b == [CharByte(s[0])] + PadText(s[1..], width - 1);
      assert b[0] != 0 by { assert s[0] != '\0'; }
      assert b[1..] == PadText(s[1..], width - 1);
      TextRoundTrip(s[1..], width - 1);
      assert ByteChar(b[0]) == s[0];
      assert s == [s[0]] + s[1..];
    }
  }
}
