/**
 * Fixed-width unsigned integers and their little-endian byte encodings, as the
 * packed C structs of the usbredir protocol lay them out on a little-endian host.
 */
module Bytes {

  type u8 = x: int | 0 <= x < 0x100
  type u16 = x: int | 0 <= x < 0x1_0000
  type u32 = x: int | 0 <= x < 0x1_0000_0000
  type u64 = x: int | 0 <= x < 0x1_0000_0000_0000_0000

  /** A byte string: the contents of a C buffer. */
  type Bytes = seq<u8>

  function EncodeU16(x: u16): (r: Bytes)
    ensures |r| == 2
  {
    [x % 0x100, x / 0x100]
  }

  function DecodeU16(b: Bytes): (x: u16)
    requires |b| >= 2
  {
    b[0] as int + 0x100 * b[1] as int
  }

  function EncodeU32(x: u32): (r: Bytes)
    ensures |r| == 4
  {
    EncodeU16(x % 0x1_0000) + EncodeU16(x / 0x1_0000)
  }

  function DecodeU32(b: Bytes): (x: u32)
    requires |b| >= 4
  {
    DecodeU16(b) + 0x1_0000 * DecodeU16(b[2..])
  }

  function EncodeU64(x: u64): (r: Bytes)
    ensures |r| == 8
  {
    EncodeU32(x % 0x1_0000_0000) + EncodeU32(x / 0x1_0000_0000)
  }

  function DecodeU64(b: Bytes): (x: u64)
    requires |b| >= 8
  {
    DecodeU32(b) + 0x1_0000_0000 * DecodeU32(b[4..])
  }

  lemma {:induction false} DecodeEncodeU16(x: u16, rest: Bytes)
    ensures DecodeU16(EncodeU16(x) + rest) == x
  {
  }

  lemma {:induction false} DecodeEncodeU32(x: u32, rest: Bytes)
    ensures DecodeU32(EncodeU32(x) + rest) == x
  {
    var lo, hi := x % 0x1_0000, x / 0x1_0000;
    var b := EncodeU32(x) + rest;
    assert b == EncodeU16(lo) + (EncodeU16(hi) + rest);
    DecodeEncodeU16(lo, EncodeU16(hi) + rest);
    assert b[2..] == EncodeU16(hi) + rest;
    DecodeEncodeU16(hi, rest);
  }

  lemma {:induction false} DecodeEncodeU64(x: u64, rest: Bytes)
    ensures DecodeU64(EncodeU64(x) + rest) == x
  {
    var lo, hi := x % 0x1_0000_0000, x / 0x1_0000_0000;
    var b := EncodeU64(x) + rest;
    assert b == EncodeU32(lo) + (EncodeU32(hi) + rest);
    DecodeEncodeU32(lo, EncodeU32(hi) + rest);
    assert b[4..] == EncodeU32(hi) + rest;
    DecodeEncodeU32(hi, rest);
  }

  /** Decoding looks only at the bytes it needs. */
  lemma {:induction false} DecodeU32Prefix(b: Bytes, c: Bytes)
    requires |b| >= 4 && |c| >= 4 && b[..4] == c[..4]
    ensures DecodeU32(b) == DecodeU32(c)
  {
    assert b[0] == c[0] && b[1] == c[1] && b[2] == c[2] && b[3] == c[3];
    assert b[2..][0] == c[2..][0] && b[2..][1] == c[2..][1];
  }

  /** Four bytes read as a number and written back are the same four bytes. */
  lemma {:induction false} EncodeDecodeU32(b: Bytes)
    requires |b| >= 4
    ensures EncodeU32(DecodeU32(b)) == b[..4]
  {
    var lo, hi := DecodeU16(b), DecodeU16(b[2..]);
    assert DecodeU32(b) % 0x1_0000 == lo && DecodeU32(b) / 0x1_0000 == hi;
    assert EncodeU16(lo) == b[..2];
    assert EncodeU16(hi) == b[2..4];
  }

  /** Eight bytes read as a number and written back are the same eight bytes. */
  lemma {:induction false} EncodeDecodeU64(b: Bytes)
    requires |b| >= 8
    ensures EncodeU64(DecodeU64(b)) == b[..8]
  {
    var lo, hi := DecodeU32(b), DecodeU32(b[4..]);
    assert DecodeU64(b) % 0x1_0000_0000 == lo && DecodeU64(b) / 0x1_0000_0000 == hi;
    EncodeDecodeU32(b);
    EncodeDecodeU32(b[4..]);
    assert b[4..][..4] == b[4..8];
  }
}
