/**
 * The in-memory layout of the fields of a `#[repr(packed)]` instruction struct.
 * The source reinterprets such a struct as raw bytes (`mem::transmute`), so a
 * field occupies as many bytes as its width, with no padding, in the target's
 * native byte order; the model fixes that order to little-endian.
 */
module Packed {

  newtype u8 = x: int | 0 <= x < 0x100
  newtype u16 = x: int | 0 <= x < 0x1_0000
  newtype u32 = x: int | 0 <= x < 0x1_0000_0000
  newtype i16 = x: int | -0x8000 <= x < 0x8000

  // ---- Field encodings: a u8 is a single byte, a u16 or i16 two, a u32 four.

  function EncodeU16(x: u16): (bs: seq<u8>)
    ensures |bs| == 2
  {
    [(x % 0x100) as u8, (x / 0x100) as u8]
  }

  /** The `u16` stored in `bs[at]` and `bs[at + 1]`. */
  function DecodeU16(bs: seq<u8>, at: nat): (x: u16)
    requires at + 2 <= |bs|
  {
    (bs[at] as int + 0x100 * bs[at + 1] as int) as u16
  }

  /** Two's complement: a negative value is stored as `x + 2^16`. */
  function EncodeI16(x: i16): (bs: seq<u8>)
    ensures |bs| == 2
  {
    var u := if x < 0 then x as int + 0x1_0000 else x as int;
    [(u % 0x100) as u8, (u / 0x100) as u8]
  }

  function DecodeI16(bs: seq<u8>, at: nat): (x: i16)
    requires at + 2 <= |bs|
  {
    var u := bs[at] as int + 0x100 * bs[at + 1] as int;
    if u >= 0x8000 then (u - 0x1_0000) as i16 else u as i16
  }

  function EncodeU32(x: u32): (bs: seq<u8>)
    ensures |bs| == 4
  {
    var n := x as int;
    [(n % 0x100) as u8, (n / 0x100 % 0x100) as u8, (n / 0x1_0000 % 0x100) as u8, (n / 0x100_0000) as u8]
  }

  /** The `u32` stored in `bs[at .. at + 4]`, least significant byte first. */
  function DecodeU32(bs: seq<u8>, at: nat): (x: u32)
    requires at + 4 <= |bs|
  {
    (bs[at] as int + 0x100 * bs[at + 1] as int + 0x1_0000 * bs[at + 2] as int
      + 0x100_0000 * bs[at + 3] as int) as u32
  }

  lemma DecodeEncodeU16(x: u16)
    ensures DecodeU16(EncodeU16(x), 0) == x
  {
  }

  lemma EncodeDecodeU16(bs: seq<u8>, at: nat)
    requires at + 2 <= |bs|
    ensures EncodeU16(DecodeU16(bs, at)) == bs[at .. at + 2]
  {
  }

  lemma DecodeEncodeI16(x: i16)
    ensures DecodeI16(EncodeI16(x), 0) == x
  {
  }

  lemma EncodeDecodeI16(bs: seq<u8>, at: nat)
    requires at + 2 <= |bs|
    ensures EncodeI16(DecodeI16(bs, at)) == bs[at .. at + 2]
  {
  }

  /** Splitting off the low byte of `lo + 256 * hi`. */
  lemma DivMod256(lo: int, hi: int)
    requires 0 <= lo < 0x100
    ensures (lo + 0x100 * hi) % 0x100 == lo && (lo + 0x100 * hi) / 0x100 == hi
  {
  }

  lemma DecodeEncodeU32(x: u32)
    ensures DecodeU32(EncodeU32(x), 0) == x
  {
    var n := x as int;
    var q1 := n / 0x100;
    var q2 := q1 / 0x100;
    DivMod256(n % 0x100, q1);
    DivMod256(q1 % 0x100, q2);
    assert n / 0x1_0000 == q2;
    assert n / 0x100_0000 == q2 / 0x100;
  }

  lemma EncodeDecodeU32(bs: seq<u8>, at: nat)
    requires at + 4 <= |bs|
    ensures EncodeU32(DecodeU32(bs, at)) == bs[at .. at + 4]
  {
    var b0, b1, b2, b3 := bs[at] as int, bs[at + 1] as int, bs[at + 2] as int, bs[at + 3] as int;
    var m := b0 + 0x100 * (b1 + 0x100 * (b2 + 0x100 * b3));
    DivMod256(b0, b1 + 0x100 * (b2 + 0x100 * b3));
    DivMod256(b1, b2 + 0x100 * b3);
    DivMod256(b2, b3);
    assert m / 0x1_0000 == (m / 0x100) / 0x100;
    assert m / 0x100_0000 == ((m / 0x100) / 0x100) / 0x100;
  }
}
