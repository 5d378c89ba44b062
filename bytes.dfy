// Fixed-width integers of the firmware and its hosts, and the little-endian
// byte layouts that the packed wire structures use.

module Bytes {

  type byte = x: int | 0 <= x < 0x100
  type u16 = x: int | 0 <= x < 0x1_0000
  type u32 = x: int | 0 <= x < 0x1_0000_0000
  type i8 = x: int | -0x80 <= x < 0x80
  type i16 = x: int | -0x8000 <= x < 0x8000

  /** `n` zero bytes, as left by `memset(…, 0, n)` or `= {}`. */
  function Zeros(n: nat): (r: seq<byte>)
    ensures |r| == n
    ensures forall i :: 0 <= i < n ==> r[i] == 0
  {
    seq(n, _ => 0)
  }

  /** A `uint16_t` stored little-endian (ESP32, x86 and `cpu_to_le16`). */
  function LeU16(x: u16): (r: seq<byte>)
    ensures |r| == 2
  {
    [x % 0x100, x / 0x100]
  }

  function ReadLeU16(b: seq<byte>, off: nat): u16
    requires off + 2 <= |b|
  {
    var lo: int, hi: int := b[off], b[off + 1];
    lo + hi * 0x100
  }

  /** A `uint32_t` stored little-endian. */
  function LeU32(x: u32): (r: seq<byte>)
    ensures |r| == 4
  {
    LeU16(x % 0x1_0000) + LeU16(x / 0x1_0000)
  }

  function ReadLeU32(b: seq<byte>, off: nat): u32
    requires off + 4 <= |b|
  {
    var lo: int, hi: int := ReadLeU16(b, off), ReadLeU16(b, off + 2);
    lo + hi * 0x1_0000
  }

  /** Two's-complement reading of 16 bits (`int16_t` over the same storage). */
  function ToSigned16(x: u16): (r: i16)
    ensures r >= 0 <==> x < 0x8000
    ensures (r - x) % 0x1_0000 == 0
  {
    if x < 0x8000 then x else x - 0x1_0000
  }

  function FromSigned16(x: i16): (r: u16)
    ensures (r - x) % 0x1_0000 == 0
  {
    if x >= 0 then x else x + 0x1_0000
  }

  /** Conversion of any integer to `uint8_t` (reduction modulo 2^8). */
  function WrapU8(x: int): (r: byte)
    ensures (r - x) % 0x100 == 0
  {
    x % 0x100
  }

  /** Conversion of any integer to `int16_t` (two's complement wrap-around). */
  function WrapI16(x: int): (r: i16)
    ensures (r - x) % 0x1_0000 == 0
    ensures -0x8000 <= x < 0x8000 ==> r == x
  {
    var m := x % 0x1_0000;
    if m < 0x8000 then m else m - 0x1_0000
  }

  /** Conversion of any integer to `int8_t` (two's complement wrap-around). */
  function WrapI8(x: int): (r: i8)
    ensures (r - x) % 0x100 == 0
    ensures -0x80 <= x < 0x80 ==> r == x
  {
    var m := x % 0x100;
    if m < 0x80 then m else m - 0x100
  }

  /** `now - since` on `uint32_t`: the time elapsed on a wrapping millisecond clock. */
  function Elapsed(now: u32, since: u32): (e: u32)
    ensures since <= now ==> e == now - since
    ensures (since + e) % 0x1_0000_0000 == now
  {
    (now - since) % 0x1_0000_0000
  }

  lemma LeU16RoundTrip(x: u16, rest: seq<byte>, pre: seq<byte>)
    ensures ReadLeU16(pre + LeU16(x) + rest, |pre|) == x
  {
    var b := pre + LeU16(x) + rest;
    assert b[|pre|] == x % 0x100 && b[|pre| + 1] == x / 0x100;
  }

  lemma LeU32RoundTrip(x: u32, rest: seq<byte>, pre: seq<byte>)
    ensures ReadLeU32(pre + LeU32(x) + rest, |pre|) == x
  {
    var lo, hi := x % 0x1_0000, x / 0x1_0000;
    assert pre + LeU32(x) + rest == pre + LeU16(lo) + (LeU16(hi) + rest);
    assert pre + LeU32(x) + rest == (pre + LeU16(lo)) + LeU16(hi) + rest;
    LeU16RoundTrip(lo, LeU16(hi) + rest, pre);
    LeU16RoundTrip(hi, rest, pre + LeU16(lo));
  }

  lemma ReadLeU16Encode(b: seq<byte>, off: nat)
    requires off + 2 <= |b|
    ensures LeU16(ReadLeU16(b, off)) == b[off..off + 2]
  {
  }

  lemma ReadLeU32Encode(b: seq<byte>, off: nat)
    requires off + 4 <= |b|
    ensures LeU32(ReadLeU32(b, off)) == b[off..off + 4]
  {
    var lo: int, hi: int := ReadLeU16(b, off), ReadLeU16(b, off + 2);
    var x: u32 := lo + hi * 0x1_0000;
    assert x % 0x1_0000 == lo && x / 0x1_0000 == hi;
    ReadLeU16Encode(b, off);
    ReadLeU16Encode(b, off + 2);
    assert b[off..off + 4] == b[off..off + 2] + b[off + 2..off + 4];
  }

  lemma SignedRoundTrip(x: i16)
    ensures ToSigned16(FromSigned16(x)) == x
  {
  }

  /** `memcpy(dst + off, src, |src|)`: those bytes are replaced, every other byte is kept. */
  method CopyInto(dst: array<byte>, off: nat, src: seq<byte>)
    requires off + |src| <= dst.Length
    modifies dst
    ensures dst[..off] == old(dst[..off])
    ensures dst[off..off + |src|] == src
    ensures dst[off + |src|..] == old(dst[off + |src|..])
  {
    for i := 0 to |src|
      invariant dst[..off] == old(dst[..off])
      invariant dst[off..off + i] == src[..i]
      invariant dst[off + i..] == old(dst[off + i..])
    {
      dst[off + i] := src[i];
      assert dst[off..off + i + 1] == src[..i + 1];
    }
  }
}
