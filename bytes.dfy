/** Bytes and the little-endian 32-bit words (DWORDs) of the archive format. */
module Bytes {
  type byte = x: int | 0 <= x < 0x100
  type u32 = x: int | 0 <= x < 0x1_0000_0000

  /** Bit 31 of a successor pointer: the chain is flagged as truncated or corrupt. */
  const HighBit: u32 := 0x8000_0000

  /** The DWORD stored little-endian in the first four bytes of `b`. */
  function LE32(b: seq<byte>): u32
    requires |b| >= 4
  {
    b[0] as int + 0x100 * (b[1] as int) + 0x1_0000 * (b[2] as int) + 0x100_0000 * (b[3] as int)
  }

  /** The four bytes that store `v` little-endian. */
  function U32Bytes(v: u32): (b: seq<byte>)
    ensures |b| == 4
  {
    [v % 0x100, (v / 0x100) % 0x100, (v / 0x1_0000) % 0x100, v / 0x100_0000]
  }

  /** Storing a DWORD and reading it back gives the same value. */
  lemma LE32RoundTrip(v: u32)
    ensures LE32(U32Bytes(v)) == v
  {
    var a, b, c := v / 0x100, v / 0x1_0000, v / 0x100_0000;
    assert v == v % 0x100 + 0x100 * a;
    assert a == a % 0x100 + 0x100 * b;
    assert b == b % 0x100 + 0x100 * c;
    assert b % 0x100 == (v / 0x1_0000) % 0x100;
  }

  /** Splitting off the low byte of a number. */
  lemma LowByte(v: int, low: int, high: int)
    requires 0 <= low < 0x100 && v == low + 0x100 * high
    ensures v % 0x100 == low && v / 0x100 == high
  {
  }

  /** Reading four bytes as a DWORD and storing it again gives the same bytes. */
  lemma U32BytesRoundTrip(b: seq<byte>)
    requires |b| == 4
    ensures U32Bytes(LE32(b)) == b
  {
    var v := LE32(b);
    var x: int := b[2] as int + 0x100 * (b[3] as int);
    var y: int := b[1] as int + 0x100 * x;
    LowByte(v, b[0], y);
    LowByte(y, b[1], x);
    LowByte(x, b[2], b[3]);
    assert v / 0x1_0000 == y / 0x100 && v / 0x100_0000 == x / 0x100;
  }
}
