/** Little-endian fields as the codecs write and read them, byte by byte. */
module LittleEndian {
  import opened CInts

  /** `data[n] = x; data[n + 1] = x >> 8` for an `int`, of which only the low 16 bits survive. */
  function Le16(x: int): (s: seq<byte>)
    ensures |s| == 2
  {
    [ToByte(x), ToByte(x / 0x100)]
  }

  function FromLe16(s: seq<byte>): u16
    requires |s| == 2
  {
    var b0: int, b1: int := s[0], s[1];
    b0 + b1 * 0x100
  }

  function Le32(x: u32): (s: seq<byte>)
    ensures |s| == 4
  {
    [ToByte(x), ToByte(x / 0x100), ToByte(x / 0x1_0000), ToByte(x / 0x100_0000)]
  }

  function FromLe32(s: seq<byte>): u32
    requires |s| == 4
  {
    var b0: int, b1: int, b2: int, b3: int := s[0], s[1], s[2], s[3];
    b0 + b1 * 0x100 + b2 * 0x1_0000 + b3 * 0x100_0000
  }

  /** The first byte counts ones, the next ones 256 each. */
  predicate Spells16(b0: byte, b1: byte, x: int) {
    var lo: int, hi: int := b0, b1;
    lo + 256 * hi == x % 65536
  }

  predicate Spells32(b0: byte, b1: byte, b2: byte, b3: byte, x: int) {
    var d0: int, d1: int, d2: int, d3: int := b0, b1, b2, b3;
    d0 + 256 * d1 + 65536 * d2 + 16777216 * d3 == x % 4294967296
  }

  lemma Le16Spells(x: int)
    ensures Spells16(Le16(x)[0], Le16(x)[1], x)
  {
    Le16RoundTrip(x);
  }

  lemma Le32Spells(x: u32)
    ensures Spells32(Le32(x)[0], Le32(x)[1], Le32(x)[2], Le32(x)[3], x)
  {
    Le32RoundTrip(x);
  }

  /** Sixteen bits carry a value back unchanged exactly when it fits. */
  lemma Le16RoundTrip(x: int)
    ensures FromLe16(Le16(x)) == ToU16(x)
    ensures FromLe16(Le16(x)) == x <==> 0 <= x < 0x1_0000
  {
    var q, r := x / 0x1_0000, x % 0x1_0000;
    assert x / 0x100 == 0x100 * q + r / 0x100;
    assert ToByte(x) == r % 0x100;
    assert ToByte(x / 0x100) == r / 0x100;
  }

  lemma Le32RoundTrip(x: u32)
    ensures FromLe32(Le32(x)) == x
  {
    assert x / 0x1_0000 == x / 0x100 / 0x100;
    assert x / 0x100_0000 == x / 0x1_0000 / 0x100;
  }

  lemma Le32Inverse(s: seq<byte>)
    requires |s| == 4
    ensures Le32(FromLe32(s)) == s
  {
    var x := FromLe32(s);
    var b1: int, b2: int, b3: int := s[1], s[2], s[3];
    assert x / 0x100 == b1 + b2 * 0x100 + b3 * 0x1_0000;
    assert x / 0x1_0000 == b2 + b3 * 0x100;
  }
}
