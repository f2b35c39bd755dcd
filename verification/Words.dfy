/** Fixed-width machine integers, as ranges of the mathematical ones. */
module Words {
  const TWO_32: int := 0x1_0000_0000
  const TWO_48: int := 0x1_0000_0000_0000
  const TWO_63: int := 0x8000_0000_0000_0000
  const TWO_64: int := 0x1_0000_0000_0000_0000

  type byte = b: int | 0 <= b < 256
  type uint32 = n: int | 0 <= n < TWO_32
  type uint64 = n: int | 0 <= n < TWO_64
  type int64 = n: int | -TWO_63 <= n < TWO_63

  // The result of unsigned arithmetic, and of signed arithmetic, that may overflow 64 bits.
  function Wrap64(n: int): (r: uint64) { n % TWO_64 }

  function Signed64(n: int): (r: int64) { (n + TWO_63) % TWO_64 - TWO_63 }

  function LittleEndian32(n: uint32): (b: seq<byte>)
    ensures |b| == 4
  {
    [n % 256, n / 256 % 256, n / 65536 % 256, n / 16777216]
  }

  function Unsigned32At(b: seq<byte>, i: nat): (n: uint32)
    requires i + 4 <= |b|
  {
    b[i] as int + 256 * b[i + 1] as int + 65536 * b[i + 2] as int + 16777216 * b[i + 3] as int
  }

  function Signed32At(b: seq<byte>, i: nat): (n: int)
    requires i + 4 <= |b|
  {
    var n := Unsigned32At(b, i);
    if n < 0x8000_0000 then n else n - TWO_32
  }

  function Signed8(b: byte): (n: int) { if b < 128 then b else b - 256 }
}
