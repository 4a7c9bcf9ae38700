/** Little-endian 32-bit decoding and Go's unsigned 32-bit conversions, the
    arithmetic that `encoding/binary` and the `uint32` type supply to the
    container reader. */
module LittleEndian {

  /** 2^32: the modulus of Go's `uint32` arithmetic. */
  const Two32: int := 0x1_0000_0000

  /** `math.MaxUint32`, also the "read until end of file" track size. */
  const MaxUint32: int := 0xFFFF_FFFF

  /** An octet of the container file. */
  newtype byte = x: int | 0 <= x < 0x100

  predicate IsUint32(x: int) {
    0 <= x < Two32
  }

  /** Go's conversion `uint32(x)` of a wider integer: keeps the low 32 bits
      (two's complement), i.e. the unique value in range congruent to x. */
  function Uint32(x: int): (r: int)
    ensures IsUint32(r)
    ensures IsUint32(x) ==> r == x
    ensures -Two32 <= x < 0 ==> r == x + Two32
  {
    x % Two32
  }

  /** The little-endian `uint32` stored in b[at..at+4]. */
  function LeU32(b: seq<byte>, at: nat): (r: int)
    requires at + 4 <= |b|
    ensures IsUint32(r)
  {
    b[at] as int + 0x100 * b[at + 1] as int + 0x1_0000 * b[at + 2] as int
      + 0x100_0000 * b[at + 3] as int
  }

  /** The four little-endian bytes of a `uint32` (what `binary.Write` emits). */
  function LeBytes(x: int): (b: seq<byte>)
    requires IsUint32(x)
    ensures |b| == 4
  {
    var q1 := x / 0x100;
    var q2 := q1 / 0x100;
    var q3 := q2 / 0x100;
    [(x % 0x100) as byte, (q1 % 0x100) as byte, (q2 % 0x100) as byte, q3 as byte]
  }

  /** Division by 256 is determined by any split into quotient and digit. */
  lemma SplitByte(x: int, q: int, r: int)
    requires 0 <= r < 0x100 && x == 0x100 * q + r
    ensures x / 0x100 == q && x % 0x100 == r
  {
  }

  /** Decoding what was encoded gives the value back. */
  lemma LeRoundTrip(x: int)
    requires IsUint32(x)
    ensures LeU32(LeBytes(x), 0) == x
  {
  }

  /** Encoding a decoded value gives the four bytes back, so `LeU32` is
      injective on 4-byte windows. */
  lemma LeBytesOfDecoded(b: seq<byte>, at: nat)
    requires at + 4 <= |b|
    ensures LeBytes(LeU32(b, at)) == b[at..at + 4]
  {
    var x := LeU32(b, at);
    var b0, b1, b2, b3 := b[at] as int, b[at + 1] as int, b[at + 2] as int, b[at + 3] as int;
    SplitByte(x, b1 + 0x100 * b2 + 0x1_0000 * b3, b0);
    SplitByte(b1 + 0x100 * b2 + 0x1_0000 * b3, b2 + 0x100 * b3, b1);
    SplitByte(b2 + 0x100 * b3, b3, b2);
  }
}
