/**
 * Bytes and the 4-byte length header of the container (app.js:343, 351, 364).
 * The header is written through a Uint32Array, whose element conversion is
 * ToUint32 (reduction modulo 2^32), and read back through a Uint32Array view;
 * both use the host's byte order, modelled here as little-endian.
 */
module Bytes {

  /** An element of a Uint8Array. */
  type byte = x: int | 0 <= x < 256

  /** Number of values a Uint32Array element can hold. */
  const Uint32Range: nat := 0x1_0000_0000

  /** The value a Uint32Array stores when it is given the non-negative integer n. */
  function ToUint32(n: nat): (r: nat)
    ensures r < Uint32Range
    ensures n < Uint32Range ==> r == n
    ensures (r - n) % Uint32Range == 0
  {
    n % Uint32Range
  }

  /** The four bytes of a Uint32Array element holding n, least significant first. */
  function Le32(n: nat): (b: seq<byte>)
    requires n < Uint32Range
    ensures |b| == 4
  {
    [n % 256, (n / 256) % 256, (n / 65536) % 256, n / 16777216]
  }

  /** The value of a Uint32Array element whose four bytes are b. */
  function ReadLe32(b: seq<byte>): (n: nat)
    requires |b| == 4
    ensures n < Uint32Range
  {
    b[0] as int + 256 * b[1] as int + 65536 * b[2] as int + 16777216 * b[3] as int
  }

  /** Reading back the bytes written for n gives n. */
  lemma ReadLe32OfLe32(n: nat)
    requires n < Uint32Range
    ensures ReadLe32(Le32(n)) == n
  {
    assert n == n % 256 + 256 * (n / 256);
    var m := n / 256;
    assert m == m % 256 + 256 * (m / 256);
    assert m / 256 == n / 65536;
    var k := n / 65536;
    assert k == k % 256 + 256 * (k / 256);
    assert k / 256 == n / 16777216;
  }

  /** Writing the value read from four bytes gives those bytes back. */
  lemma Le32OfReadLe32(b: seq<byte>)
    requires |b| == 4
    ensures Le32(ReadLe32(b)) == b
  {
    var n := ReadLe32(b);
    var c := Le32(n);
    assert n == b[0] as int + 256 * (b[1] as int + 256 * (b[2] as int + 256 * b[3] as int));
    assert c[0] == b[0];
    assert n / 256 == b[1] as int + 256 * (b[2] as int + 256 * b[3] as int);
    assert c[1] == b[1];
    assert n / 65536 == b[2] as int + 256 * b[3] as int;
    assert c[2] == b[2];
    assert c[3] == b[3];
  }
}
