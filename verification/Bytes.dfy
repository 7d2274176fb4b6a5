/**
 Bytes and 32-bit words as they appear in a log file.

 `Key`, `Value` and file contents are byte strings. The three header fields are
 `uint32_t` and are stored least significant byte first.
 */
module Bytes {

  type byte = b: int | 0 <= b < 256

  type u32 = n: int | 0 <= n < 0x1_0000_0000

  const WORD_LIMIT: nat := 0x1_0000_0000

  /** The conversion of a size or stream position to `uint32_t`: the value modulo 2^32. */
  function Low32(n: nat): (r: u32)
    ensures n < WORD_LIMIT ==> r == n
  {
    n % 0x1_0000_0000
  }

  function ToBytes(n: u32): (s: seq<byte>)
    ensures |s| == 4
  {
    var m := n / 256;
    var l := m / 256;
    [n % 256, m % 256, l % 256, l / 256]
  }

  function FromBytes(s: seq<byte>): (n: u32)
    requires |s| == 4
  {
    var a: int, b: int, c: int, d: int := s[0], s[1], s[2], s[3];
    a + 256 * (b + 256 * (c + 256 * d))
  }

  lemma WordRoundTrip(n: u32)
    ensures FromBytes(ToBytes(n)) == n
  {
  }

  lemma BytesRoundTrip(s: seq<byte>)
    requires |s| == 4
    ensures ToBytes(FromBytes(s)) == s
  {
    var n := FromBytes(s);
    var a: int, b: int, c: int, d: int := s[0], s[1], s[2], s[3];
    assert n / 256 == b + 256 * (c + 256 * d);
    assert n / 256 / 256 == c + 256 * d;
  }
}
