/**
 The bytes of a record, by position, and what its checksum covers.
 */
module Format {
  import opened Bytes
  import opened Codec

  lemma LowSplit(n: nat) returns (m: nat, q: nat)
    ensures m == Low32(n) && n == m + 4294967296 * q
  {
    m, q := n % 4294967296, n / 4294967296;
  }

  lemma SecondByte(m: nat, q: nat)
    ensures (m + 4294967296 * q) / 256 == m / 256 + 16777216 * q
  {
  }

  lemma ThirdByte(m: nat, q: nat)
    ensures (m + 4294967296 * q) / 65536 == m / 256 / 256 + 65536 * q
  {
    assert m / 65536 == m / 256 / 256;
  }

  lemma FourthByte(m: nat, q: nat)
    ensures (m + 4294967296 * q) / 16777216 == m / 256 / 256 / 256 + 256 * q
  {
    assert m / 256 / 256 == m / 65536;
    assert m / 16777216 == m / 65536 / 256;
  }

  /** A multiple of 256 does not change the last byte. */
  lemma LastByte(m: nat, q: nat)
    ensures (m + 256 * q) % 256 == m % 256
  {
  }

  /** A word is stored least significant byte first; of a larger number only the low 32 bits are. */
  lemma WordBytes(n: nat)
    ensures ToBytes(Low32(n)) == [n % 256, n / 256 % 256, n / 65536 % 256, n / 16777216 % 256]
  {
    hide Low32;
    var m, q := LowSplit(n);
    SecondByte(m, q);
    ThirdByte(m, q);
    FourthByte(m, q);
    LastByte(m, 16777216 * q);
    LastByte(m / 256, 65536 * q);
    LastByte(m / 256 / 256, 256 * q);
    LastByte(m / 256 / 256 / 256, q);
    assert m / 256 / 256 / 256 < 256;
  }

  /** A record on disk: four bytes of checksum, four of key size, four of value size, the key and the value. */
  lemma EncodeLayout(x: Extend, w: Write)
    ensures var e, k, v := Encode(x, w), |w.key|, |w.value|;
            && |e| == 12 + k + v
            && e[4..8] == [k % 256, k / 256 % 256, k / 65536 % 256, k / 16777216 % 256]
            && e[8..12] == [v % 256, v / 256 % 256, v / 65536 % 256, v / 16777216 % 256]
            && e[12..12 + k] == w.key
            && e[12 + k..] == w.value
  {
    hide ToBytes, Low32, Checksum;
    WordBytes(|w.key|);
    WordBytes(|w.value|);
    HeaderParts(Checksum(x, Low32(|w.key|), Low32(|w.value|), w.key, w.value), Low32(|w.key|), Low32(|w.value|));
    var h := HeaderOf(x, w);
    var e := Encode(x, w);
    assert e[4..8] == h[4..8] && e[8..12] == h[8..12];
  }

  lemma HeaderParts(crc: u32, keySize: u32, valueSize: u32)
    ensures var h := Header(crc, keySize, valueSize);
            h[..4] == ToBytes(crc) && h[4..8] == ToBytes(keySize) && h[8..12] == ToBytes(valueSize)
  {
    hide ToBytes;
  }

  /** The positions reported for a record that starts at `pos`, as long as they are representable. */
  lemma FoundPositions(pos: nat, w: Write)
    requires pos + 12 + |w.key| + |w.value| < WORD_LIMIT
    ensures FoundAt(pos, w).key == w.key && FoundAt(pos, w).value == w.value
    ensures FoundAt(pos, w).inf == RecordInf(12 + |w.key| + |w.value|, pos + 12, pos + 12 + |w.key|)
  {
  }

  /** Extending a checksum piece by piece is extending it at once, as it is for CRC32C. */
  ghost predicate Chained(x: Extend)
  {
    forall c: u32, a: seq<byte>, b: seq<byte> :: x(x(c, a), b) == x(c, a + b)
  }

  /** The stored checksum is that of all the bytes of the record behind it. */
  lemma EncodeChecksum(x: Extend, w: Write)
    requires Chained(x)
    ensures Encode(x, w)[..4] == ToBytes(x(0, Encode(x, w)[4..]))
  {
    hide ToBytes, Low32;
    var k, v := ToBytes(Low32(|w.key|)), ToBytes(Low32(|w.value|));
    HeaderParts(Checksum(x, Low32(|w.key|), Low32(|w.value|), w.key, w.value), Low32(|w.key|), Low32(|w.value|));
    var e, h := Encode(x, w), HeaderOf(x, w);
    assert e[..4] == h[..4];
    assert e[4..] == h[4..8] + h[8..12] + w.key + w.value;
    assert x(x(0, k), v) == x(0, k + v);
    assert x(x(0, k + v), w.key) == x(0, k + v + w.key);
  }

  lemma Chain(x: Extend, a: seq<byte>, b: seq<byte>, d: seq<byte>, e: seq<byte>)
    requires Chained(x)
    ensures x(x(x(x(0, a), b), d), e) == x(0, a + b + d + e)
  {
    assert x(x(0, a), b) == x(0, a + b);
    assert x(x(0, a + b), d) == x(0, a + b + d);
  }

  lemma StoredSizes(bytes: seq<byte>, pos: nat)
    requires pos + HEADER <= |bytes|
    ensures ToBytes(StoredChecksum(bytes, pos)) == bytes[pos..pos + 4]
    ensures ToBytes(StoredKeySize(bytes, pos)) == bytes[pos + 4..pos + 8]
    ensures ToBytes(StoredValueSize(bytes, pos)) == bytes[pos + 8..pos + 12]
  {
    hide ToBytes, FromBytes;
    BytesRoundTrip(bytes[pos..pos + 4]);
    BytesRoundTrip(bytes[pos + 4..pos + 8]);
    BytesRoundTrip(bytes[pos + 8..pos + 12]);
  }

  lemma SameWord(a: u32, b: u32)
    ensures ToBytes(a) == ToBytes(b) <==> a == b
  {
    WordRoundTrip(a);
    WordRoundTrip(b);
  }

  /** The rule of the reader, in the terms of what it reads. */
  lemma ReadRule(x: Extend, bytes: seq<byte>, pos: nat)
    requires pos + 12 <= |bytes|
    ensures var k, v := StoredKeySize(bytes, pos), StoredValueSize(bytes, pos);
            var key, value := Slice(bytes, pos + 12, k), Slice(bytes, pos + 12 + k, v);
            var r := ReadAt(x, bytes, pos);
            if StoredChecksum(bytes, pos) != x(x(x(x(0, ToBytes(k)), ToBytes(v)), key), value) then r == Stop
            else if pos + 12 + k + v <= |bytes| then r.Whole? else r.Short?
  {
    hide ToBytes, FromBytes, StoredKeySize, StoredValueSize, StoredChecksum, Low32, Slice;
  }

  /** Whatever is on the disk: where a header and the body it announces are all there, the reader accepts exactly if the
      first four bytes are the checksum of all that follow. */
  lemma AcceptsWhole(x: Extend, bytes: seq<byte>, pos: nat)
    requires Chained(x) && pos + 12 <= |bytes|
    requires pos + 12 + StoredKeySize(bytes, pos) + StoredValueSize(bytes, pos) <= |bytes|
    ensures var end := pos + 12 + StoredKeySize(bytes, pos) + StoredValueSize(bytes, pos);
            && (ReadAt(x, bytes, pos).Whole? <==> bytes[pos..pos + 4] == ToBytes(x(0, bytes[pos + 4..end])))
            && (!ReadAt(x, bytes, pos).Whole? <==> ReadAt(x, bytes, pos) == Stop)
  {
    hide ToBytes, FromBytes, StoredKeySize, StoredValueSize, StoredChecksum, Low32, ReadAt, Chained;
    var k, v := StoredKeySize(bytes, pos), StoredValueSize(bytes, pos);
    var valueAt := pos + 12 + k;
    ReadRule(x, bytes, pos);
    StoredSizes(bytes, pos);
    var key, value := bytes[pos + 12..valueAt], bytes[valueAt..valueAt + v];
    Chain(x, ToBytes(k), ToBytes(v), key, value);
    FourParts(bytes, pos, k, v);
    SameWord(StoredChecksum(bytes, pos), x(0, bytes[pos + 4..valueAt + v]));
  }

  lemma FourParts(bytes: seq<byte>, pos: nat, k: nat, v: nat)
    requires pos + 12 + k + v <= |bytes|
    ensures bytes[pos + 4..pos + 12 + k + v] ==
            bytes[pos + 4..pos + 8] + bytes[pos + 8..pos + 12] + bytes[pos + 12..pos + 12 + k]
            + bytes[pos + 12 + k..pos + 12 + k + v]
  {
  }

  /** Where the body comes up short, the reader accepts exactly if they are the checksum of the sizes, with the key if
      that is all there. */
  lemma AcceptsShort(x: Extend, bytes: seq<byte>, pos: nat)
    requires Chained(x) && pos + 12 <= |bytes|
    requires pos + 12 + StoredKeySize(bytes, pos) + StoredValueSize(bytes, pos) > |bytes|
    ensures var keyEnd := pos + 12 + StoredKeySize(bytes, pos);
            var covered := if keyEnd <= |bytes| then bytes[pos + 4..keyEnd] else bytes[pos + 4..pos + 12];
            && (ReadAt(x, bytes, pos).Short? <==> bytes[pos..pos + 4] == ToBytes(x(0, covered)))
            && (!ReadAt(x, bytes, pos).Short? <==> ReadAt(x, bytes, pos) == Stop)
  {
    hide ToBytes, FromBytes, StoredKeySize, StoredValueSize, StoredChecksum, Low32, ReadAt, Chained;
    var k, v := StoredKeySize(bytes, pos), StoredValueSize(bytes, pos);
    var keyEnd := pos + 12 + k;
    ReadRule(x, bytes, pos);
    StoredSizes(bytes, pos);
    var key := if keyEnd <= |bytes| then bytes[pos + 12..keyEnd] else [];
    var covered := if keyEnd <= |bytes| then bytes[pos + 4..keyEnd] else bytes[pos + 4..pos + 12];
    Chain(x, ToBytes(k), ToBytes(v), key, []);
    FourParts(bytes, pos, |key|, 0);
    assert covered == bytes[pos + 4..pos + 8] + bytes[pos + 8..pos + 12] + key + [];
    SameWord(StoredChecksum(bytes, pos), x(0, covered));
  }

  /** A record whose key and value bytes were overwritten is accepted, with the new contents, exactly if the checksum,
      continued from that of the sizes, agrees on the old and the new contents. */
  lemma AcceptsDamaged(x: Extend, bytes: seq<byte>, pos: nat, w: Write, w': Write)
    requires Sized(w) && |w'.key| == |w.key| && |w'.value| == |w.value|
    requires Occurs(bytes, pos, Encode(x, w)[..12] + w'.key + w'.value)
    ensures var e := Encode(x, w);
            var c := x(x(0, e[4..8]), e[8..12]);
            ReadAt(x, bytes, pos) ==
              if x(x(c, w'.key), w'.value) == x(x(c, w.key), w.value)
              then Whole(FoundAt(pos, w'), pos + 12 + |w.key| + |w.value|) else Stop
  {
    hide ToBytes, FromBytes, Low32, Header;
    var h := HeaderOf(x, w);
    var e := Encode(x, w);
    assert e[..12] == h;
    HeaderParts(Checksum(x, Low32(|w.key|), Low32(|w.value|), w.key, w.value), Low32(|w.key|), Low32(|w.value|));
    assert e[4..8] == h[4..8] && e[8..12] == h[8..12];
    SizedWords(w);
    OccursAppend(bytes, pos, h + w'.key, w'.value);
    OccursAppend(bytes, pos, h, w'.key);
    EncodedFields(x, bytes, pos, w);
  }
}
