/**
 The record format and the recovery scan, as functions on byte strings.

 A record is a 12-byte header (checksum, key size, value size), the key and the value.
 The checksum algorithm is a parameter: every theorem holds for every function of type
 `Extend`, CRC32C being one of them, and nothing is assumed about it.
 */
module Codec {
  import opened Bytes

  type Key = seq<byte>
  type Value = seq<byte>

  /** `crc32c::Extend`: continues a checksum over more bytes. */
  type Extend = (u32, seq<byte>) -> u32

  datatype Write = Write(key: Key, value: Value)

  datatype RecordInf = RecordInf(size: nat, keyOffset: nat, valueOffset: nat)

  /** What the scan hands to its callback for one record. */
  datatype Found = Found(key: Key, value: Value, inf: RecordInf)

  const HEADER: nat := 12

  function Checksum(x: Extend, keySize: u32, valueSize: u32, key: Key, value: Value): (crc: u32)
  {
    x(x(x(x(0, ToBytes(keySize)), ToBytes(valueSize)), key), value)
  }

  /** Both sizes are representable in the header. */
  predicate Sized(w: Write)
  {
    |w.key| < WORD_LIMIT && |w.value| < WORD_LIMIT
  }

  function RecordSize(w: Write): (n: nat)
  {
    HEADER + |w.key| + |w.value|
  }

  function Header(crc: u32, keySize: u32, valueSize: u32): (s: seq<byte>)
    ensures |s| == HEADER
  {
    ToBytes(crc) + ToBytes(keySize) + ToBytes(valueSize)
  }

  function HeaderOf(x: Extend, w: Write): (s: seq<byte>)
    ensures |s| == HEADER
  {
    var keySize, valueSize := Low32(|w.key|), Low32(|w.value|);
    Header(Checksum(x, keySize, valueSize, w.key, w.value), keySize, valueSize)
  }

  function Encode(x: Extend, w: Write): (s: seq<byte>)
    ensures |s| == RecordSize(w)
  {
    HeaderOf(x, w) + w.key + w.value
  }

  function Size(ws: seq<Write>): (n: nat)
  {
    if ws == [] then 0 else Size(ws[..|ws| - 1]) + RecordSize(ws[|ws| - 1])
  }

  function EncodeAll(x: Extend, ws: seq<Write>): (s: seq<byte>)
    ensures |s| == Size(ws)
  {
    if ws == [] then [] else EncodeAll(x, ws[..|ws| - 1]) + Encode(x, ws[|ws| - 1])
  }

  /** The offset at which the value of `w` lands when `w` is appended after `ws`. */
  function ValueOffset(ws: seq<Write>, w: Write): (n: nat)
  {
    Size(ws) + HEADER + |w.key|
  }

  /** The callback arguments for a whole record starting at `pos`. */
  function FoundAt(pos: nat, w: Write): (f: Found)
  {
    Found(w.key, w.value,
          RecordInf(Low32(RecordSize(w)), Low32(pos + HEADER), Low32(pos + HEADER + |w.key|)))
  }

  /** The callback arguments for the records of a whole log file, in order. */
  function Founds(ws: seq<Write>): (fs: seq<Found>)
    ensures |fs| == |ws|
  {
    if ws == [] then [] else
    Founds(ws[..|ws| - 1]) + [FoundAt(Size(ws[..|ws| - 1]), ws[|ws| - 1])]
  }

  /** A read of `n` bytes at `at`: the bytes, or nothing at all when the read comes up short. */
  function Slice(bytes: seq<byte>, at: nat, n: nat): (s: seq<byte>)
  {
    if at + n <= |bytes| then bytes[at..at + n] else []
  }

  /** One iteration of the scan: it stops, reports a record whose body came up short
      (after which the stream has failed), or reports a whole record and moves on. */
  datatype Step = Stop | Short(found: Found) | Whole(found: Found, next: nat)

  function StoredChecksum(bytes: seq<byte>, pos: nat): (n: u32)
    requires pos + HEADER <= |bytes|
  {
    FromBytes(bytes[pos..pos + 4])
  }

  function StoredKeySize(bytes: seq<byte>, pos: nat): (n: u32)
    requires pos + HEADER <= |bytes|
  {
    FromBytes(bytes[pos + 4..pos + 8])
  }

  function StoredValueSize(bytes: seq<byte>, pos: nat): (n: u32)
    requires pos + HEADER <= |bytes|
  {
    FromBytes(bytes[pos + 8..pos + 12])
  }

  function ReadAt(x: Extend, bytes: seq<byte>, pos: nat): (r: Step)
    ensures r.Whole? ==> pos + HEADER <= r.next <= |bytes|
  {
    if pos + HEADER > |bytes| then Stop else
    var keySize, valueSize := StoredKeySize(bytes, pos), StoredValueSize(bytes, pos);
    var keyAt := pos + HEADER;
    var valueAt := keyAt + keySize;
    var key, value := Slice(bytes, keyAt, keySize), Slice(bytes, valueAt, valueSize);
    if StoredChecksum(bytes, pos) != Checksum(x, keySize, valueSize, key, value) then Stop else
    var found := Found(key, value,
                       RecordInf(Low32(HEADER + keySize + valueSize), Low32(keyAt), Low32(valueAt)));
    if valueAt + valueSize <= |bytes| then Whole(found, valueAt + valueSize) else Short(found)
  }

  /** The scan from `pos` on, given what has been reported so far. */
  function ScanFrom(x: Extend, bytes: seq<byte>, pos: nat, reported: seq<Found>): (fs: seq<Found>)
    ensures reported <= fs
    decreases |bytes| - pos
  {
    match ReadAt(x, bytes, pos)
    case Stop => reported
    case Short(f) => reported + [f]
    case Whole(f, next) => ScanFrom(x, bytes, next, reported + [f])
  }

  /** Everything the scan of a file reports. */
  function Scan(x: Extend, bytes: seq<byte>): (fs: seq<Found>)
  {
    ScanFrom(x, bytes, 0, [])
  }

  /** No position the scan computes from `pos` on is cut by the conversion to `Offset`. */
  predicate Addressable(x: Extend, bytes: seq<byte>, pos: nat)
    decreases |bytes| - pos
  {
    pos + HEADER <= |bytes| ==>
      && pos + HEADER < WORD_LIMIT
      && (var valueAt := pos + HEADER + StoredKeySize(bytes, pos);
          valueAt <= |bytes| ==> valueAt < WORD_LIMIT)
      && var r := ReadAt(x, bytes, pos);
         r.Whole? ==> Addressable(x, bytes, r.next)
  }

  // ---------------------------------------------------------------- positions

  lemma {:induction false} SizeConcat(a: seq<Write>, b: seq<Write>)
    ensures Size(a + b) == Size(a) + Size(b)
  {
    if b == [] {
      assert a + b == a;
    } else {
      assert (a + b)[..|a + b| - 1] == a + b[..|b| - 1];
      SizeConcat(a, b[..|b| - 1]);
    }
  }

  lemma Assoc<T>(a: seq<T>, b: seq<T>, c: seq<T>)
    ensures a + (b + c) == (a + b) + c
  {
  }

  lemma Snoc(x: Extend, ws: seq<Write>, w: Write)
    ensures Size(ws + [w]) == Size(ws) + RecordSize(w)
    ensures EncodeAll(x, ws + [w]) == EncodeAll(x, ws) + Encode(x, w)
    ensures Founds(ws + [w]) == Founds(ws) + [FoundAt(Size(ws), w)]
  {
    hide ToBytes, FromBytes, Low32, Encode;
    assert (ws + [w])[..|ws|] == ws;
  }

  lemma {:induction false} EncodeConcat(x: Extend, a: seq<Write>, b: seq<Write>)
    ensures EncodeAll(x, a + b) == EncodeAll(x, a) + EncodeAll(x, b)
  {
    hide Encode, Founds, Size;
    if b == [] {
      assert a + b == a;
    } else {
      var init, w := b[..|b| - 1], b[|b| - 1];
      EncodeConcat(x, a, init);
      Assoc(a, init, [w]);
      assert init + [w] == b;
      Snoc(x, a + init, w);
      Snoc(x, init, w);
      Assoc(EncodeAll(x, a), EncodeAll(x, init), Encode(x, w));
    }
  }

  lemma PrefixSnoc<T>(s: seq<T>, i: nat)
    requires i < |s|
    ensures s[..i + 1] == s[..i] + [s[i]]
  {
  }

  /** The bytes `s` stand at position `pos`. */
  ghost predicate Occurs(bytes: seq<byte>, pos: nat, s: seq<byte>)
  {
    pos + |s| <= |bytes| && bytes[pos..pos + |s|] == s
  }

  lemma OccursAppend(bytes: seq<byte>, pos: nat, a: seq<byte>, b: seq<byte>)
    ensures Occurs(bytes, pos, a + b) <==> Occurs(bytes, pos, a) && Occurs(bytes, pos + |a|, b)
  {
    if Occurs(bytes, pos, a + b) {
      var t := bytes[pos..pos + |a + b|];
      assert forall i | 0 <= i < |a| :: bytes[pos + i] == t[i] == a[i];
      assert forall i | 0 <= i < |b| :: bytes[pos + |a| + i] == t[|a| + i] == b[i];
    }
    if Occurs(bytes, pos, a) && Occurs(bytes, pos + |a|, b) {
      assert bytes[pos..pos + |a + b|] == bytes[pos..pos + |a|] + bytes[pos + |a|..pos + |a| + |b|];
    }
  }

  lemma OccursWithin(bytes: seq<byte>, all: seq<byte>, pos: nat, s: seq<byte>)
    requires bytes <= all
    ensures Occurs(bytes, pos, s) ==> Occurs(all, pos, s)
    ensures Occurs(all, pos, s) && pos + |s| <= |bytes| ==> Occurs(bytes, pos, s)
  {
    assert pos + |s| <= |bytes| ==> bytes[pos..pos + |s|] == all[pos..pos + |s|];
  }

  lemma PrefixOfPrefix<T>(s: seq<T>, i: nat, j: nat)
    requires i <= j <= |s|
    ensures s[..j][..i] == s[..i]
  {
  }

  lemma EncodePrefix(x: Extend, ws: seq<Write>)
    requires ws != []
    ensures EncodeAll(x, ws[..|ws| - 1]) <= EncodeAll(x, ws)
  {
  }

  lemma OccursLast(a: seq<byte>, b: seq<byte>)
    ensures a <= a + b && Occurs(a + b, |a|, b)
  {
  }

  lemma LastEncoded(x: Extend, ws: seq<Write>)
    requires ws != []
    ensures var last := |ws| - 1;
            && EncodeAll(x, ws[..last]) <= EncodeAll(x, ws)
            && Occurs(EncodeAll(x, ws), Size(ws[..last]), Encode(x, ws[last]))
  {
    hide Encode, Occurs;
    OccursLast(EncodeAll(x, ws[..|ws| - 1]), Encode(x, ws[|ws| - 1]));
  }

  /** Where record `i` of a log sits in the encoding. */
  lemma {:induction false} EncodedAt(x: Extend, ws: seq<Write>, i: nat)
    requires i < |ws|
    ensures Size(ws[..i]) + RecordSize(ws[i]) == Size(ws[..i + 1]) <= Size(ws)
    ensures EncodeAll(x, ws[..i]) <= EncodeAll(x, ws)
    ensures Occurs(EncodeAll(x, ws), Size(ws[..i]), Encode(x, ws[i]))
  {
    hide ToBytes, FromBytes, Low32, Encode, Occurs;
    var last := |ws| - 1;
    var init := ws[..last];
    if i == last {
      assert ws[..i + 1] == ws;
      LastEncoded(x, ws);
    } else {
      PrefixOfPrefix(ws, i, last);
      PrefixOfPrefix(ws, i + 1, last);
      EncodedAt(x, init, i);
      EncodePrefix(x, ws);
      OccursWithin(EncodeAll(x, init), EncodeAll(x, ws), Size(ws[..i]), Encode(x, ws[i]));
    }
  }

  predicate AllSized(ws: seq<Write>)
  {
    forall i | 0 <= i < |ws| :: Sized(ws[i])
  }

  // ---------------------------------------------------------------- reading one record

  /** A short file is addressable whatever it holds. */
  lemma {:induction false} ShortFileAddressable(x: Extend, bytes: seq<byte>, pos: nat)
    requires |bytes| < 0x1_0000_0000
    ensures Addressable(x, bytes, pos)
    decreases |bytes| - pos
  {
    var r := ReadAt(x, bytes, pos);
    if r.Whole? {
      ShortFileAddressable(x, bytes, r.next);
    }
  }

  lemma HeaderOccurs(bytes: seq<byte>, pos: nat, crc: u32, keySize: u32, valueSize: u32)
    ensures Occurs(bytes, pos, Header(crc, keySize, valueSize)) <==>
              && pos + HEADER <= |bytes|
              && StoredChecksum(bytes, pos) == crc
              && StoredKeySize(bytes, pos) == keySize
              && StoredValueSize(bytes, pos) == valueSize
  {
    OccursAppend(bytes, pos, ToBytes(crc) + ToBytes(keySize), ToBytes(valueSize));
    OccursAppend(bytes, pos, ToBytes(crc), ToBytes(keySize));
    WordRoundTrip(crc);
    WordRoundTrip(keySize);
    WordRoundTrip(valueSize);
    if pos + HEADER <= |bytes| {
      BytesRoundTrip(bytes[pos..pos + 4]);
      BytesRoundTrip(bytes[pos + 4..pos + 8]);
      BytesRoundTrip(bytes[pos + 8..pos + 12]);
    }
  }

  /** The header of an encoded record found in place. */
  lemma EncodedFields(x: Extend, bytes: seq<byte>, pos: nat, w: Write)
    requires Sized(w)
    requires Occurs(bytes, pos, HeaderOf(x, w))
    ensures pos + HEADER <= |bytes|
    ensures StoredChecksum(bytes, pos) == Checksum(x, |w.key|, |w.value|, w.key, w.value)
    ensures StoredKeySize(bytes, pos) == |w.key|
    ensures StoredValueSize(bytes, pos) == |w.value|
  {
    hide ToBytes, FromBytes;
    HeaderOccurs(bytes, pos, Checksum(x, |w.key|, |w.value|, w.key, w.value), |w.key|, |w.value|);
  }

  lemma EncodeOccurs(x: Extend, bytes: seq<byte>, pos: nat, w: Write)
    ensures Occurs(bytes, pos, Encode(x, w)) <==>
              && Occurs(bytes, pos, HeaderOf(x, w))
              && Occurs(bytes, pos + HEADER, w.key)
              && Occurs(bytes, pos + HEADER + |w.key|, w.value)
  {
    hide ToBytes, FromBytes, Low32;
    OccursAppend(bytes, pos, HeaderOf(x, w) + w.key, w.value);
    OccursAppend(bytes, pos, HeaderOf(x, w), w.key);
  }

  lemma ReadEncoded(x: Extend, bytes: seq<byte>, pos: nat, w: Write)
    requires Sized(w)
    requires Occurs(bytes, pos, Encode(x, w))
    ensures ReadAt(x, bytes, pos) == Whole(FoundAt(pos, w), pos + RecordSize(w))
  {
    hide ToBytes, FromBytes, Low32;
    EncodeOccurs(x, bytes, pos, w);
    EncodedFields(x, bytes, pos, w);
  }

  /** What the reader knows of a record it accepts whole. */
  lemma WholeFields(x: Extend, bytes: seq<byte>, pos: nat)
    requires ReadAt(x, bytes, pos).Whole?
    ensures pos + HEADER <= |bytes|
    ensures var r, keySize, valueSize := ReadAt(x, bytes, pos), StoredKeySize(bytes, pos), StoredValueSize(bytes, pos);
            var w := Write(r.found.key, r.found.value);
            && |w.key| == keySize && |w.value| == valueSize
            && r.next == pos + RecordSize(w) && r.found == FoundAt(pos, w)
            && Occurs(bytes, pos + HEADER, w.key) && Occurs(bytes, pos + HEADER + keySize, w.value)
            && StoredChecksum(bytes, pos) == Checksum(x, keySize, valueSize, w.key, w.value)
  {
    hide StoredKeySize, StoredValueSize, StoredChecksum, Checksum, Low32;
  }

  /** The partner of `ReadEncoded`: whatever the reader accepts whole is the encoding of what it reports. */
  lemma EncodeRead(x: Extend, bytes: seq<byte>, pos: nat)
    requires ReadAt(x, bytes, pos).Whole?
    ensures var r := ReadAt(x, bytes, pos);
            var w := Write(r.found.key, r.found.value);
            Sized(w) && r.next == pos + RecordSize(w) && Occurs(bytes, pos, Encode(x, w))
            && r.found == FoundAt(pos, w)
  {
    hide ToBytes, FromBytes, Low32, ReadAt, Occurs, Checksum, StoredKeySize, StoredValueSize, StoredChecksum, Header,
         Encode, FoundAt;
    WholeFields(x, bytes, pos);
    var r := ReadAt(x, bytes, pos);
    var w := Write(r.found.key, r.found.value);
    HeaderOccurs(bytes, pos, StoredChecksum(bytes, pos), StoredKeySize(bytes, pos), StoredValueSize(bytes, pos));
    EncodeOccurs(x, bytes, pos, w);
    SizedWords(w);
  }

  lemma SizedWords(w: Write)
    requires Sized(w)
    ensures Low32(|w.key|) == |w.key| && Low32(|w.value|) == |w.value|
  {
  }

  // ---------------------------------------------------------------- scanning

  lemma ScanWhole(x: Extend, bytes: seq<byte>, pos: nat, reported: seq<Found>, f: Found, next: nat)
    requires ReadAt(x, bytes, pos) == Whole(f, next)
    ensures ScanFrom(x, bytes, pos, reported) == ScanFrom(x, bytes, next, reported + [f])
  {
    hide ReadAt;
  }

  /** One step of the scan over an encoded record. */
  lemma ScanStep(x: Extend, bytes: seq<byte>, before: seq<Write>, w: Write)
    requires Sized(w)
    requires Occurs(bytes, Size(before), Encode(x, w))
    ensures ScanFrom(x, bytes, Size(before), Founds(before))
         == ScanFrom(x, bytes, Size(before + [w]), Founds(before + [w]))
  {
    hide *;
    ReadEncoded(x, bytes, Size(before), w);
    Snoc(x, before, w);
    ScanWhole(x, bytes, Size(before), Founds(before), FoundAt(Size(before), w), Size(before) + RecordSize(w));
  }

  /** The scan of a file that begins with an encoded log gets past that log, record by record. */
  lemma {:induction false} ScanSkips(x: Extend, ws: seq<Write>, bytes: seq<byte>, i: nat)
    requires i <= |ws|
    requires AllSized(ws)
    requires EncodeAll(x, ws) <= bytes
    ensures Scan(x, bytes) == ScanFrom(x, bytes, Size(ws[..i]), Founds(ws[..i]))
  {
    hide ToBytes, FromBytes, Low32;
    if i == 0 {
      assert ws[..0] == [];
    } else {
      ScanSkips(x, ws, bytes, i - 1);
      var before, w := ws[..i - 1], ws[i - 1];
      EncodedAt(x, ws, i - 1);
      OccursWithin(EncodeAll(x, ws), bytes, Size(before), Encode(x, w));
      PrefixSnoc(ws, i - 1);
      ScanStep(x, bytes, before, w);
    }
  }

  lemma ScanAfter(x: Extend, ws: seq<Write>, bytes: seq<byte>)
    requires AllSized(ws)
    requires EncodeAll(x, ws) <= bytes
    ensures Scan(x, bytes) == ScanFrom(x, bytes, Size(ws), Founds(ws))
  {
    hide ToBytes, FromBytes, Low32;
    ScanSkips(x, ws, bytes, |ws|);
    assert ws[..|ws|] == ws;
  }

  /** Codec round trip: scanning what the writer wrote reports the same records, in order,
      at the positions the writer returned, and nothing more. */
  lemma ScanRoundTrip(x: Extend, ws: seq<Write>)
    requires AllSized(ws)
    ensures Scan(x, EncodeAll(x, ws)) == Founds(ws)
  {
    ScanAfter(x, ws, EncodeAll(x, ws));
  }

  /** A record that was accepted although its body came up short. It can only follow a
      checksum collision: the stored checksum equals that of the shortened contents. */
  ghost predicate Collision(x: Extend, bytes: seq<byte>, pos: nat, f: Found)
  {
    && pos + HEADER <= |bytes|
    && f.value == []
    && (var keySize, valueSize := StoredKeySize(bytes, pos), StoredValueSize(bytes, pos);
        && pos + HEADER + keySize + valueSize > |bytes|
        && (if pos + HEADER + keySize <= |bytes| then f.key == bytes[pos + HEADER..pos + HEADER + keySize]
            else f.key == [])
        && StoredChecksum(bytes, pos) == Checksum(x, keySize, valueSize, f.key, []))
  }

  /** Scan of arbitrary bytes: the reported records are contiguous from 0, re-encoding them gives back
      the consumed bytes, and only a final colliding record can be short. */
  lemma {:induction false} ScanReencodes(x: Extend, bytes: seq<byte>, done: seq<Write>)
    returns (ws: seq<Write>, short: seq<Found>)
    requires AllSized(done)
    requires EncodeAll(x, done) <= bytes
    ensures done <= ws && AllSized(ws)
    ensures EncodeAll(x, ws) <= bytes
    ensures ScanFrom(x, bytes, Size(done), Founds(done)) == Founds(ws) + short
    ensures short == [] || (|short| == 1 && Collision(x, bytes, Size(ws), short[0]))
    ensures ReadAt(x, bytes, Size(ws)) == if short == [] then Stop else Short(short[0])
    decreases |bytes| - Size(done)
  {
    hide ToBytes, FromBytes, Low32;
    var pos := Size(done);
    var r := ReadAt(x, bytes, pos);
    match r
    case Stop => ws, short := done, [];
    case Short(f) => ws, short := done, [f];
    case Whole(f, next) =>
      EncodeRead(x, bytes, pos);
      var w := Write(f.key, f.value);
      Snoc(x, done, w);
      PrefixJoin(bytes, EncodeAll(x, done), Encode(x, w));
      ScanStep(x, bytes, done, w);
      ws, short := ScanReencodes(x, bytes, done + [w]);
  }

  lemma PrefixJoin(s: seq<byte>, a: seq<byte>, b: seq<byte>)
    requires a <= s && Occurs(s, |a|, b)
    ensures a + b <= s
  {
  }

  // ---------------------------------------------------------------- torn tails

  /** How many records of `ws` lie wholly within the first `cut` bytes of its encoding. */
  function WholeWithin(ws: seq<Write>, cut: nat): (n: nat)
    requires cut <= Size(ws)
    ensures n <= |ws|
    ensures Size(ws[..n]) <= cut
    ensures n < |ws| ==> cut < Size(ws[..n + 1])
  {
    assert ws[..|ws|] == ws;
    if Size(ws) <= cut then |ws| else
    var init := ws[..|ws| - 1];
    if cut < Size(init) then
      var n := WholeWithin(init, cut);
      assert init[..n] == ws[..n];
      assert n < |init| ==> init[..n + 1] == ws[..n + 1];
      n
    else
      |init|
  }

  /** The two ways a torn record can still pass its check, both fixed by the rule that a short
      read gives the empty string. `kept` is the number of bytes left of the record. */
  ghost predicate TornCollision(x: Extend, w: Write, kept: nat)
  {
    var keySize, valueSize := Low32(|w.key|), Low32(|w.value|);
    HEADER <= kept
    && Checksum(x, keySize, valueSize, w.key, w.value)
    == Checksum(x, keySize, valueSize, if HEADER + |w.key| <= kept then w.key else [], [])
  }

  lemma ReadEnd(x: Extend, bytes: seq<byte>, pos: nat)
    requires |bytes| <= pos
    ensures ReadAt(x, bytes, pos) == Stop
  {
  }

  /** What a colliding torn record is reported as: the key if it is all there, and no value. */
  function TornFound(pos: nat, w: Write, kept: nat): (f: Found)
  {
    Found(if HEADER + |w.key| <= kept then w.key else [], [], FoundAt(pos, w).inf)
  }

  /** Reading a record of which only the first bytes are there: `bytes` ends inside the record. */
  lemma ReadTorn(x: Extend, bytes: seq<byte>, all: seq<byte>, pos: nat, w: Write)
    requires Sized(w)
    requires bytes <= all && Occurs(all, pos, Encode(x, w))
    requires pos <= |bytes| < pos + RecordSize(w)
    ensures ReadAt(x, bytes, pos) ==
              if TornCollision(x, w, |bytes| - pos) then Short(TornFound(pos, w, |bytes| - pos)) else Stop
    ensures pos + HEADER <= |bytes| ==> StoredKeySize(bytes, pos) == |w.key|
  {
    hide ToBytes, FromBytes, Low32;
    EncodeOccurs(x, all, pos, w);
    OccursWithin(bytes, all, pos, HeaderOf(x, w));
    OccursWithin(bytes, all, pos + HEADER, w.key);
    if pos + HEADER <= |bytes| {
      EncodedFields(x, bytes, pos, w);
    }
  }

  /** A log cut at `cut`: the whole records in front, then the first bytes of the torn one. */
  lemma CutLog(x: Extend, ws: seq<Write>, cut: nat)
    requires cut <= Size(ws)
    ensures var n := WholeWithin(ws, cut);
            && EncodeAll(x, ws[..n]) <= EncodeAll(x, ws)[..cut]
            && (n < |ws| ==> cut < Size(ws[..n]) + RecordSize(ws[n])
                             && Occurs(EncodeAll(x, ws), Size(ws[..n]), Encode(x, ws[n])))
            && (n == |ws| ==> cut == Size(ws) && ws[..n] == ws)
  {
    hide ToBytes, FromBytes, Low32;
    var n := WholeWithin(ws, cut);
    if n < |ws| {
      EncodedAt(x, ws, n);
    } else {
      assert ws[..n] == ws;
    }
  }

  /** Torn-tail scan: on any byte prefix of a valid log the scan reports exactly the records lying
      wholly inside it, plus the torn record, with its value dropped, if and only if that collides. */
  lemma ScanTorn(x: Extend, ws: seq<Write>, cut: nat)
    requires AllSized(ws)
    requires cut <= Size(ws)
    ensures var n := WholeWithin(ws, cut);
            var pos := Size(ws[..n]);
            Scan(x, EncodeAll(x, ws)[..cut]) ==
              if n < |ws| && TornCollision(x, ws[n], cut - pos)
              then Founds(ws[..n]) + [TornFound(pos, ws[n], cut - pos)]
              else Founds(ws[..n])
  {
    hide ToBytes, FromBytes, Low32, EncodeAll, Size, Encode, WholeWithin, ReadAt, TornCollision, TornFound, Founds;
    var n := WholeWithin(ws, cut);
    var bytes := EncodeAll(x, ws)[..cut];
    CutLog(x, ws, cut);
    ScanAfter(x, ws[..n], bytes);
    if n < |ws| {
      ReadTorn(x, bytes, EncodeAll(x, ws), Size(ws[..n]), ws[n]);
    } else {
      ReadEnd(x, bytes, Size(ws[..n]));
    }
  }

  /** Every value offset of the log is representable. */
  ghost predicate OffsetsFit(ws: seq<Write>)
  {
    forall j | 0 <= j < |ws| :: ValueOffset(ws[..j], ws[j]) < WORD_LIMIT
  }

  /** Encoded logs, cut anywhere, are addressable as soon as every value offset is. */
  lemma {:induction false} EncodedAddressable(x: Extend, ws: seq<Write>, cut: nat, i: nat)
    requires AllSized(ws) && OffsetsFit(ws)
    requires cut <= Size(ws)
    requires i <= WholeWithin(ws, cut)
    ensures Addressable(x, EncodeAll(x, ws)[..cut], Size(ws[..i]))
    decreases |ws| - i
  {
    hide *;
    var n := WholeWithin(ws, cut);
    var bytes, all := EncodeAll(x, ws)[..cut], EncodeAll(x, ws);
    CutLog(x, ws, cut);
    var pos := Size(ws[..i]);
    if i < |ws| {
      var w := ws[i];
      EncodedAt(x, ws, i);
      ElementFits(ws, i);
      if i < n {
        EncodedAddressable(x, ws, cut, i + 1);
        PrefixSizes(ws, i + 1, n);
        OccursWithin(bytes, all, pos, Encode(x, w));
        AddressableStep(x, bytes, pos, w);
      } else {
        ReadTorn(x, bytes, all, pos, w);
        AddressableTorn(x, bytes, pos, w);
      }
    } else {
      assert ws[..i] == ws;
      AddressableEnd(x, bytes, pos);
    }
  }

  lemma ElementFits(ws: seq<Write>, i: nat)
    requires AllSized(ws) && OffsetsFit(ws) && i < |ws|
    ensures Sized(ws[i]) && Size(ws[..i]) + HEADER + |ws[i].key| < WORD_LIMIT
    ensures Size(ws[..i]) + RecordSize(ws[i]) == Size(ws[..i + 1])
  {
    assert ValueOffset(ws[..i], ws[i]) < WORD_LIMIT;
    PrefixSnoc(ws, i);
    SizeConcat(ws[..i], [ws[i]]);
    assert [ws[i]][..0] == [];
  }

  lemma PrefixSizes(ws: seq<Write>, i: nat, j: nat)
    requires i <= j <= |ws|
    ensures Size(ws[..i]) <= Size(ws[..j])
  {
    assert ws[..j] == ws[..i] + ws[i..j];
    SizeConcat(ws[..i], ws[i..j]);
  }

  lemma AddressableEnd(x: Extend, bytes: seq<byte>, pos: nat)
    requires |bytes| <= pos
    ensures Addressable(x, bytes, pos)
  {
  }

  lemma AddressableTorn(x: Extend, bytes: seq<byte>, pos: nat, w: Write)
    requires !ReadAt(x, bytes, pos).Whole?
    requires pos + HEADER <= |bytes| ==> StoredKeySize(bytes, pos) == |w.key|
    requires pos + HEADER + |w.key| < WORD_LIMIT
    ensures Addressable(x, bytes, pos)
  {
    hide StoredKeySize, ReadAt;
  }

  lemma AddressableStep(x: Extend, bytes: seq<byte>, pos: nat, w: Write)
    requires Sized(w) && Occurs(bytes, pos, Encode(x, w))
    requires pos + HEADER + |w.key| < WORD_LIMIT
    requires Addressable(x, bytes, pos + RecordSize(w))
    ensures Addressable(x, bytes, pos)
  {
    hide ToBytes, FromBytes, Low32;
    ReadEncoded(x, bytes, pos, w);
    EncodeOccurs(x, bytes, pos, w);
    EncodedFields(x, bytes, pos, w);
  }
}
