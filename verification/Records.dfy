/**
 Writing and reading records through a stream, with the conversions to 32-bit words the code makes.
 Each method is tied to the functions of module `Codec`.
 */
module Records {
  import opened Bytes
  import opened Codec
  import opened Files

  datatype RecordHeader = RecordHeader(crc32: u32, keySize: u32, valueSize: u32)

  method GetCRC32(x: Extend, header: RecordHeader, key: Key, value: Value) returns (crc: u32)
    ensures crc == Checksum(x, header.keySize, header.valueSize, key, value)
  {
    crc := 0;
    crc := x(crc, ToBytes(header.keySize));
    crc := x(crc, ToBytes(header.valueSize));
    crc := x(crc, key);
    crc := x(crc, value);
  }

  lemma LowSum(a: nat, b: nat)
    ensures Low32(HEADER + Low32(a) + Low32(b)) == Low32(HEADER + a + b)
  {
  }

  method FillHeader(x: Extend, key: Key, value: Value) returns (header: RecordHeader, size: nat)
    ensures Header(header.crc32, header.keySize, header.valueSize) == HeaderOf(x, Write(key, value))
    ensures Low32(size) == Low32(RecordSize(Write(key, value)))
  {
    header := RecordHeader(0, Low32(|key|), Low32(|value|));
    var crc := GetCRC32(x, header, key, value);
    header := header.(crc32 := crc);
    size := HEADER + header.keySize + header.valueSize;
    LowSum(|key|, |value|);
  }

  lemma AppendEncoded(x: Extend, data: seq<byte>, w: Write)
    ensures data + HeaderOf(x, w) + w.key + w.value == data + Encode(x, w)
  {
    hide HeaderOf;
  }

  /** Appends one record: the file grows by exactly its encoding, and the positions returned are
      those at which the scan will report it. */
  method WriteRecord(x: Extend, file: FStream, key: Key, value: Value) returns (inf: RecordInf)
    requires file.Usable() && !file.failed
    modifies file`pos, file.disk
    ensures file.disk.files == old(file.disk.files)[file.id := old(file.Data()) + Encode(x, Write(key, value))]
    ensures inf == FoundAt(|old(file.Data())|, Write(key, value)).inf
  {
    hide ToBytes, FromBytes, Low32, Header, HeaderOf, Encode;
    var header, size := FillHeader(x, key, value);
    ghost var data := file.Data();
    var p := WriteFile(file, Header(header.crc32, header.keySize, header.valueSize));
    var keyOffset := Low32(p);
    p := WriteFile(file, key);
    var valueOffset := Low32(p);
    p := WriteFile(file, value);
    inf := RecordInf(Low32(size), keyOffset, valueOffset);
    AppendEncoded(x, data, Write(key, value));
  }

  lemma ReadShort(x: Extend, bytes: seq<byte>, pos: nat)
    requires |bytes| < pos + HEADER
    ensures ReadAt(x, bytes, pos) == Stop
  {
  }

  /** `ReadAt` spelled out over the fields the reader holds. */
  lemma ReadAtFields(x: Extend, bytes: seq<byte>, pos: nat, h: RecordHeader, key: Key, value: Value)
    requires pos + HEADER <= |bytes|
    requires h == RecordHeader(StoredChecksum(bytes, pos), StoredKeySize(bytes, pos), StoredValueSize(bytes, pos))
    requires key == Slice(bytes, pos + HEADER, h.keySize)
    requires value == Slice(bytes, pos + HEADER + h.keySize, h.valueSize)
    ensures var inf := RecordInf(Low32(HEADER + h.keySize + h.valueSize), Low32(pos + HEADER),
                                 Low32(pos + HEADER + h.keySize));
            var end := pos + HEADER + h.keySize + h.valueSize;
            ReadAt(x, bytes, pos) ==
              if h.crc32 != Checksum(x, h.keySize, h.valueSize, key, value) then Stop
              else if end <= |bytes| then Whole(Found(key, value, inf), end)
              else Short(Found(key, value, inf))
  {
  }

  /** Reads the record at the current position; `ok` is false when there is none to report. */
  method ReadRecord(x: Extend, file: FStream) returns (ok: bool, key: Key, value: Value, inf: RecordInf)
    requires file.Usable()
    requires !file.failed ==> Addressable(x, file.Data(), file.pos)
    modifies file`pos, file`failed
    ensures ok == (!old(file.failed) && ReadAt(x, file.Data(), old(file.pos)) != Stop)
    ensures ok ==> var r := ReadAt(x, file.Data(), old(file.pos));
                   && r.found == Found(key, value, inf)
                   && file.failed == r.Short?
                   && (r.Whole? ==> file.pos == r.next)
  {
    hide ToBytes, FromBytes, Checksum, ReadAt;
    key, value, inf := [], [], RecordInf(0, 0, 0);
    ghost var start, data := file.pos, file.Data();
    var buf;
    ok, buf := file.Read(HEADER);
    if !ok {
      if !old(file.failed) {
        ReadShort(x, data, start);
      }
      return;
    }
    assert buf[0..4] == data[start..start + 4];
    assert buf[4..8] == data[start + 4..start + 8];
    assert buf[8..12] == data[start + 8..start + 12];
    var header := RecordHeader(FromBytes(buf[0..4]), FromBytes(buf[4..8]), FromBytes(buf[8..12]));
    var keyOffset := Low32(file.TellP());
    key := ReadFile(file, keyOffset, header.keySize);
    var valueOffset := Low32(keyOffset + header.keySize);
    value := ReadFile(file, valueOffset, header.valueSize);
    inf := RecordInf(Low32(HEADER + header.keySize + header.valueSize), keyOffset, valueOffset);
    var crc := GetCRC32(x, header, key, value);
    ok := header.crc32 == crc;
    assert key == Slice(data, start + HEADER, header.keySize);
    assert value == Slice(data, start + HEADER + header.keySize, header.valueSize);
    ReadAtFields(x, data, start, header, key, value);
  }

  /** The scan loop, from the start of a freshly opened file. The callback is modelled by the
      sequence of arguments it is called with. */
  method ReadAllRecordFromFile(x: Extend, file: FStream) returns (found: seq<Found>)
    requires file.Usable() && !file.failed
    requires Addressable(x, file.Data(), 0)
    modifies file`pos, file`failed
    ensures found == Scan(x, file.Data())
  {
    hide ReadAt;
    file.SeekG(0);
    found := [];
    while true
      invariant file.Usable() && file.Data() == old(file.Data())
      invariant !file.failed ==> file.pos <= |file.Data()| && Addressable(x, file.Data(), file.pos)
      invariant Scan(x, file.Data()) == if file.failed then found else ScanFrom(x, file.Data(), file.pos, found)
      decreases if file.failed then 0 else 1 + |file.Data()| - file.pos
    {
      var ok, key, value, inf := ReadRecord(x, file);
      if !ok {
        break;
      }
      found := found + [Found(key, value, inf)];
    }
  }
}
