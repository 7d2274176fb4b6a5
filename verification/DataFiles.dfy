/**
 The active file, which is appended to, and the stable files, which are only read.
 */
module DataFiles {
  import opened Bytes
  import opened Codec
  import opened Files
  import opened Records

  class ActiveFile {
    var file: FStream

    constructor (file: FStream)
      ensures this.file == file
    {
      this.file := file;
    }

    /** Creates the file, empty. */
    constructor Create(disk: Disk, id: nat)
      modifies disk
      ensures fresh(file) && file.disk == disk && file.id == id && file.isOpen && !file.failed
      ensures disk.files == old(disk.files)[id := []]
    {
      file := new FStream.Truncate(disk, id);
    }

    /** Scans the file with a stream of its own, then reopens it for appending. */
    static method Restore(x: Extend, disk: Disk, id: nat) returns (handle: FStream, found: seq<Found>)
      requires id in disk.files && Addressable(x, disk.files[id], 0)
      ensures fresh(handle) && handle.disk == disk && handle.id == id && handle.isOpen && !handle.failed
      ensures found == Scan(x, disk.files[id])
    {
      var reader := new FStream.Open(disk, id);
      found := ReadAllRecordFromFile(x, reader);
      reader.Close();
      handle := new FStream.Open(disk, id);
    }

    method Write(x: Extend, key: Key, value: Value) returns (offset: u32)
      requires file.Usable() && !file.failed
      modifies file`pos, file.disk
      ensures var data := old(file.Data());
              && file.disk.files ==
                 old(file.disk.files)[file.id := data + Encode(x, Codec.Write(key, value))]
              && offset == Low32(|data| + HEADER + |key|)
    {
      var inf := WriteRecord(x, file, key, value);
      offset := inf.valueOffset;
    }

    /** Closes the file and leaves an unopened stream in its place. */
    method Rotate() returns (closed: FStream)
      modifies this, file`isOpen
      ensures closed == old(file) && !closed.isOpen
      ensures fresh(file) && file.disk == closed.disk && !file.isOpen
    {
      file.Close();
      closed := file;
      file := new FStream.Unopened(closed.disk);
    }
  }

  class StableFile {
    const file: FStream

    constructor (file: FStream)
      ensures this.file == file
    {
      this.file := file;
    }

    /** Scans the file and keeps the stream, which the scan leaves at end of file or failed. */
    static method Restore(x: Extend, disk: Disk, id: nat) returns (handle: FStream, found: seq<Found>)
      requires id in disk.files && Addressable(x, disk.files[id], 0)
      ensures fresh(handle) && handle.disk == disk && handle.id == id && handle.isOpen
      ensures found == Scan(x, disk.files[id])
    {
      handle := new FStream.Open(disk, id);
      found := ReadAllRecordFromFile(x, handle);
    }

    /** Random access by offset and size. The fail state a scan left behind is cleared first. */
    method Read(offset: nat, size: nat) returns (value: Value)
      requires file.Usable()
      modifies file`pos, file`failed
      ensures value == Slice(file.Data(), offset, size)
    {
      file.Clear();
      file.SeekG(offset);
      value := ReadValueFromFile(file, size);
    }
  }
}
