/**
 The file layer: numbered files on a disk and streams over them.

 A stream has one position for reading and writing, and a fail state that stays set, and makes every
 further read and seek do nothing, until `Clear`. Opening is assumed to succeed.
 */
module Files {
  import opened Bytes

  /** The database directory: the contents of `<n>.db` for every number `n` present. */
  class Disk {
    var files: map<nat, seq<byte>>

    constructor ()
      ensures files == map[]
    {
      files := map[];
    }
  }

  class FStream {
    const disk: Disk
    const id: nat
    var isOpen: bool
    var failed: bool
    var pos: nat

    /** `new std::fstream()`: not attached to a file yet. */
    constructor Unopened(disk: Disk)
      ensures this.disk == disk && !isOpen
    {
      this.disk := disk;
      id, isOpen, failed, pos := 0, false, false, 0;
    }

    /** Opens an existing file, for reading or for appending. */
    constructor Open(disk: Disk, id: nat)
      requires id in disk.files
      ensures this.disk == disk && this.id == id && isOpen && !failed && pos == 0
    {
      this.disk, this.id := disk, id;
      isOpen, failed, pos := true, false, 0;
    }

    /** Opens a file with truncation, creating it when it is missing. */
    constructor Truncate(disk: Disk, id: nat)
      modifies disk
      ensures this.disk == disk && this.id == id && isOpen && !failed && pos == 0
      ensures disk.files == old(disk.files)[id := []]
    {
      this.disk, this.id := disk, id;
      isOpen, failed, pos := true, false, 0;
      disk.files := disk.files[id := []];
    }

    ghost predicate Usable()
      reads this, disk
    {
      isOpen && id in disk.files
    }

    function Data(): (bytes: seq<byte>)
      requires id in disk.files
      reads this, disk
    {
      disk.files[id]
    }

    function TellP(): (p: int)
      reads this
    {
      if failed then -1 else pos
    }

    method Clear()
      modifies this`failed
      ensures !failed
    {
      failed := false;
    }

    /** A seek is ignored while the stream has failed; seeking past the end succeeds. */
    method SeekG(offset: nat)
      modifies this`pos
      ensures pos == if failed then old(pos) else offset
    {
      if !failed {
        pos := offset;
      }
    }

    /** `std::istream::read`: all `size` bytes, or a failed stream. */
    method Read(size: nat) returns (ok: bool, buf: seq<byte>)
      requires Usable()
      modifies this`pos, this`failed
      ensures ok == (!old(failed) && (size == 0 || old(pos) + size <= |Data()|))
      ensures failed == !ok
      ensures ok ==> |buf| == size && pos == old(pos) + size
      ensures ok && size > 0 ==> buf == Data()[old(pos)..pos]
    {
      ok, buf := false, [];
      if failed {
        return;
      }
      if size == 0 {
        ok := true;
      } else if pos + size <= |disk.files[id]| {
        buf := disk.files[id][pos..pos + size];
        pos := pos + size;
        ok := true;
      } else {
        pos := if pos <= |disk.files[id]| then |disk.files[id]| else pos;
        failed := true;
      }
    }

    /** A write goes to the end of the file; on a failed stream it does nothing. */
    method Write(buf: seq<byte>)
      requires Usable()
      modifies this`pos, disk
      ensures disk.files == if failed then old(disk.files) else old(disk.files)[id := old(Data()) + buf]
      ensures pos == if failed then old(pos) else |Data()|
    {
      if !failed {
        disk.files := disk.files[id := disk.files[id] + buf];
        pos := |disk.files[id]|;
      }
    }

    method Close()
      modifies this`isOpen
      ensures !isOpen
    {
      isOpen := false;
    }
  }

  /** Reads `size` bytes at the current position; a short read gives nothing, not a part. */
  method ReadValueFromFile(file: FStream, size: nat) returns (buf: seq<byte>)
    requires file.Usable()
    modifies file`pos, file`failed
    ensures var ok := !old(file.failed) && (size == 0 || old(file.pos) + size <= |file.Data()|);
            && file.failed == !ok
            && (ok ==> |buf| == size && file.pos == old(file.pos) + size)
            && (ok && size > 0 ==> buf == file.Data()[old(file.pos)..file.pos])
            && (!ok ==> buf == [])
  {
    var ok;
    ok, buf := file.Read(size);
    if !ok {
      buf := [];
    }
  }

  /** Seeks to `offset` and reads; on a stream that has already failed neither happens. */
  method ReadFile(file: FStream, offset: nat, size: nat) returns (buf: seq<byte>)
    requires file.Usable()
    modifies file`pos, file`failed
    ensures var ok := !old(file.failed) && (size == 0 || offset + size <= |file.Data()|);
            && file.failed == !ok
            && (ok ==> |buf| == size && file.pos == offset + size)
            && (ok && size > 0 ==> buf == file.Data()[offset..offset + size])
            && (!ok ==> buf == [])
  {
    file.SeekG(offset);
    buf := ReadValueFromFile(file, size);
  }

  /** Appends and returns the position after the write, -1 on a failed stream. */
  method WriteFile(file: FStream, buf: seq<byte>) returns (end: int)
    requires file.Usable()
    modifies file`pos, file.disk
    ensures file.disk.files == if file.failed then old(file.disk.files)
                               else old(file.disk.files)[file.id := old(file.Data()) + buf]
    ensures if file.failed then end == -1 else file.pos == end == |file.Data()|
  {
    file.Write(buf);
    end := file.TellP();
  }
}
