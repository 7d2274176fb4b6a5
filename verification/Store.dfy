/**
 The store: write queue, commit with rotation, publication, lookup, deletion and recovery.

 The ghost field `segs` is the layout of everything committed so far; `Valid` says that files, stable
 table, index and cache are exactly those of that layout.
 */
module Store {
  import opened Bytes
  import opened Codec
  import opened Files
  import opened DataFiles
  import opened Layout
  import opened Recovery
  import opened Commits
  import opened Sorting

  /** The id of the active file of a directory that holds the files 0 to n. */
  function NewestId(files: map<nat, seq<byte>>): (n: nat)
  {
    if |files| == 0 then 0 else |files| - 1
  }

  /** `getActivePathInDir`: the largest id in the directory, or 0. */
  method ActiveInDir(listing: seq<nat>) returns (maxFD: nat)
    ensures forall i | 0 <= i < |listing| :: listing[i] <= maxFD
    ensures if listing == [] then maxFD == 0 else maxFD in listing
  {
    maxFD := 0;
    for i := 0 to |listing|
      invariant forall j | 0 <= j < i :: listing[j] <= maxFD
      invariant if i == 0 then maxFD == 0 else maxFD == 0 || maxFD in listing[..i]
      invariant maxFD == 0 && i > 0 ==> listing[0] == 0
    {
      if listing[i] > maxFD {
        maxFD := listing[i];
      }
    }
  }

  /** Counts the files other than the active one. */
  method CountStable(listing: seq<nat>, active: nat) returns (count: nat)
    requires NoDup(listing)
    ensures count == if active in listing then |listing| - 1 else |listing|
  {
    count := 0;
    for i := 0 to |listing|
      invariant count == if active in listing[..i] then i - 1 else i
    {
      if listing[i] != active {
        count := count + 1;
      }
    }
    assert listing[..|listing|] == listing;
  }

  /** Collects the files other than the active one, in the order of the listing. */
  method CollectStable(listing: seq<nat>, active: nat) returns (entries: seq<nat>)
    requires NoDup(listing)
    ensures NoDup(entries) && IdsOf(entries) == IdsOf(listing) - {active}
  {
    entries := [];
    NothingCollected(listing);
    for i := 0 to |listing|
      invariant NoDup(entries) && IdsOf(entries) == IdsOf(listing[..i]) - {active}
    {
      hide NoDup, IdsOf;
      IdsSnoc(listing, i);
      if listing[i] != active {
        AddNew(entries, listing[i]);
        entries := entries + [listing[i]];
      }
    }
    assert listing[..|listing|] == listing;
  }

  lemma NothingCollected(listing: seq<nat>)
    ensures NoDup([]) && IdsOf([]) == IdsOf(listing[..0]) == {}
  {
  }

  lemma AddNew(s: seq<nat>, id: nat)
    requires NoDup(s) && id !in IdsOf(s)
    ensures NoDup(s + [id]) && IdsOf(s + [id]) == IdsOf(s) + {id}
  {
  }

  /** In a directory of the files 0 to n, the collected ones are 0 to n-1. */
  lemma StableListing(files: map<nat, seq<byte>>, listing: seq<nat>, maxFD: nat, entries: seq<nat>)
    requires files.Keys == UpTo(|files|)
    requires NoDup(listing) && IdsOf(listing) == files.Keys
    requires forall i | 0 <= i < |listing| :: listing[i] <= maxFD
    requires if listing == [] then maxFD == 0 else maxFD in listing
    requires IdsOf(entries) == IdsOf(listing) - {maxFD}
    ensures maxFD == NewestId(files) && IdsOf(entries) == UpTo(maxFD)
  {
    ActiveOfListing(files, listing, maxFD, if maxFD in listing then |listing| - 1 else |listing|);
  }

  /** The directory maximum and the count of the other files agree on the active id. */
  lemma ActiveOfListing(files: map<nat, seq<byte>>, listing: seq<nat>, maxFD: nat, count: nat)
    requires files.Keys == UpTo(|files|)
    requires NoDup(listing) && IdsOf(listing) == files.Keys
    requires forall i | 0 <= i < |listing| :: listing[i] <= maxFD
    requires if listing == [] then maxFD == 0 else maxFD in listing
    requires count == if maxFD in listing then |listing| - 1 else |listing|
    ensures maxFD == count == NewestId(files)
    ensures maxFD in listing <==> files != map[]
  {
    NoDupSize(listing);
    assert |IdsOf(listing)| == |files|;
    if listing != [] {
      assert |files| - 1 in IdsOf(listing);
      assert maxFD in IdsOf(listing);
    }
  }

  lemma FirstId(order: seq<nat>)
    requires order != []
    ensures order[0] in IdsOf(order)
  {
  }

  lemma NothingYet(x: Extend, files: map<nat, seq<byte>>, order: seq<nat>)
    ensures Index(Replay(x, files, order[..0])) == map[] && IdsOf(order[..0]) == {}
  {
  }

  lemma EmptyReplay(x: Extend, order: seq<nat>)
    requires IdsOf(order) == {}
    ensures Replay(x, map[], order) == Replay(x, map[0 := []], order) == []
    ensures ScanEntries(x, map[], 0) == ScanEntries(x, map[0 := []], 0) == []
    ensures Replay(x, map[0 := []], order + [0]) == []
    ensures Cache([], 0) == map[]
  {
    if order != [] {
      FirstId(order);
      assert false;
    }
    ReplaySnoc(x, map[0 := []], order, 0);
  }

  lemma ImageActive(x: Extend, segs: Segments)
    ensures Image(x, segs) != map[] && |Image(x, segs)| == |segs|
    ensures NewestId(Image(x, segs)) == |segs| - 1
  {
    assert 0 in Image(x, segs);
    assert Image(x, segs).Keys == UpTo(|segs|);
  }

  /** The ids of the table are those from `first` up to `n`. */
  ghost predicate Spans(table: map<nat, StableFile>, first: nat, n: nat)
  {
    first <= n && |table| == n - first && forall fd: nat :: fd in table <==> first <= fd < n
  }

  lemma SpansSize(table: map<nat, StableFile>, first: nat, n: nat)
    requires Spans(table, first, n)
    ensures first + |table| == n
  {
  }

  lemma SpansAdd(table: map<nat, StableFile>, first: nat, n: nat, t: StableFile)
    requires Spans(table, first, n)
    ensures Spans(table[n := t], first, n + 1)
  {
  }

  lemma StableJoin(first: nat, n: nat, a: map<nat, StableFile>, b: map<nat, StableFile>)
    requires a.Keys == UpTo(first) && Spans(b, first, n)
    ensures (b + a).Keys == UpTo(n) && |b + a| == n
  {
    assert (b + a).Keys == UpTo(n);
  }

  /** The stable table: every stream in it is open on the file of its id. */
  ghost predicate StableTable(disk: Disk, table: map<nat, StableFile>, streams: set<FStream>)
    reads streams
  {
    forall fd | fd in table ::
      var f := table[fd].file;
      f in streams && f.disk == disk && f.id == fd && f.isOpen
  }

  /** The active file: open for appending on file `id`. */
  ghost predicate OpenForAppend(disk: Disk, active: ActiveFile, id: nat)
    reads active, active.file
  {
    active.file.disk == disk && active.file.id == id && active.file.isOpen && !active.file.failed
  }

  class BitcaskImpl {
    const x: Extend
    const disk: Disk
    const maxFileSize: nat
    var recordMap: map<Key, Hint>
    var activeMap: map<Key, Value>
    var writes: seq<Write>
    var stableFiles: map<nat, StableFile>
    var activeFile: ActiveFile?
    ghost var segs: Segments
    ghost var streams: set<FStream>

    function GetActiveFD(): (fd: nat)
      reads this`stableFiles
    {
      |stableFiles|
    }

    ghost function ActiveStream(): (s: set<FStream>)
      reads this`activeFile, activeFile
    {
      if activeFile == null then {} else {activeFile.file}
    }

    /** The objects are in place: an open stream per stable file, ids 0 to n-1, and the active file n. */
    ghost predicate Wired()
      reads this`activeFile, this`streams, this`stableFiles, disk, activeFile, ActiveStream(), streams
    {
      && activeFile != null
      && OpenForAppend(disk, activeFile, |stableFiles|)
      && activeFile.file !in streams
      && StableTable(disk, stableFiles, streams)
      && stableFiles.Keys == UpTo(|stableFiles|)
      && disk.files.Keys == UpTo(|stableFiles| + 1)
    }

    ghost function CurrentView(): (v: View)
      reads this`stableFiles, this`recordMap, this`activeMap, disk
    {
      View(disk.files, stableFiles.Keys, recordMap, activeMap)
    }

    /** The in-memory state and the disk are those of the layout `segs`. */
    ghost predicate Laid()
      reads this`stableFiles, this`recordMap, this`activeMap, this`segs, disk
    {
      CurrentView() == ViewOf(x, segs) && Fits(segs)
    }

    ghost predicate Valid()
      reads this`activeFile, this`streams, this`stableFiles, this`recordMap, this`activeMap, this`segs,
            disk, activeFile, ActiveStream(), streams
    {
      Wired() && Laid()
    }

    /** Everything committed, in order. */
    ghost function Log(): (log: seq<Write>)
      reads this`segs
    {
      Flatten(segs)
    }

    lemma LaidFacts()
      requires Laid()
      ensures disk.files == Image(x, segs) && Fits(segs)
      ensures |stableFiles| == |segs| - 1 && stableFiles.Keys == UpTo(|segs| - 1)
      ensures recordMap == Index(Entries(segs)) && activeMap == Cache(Entries(segs), |segs| - 1)
    {
      hide Image, Entries, Index, Cache, UpTo, Fits;
      assert |stableFiles.Keys| == |stableFiles|;
    }

    lemma WiredFacts()
      requires Wired()
      ensures activeFile != null && OpenForAppend(disk, activeFile, |stableFiles|) && activeFile.file !in streams
      ensures StableTable(disk, stableFiles, streams) && stableFiles.Keys == UpTo(|stableFiles|)
    {
    }

    // ---------------------------------------------------------------- opening

    /** Opens the database. `listing` is the directory as enumerated, in any order; `layout` is what a clean
        shutdown left on the disk. */
    constructor (x: Extend, disk: Disk, maxFileSize: nat, listing: seq<nat>, ghost layout: Segments)
      requires disk.files.Keys == UpTo(|disk.files|)
      requires forall fd | fd in disk.files :: Addressable(x, disk.files[fd], 0)
      requires NoDup(listing) && IdsOf(listing) == disk.files.Keys
      modifies disk
      ensures Wired() && fresh(streams) && fresh(activeFile) && fresh(activeFile.file)
      ensures this.x == x && this.disk == disk && this.maxFileSize == maxFileSize && writes == []
      ensures disk.files == if old(disk.files) == map[] then map[0 := []] else old(disk.files)
      ensures var active := NewestId(old(disk.files));
              CurrentView() == Recover(x, disk.files, Ascending(active), active)
      ensures segs == layout
      ensures disk.files == Image(x, layout) && Fits(layout) ==> Valid()
    {
      hide Recover, Image, UpTo, Fits, Addressable, Wired, Laid, Valid, ViewOf, NoDup, IdsOf, Ascending, NewestId;
      this.x, this.disk, this.maxFileSize := x, disk, maxFileSize;
      recordMap, activeMap, writes, stableFiles, activeFile := map[], map[], [], map[], null;
      segs := layout;
      streams := {};
      new;
      Restore(listing);
    }

    /** The state recovered from the files of a layout is valid. */
    lemma OpenedValid(before: map<nat, seq<byte>>)
      requires Wired() && disk.files == Image(x, segs) && Fits(segs)
      requires disk.files == if before == map[] then map[0 := []] else before
      requires CurrentView() == Recover(x, disk.files, Ascending(NewestId(before)), NewestId(before))
      ensures Valid()
    {
      hide Recover, Image, UpTo, Fits, Wired, ViewOf, Ascending;
      RecoverExact(x, segs);
      ImageActive(x, segs);
    }

    method Restore(listing: seq<nat>)
      requires disk.files.Keys == UpTo(|disk.files|)
      requires forall fd | fd in disk.files :: Addressable(x, disk.files[fd], 0)
      requires NoDup(listing) && IdsOf(listing) == disk.files.Keys
      requires recordMap == map[] && activeMap == map[] && stableFiles == map[] && streams == {}
      modifies this`recordMap, this`activeMap, this`stableFiles, this`activeFile, this`streams, disk
      ensures Wired() && fresh(streams) && fresh(activeFile) && fresh(activeFile.file)
      ensures disk.files == if old(disk.files) == map[] then map[0 := []] else old(disk.files)
      ensures var active := NewestId(old(disk.files));
              CurrentView() == Recover(x, disk.files, Ascending(active), active)
      ensures disk.files == Image(x, segs) && Fits(segs) ==> Valid()
    {
      hide Recover, UpTo, Replay, Addressable, Index, Wired, Laid, Valid, NoDup, IdsOf, Image, Fits;
      AscendingIds(NewestId(disk.files));
      RestoreStableMap(listing);
      RestoreActiveMap(listing, Ascending(NewestId(disk.files)));
      if disk.files == Image(x, segs) && Fits(segs) {
        OpenedValid(old(disk.files));
      }
    }

    /** Collects the files other than the active one, sorts them, oldest first, and replays them. */
    method RestoreStableMap(listing: seq<nat>)
      requires disk.files.Keys == UpTo(|disk.files|)
      requires forall fd | fd in disk.files :: Addressable(x, disk.files[fd], 0)
      requires NoDup(listing) && IdsOf(listing) == disk.files.Keys
      requires recordMap == map[] && stableFiles == map[] && streams == {}
      modifies this`recordMap, this`stableFiles, this`streams
      ensures recordMap == Index(Replay(x, disk.files, Ascending(NewestId(disk.files))))
      ensures stableFiles.Keys == UpTo(NewestId(disk.files)) && |stableFiles| == NewestId(disk.files)
      ensures fresh(streams) && StableTable(disk, stableFiles, streams)
    {
      hide Index, Replay, Addressable, StableTable, Sort, NoDup, UpTo, IdsOf;
      var active := ActiveInDir(listing);
      var entries := CollectStable(listing, active);
      StableListing(disk.files, listing, active, entries);
      SortIsOldestFirst(entries, active);
      AscendingIds(active);
      OrderOnDisk(disk.files, Sort(ById, entries));
      ReplayInOrder(Sort(ById, entries));
    }

    /** Replays stable files in the given order and keeps a stream on each. */
    method ReplayInOrder(order: seq<nat>)
      requires NoDup(order)
      requires forall fd | fd in order :: fd in disk.files && Addressable(x, disk.files[fd], 0)
      requires recordMap == map[] && stableFiles == map[] && streams == {}
      modifies this`recordMap, this`stableFiles, this`streams
      ensures recordMap == Index(Replay(x, disk.files, order))
      ensures stableFiles.Keys == IdsOf(order) && |stableFiles| == |order|
      ensures fresh(streams) && StableTable(disk, stableFiles, streams)
    {
      hide Index, Addressable, StableTable, IdsOf, NoDup, Replay;
      NothingYet(x, disk.files, order);
      TableEmpty(disk);
      var i := 0;
      while i < |order|
        invariant i <= |order|
        invariant recordMap == Index(Replay(x, disk.files, order[..i]))
        invariant stableFiles.Keys == IdsOf(order[..i]) && |stableFiles| == i
        invariant fresh(streams) && StableTable(disk, stableFiles, streams)
      {
        IdsSnoc(order, i);
        PrefixSnoc(order, i);
        RestoreStable(order[i], order[..i]);
        i := i + 1;
      }
      assert order[..|order|] == order;
    }

    /** Replays one stable file. */
    method RestoreStable(fileID: nat, ghost done: seq<nat>)
      requires fileID in disk.files && Addressable(x, disk.files[fileID], 0)
      requires recordMap == Index(Replay(x, disk.files, done))
      requires StableTable(disk, stableFiles, streams)
      modifies this`recordMap, this`stableFiles, this`streams
      ensures recordMap == Index(Replay(x, disk.files, done + [fileID]))
      ensures stableFiles.Keys == old(stableFiles.Keys) + {fileID}
      ensures fileID !in old(stableFiles) ==> |stableFiles| == old(|stableFiles|) + 1
      ensures fresh(streams - old(streams)) && StableTable(disk, stableFiles, streams)
    {
      hide Index, Scan, Addressable, ScanEntries, StableTable, Replay;
      ReplaySnoc(x, disk.files, done, fileID);
      ScanEntriesOfScan(x, disk.files, fileID);
      var handle, found := StableFile.Restore(x, disk, fileID);
      ReplayStable(fileID, found, Replay(x, disk.files, done));
      AddStable(fileID, handle);
    }

    /** Enters an open stream into the table. */
    method AddStable(fileID: nat, handle: FStream)
      requires handle.disk == disk && handle.id == fileID && handle.isOpen
      requires StableTable(disk, stableFiles, streams)
      modifies this`stableFiles, this`streams
      ensures stableFiles.Keys == old(stableFiles.Keys) + {fileID} && streams == old(streams) + {handle}
      ensures fileID !in old(stableFiles) ==> |stableFiles| == old(|stableFiles|) + 1
      ensures StableTable(disk, stableFiles, streams)
    {
      hide StableTable;
      var stable := new StableFile(handle);
      TableAdd(disk, stableFiles, streams, fileID, stable);
      stableFiles, streams := stableFiles[fileID := stable], streams + {handle};
    }

    /** The callback of a stable scan: each record found moves its key's hint. */
    method ReplayStable(fileID: nat, found: seq<Found>, ghost es: seq<Entry>)
      requires recordMap == Index(es)
      modifies this`recordMap
      ensures recordMap == Index(es + EntriesFound(fileID, found))
    {
      hide Index;
      ghost var fs := EntriesFound(fileID, found);
      assert es + fs[..0] == es;
      var i := 0;
      while i < |found|
        invariant i <= |found|
        invariant recordMap == Index(es + fs[..i])
      {
        PrefixSnoc(fs, i);
        Assoc(es, fs[..i], [fs[i]]);
        IndexSnoc(es + fs[..i], fs[i]);
        recordMap := recordMap[found[i].key := Hint(fileID, found[i].inf.valueOffset, |found[i].value|)];
        i := i + 1;
      }
      assert fs[..|fs|] == fs;
    }

    /** The callback of the active scan: the hint, with the counted file id, and the cache. */
    method ReplayActive(stableCount: nat, found: seq<Found>, ghost es: seq<Entry>)
      requires recordMap == Index(es) && activeMap == map[]
      modifies this`recordMap, this`activeMap
      ensures recordMap == Index(es + EntriesFound(stableCount, found))
      ensures activeMap == Cache(EntriesFound(stableCount, found), stableCount)
    {
      hide Index, Cache;
      CacheNothing(stableCount);
      ghost var fs := EntriesFound(stableCount, found);
      assert es + fs[..0] == es;
      var i := 0;
      while i < |found|
        invariant i <= |found|
        invariant recordMap == Index(es + fs[..i])
        invariant activeMap == Cache(fs[..i], stableCount)
      {
        PrefixSnoc(fs, i);
        Assoc(es, fs[..i], [fs[i]]);
        IndexSnoc(es + fs[..i], fs[i]);
        CacheSnoc(fs[..i], fs[i], stableCount);
        recordMap := recordMap[found[i].key := Hint(stableCount, found[i].inf.valueOffset, |found[i].value|)];
        activeMap := activeMap[found[i].key := found[i].value];
        i := i + 1;
      }
      assert fs[..|fs|] == fs;
    }

    /** Replays the active file and reopens it for appending, or creates file 0 in an empty directory. */
    method RestoreActiveMap(listing: seq<nat>, ghost order: seq<nat>)
      requires disk.files.Keys == UpTo(|disk.files|)
      requires forall fd | fd in disk.files :: Addressable(x, disk.files[fd], 0)
      requires NoDup(listing) && IdsOf(listing) == disk.files.Keys
      requires recordMap == Index(Replay(x, disk.files, order)) && activeMap == map[]
      requires stableFiles.Keys == UpTo(NewestId(disk.files)) == IdsOf(order)
      requires StableTable(disk, stableFiles, streams)
      modifies this`recordMap, this`activeMap, this`activeFile, disk
      ensures Wired() && fresh(activeFile) && fresh(activeFile.file)
      ensures disk.files == if old(disk.files) == map[] then map[0 := []] else old(disk.files)
      ensures CurrentView() == Recover(x, disk.files, order, NewestId(old(disk.files)))
    {
      hide Index, Cache, Scan, Replay, Addressable, UpTo, ScanEntries, NoDup;
      var activeId := ActiveInDir(listing);
      var stableCount := CountStable(listing, activeId);
      ActiveOfListing(disk.files, listing, activeId, stableCount);
      ReplaySnoc(x, disk.files, order, activeId);
      ScanEntriesOfScan(x, disk.files, activeId);
      assert |stableFiles.Keys| == |stableFiles|;
      if activeId in listing {
        var handle, found := ActiveFile.Restore(x, disk, activeId);
        ReplayActive(stableCount, found, Replay(x, disk.files, order));
        activeFile := new ActiveFile(handle);
      } else {
        EmptyReplay(x, order);
        activeFile := new ActiveFile.Create(disk, activeId);
      }
    }

    // ---------------------------------------------------------------- reading

    method Get(key: Key) returns (r: Option<Value>)
      requires Wired()
      modifies streams
      ensures Wired() && unchanged(this, disk)
      ensures r == Lookup(CurrentView(), key)
      ensures Laid() ==> r == Find(Meaning(Log()), key)
      ensures var p := LastPos(Log(), key);
              Laid() ==> r == if p < 0 || Log()[p].value == TOMBSTONE then None else Some(Log()[p].value)
    {
      hide Find, Meaning, Flatten, ViewOf, Fits, UpTo, LastPos;
      MeaningLast(Log(), key);
      if Laid() {
        LookupRefines(x, segs, key);
      }
      if key !in recordMap {
        return None;
      }
      var record := recordMap[key];
      if record.fd == GetActiveFD() {
        if key in activeMap && activeMap[key] == TOMBSTONE {
          return None;
        }
        return if key in activeMap then Some(activeMap[key]) else None;
      }
      if record.fd !in stableFiles {
        return None;
      }
      var val := stableFiles[record.fd].Read(record.offset, record.size);
      r := if val == TOMBSTONE then None else Some(val);
    }

    // ---------------------------------------------------------------- writing

    method Put(key: Key, value: Value)
      modifies this`writes
      ensures writes == old(writes) + [Write(key, value)]
    {
      writes := writes + [Write(key, value)];
    }

    /** Hands the active file over: closes it, opens it as stable file `fd`, starts file `fd + 1`. */
    method RotateActive(fd: nat) returns (stable: StableFile)
      requires activeFile != null && OpenForAppend(disk, activeFile, fd) && fd in disk.files
      modifies this`activeFile, disk, activeFile, activeFile.file
      ensures disk.files == old(disk.files)[fd + 1 := []]
      ensures activeFile != null && fresh(activeFile) && fresh(activeFile.file)
      ensures OpenForAppend(disk, activeFile, fd + 1)
      ensures fresh(stable.file) && stable.file != activeFile.file
      ensures stable.file.disk == disk && stable.file.id == fd && stable.file.isOpen
    {
      var closed := activeFile.Rotate();
      var handler := new FStream.Open(disk, fd);
      stable := new StableFile(handler);
      activeFile := new ActiveFile.Create(disk, fd + 1);
    }

    /** One turn of the first loop of the commit: append the record to file `fd`, and rotate when the
        value starts at or past the size limit. */
    method AppendWrite(w: Write, fd: nat) returns (hint: Hint, rotated: StableFile?)
      requires activeFile != null && OpenForAppend(disk, activeFile, fd) && fd in disk.files
      modifies this`activeFile, disk, activeFile, activeFile.file
      ensures var data := old(disk.files)[fd];
              var files := old(disk.files)[fd := data + Encode(x, w)];
              && hint == Hint(fd, Low32(|data| + HEADER + |w.key|), Low32(|w.value|))
              && (rotated == null <==> hint.offset < maxFileSize)
              && disk.files == if rotated == null then files else files[fd + 1 := []]
      ensures activeFile != null && OpenForAppend(disk, activeFile, if rotated == null then fd else fd + 1)
      ensures rotated == null ==> activeFile == old(activeFile) && activeFile.file == old(activeFile.file)
      ensures rotated != null ==>
                && fresh(activeFile) && fresh(activeFile.file) && fresh(rotated.file)
                && rotated.file != activeFile.file
                && rotated.file.disk == disk && rotated.file.id == fd && rotated.file.isOpen
    {
      hide Encode, Low32;
      var valueOffset := activeFile.Write(x, w.key, w.value);
      hint, rotated := Hint(fd, valueOffset, Low32(|w.value|)), null;
      if valueOffset < maxFileSize {
        return;
      }
      rotated := RotateActive(fd);
    }

    /** The invariant of the first loop: after the writes `done`, file `n` is active and the files from
        `first` up to `n` are in the new table. */
    ghost predicate BatchOpen(base: Segments, done: seq<Write>, records: seq<Hint>, newStable: map<nat, StableFile>,
                              lastActive: nat, n: nat, made: set<FStream>)
      reads this`activeFile, disk, activeFile, ActiveStream(), made
    {
      && BatchState(x, base, done, maxFileSize, disk.files, n, records, lastActive)
      && Spans(newStable, |base| - 1, n)
      && activeFile != null && OpenForAppend(disk, activeFile, n)
      && activeFile.file !in made && StableTable(disk, newStable, made)
    }

    lemma BatchOpens(ws: seq<Write>)
      requires Valid()
      ensures BatchOpen(segs, ws[..0], [], map[], 0, |stableFiles|, {})
    {
      hide Fits, PlaceAll, BatchState, ViewOf, UpTo, Image, OpenForAppend;
      LaidFacts();
      BatchStart(x, segs, ws, maxFileSize);
    }

    lemma BatchOpenFacts(base: Segments, done: seq<Write>, records: seq<Hint>, newStable: map<nat, StableFile>,
                         lastActive: nat, n: nat, made: set<FStream>)
      requires BatchOpen(base, done, records, newStable, lastActive, n, made)
      ensures BatchState(x, base, done, maxFileSize, disk.files, n, records, lastActive)
      ensures Spans(newStable, |base| - 1, n) && |base| - 1 + |newStable| == n
      ensures activeFile != null && OpenForAppend(disk, activeFile, n)
      ensures activeFile.file !in made && StableTable(disk, newStable, made)
      ensures n in disk.files && disk.files.Keys == UpTo(n + 1)
    {
      hide BatchState, OpenForAppend, StableTable, UpTo, Spans;
      BatchMember(x, base, done, maxFileSize, disk.files, n, records, lastActive);
      SpansSize(newStable, |base| - 1, n);
    }

    lemma BatchOpenFrom(base: Segments, done: seq<Write>, records: seq<Hint>, newStable: map<nat, StableFile>,
                        lastActive: nat, n: nat, made: set<FStream>)
      requires BatchState(x, base, done, maxFileSize, disk.files, n, records, lastActive)
      requires Spans(newStable, |base| - 1, n)
      requires activeFile != null && OpenForAppend(disk, activeFile, n)
      requires activeFile.file !in made && StableTable(disk, newStable, made)
      ensures BatchOpen(base, done, records, newStable, lastActive, n, made)
    {
      hide BatchState, OpenForAppend, StableTable, Spans;
    }

    /** One turn of the first loop. */
    method AppendTurn(ws: seq<Write>, idx: nat, records: seq<Hint>, newStable: map<nat, StableFile>, lastActive: nat,
                      ghost base: Segments, ghost n: nat, ghost made: set<FStream>)
      returns (records': seq<Hint>, newStable': map<nat, StableFile>, lastActive': nat,
               ghost n': nat, ghost made': set<FStream>)
      requires idx < |ws| && Fits(PlaceAll(base, ws, maxFileSize))
      requires BatchOpen(base, ws[..idx], records, newStable, lastActive, n, made)
      requires |stableFiles| == |base| - 1
      modifies this`activeFile, disk, activeFile, ActiveStream()
      ensures BatchOpen(base, ws[..idx + 1], records', newStable', lastActive', n', made')
      ensures activeFile == old(activeFile) || fresh(activeFile)
      ensures fresh(ActiveStream() - old(ActiveStream())) && fresh(made' - made)
    {
      hide BatchOpen, Fits, PlaceAll, BatchState, UpTo, Encode, StableTable, OpenForAppend, Low32, Spans;
      BatchOpenFacts(base, ws[..idx], records, newStable, lastActive, n, made);
      var fd := GetActiveFD() + |newStable|;
      assert fd == n;
      ghost var files := disk.files;
      var hint, rotated := AppendWrite(ws[idx], fd);
      records', newStable', lastActive', n', made' := records + [hint], newStable, lastActive, n, made;
      if rotated != null {
        TableAdd(disk, newStable, made, n, rotated);
        SpansAdd(newStable, |base| - 1, n, rotated);
        newStable', lastActive' := newStable[fd := rotated], idx + 1;
        n', made' := n + 1, made + {rotated.file};
      }
      BatchTurn(x, base, ws, idx, maxFileSize, files, n, records, lastActive, hint, disk.files, n', lastActive');
      BatchOpenFrom(base, ws[..idx + 1], records', newStable', lastActive', n', made');
    }

    /** The first loop of the commit: append, record the hint, rotate. `newStable` and `lastActive`
        are the local variables the publication needs. */
    method AppendBatch(ws: seq<Write>)
      returns (records: seq<Hint>, newStable: map<nat, StableFile>, lastActive: nat,
               ghost n: nat, ghost made: set<FStream>)
      requires Valid()
      requires Fits(PlaceAll(segs, ws, maxFileSize))
      modifies this`activeFile, disk, activeFile, ActiveStream()
      ensures BatchOpen(segs, ws, records, newStable, lastActive, n, made)
      ensures activeFile == old(activeFile) || fresh(activeFile)
      ensures fresh(ActiveStream() - old(ActiveStream())) && fresh(made)
    {
      hide Fits, PlaceAll, Wired, Laid, BatchOpen;
      LaidFacts();
      BatchOpens(ws);
      records, newStable, lastActive, n, made := [], map[], 0, |stableFiles|, {};
      var idx := 0;
      while idx < |ws|
        invariant idx <= |ws|
        invariant BatchOpen(segs, ws[..idx], records, newStable, lastActive, n, made)
        invariant activeFile == old(activeFile) || fresh(activeFile)
        invariant fresh(ActiveStream() - old(ActiveStream())) && fresh(made)
      {
        records, newStable, lastActive, n, made := AppendTurn(ws, idx, records, newStable, lastActive, segs, n, made);
        idx := idx + 1;
      }
      assert ws[..idx] == ws;
    }

    /** Commits a batch: all files are written first, then stable table, cache and index are brought up
        to date. However the rotations fall, the result is that of committing the writes one at a time. */
    method CommitWrite(ws: seq<Write>)
      requires Valid()
      requires Fits(PlaceAll(segs, ws, maxFileSize))
      modifies this, disk, activeFile, ActiveStream()
      ensures Valid() && fresh(streams - old(streams))
      ensures (activeFile == old(activeFile) || fresh(activeFile)) && fresh(ActiveStream() - old(ActiveStream()))
      ensures segs == PlaceAll(old(segs), ws, maxFileSize)
      ensures CurrentView() == CommitAll(x, old(CurrentView()), ws, maxFileSize)
      ensures Log() == old(Log()) + ws
      ensures writes == old(writes)
    {
      hide PlaceAll, Fits, Flatten, CommitAll, BatchOpen, ViewOf, StableTable, OpenForAppend, UpTo, Wired, Laid;
      LaidFacts();
      LaidView();
      WiredFacts();
      CommitAllIsPlaceAll(x, segs, ws, maxFileSize);
      FlattenPlaceAll(segs, ws, maxFileSize);
      var records, newStable, lastActive;
      ghost var n, made;
      records, newStable, lastActive, n, made := AppendBatch(ws);
      PublishBatch(ws, records, newStable, lastActive, n, made);
      LaidView();
    }

    /** Publication: the new stable files, then the cache and the index. */
    method PublishBatch(ws: seq<Write>, records: seq<Hint>, newStable: map<nat, StableFile>, lastActive: nat,
                        ghost n: nat, ghost made: set<FStream>)
      requires BatchOpen(segs, ws, records, newStable, lastActive, n, made)
      requires ActiveStream() !! streams && StableTable(disk, stableFiles, streams)
      requires stableFiles.Keys == UpTo(|segs| - 1)
      requires recordMap == Index(Entries(segs)) && activeMap == Cache(Entries(segs), |segs| - 1)
      requires Fits(PlaceAll(segs, ws, maxFileSize))
      modifies this`stableFiles, this`streams, this`recordMap, this`activeMap, this`segs
      ensures Valid() && streams == old(streams) + made && segs == PlaceAll(old(segs), ws, maxFileSize)
    {
      hide BatchOpen, PlaceAll, Fits, BatchState, StableTable, OpenForAppend, UpTo, Wired, Laid, Spans, Index, Cache,
           Entries;
      BatchOpenFacts(segs, ws, records, newStable, lastActive, n, made);
      InsertStable(newStable, |segs| - 1, n, made);
      PublishMaps(ws, records, |newStable| > 0, lastActive, n);
    }

    lemma LaidView()
      requires Laid()
      ensures CurrentView() == ViewOf(x, segs)
    {
      hide ViewOf;
    }

    /** The first publication step: the new stable files enter the table. */
    method InsertStable(newStable: map<nat, StableFile>, ghost first: nat, ghost n: nat, ghost made: set<FStream>)
      requires activeFile != null && OpenForAppend(disk, activeFile, n)
      requires activeFile.file !in streams && activeFile.file !in made
      requires StableTable(disk, stableFiles, streams) && StableTable(disk, newStable, made)
      requires stableFiles.Keys == UpTo(first) && Spans(newStable, first, n) && disk.files.Keys == UpTo(n + 1)
      modifies this`stableFiles, this`streams
      ensures Wired() && stableFiles.Keys == UpTo(n) && streams == old(streams) + made
    {
      hide OpenForAppend, StableTable, Spans, UpTo;
      TableJoin(disk, stableFiles, streams, newStable, made);
      StableJoin(first, n, stableFiles, newStable);
      stableFiles, streams := newStable + stableFiles, streams + made;
    }

    /** The other publication steps: the cache, emptied if there was a rotation, and the index. */
    method PublishMaps(ws: seq<Write>, records: seq<Hint>, rotated: bool, lastActive: nat, ghost n: nat)
      requires BatchState(x, segs, ws, maxFileSize, disk.files, n, records, lastActive)
      requires recordMap == Index(Entries(segs)) && activeMap == Cache(Entries(segs), |segs| - 1)
      requires stableFiles.Keys == UpTo(n) && (rotated <==> |segs| - 1 < n)
      requires Fits(PlaceAll(segs, ws, maxFileSize))
      requires Wired()
      modifies this`recordMap, this`activeMap, this`segs
      ensures Wired()
      ensures segs == PlaceAll(old(segs), ws, maxFileSize) && Laid()
    {
      hide PlaceAll, Image, Entries, Index, Cache, UpTo, PublicationData, BatchState, Fits;
      ghost var next := PlaceAll(segs, ws, maxFileSize);
      ghost var es := Entries(next);
      BatchDone(x, segs, ws, maxFileSize, disk.files, n, records, lastActive);
      CacheBeforePublication(segs, ws, maxFileSize);
      if rotated {
        activeMap := map[];
      }
      Publish(ws, records, lastActive, es, n);
      segs := next;
    }

    /** The second loop of the commit: cache, then index, write by write. */
    method Publish(ws: seq<Write>, records: seq<Hint>, lastActive: nat, ghost es: seq<Entry>, ghost active: nat)
      requires PublicationData(es, ws, records, lastActive, active)
      requires recordMap == Index(es[..|es| - |ws|]) && activeMap == Cache(es[..|es| - |ws|], active)
      modifies this`recordMap, this`activeMap
      ensures recordMap == Index(es) && activeMap == Cache(es, active)
    {
      hide Index, Cache;
      ghost var base := |es| - |ws|;
      var i := 0;
      while i < |ws|
        invariant i <= |ws|
        invariant recordMap == Index(es[..base + i])
        invariant activeMap == Cache(es[..base + i], active)
      {
        PublishStep(es, base + i, active);
        var w := ws[i];
        if i >= lastActive {
          activeMap := activeMap[w.key := w.value];
        }
        recordMap := recordMap[w.key := records[i]];
        i := i + 1;
      }
      assert es[..base + |ws|] == es;
    }

    /** One pass of the commit worker: takes the whole queue and commits it. */
    method CommitPending()
      requires Valid()
      requires Fits(PlaceAll(segs, writes, maxFileSize))
      modifies this, disk, activeFile, ActiveStream()
      ensures Valid() && fresh(streams - old(streams))
      ensures (activeFile == old(activeFile) || fresh(activeFile)) && fresh(ActiveStream() - old(ActiveStream()))
      ensures writes == []
      ensures segs == PlaceAll(old(segs), old(writes), maxFileSize)
      ensures Log() == old(Log()) + old(writes)
    {
      hide Wired, Laid, PlaceAll, Fits, Flatten;
      var batch := writes;
      writes := [];
      CommitWrite(batch);
    }

    /** The commit worker until shutdown: `arrivals[i]` is what callers enqueue during pass `i`, and after the pass
        that follows the last of them it stops. However the arrivals fall into batches, the result is that
        of committing all of them in the order of their arrival. */
    method CommitWorker(arrivals: seq<seq<Write>>)
      requires Valid()
      requires Fits(PlaceAll(segs, writes + Flatten(arrivals), maxFileSize))
      modifies this, disk, activeFile, ActiveStream()
      ensures Valid() && fresh(streams - old(streams))
      ensures (activeFile == old(activeFile) || fresh(activeFile)) && fresh(ActiveStream() - old(ActiveStream()))
      ensures writes == []
      ensures segs == PlaceAll(old(segs), old(writes) + Flatten(arrivals), maxFileSize)
      ensures CurrentView() == CommitAll(x, old(CurrentView()), old(writes) + Flatten(arrivals), maxFileSize)
      ensures Log() == old(Log()) + (old(writes) + Flatten(arrivals))
    {
      hide Wired, Laid, PlaceAll, Fits, Flatten, ViewOf, CommitAll;
      LaidView();
      CommitAllIsPlaceAll(x, segs, writes + Flatten(arrivals), maxFileSize);
      ghost var target := PlaceAll(segs, writes + Flatten(arrivals), maxFileSize);
      FlattenPlaceAll(segs, writes + Flatten(arrivals), maxFileSize);
      assert arrivals[0..] == arrivals;
      var i := 0;
      while true
        invariant i <= |arrivals|
        invariant Valid() && fresh(streams - old(streams))
        invariant (activeFile == old(activeFile) || fresh(activeFile)) && fresh(ActiveStream() - old(ActiveStream()))
        invariant PlaceAll(segs, writes + Flatten(arrivals[i..]), maxFileSize) == target
        decreases |arrivals| - i
      {
        PlaceAllConcat(segs, writes, Flatten(arrivals[i..]), maxFileSize);
        FitsStart(PlaceAll(segs, writes, maxFileSize), Flatten(arrivals[i..]), maxFileSize);
        CommitPending();
        if i == |arrivals| {
          break;
        }
        FlattenFront(arrivals[i..]);
        assert arrivals[i..][1..] == arrivals[i + 1..];
        assert writes + arrivals[i] == arrivals[i];
        writes := writes + arrivals[i];
        i := i + 1;
      }
      NoArrivals(segs, arrivals, maxFileSize);
      LaidView();
    }

    /** Fails on a key without a committed record; otherwise queues a tombstone and waits for the worker. */
    method Delete(key: Key) returns (found: bool)
      requires Valid()
      requires Fits(PlaceAll(segs, writes + [Write(key, TOMBSTONE)], maxFileSize))
      modifies this, disk, activeFile, ActiveStream()
      ensures Valid() && fresh(streams - old(streams))
      ensures (activeFile == old(activeFile) || fresh(activeFile)) && fresh(ActiveStream() - old(ActiveStream()))
      ensures found <==> LastPos(old(Log()), key) >= 0
      ensures !found ==> unchanged(this, disk)
      ensures found ==> writes == [] && Log() == old(Log()) + old(writes) + [Write(key, TOMBSTONE)]
      ensures found ==> key !in Meaning(Log())
    {
      hide Wired, Laid, PlaceAll, Fits, Flatten, Index, Entries, Cache, Meaning, LastPos, UpTo, ViewOf, Image;
      LaidFacts();
      WritesOfEntries(segs);
      IndexAt(Entries(segs), key);
      if key !in recordMap {
        return false;
      }
      ghost var before, queue := Log(), writes;
      writes := writes + [Write(key, TOMBSTONE)];
      CommitPending();
      Assoc(before, queue, [Write(key, TOMBSTONE)]);
      LastTombstone(before + queue, key);
      found := true;
    }
  }

  lemma NoArrivals(segs: Segments, arrivals: seq<seq<Write>>, maxSize: nat)
    ensures PlaceAll(segs, Flatten(arrivals[|arrivals|..]), maxSize) == segs
  {
  }

  lemma LastTombstone(log: seq<Write>, key: Key)
    ensures key !in Meaning(log + [Write(key, TOMBSTONE)])
  {
    assert (log + [Write(key, TOMBSTONE)])[..|log|] == log;
  }

  lemma CacheNothing(active: nat)
    ensures Cache([], active) == map[]
  {
  }

  lemma ScanEntriesOfScan(x: Extend, files: map<nat, seq<byte>>, fd: nat)
    ensures fd in files ==> ScanEntries(x, files, fd) == EntriesFound(fd, Scan(x, files[fd]))
  {
    hide Scan;
  }

  lemma OrderOnDisk(files: map<nat, seq<byte>>, order: seq<nat>)
    requires files.Keys == UpTo(|files|) && IdsOf(order) == UpTo(NewestId(files))
    ensures forall fd | fd in order :: fd in files
  {
    forall fd | fd in order ensures fd in files {
      assert fd in IdsOf(order);
    }
  }

  lemma TableEmpty(disk: Disk)
    ensures StableTable(disk, map[], {})
  {
  }

  lemma TableAdd(disk: Disk, table: map<nat, StableFile>, streams: set<FStream>, fd: nat, s: StableFile)
    requires StableTable(disk, table, streams)
    requires s.file.disk == disk && s.file.id == fd && s.file.isOpen
    ensures StableTable(disk, table[fd := s], streams + {s.file})
  {
  }

  lemma IdsSnoc(order: seq<nat>, i: nat)
    requires i < |order| && NoDup(order)
    ensures IdsOf(order[..i + 1]) == IdsOf(order[..i]) + {order[i]}
    ensures order[i] !in IdsOf(order[..i])
  {
    PrefixSnoc(order, i);
  }

  lemma TableJoin(disk: Disk, a: map<nat, StableFile>, s: set<FStream>, b: map<nat, StableFile>, t: set<FStream>)
    requires StableTable(disk, a, s) && StableTable(disk, b, t)
    ensures StableTable(disk, b + a, s + t)
  {
  }

  /** The state of the first loop after the writes `done`: files of the layout placed so far, one new
      stable id per rotation, and the data for publication. */
  ghost predicate BatchState(x: Extend, base: Segments, done: seq<Write>, maxSize: nat, files: map<nat, seq<byte>>,
                             n: nat, records: seq<Hint>, lastActive: nat)
  {
    var cur := PlaceAll(base, done, maxSize);
    && files == Image(x, cur)
    && n == |cur| - 1
    && PublicationData(Entries(cur), done, records, lastActive, n)
  }

  lemma BatchStart(x: Extend, base: Segments, ws: seq<Write>, maxSize: nat)
    ensures BatchState(x, base, ws[..0], maxSize, Image(x, base), |base| - 1, [], 0)
  {
    PlaceNothing(base, ws, maxSize);
  }

  lemma BatchMember(x: Extend, base: Segments, done: seq<Write>, maxSize: nat, files: map<nat, seq<byte>>,
                    n: nat, records: seq<Hint>, lastActive: nat)
    requires BatchState(x, base, done, maxSize, files, n, records, lastActive)
    ensures n in files && files.Keys == UpTo(n + 1)
  {
    hide PlaceAll, PublicationData, UpTo, Image;
  }

  /** One turn of the first loop, without and with rotation. */
  lemma BatchTurn(x: Extend, base: Segments, ws: seq<Write>, i: nat, maxSize: nat, files: map<nat, seq<byte>>,
                  n: nat, records: seq<Hint>, lastActive: nat, hint: Hint,
                  files': map<nat, seq<byte>>, n': nat, lastActive': nat)
    requires i < |ws| && Fits(PlaceAll(base, ws, maxSize))
    requires BatchState(x, base, ws[..i], maxSize, files, n, records, lastActive) && n in files
    requires hint == Hint(n, Low32(|files[n]| + HEADER + |ws[i].key|), Low32(|ws[i].value|))
    requires var written := files[n := files[n] + Encode(x, ws[i])];
             if hint.offset < maxSize then files' == written && n' == n && lastActive' == lastActive
             else files' == written[n + 1 := []] && n' == n + 1 && lastActive' == i + 1
    ensures BatchState(x, base, ws[..i + 1], maxSize, files', n', records + [hint], lastActive')
  {
    hide Fits, PlaceAll, Image, Entries, Encode, EncodeAll, PublicationData, Low32;
    var cur, w := PlaceAll(base, ws[..i], maxSize), ws[i];
    AppendStep(x, base, ws, i, maxSize);
    PrefixSnoc(ws, i);
    RecordStep(Entries(cur), ws[..i], records, lastActive, n, w, hint);
    RecordRotation(Entries(cur) + [Entry(w, hint)], ws[..i + 1], records + [hint], lastActive, n);
  }

  lemma BatchDone(x: Extend, base: Segments, ws: seq<Write>, maxSize: nat, files: map<nat, seq<byte>>,
                  n: nat, records: seq<Hint>, lastActive: nat)
    requires BatchState(x, base, ws, maxSize, files, n, records, lastActive)
    ensures var next := PlaceAll(base, ws, maxSize);
            var es := Entries(next);
            && files == Image(x, next) && n == |next| - 1
            && |ws| <= |es| && es[..|es| - |ws|] == Entries(base)
            && PublicationData(es, ws, records, lastActive, n)
  {
    hide PlaceAll, Image, Entries, PublicationData;
    EntriesPlaceAll(base, ws, maxSize);
  }
}
