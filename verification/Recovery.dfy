/**
 Rebuilding the index and the cache from the bytes of the files, after a clean shutdown and after a
 crash that cut the newest file.
 */
module Recovery {
  import opened Bytes
  import opened Codec
  import opened Layout

  /** The index updates one scanned file causes. */
  function EntriesFound(fd: nat, fs: seq<Found>): (es: seq<Entry>)
    ensures |es| == |fs|
    ensures forall i | 0 <= i < |fs| ::
              es[i] == Entry(Write(fs[i].key, fs[i].value), Hint(fd, fs[i].inf.valueOffset, |fs[i].value|))
  {
    seq(|fs|, i requires 0 <= i < |fs| =>
      Entry(Write(fs[i].key, fs[i].value), Hint(fd, fs[i].inf.valueOffset, |fs[i].value|)))
  }

  function ScanEntries(x: Extend, files: map<nat, seq<byte>>, fd: nat): (es: seq<Entry>)
  {
    EntriesFound(fd, Scan(x, if fd in files then files[fd] else []))
  }

  /** The index updates of a whole replay, file after file in the given order. */
  function Replay(x: Extend, files: map<nat, seq<byte>>, order: seq<nat>): (es: seq<Entry>)
  {
    if order == [] then [] else
    Replay(x, files, order[..|order| - 1]) + ScanEntries(x, files, order[|order| - 1])
  }

  function Ascending(n: nat): (order: seq<nat>)
    ensures |order| == n
    ensures forall i | 0 <= i < n :: order[i] == i
  {
    seq(n, i => i)
  }

  function IdsOf(order: seq<nat>): (s: set<nat>)
  {
    set fd | fd in order
  }

  ghost predicate NoDup(s: seq<nat>)
  {
    forall i, j | 0 <= i < j < |s| :: s[i] != s[j]
  }

  lemma {:induction false} NoDupSize(s: seq<nat>)
    requires NoDup(s)
    ensures |IdsOf(s)| == |s|
  {
    if s == [] {
      assert IdsOf(s) == {};
    } else {
      var last := |s| - 1;
      NoDupSize(s[..last]);
      assert IdsOf(s) == IdsOf(s[..last]) + {s[last]};
    }
  }

  /** The state after opening: stable files are replayed in the given order, then the active file. */
  function Recover(x: Extend, files: map<nat, seq<byte>>, order: seq<nat>, active: nat): (v: View)
  {
    View(files, IdsOf(order),
         Index(Replay(x, files, order + [active])),
         Cache(ScanEntries(x, files, active), active))
  }

  lemma {:induction false} FoundsAt(ws: seq<Write>, i: nat)
    requires i < |ws|
    ensures Founds(ws)[i] == FoundAt(Size(ws[..i]), ws[i])
  {
    var last := |ws| - 1;
    if i < last {
      FoundsAt(ws[..last], i);
      assert ws[..last][..i] == ws[..i];
    }
  }

  /** The reported positions of a log's records are the hints the writer produced. */
  lemma EntriesOfFounds(fd: nat, ws: seq<Write>)
    requires AllSized(ws) && OffsetsFit(ws)
    ensures EntriesFound(fd, Founds(ws)) == SegEntries(fd, ws)
  {
    hide Founds, SegEntries, Size;
    forall i | 0 <= i < |ws| ensures EntriesFound(fd, Founds(ws))[i] == SegEntries(fd, ws)[i] {
      FoundsAt(ws, i);
      SegEntryAt(fd, ws, i);
      assert ValueOffset(ws[..i], ws[i]) < WORD_LIMIT;
    }
  }

  lemma ScanEntriesOfLog(x: Extend, files: map<nat, seq<byte>>, fd: nat, ws: seq<Write>)
    requires AllSized(ws) && OffsetsFit(ws)
    requires fd in files && files[fd] == EncodeAll(x, ws)
    ensures ScanEntries(x, files, fd) == SegEntries(fd, ws)
  {
    hide EncodeAll, Scan, Founds, SegEntries;
    ScanRoundTrip(x, ws);
    EntriesOfFounds(fd, ws);
  }

  lemma ReplaySnoc(x: Extend, files: map<nat, seq<byte>>, order: seq<nat>, fd: nat)
    ensures Replay(x, files, order + [fd]) == Replay(x, files, order) + ScanEntries(x, files, fd)
  {
    assert (order + [fd])[..|order|] == order;
  }

  lemma AscendingSnoc(n: nat)
    ensures Ascending(n + 1) == Ascending(n) + [n]
  {
  }

  /** Replaying, oldest first, files whose scans are the logs of a layout gives the entries of the layout. */
  lemma {:induction false} ReplayScans(x: Extend, files: map<nat, seq<byte>>, segs: Segments, n: nat)
    requires n <= |segs|
    requires forall fd: nat | fd < n :: ScanEntries(x, files, fd) == SegEntries(fd, segs[fd])
    ensures Replay(x, files, Ascending(n)) == Entries(segs[..n])
  {
    hide ScanEntries, SegEntries;
    if n == 0 {
      assert segs[..0] == [];
    } else {
      ReplayScans(x, files, segs, n - 1);
      AscendingSnoc(n - 1);
      ReplaySnoc(x, files, Ascending(n - 1), n - 1);
      assert segs[..n][..n - 1] == segs[..n - 1];
    }
  }

  /** Replaying whole files oldest first gives back the entries of the layout. */
  lemma ReplayAscending(x: Extend, files: map<nat, seq<byte>>, segs: Segments, n: nat)
    requires n <= |segs| && Fits(segs)
    requires forall fd: nat | fd < n :: fd in files && files[fd] == EncodeAll(x, segs[fd])
    ensures Replay(x, files, Ascending(n)) == Entries(segs[..n])
  {
    hide EncodeAll, ScanEntries, SegEntries, Fits, Replay, Entries;
    forall fd: nat | fd < n ensures ScanEntries(x, files, fd) == SegEntries(fd, segs[fd]) {
      FitsSeg(segs, fd);
      ScanEntriesOfLog(x, files, fd, segs[fd]);
    }
    ReplayScans(x, files, segs, n);
  }

  /** The state recovered from files whose scans are the logs of a layout. */
  lemma RecoverScans(x: Extend, files: map<nat, seq<byte>>, segs: Segments)
    requires forall fd: nat | fd < |segs| :: ScanEntries(x, files, fd) == SegEntries(fd, segs[fd])
    ensures var n := |segs| - 1;
            Recover(x, files, Ascending(n), n) == View(files, UpTo(n), Index(Entries(segs)), Cache(Entries(segs), n))
  {
    hide ScanEntries, SegEntries, Replay, Index, Cache, Entries, Ascending, IdsOf;
    var n := |segs| - 1;
    AscendingIds(n);
    ReplayScans(x, files, segs, n);
    ReplaySnoc(x, files, Ascending(n), n);
    EntriesLast(segs);
  }

  lemma {:induction false} CacheSkips(a: seq<Entry>, b: seq<Entry>, active: nat)
    requires Ordered(a, active)
    ensures Cache(a + b, active) == Cache(b, active)
  {
    if b != [] {
      assert (a + b)[..|a + b| - 1] == a + b[..|b| - 1];
      CacheSkips(a, b[..|b| - 1], active);
    } else {
      assert a + b == a;
      CacheNone(a, active);
    }
  }

  lemma {:induction false} CacheNone(es: seq<Entry>, active: nat)
    requires Ordered(es, active)
    ensures Cache(es, active) == map[]
  {
    if es != [] {
      CacheNone(es[..|es| - 1], active);
    }
  }

  lemma AscendingIds(n: nat)
    ensures IdsOf(Ascending(n)) == UpTo(n) && NoDup(Ascending(n))
  {
    forall fd: nat ensures fd in IdsOf(Ascending(n)) <==> fd in UpTo(n) {
      if fd < n {
        assert Ascending(n)[fd] == fd;
      }
    }
  }

  /** The replay of a disk whose stable files are whole, whatever the active file yields. */
  lemma RecoverParts(x: Extend, files: map<nat, seq<byte>>, segs: Segments, es: seq<Entry>)
    requires Fits(segs)
    requires forall fd: nat | fd < |segs| - 1 :: fd in files && files[fd] == EncodeAll(x, segs[fd])
    requires ScanEntries(x, files, |segs| - 1) == es
    ensures var n := |segs| - 1;
            Recover(x, files, Ascending(n), n) ==
            View(files, UpTo(n), Index(Entries(segs[..n]) + es), Cache(es, n))
  {
    hide EncodeAll, ScanEntries, Index, Cache, Entries, Fits, Replay, Ascending, IdsOf;
    var n := |segs| - 1;
    AscendingIds(n);
    ReplayAscending(x, files, segs, n);
    ReplaySnoc(x, files, Ascending(n), n);
  }

  lemma EntriesLast(segs: Segments)
    ensures var n := |segs| - 1;
            && Entries(segs) == Entries(segs[..n]) + SegEntries(n, segs[n])
            && Cache(Entries(segs), n) == Cache(SegEntries(n, segs[n]), n)
  {
    var n := |segs| - 1;
    EntriesOrdered(segs[..n]);
    CacheSkips(Entries(segs[..n]), SegEntries(n, segs[n]), n);
  }

  /** Recovery equivalence: opening the files of a layout rebuilds exactly the live state, hint for
      hint and cache entry for cache entry. */
  lemma RecoverExact(x: Extend, segs: Segments)
    requires Fits(segs)
    ensures Recover(x, Image(x, segs), Ascending(|segs| - 1), |segs| - 1) == ViewOf(x, segs)
  {
    hide EncodeAll, ScanEntries, Index, Cache, SegEntries, Entries, Fits;
    var n := |segs| - 1;
    FitsSeg(segs, n);
    ScanEntriesOfLog(x, Image(x, segs), n, segs[n]);
    RecoverParts(x, Image(x, segs), segs, SegEntries(n, segs[n]));
    EntriesLast(segs);
  }

  // ---------------------------------------------------------------- crashes

  /** The files after a crash that left the older files whole and cut the newest one. */
  function CutFiles(x: Extend, segs: Segments, cut: nat): (files: map<nat, seq<byte>>)
    requires cut <= Size(segs[|segs| - 1])
  {
    var n := |segs| - 1;
    Image(x, segs)[n := EncodeAll(x, segs[n])[..cut]]
  }

  /** The layout of the records that survive the cut whole. */
  function Surviving(segs: Segments, cut: nat): (s: Segments)
    requires cut <= Size(segs[|segs| - 1])
  {
    var n := |segs| - 1;
    segs[n := segs[n][..WholeWithin(segs[n], cut)]]
  }

  /** The record cut in two passes its check all the same. */
  ghost predicate CutCollides(x: Extend, segs: Segments, cut: nat)
    requires cut <= Size(segs[|segs| - 1])
  {
    var ws := segs[|segs| - 1];
    var kept := WholeWithin(ws, cut);
    kept < |ws| && TornCollision(x, ws[kept], cut - Size(ws[..kept]))
  }

  lemma FitsPrefix(ws: seq<Write>, n: nat)
    requires AllSized(ws) && OffsetsFit(ws) && n <= |ws|
    ensures AllSized(ws[..n]) && OffsetsFit(ws[..n])
  {
    forall i | 0 <= i < n ensures ValueOffset(ws[..n][..i], ws[..n][i]) < WORD_LIMIT {
      assert ws[..n][..i] == ws[..i];
      assert ValueOffset(ws[..i], ws[i]) < WORD_LIMIT;
    }
  }

  lemma SegEntriesPrefix(fd: nat, ws: seq<Write>, n: nat)
    requires n <= |ws|
    ensures SegEntries(fd, ws)[..n] == SegEntries(fd, ws[..n])
  {
    forall i | 0 <= i < n ensures SegEntries(fd, ws)[i] == SegEntries(fd, ws[..n])[i] {
      SegEntryAt(fd, ws, i);
      SegEntryAt(fd, ws[..n], i);
      assert ws[..n][..i] == ws[..i];
    }
  }

  /** The entry a colliding torn record adds. */
  function TornEntry(segs: Segments, cut: nat): (e: Entry)
    requires cut <= Size(segs[|segs| - 1])
    requires WholeWithin(segs[|segs| - 1], cut) < |segs[|segs| - 1]|
  {
    var n := |segs| - 1;
    var ws := segs[n];
    var kept := WholeWithin(ws, cut);
    var f := TornFound(Size(ws[..kept]), ws[kept], cut - Size(ws[..kept]));
    Entry(Write(f.key, []), Hint(n, ValueOffset(ws[..kept], ws[kept]), 0))
  }

  ghost function Torn(x: Extend, segs: Segments, cut: nat): (es: seq<Entry>)
    requires cut <= Size(segs[|segs| - 1])
  {
    if CutCollides(x, segs, cut) then [TornEntry(segs, cut)] else []
  }

  /** What the scan of the cut file yields: the surviving records, and nothing else unless the torn
      record collides. */
  lemma CutScan(x: Extend, segs: Segments, cut: nat)
    requires Fits(segs) && cut <= Size(segs[|segs| - 1])
    ensures var n := |segs| - 1;
            ScanEntries(x, CutFiles(x, segs, cut), n) ==
            SegEntries(n, Surviving(segs, cut)[n]) + Torn(x, segs, cut)
  {
    hide EncodeAll, Scan, SegEntries, Founds, WholeWithin, TornCollision, Fits, Size;
    var n := |segs| - 1;
    FitsSeg(segs, n);
    ScanTorn(x, segs[n], cut);
    var kept := WholeWithin(segs[n], cut);
    FitsPrefix(segs[n], kept);
    EntriesOfFounds(n, segs[n][..kept]);
    if kept < |segs[n]| {
      assert ValueOffset(segs[n][..kept], segs[n][kept]) < WORD_LIMIT;
    }
  }

  lemma PrefixUnder<T>(a: seq<T>, b: seq<T>, c: seq<T>)
    requires b <= c
    ensures a + b <= a + c
  {
  }

  /** The surviving log is a prefix of the log. */
  lemma SurvivingPrefix(segs: Segments, cut: nat)
    requires cut <= Size(segs[|segs| - 1])
    ensures var s := Surviving(segs, cut);
            Entries(s) <= Entries(segs) && Flatten(s) <= Flatten(segs)
  {
    hide Entries, SegEntries, WholeWithin, Flatten, Size, Cache;
    var n := |segs| - 1;
    var s := Surviving(segs, cut);
    assert s[..n] == segs[..n];
    EntriesLast(segs);
    EntriesLast(s);
    SegEntriesPrefix(n, segs[n], WholeWithin(segs[n], cut));
    PrefixUnder(Entries(segs[..n]), SegEntries(n, s[n]), SegEntries(n, segs[n]));
    WritesOfEntries(segs);
    WritesOfEntries(s);
  }

  lemma SurvivingFits(segs: Segments, cut: nat)
    requires Fits(segs) && cut <= Size(segs[|segs| - 1])
    ensures Fits(Surviving(segs, cut))
  {
    hide Entries, Surviving;
    SurvivingPrefix(segs, cut);
  }

  /** The recovered state after a cut, in every case. */
  lemma CrashState(x: Extend, segs: Segments, cut: nat)
    requires Fits(segs) && cut <= Size(segs[|segs| - 1])
    ensures var n := |segs| - 1;
            var files, s := CutFiles(x, segs, cut), Surviving(segs, cut);
            var torn := Torn(x, segs, cut);
            Recover(x, files, Ascending(n), n) ==
            View(files, UpTo(n), Index(Entries(s) + torn), Cache(Entries(s) + torn, n))
  {
    hide EncodeAll, ScanEntries, Index, Cache, SegEntries, Entries, Fits, WholeWithin, Torn;
    var n := |segs| - 1;
    var s, files := Surviving(segs, cut), CutFiles(x, segs, cut);
    var torn := Torn(x, segs, cut);
    SurvivingFits(segs, cut);
    CutScan(x, segs, cut);
    EntriesLast(s);
    RecoverParts(x, files, s, SegEntries(n, s[n]) + torn);
    Assoc(Entries(s[..n]), SegEntries(n, s[n]), torn);
    EntriesOrdered(s[..n]);
    CacheSkips(Entries(s[..n]), SegEntries(n, s[n]) + torn, n);
  }

  /** Crash prefix consistency: after a cut at any byte of the newest file, `Get` agrees with the plain map of
      a prefix of the write log that holds every record left whole. If the torn record's checksum
      collides, its key as found reads as the empty value, and every other key as before. */
  lemma CrashRecovery(x: Extend, segs: Segments, cut: nat, k: Key)
    requires Fits(segs) && cut <= Size(segs[|segs| - 1])
    ensures var n := |segs| - 1;
            var s := Surviving(segs, cut);
            && Flatten(s) <= Flatten(segs)
            && Lookup(Recover(x, CutFiles(x, segs, cut), Ascending(n), n), k) ==
               if CutCollides(x, segs, cut) && k == TornEntry(segs, cut).write.key then Some([])
               else Find(Meaning(Flatten(s)), k)
  {
    hide Flatten, Surviving, CutFiles, CutCollides, Lookup, Find, Meaning, Recover, Fits, Entries, Index, Cache, Torn,
         TornEntry, Ascending, Size;
    var n := |segs| - 1;
    var files, es := CutFiles(x, segs, cut), Entries(Surviving(segs, cut));
    SurvivingPrefix(segs, cut);
    SurvivingLookup(x, segs, cut, k);
    CrashState(x, segs, cut);
    TornIs(x, segs, cut);
    if CutCollides(x, segs, cut) {
      TornShows(files, es, TornEntry(segs, cut), n, k);
    } else {
      assert es + [] == es;
    }
  }

  lemma TornIs(x: Extend, segs: Segments, cut: nat)
    requires cut <= Size(segs[|segs| - 1])
    ensures CutCollides(x, segs, cut) ==>
              && WholeWithin(segs[|segs| - 1], cut) < |segs[|segs| - 1]|
              && Torn(x, segs, cut) == [TornEntry(segs, cut)]
              && TornEntry(segs, cut).hint.fd == |segs| - 1 && TornEntry(segs, cut).write.value == []
    ensures !CutCollides(x, segs, cut) ==> Torn(x, segs, cut) == []
  {
    hide TornCollision, Size;
  }

  /** What an entry with an empty value in the active file changes: its key reads as the empty value. */
  lemma TornShows(files: map<nat, seq<byte>>, es: seq<Entry>, e: Entry, n: nat, k: Key)
    requires e.hint.fd == n && e.write.value == []
    ensures Lookup(View(files, UpTo(n), Index(es + [e]), Cache(es + [e], n)), k) ==
            if k == e.write.key then Some([]) else Lookup(View(files, UpTo(n), Index(es), Cache(es, n)), k)
  {
    hide Index, Cache;
    IndexSnoc(es, e);
    CacheSnoc(es, e, n);
  }

  /** The cut files begin with the logs that survive. */
  lemma CutHasLogs(x: Extend, segs: Segments, cut: nat)
    requires cut <= Size(segs[|segs| - 1])
    ensures var files, s := CutFiles(x, segs, cut), Surviving(segs, cut);
            |s| == |segs| && forall fd: nat | fd < |s| :: fd in files && EncodeAll(x, s[fd]) <= files[fd]
  {
    hide EncodeAll, WholeWithin, Size;
    CutLog(x, segs[|segs| - 1], cut);
  }

  /** On the cut files, the index and the cache of what survived read as the surviving log. */
  lemma SurvivingLookup(x: Extend, segs: Segments, cut: nat, k: Key)
    requires cut <= Size(segs[|segs| - 1])
    ensures var n := |segs| - 1;
            var es := Entries(Surviving(segs, cut));
            Lookup(View(CutFiles(x, segs, cut), UpTo(n), Index(es), Cache(es, n)), k) ==
            Find(Meaning(Flatten(Surviving(segs, cut))), k)
  {
    hide *;
    CutHasLogs(x, segs, cut);
    FilesRead(x, CutFiles(x, segs, cut), Surviving(segs, cut), k);
  }

  lemma {:induction false} SizesGrow(ws: seq<Write>, i: nat)
    requires i < |ws|
    ensures ValueOffset(ws[..i], ws[i]) <= Size(ws)
  {
    if i < |ws| - 1 {
      assert ws[..|ws| - 1][..i] == ws[..i];
      SizesGrow(ws[..|ws| - 1], i);
    }
  }

  /** In the active file, earlier hints point below the end of the log. */
  lemma OffsetsBelow(segs: seq<seq<Write>>, i: nat)
    requires segs != [] && i < |Entries(segs)|
    requires Entries(segs)[i].hint.fd == |segs| - 1
    ensures Entries(segs)[i].hint.offset <= Size(segs[|segs| - 1])
  {
    hide SegEntries, Size;
    var n := |segs| - 1;
    EntriesOrdered(segs[..n]);
    EntriesLast(segs);
    var j := i - |Entries(segs[..n])|;
    if j >= 0 {
      SegEntryAt(n, segs[n], j);
      SizesGrow(segs[n], j);
    }
  }

  /** The exact condition: recovery reproduces the index of the surviving prefix if and only if the
      torn record does not collide. */
  lemma CrashExact(x: Extend, segs: Segments, cut: nat)
    requires Fits(segs) && cut <= Size(segs[|segs| - 1])
    ensures var n := |segs| - 1;
            Recover(x, CutFiles(x, segs, cut), Ascending(n), n).index == Index(Entries(Surviving(segs, cut)))
            <==> !CutCollides(x, segs, cut)
  {
    hide Recover, Entries, Surviving, Cache, CutFiles, Size, WholeWithin, TornFound, TornCollision, Fits,
         SegEntries, EncodeAll;
    CrashState(x, segs, cut);
    var s := Surviving(segs, cut);
    var es := Entries(s);
    if CutCollides(x, segs, cut) {
      var e := TornEntry(segs, cut);
      IndexSnoc(es, e);
      var k := e.write.key;
      IndexAt(es, k);
      if k in Index(es) {
        var p := LastPos(Writes(es), k);
        if es[p].hint == e.hint {
          SurvivingLast(segs, cut);
          OffsetsBelow(s, p);
          assert false;
        }
      }
      assert Index(es + [e])[k] == e.hint;
    } else {
      assert es + [] == es;
    }
  }

  lemma SurvivingLast(segs: Segments, cut: nat)
    requires cut <= Size(segs[|segs| - 1])
    ensures var n := |segs| - 1;
            |Surviving(segs, cut)| == |segs| && Surviving(segs, cut)[n] == segs[n][..WholeWithin(segs[n], cut)]
  {
  }

  /** The files a store leaves behind, cut or not, can be scanned without an offset wrapping around. */
  lemma FilesAddressable(x: Extend, segs: Segments, cut: nat, fd: nat)
    requires Fits(segs) && cut <= Size(segs[|segs| - 1]) && fd < |segs|
    ensures Addressable(x, Image(x, segs)[fd], 0)
    ensures Addressable(x, CutFiles(x, segs, cut)[fd], 0)
  {
    hide EncodeAll, Size, Fits, Addressable, Image, WholeWithin;
    FitsSeg(segs, fd);
    var ws := segs[fd];
    Whole(x, ws);
    EncodedAddressable(x, ws, Size(ws), 0);
    if fd == |segs| - 1 {
      EncodedAddressable(x, ws, cut, 0);
    }
  }

  lemma Whole(x: Extend, ws: seq<Write>)
    ensures EncodeAll(x, ws)[..Size(ws)] == EncodeAll(x, ws)
    ensures Size(ws[..0]) == 0
  {
  }
}
