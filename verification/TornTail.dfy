/**
 Writing on after a crash. Reopening does not cut a torn tail off the active file, so the next session
 appends behind it. That session reads what it should; here is exactly when the opening after it finds
 what it wrote.
 */
module TornTail {
  import opened Bytes
  import opened Codec
  import opened Layout
  import opened Recovery
  import opened Commits

  // ---------------------------------------------------------------- the torn file

  /** The first `cut` bytes of the log `ws`, and the records `late` a later session put behind them. */
  function TornFile(x: Extend, ws: seq<Write>, cut: nat, late: seq<Write>): (bytes: seq<byte>)
    requires cut <= Size(ws)
    ensures |bytes| == cut + Size(late)
  {
    EncodeAll(x, ws)[..cut] + EncodeAll(x, late)
  }

  /** What survives of `ws` is still at the front. */
  lemma TornFront(x: Extend, ws: seq<Write>, cut: nat, late: seq<Write>)
    requires cut <= Size(ws)
    ensures EncodeAll(x, ws[..WholeWithin(ws, cut)]) <= TornFile(x, ws, cut, late)
  {
    hide EncodeAll, WholeWithin, Size;
    CutLog(x, ws, cut);
  }

  /** What the scan reports after the log in front of the tail. */
  lemma NextFound(x: Extend, ws: seq<Write>, bytes: seq<byte>)
    requires AllSized(ws) && EncodeAll(x, ws) <= bytes
    ensures ReadAt(x, bytes, Size(ws)) == Stop ==> Scan(x, bytes) == Founds(ws)
  {
    hide Founds, EncodeAll, Size, ReadAt;
    ScanAfter(x, ws, bytes);
  }

  /** A torn record that passes in its new surroundings takes the scan past the start of the first late record. */
  lemma PastTorn(x: Extend, ws: seq<Write>, cut: nat, late: seq<Write>)
    requires AllSized(ws) && cut <= Size(ws) && Size(ws[..WholeWithin(ws, cut)]) < cut
    ensures var r := ReadAt(x, TornFile(x, ws, cut, late), Size(ws[..WholeWithin(ws, cut)]));
            r.Whole? ==> cut < r.next
  {
    hide EncodeAll, Encode, WholeWithin, Size, HeaderOf, ReadAt, StoredKeySize, StoredValueSize, StoredChecksum,
         Checksum, FoundAt;
    var kept := WholeWithin(ws, cut);
    var bytes, all, pos := TornFile(x, ws, cut, late), EncodeAll(x, ws), Size(ws[..kept]);
    var r := ReadAt(x, bytes, pos);
    CutLog(x, ws, cut);
    if r.Whole? && pos + HEADER <= cut {
      var w := ws[kept];
      EncodeOccurs(x, all, pos, w);
      OccursWithin(all[..cut], all, pos, HeaderOf(x, w));
      OccursWithin(all[..cut], bytes, pos, HeaderOf(x, w));
      EncodedFields(x, bytes, pos, w);
      WholeFields(x, bytes, pos);
    }
  }

  /** Whatever is accepted at `pos` is reported with the position of its own header. */
  lemma FoundPosition(x: Extend, bytes: seq<byte>, pos: nat)
    requires |bytes| < WORD_LIMIT && ReadAt(x, bytes, pos) != Stop
    ensures ReadAt(x, bytes, pos).found.inf.keyOffset == pos + HEADER
  {
    hide StoredKeySize, StoredValueSize, StoredChecksum, Checksum;
  }

  /** From position `pos` on the scan reports nothing that lies before `pos`. */
  lemma {:induction false} FoundBeyond(x: Extend, bytes: seq<byte>, pos: nat, reported: seq<Found>, i: nat)
    requires |bytes| < WORD_LIMIT && |reported| <= i < |ScanFrom(x, bytes, pos, reported)|
    ensures ScanFrom(x, bytes, pos, reported)[i].inf.keyOffset >= pos + HEADER
    decreases |bytes| - pos
  {
    hide ReadAt;
    var r := ReadAt(x, bytes, pos);
    FoundPosition(x, bytes, pos);
    if r.Whole? && i > |reported| {
      FoundBeyond(x, bytes, r.next, reported + [r.found], i);
    }
  }

  /** What the scan reports first from `pos` on, and how it goes on. */
  lemma ScanOn(x: Extend, bytes: seq<byte>, pos: nat, reported: seq<Found>, i: nat)
    requires |reported| <= i < |ScanFrom(x, bytes, pos, reported)|
    ensures var r := ReadAt(x, bytes, pos);
            && r != Stop
            && (if i == |reported| then ScanFrom(x, bytes, pos, reported)[i] == r.found
                else r.Whole? && ScanFrom(x, bytes, pos, reported)
                                 == ScanFrom(x, bytes, r.next, reported + [r.found]))
  {
    hide ReadAt;
  }

  lemma FoundBefore(ws: seq<Write>, i: nat)
    requires i < |ws| && Size(ws) < WORD_LIMIT
    ensures Founds(ws)[i].inf.keyOffset < Size(ws) + HEADER
  {
    hide Size, Founds;
    FoundsAt(ws, i);
    PrefixSnoc(ws, i);
    OneMore(ws[..i], ws[i]);
    PrefixSizes(ws, i + 1, |ws|);
    assert ws[..|ws|] == ws;
  }

  /** Behind a torn tail the scan never reports a record at the place where the first late one is. */
  lemma FirstLateMissed(x: Extend, ws: seq<Write>, cut: nat, late: seq<Write>, f: Found)
    requires AllSized(ws) && cut <= Size(ws) && Size(ws[..WholeWithin(ws, cut)]) < cut
    requires |TornFile(x, ws, cut, late)| < WORD_LIMIT && f in Scan(x, TornFile(x, ws, cut, late))
    ensures f.inf.keyOffset != cut + HEADER
  {
    hide EncodeAll, WholeWithin, Size, Founds, ReadAt, TornFile, AllSized, ScanFrom;
    var kept := WholeWithin(ws, cut);
    var front, bytes := ws[..kept], TornFile(x, ws, cut, late);
    KeptSized(ws, kept);
    TornFront(x, ws, cut, late);
    ScanAfter(x, front, bytes);
    var i :| 0 <= i < |Scan(x, bytes)| && Scan(x, bytes)[i] == f;
    var r := ReadAt(x, bytes, Size(front));
    if i < |front| {
      assert f == Founds(front)[i];
      FoundBefore(front, i);
      assert f.inf.keyOffset < cut + HEADER;
    } else {
      ScanOn(x, bytes, Size(front), Founds(front), i);
      FoundPosition(x, bytes, Size(front));
      if i > |front| {
        PastTorn(x, ws, cut, late);
        FoundBeyond(x, bytes, r.next, Founds(front) + [r.found], i);
        assert f.inf.keyOffset > cut + HEADER;
      } else {
        assert f.inf.keyOffset < cut + HEADER;
      }
    }
  }

  lemma KeptSized(ws: seq<Write>, n: nat)
    requires AllSized(ws) && n <= |ws|
    ensures AllSized(ws[..n])
  {
  }

  /** A log shorter than 2^32 bytes loses nothing to the 32-bit conversions. */
  lemma ShortLogFits(ws: seq<Write>)
    requires Size(ws) < WORD_LIMIT
    ensures AllSized(ws) && OffsetsFit(ws)
  {
    hide Size;
    forall i | 0 <= i < |ws| ensures ValueOffset(ws[..i], ws[i]) < WORD_LIMIT && Sized(ws[i]) {
      SizesGrow(ws, i);
      PrefixSizes(ws, i + 1, |ws|);
      PrefixSnoc(ws, i);
      OneMore(ws[..i], ws[i]);
      assert ws[..|ws|] == ws;
    }
  }

  lemma OneMore(ws: seq<Write>, w: Write)
    ensures Size(ws + [w]) == Size(ws) + RecordSize(w)
  {
    assert (ws + [w])[..|ws|] == ws;
  }

  /** A cut between two records leaves a log that can be continued. */
  lemma CleanCut(x: Extend, ws: seq<Write>, cut: nat, late: seq<Write>)
    requires cut <= Size(ws) && cut == Size(ws[..WholeWithin(ws, cut)])
    ensures TornFile(x, ws, cut, late) == EncodeAll(x, ws[..WholeWithin(ws, cut)] + late)
  {
    hide EncodeAll, WholeWithin, Size;
    CutLog(x, ws, cut);
    EncodeConcat(x, ws[..WholeWithin(ws, cut)], late);
  }

  /** In the bytes of one file: the first late record is reported where it was written if and only if the cut
      fell between two records. */
  lemma FirstLateExact(x: Extend, ws: seq<Write>, cut: nat, late: seq<Write>)
    requires AllSized(ws) && cut <= Size(ws) && late != [] && |TornFile(x, ws, cut, late)| < WORD_LIMIT
    ensures FoundAt(cut, late[0]) in Scan(x, TornFile(x, ws, cut, late)) <==> cut == Size(ws[..WholeWithin(ws, cut)])
  {
    hide EncodeAll, WholeWithin, Size, Founds, TornFile, Scan;
    var front := ws[..WholeWithin(ws, cut)];
    FirstFits(late);
    if cut == Size(front) {
      CleanCut(x, ws, cut, late);
      SizeConcat(front, late);
      ShortLogFits(front + late);
      ScanRoundTrip(x, front + late);
      FoundsAt(front + late, |front|);
      assert (front + late)[..|front|] == front && (front + late)[|front|] == late[0];
    } else if FoundAt(cut, late[0]) in Scan(x, TornFile(x, ws, cut, late)) {
      FirstLateMissed(x, ws, cut, late, FoundAt(cut, late[0]));
    }
  }

  lemma FirstFits(ws: seq<Write>)
    requires ws != []
    ensures HEADER <= RecordSize(ws[0]) <= Size(ws)
  {
    assert ws == [ws[0]] + ws[1..];
    SizeConcat([ws[0]], ws[1..]);
    assert [ws[0]][..0] == [];
  }

  // ---------------------------------------------------------------- the session after the crash

  /** Places one write when the first of the files already holds `start` bytes, with the offset as converted. */
  function SessionPlace(start: nat, late: Segments, w: Write, maxSize: nat): (r: Segments)
  {
    var m := |late| - 1;
    var grown := late[m := late[m] + [w]];
    if Low32((if m == 0 then start else 0) + ValueOffset(late[m], w)) < maxSize then grown else grown + [[]]
  }

  /** How the writes of a session spread over the files, from the one that already holds `start` bytes on. */
  function SessionLayout(start: nat, ws: seq<Write>, maxSize: nat): (late: Segments)
  {
    if ws == [] then [[]] else
    SessionPlace(start, SessionLayout(start, ws[..|ws| - 1], maxSize), ws[|ws| - 1], maxSize)
  }

  /** The logs of all files after the session, if the torn one began empty. */
  function SessionLogs(segs: Segments, late: Segments): (logs: Segments)
    ensures var n := |segs| - 1;
            |logs| == n + |late| && logs[n] == late[0] && logs[|logs| - 1] == late[|late| - 1]
  {
    segs[..|segs| - 1] + late
  }

  /** The files after the session: the older ones whole, the torn one written on, the new ones. */
  function SessionImage(x: Extend, segs: Segments, cut: nat, late: Segments): (files: map<nat, seq<byte>>)
    requires cut <= Size(segs[|segs| - 1])
  {
    var n := |segs| - 1;
    Image(x, SessionLogs(segs, late))[n := TornFile(x, segs[n], cut, late[0])]
  }

  lemma SessionFile(x: Extend, segs: Segments, cut: nat, late: Segments, fd: nat)
    requires cut <= Size(segs[|segs| - 1])
    ensures var files, n := SessionImage(x, segs, cut, late), |segs| - 1;
            && (fd in files <==> fd < n + |late|)
            && (fd < n ==> files[fd] == EncodeAll(x, segs[fd]))
            && (fd == n ==> files[fd] == TornFile(x, segs[n], cut, late[0]))
            && (n < fd < n + |late| ==> files[fd] == EncodeAll(x, late[fd - n]))
  {
    hide EncodeAll, Size, TornFile, Image;
  }

  /** The state after the crash has been recovered from, and after the session that follows. */
  function Reopened(x: Extend, segs: Segments, cut: nat): (v: View)
    requires cut <= Size(segs[|segs| - 1])
  {
    Recover(x, CutFiles(x, segs, cut), Ascending(|segs| - 1), |segs| - 1)
  }

  function Continued(x: Extend, segs: Segments, cut: nat, later: seq<Write>, maxSize: nat): (v: View)
    requires cut <= Size(segs[|segs| - 1])
  {
    CommitAll(x, Reopened(x, segs, cut), later, maxSize)
  }

  lemma ReopenedFiles(x: Extend, segs: Segments, cut: nat)
    requires cut <= Size(segs[|segs| - 1])
    ensures Reopened(x, segs, cut).files == SessionImage(x, segs, cut, [[]])
    ensures Reopened(x, segs, cut).stable == UpTo(|segs| - 1)
  {
    hide CutFiles, Index, Cache, Replay, ScanEntries, Size, Ascending, IdsOf, UpTo, SessionImage;
    AscendingIds(|segs| - 1);
    CutIsImage(x, segs, cut);
  }

  lemma NoBytes(x: Extend)
    ensures EncodeAll(x, []) == []
  {
  }

  lemma CutIsImage(x: Extend, segs: Segments, cut: nat)
    requires cut <= Size(segs[|segs| - 1])
    ensures CutFiles(x, segs, cut) == SessionImage(x, segs, cut, [[]])
  {
    hide EncodeAll, Size, TornFile, Image;
    NothingLate(x, segs[|segs| - 1], cut);
    NoBytes(x);
    var n := |segs| - 1;
    assert SessionLogs(segs, [[]]) == segs[n := []];
    ImageUpdate(x, segs, []);
  }

  lemma NothingLate(x: Extend, ws: seq<Write>, cut: nat)
    requires cut <= Size(ws)
    ensures TornFile(x, ws, cut, []) == EncodeAll(x, ws)[..cut]
  {
    assert EncodeAll(x, []) == [];
  }

  lemma LateSnoc(x: Extend, ws: seq<Write>, cut: nat, late: seq<Write>, w: Write)
    requires cut <= Size(ws)
    ensures TornFile(x, ws, cut, late + [w]) == TornFile(x, ws, cut, late) + Encode(x, w)
  {
    hide EncodeAll, Encode;
    Snoc(x, late, w);
  }

  /** One write of the session, on the files. */
  lemma ImageGrows(x: Extend, segs: Segments, cut: nat, late: Segments, w: Write)
    requires cut <= Size(segs[|segs| - 1])
    ensures var m, a := |late| - 1, |SessionLogs(segs, late)| - 1;
            var files := SessionImage(x, segs, cut, late);
            var grown := late[m := late[m] + [w]];
            && a in files
            && SessionImage(x, segs, cut, grown) == files[a := files[a] + Encode(x, w)]
            && SessionImage(x, segs, cut, grown + [[]]) == files[a := files[a] + Encode(x, w)][a + 1 := []]
            && |files[a]| == (if m == 0 then cut else 0) + Size(late[m])
  {
    hide EncodeAll, Encode, Size, TornFile, Image;
    var m, n := |late| - 1, |segs| - 1;
    var logs, grown := SessionLogs(segs, late), late[|late| - 1 := late[|late| - 1] + [w]];
    assert SessionLogs(segs, grown) == logs[|logs| - 1 := late[m] + [w]];
    assert SessionLogs(segs, grown + [[]]) == SessionLogs(segs, grown) + [[]];
    ImageUpdate(x, logs, late[m] + [w]);
    ImageNewFile(x, SessionLogs(segs, grown));
    LateSnoc(x, segs[n], cut, late[0], w);
    Snoc(x, late[m], w);
  }

  /** The files and the stable table after the session: its records stand behind the torn tail, and after the
      first rotation in files of their own. */
  lemma {:induction false} SessionFiles(x: Extend, segs: Segments, cut: nat, later: seq<Write>, maxSize: nat)
    requires cut <= Size(segs[|segs| - 1])
    ensures var v, late := Continued(x, segs, cut, later, maxSize), SessionLayout(cut, later, maxSize);
            && v.files == SessionImage(x, segs, cut, late)
            && v.stable == UpTo(|SessionLogs(segs, late)| - 1)
  {
    hide Continued, SessionImage, SessionLogs, SessionPlace, Size, UpTo, CommitOne;
    ContinuedSnoc(x, segs, cut, later, maxSize);
    if later == [] {
      ReopenedFiles(x, segs, cut);
    } else {
      var last := |later| - 1;
      SessionFiles(x, segs, cut, later[..last], maxSize);
      SessionStep(x, segs, cut, Continued(x, segs, cut, later[..last], maxSize),
                  SessionLayout(cut, later[..last], maxSize), later[last], maxSize);
    }
  }

  lemma ContinuedSnoc(x: Extend, segs: Segments, cut: nat, later: seq<Write>, maxSize: nat)
    requires cut <= Size(segs[|segs| - 1])
    ensures Continued(x, segs, cut, later, maxSize) ==
            if later == [] then Reopened(x, segs, cut)
            else CommitOne(x, Continued(x, segs, cut, later[..|later| - 1], maxSize), later[|later| - 1], maxSize)
  {
    hide CommitOne, Reopened, Size;
  }

  lemma SessionStep(x: Extend, segs: Segments, cut: nat, v: View, late: Segments, w: Write, maxSize: nat)
    requires cut <= Size(segs[|segs| - 1])
    requires v.files == SessionImage(x, segs, cut, late) && v.stable == UpTo(|SessionLogs(segs, late)| - 1)
    ensures var v', late' := CommitOne(x, v, w, maxSize), SessionPlace(cut, late, w, maxSize);
            v'.files == SessionImage(x, segs, cut, late') && v'.stable == UpTo(|SessionLogs(segs, late')| - 1)
  {
    hide SessionImage, Size, UpTo, Encode, Low32;
    ImageGrows(x, segs, cut, late, w);
    StableGrows(|SessionLogs(segs, late)| - 1);
  }

  /** The session's layout holds its writes, in order, the first of them in the torn file. */
  lemma {:induction false} SessionHolds(start: nat, later: seq<Write>, maxSize: nat)
    ensures Flatten(SessionLayout(start, later, maxSize)) == later
    ensures later != [] ==> var first := SessionLayout(start, later, maxSize)[0];
                            first != [] && first[0] == later[0]
  {
    hide Flatten, ValueOffset, Low32;
    if later == [] {
      OneFile([]);
    } else {
      var last := |later| - 1;
      var late := SessionLayout(start, later[..last], maxSize);
      SessionHolds(start, later[..last], maxSize);
      FlattenGrown(late, later[last]);
    }
  }

  lemma OneFile(ws: seq<Write>)
    ensures Flatten([ws]) == ws
  {
    assert [ws][..0] == [];
  }

  lemma FlattenGrown(late: Segments, w: Write)
    ensures var m := |late| - 1;
            var grown := late[m := late[m] + [w]];
            Flatten(grown) == Flatten(grown + [[]]) == Flatten(late) + [w]
  {
    var m := |late| - 1;
    var grown := late[m := late[m] + [w]];
    assert grown[..m] == late[..m];
    assert (grown + [[]])[..m + 1] == grown;
  }

  // ---------------------------------------------------------------- what the session reads

  /** Index, cache and files hold the entries `es`, wherever in the files they are. */
  ghost predicate Holds(v: View, es: seq<Entry>)
  {
    var a := |v.stable|;
    && v.stable == UpTo(a) && a in v.files
    && v.index == Index(es) && v.cache == Cache(es, a)
    && Ordered(es, a + 1) && AllReadable(v.files, es)
  }

  lemma HoldsReads(v: View, es: seq<Entry>, k: Key)
    requires Holds(v, es)
    ensures Lookup(v, k) == Find(Meaning(Writes(es)), k)
  {
    hide Lookup, Find, Meaning, Index, Cache, Ordered, AllReadable, UpTo;
    assert es[..|es|] == es;
    LookupReadable(v, es, |es|, |es|, |v.stable|, k);
  }

  lemma AppendedReadable(x: Extend, files: map<nat, seq<byte>>, es: seq<Entry>, a: nat, w: Write)
    requires a in files && AllReadable(files, es) && Ordered(es, a + 1)
    ensures var files' := files[a := files[a] + Encode(x, w)];
            var es' := es + [Entry(w, Hint(a, |files[a]| + HEADER + |w.key|, |w.value|))];
            AllReadable(files', es') && AllReadable(files'[a + 1 := []], es')
  {
    hide Encode, Occurs;
    var files' := files[a := files[a] + Encode(x, w)];
    var es' := es + [Entry(w, Hint(a, |files[a]| + HEADER + |w.key|, |w.value|))];
    OccursLast(files[a], Encode(x, w));
    EncodeOccurs(x, files'[a], |files[a]|, w);
    forall i | 0 <= i < |es'| ensures Readable(files', es'[i]) && Readable(files'[a + 1 := []], es'[i]) {
      if i < |es| {
        assert Readable(files, es[i]);
        if OnDisk(files, es[i]) {
          OccursWithin(files[es[i].hint.fd], files'[es[i].hint.fd], es[i].hint.offset, es[i].write.value);
        }
      }
    }
  }

  lemma OrderedSnoc(es: seq<Entry>, e: Entry, a: nat)
    requires Ordered(es, a + 1) && e.hint.fd == a
    ensures Ordered(es + [e], a + 1) && Ordered(es + [e], a + 2)
  {
  }

  /** Committing a write is right wherever the active file ends. */
  lemma HoldsCommit(x: Extend, v: View, es: seq<Entry>, w: Write, maxSize: nat) returns (e: Entry)
    requires Holds(v, es) && |v.files[|v.stable|]| + RecordSize(w) < WORD_LIMIT
    ensures e.write == w && Holds(CommitOne(x, v, w, maxSize), es + [e])
  {
    hide Encode, Index, Cache, Ordered, AllReadable, UpTo, Low32;
    var a := |v.stable|;
    var offset := |v.files[a]| + HEADER + |w.key|;
    e := Entry(w, Hint(a, offset, |w.value|));
    NoLoss(offset);
    NoLoss(|w.value|);
    AppendedReadable(x, v.files, es, a, w);
    IndexSnoc(es, e);
    CacheSnoc(es, e, a);
    OrderedSnoc(es, e, a);
    StableGrows(a);
    if offset >= maxSize {
      CacheNone(es + [e], a + 1);
    }
  }

  lemma NoLoss(n: nat)
    requires n < WORD_LIMIT
    ensures Low32(n) == n
  {
  }

  /** A committed write only adds to the files. */
  lemma CommitGrows(x: Extend, v: View, w: Write, maxSize: nat)
    requires v.stable == UpTo(|v.stable|) && |v.stable| in v.files && |v.stable| + 1 !in v.files
    ensures var v' := CommitOne(x, v, w, maxSize);
            && (forall fd | fd in v.files :: fd in v'.files && v.files[fd] <= v'.files[fd])
            && |v'.files[|v.stable|]| == |v.files[|v.stable|]| + RecordSize(w)
  {
    hide Encode, Low32, UpTo;
  }

  lemma ReopenedHolds(x: Extend, segs: Segments, cut: nat)
    requires Fits(segs) && cut <= Size(segs[|segs| - 1])
    ensures Holds(Reopened(x, segs, cut), Entries(Surviving(segs, cut)) + Torn(x, segs, cut))
  {
    hide EncodeAll, Index, Cache, Entries, Fits, WholeWithin, CutCollides, TornEntry, Torn, Recover, Ordered, AllOnDisk,
         Ascending, Size, UpTo, SegEntries;
    var n := |segs| - 1;
    var s, files := Surviving(segs, cut), CutFiles(x, segs, cut);
    CrashState(x, segs, cut);
    CutLog(x, segs[n], cut);
    EntriesOnDisk(x, files, s);
    EntriesOrdered(s);
    WithTorn(x, segs, cut, files, Entries(s));
    assert |UpTo(n)| == n;
  }

  /** The entry of a colliding torn record keeps what is known of the others. */
  lemma WithTorn(x: Extend, segs: Segments, cut: nat, files: map<nat, seq<byte>>, es: seq<Entry>)
    requires cut <= Size(segs[|segs| - 1]) && Ordered(es, |segs|) && AllOnDisk(files, es)
    ensures Ordered(es + Torn(x, segs, cut), |segs|) && AllReadable(files, es + Torn(x, segs, cut))
  {
    hide CutCollides, TornEntry, Torn, Size, OnDisk, WholeWithin;
    TornIs(x, segs, cut);
    TornSize(segs, cut);
  }

  lemma TornSize(segs: Segments, cut: nat)
    requires cut <= Size(segs[|segs| - 1])
    ensures WholeWithin(segs[|segs| - 1], cut) < |segs[|segs| - 1]| ==> TornEntry(segs, cut).hint.size == 0
  {
    hide Size, WholeWithin;
  }

  /** What the session starts from: the surviving log, and on a collision the torn record's key with the empty value. */
  ghost function Recovered(x: Extend, segs: Segments, cut: nat): (log: seq<Write>)
    requires cut <= Size(segs[|segs| - 1])
  {
    Flatten(Surviving(segs, cut)) + Writes(Torn(x, segs, cut))
  }

  lemma {:induction false} SessionHolding(x: Extend, segs: Segments, cut: nat, later: seq<Write>, maxSize: nat)
    returns (es: seq<Entry>)
    requires Fits(segs) && cut <= Size(segs[|segs| - 1])
    requires var files := Continued(x, segs, cut, later, maxSize).files;
             forall fd | fd in files :: |files[fd]| < WORD_LIMIT
    ensures Holds(Continued(x, segs, cut, later, maxSize), es)
    ensures Writes(es) == Recovered(x, segs, cut) + later
  {
    hide Holds, Reopened, CommitOne, Fits, Torn, Surviving, Flatten, Size, Entries;
    if later == [] {
      ReopenedHolds(x, segs, cut);
      es := Entries(Surviving(segs, cut)) + Torn(x, segs, cut);
      WritesOfEntries(Surviving(segs, cut));
      WritesConcat(Entries(Surviving(segs, cut)), Torn(x, segs, cut));
    } else {
      var last := |later| - 1;
      var v, w := Continued(x, segs, cut, later[..last], maxSize), later[last];
      SessionShort(x, segs, cut, later, maxSize);
      var init := SessionHolding(x, segs, cut, later[..last], maxSize);
      var e := HoldsCommit(x, v, init, w, maxSize);
      es := init + [e];
      WritesConcat(init, [e]);
      assert Writes([e]) == [w];
      Assoc(Recovered(x, segs, cut), later[..last], [w]);
      assert later[..last] + [w] == later;
    }
  }

  /** Files that are short at the end were short before. */
  lemma SessionShort(x: Extend, segs: Segments, cut: nat, later: seq<Write>, maxSize: nat)
    requires cut <= Size(segs[|segs| - 1]) && later != []
    requires var files := Continued(x, segs, cut, later, maxSize).files;
             forall fd | fd in files :: |files[fd]| < WORD_LIMIT
    ensures var v := Continued(x, segs, cut, later[..|later| - 1], maxSize);
            && (forall fd | fd in v.files :: |v.files[fd]| < WORD_LIMIT)
            && |v.stable| in v.files
            && |v.files[|v.stable|]| + RecordSize(later[|later| - 1]) < WORD_LIMIT
  {
    hide CommitOne, Continued, SessionImage, UpTo, SessionLayout, Size;
    var last := |later| - 1;
    var v, w := Continued(x, segs, cut, later[..last], maxSize), later[last];
    SessionFiles(x, segs, cut, later[..last], maxSize);
    var late := SessionLayout(cut, later[..last], maxSize);
    var a := |SessionLogs(segs, late)| - 1;
    assert |UpTo(a)| == a;
    SessionFile(x, segs, cut, late, a);
    SessionFile(x, segs, cut, late, a + 1);
    ContinuedSnoc(x, segs, cut, later, maxSize);
    CommitGrows(x, v, w, maxSize);
  }

  /** Within the session every `Get` is right: the plain map of what was recovered and the session's writes. */
  lemma SessionReads(x: Extend, segs: Segments, cut: nat, later: seq<Write>, maxSize: nat, k: Key)
    requires Fits(segs) && cut <= Size(segs[|segs| - 1])
    requires var files := Continued(x, segs, cut, later, maxSize).files;
             forall fd | fd in files :: |files[fd]| < WORD_LIMIT
    ensures Lookup(Continued(x, segs, cut, later, maxSize), k) == Find(Meaning(Recovered(x, segs, cut) + later), k)
    ensures Recovered(x, segs, cut) ==
            if CutCollides(x, segs, cut) then Flatten(Surviving(segs, cut)) + [TornEntry(segs, cut).write]
            else Flatten(Surviving(segs, cut))
  {
    hide Holds, Continued, Fits, CutCollides, TornEntry, Torn, Surviving, Flatten, Lookup, Find, Meaning, Size;
    var es := SessionHolding(x, segs, cut, later, maxSize);
    HoldsReads(Continued(x, segs, cut, later, maxSize), es, k);
    TornIs(x, segs, cut);
  }

  // ---------------------------------------------------------------- the next opening

  /** Opening files whose scans are those of a layout, and that begin with its logs, reads as its log. */
  lemma ScansRead(x: Extend, files: map<nat, seq<byte>>, segs: Segments, k: Key)
    requires forall fd: nat | fd < |segs| :: fd in files && EncodeAll(x, segs[fd]) <= files[fd]
    requires forall fd: nat | fd < |segs| :: ScanEntries(x, files, fd) == SegEntries(fd, segs[fd])
    ensures var n := |segs| - 1;
            Lookup(Recover(x, files, Ascending(n), n), k) == Find(Meaning(Flatten(segs)), k)
  {
    hide *;
    RecoverScans(x, files, segs);
    FilesRead(x, files, segs, k);
  }

  /** The other files of the session are scanned as they were written. */
  lemma OtherScans(x: Extend, segs: Segments, cut: nat, late: Segments, fd: nat)
    requires Fits(segs) && cut <= Size(segs[|segs| - 1])
    requires forall i | i in SessionImage(x, segs, cut, late) :: |SessionImage(x, segs, cut, late)[i]| < WORD_LIMIT
    requires fd < |segs| - 1 + |late| && fd != |segs| - 1
    ensures var ws := if fd < |segs| then segs[fd] else late[fd - |segs| + 1];
            SessionImage(x, segs, cut, late)[fd] == EncodeAll(x, ws)
            && ScanEntries(x, SessionImage(x, segs, cut, late), fd) == SegEntries(fd, ws)
  {
    hide EncodeAll, ScanEntries, SegEntries, Fits, SessionImage, Size, TornFile;
    var files := SessionImage(x, segs, cut, late);
    var ws := if fd < |segs| then segs[fd] else late[fd - |segs| + 1];
    SessionFile(x, segs, cut, late, fd);
    ShortLogFits(ws);
    ScanEntriesOfLog(x, files, fd, ws);
  }

  lemma FlattenBoth(a: seq<seq<Write>>, b: seq<seq<Write>>)
    ensures Flatten(a + b) == Flatten(a) + Flatten(b)
    decreases |b|
  {
    if b == [] {
      assert a + b == a;
    } else {
      assert (a + b)[..|a + b| - 1] == a + b[..|b| - 1];
      FlattenBoth(a, b[..|b| - 1]);
      Assoc(Flatten(a), Flatten(b[..|b| - 1]), b[|b| - 1]);
    }
  }

  /** Reading after the next opening, given what of the torn file is scanned. */
  lemma NextReads(x: Extend, segs: Segments, cut: nat, late: Segments, front: seq<Write>, k: Key)
    requires Fits(segs) && cut <= Size(segs[|segs| - 1])
    requires forall i | i in SessionImage(x, segs, cut, late) :: |SessionImage(x, segs, cut, late)[i]| < WORD_LIMIT
    requires EncodeAll(x, front) <= TornFile(x, segs[|segs| - 1], cut, late[0])
    requires ScanEntries(x, SessionImage(x, segs, cut, late), |segs| - 1) == SegEntries(|segs| - 1, front)
    ensures var m := |segs| + |late| - 2;
            Lookup(Recover(x, SessionImage(x, segs, cut, late), Ascending(m), m), k) ==
            Find(Meaning(Flatten(segs[..|segs| - 1]) + front + Flatten(late[1..])), k)
  {
    hide EncodeAll, ScanEntries, SegEntries, Lookup, Find, Meaning, Flatten, Recover, Ascending, Size, Fits, TornFile,
         SessionImage;
    var n, files := |segs| - 1, SessionImage(x, segs, cut, late);
    var found := segs[..n] + [front] + late[1..];
    forall fd: nat | fd < |found|
      ensures fd in files && EncodeAll(x, found[fd]) <= files[fd]
      ensures ScanEntries(x, files, fd) == SegEntries(fd, found[fd])
    {
      SessionFile(x, segs, cut, late, fd);
      if fd != n {
        OtherScans(x, segs, cut, late, fd);
      }
    }
    ScansRead(x, files, found, k);
    FlattenBoth(segs[..n] + [front], late[1..]);
    FlattenBoth(segs[..n], [front]);
    OneFile(front);
  }

  lemma SurvivingFlat(segs: Segments, cut: nat)
    requires cut <= Size(segs[|segs| - 1])
    ensures var n := |segs| - 1;
            Flatten(Surviving(segs, cut)) == Flatten(segs[..n]) + segs[n][..WholeWithin(segs[n], cut)]
  {
    hide WholeWithin, Size;
    assert Surviving(segs, cut)[..|segs| - 1] == segs[..|segs| - 1];
  }

  /** The cut fell into a record, so there is a torn tail. */
  predicate TornCut(segs: Segments, cut: nat)
    requires cut <= Size(segs[|segs| - 1])
  {
    var ws := segs[|segs| - 1];
    Size(ws[..WholeWithin(ws, cut)]) < cut
  }

  /** After a crash without a torn tail nothing is lost: the opening after the session reads as the
      surviving log and everything the session wrote. */
  lemma CleanCutKeeps(x: Extend, segs: Segments, cut: nat, later: seq<Write>, maxSize: nat, k: Key)
    requires Fits(segs) && cut <= Size(segs[|segs| - 1]) && !TornCut(segs, cut)
    requires var files := Continued(x, segs, cut, later, maxSize).files;
             forall fd | fd in files :: |files[fd]| < WORD_LIMIT
    ensures var v := Continued(x, segs, cut, later, maxSize);
            var m := |v.stable|;
            Lookup(Recover(x, v.files, Ascending(m), m), k) ==
            Find(Meaning(Flatten(Surviving(segs, cut)) + later), k)
  {
    hide EncodeAll, Continued, ScanEntries, SegEntries, Lookup, Find, Meaning, Flatten, Recover, Ascending, Size, Fits,
         TornFile, SessionImage, WholeWithin, SessionLayout, Surviving, UpTo;
    var n, late := |segs| - 1, SessionLayout(cut, later, maxSize);
    var files := SessionImage(x, segs, cut, late);
    var front := segs[n][..WholeWithin(segs[n], cut)] + late[0];
    SessionFiles(x, segs, cut, later, maxSize);
    SessionHolds(cut, later, maxSize);
    CleanCut(x, segs[n], cut, late[0]);
    SessionFile(x, segs, cut, late, n);
    ShortLogFits(front);
    ScanEntriesOfLog(x, files, n, front);
    NextReads(x, segs, cut, late, front, k);
    SurvivingFlat(segs, cut);
    FlattenFront(late);
    var kept, rest := segs[n][..WholeWithin(segs[n], cut)], Flatten(late[1..]);
    assert Flatten(segs[..n]) + (kept + late[0]) + rest == Flatten(segs[..n]) + kept + (late[0] + rest);
    assert |UpTo(|SessionLogs(segs, late)| - 1)| == |segs| + |late| - 2;
  }

  /** What a torn tail costs: unless the bytes behind the surviving log happen to pass as a record, the next
      opening reads as if everything that the session wrote to the torn file had not been written. */
  lemma TornTailLoses(x: Extend, segs: Segments, cut: nat, later: seq<Write>, maxSize: nat, k: Key)
    requires Fits(segs) && cut <= Size(segs[|segs| - 1])
    requires var files := Continued(x, segs, cut, later, maxSize).files;
             forall fd | fd in files :: |files[fd]| < WORD_LIMIT
    ensures var v, n := Continued(x, segs, cut, later, maxSize), |segs| - 1;
            var m := |v.stable|;
            && n in v.files
            && (ReadAt(x, v.files[n], Size(segs[n][..WholeWithin(segs[n], cut)])) == Stop ==>
                  Lookup(Recover(x, v.files, Ascending(m), m), k) ==
                  Find(Meaning(Flatten(Surviving(segs, cut)) + Flatten(SessionLayout(cut, later, maxSize)[1..])), k))
  {
    hide EncodeAll, Continued, SegEntries, Lookup, Find, Meaning, Flatten, Recover, Ascending, Size, Fits,
         TornFile, SessionImage, WholeWithin, SessionLayout, Surviving, UpTo, ReadAt, Founds, Scan, EntriesFound;
    var n, late := |segs| - 1, SessionLayout(cut, later, maxSize);
    var files := SessionImage(x, segs, cut, late);
    var front := segs[n][..WholeWithin(segs[n], cut)];
    SessionFiles(x, segs, cut, later, maxSize);
    assert |UpTo(|SessionLogs(segs, late)| - 1)| == |segs| + |late| - 2;
    SessionFile(x, segs, cut, late, n);
    if ReadAt(x, files[n], Size(front)) == Stop {
      FitsSeg(segs, n);
      FitsPrefix(segs[n], |front|);
      TornFront(x, segs[n], cut, late[0]);
      NextFound(x, front, files[n]);
      EntriesOfFounds(n, front);
      NextReads(x, segs, cut, late, front, k);
      SurvivingFlat(segs, cut);
    }
  }

  /** The exact condition: after a crash and a session that wrote something, the next scan of the file reports
      the first of those records, where it was written, if and only if the crash left no torn tail. */
  lemma TornTailExact(x: Extend, segs: Segments, cut: nat, later: seq<Write>, maxSize: nat)
    requires Fits(segs) && cut <= Size(segs[|segs| - 1]) && later != []
    requires var files := Continued(x, segs, cut, later, maxSize).files;
             forall fd | fd in files :: |files[fd]| < WORD_LIMIT
    ensures var v, n := Continued(x, segs, cut, later, maxSize), |segs| - 1;
            && n in v.files
            && (FoundAt(cut, later[0]) in Scan(x, v.files[n]) <==> !TornCut(segs, cut))
  {
    hide Continued, Fits, Size, SessionImage, WholeWithin, SessionLayout, FoundAt, Scan, UpTo, TornFile;
    var n, late := |segs| - 1, SessionLayout(cut, later, maxSize);
    SessionFiles(x, segs, cut, later, maxSize);
    SessionHolds(cut, later, maxSize);
    SessionFile(x, segs, cut, late, n);
    FitsSeg(segs, n);
    FirstLateExact(x, segs[n], cut, late[0]);
  }
}
