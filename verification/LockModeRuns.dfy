/**
 Runs that lead to the dangerous states of a shared-mode insertion, one for each way in which a read goes wrong.
 */
module LockModeRuns {
  import opened Codec
  import opened Layout
  import opened Commits
  import opened Concurrent
  import opened Linearizability
  import opened LockMode
  import opened LockModeExact
  import opened SmallStores
  import opened Lifecycle

  /** Nothing but the queue differs. */
  ghost predicate SameButQueue(s: Sys, s': Sys)
  {
    s' == s.(queue := s'.queue, submitted := s'.submitted)
  }

  lemma {:induction false} SubmitAll(c: Config, tr1: seq<Sys>, acts1: seq<Action>, ws: seq<Write>)
    returns (tr: seq<Sys>, acts: seq<Action>)
    requires IsRun(c, tr1, acts1) && |tr1| == |acts1| + 1 && tr1[|acts1|].readers == map[]
    ensures IsRun(c, tr, acts) && |tr| == |acts| + 1 && tr[0] == tr1[0]
    ensures SameButQueue(tr1[|acts1|], tr[|acts|])
    ensures WritesOf(tr[|acts|].queue) == WritesOf(tr1[|acts1|].queue) + ws
  {
    hide IsRun;
    tr, acts := tr1, acts1;
    if ws != [] {
      var last := |ws| - 1;
      tr, acts := SubmitAll(c, tr1, acts1, ws[..last]);
      var queue := tr[|acts|].queue;
      tr, acts := RunExtend(c, tr, acts, Submit(ws[last]));
      WritesSnoc(queue, tr[|acts|].queue[|queue|]);
      assert ws[..last] + [ws[last]] == ws;
    }
  }

  lemma WritesSnoc(ps: seq<Pending>, p: Pending)
    ensures WritesOf(ps + [p]) == WritesOf(ps) + [p.write]
  {
  }

  /** Every batch that fits can be about to be published on every store, with any queue: a run that leads there. */
  lemma WrittenReached(c: Config, segs: Segments, ws: seq<Write>, queue: seq<Write>)
    returns (tr: seq<Sys>, acts: seq<Action>)
    requires Fits(PlaceAll(segs, ws, c.maxSize))
    ensures IsRun(c, tr, acts) && |tr| == |acts| + 1 && tr[0] == Opened(c, segs)
    ensures var s := tr[|acts|];
            && s.worker.Written? && WritesOf(s.worker.batch) == ws && WritesOf(s.queue) == queue
            && s.base == segs && s.segs == PlaceAll(segs, ws, c.maxSize) && s.running && s.readers == map[]
            && s.view.cache == Cache(Entries(segs), |segs| - 1)
            && PublicationData(Entries(s.segs), ws, s.worker.hints, s.worker.lastActive, |s.segs| - 1)
  {
    hide IsRun, Fits, PlaceAll, Entries, Cache, Index, Image, UpTo, PublicationData;
    FitsStart(segs, ws, c.maxSize);
    JustOpened(c, segs);
    tr, acts := SubmitAll(c, [Opened(c, segs)], [], ws);
    assert WritesOf(Opened(c, segs).queue) + ws == ws;
    tr, acts := RunExtend(c, tr, acts, Take);
    var hints, lastActive := WriteFilesDetermined(c, tr[|acts|]);
    tr, acts := RunExtend(c, tr, acts, WriteFiles(hints, lastActive));
    tr, acts := SubmitAll(c, tr, acts, queue);
    assert WritesOf(tr[|acts|].queue) == queue;
  }

  // ---------------------------------------------------------------- one for each way

  /** What the lemmas here have in common: a run on a store opened with one committed record. */
  ghost predicate RunOn(c: Config, w: Write, tr: seq<Sys>, acts: seq<Action>)
  {
    IsRun(c, tr, acts) && |tr| == |acts| + 1 && tr[0] == Opened(c, PlaceAll([[]], [w], c.maxSize))
  }

  lemma ReachesDanger(c: Config, tr: seq<Sys>, acts: seq<Action>, k: Key)
    requires !c.exclusive && IsRun(c, tr, acts) && |tr| == |acts| + 1 && Dangerous(c, tr[|acts|], k)
    ensures CanMisread(c, tr, acts)
  {
    hide IsRun, Dangerous;
    assert Continues(c, tr, acts, tr, acts);
    SharedInsertExact(c, tr, acts);
  }

  /** A present key is missed: open a store that holds one record and commit another for the same key, which
      makes the file rotate. */
  lemma MissReached(x: Extend) returns (tr: seq<Sys>, acts: seq<Action>)
    ensures var c := Config(x, HEADER + 2, false);
            && RunOn(c, Write(KEY, [1]), tr, acts) && tr[|acts|].worker.Written?
            && CanMiss(c, tr, acts)
  {
    hide IsRun, Entries, Cache, CanMiss, PublicationData, PlaceAll;
    var c := Config(x, HEADER + 2, false);
    var w, w2 := Write(KEY, [1]), Write(KEY, [2]);
    OneRecordStore(w, c.maxSize);
    RotatesNext(w, w2, c.maxSize);
    tr, acts := WrittenReached(c, [[w]], [w2], []);
    assert KEY in tr[|acts|].view.cache;
    SharedMissExact(c, tr, acts);
  }

  /** A value is seen before it is published: open a store in which one key is deleted, and commit a batch that
      rotates and then brings the key back in the new file. */
  lemma EarlyReached(x: Extend) returns (tr: seq<Sys>, acts: seq<Action>)
    ensures var c := Config(x, HEADER + 2, false);
            && RunOn(c, Write(KEY, TOMBSTONE), tr, acts) && tr[|acts|].worker.Written?
            && !CanMiss(c, tr, acts) && CanMisread(c, tr, acts)
  {
    hide IsRun, Entries, Cache, CanMisread, CanMiss, PublicationData, PlaceAll;
    var c := Config(x, HEADER + 2, false);
    var w, w2, w3 := Write(KEY, TOMBSTONE), Write(OTHER, [1]), Write(KEY, [2]);
    OneRecordStore(w, c.maxSize);
    RotatesThenStays(w, w2, w3, c.maxSize);
    tr, acts := WrittenReached(c, [[w]], [w2, w3], []);
    var s := tr[|acts|];
    NewFileFrom(Entries(s.segs), [w2, w3], s.worker.hints, s.worker.lastActive, 1);
    assert WritesOf(s.worker.batch)[0] == w2 && WritesOf(s.worker.batch)[1] == w3;
    assert ShowsEarly(s, KEY, 1);
    ReachesDanger(c, tr, acts, KEY);
    SharedMissExact(c, tr, acts);
  }

  /** The first write of the batch in the new file, from the entries. */
  lemma NewFileFrom(es: seq<Entry>, ws: seq<Write>, hints: seq<Hint>, lastActive: nat, active: nat)
    requires |ws| == 2 <= |es| && PublicationData(es, ws, hints, lastActive, active)
    requires es[|es| - 2].hint.fd != active && es[|es| - 1].hint.fd == active
    ensures lastActive == 1
  {
    assert es[|es| - 2 + 0] == Entry(ws[0], hints[0]) && es[|es| - 2 + 1] == Entry(ws[1], hints[1]);
  }

  /** A value is seen before it is published, across two batches: the first rotates and does not write the deleted
      key, the second brings it back. */
  lemma LaterReached(x: Extend) returns (tr: seq<Sys>, acts: seq<Action>)
    ensures var c := Config(x, HEADER + 2, false);
            && RunOn(c, Write(KEY, TOMBSTONE), tr, acts) && tr[|acts|].worker.Written?
            && (forall k, f :: !ShowsEarly(tr[|acts|], k, f)) && !CanMiss(c, tr, acts) && CanMisread(c, tr, acts)
  {
    hide IsRun, Entries, Cache, CanMisread, CanMiss, PublicationData, PlaceAll;
    var c := Config(x, HEADER + 2, false);
    var w, w2, w3 := Write(KEY, TOMBSTONE), Write(OTHER, [1]), Write(KEY, [2]);
    OneRecordStore(w, c.maxSize);
    RotatesNext(w, w2, c.maxSize);
    RotatesThenStays(w, w2, w3, c.maxSize);
    PlaceAllConcat([[w]], [w2], [w3], c.maxSize);
    assert [w2] + [w3] == [w2, w3];
    tr, acts := WrittenReached(c, [[w]], [w2], [w3]);
    var s := tr[|acts|];
    OnlyInOld(Entries(s.segs), [w2], s.worker.hints, s.worker.lastActive, 1);
    assert WritesOf(s.queue)[0] == w3;
    assert ShowsLater(c, s, KEY, 0);
    ReachesDanger(c, tr, acts, KEY);
    SharedMissExact(c, tr, acts);
  }

  lemma OnlyInOld(es: seq<Entry>, ws: seq<Write>, hints: seq<Hint>, lastActive: nat, active: nat)
    requires |ws| == 1 <= |es| && PublicationData(es, ws, hints, lastActive, active)
    requires es[|es| - 1].hint.fd != active
    ensures lastActive == 1
  {
    assert es[|es| - 1 + 0] == Entry(ws[0], hints[0]);
  }

  // ---------------------------------------------------------------- the overtaken hint

  const CLOSE: Write := Write(KEY, TOMBSTONE)
  const FIRST: Write := Write(KEY, [1])
  const FILLER: Write := Write(OTHER, [1])

  /** A limit that the second record of the store stays below and the third passes. */
  const LIMIT: nat := 40

  lemma StaleLayouts()
    ensures PlaceAll([[]], [FIRST], LIMIT) == [[FIRST]] && Fits([[FIRST]])
    ensures PlaceAll([[FIRST]], [CLOSE], LIMIT) == [[FIRST, CLOSE]] && Fits([[FIRST, CLOSE]])
    ensures PlaceAll([[FIRST, CLOSE]], [FILLER, CLOSE], LIMIT) == [[FIRST, CLOSE, FILLER], [CLOSE]]
    ensures Fits([[FIRST, CLOSE, FILLER], [CLOSE]])
    ensures Entries([[FIRST]]) == [Entry(FIRST, Hint(0, 13, 1))]
    ensures Entries([[FIRST, CLOSE]]) == [Entry(FIRST, Hint(0, 13, 1)), Entry(CLOSE, Hint(0, 27, 21))]
    ensures Entries([[FIRST, CLOSE, FILLER], [CLOSE]]) ==
            [Entry(FIRST, Hint(0, 13, 1)), Entry(CLOSE, Hint(0, 27, 21)),
             Entry(FILLER, Hint(0, 61, 1)), Entry(CLOSE, Hint(1, 13, 21))]
  {
    hide Entries, PlaceAll, ValueOffset;
    RecordSizes();
    OneRecordStore(FIRST, LIMIT);
    StaysNext(FIRST, CLOSE, LIMIT);
    var two, three: Segments := [[FIRST, CLOSE]], [[FIRST, CLOSE, FILLER], []];
    ThirdOffset();
    PlacedAt(two, FILLER, LIMIT, 61);
    assert two[0] + [FILLER] == [FIRST, CLOSE, FILLER];
    assert two[0 := [FIRST, CLOSE, FILLER]] == [[FIRST, CLOSE, FILLER]];
    assert [[FIRST, CLOSE, FILLER]] + [[]] == three;
    Offsets(CLOSE, CLOSE);
    PlacedAt(three, CLOSE, LIMIT, 13);
    assert three[1] + [CLOSE] == [CLOSE];
    assert three[1 := [CLOSE]] == [[FIRST, CLOSE, FILLER], [CLOSE]];
    PlaceAllConcat(two, [FILLER], [CLOSE], LIMIT);
    assert [FILLER] + [CLOSE] == [FILLER, CLOSE];
  }

  lemma ThirdOffset()
    ensures ValueOffset([FIRST, CLOSE], FILLER) == 61
  {
    RecordSizes();
    var ws := [FIRST, CLOSE];
    assert ws[..1] == [FIRST] && [FIRST][..0] == [];
    assert Size(ws[..1]) == RecordSize(FIRST);
    assert Size(ws) == RecordSize(FIRST) + RecordSize(CLOSE);
  }

  lemma RecordSizes()
    ensures RecordSize(FIRST) == 14 && RecordSize(CLOSE) == 34 && RecordSize(FILLER) == 14
    ensures |CLOSE.value| == 21
  {
  }

  /** A run to the moment between the cache put and the index put of a deletion, with a batch that rotates and
      deletes the key once more waiting in the queue. */
  lemma StaleReached(x: Extend) returns (tr: seq<Sys>, acts: seq<Action>)
    ensures var c := Config(x, LIMIT, false);
            && RunOn(c, FIRST, tr, acts) && Stale(c, tr[|acts|], KEY)
            && tr[|acts|].segs == [[FIRST, CLOSE]] && WritesOf(tr[|acts|].queue) == [FILLER, CLOSE]
  {
    hide IsRun, Entries, Cache, PublicationData, PlaceAll, Fits, Index, Image, UpTo, StableValue, ViewInv, ValueAt,
         Flatten;
    var c := Config(x, LIMIT, false);
    StaleLayouts();
    tr, acts := WrittenReached(c, [[FIRST]], [CLOSE], [FILLER, CLOSE]);
    tr, acts := RunExtend(c, tr, acts, Insert);
    tr, acts := RunExtend(c, tr, acts, Clear);
    tr, acts := RunExtend(c, tr, acts, CachePut);
    var s := tr[|acts|];
    RunView(c, tr, acts, |acts|);
    assert WritesOf(s.worker.batch)[0] == CLOSE;
    IndexIs(c, s);
    FirstHint(s.segs);
    HintedValue(c, s, s, KEY);
    FirstValue();
  }

  lemma IndexIs(c: Config, s: Sys)
    requires ViewInv(c, s)
    ensures Indexed(s) <= |Entries(s.segs)| && s.view.index == Index(Entries(s.segs)[..Indexed(s)])
    ensures |s.view.stable| == ActiveId(s)
  {
    hide Index, Cache, Entries, Image, PlaceAll, PublicationData, UpTo;
    TableSize(c, s);
  }

  lemma FirstHint(segs: Segments)
    requires segs == [[FIRST, CLOSE]]
    requires Entries([[FIRST, CLOSE]]) == [Entry(FIRST, Hint(0, 13, 1)), Entry(CLOSE, Hint(0, 27, 21))]
    ensures var m := Index(Entries(segs)[..1]); KEY in m && m[KEY].fd == 0
  {
    hide Entries;
    IndexAt(Entries(segs)[..1], KEY);
    assert Writes(Entries(segs)[..1])[0].key == KEY;
  }

  lemma FirstValue()
    ensures |Flatten([[FIRST, CLOSE]])| == 2 && ValueAt(Flatten([[FIRST, CLOSE]]), 1, KEY) == Some([1])
  {
    hide Meaning;
    var one: seq<seq<Write>> := [[FIRST, CLOSE]];
    assert one[..0] == [];
    assert Flatten(one) == [FIRST, CLOSE];
    ValueWritten([FIRST, CLOSE], 0);
  }

  lemma {:induction false} LayoutGrows(c: Config, tr: seq<Sys>, acts: seq<Action>, i: nat, j: nat)
    requires IsRun(c, tr, acts) && i <= j <= |acts|
    ensures |tr[i].segs| <= |tr[j].segs|
  {
    hide Start, Image, PublicationData, Entries, Between, Fits;
    if i < j {
      LayoutGrows(c, tr, acts, i, j - 1);
      assert Enabled(c, tr[j - 1], acts[j - 1]) && tr[j - 1 + 1] == Apply(c, tr[j - 1], acts[j - 1]);
    }
  }

  /** The cache before the next batch is inserted holds the deletion and nothing else. */
  lemma OnlyDeletion(k: Key)
    ensures var cache := Cache(Entries([[FIRST, CLOSE]]), 0);
            k in cache ==> k == KEY && cache[k] == TOMBSTONE
  {
    hide Cache, Entries;
    StaleLayouts();
    var es := Entries([[FIRST, CLOSE]]);
    CacheAt(es, 0, k);
    if LastPos(Writes(es), k) == 0 {
      assert Writes(es)[1].key == KEY;
    }
  }

  lemma NoneExposed(c: Config, s: Sys, k: Key)
    requires ViewInv(c, s) && s.worker.Written? && c.maxSize == LIMIT
    requires s.base == [[FIRST, CLOSE]] && WritesOf(s.worker.batch) == [FILLER, CLOSE]
    ensures !Exposed(c, s, k)
  {
    hide Entries, Cache, Index, Image, PlaceAll, UpTo, PublicationData, StaysActive, Fits;
    StaleLayouts();
    BaseCache(c, s);
    OnlyDeletion(k);
    NewFileFrom(Entries(s.segs), [FILLER, CLOSE], s.worker.hints, s.worker.lastActive, 1);
    assert WritesOf(s.worker.batch)[1] == CLOSE;
    assert !Absent(s, KEY);
  }

  /** A read goes wrong in a run in which no insertion finds an exposed key: it got its hint between the two puts. */
  lemma StaleAlone(x: Extend) returns (tr: seq<Sys>, acts: seq<Action>, i: nat, r: nat)
    ensures var c := Config(x, LIMIT, false);
            && RunOn(c, FIRST, tr, acts) && Misreads(tr, acts, i, |acts|, r, KEY)
            && forall p, k | 0 <= p < |acts| && acts[p] == Insert && Rotating(tr[p]) :: !Exposed(c, tr[p], k)
  {
    hide IsRun, Exposed, Stale, Misreads, PlaceAll, ViewInv;
    var c := Config(x, LIMIT, false);
    var tr0, acts0 := StaleReached(x);
    tr, acts, r := StaleMisreads(c, tr0, acts0, KEY);
    i := |acts0|;
    forall p, k | 0 <= p < |acts| && acts[p] == Insert && Rotating(tr[p]) ensures !Exposed(c, tr[p], k) {
      if p < i {
        LayoutGrows(c, tr, acts, p, i);
      } else {
        RunView(c, tr, acts, p);
        NoneExposed(c, tr[p], k);
      }
    }
  }
}
