/**
 What a write log means, how it is laid out over numbered files, and the index and cache
 that go with a layout.

 A layout is the sequence of the logs of the files 0, 1, ..., n; the last one is the active file.
 `Entries` lists its writes in commit order, each with the hint that addresses its value.
 */
module Layout {
  import opened Bytes
  import opened Codec

  datatype Option<+T> = None | Some(value: T)

  /** File id, value offset and value size. */
  datatype Hint = Hint(fd: nat, offset: nat, size: nat)

  datatype Entry = Entry(write: Write, hint: Hint)

  type Segments = s: seq<seq<Write>> | |s| > 0 witness [[]]

  /** The value a deletion writes. */
  const TOMBSTONE: Value := [95, 95, 66, 73, 84, 67, 65, 83, 75, 95, 84, 79, 77, 66, 83, 84, 79, 78, 69, 95, 95]

  lemma TombstoneText()
    ensures var text := "__BITCASK_TOMBSTONE__";
            |TOMBSTONE| == |text| && forall i | 0 <= i < |text| :: TOMBSTONE[i] == text[i] as int
  {
  }

  // ---------------------------------------------------------------- the meaning of a log

  /** The plain map a log stands for: the last write of a key wins, a tombstone removes the key. */
  function Meaning(log: seq<Write>): (m: map<Key, Value>)
  {
    if log == [] then map[] else
    var m, w := Meaning(log[..|log| - 1]), log[|log| - 1];
    if w.value == TOMBSTONE then m - {w.key} else m[w.key := w.value]
  }

  function Find(m: map<Key, Value>, k: Key): (r: Option<Value>)
  {
    if k in m then Some(m[k]) else None
  }

  function Live(v: Value): (r: Option<Value>)
  {
    if v == TOMBSTONE then None else Some(v)
  }

  /** The position of the last write of `k`, or -1. */
  function LastPos(log: seq<Write>, k: Key): (p: int)
    ensures -1 <= p < |log|
    ensures p >= 0 ==> log[p].key == k
    ensures forall i | p < i < |log| :: log[i].key != k
  {
    if log == [] then -1
    else if log[|log| - 1].key == k then |log| - 1
    else LastPos(log[..|log| - 1], k)
  }

  lemma {:induction false} MeaningLast(log: seq<Write>, k: Key)
    ensures var p := LastPos(log, k);
            && Find(Meaning(log), k) == (if p < 0 then None else Live(log[p].value))
            && Find(Meaning(log), k) == if p < 0 || log[p].value == TOMBSTONE then None else Some(log[p].value)
  {
    if log != [] {
      MeaningLast(log[..|log| - 1], k);
    }
  }

  /** Appending to a log: a key keeps its value unless it is written. */
  lemma {:induction false} MeaningAfter(a: seq<Write>, b: seq<Write>, k: Key)
    ensures Find(Meaning(a + b), k) ==
            if LastPos(b, k) < 0 then Find(Meaning(a), k) else Live(b[LastPos(b, k)].value)
  {
    if b == [] {
      assert a + b == a;
    } else {
      assert (a + b)[..|a + b| - 1] == a + b[..|b| - 1];
      MeaningAfter(a, b[..|b| - 1], k);
    }
  }

  /** What a key's value is after the first `p` writes of a log. */
  function ValueAt(log: seq<Write>, p: nat, k: Key): (v: Option<Value>)
    requires p <= |log|
  {
    Find(Meaning(log[..p]), k)
  }

  /** Between two points of a log a key has its value at the first, or that of a write between. */
  lemma ValueBetween(log: seq<Write>, p: nat, q: nat, k: Key) returns (y: nat)
    requires p <= q <= |log|
    ensures || (ValueAt(log, q, k) == ValueAt(log, p, k) && forall u | p <= u < q :: log[u].key != k)
            || (p <= y < q && log[y].key == k && ValueAt(log, q, k) == Live(log[y].value))
  {
    hide Meaning, Find;
    assert log[..q] == log[..p] + log[p..q];
    MeaningAfter(log[..p], log[p..q], k);
    var l := LastPos(log[p..q], k);
    y := 0;
    if l >= 0 {
      y := p + l;
      assert log[p..q][l] == log[y];
    } else {
      forall u | p <= u < q ensures log[u].key != k {
        assert log[p..q][u - p] == log[u];
      }
    }
  }

  /** Right after a write its key has the value written. */
  lemma ValueWritten(log: seq<Write>, y: nat)
    requires y < |log|
    ensures ValueAt(log, y + 1, log[y].key) == Live(log[y].value)
  {
    hide Meaning, Find;
    MeaningLast(log[..y + 1], log[y].key);
    assert log[..y + 1][y] == log[y];
  }

  // ---------------------------------------------------------------- layouts

  function Flatten(segs: seq<seq<Write>>): (log: seq<Write>)
  {
    if segs == [] then [] else Flatten(segs[..|segs| - 1]) + segs[|segs| - 1]
  }

  lemma {:induction false} FlattenFront(segs: seq<seq<Write>>)
    requires segs != []
    ensures Flatten(segs) == segs[0] + Flatten(segs[1..])
  {
    var last := |segs| - 1;
    if last > 0 {
      FlattenFront(segs[..last]);
      assert segs[..last][1..] == segs[1..][..last - 1];
      Assoc(segs[0], Flatten(segs[1..][..last - 1]), segs[last]);
    } else {
      assert segs[..0] == segs[1..] == [];
    }
  }

  /** The hint of `w` when it is appended to file `fd` after `ws`. */
  function HintFor(fd: nat, ws: seq<Write>, w: Write): (h: Hint)
  {
    Hint(fd, ValueOffset(ws, w), |w.value|)
  }

  function SegEntries(fd: nat, ws: seq<Write>): (es: seq<Entry>)
    ensures |es| == |ws|
  {
    if ws == [] then [] else
    var init, w := ws[..|ws| - 1], ws[|ws| - 1];
    SegEntries(fd, init) + [Entry(w, HintFor(fd, init, w))]
  }

  function Entries(segs: seq<seq<Write>>): (es: seq<Entry>)
  {
    if segs == [] then [] else
    Entries(segs[..|segs| - 1]) + SegEntries(|segs| - 1, segs[|segs| - 1])
  }

  function Writes(es: seq<Entry>): (ws: seq<Write>)
    ensures |ws| == |es|
    ensures forall i | 0 <= i < |es| :: ws[i] == es[i].write
  {
    seq(|es|, i requires 0 <= i < |es| => es[i].write)
  }

  /** Appends one write to the active file and rotates when its value starts at or past `maxSize`. */
  function Place(segs: Segments, w: Write, maxSize: nat): (s: Segments)
    ensures |segs| <= |s| <= |segs| + 1
  {
    var n := |segs| - 1;
    var grown := segs[n := segs[n] + [w]];
    if ValueOffset(segs[n], w) < maxSize then grown else grown + [[]]
  }

  function PlaceAll(segs: Segments, ws: seq<Write>, maxSize: nat): (s: Segments)
    ensures |segs| <= |s|
  {
    if ws == [] then segs else Place(PlaceAll(segs, ws[..|ws| - 1], maxSize), ws[|ws| - 1], maxSize)
  }

  // ---------------------------------------------------------------- index and cache

  function Index(es: seq<Entry>): (m: map<Key, Hint>)
  {
    if es == [] then map[] else
    Index(es[..|es| - 1])[es[|es| - 1].write.key := es[|es| - 1].hint]
  }

  function Cache(es: seq<Entry>, active: nat): (m: map<Key, Value>)
  {
    if es == [] then map[] else
    var m, e := Cache(es[..|es| - 1], active), es[|es| - 1];
    if e.hint.fd == active then m[e.write.key := e.write.value] else m
  }

  lemma IndexSnoc(es: seq<Entry>, e: Entry)
    ensures Index(es + [e]) == Index(es)[e.write.key := e.hint]
  {
    assert (es + [e])[..|es|] == es;
  }

  lemma CacheSnoc(es: seq<Entry>, e: Entry, a: nat)
    ensures Cache(es + [e], a) == if e.hint.fd == a then Cache(es, a)[e.write.key := e.write.value] else Cache(es, a)
  {
    assert (es + [e])[..|es|] == es;
  }

  lemma {:induction false} IndexAt(es: seq<Entry>, k: Key)
    ensures var p := LastPos(Writes(es), k);
            && (k in Index(es) <==> p >= 0)
            && (k in Index(es) ==> Index(es)[k] == es[p].hint)
  {
    if es != [] {
      var init := es[..|es| - 1];
      assert Writes(es)[..|es| - 1] == Writes(init);
      IndexAt(init, k);
    }
  }

  /** File ids never decrease along the log. */
  ghost predicate Ordered(es: seq<Entry>, bound: nat)
  {
    && (forall i | 0 <= i < |es| :: es[i].hint.fd < bound)
    && (forall i, j | 0 <= i <= j < |es| :: es[i].hint.fd <= es[j].hint.fd)
  }

  lemma OrderedInit(es: seq<Entry>, bound: nat)
    requires es != [] && Ordered(es, bound)
    ensures Ordered(es[..|es| - 1], bound)
  {
  }

  /** The cache holds exactly the keys whose last write is in the active file, with that write's value. */
  lemma {:induction false} CacheAt(es: seq<Entry>, a: nat, k: Key)
    requires Ordered(es, a + 1)
    ensures var p := LastPos(Writes(es), k);
            && (k in Cache(es, a) <==> p >= 0 && es[p].hint.fd == a)
            && (k in Cache(es, a) ==> Cache(es, a)[k] == es[p].write.value)
  {
    if es != [] {
      var last := |es| - 1;
      var init := es[..last];
      assert Writes(es)[..last] == Writes(init);
      OrderedInit(es, a + 1);
      CacheAt(init, a, k);
      var p := LastPos(Writes(init), k);
      if p >= 0 {
        assert init[p] == es[p] && es[p].hint.fd <= es[last].hint.fd;
      }
    }
  }

  // ---------------------------------------------------------------- the in-memory view and Get

  /** Everything a reader can see: the files, the ids in the stable table, the index and the cache. */
  datatype View = View(files: map<nat, seq<byte>>, stable: set<nat>,
                       index: map<Key, Hint>, cache: map<Key, Value>)

  function UpTo(n: nat): (s: set<nat>)
    ensures |s| == n
    ensures forall i: nat :: i in s <==> i < n
  {
    if n == 0 then {} else UpTo(n - 1) + {n - 1}
  }

  /** A stable read: the addressed bytes, or nothing when the file is too short. */
  function StableValue(files: map<nat, seq<byte>>, h: Hint): (v: Value)
  {
    if h.fd in files then Slice(files[h.fd], h.offset, h.size) else []
  }

  /** `Get`, as a function of what it sees. The active file's id is the size of the stable table. */
  function Lookup(v: View, k: Key): (r: Option<Value>)
  {
    if k !in v.index then None else
    var h := v.index[k];
    if h.fd == |v.stable| then (if k in v.cache then Live(v.cache[k]) else None)
    else if h.fd !in v.stable then None
    else Live(StableValue(v.files, h))
  }

  /** The hint addresses the value of its write. */
  ghost predicate OnDisk(files: map<nat, seq<byte>>, e: Entry)
  {
    && e.hint.fd in files
    && e.hint.size == |e.write.value|
    && Occurs(files[e.hint.fd], e.hint.offset, e.write.value)
  }

  ghost predicate AllOnDisk(files: map<nat, seq<byte>>, es: seq<Entry>)
  {
    forall i | 0 <= i < |es| :: OnDisk(files, es[i])
  }

  lemma OnDiskValue(files: map<nat, seq<byte>>, e: Entry)
    requires OnDisk(files, e)
    ensures StableValue(files, e.hint) == e.write.value
  {
  }

  /** Reading through the hint gives the value of its write: it is on disk, or of size 0 and empty. */
  ghost predicate Readable(files: map<nat, seq<byte>>, e: Entry)
  {
    OnDisk(files, e) || (e.hint.size == 0 && e.write.value == [])
  }

  ghost predicate AllReadable(files: map<nat, seq<byte>>, es: seq<Entry>)
  {
    forall i | 0 <= i < |es| :: Readable(files, es[i])
  }

  lemma ReadableValue(files: map<nat, seq<byte>>, e: Entry)
    requires Readable(files, e)
    ensures StableValue(files, e.hint) == e.write.value
  {
  }

  /** `Get` on a view whose index reflects the first `p` entries and whose cache reflects the first
      `q`: a key whose hint points at the active file reads as of `q`, any other as of `p`. */
  lemma LookupReadable(v: View, es: seq<Entry>, p: nat, q: nat, a: nat, k: Key)
    requires p <= q <= |es|
    requires Ordered(es, a + 1)
    requires v.stable == UpTo(a)
    requires v.index == Index(es[..p])
    requires v.cache == Cache(es[..q], a) || Ordered(es[..p], a)
    requires AllReadable(v.files, es)
    ensures var m := if k in v.index && v.index[k].fd == a then q else p;
            Lookup(v, k) == Find(Meaning(Writes(es[..m])), k)
  {
    hide Index, Cache, Meaning, Readable;
    IndexAt(es[..p], k);
    MeaningLast(Writes(es[..p]), k);
    var i := LastPos(Writes(es[..p]), k);
    if i >= 0 {
      assert es[..p][i] == es[i];
      assert es[i].write.key == k;
      if es[i].hint.fd == a {
        CacheAt(es[..q], a, k);
        MeaningLast(Writes(es[..q]), k);
        var j := LastPos(Writes(es[..q]), k);
        assert Writes(es[..q])[i].key == k;
        assert i <= j;
        assert es[..q][j] == es[j] && es[i].hint.fd <= es[j].hint.fd;
      } else {
        ReadableValue(v.files, es[i]);
      }
    }
  }

  /** The same for entries that are on disk. */
  lemma LookupMeaning(v: View, es: seq<Entry>, p: nat, q: nat, a: nat, k: Key)
    requires p <= q <= |es|
    requires Ordered(es, a + 1)
    requires v.stable == UpTo(a)
    requires v.index == Index(es[..p])
    requires v.cache == Cache(es[..q], a) || Ordered(es[..p], a)
    requires AllOnDisk(v.files, es)
    ensures var m := if k in v.index && v.index[k].fd == a then q else p;
            Lookup(v, k) == Find(Meaning(Writes(es[..m])), k)
  {
    hide Index, Cache, Meaning, OnDisk, Lookup, Find, Ordered, UpTo;
    LookupReadable(v, es, p, q, a, k);
  }

  // ---------------------------------------------------------------- facts about layouts

  function Image(x: Extend, segs: seq<seq<Write>>): (files: map<nat, seq<byte>>)
    ensures forall fd: nat :: fd in files <==> fd < |segs|
    ensures forall fd: nat | fd < |segs| :: files[fd] == EncodeAll(x, segs[fd])
  {
    map fd: nat | fd < |segs| :: EncodeAll(x, segs[fd])
  }

  /** The state that belongs to a layout. */
  function ViewOf(x: Extend, segs: Segments): (v: View)
  {
    View(Image(x, segs), UpTo(|segs| - 1), Index(Entries(segs)), Cache(Entries(segs), |segs| - 1))
  }

  lemma {:induction false} WritesOfSeg(fd: nat, ws: seq<Write>)
    ensures Writes(SegEntries(fd, ws)) == ws
  {
    if ws != [] {
      WritesOfSeg(fd, ws[..|ws| - 1]);
      assert ws == ws[..|ws| - 1] + [ws[|ws| - 1]];
    }
  }

  lemma WritesConcat(a: seq<Entry>, b: seq<Entry>)
    ensures Writes(a + b) == Writes(a) + Writes(b)
  {
  }

  lemma {:induction false} WritesOfEntries(segs: seq<seq<Write>>)
    ensures Writes(Entries(segs)) == Flatten(segs)
  {
    if segs != [] {
      var n := |segs| - 1;
      WritesOfEntries(segs[..n]);
      WritesOfSeg(n, segs[n]);
      WritesConcat(Entries(segs[..n]), SegEntries(n, segs[n]));
    }
  }

  lemma {:induction false} SegEntryAt(fd: nat, ws: seq<Write>, i: nat)
    requires i < |ws|
    ensures SegEntries(fd, ws)[i] == Entry(ws[i], HintFor(fd, ws[..i], ws[i]))
  {
    var last := |ws| - 1;
    if i < last {
      SegEntryAt(fd, ws[..last], i);
      assert ws[..last][..i] == ws[..i];
    }
  }

  lemma SegSnoc(fd: nat, ws: seq<Write>, w: Write)
    ensures SegEntries(fd, ws + [w]) == SegEntries(fd, ws) + [Entry(w, HintFor(fd, ws, w))]
  {
    assert (ws + [w])[..|ws|] == ws;
  }

  lemma {:induction false} EntriesOrdered(segs: seq<seq<Write>>)
    ensures Ordered(Entries(segs), |segs|)
  {
    if segs != [] {
      var n := |segs| - 1;
      EntriesOrdered(segs[..n]);
      forall i | 0 <= i < |segs[n]| ensures SegEntries(n, segs[n])[i].hint.fd == n {
        SegEntryAt(n, segs[n], i);
      }
    }
  }

  lemma SegOnDisk(x: Extend, files: map<nat, seq<byte>>, fd: nat, ws: seq<Write>)
    requires fd in files && EncodeAll(x, ws) <= files[fd]
    ensures AllOnDisk(files, SegEntries(fd, ws))
  {
    hide Encode, EncodeAll, Size, ToBytes, FromBytes, Low32, Occurs;
    forall i | 0 <= i < |ws| ensures OnDisk(files, SegEntries(fd, ws)[i]) {
      SegEntryAt(fd, ws, i);
      EncodedAt(x, ws, i);
      var pos := Size(ws[..i]);
      OccursWithin(EncodeAll(x, ws), files[fd], pos, Encode(x, ws[i]));
      EncodeOccurs(x, files[fd], pos, ws[i]);
    }
  }

  /** Every entry of a layout is on any disk whose files begin with the layout's logs. */
  lemma {:induction false} EntriesOnDisk(x: Extend, files: map<nat, seq<byte>>, segs: seq<seq<Write>>)
    requires forall fd: nat | fd < |segs| :: fd in files && EncodeAll(x, segs[fd]) <= files[fd]
    ensures AllOnDisk(files, Entries(segs))
  {
    hide EncodeAll, OnDisk, SegEntries;
    if segs != [] {
      var n := |segs| - 1;
      EntriesOnDisk(x, files, segs[..n]);
      SegOnDisk(x, files, n, segs[n]);
    }
  }

  /** On files that begin with the logs of a layout, its index and cache read as its log. */
  lemma FilesRead(x: Extend, files: map<nat, seq<byte>>, segs: Segments, k: Key)
    requires forall fd: nat | fd < |segs| :: fd in files && EncodeAll(x, segs[fd]) <= files[fd]
    ensures var n := |segs| - 1;
            Lookup(View(files, UpTo(n), Index(Entries(segs)), Cache(Entries(segs), n)), k) ==
            Find(Meaning(Flatten(segs)), k)
  {
    hide *;
    var es := Entries(segs);
    EntriesOnDisk(x, files, segs);
    EntriesOrdered(segs);
    WritesOfEntries(segs);
    assert es[..|es|] == es;
    LookupMeaning(View(files, UpTo(|segs| - 1), Index(es), Cache(es, |segs| - 1)), es, |es|, |es|, |segs| - 1, k);
  }

  /** The heart of the refinement: on the state of any layout `Get` is the plain map of the log. */
  lemma LookupRefines(x: Extend, segs: Segments, k: Key)
    ensures Lookup(ViewOf(x, segs), k) == Find(Meaning(Flatten(segs)), k)
  {
    hide EncodeAll, Lookup, Find, Meaning, Index, Cache, Entries, Flatten, Image, UpTo;
    FilesRead(x, Image(x, segs), segs, k);
  }

  /** Index and cache agree with the disk: a hint addresses, inside an existing file, exactly the bytes of its
      key's latest value; if that file is active the cache holds the same bytes, otherwise the file
      is in the stable table. The cache holds nothing else. */
  lemma IndexAgreesWithDisk(x: Extend, segs: Segments, k: Key)
    ensures var v, log, n := ViewOf(x, segs), Flatten(segs), |segs| - 1;
            var p := LastPos(log, k);
            && (k in v.index <==> p >= 0)
            && (k in v.cache <==> p >= 0 && v.index[k].fd == n)
            && (p >= 0 ==>
                  var h := v.index[k];
                  && h.fd in v.files && h.size == |log[p].value|
                  && Occurs(v.files[h.fd], h.offset, log[p].value)
                  && (h.fd == n ==> v.cache[k] == log[p].value)
                  && (h.fd != n ==> h.fd in v.stable))
  {
    hide EncodeAll, Index, Cache, Entries, Flatten, Image, Occurs;
    var es := Entries(segs);
    EntriesOrdered(segs);
    EntriesOnDisk(x, Image(x, segs), segs);
    WritesOfEntries(segs);
    IndexAt(es, k);
    CacheAt(es, |segs| - 1, k);
    var p := LastPos(Flatten(segs), k);
    if p >= 0 {
      assert OnDisk(Image(x, segs), es[p]);
    }
  }

  // ---------------------------------------------------------------- placing writes

  lemma EntriesUpdateLast(segs: Segments, ws: seq<Write>)
    ensures var n := |segs| - 1;
            Entries(segs[n := ws]) == Entries(segs[..n]) + SegEntries(n, ws)
  {
    var n := |segs| - 1;
    assert segs[n := ws][..n] == segs[..n];
  }

  lemma EntriesNewFile(segs: Segments)
    ensures Entries(segs + [[]]) == Entries(segs)
  {
    assert (segs + [[]])[..|segs|] == segs;
    assert SegEntries(|segs|, []) == [];
  }

  /** One placed write adds one entry, addressed in the file that was active before any rotation. */
  lemma EntriesPlace(segs: Segments, w: Write, maxSize: nat)
    ensures var n := |segs| - 1;
            Entries(Place(segs, w, maxSize)) == Entries(segs) + [Entry(w, HintFor(n, segs[n], w))]
  {
    hide ValueOffset, HintFor, Entries, SegEntries;
    var n := |segs| - 1;
    var grown := segs[n := segs[n] + [w]];
    EntriesUpdateLast(segs, segs[n]);
    assert segs[n := segs[n]] == segs;
    EntriesUpdateLast(segs, segs[n] + [w]);
    SegSnoc(n, segs[n], w);
    Assoc(Entries(segs[..n]), SegEntries(n, segs[n]), [Entry(w, HintFor(n, segs[n], w))]);
    EntriesNewFile(grown);
  }

  lemma {:induction false} EntriesPlaceAll(segs: Segments, ws: seq<Write>, maxSize: nat)
    ensures Entries(segs) <= Entries(PlaceAll(segs, ws, maxSize))
    ensures |Entries(PlaceAll(segs, ws, maxSize))| == |Entries(segs)| + |ws|
    ensures forall i | 0 <= i < |ws| :: Entries(PlaceAll(segs, ws, maxSize))[|Entries(segs)| + i].write == ws[i]
  {
    hide Place, Entries;
    if ws != [] {
      var init := ws[..|ws| - 1];
      EntriesPlaceAll(segs, init, maxSize);
      EntriesPlace(PlaceAll(segs, init, maxSize), ws[|ws| - 1], maxSize);
    }
  }

  lemma PlaceSnoc(segs: Segments, ws: seq<Write>, w: Write, maxSize: nat)
    ensures PlaceAll(segs, ws + [w], maxSize) == Place(PlaceAll(segs, ws, maxSize), w, maxSize)
  {
    assert (ws + [w])[..|ws|] == ws;
  }

  /** Placing keeps the log: the flattened layout grows by exactly the placed writes. */
  lemma FlattenPlaceAll(segs: Segments, ws: seq<Write>, maxSize: nat)
    ensures Flatten(PlaceAll(segs, ws, maxSize)) == Flatten(segs) + ws
  {
    hide PlaceAll, Entries, Flatten;
    EntriesPlaceAll(segs, ws, maxSize);
    WritesOfEntries(segs);
    WritesOfEntries(PlaceAll(segs, ws, maxSize));
  }

  /** Batch-split independence of the layout. */
  lemma {:induction false} PlaceAllConcat(segs: Segments, a: seq<Write>, b: seq<Write>, maxSize: nat)
    ensures PlaceAll(segs, a + b, maxSize) == PlaceAll(PlaceAll(segs, a, maxSize), b, maxSize)
  {
    hide Place;
    if b == [] {
      assert a + b == a;
    } else {
      assert (a + b)[..|a + b| - 1] == a + b[..|b| - 1];
      PlaceAllConcat(segs, a, b[..|b| - 1], maxSize);
    }
  }

  /** Files below the active one are never written again. */
  lemma {:induction false} PlaceAllKeepsStable(segs: Segments, ws: seq<Write>, maxSize: nat, fd: nat)
    requires fd < |segs| - 1
    ensures PlaceAll(segs, ws, maxSize)[fd] == segs[fd]
  {
    if ws != [] {
      PlaceAllKeepsStable(segs, ws[..|ws| - 1], maxSize, fd);
    }
  }

  // ---------------------------------------------------------------- 32-bit limits

  /** Every offset and every size of the layout is representable, so no conversion to `uint32_t` loses bits. */
  ghost predicate Fits(segs: seq<seq<Write>>)
  {
    forall i | 0 <= i < |Entries(segs)| ::
      Entries(segs)[i].hint.offset < WORD_LIMIT && Entries(segs)[i].hint.size < WORD_LIMIT
  }

  lemma FitsEarlier(segs: Segments, ws: seq<Write>, i: nat, maxSize: nat)
    requires i <= |ws| && Fits(PlaceAll(segs, ws, maxSize))
    ensures Fits(PlaceAll(segs, ws[..i], maxSize))
  {
    hide PlaceAll, Entries;
    assert ws == ws[..i] + ws[i..];
    PlaceAllConcat(segs, ws[..i], ws[i..], maxSize);
    EntriesPlaceAll(PlaceAll(segs, ws[..i], maxSize), ws[i..], maxSize);
  }

  lemma {:induction false} SegInEntries(segs: seq<seq<Write>>, fd: nat, i: nat) returns (m: nat)
    requires fd < |segs| && i < |segs[fd]|
    ensures m < |Entries(segs)| && Entries(segs)[m] == SegEntries(fd, segs[fd])[i]
  {
    var n := |segs| - 1;
    if fd == n {
      m := |Entries(segs[..n])| + i;
    } else {
      m := SegInEntries(segs[..n], fd, i);
    }
  }

  lemma FitsSeg(segs: seq<seq<Write>>, fd: nat)
    requires Fits(segs) && fd < |segs|
    ensures AllSized(segs[fd]) && OffsetsFit(segs[fd])
  {
    hide Entries;
    var ws := segs[fd];
    forall i | 0 <= i < |ws|
      ensures ValueOffset(ws[..i], ws[i]) < WORD_LIMIT && |ws[i].value| < WORD_LIMIT
    {
      var m := SegInEntries(segs, fd, i);
      SegEntryAt(fd, ws, i);
    }
  }
}
