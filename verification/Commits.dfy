/**
 Committing one write at a time: the reference the batched commit loop is proved against.
 */
module Commits {
  import opened Bytes
  import opened Codec
  import opened Layout
  import Recovery

  /** Commits a single write: append its record, index it, cache it, and rotate when its value starts
      at or past `maxSize`. Offsets and sizes are converted to `uint32_t` as in the code. */
  function CommitOne(x: Extend, v: View, w: Write, maxSize: nat): (r: View)
  {
    var active := |v.stable|;
    var data := if active in v.files then v.files[active] else [];
    var offset := Low32(|data| + HEADER + |w.key|);
    var files := v.files[active := data + Encode(x, w)];
    var index := v.index[w.key := Hint(active, offset, Low32(|w.value|))];
    if offset < maxSize
    then View(files, v.stable, index, v.cache[w.key := w.value])
    else View(files[active + 1 := []], v.stable + {active}, index, map[])
  }

  function CommitAll(x: Extend, v: View, ws: seq<Write>, maxSize: nat): (r: View)
  {
    if ws == [] then v else CommitOne(x, CommitAll(x, v, ws[..|ws| - 1], maxSize), ws[|ws| - 1], maxSize)
  }

  lemma {:induction false} CommitAllConcat(x: Extend, v: View, a: seq<Write>, b: seq<Write>, maxSize: nat)
    ensures CommitAll(x, v, a + b, maxSize) == CommitAll(x, CommitAll(x, v, a, maxSize), b, maxSize)
  {
    hide CommitOne;
    if b == [] {
      assert a + b == a;
    } else {
      assert (a + b)[..|a + b| - 1] == a + b[..|b| - 1];
      CommitAllConcat(x, v, a, b[..|b| - 1], maxSize);
    }
  }

  /** The files after placing one write, in terms of the files before. */
  lemma ImagePlace(x: Extend, segs: Segments, w: Write, maxSize: nat)
    ensures var n := |segs| - 1;
            var files := Image(x, segs)[n := EncodeAll(x, segs[n]) + Encode(x, w)];
            Image(x, Place(segs, w, maxSize)) ==
            if ValueOffset(segs[n], w) < maxSize then files else files[n + 1 := []]
  {
    hide Encode, EncodeAll, ValueOffset, Image;
    var n := |segs| - 1;
    Snoc(x, segs[n], w);
    ImageUpdate(x, segs, segs[n] + [w]);
    ImageNewFile(x, segs[n := segs[n] + [w]]);
  }

  lemma ImageUpdate(x: Extend, segs: Segments, ws: seq<Write>)
    ensures var n := |segs| - 1;
            Image(x, segs[n := ws]) == Image(x, segs)[n := EncodeAll(x, ws)]
  {
    hide EncodeAll, Image;
  }

  lemma ImageNewFile(x: Extend, segs: Segments)
    ensures Image(x, segs + [[]]) == Image(x, segs)[|segs| := []]
  {
    hide Image;
  }

  lemma PlacedFits(segs: Segments, w: Write, maxSize: nat)
    requires Fits(Place(segs, w, maxSize))
    ensures ValueOffset(segs[|segs| - 1], w) < WORD_LIMIT && |w.value| < WORD_LIMIT
    ensures Fits(segs)
  {
    hide Entries, ValueOffset, Place;
    var n := |segs| - 1;
    EntriesPlace(segs, w, maxSize);
    var count := |Entries(segs)|;
    assert Entries(Place(segs, w, maxSize))[count] == Entry(w, HintFor(n, segs[n], w));
    forall i | 0 <= i < count
      ensures Entries(segs)[i].hint.offset < WORD_LIMIT && Entries(segs)[i].hint.size < WORD_LIMIT
    {
      assert Entries(Place(segs, w, maxSize))[i] == Entries(segs)[i];
    }
  }

  lemma StableGrows(n: nat)
    ensures UpTo(n) + {n} == UpTo(n + 1)
  {
  }

  /** A rotation empties the cache: no entry of the layout is in the new active file. */
  lemma CacheOfPlaced(segs: Segments, w: Write, maxSize: nat)
    ensures var n := |segs| - 1;
            Cache(Entries(Place(segs, w, maxSize)), |Place(segs, w, maxSize)| - 1) ==
            if ValueOffset(segs[n], w) < maxSize then Cache(Entries(segs), n)[w.key := w.value] else map[]
  {
    hide Entries, ValueOffset, Cache, Place;
    var n := |segs| - 1;
    var placed := Place(segs, w, maxSize);
    EntriesPlace(segs, w, maxSize);
    CacheSnoc(Entries(segs), Entry(w, HintFor(n, segs[n], w)), n);
    PlaceLength(segs, w, maxSize);
    if ValueOffset(segs[n], w) >= maxSize {
      EntriesOrdered(segs);
      Recovery.CacheNone(Entries(placed), n + 1);
    }
  }

  lemma PlaceLength(segs: Segments, w: Write, maxSize: nat)
    ensures |Place(segs, w, maxSize)| == if ValueOffset(segs[|segs| - 1], w) < maxSize then |segs| else |segs| + 1
  {
  }

  /** Committing one write is placing it: the state stays the state of a layout. */
  lemma CommitOneIsPlace(x: Extend, segs: Segments, w: Write, maxSize: nat)
    requires Fits(Place(segs, w, maxSize))
    ensures CommitOne(x, ViewOf(x, segs), w, maxSize) == ViewOf(x, Place(segs, w, maxSize))
  {
    hide Entries, Encode, EncodeAll, Index, Cache, Image, Fits, Place, ValueOffset, Low32, UpTo;
    var n := |segs| - 1;
    var placed := Place(segs, w, maxSize);
    PlacedFits(segs, w, maxSize);
    ImagePlace(x, segs, w, maxSize);
    EntriesPlace(segs, w, maxSize);
    IndexSnoc(Entries(segs), Entry(w, HintFor(n, segs[n], w)));
    CacheOfPlaced(segs, w, maxSize);
    PlaceLength(segs, w, maxSize);
    StableGrows(n);
    DataLength(x, segs[n], w);
  }

  lemma DataLength(x: Extend, ws: seq<Write>, w: Write)
    ensures |EncodeAll(x, ws)| + HEADER + |w.key| == ValueOffset(ws, w)
  {
  }

  lemma {:induction false} CommitAllIsPlaceAll(x: Extend, segs: Segments, ws: seq<Write>, maxSize: nat)
    requires Fits(PlaceAll(segs, ws, maxSize))
    ensures CommitAll(x, ViewOf(x, segs), ws, maxSize) == ViewOf(x, PlaceAll(segs, ws, maxSize))
  {
    hide CommitOne, Place, Fits, ViewOf;
    if ws != [] {
      var last := |ws| - 1;
      FitsEarlier(segs, ws, last, maxSize);
      CommitAllIsPlaceAll(x, segs, ws[..last], maxSize);
      CommitOneIsPlace(x, PlaceAll(segs, ws[..last], maxSize), ws[last], maxSize);
    }
  }

  lemma PlaceNothing(segs: Segments, ws: seq<Write>, maxSize: nat)
    ensures PlaceAll(segs, ws[..0], maxSize) == segs
  {
  }

  lemma FitsStart(segs: Segments, ws: seq<Write>, maxSize: nat)
    requires Fits(PlaceAll(segs, ws, maxSize))
    ensures Fits(segs)
  {
    hide PlaceAll, Fits;
    FitsEarlier(segs, ws, 0, maxSize);
    PlaceNothing(segs, ws, maxSize);
  }

  /** One turn of the commit loop, in terms of what the loop reads and writes. */
  lemma AppendStep(x: Extend, segs: Segments, ws: seq<Write>, i: nat, maxSize: nat)
    requires i < |ws| && Fits(PlaceAll(segs, ws, maxSize))
    ensures var cur, next := PlaceAll(segs, ws[..i], maxSize), PlaceAll(segs, ws[..i + 1], maxSize);
            var n, w := |cur| - 1, ws[i];
            var data := EncodeAll(x, cur[n]);
            var offset := |data| + HEADER + |w.key|;
            var files := Image(x, cur)[n := data + Encode(x, w)];
            && offset < WORD_LIMIT && |w.value| < WORD_LIMIT
            && Entries(next) == Entries(cur) + [Entry(w, Hint(n, offset, |w.value|))]
            && |next| == (if offset < maxSize then |cur| else |cur| + 1)
            && Image(x, next) == (if offset < maxSize then files else files[n + 1 := []])
  {
    hide Entries, Encode, EncodeAll, Image, Fits, Place, PlaceAll, ValueOffset;
    var cur, w := PlaceAll(segs, ws[..i], maxSize), ws[i];
    var n := |cur| - 1;
    PrefixSnoc(ws, i);
    PlaceSnoc(segs, ws[..i], w, maxSize);
    FitsEarlier(segs, ws, i + 1, maxSize);
    PlacedFits(cur, w, maxSize);
    ImagePlace(x, cur, w, maxSize);
    EntriesPlace(cur, w, maxSize);
    PlaceLength(cur, w, maxSize);
    DataLength(x, cur[n], w);
  }

  /** What the first loop hands to the second: the hints of the last `|ws|` entries, and the number of
      writes up to and including the last one that rotated. */
  ghost predicate PublicationData(es: seq<Entry>, ws: seq<Write>, records: seq<Hint>, lastActive: nat, active: nat)
  {
    && |records| == |ws| <= |es|
    && lastActive <= |ws|
    && forall i | 0 <= i < |ws| ::
         var e := es[|es| - |ws| + i];
         e == Entry(ws[i], records[i]) && (lastActive <= i <==> records[i].fd == active) && records[i].fd <= active
  }

  /** Before the first publication step the cache already is what the layout's entries of the earlier
      commits say about the new active file, once it has been cleared if there was a rotation. */
  lemma CacheBeforePublication(segs: Segments, ws: seq<Write>, maxSize: nat)
    ensures var next := PlaceAll(segs, ws, maxSize);
            Cache(Entries(segs), |next| - 1) ==
            if |next| > |segs| then map[] else Cache(Entries(segs), |segs| - 1)
  {
    hide Entries, Cache, PlaceAll;
    var next := PlaceAll(segs, ws, maxSize);
    EntriesOrdered(segs);
    if |next| > |segs| {
      Recovery.CacheNone(Entries(segs), |next| - 1);
    }
  }

  lemma PublishStep(es: seq<Entry>, i: nat, active: nat)
    requires i < |es|
    ensures Index(es[..i + 1]) == Index(es[..i])[es[i].write.key := es[i].hint]
    ensures Cache(es[..i + 1], active) ==
            if es[i].hint.fd == active then Cache(es[..i], active)[es[i].write.key := es[i].write.value]
            else Cache(es[..i], active)
  {
    PrefixSnoc(es, i);
    IndexSnoc(es[..i], es[i]);
    CacheSnoc(es[..i], es[i], active);
  }

  lemma RecordStep(es: seq<Entry>, ws: seq<Write>, records: seq<Hint>, lastActive: nat, active: nat, w: Write, h: Hint)
    requires PublicationData(es, ws, records, lastActive, active) && h.fd == active
    ensures PublicationData(es + [Entry(w, h)], ws + [w], records + [h], lastActive, active)
  {
    var es', ws', records' := es + [Entry(w, h)], ws + [w], records + [h];
    forall i | 0 <= i < |ws'|
      ensures es'[|es'| - |ws'| + i] == Entry(ws'[i], records'[i])
              && (lastActive <= i <==> records'[i].fd == active) && records'[i].fd <= active
    {
      if i < |ws| {
        assert es'[|es'| - |ws'| + i] == es[|es| - |ws| + i];
      }
    }
  }

  lemma RecordRotation(es: seq<Entry>, ws: seq<Write>, records: seq<Hint>, lastActive: nat, active: nat)
    requires PublicationData(es, ws, records, lastActive, active)
    ensures PublicationData(es, ws, records, |ws|, active + 1)
  {
  }

  lemma {:induction false} PublicationExists(segs: Segments, ws: seq<Write>, maxSize: nat)
    returns (records: seq<Hint>, lastActive: nat)
    ensures var next := PlaceAll(segs, ws, maxSize);
            PublicationData(Entries(next), ws, records, lastActive, |next| - 1)
  {
    hide Entries, Place, PublicationData, HintFor;
    if ws == [] {
      records, lastActive := [], 0;
      NothingToPublish(Entries(segs), |segs| - 1);
    } else {
      var last := |ws| - 1;
      var init, w := PlaceAll(segs, ws[..last], maxSize), ws[last];
      records, lastActive := PublicationExists(segs, ws[..last], maxSize);
      var n := |init| - 1;
      var h := HintFor(n, init[n], w);
      EntriesPlace(init, w, maxSize);
      PlaceLength(init, w, maxSize);
      HintId(n, init[n], w);
      RecordStep(Entries(init), ws[..last], records, lastActive, n, w, h);
      PrefixSnoc(ws, last);
      assert ws[..last + 1] == ws;
      records := records + [h];
      if |PlaceAll(segs, ws, maxSize)| > |init| {
        RecordRotation(Entries(init) + [Entry(w, h)], ws, records, lastActive, n);
        lastActive := |ws|;
      }
    }
  }

  lemma HintId(fd: nat, ws: seq<Write>, w: Write)
    ensures HintFor(fd, ws, w).fd == fd
  {
  }

  lemma NothingToPublish(es: seq<Entry>, active: nat)
    ensures PublicationData(es, [], [], 0, active)
  {
  }

  lemma PublicationUnique(es: seq<Entry>, ws: seq<Write>, records: seq<Hint>, lastActive: nat,
                          records': seq<Hint>, lastActive': nat, active: nat)
    requires PublicationData(es, ws, records, lastActive, active)
    requires PublicationData(es, ws, records', lastActive', active)
    ensures records == records' && lastActive == lastActive'
  {
    forall i | 0 <= i < |ws| ensures records[i] == records'[i] {
      assert es[|es| - |ws| + i] == Entry(ws[i], records[i]);
      assert es[|es| - |ws| + i] == Entry(ws[i], records'[i]);
    }
    var i := if lastActive < lastActive' then lastActive else lastActive';
    if i < |ws| {
      assert lastActive <= i <==> records[i].fd == active;
      assert lastActive' <= i <==> records[i].fd == active;
    }
  }
}
