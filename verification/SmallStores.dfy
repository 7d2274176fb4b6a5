/**
 A few small layouts, for the runs that show what can go wrong.
 */
module SmallStores {
  import opened Codec
  import opened Layout
  import opened Commits

  const KEY: Key := [107]
  const OTHER: Key := [106]

  lemma NothingYetWritten()
    ensures Entries([[]]) == []
  {
    var none: seq<seq<Write>> := [[]];
    assert none[..0] == [];
    assert SegEntries(0, []) == [];
  }

  lemma PlaceOne(segs: Segments, w: Write, maxSize: nat)
    ensures PlaceAll(segs, [w], maxSize) == Place(segs, w, maxSize)
  {
    hide Place;
    assert [w][..0] == [] && [] + [w] == [w];
    PlaceNothing(segs, [w], maxSize);
    PlaceSnoc(segs, [], w, maxSize);
  }

  lemma Offsets(w: Write, w2: Write)
    ensures ValueOffset([], w) == HEADER + |w.key|
    ensures ValueOffset([w], w2) == RecordSize(w) + HEADER + |w2.key|
  {
    assert [w][..0] == [];
  }

  /** One write, given where its value lands in the active file. */
  lemma PlacedAt(segs: Segments, w: Write, maxSize: nat, offset: nat)
    requires ValueOffset(segs[|segs| - 1], w) == offset
    ensures var n := |segs| - 1;
            var grown := segs[n := segs[n] + [w]];
            && PlaceAll(segs, [w], maxSize) == (if offset < maxSize then grown else grown + [[]])
            && Entries(PlaceAll(segs, [w], maxSize)) == Entries(segs) + [Entry(w, Hint(n, offset, |w.value|))]
  {
    hide Entries, ValueOffset;
    PlaceOne(segs, w, maxSize);
    EntriesPlace(segs, w, maxSize);
  }

  /** A store with one record, small enough for the file not to rotate. */
  lemma OneRecordStore(w: Write, maxSize: nat)
    requires HEADER + |w.key| < maxSize
    ensures PlaceAll([[]], [w], maxSize) == [[w]]
    ensures Entries([[w]]) == [Entry(w, Hint(0, HEADER + |w.key|, |w.value|))]
    ensures Cache(Entries([[w]]), 0) == map[w.key := w.value]
  {
    hide Entries, Cache, PlaceAll, ValueOffset;
    var none: Segments := [[]];
    var e := Entry(w, Hint(0, HEADER + |w.key|, |w.value|));
    Offsets(w, w);
    PlacedAt(none, w, maxSize, HEADER + |w.key|);
    assert none[0] + [w] == [w];
    assert none[0 := [w]] == [[w]];
    NothingYetWritten();
    assert [] + [e] == [e];
    CacheSnoc([], e, 0);
    EmptyCache();
  }

  lemma EmptyCache()
    ensures Cache([], 0) == map[]
  {
  }

  /** A second record that starts past the limit makes the file rotate. */
  lemma RotatesNext(w: Write, w2: Write, maxSize: nat)
    requires HEADER + |w.key| < maxSize <= RecordSize(w) + HEADER + |w2.key|
    ensures PlaceAll([[w]], [w2], maxSize) == [[w, w2], []]
    ensures var e := Entry(w2, Hint(0, RecordSize(w) + HEADER + |w2.key|, |w2.value|));
            Entries([[w, w2], []]) == [Entry(w, Hint(0, HEADER + |w.key|, |w.value|)), e]
  {
    hide Entries, PlaceAll, ValueOffset, RecordSize;
    var one: Segments := [[w]];
    OneRecordStore(w, maxSize);
    Offsets(w, w2);
    PlacedAt(one, w2, maxSize, RecordSize(w) + HEADER + |w2.key|);
    assert one[0] + [w2] == [w, w2];
    assert one[0 := [w, w2]] == [[w, w2]];
    assert [[w, w2]] + [[]] == [[w, w2], []];
  }

  /** A second record that starts below the limit does not. */
  lemma StaysNext(w: Write, w2: Write, maxSize: nat)
    requires RecordSize(w) + HEADER + |w2.key| < maxSize
    ensures PlaceAll([[w]], [w2], maxSize) == [[w, w2]]
    ensures var e := Entry(w2, Hint(0, RecordSize(w) + HEADER + |w2.key|, |w2.value|));
            Entries([[w, w2]]) == [Entry(w, Hint(0, HEADER + |w.key|, |w.value|)), e]
  {
    hide Entries, PlaceAll, ValueOffset;
    var one: Segments := [[w]];
    OneRecordStore(w, maxSize);
    Offsets(w, w2);
    PlacedAt(one, w2, maxSize, RecordSize(w) + HEADER + |w2.key|);
    assert one[0] + [w2] == [w, w2];
    assert one[0 := [w, w2]] == [[w, w2]];
  }

  lemma RotatesThenStays(w: Write, w2: Write, w3: Write, maxSize: nat)
    requires HEADER + |w.key| < maxSize <= RecordSize(w) + HEADER + |w2.key| && HEADER + |w3.key| < maxSize
    ensures PlaceAll([[w]], [w2, w3], maxSize) == [[w, w2], [w3]]
    ensures var e := Entry(w2, Hint(0, RecordSize(w) + HEADER + |w2.key|, |w2.value|));
            Entries([[w, w2], [w3]]) == [Entry(w, Hint(0, HEADER + |w.key|, |w.value|)), e,
                                         Entry(w3, Hint(1, HEADER + |w3.key|, |w3.value|))]
  {
    hide Entries, PlaceAll, ValueOffset, RecordSize;
    var two: Segments := [[w, w2], []];
    RotatesNext(w, w2, maxSize);
    PlaceAllConcat([[w]], [w2], [w3], maxSize);
    assert [w2] + [w3] == [w2, w3];
    Offsets(w3, w3);
    PlacedAt(two, w3, maxSize, HEADER + |w3.key|);
    assert two[1] + [w3] == [w3];
    assert two[1 := [w3]] == [[w, w2], [w3]];
  }
}
