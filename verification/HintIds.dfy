/**
 The file id in the hints of a batch. What is meant is the id of the file the write went to, and the store
 is modelled so. As written, the id is that of the file that was active before the batch; here is
 exactly when the two agree, and what happens when they do not.
 */
module HintIds {
  import opened Codec
  import opened Layout
  import opened Commits
  import opened SmallStores

  /** The hints of a batch as written: all carry the id that was active before the batch. */
  function HintsAsWritten(segs: Segments, ws: seq<Write>, maxSize: nat): (es: seq<Entry>)
    ensures |es| == |ws|
  {
    EntriesPlaceAll(segs, ws, maxSize);
    var placed := Entries(PlaceAll(segs, ws, maxSize));
    seq(|ws|, i requires 0 <= i < |ws| =>
      var e := placed[|Entries(segs)| + i];
      Entry(e.write, Hint(|segs| - 1, e.hint.offset, e.hint.size)))
  }

  /** The index after a batch as written. */
  function IndexAsWritten(segs: Segments, ws: seq<Write>, maxSize: nat): (m: map<Key, Hint>)
  {
    Index(Entries(segs) + HintsAsWritten(segs, ws, maxSize))
  }

  lemma {:induction false} BatchIds(segs: Segments, ws: seq<Write>, maxSize: nat, i: nat)
    requires i < |ws|
    ensures |Entries(PlaceAll(segs, ws, maxSize))| == |Entries(segs)| + |ws|
    ensures |segs| - 1 <= Entries(PlaceAll(segs, ws, maxSize))[|Entries(segs)| + i].hint.fd
    ensures i == |ws| - 1 ==>
              Entries(PlaceAll(segs, ws, maxSize))[|Entries(segs)| + i].hint.fd
              == |PlaceAll(segs, ws[..i], maxSize)| - 1
  {
    hide Place, Entries;
    EntriesPlaceAll(segs, ws, maxSize);
    var last := |ws| - 1;
    var init := PlaceAll(segs, ws[..last], maxSize);
    EntriesPlace(init, ws[last], maxSize);
    EntriesPlaceAll(segs, ws[..last], maxSize);
    if i < last {
      BatchIds(segs, ws[..last], maxSize, i);
    }
  }

  /** No write but the last of the batch makes the file rotate. */
  ghost predicate OnlyLastRotates(segs: Segments, ws: seq<Write>, maxSize: nat)
  {
    ws == [] || |PlaceAll(segs, ws[..|ws| - 1], maxSize)| == |segs|
  }

  lemma HintsAgree(segs: Segments, ws: seq<Write>, maxSize: nat)
    requires OnlyLastRotates(segs, ws, maxSize)
    ensures Entries(segs) + HintsAsWritten(segs, ws, maxSize) == Entries(PlaceAll(segs, ws, maxSize))
  {
    hide PlaceAll, Entries;
    EntriesPlaceAll(segs, ws, maxSize);
    var es := Entries(PlaceAll(segs, ws, maxSize));
    var base := |Entries(segs)|;
    EntriesOrdered(PlaceAll(segs, ws, maxSize));
    var hs := HintsAsWritten(segs, ws, maxSize);
    forall i | 0 <= i < |ws| ensures hs[i] == es[base + i] {
      BatchIds(segs, ws, maxSize, i);
      BatchIds(segs, ws, maxSize, |ws| - 1);
      assert es[base + i].hint.fd <= es[base + |ws| - 1].hint.fd;
    }
  }

  /** The index as written is right if and only if no write but the last of the batch rotates, which is
      always so for a batch of one. */
  lemma HintIdsExact(segs: Segments, ws: seq<Write>, maxSize: nat)
    ensures IndexAsWritten(segs, ws, maxSize) == Index(Entries(PlaceAll(segs, ws, maxSize)))
            <==> OnlyLastRotates(segs, ws, maxSize)
  {
    hide PlaceAll, Entries, Index;
    if OnlyLastRotates(segs, ws, maxSize) {
      HintsAgree(segs, ws, maxSize);
    } else {
      var last := |ws| - 1;
      var es, hs := Entries(PlaceAll(segs, ws, maxSize)), HintsAsWritten(segs, ws, maxSize);
      var base := |Entries(segs)|;
      EntriesPlaceAll(segs, ws, maxSize);
      BatchIds(segs, ws, maxSize, last);
      var e, h := es[base + last], hs[last];
      IndexLast(es);
      IndexLast(Entries(segs) + hs);
      assert (Entries(segs) + hs)[base + last] == h;
      assert h.hint.fd == |segs| - 1 != e.hint.fd;
    }
  }

  lemma IndexLast(es: seq<Entry>)
    requires es != []
    ensures var e := es[|es| - 1];
            e.write.key in Index(es) && Index(es)[e.write.key] == e.hint
  {
  }

  /** The state after a batch with hints as written; only the index differs. */
  function ViewAsWritten(x: Extend, segs: Segments, ws: seq<Write>, maxSize: nat): (v: View)
  {
    ViewOf(x, PlaceAll(segs, ws, maxSize)).(index := IndexAsWritten(segs, ws, maxSize))
  }

  lemma AlonePlaced(segs: Segments, w: Write, maxSize: nat)
    requires segs[|segs| - 1] == [] && maxSize <= HEADER + |w.key|
    ensures Place(segs, w, maxSize) == segs[..|segs| - 1] + [[w]] + [[]]
  {
    var n := |segs| - 1;
    var none: seq<Write> := [];
    assert none + [w] == [w] && Size(none) == 0;
    UpdateLast(segs, [w]);
  }

  lemma UpdateLast<T>(s: seq<T>, t: T)
    requires s != []
    ensures s[|s| - 1 := t] == s[..|s| - 1] + [t]
  {
  }

  /** A write whose value starts past the limit gets an empty active file for itself. */
  lemma PlaceFresh(segs: Segments, w: Write, maxSize: nat)
    requires segs[|segs| - 1] == [] && maxSize <= HEADER + |w.key|
    ensures Place(segs, w, maxSize) == segs[..|segs| - 1] + [[w]] + [[]]
    ensures Entries(Place(segs, w, maxSize)) ==
            Entries(segs) + [Entry(w, Hint(|segs| - 1, HEADER + |w.key|, |w.value|))]
  {
    hide Entries, Place;
    AlonePlaced(segs, w, maxSize);
    EntriesPlace(segs, w, maxSize);
    assert HintFor(|segs| - 1, [], w) == Hint(|segs| - 1, HEADER + |w.key|, |w.value|);
  }

  lemma TwoRotations(w1: Write, w2: Write, maxSize: nat)
    requires maxSize <= HEADER + |w1.key| && maxSize <= HEADER + |w2.key|
    ensures PlaceAll([[]], [w1, w2], maxSize) == [[w1], [w2], []]
    ensures Entries([[w1], [w2], []]) ==
            [Entry(w1, Hint(0, HEADER + |w1.key|, |w1.value|)), Entry(w2, Hint(1, HEADER + |w2.key|, |w2.value|))]
  {
    hide Place, Entries, PlaceAll;
    var none: Segments := [[]];
    var one: Segments := [[w1], []];
    PlaceFresh(none, w1, maxSize);
    assert none[..0] + [[w1]] + [[]] == one;
    PlaceFresh(one, w2, maxSize);
    assert one[..1] + [[w2]] + [[]] == [[w1], [w2], []];
    PlaceNothing(none, [w1], maxSize);
    assert [w1][..0] == [] && [] + [w1] == [w1] && [w1] + [w2] == [w1, w2];
    PlaceSnoc(none, [], w1, maxSize);
    PlaceSnoc(none, [w1], w2, maxSize);
    NothingYetWritten();
  }

  /** What a wrong id can do: two writes of keys and values of equal lengths, committed in one batch of which
      both rotate, and `Get` of the second key answers with the value of the first. */
  lemma OtherKeysValue(x: Extend, w1: Write, w2: Write, maxSize: nat)
    requires w1.key != w2.key && |w1.key| == |w2.key| && |w1.value| == |w2.value|
    requires maxSize <= HEADER + |w1.key|
    ensures Lookup(ViewAsWritten(x, [[]], [w1, w2], maxSize), w2.key) == Live(w1.value)
    ensures Find(Meaning([w1, w2]), w2.key) == Live(w2.value)
  {
    hide EncodeAll, Encode, Meaning, PlaceAll, Entries, Index;
    TwoRotations(w1, w2, maxSize);
    var none: Segments := [[]];
    var v := ViewAsWritten(x, none, [w1, w2], maxSize);
    var es := HintsAsWritten(none, [w1, w2], maxSize);
    EntriesPlaceAll(none, [w1, w2], maxSize);
    NothingYetWritten();
    assert Entries(none) + es == es;
    IndexLast(es);
    assert v.index[w2.key] == Hint(0, HEADER + |w2.key|, |w2.value|);
    OneRecord(x, w1);
    assert v.files[0] == EncodeAll(x, [w1]);
    EncodeOccurs(x, Encode(x, w1), 0, w1);
    MeaningLast([w1, w2], w2.key);
  }

  lemma OneRecord(x: Extend, w: Write)
    ensures EncodeAll(x, [w]) == Encode(x, w)
  {
    assert [w][..0] == [];
  }
}
