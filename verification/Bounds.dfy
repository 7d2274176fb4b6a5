/**
 How large files get: the rotation bound, and the absence of 32-bit wrap-around under size bounds.
 */
module Bounds {
  import opened Bytes
  import opened Codec
  import opened Layout
  import opened Runs

  /** Every value of the log starts below `maxSize`. */
  ghost predicate StartsBelow(ws: seq<Write>, maxSize: nat)
  {
    forall i | 0 <= i < |ws| :: ValueOffset(ws[..i], ws[i]) < maxSize
  }

  /** All values but the last start below `maxSize`, the last one at or past it. */
  ghost predicate LastCrosses(ws: seq<Write>, maxSize: nat)
  {
    && ws != []
    && StartsBelow(ws[..|ws| - 1], maxSize)
    && ValueOffset(ws[..|ws| - 1], ws[|ws| - 1]) >= maxSize
  }

  /** The shape rotation gives every file: stable files end with the write that crossed the limit, and no
      write in the active file has crossed it yet. */
  ghost predicate Rotated(segs: Segments, maxSize: nat)
  {
    && (forall fd | 0 <= fd < |segs| - 1 :: LastCrosses(segs[fd], maxSize))
    && StartsBelow(segs[|segs| - 1], maxSize)
  }

  lemma StartsBelowSnoc(ws: seq<Write>, w: Write, maxSize: nat)
    requires StartsBelow(ws, maxSize)
    ensures ValueOffset(ws, w) < maxSize ==> StartsBelow(ws + [w], maxSize)
    ensures ValueOffset(ws, w) >= maxSize ==> LastCrosses(ws + [w], maxSize)
  {
    assert (ws + [w])[..|ws|] == ws;
    forall i | 0 <= i < |ws| ensures ValueOffset((ws + [w])[..i], (ws + [w])[i]) < maxSize {
      assert (ws + [w])[..i] == ws[..i];
      assert ValueOffset(ws[..i], ws[i]) < maxSize;
    }
  }

  lemma PlaceRotates(segs: Segments, w: Write, maxSize: nat)
    requires Rotated(segs, maxSize)
    ensures Rotated(Place(segs, w, maxSize), maxSize)
  {
    hide ValueOffset, StartsBelow, LastCrosses;
    StartsBelowSnoc(segs[|segs| - 1], w, maxSize);
    assert StartsBelow([], maxSize) by { NothingStarts(maxSize); }
  }

  lemma NothingStarts(maxSize: nat)
    ensures StartsBelow([], maxSize)
  {
  }

  lemma {:induction false} PlaceAllRotates(segs: Segments, ws: seq<Write>, maxSize: nat)
    requires Rotated(segs, maxSize)
    ensures Rotated(PlaceAll(segs, ws, maxSize), maxSize)
  {
    hide Place, Rotated;
    if ws != [] {
      PlaceAllRotates(segs, ws[..|ws| - 1], maxSize);
      PlaceRotates(PlaceAll(segs, ws[..|ws| - 1], maxSize), ws[|ws| - 1], maxSize);
    }
  }

  /** A run under one size limit. */
  ghost predicate OneLimit(ops: seq<Op>, maxSize: nat)
  {
    forall i | 0 <= i < |ops| :: ops[i].Commit? ==> ops[i].maxSize == maxSize
  }

  /** Rotation bound: in every run under one size limit, with any restarts, every file has the shape
      described by `Rotated`. */
  lemma {:induction false} RunRotates(ops: seq<Op>, maxSize: nat)
    requires OneLimit(ops, maxSize)
    ensures Rotated(LayoutOf(ops), maxSize)
  {
    hide Rotated, PlaceAll;
    if ops == [] {
      NothingRotated(maxSize);
    } else {
      var init, op := ops[..|ops| - 1], ops[|ops| - 1];
      assert OneLimit(init, maxSize);
      RunRotates(init, maxSize);
      if op.Commit? {
        PlaceAllRotates(LayoutOf(init), op.batch, maxSize);
      }
    }
  }

  lemma NothingRotated(maxSize: nat)
    ensures Rotated([[]], maxSize)
  {
  }

  /** Key and value sizes are bounded. */
  ghost predicate Small(ws: seq<Write>, maxKey: nat, maxValue: nat)
  {
    forall i | 0 <= i < |ws| :: |ws[i].key| <= maxKey && |ws[i].value| <= maxValue
  }

  /** A log whose values all start below the limit is shorter than limit plus one value. */
  lemma BelowSize(ws: seq<Write>, maxSize: nat, maxKey: nat, maxValue: nat)
    requires maxSize >= 1 && StartsBelow(ws, maxSize) && Small(ws, maxKey, maxValue)
    ensures Size(ws) <= maxSize - 1 + maxValue
  {
    if ws != [] {
      var last := |ws| - 1;
      assert ValueOffset(ws[..last], ws[last]) < maxSize;
    }
  }

  lemma BelowBounds(ws: seq<Write>, i: nat, maxSize: nat, maxKey: nat, maxValue: nat)
    requires maxSize >= 1 && Small(ws, maxKey, maxValue) && i < |ws| && StartsBelow(ws, maxSize)
    ensures ValueOffset(ws[..i], ws[i]) <= maxSize - 1
    ensures Size(ws) <= maxSize - 1 + maxValue
  {
    BelowSize(ws, maxSize, maxKey, maxValue);
    assert ValueOffset(ws[..i], ws[i]) < maxSize;
  }

  lemma CrossingBounds(ws: seq<Write>, maxSize: nat, maxKey: nat, maxValue: nat)
    requires maxSize >= 1 && Small(ws, maxKey, maxValue) && LastCrosses(ws, maxSize)
    ensures var last := |ws| - 1;
            ValueOffset(ws[..last], ws[last]) <= maxSize + maxValue + maxKey + 11
    ensures Size(ws) <= maxSize + 2 * maxValue + maxKey + 11
  {
    hide StartsBelow;
    var last := |ws| - 1;
    BelowSize(ws[..last], maxSize, maxKey, maxValue);
    SmallAt(ws, last, maxKey, maxValue);
  }

  lemma CrossingPrefix(ws: seq<Write>, maxSize: nat, maxKey: nat, maxValue: nat)
    requires Small(ws, maxKey, maxValue) && LastCrosses(ws, maxSize)
    ensures ws != [] && Small(ws[..|ws| - 1], maxKey, maxValue) && StartsBelow(ws[..|ws| - 1], maxSize)
  {
    hide StartsBelow;
  }

  /** The values of a file before the one that crosses the limit. */
  lemma BeforeCrossing(ws: seq<Write>, i: nat, maxSize: nat, maxKey: nat, maxValue: nat)
    requires maxSize >= 1 && Small(ws, maxKey, maxValue) && LastCrosses(ws, maxSize) && i < |ws| - 1
    ensures ValueOffset(ws[..i], ws[i]) <= maxSize - 1
  {
    hide *;
    CrossingPrefix(ws, maxSize, maxKey, maxValue);
    var init := ws[..|ws| - 1];
    PrefixOfPrefix(ws, i, |ws| - 1);
    assert init[i] == ws[i];
    BelowBounds(init, i, maxSize, maxKey, maxValue);
  }

  /** Offsets and lengths within one file. */
  lemma FileBounds(ws: seq<Write>, i: nat, maxSize: nat, maxKey: nat, maxValue: nat)
    requires maxSize >= 1 && Small(ws, maxKey, maxValue) && i < |ws|
    requires StartsBelow(ws, maxSize) || LastCrosses(ws, maxSize)
    ensures ValueOffset(ws[..i], ws[i]) <= maxSize + maxValue + maxKey + 11
    ensures Size(ws) <= maxSize + 2 * maxValue + maxKey + 11
  {
    hide *;
    if StartsBelow(ws, maxSize) {
      BelowBounds(ws, i, maxSize, maxKey, maxValue);
    } else {
      CrossingBounds(ws, maxSize, maxKey, maxValue);
      if i < |ws| - 1 {
        BeforeCrossing(ws, i, maxSize, maxKey, maxValue);
      }
    }
  }

  lemma {:induction false} SegSmall(segs: seq<seq<Write>>, fd: nat, maxKey: nat, maxValue: nat)
    requires Small(Flatten(segs), maxKey, maxValue) && fd < |segs|
    ensures Small(segs[fd], maxKey, maxValue)
  {
    var last := |segs| - 1;
    var init := Flatten(segs[..last]);
    if fd < last {
      forall i | 0 <= i < |init| ensures |init[i].key| <= maxKey && |init[i].value| <= maxValue {
        assert Flatten(segs)[i] == init[i];
      }
      SegSmall(segs[..last], fd, maxKey, maxValue);
    } else {
      forall i | 0 <= i < |segs[fd]| ensures |segs[fd][i].key| <= maxKey && |segs[fd][i].value| <= maxValue {
        assert Flatten(segs)[|init| + i] == segs[fd][i];
      }
    }
  }

  /** Which file an entry comes from, and where in it. */
  lemma {:induction false} EntrySource(segs: seq<seq<Write>>, m: nat) returns (fd: nat, i: nat)
    requires m < |Entries(segs)|
    ensures fd < |segs| && i < |segs[fd]|
    ensures Entries(segs)[m] == Entry(segs[fd][i], HintFor(fd, segs[fd][..i], segs[fd][i]))
  {
    var last := |segs| - 1;
    var before := |Entries(segs[..last])|;
    if m < before {
      fd, i := EntrySource(segs[..last], m);
    } else {
      fd, i := last, m - before;
      SegEntryAt(last, segs[last], i);
    }
  }

  /** No wrap-around: in a run under one size limit M of at least 1, with keys of at most K and values of at
      most V bytes, every value offset is at most M+V+K+11 and every file at most M+2V+K+11 bytes long,
      so nothing is lost to 32 bits when M+V+K+12 is at most 2^32. */
  lemma RunBounds(ops: seq<Op>, maxSize: nat, maxKey: nat, maxValue: nat)
    requires maxSize >= 1 && OneLimit(ops, maxSize)
    requires Small(LogOf(ops), maxKey, maxValue)
    ensures var segs := LayoutOf(ops);
            && (forall m | 0 <= m < |Entries(segs)| ::
                  Entries(segs)[m].hint.offset <= maxSize + maxValue + maxKey + 11)
            && (forall fd | 0 <= fd < |segs| :: Size(segs[fd]) <= maxSize + 2 * maxValue + maxKey + 11)
            && (maxSize + maxValue + maxKey + 12 <= 0x1_0000_0000 ==> Fits(segs))
  {
    hide LayoutOf, Entries, ValueOffset, StartsBelow, LastCrosses, Size, Small, Flatten;
    var segs := LayoutOf(ops);
    LayoutHoldsLog(ops);
    RunRotates(ops, maxSize);
    forall m | 0 <= m < |Entries(segs)|
      ensures Entries(segs)[m].hint.offset <= maxSize + maxValue + maxKey + 11
      ensures Entries(segs)[m].hint.size <= maxValue
    {
      var fd, i := EntrySource(segs, m);
      SegSmall(segs, fd, maxKey, maxValue);
      FileBounds(segs[fd], i, maxSize, maxKey, maxValue);
      SmallAt(segs[fd], i, maxKey, maxValue);
    }
    forall fd | 0 <= fd < |segs| ensures Size(segs[fd]) <= maxSize + 2 * maxValue + maxKey + 11 {
      SegSmall(segs, fd, maxKey, maxValue);
      if segs[fd] == [] {
        NothingSize();
      } else {
        FileBounds(segs[fd], 0, maxSize, maxKey, maxValue);
      }
    }
  }

  lemma NothingSize()
    ensures Size([]) == 0
  {
  }

  lemma SmallAt(ws: seq<Write>, i: nat, maxKey: nat, maxValue: nat)
    requires Small(ws, maxKey, maxValue) && i < |ws|
    ensures |ws[i].key| <= maxKey && |ws[i].value| <= maxValue
  {
  }

  /** The refinement without any condition on the layout: size bounds on the settings and the writes are
      all a caller has to check. */
  lemma BoundedRunRefines(x: Extend, ops: seq<Op>, maxSize: nat, maxKey: nat, maxValue: nat, k: Key)
    requires maxSize >= 1 && OneLimit(ops, maxSize) && Small(LogOf(ops), maxKey, maxValue)
    requires maxSize + maxValue + maxKey + 12 <= 0x1_0000_0000
    ensures Lookup(Run(x, ops), k) == Find(Meaning(LogOf(ops)), k)
  {
    hide LayoutOf, LogOf, Run, Small, OneLimit, Lookup, Meaning, Find;
    RunBounds(ops, maxSize, maxKey, maxValue);
    RunRefines(x, ops, k);
  }
}
