/**
 The order in which recovery replays the stable files. What is meant is oldest first. As written the files
 are sorted by name as strings; here is exactly when that recovers the right state.
 */
module ReplayOrder {
  import opened Codec
  import opened Layout
  import opened Recovery
  import opened Commits
  import opened Runs
  import opened Sorting
  import opened FileNames
  import opened HintIds
  import opened SmallStores

  /** A key written in files 2 and 10, and another key everywhere else. */
  function SpreadWrite(i: nat): (w: Write)
    ensures |w.key| == |w.value| == 1 && (w.key == KEY <==> i == 2 || i == 10)
  {
    if i == 2 then Write(KEY, [2]) else if i == 10 then Write(KEY, [10]) else Write(OTHER, [0])
  }

  function SpreadLog(n: nat): (ws: seq<Write>)
    ensures |ws| == n && forall i | 0 <= i < n :: ws[i] == SpreadWrite(i)
  {
    seq(n, i requires 0 <= i < n => SpreadWrite(i))
  }

  function SpreadEntry(i: nat): (e: Entry)
  {
    Entry(SpreadWrite(i), Hint(i, HEADER + 1, 1))
  }

  /** One record per file, and an empty active file. */
  function Spread(n: nat): (segs: Segments)
    ensures |segs| == n + 1 && segs[n] == []
    ensures forall i | 0 <= i < n :: segs[i] == [SpreadWrite(i)]
  {
    seq(n + 1, i requires 0 <= i <= n => if i < n then [SpreadWrite(i)] else [])
  }

  /** This layout is what one batch under the smallest limit leaves. */
  lemma {:induction false} SpreadIsReached(n: nat)
    ensures LayoutOf([Commit(SpreadLog(n), 0)]) == PlaceAll([[]], SpreadLog(n), 0) == Spread(n)
    ensures |Entries(Spread(n))| == n
    ensures forall i | 0 <= i < n :: Entries(Spread(n))[i] == SpreadEntry(i)
  {
    hide Place, Entries, PlaceAll;
    OneCommit(SpreadLog(n));
    if n == 0 {
      PlaceNothing([[]], SpreadLog(0), 0);
      assert SpreadLog(0)[..0] == SpreadLog(0);
      assert Spread(0) == [[]];
      NothingYetWritten();
    } else {
      SpreadIsReached(n - 1);
      var w := SpreadWrite(n - 1);
      assert SpreadLog(n) == SpreadLog(n - 1) + [w];
      PlaceSnoc([[]], SpreadLog(n - 1), w, 0);
      PlaceFresh(Spread(n - 1), w, 0);
      assert Spread(n) == Spread(n - 1)[..n - 1] + [[w]] + [[]];
    }
  }

  lemma OneCommit(ws: seq<Write>)
    ensures LayoutOf([Commit(ws, 0)]) == PlaceAll([[]], ws, 0)
  {
    assert [Commit(ws, 0)][..0] == [];
  }

  lemma SpreadFits(n: nat)
    ensures Fits(Spread(n))
  {
    hide Entries, Spread;
    SpreadIsReached(n);
  }

  /** What the replay of these files reports, in whatever order. */
  lemma {:induction false} SpreadReplay(x: Extend, n: nat, order: seq<nat>)
    requires forall i | 0 <= i < |order| :: order[i] < n
    ensures var es := Replay(x, Image(x, Spread(n)), order);
            |es| == |order| && forall i | 0 <= i < |order| :: es[i] == SpreadEntry(order[i])
  {
    hide ScanEntries, Spread, SpreadEntry, Image;
    if order != [] {
      var last := |order| - 1;
      SpreadReplay(x, n, order[..last]);
      SpreadScan(x, n, order[last]);
    }
  }

  lemma SpreadScan(x: Extend, n: nat, fd: nat)
    requires fd <= n
    ensures ScanEntries(x, Image(x, Spread(n)), fd) == if fd < n then [SpreadEntry(fd)] else []
  {
    hide ScanEntries, EncodeAll, Fits, Spread;
    var segs := Spread(n);
    SpreadFits(n);
    FitsSeg(segs, fd);
    ScanEntriesOfLog(x, Image(x, segs), fd, segs[fd]);
    if fd < n {
      OneEntry(fd, SpreadWrite(fd));
    }
  }

  lemma OneEntry(fd: nat, w: Write)
    ensures SegEntries(fd, [w]) == [Entry(w, Hint(fd, HEADER + |w.key|, |w.value|))]
  {
    assert [w][..0] == [];
  }

  /** In a name-sorted order of at least eleven files, file 10 comes before file 2. */
  lemma TenFirst(order: seq<nat>, n: nat) returns (a: nat, b: nat)
    requires Sorted(ByName, order) && IdsOf(order) == UpTo(n) && n > 10
    ensures a < b < |order| && order[a] == 10 && order[b] == 2
    ensures forall i | b < i < |order| :: order[i] != 2 && order[i] != 10
  {
    hide FileName;
    assert 10 in IdsOf(order) && 2 in IdsOf(order);
    a :| 0 <= a < |order| && order[a] == 10;
    b :| 0 <= b < |order| && order[b] == 2;
    TenBeforeTwo();
    LessIrreflexive(FileName(10), FileName(2));
    forall i | b < i < |order| ensures order[i] != 2 && order[i] != 10 {
      assert Less(FileName(order[b]), FileName(order[i]));
      if order[i] == 2 {
        LessIrreflexive(FileName(2), FileName(2));
      }
    }
  }

  lemma OldValueInOrder(x: Extend, order: seq<nat>, n: nat)
    requires Sorted(ByName, order) && IdsOf(order) == UpTo(n) && n > 10
    ensures var v := Recover(x, Image(x, Spread(n)), order, n);
            && Lookup(v, KEY) == Some([2])
            && Lookup(ViewOf(x, Spread(n)), KEY) == Some([10])
  {
    hide Replay, ScanEntries, Spread, Image, Sorted, Index, Cache, Meaning, Entries, ViewOf, AllOnDisk;
    var files := Image(x, Spread(n));
    forall i | 0 <= i < |order| ensures order[i] < n {
      assert order[i] in IdsOf(order);
    }
    SpreadReplay(x, n, order);
    SpreadScan(x, n, n);
    ReplaySnoc(x, files, order, n);
    var es := Replay(x, files, order);
    assert es + [] == es;
    var a, b := TenFirst(order, n);
    LastIsTwo(es, order, b);
    IndexAt(es, KEY);
    SpreadOnDisk(x, n, 2);
    NewValue(x, n);
  }

  lemma LastIsTwo(es: seq<Entry>, order: seq<nat>, b: nat)
    requires |es| == |order| && forall i | 0 <= i < |order| :: es[i] == SpreadEntry(order[i])
    requires b < |order| && order[b] == 2
    requires forall i | b < i < |order| :: order[i] != 2 && order[i] != 10
    ensures LastPos(Writes(es), KEY) == b
  {
    assert Writes(es)[b].key == KEY;
    forall i | b < i < |order| ensures Writes(es)[i].key != KEY {
      assert es[i] == SpreadEntry(order[i]);
    }
  }

  lemma SpreadOnDisk(x: Extend, n: nat, fd: nat)
    requires fd < n
    ensures StableValue(Image(x, Spread(n)), SpreadEntry(fd).hint) == SpreadWrite(fd).value
  {
    hide EncodeAll, Image, Spread, OnDisk, SpreadWrite, StableValue, Entries;
    EntriesOnDisk(x, Image(x, Spread(n)), Spread(n));
    SpreadIsReached(n);
    var es := Entries(Spread(n));
    assert OnDisk(Image(x, Spread(n)), es[fd]);
    assert es[fd] == SpreadEntry(fd);
    OnDiskValue(Image(x, Spread(n)), es[fd]);
  }

  lemma NewValue(x: Extend, n: nat)
    requires n > 10
    ensures Lookup(ViewOf(x, Spread(n)), KEY) == Some([10])
  {
    hide Spread, Meaning, ViewOf, Lookup, Entries;
    LookupRefines(x, Spread(n), KEY);
    SpreadIsReached(n);
    WritesOfEntries(Spread(n));
    var log := Writes(Entries(Spread(n)));
    assert log[10] == SpreadWrite(10);
    forall i | 10 < i < n ensures log[i].key != KEY {
      assert log[i] == SpreadWrite(i);
    }
    MeaningLast(log, KEY);
  }

  /** For every number of stable files from eleven on there is a reachable store whose reopening, with the files
      in the order of the code, brings an overwritten value back. */
  lemma OldValueReturns(x: Extend, listing: seq<nat>, n: nat)
    requires NoDup(listing) && IdsOf(listing) == UpTo(n) && n > 10
    ensures LayoutOf([Commit(SpreadLog(n), 0)]) == Spread(n)
    ensures Lookup(Recover(x, Image(x, Spread(n)), SortByName(listing), n), KEY) == Some([2])
    ensures Lookup(ViewOf(x, Spread(n)), KEY) == Some([10])
  {
    hide Recover, ViewOf, Sorted, Image, Spread, SortByName, NoDup, IdsOf, LayoutOf, PlaceAll;
    SpreadIsReached(n);
    SortSortsNames(listing);
    OldValueInOrder(x, SortByName(listing), n);
  }

  lemma FewRecovered(x: Extend, listing: seq<nat>, n: nat, segs: Segments)
    requires NoDup(listing) && IdsOf(listing) == UpTo(n) && n <= 10 && |segs| == n + 1 && Fits(segs)
    ensures Recover(x, Image(x, segs), SortByName(listing), n) == ViewOf(x, segs)
  {
    hide *;
    NameSortIsOldestFirst(listing, n);
    RecoverExact(x, segs);
  }

  lemma ManyNotRecovered(x: Extend, listing: seq<nat>, n: nat)
    requires NoDup(listing) && IdsOf(listing) == UpTo(n) && n > 10
    ensures |Spread(n)| == n + 1 && Fits(Spread(n))
    ensures Recover(x, Image(x, Spread(n)), SortByName(listing), n) != ViewOf(x, Spread(n))
  {
    hide *;
    OldValueReturns(x, listing, n);
    SpreadFits(n);
  }

  /** The replay order of the code recovers every store of `n` stable files if and only if there are at most
      ten of them. */
  lemma ReplayOrderExact(x: Extend, listing: seq<nat>, n: nat)
    requires NoDup(listing) && IdsOf(listing) == UpTo(n)
    ensures (forall segs: Segments | |segs| == n + 1 && Fits(segs) ::
               Recover(x, Image(x, segs), SortByName(listing), n) == ViewOf(x, segs)) <==> n <= 10
  {
    hide *;
    if n <= 10 {
      forall segs: Segments | |segs| == n + 1 && Fits(segs)
        ensures Recover(x, Image(x, segs), SortByName(listing), n) == ViewOf(x, segs)
      {
        FewRecovered(x, listing, n, segs);
      }
    } else {
      ManyNotRecovered(x, listing, n);
    }
  }
}
