/**
 Whole runs: any sequence of committed batches, each under its own size limit, and clean restarts.
 */
module Runs {
  import opened Codec
  import opened Layout
  import opened Recovery
  import opened Commits

  datatype Op = Commit(batch: seq<Write>, maxSize: nat) | Reopen

  /** An empty directory after its first opening. */
  function Start(): (v: View)
  {
    View(map[0 := []], {}, map[], map[])
  }

  /** A clean restart keeps the files and rebuilds the rest from their bytes, oldest file first. */
  function Step(x: Extend, v: View, op: Op): (r: View)
  {
    match op
    case Commit(batch, maxSize) => CommitAll(x, v, batch, maxSize)
    case Reopen => Recover(x, v.files, Ascending(|v.stable|), |v.stable|)
  }

  function Run(x: Extend, ops: seq<Op>): (v: View)
  {
    if ops == [] then Start() else Step(x, Run(x, ops[..|ops| - 1]), ops[|ops| - 1])
  }

  /** All writes committed in a run, in order. */
  function LogOf(ops: seq<Op>): (log: seq<Write>)
  {
    if ops == [] then [] else
    LogOf(ops[..|ops| - 1]) + match ops[|ops| - 1] case Commit(batch, _) => batch case Reopen => []
  }

  /** The layout a run ends in. */
  function LayoutOf(ops: seq<Op>): (segs: Segments)
  {
    if ops == [] then [[]] else
    var segs := LayoutOf(ops[..|ops| - 1]);
    match ops[|ops| - 1]
    case Commit(batch, maxSize) => PlaceAll(segs, batch, maxSize)
    case Reopen => segs
  }

  lemma StartIsLayout(x: Extend)
    ensures Start() == ViewOf(x, [[]])
  {
    assert Entries([[]]) == SegEntries(0, []) == [];
    assert Image(x, [[]]) == map[0 := []];
    assert UpTo(0) == {};
  }

  lemma StepKeepsLayout(x: Extend, segs: Segments, op: Op)
    requires op.Commit? ==> Fits(PlaceAll(segs, op.batch, op.maxSize))
    requires op.Reopen? ==> Fits(segs)
    ensures op.Commit? ==> Step(x, ViewOf(x, segs), op) == ViewOf(x, PlaceAll(segs, op.batch, op.maxSize))
    ensures op.Reopen? ==> Step(x, ViewOf(x, segs), op) == ViewOf(x, segs)
  {
    hide CommitAll, Recover, PlaceAll, Fits, Index, Cache, Entries;
    match op
    case Commit(batch, maxSize) => CommitAllIsPlaceAll(x, segs, batch, maxSize);
    case Reopen => RecoverExact(x, segs);
  }

  lemma {:induction false} LayoutHoldsLog(ops: seq<Op>)
    ensures Flatten(LayoutOf(ops)) == LogOf(ops)
  {
    hide PlaceAll, Flatten;
    if ops == [] {
      NothingWritten();
    } else {
      var init, op := ops[..|ops| - 1], ops[|ops| - 1];
      LayoutHoldsLog(init);
      if op.Commit? {
        FlattenPlaceAll(LayoutOf(init), op.batch, op.maxSize);
      }
    }
  }

  lemma NothingWritten()
    ensures Flatten([[]]) == []
  {
    var none: seq<seq<Write>> := [[]];
    assert none[..0] == [];
  }

  /** In every run the files, the stable table, the index and the cache are exactly those of the log laid
      out over the files; restarts change nothing. */
  lemma {:induction false} RunKeepsLayout(x: Extend, ops: seq<Op>)
    requires Fits(LayoutOf(ops))
    ensures Run(x, ops) == ViewOf(x, LayoutOf(ops))
  {
    hide Step, PlaceAll, ViewOf, Fits;
    if ops == [] {
      StartIsLayout(x);
    } else {
      var init, op := ops[..|ops| - 1], ops[|ops| - 1];
      var segs := LayoutOf(init);
      if op.Commit? {
        FitsStart(segs, op.batch, op.maxSize);
      }
      RunKeepsLayout(x, init);
      StepKeepsLayout(x, segs, op);
    }
  }

  /** A restart goes by the files alone: whatever was in memory, the same state comes back. */
  lemma RestartForgets(x: Extend, v: View, v': View)
    requires v.files == v'.files && |v.stable| == |v'.stable|
    ensures Step(x, v, Reopen) == Step(x, v', Reopen) && Step(x, v, Reopen).files == v.files
  {
    hide Replay, ScanEntries, Index, Cache;
  }

  /** Refinement of a plain map: after any run, `Get` returns the last committed value of the key, or
      none if that is the tombstone or the key was never written. */
  lemma RunRefines(x: Extend, ops: seq<Op>, k: Key)
    requires Fits(LayoutOf(ops))
    ensures Lookup(Run(x, ops), k) == Find(Meaning(LogOf(ops)), k)
    ensures var log := LogOf(ops);
            var p := LastPos(log, k);
            Lookup(Run(x, ops), k) == if p < 0 || log[p].value == TOMBSTONE then None else Some(log[p].value)
  {
    MeaningLast(LogOf(ops), k);
    hide Run, LayoutOf, ViewOf, Lookup, Find, Meaning, Fits, Flatten;
    RunKeepsLayout(x, ops);
    LayoutHoldsLog(ops);
    LookupRefines(x, LayoutOf(ops), k);
  }

  /** Batch-split independence: one batch, or the same writes in two, leaves the same files, stable
      table, index and cache, wherever the rotations fall. */
  lemma BatchSplit(x: Extend, ops: seq<Op>, a: seq<Write>, b: seq<Write>, maxSize: nat)
    ensures Run(x, ops + [Commit(a + b, maxSize)]) == Run(x, ops + [Commit(a, maxSize)] + [Commit(b, maxSize)])
  {
    hide CommitAll;
    RunSnoc(x, ops, Commit(a + b, maxSize));
    RunSnoc(x, ops, Commit(a, maxSize));
    RunSnoc(x, ops + [Commit(a, maxSize)], Commit(b, maxSize));
    CommitAllConcat(x, Run(x, ops), a, b, maxSize);
  }

  lemma RunSnoc(x: Extend, ops: seq<Op>, op: Op)
    ensures Run(x, ops + [op]) == Step(x, Run(x, ops), op)
    ensures LogOf(ops + [op]) == LogOf(ops) + match op case Commit(batch, _) => batch case Reopen => []
  {
    assert (ops + [op])[..|ops|] == ops;
  }

  lemma {:induction false} LogConcat(a: seq<Op>, b: seq<Op>)
    ensures LogOf(a + b) == LogOf(a) + LogOf(b)
  {
    if b == [] {
      assert a + b == a;
    } else {
      assert (a + b)[..|a + b| - 1] == a + b[..|b| - 1];
      LogConcat(a, b[..|b| - 1]);
    }
  }

  /** Deletes last: after a committed tombstone of `k`, through any later commits that do not write `k`
      and any restarts, `Get(k)` is none, and a key the deletion did not name reads as if it had not
      happened. */
  lemma DeletesLast(x: Extend, before: seq<Op>, k: Key, maxSize: nat, after: seq<Op>)
    requires var ops := before + [Commit([Write(k, TOMBSTONE)], maxSize)] + after;
             Fits(LayoutOf(ops)) && LastPos(LogOf(after), k) < 0
    ensures var ops := before + [Commit([Write(k, TOMBSTONE)], maxSize)] + after;
            && Lookup(Run(x, ops), k) == None
            && forall j | j != k :: Lookup(Run(x, ops), j) == Find(Meaning(LogOf(before + after)), j)
  {
    hide Run, LayoutOf, Lookup, Fits, LogOf;
    var tomb := [Write(k, TOMBSTONE)];
    var del := Commit(tomb, maxSize);
    var ops := before + [del] + after;
    var log := LogOf(before);
    LogConcat(before + [del], after);
    RunSnoc(x, before, del);
    LogConcat(before, after);
    assert LogOf(ops) == (log + tomb) + LogOf(after);
    RunRefines(x, ops, k);
    MeaningAfter(log + tomb, LogOf(after), k);
    assert (log + tomb)[..|log|] == log;
    forall j | j != k ensures Lookup(Run(x, ops), j) == Find(Meaning(LogOf(before + after)), j) {
      RunRefines(x, ops, j);
      DropOther(log, Write(k, TOMBSTONE), LogOf(after), j);
    }
  }

  lemma {:induction false} MeaningExtends(a: seq<Write>, a': seq<Write>, b: seq<Write>, j: Key)
    requires Find(Meaning(a), j) == Find(Meaning(a'), j)
    ensures Find(Meaning(a + b), j) == Find(Meaning(a' + b), j)
  {
    if b == [] {
      assert a + b == a && a' + b == a';
    } else {
      var last := |b| - 1;
      assert (a + b)[..|a + b| - 1] == a + b[..last];
      assert (a' + b)[..|a' + b| - 1] == a' + b[..last];
      MeaningExtends(a, a', b[..last], j);
    }
  }

  /** A write of another key does not matter, wherever it stands. */
  lemma DropOther(a: seq<Write>, w: Write, b: seq<Write>, j: Key)
    requires w.key != j
    ensures Find(Meaning(a + [w] + b), j) == Find(Meaning(a + b), j)
  {
    assert (a + [w])[..|a|] == a;
    MeaningExtends(a + [w], a, b, j);
  }

  /** File-id contiguity: after any run the stable ids are 0 to n-1, the disk holds the files 0 to n, and n,
      the size of the stable table, is the active id; no hint points past it. */
  lemma FileIds(x: Extend, ops: seq<Op>)
    requires Fits(LayoutOf(ops))
    ensures var v := Run(x, ops);
            var n := |v.stable|;
            v.stable == UpTo(n) && v.files.Keys == UpTo(n + 1)
            && forall k | k in v.index :: v.index[k].fd <= n
  {
    hide *;
    RunKeepsLayout(x, ops);
    ViewIds(x, LayoutOf(ops));
    IndexedInside(LayoutOf(ops));
  }

  lemma ViewIds(x: Extend, segs: Segments)
    ensures var v := ViewOf(x, segs);
            && v.stable == UpTo(|segs| - 1) && |v.stable| == |segs| - 1 && v.files.Keys == UpTo(|segs|)
            && v.index == Index(Entries(segs))
  {
    hide Index, Entries, Cache, EncodeAll;
    assert ViewOf(x, segs).files.Keys == UpTo(|segs|);
  }

  lemma IndexedInside(segs: Segments)
    requires |segs| > 0
    ensures forall k :: k in Index(Entries(segs)) ==> Index(Entries(segs))[k].fd <= |segs| - 1
  {
    hide Index, Entries;
    EntriesOrdered(segs);
    forall k | k in Index(Entries(segs)) ensures Index(Entries(segs))[k].fd <= |segs| - 1 {
      IndexAt(Entries(segs), k);
    }
  }

  /** Crash prefix consistency over runs: cut the newest file of any run at any byte; what is recovered is the plain
      map of a prefix of everything committed, missing no record left whole, except that the key of a torn
      record that collides reads as the empty value. */
  lemma RunCrashes(x: Extend, ops: seq<Op>, cut: nat, k: Key)
    requires Fits(LayoutOf(ops)) && cut <= Size(LayoutOf(ops)[|LayoutOf(ops)| - 1])
    ensures var segs := LayoutOf(ops);
            var n := |segs| - 1;
            var kept := Flatten(Surviving(segs, cut));
            && Run(x, ops).files == Image(x, segs)
            && kept <= LogOf(ops)
            && |LogOf(ops)| - |kept| == |segs[n]| - WholeWithin(segs[n], cut)
            && Lookup(Recover(x, CutFiles(x, segs, cut), Ascending(n), n), k) ==
               if CutCollides(x, segs, cut) && k == TornEntry(segs, cut).write.key then Some([])
               else Find(Meaning(kept), k)
  {
    hide Run, LayoutOf, LogOf, Fits, Size, EncodeAll, Lookup, Find, Meaning, Recover, CutCollides, WholeWithin, Image,
         Index, Cache, Entries, TornEntry;
    var segs := LayoutOf(ops);
    var n := |segs| - 1;
    RunKeepsLayout(x, ops);
    LayoutHoldsLog(ops);
    CrashRecovery(x, segs, cut, k);
    SurvivingLast(segs, cut);
    FlattenLast(segs);
    FlattenLast(Surviving(segs, cut));
    assert Surviving(segs, cut)[..n] == segs[..n];
  }

  lemma FlattenLast(segs: Segments)
    ensures Flatten(segs) == Flatten(segs[..|segs| - 1]) + segs[|segs| - 1]
  {
  }
}
