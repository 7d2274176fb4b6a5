/**
 Every `Get` of the running system returns the value its key had at one instant between its start and its
 end, and those values are the ones the committed log gives, at points that never move backwards.
 */
module Linearizability {
  import opened Bytes
  import opened Codec
  import opened Layout
  import opened Commits
  import opened Concurrent

  // ---------------------------------------------------------------- linearization points

  /** The number of log entries an atomic `Get(k)` reflects: a key read from the cache is one publication
      step ahead of a key read through the index. */
  function KeyPoint(s: Sys, k: Key): (p: nat)
  {
    if k in s.view.index && s.view.index[k].fd == ActiveId(s) then Cached(s) else Indexed(s)
  }

  lemma SettledLookup(c: Config, s: Sys, k: Key)
    requires ViewInv(c, s) && !s.worker.Inserted? && !s.worker.Written?
    ensures Lookup(s.view, k) == Find(Meaning(Writes(Entries(s.segs)[..KeyPoint(s, k)])), k)
  {
    hide Index, Cache, Image, UpTo, Lookup, Find, Meaning, Ordered, AllOnDisk, EncodeAll, InFlight, Entries;
    var es := Entries(s.segs);
    EntriesOrdered(s.segs);
    EntriesOnDisk(c.x, s.view.files, s.segs);
    LookupMeaning(s.view, es, Indexed(s), Cached(s), |s.segs| - 1, k);
  }

  /** Between the writing of the files and the clearing of the cache nothing of the batch is visible. */
  lemma UnpublishedLookup(c: Config, s: Sys, k: Key)
    requires ViewInv(c, s) && (s.worker.Inserted? || s.worker.Written?)
    ensures Lookup(s.view, k) == Find(Meaning(Writes(Entries(s.base))), k)
    ensures KeyPoint(s, k) == |Entries(s.base)|
    ensures Entries(s.segs)[..|Entries(s.base)|] == Entries(s.base)
  {
    hide Index, Cache, Image, UpTo, Lookup, Find, Meaning, Ordered, AllOnDisk, EncodeAll, PublicationData, PlaceAll,
         Entries;
    var es, n := Entries(s.base), |Entries(s.base)|;
    InFlightPrefix(c, s);
    EntriesOrdered(s.base);
    EntriesOnDisk(c.x, s.view.files, s.segs);
    OnDiskPrefix(s.view.files, Entries(s.segs), n);
    assert es[..n] == es;
    OrderedWeaken(es, |s.base|, ActiveId(s) + 1);
    if |s.segs| > |s.base| {
      OrderedWeaken(es, |s.base|, |s.segs| - 1);
    }
    LookupMeaning(s.view, es, n, n, ActiveId(s), k);
  }

  lemma OrderedWeaken(es: seq<Entry>, m: nat, n: nat)
    requires m <= n && Ordered(es, m)
    ensures Ordered(es, n)
  {
  }

  lemma OnDiskPrefix(files: map<nat, seq<byte>>, es: seq<Entry>, n: nat)
    requires n <= |es| && AllOnDisk(files, es)
    ensures AllOnDisk(files, es[..n])
  {
    hide OnDisk;
  }

  /** At every instant an atomic `Get(k)` is the plain map of the log up to the key's point. */
  lemma AtomicGetOf(c: Config, s: Sys, k: Key)
    requires ViewInv(c, s)
    ensures KeyPoint(s, k) <= |Flatten(s.segs)| == |Entries(s.segs)|
    ensures Lookup(s.view, k) == ValueAt(Flatten(s.segs), KeyPoint(s, k), k)
  {
    hide Index, Cache, Image, UpTo, Lookup, Find, Meaning, Entries, Flatten, InFlight;
    WritesOfEntries(s.segs);
    var es, p := Entries(s.segs), KeyPoint(s, k);
    assert Writes(es)[..p] == Writes(es[..p]);
    if s.worker.Inserted? || s.worker.Written? {
      UnpublishedLookup(c, s, k);
    } else {
      SettledLookup(c, s, k);
    }
  }

  /** The number of log entries the store as a whole reflects. It is the number of entries published, but for
      the moment between a cache put and the index put that follows: then the write counts already if its key
      is read from the cache. */
  function Point(s: Sys): (p: nat)
    ensures Indexed(s) <= p <= Indexed(s) + 1
  {
    if s.worker.Publishing? && s.worker.stage == ToIndex && s.worker.next < |s.worker.batch|
    then KeyPoint(s, s.worker.batch[s.worker.next].write.key)
    else Indexed(s)
  }

  /** The log position and the entry of write `u` of the batch in flight. */
  lemma BatchEntry(c: Config, s: Sys, u: nat)
    requires InFlight(c, s) && u < |s.worker.batch|
    ensures |Entries(s.segs)| == |Entries(s.base)| + |s.worker.batch|
    ensures |s.worker.hints| == |s.worker.batch|
    ensures Entries(s.segs)[|Entries(s.base)| + u] == Entry(s.worker.batch[u].write, s.worker.hints[u])
    ensures s.worker.lastActive <= u <==> s.worker.hints[u].fd == |s.segs| - 1
  {
    hide Entries, PlaceAll;
    InFlightPrefix(c, s);
    var ws := WritesOf(s.worker.batch);
    assert Entries(s.segs)[|Entries(s.segs)| - |ws| + u] == Entry(ws[u], s.worker.hints[u]);
  }

  lemma OtherKeySame(log: seq<Write>, p: nat, k: Key)
    requires p < |log| && log[p].key != k
    ensures ValueAt(log, p + 1, k) == ValueAt(log, p, k)
  {
    var y := ValueBetween(log, p, p + 1, k);
  }

  /** Every publication step is safe: at every instant the atomic `Get`s of all keys together are the plain map of
      one point of the log, the published prefix or one write more. */
  lemma AtomicGet(c: Config, s: Sys, k: Key)
    requires ViewInv(c, s)
    ensures Point(s) <= |Flatten(s.segs)|
    ensures Lookup(s.view, k) == ValueAt(Flatten(s.segs), Point(s), k)
  {
    hide Lookup, Flatten, ValueAt, Entries, Image, UpTo, Index, Cache, PublicationData, PlaceAll;
    AtomicGetOf(c, s, k);
    if KeyPoint(s, k) != Point(s) {
      var u := s.worker.next;
      AtomicGetOf(c, s, s.worker.batch[u].write.key);
      BatchEntry(c, s, u);
      WritesOfEntries(s.segs);
      assert Flatten(s.segs)[Indexed(s)] == s.worker.batch[u].write;
      OtherKeySame(Flatten(s.segs), Indexed(s), k);
    }
  }

  /** A key that is read from the cache goes on being read from it, unless the insertion follows a rotation. */
  lemma ActiveHintStays(c: Config, s: Sys, a: Action, k: Key)
    requires ViewInv(c, s) && Enabled(c, s, a) && !(a.Insert? && |s.segs| > |s.base|)
    requires k in s.view.index && s.view.index[k].fd == ActiveId(s)
    ensures var s' := Apply(c, s, a);
            k in s'.view.index && s'.view.index[k].fd == ActiveId(s') == ActiveId(s)
  {
    hide Cache, Image, UpTo, Meaning, PlaceAll, Index, Entries;
    if a.IndexPut? {
      InFlightPrefix(c, s);
      var es, i := Entries(s.segs), |Entries(s.base)| + s.worker.next;
      assert es[i] == Entry(s.worker.batch[s.worker.next].write, s.worker.hints[s.worker.next]);
      EntriesOrdered(s.segs);
      IndexAt(es[..i], k);
      var p := LastPos(Writes(es[..i]), k);
      assert es[..i][p] == es[p] && es[p].hint.fd <= es[i].hint.fd;
    }
  }

  lemma LogGrows(c: Config, s: Sys, a: Action)
    requires ViewInv(c, s) && Enabled(c, s, a)
    ensures Flatten(s.segs) <= Flatten(Apply(c, s, a).segs)
  {
    hide PlaceAll, Flatten, Image, Entries, Index, Cache, PublicationData, UpTo;
    if a.WriteFiles? {
      FlattenPlaceAll(s.segs, WritesOf(s.worker.batch), c.maxSize);
    }
  }

  /** No step moves the point back, none skips a write, and the log only grows at its end. */
  lemma PointMonotone(c: Config, s: Sys, a: Action)
    requires ViewInv(c, s) && Enabled(c, s, a)
    ensures Point(s) <= Point(Apply(c, s, a)) <= Point(s) + 1
    ensures Flatten(s.segs) <= Flatten(Apply(c, s, a).segs)
  {
    hide Flatten, Image, Entries, Index, Cache, UpTo, PlaceAll, PublicationData;
    LogGrows(c, s, a);
    if a.Finish? {
      InFlightPrefix(c, s);
    }
  }

  // ---------------------------------------------------------------- runs

  lemma RunExtend(c: Config, tr: seq<Sys>, acts: seq<Action>, a: Action) returns (tr': seq<Sys>, acts': seq<Action>)
    requires IsRun(c, tr, acts) && Enabled(c, tr[|acts|], a)
    ensures IsRun(c, tr', acts') && |tr'| == |acts'| + 1
    ensures tr' == tr + [Apply(c, tr[|acts|], a)] && acts' == acts + [a]
    ensures tr'[|acts'|] == Apply(c, tr[|acts|], a) && tr'[0] == tr[0]
  {
    hide Enabled, Apply, Start;
    tr', acts' := tr + [Apply(c, tr[|acts|], a)], acts + [a];
    forall i | 0 <= i < |acts'| ensures Enabled(c, tr'[i], acts'[i]) && tr'[i + 1] == Apply(c, tr'[i], acts'[i]) {
      if i < |acts| {
        assert Enabled(c, tr[i], acts[i]) && tr[i + 1] == Apply(c, tr[i], acts[i]);
      }
    }
  }

  lemma {:induction false} RunView(c: Config, tr: seq<Sys>, acts: seq<Action>, i: nat)
    requires IsRun(c, tr, acts) && i <= |acts|
    ensures ViewInv(c, tr[i])
  {
    hide ViewInv, Enabled, Apply, Start;
    if i == 0 {
      StartView(c, tr[0]);
    } else {
      RunView(c, tr, acts, i - 1);
      assert Enabled(c, tr[i - 1], acts[i - 1]) && tr[i - 1 + 1] == Apply(c, tr[i - 1], acts[i - 1]);
      StepView(c, tr[i - 1], acts[i - 1]);
    }
  }

  lemma {:induction false} RunMonotone(c: Config, tr: seq<Sys>, acts: seq<Action>, i: nat, j: nat)
    requires IsRun(c, tr, acts) && i <= j <= |acts|
    ensures Point(tr[i]) <= Point(tr[j])
    ensures Flatten(tr[i].segs) <= Flatten(tr[j].segs)
  {
    hide ViewInv, Enabled, Apply, Start, Point, Flatten;
    if i < j {
      RunMonotone(c, tr, acts, i, j - 1);
      RunView(c, tr, acts, j - 1);
      assert Enabled(c, tr[j - 1], acts[j - 1]) && tr[j - 1 + 1] == Apply(c, tr[j - 1], acts[j - 1]);
      PointMonotone(c, tr[j - 1], acts[j - 1]);
    }
  }

  /** No point is skipped. */
  lemma {:induction false} PointReached(c: Config, tr: seq<Sys>, acts: seq<Action>, i: nat, j: nat, p: nat)
    returns (m: nat)
    requires IsRun(c, tr, acts) && i <= j <= |acts| && Point(tr[i]) <= p <= Point(tr[j])
    ensures i <= m <= j && Point(tr[m]) == p
  {
    hide ViewInv, Enabled, Apply, Start, Point, Flatten;
    m := j;
    if p < Point(tr[j]) {
      RunView(c, tr, acts, j - 1);
      assert Enabled(c, tr[j - 1], acts[j - 1]) && tr[j - 1 + 1] == Apply(c, tr[j - 1], acts[j - 1]);
      PointMonotone(c, tr[j - 1], acts[j - 1]);
      m := PointReached(c, tr, acts, i, j - 1, p);
    }
  }

  /** Reader `r` looked `k` up with action `i` and has not returned before state `j`. */
  ghost predicate Reading(tr: seq<Sys>, acts: seq<Action>, i: nat, j: nat, r: nat, k: Key)
    requires |tr| == |acts| + 1
  {
    i < j <= |acts| && acts[i] == GetLookup(r, k) && forall m | i < m < j :: acts[m] != GetReturn(r)
  }

  /** The value of `k` at some instant from state `i` to state `j`. */
  ghost predicate Seen(tr: seq<Sys>, i: nat, j: nat, k: Key, v: Option<Value>)
    requires i <= j < |tr|
  {
    exists m :: i <= m <= j && Lookup(tr[m].view, k) == v
  }

  /** What is known of a reader in flight, given the state `s0` in which it looked its key up. */
  ghost predicate Tracked(s0: Sys, s: Sys, r: nat, k: Key)
  {
    r in s.readers && s.readers[r].key == k && s.view.stable == s0.view.stable &&
    match s.readers[r]
    case Located(_, h) =>
      && k in s0.view.index && h == s0.view.index[k]
      && (h.fd == |s.view.stable| ==> k in s.view.index && s.view.index[k].fd == |s.view.stable|)
      && (h.fd != |s.view.stable| ==> StableValue(s.view.files, h) == StableValue(s0.view.files, h))
    case AtCache(_) => k in s.view.index && s.view.index[k].fd == |s.view.stable|
    case AtTable(_, h) =>
      && k in s0.view.index && h == s0.view.index[k] && h.fd != |s.view.stable|
      && StableValue(s.view.files, h) == StableValue(s0.view.files, h)
    case Answered(_, _) => true
  }

  /** Inserting under the exclusive lock cannot change the table while a reader is in flight. */
  lemma TableStays(c: Config, s: Sys, a: Action)
    requires c.exclusive && Enabled(c, s, a) && s.readers != map[]
    ensures Apply(c, s, a).view.stable == s.view.stable
  {
    hide Image, PlaceAll, PublicationData;
  }

  /** An insertion that leaves the table as it is belongs to a batch without rotation. */
  lemma SameTableSameLength(c: Config, s: Sys, a: Action)
    requires ViewInv(c, s) && Enabled(c, s, a) && a.Insert? && Apply(c, s, a).view.stable == s.view.stable
    ensures |s.segs| == |s.base|
  {
    hide Index, Cache, Entries, Image, UpTo, PublicationData, PlaceAll, Between;
    InFlightPrefix(c, s);
    NewIds(|s.base| - 1, |s.segs| - 1);
    assert UpTo(|s.base| - 1) == UpTo(|s.segs| - 1);
    assert |UpTo(|s.base| - 1)| == |UpTo(|s.segs| - 1)|;
  }

  /** The bytes a hint in the index addresses in a stable file never change. */
  lemma StableBytesStay(c: Config, s: Sys, a: Action, h: Hint)
    requires ViewInv(c, s) && Enabled(c, s, a) && h.fd < |s.view.stable|
    ensures StableValue(Apply(c, s, a).view.files, h) == StableValue(s.view.files, h)
  {
    hide Index, Cache, UpTo, PublicationData, PlaceAll, EncodeAll;
    if a.WriteFiles? {
      PlaceAllKeepsStable(s.segs, WritesOf(s.worker.batch), c.maxSize, h.fd);
    }
  }

  lemma HintBelow(c: Config, s: Sys, k: Key)
    requires ViewInv(c, s) && k in s.view.index
    ensures s.view.index[k].fd <= |s.view.stable| == ActiveId(s) <= |s.segs| - 1
  {
    hide Index, Cache, Image, PublicationData, PlaceAll, Meaning, Entries;
    var es := Entries(s.segs)[..Indexed(s)];
    IndexAt(es, k);
    EntriesOrdered(s.segs);
    if s.worker.Written? {
      InFlightPrefix(c, s);
      EntriesOrdered(s.base);
    }
  }

  /** The lookup step starts the tracking; a miss answers with the value of that instant. */
  lemma TrackStart(c: Config, s0: Sys, r: nat, k: Key)
    requires ViewInv(c, s0) && Enabled(c, s0, GetLookup(r, k))
    ensures var s := Apply(c, s0, GetLookup(r, k));
            && Tracked(s0, s, r, k)
            && (s.readers[r].Answered? ==> s.readers[r].result == Lookup(s0.view, k))
  {
    hide ViewInv, StableValue;
  }

  /** A step of somebody else keeps what is known of a reader. */
  lemma TrackOther(c: Config, s0: Sys, s: Sys, a: Action, r: nat, k: Key)
    requires ViewInv(c, s0) && ViewInv(c, s) && Enabled(c, s, a)
    requires Tracked(s0, s, r, k) && Apply(c, s, a).view.stable == s.view.stable
    requires a != GetTest(r) && a != GetCache(r) && a != GetStable(r) && a != GetReturn(r)
    ensures var s' := Apply(c, s, a);
            Tracked(s0, s', r, k) && s'.readers[r] == s.readers[r]
  {
    hide ViewInv, StableValue, Lookup;
    OthersReaders(c, s, a, r);
    if a.Insert? {
      SameTableSameLength(c, s, a);
    }
    var s' := Apply(c, s, a);
    StepView(c, s, a);
    if k in s.view.index {
      HintBelow(c, s, k);
      if s.view.index[k].fd == |s.view.stable| {
        ActiveHintStays(c, s, a, k);
        HintBelow(c, s', k);
      }
    }
    if s.readers[r].Located? || s.readers[r].AtTable? {
      HintBelow(c, s0, k);
      if s.readers[r].hint.fd < |s.view.stable| {
        StableBytesStay(c, s, a, s.readers[r].hint);
      }
    }
  }

  lemma OthersReaders(c: Config, s: Sys, a: Action, r: nat)
    requires Enabled(c, s, a) && r in s.readers
    requires a != GetTest(r) && a != GetCache(r) && a != GetStable(r) && a != GetReturn(r)
    ensures r in Apply(c, s, a).readers && Apply(c, s, a).readers[r] == s.readers[r]
  {
  }

  /** A step of the reader itself keeps it too, and an answer is the value of the instant of the cache read
      or of the instant of the lookup. */
  lemma TrackOwn(c: Config, s0: Sys, s: Sys, a: Action, r: nat, k: Key)
    requires Enabled(c, s, a) && Tracked(s0, s, r, k)
    requires a == GetTest(r) || a == GetCache(r) || a == GetStable(r)
    ensures var s' := Apply(c, s, a);
            && Tracked(s0, s', r, k)
            && (s'.readers[r].Answered? ==>
                s'.readers[r].result == Lookup(s.view, k) || s'.readers[r].result == Lookup(s0.view, k))
  {
    hide StableValue;
  }

  /** The stable table is the same in all states from `i` to `j`. */
  ghost predicate TableFixed(tr: seq<Sys>, i: nat, j: nat)
    requires i <= j < |tr|
  {
    forall m | i <= m <= j :: tr[m].view.stable == tr[i].view.stable
  }

  lemma {:induction false} ReaderPresent(c: Config, tr: seq<Sys>, acts: seq<Action>, i: nat, j: nat, r: nat, k: Key)
    requires IsRun(c, tr, acts) && Reading(tr, acts, i, j, r, k)
    ensures r in tr[j].readers
  {
    hide Start, Enabled, Apply;
    var s, a := tr[j - 1], acts[j - 1];
    assert Enabled(c, s, a) && tr[j - 1 + 1] == Apply(c, s, a);
    if j > i + 1 {
      ReaderPresent(c, tr, acts, i, j - 1, r, k);
    }
    StaysReading(c, s, a, r, k);
  }

  lemma StaysReading(c: Config, s: Sys, a: Action, r: nat, k: Key)
    requires Enabled(c, s, a) && (a == GetLookup(r, k) || (r in s.readers && a != GetReturn(r)))
    ensures r in Apply(c, s, a).readers
  {
    hide Image, PlaceAll, PublicationData, Fits, Between;
  }

  /** With exclusive insertion the table is fixed during every read. */
  lemma {:induction false} LockFixesTable(c: Config, tr: seq<Sys>, acts: seq<Action>, i: nat, j: nat, r: nat, k: Key)
    requires c.exclusive && IsRun(c, tr, acts) && Reading(tr, acts, i, j, r, k)
    ensures TableFixed(tr, i, j)
  {
    hide Start, Apply, Enabled;
    var s, a := tr[j - 1], acts[j - 1];
    assert Enabled(c, s, a) && tr[j - 1 + 1] == Apply(c, s, a);
    if j == i + 1 {
      LookupKeepsView(c, s, r, k);
    } else {
      LockFixesTable(c, tr, acts, i, j - 1, r, k);
      ReaderPresent(c, tr, acts, i, j - 1, r, k);
      TableStays(c, s, a);
    }
  }

  lemma LookupKeepsView(c: Config, s: Sys, r: nat, k: Key)
    requires Enabled(c, s, GetLookup(r, k))
    ensures Apply(c, s, GetLookup(r, k)).view == s.view
  {
  }

  /** What a run knows of a reader that has not returned. */
  lemma {:induction false} ReaderTracked(c: Config, tr: seq<Sys>, acts: seq<Action>, i: nat, j: nat, r: nat, k: Key)
    requires IsRun(c, tr, acts) && Reading(tr, acts, i, j, r, k) && TableFixed(tr, i, j)
    ensures Tracked(tr[i], tr[j], r, k)
    ensures tr[j].readers[r].Answered? ==> Seen(tr, i, j, k, tr[j].readers[r].result)
  {
    hide ViewInv, Enabled, Apply, Start, Tracked, Lookup;
    var s, a := tr[j - 1], acts[j - 1];
    assert Enabled(c, s, a) && tr[j - 1 + 1] == Apply(c, s, a);
    RunView(c, tr, acts, i);
    RunView(c, tr, acts, j - 1);
    if j == i + 1 {
      TrackStart(c, s, r, k);
      TrackedIn(s, tr[j], r, k);
    } else {
      ReaderTracked(c, tr, acts, i, j - 1, r, k);
      TrackedIn(tr[i], s, r, k);
      if a == GetTest(r) || a == GetCache(r) || a == GetStable(r) {
        TrackOwn(c, tr[i], s, a, r, k);
      } else {
        TrackOther(c, tr[i], s, a, r, k);
      }
      TrackedIn(tr[i], tr[j], r, k);
    }
  }

  lemma TrackedIn(s0: Sys, s: Sys, r: nat, k: Key)
    requires Tracked(s0, s, r, k)
    ensures r in s.readers && s.readers[r].key == k
  {
  }

  /** Linearizable reads: a `Get(k)` that looks `k` up with action `i` and has its answer in state `j`
      answers with the value of `k` at some instant in between. That value is what the plain map of the log
      gives after `p` writes, where `p` lies between the points of the store at the start and at the end. It takes
      exclusive insertion, or a table that happens not to change meanwhile. */
  lemma ReadsLinearize(c: Config, tr: seq<Sys>, acts: seq<Action>, i: nat, j: nat, r: nat, k: Key)
    returns (p: nat)
    requires IsRun(c, tr, acts) && Reading(tr, acts, i, j, r, k)
    requires c.exclusive || TableFixed(tr, i, j)
    ensures r in tr[j].readers && tr[j].readers[r].key == k
    ensures tr[j].readers[r].Answered? ==>
              && Seen(tr, i, j, k, tr[j].readers[r].result)
              && Point(tr[i]) <= p <= Point(tr[j]) && p <= |Flatten(tr[j].segs)|
              && tr[j].readers[r].result == ValueAt(Flatten(tr[j].segs), p, k)
  {
    hide ViewInv, Apply, Start, Tracked, Lookup, Flatten, Point, ValueAt, TableFixed;
    if c.exclusive {
      LockFixesTable(c, tr, acts, i, j, r, k);
    }
    ReaderTracked(c, tr, acts, i, j, r, k);
    TrackedIn(tr[i], tr[j], r, k);
    p := 0;
    if tr[j].readers[r].Answered? {
      p := SeenInLog(c, tr, acts, i, j, k, tr[j].readers[r].result);
    }
  }

  /** The values a key has from one state to another are exactly those of the points of the log between. */
  lemma SeenExact(c: Config, tr: seq<Sys>, acts: seq<Action>, i: nat, j: nat, k: Key, v: Option<Value>)
    requires IsRun(c, tr, acts) && i <= j <= |acts|
    ensures Point(tr[i]) <= Point(tr[j]) <= |Flatten(tr[j].segs)|
    ensures Seen(tr, i, j, k, v) <==>
            exists p :: Point(tr[i]) <= p <= Point(tr[j]) && v == ValueAt(Flatten(tr[j].segs), p, k)
  {
    hide ViewInv, Apply, Start, Enabled, Lookup, Flatten, Point, ValueAt;
    RunMonotone(c, tr, acts, i, j);
    RunView(c, tr, acts, j);
    AtomicGet(c, tr[j], k);
    if Seen(tr, i, j, k, v) {
      var p := SeenInLog(c, tr, acts, i, j, k, v);
    }
    if p :| Point(tr[i]) <= p <= Point(tr[j]) && v == ValueAt(Flatten(tr[j].segs), p, k) {
      var m := PointReached(c, tr, acts, i, j, p);
      InstantValue(c, tr, acts, m, j, k);
    }
  }

  /** The value of an instant, by the log of a later state. */
  lemma InstantValue(c: Config, tr: seq<Sys>, acts: seq<Action>, m: nat, j: nat, k: Key)
    requires IsRun(c, tr, acts) && m <= j <= |acts|
    ensures Point(tr[m]) <= Point(tr[j]) <= |Flatten(tr[j].segs)|
    ensures Lookup(tr[m].view, k) == ValueAt(Flatten(tr[j].segs), Point(tr[m]), k)
  {
    hide ViewInv, Apply, Start, Enabled, Lookup, Flatten, Point, Find, Meaning;
    RunView(c, tr, acts, m);
    AtomicGet(c, tr[m], k);
    RunMonotone(c, tr, acts, m, j);
    RunView(c, tr, acts, j);
    AtomicGet(c, tr[j], k);
    assert Flatten(tr[m].segs)[..Point(tr[m])] == Flatten(tr[j].segs)[..Point(tr[m])];
  }

  /** One direction of it, with the point. */
  lemma SeenInLog(c: Config, tr: seq<Sys>, acts: seq<Action>, i: nat, j: nat, k: Key, v: Option<Value>)
    returns (p: nat)
    requires IsRun(c, tr, acts) && i <= j <= |acts| && Seen(tr, i, j, k, v)
    ensures Point(tr[i]) <= p <= Point(tr[j]) && p <= |Flatten(tr[j].segs)|
    ensures v == ValueAt(Flatten(tr[j].segs), p, k)
  {
    hide ViewInv, Apply, Start, Enabled, Lookup, Flatten, Point, ValueAt;
    var m :| i <= m <= j && Lookup(tr[m].view, k) == v;
    RunMonotone(c, tr, acts, i, m);
    InstantValue(c, tr, acts, m, j, k);
    p := Point(tr[m]);
  }

  // ---------------------------------------------------------------- reads under a shared-mode insertion

  /** What is known, under any lock mode, of a reader whose key was in a stable file when it looked it up. */
  ghost predicate TrackedStable(s0: Sys, s: Sys, r: nat, k: Key)
  {
    && k in s0.view.index && s0.view.index[k].fd < |s0.view.stable|
    && s0.view.stable <= s.view.stable && |s0.view.stable| <= |s.view.stable|
    && StableValue(s.view.files, s0.view.index[k]) == StableValue(s0.view.files, s0.view.index[k])
    && s0.view.index[k].fd in s0.view.stable
    && r in s.readers
    && (s.readers[r] == Located(k, s0.view.index[k]) || s.readers[r] == AtTable(k, s0.view.index[k])
        || s.readers[r] == Answered(k, Lookup(s0.view, k)))
  }

  lemma TableGrows(c: Config, s: Sys, a: Action)
    requires ViewInv(c, s) && Enabled(c, s, a)
    ensures s.view.stable <= Apply(c, s, a).view.stable
    ensures |s.view.stable| <= |Apply(c, s, a).view.stable|
  {
    hide Index, Cache, Entries, Image, UpTo, PublicationData, PlaceAll;
    if a.Insert? {
      InFlightPrefix(c, s);
      NewIds(|s.base| - 1, |s.segs| - 1);
    }
  }

  lemma TrackStableStep(c: Config, s0: Sys, s: Sys, a: Action, r: nat, k: Key)
    requires ViewInv(c, s) && Enabled(c, s, a) && a != GetReturn(r)
    requires TrackedStable(s0, s, r, k)
    ensures TrackedStable(s0, Apply(c, s, a), r, k)
  {
    hide ViewInv, StableValue;
    TableGrows(c, s, a);
    StableBytesStay(c, s, a, s0.view.index[k]);
    if a != GetTest(r) && a != GetCache(r) && a != GetStable(r) {
      OthersReaders(c, s, a, r);
    }
  }

  /** Whatever the lock mode and whatever rotates meanwhile, a `Get` whose key is in a stable file at its
      lookup answers with the value of that instant. */
  lemma {:induction false} StableKeysAreSafe(c: Config, tr: seq<Sys>, acts: seq<Action>, i: nat, j: nat, r: nat, k: Key)
    requires IsRun(c, tr, acts) && Reading(tr, acts, i, j, r, k)
    requires k in tr[i].view.index && tr[i].view.index[k].fd != |tr[i].view.stable|
    ensures TrackedStable(tr[i], tr[j], r, k)
  {
    hide ViewInv, Start, Apply, Enabled, TrackedStable;
    var s, a := tr[j - 1], acts[j - 1];
    assert Enabled(c, s, a) && tr[j - 1 + 1] == Apply(c, s, a);
    RunView(c, tr, acts, j - 1);
    if j == i + 1 {
      TrackStableStart(c, s, r, k);
    } else {
      StableKeysAreSafe(c, tr, acts, i, j - 1, r, k);
      TrackStableStep(c, tr[i], s, a, r, k);
    }
  }

  lemma TrackStableStart(c: Config, s0: Sys, r: nat, k: Key)
    requires ViewInv(c, s0) && Enabled(c, s0, GetLookup(r, k))
    requires k in s0.view.index && s0.view.index[k].fd != |s0.view.stable|
    ensures TrackedStable(s0, Apply(c, s0, GetLookup(r, k)), r, k)
  {
    hide StableValue, InFlight, Index, Cache, Entries, Image;
    HintBelow(c, s0, k);
  }

  /** Two reads, of one key or of two, the second begun after the first has its answer, do not go back in the log. */
  lemma ReadsInOrder(c: Config, tr: seq<Sys>, acts: seq<Action>, i1: nat, j1: nat, r1: nat, k1: Key,
                     i2: nat, j2: nat, r2: nat, k2: Key) returns (p1: nat, p2: nat)
    requires c.exclusive && IsRun(c, tr, acts) && j1 <= i2
    requires Reading(tr, acts, i1, j1, r1, k1) && r1 in tr[j1].readers && tr[j1].readers[r1].Answered?
    requires Reading(tr, acts, i2, j2, r2, k2) && r2 in tr[j2].readers && tr[j2].readers[r2].Answered?
    ensures p1 <= p2 <= |Flatten(tr[j2].segs)|
    ensures tr[j1].readers[r1].result == ValueAt(Flatten(tr[j2].segs), p1, k1)
    ensures tr[j2].readers[r2].result == ValueAt(Flatten(tr[j2].segs), p2, k2)
  {
    hide ViewInv, Apply, Start, IsRun, Tracked, Lookup, Flatten, Point, Find, Meaning, Reading, Seen, Enabled;
    p1 := ReadsLinearize(c, tr, acts, i1, j1, r1, k1);
    p2 := ReadsLinearize(c, tr, acts, i2, j2, r2, k2);
    RunLength(c, tr, acts);
    ReadingBounds(tr, acts, i2, j2, r2, k2);
    RunMonotone(c, tr, acts, j1, i2);
    RunMonotone(c, tr, acts, j1, j2);
    assert Flatten(tr[j1].segs)[..p1] == Flatten(tr[j2].segs)[..p1];
  }

  lemma RunLength(c: Config, tr: seq<Sys>, acts: seq<Action>)
    requires IsRun(c, tr, acts)
    ensures |tr| == |acts| + 1
  {
  }

  lemma ReadingBounds(tr: seq<Sys>, acts: seq<Action>, i: nat, j: nat, r: nat, k: Key)
    requires |tr| == |acts| + 1 && Reading(tr, acts, i, j, r, k)
    ensures i < j <= |acts|
  {
  }
}
