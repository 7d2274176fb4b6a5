/**
 The lock mode of the insertion into the stable table. What is meant is exclusive, which excludes reads in
 flight. As written it is shared, and a read can go wrong, that is, answer with a value that its key has at no
 instant of the read. Here are the states that are dangerous, and the proof that every read that goes
 wrong, in any run, comes across one of them. That each of them is one is proved in `LockModeExact`.
 */
module LockMode {
  import opened Codec
  import opened Layout
  import opened Commits
  import opened Concurrent
  import opened Linearizability

  /** Reader `r` answers with a value that `k` has at no instant of the read. */
  ghost predicate Misreads(tr: seq<Sys>, acts: seq<Action>, i: nat, j: nat, r: nat, k: Key)
    requires |tr| == |acts| + 1
  {
    && Reading(tr, acts, i, j, r, k)
    && r in tr[j].readers && tr[j].readers[r].Answered?
    && !Seen(tr, i, j, k, tr[j].readers[r].result)
  }

  // ---------------------------------------------------------------- the states that are dangerous

  /** The files of a batch that rotated are written, and the insertion is next. */
  ghost predicate Rotating(s: Sys)
  {
    s.worker.Written? && |s.segs| > |s.base|
  }

  /** No write of the batch to the new active file is one of `k`. */
  ghost predicate Absent(s: Sys, k: Key)
    requires s.worker.Written?
  {
    forall u | s.worker.lastActive <= u < |s.worker.batch| :: s.worker.batch[u].write.key != k
  }

  /** Write `f` of the batch is the first of its key that goes to the new active file, it is no deletion, and no
      earlier write of the batch gives the key the same value. */
  ghost predicate ShowsEarly(s: Sys, k: Key, f: nat)
    requires s.worker.Written?
  {
    var ws, first := s.worker.batch, s.worker.lastActive;
    && first <= f < |ws| && ws[f].write.key == k && Live(ws[f].write.value) != None
    && forall u | 0 <= u < f && ws[u].write.key == k ::
         u < first && Live(ws[u].write.value) != Live(ws[f].write.value)
  }

  /** The layout after the batch that is taken next, if it is the queue as it stands. */
  function Next(c: Config, s: Sys): (segs: Segments)
  {
    PlaceAll(s.segs, WritesOf(s.queue), c.maxSize)
  }

  /** The worker will take the queue as the next batch and can write it. */
  ghost predicate TakesQueue(c: Config, s: Sys)
  {
    s.running && Fits(Next(c, s))
  }

  /** Write `u` of the queue goes to the file that is active after the next batch. */
  ghost predicate StaysActive(c: Config, s: Sys, u: nat)
  {
    |Entries(s.segs)| + u < |Entries(Next(c, s))|
    && Entries(Next(c, s))[|Entries(s.segs)| + u].hint.fd == |Next(c, s)| - 1
  }

  /** The same in the next batch: this batch writes `k` only to files it rotates away, and write `f` of the queue is
      the first of `k` that the next batch writes to what then is the active file, with a new value. */
  ghost predicate ShowsLater(c: Config, s: Sys, k: Key, f: nat)
    requires s.worker.Written?
  {
    var ws, queue := s.worker.batch, s.queue;
    && TakesQueue(c, s) && Absent(s, k)
    && f < |queue| && queue[f].write.key == k && Live(queue[f].write.value) != None && StaysActive(c, s, f)
    && (forall u | 0 <= u < |ws| && ws[u].write.key == k :: Live(ws[u].write.value) != Live(queue[f].write.value))
    && forall u | 0 <= u < f && queue[u].write.key == k ::
         !StaysActive(c, s, u) && Live(queue[u].write.value) != Live(queue[f].write.value)
  }

  /** Before the insertion: `k` is cached, and either present, or deleted and first brought back, with a new value,
      in an active file. */
  ghost predicate Exposed(c: Config, s: Sys, k: Key)
    requires s.worker.Written?
  {
    && k in s.view.cache
    && (Live(s.view.cache[k]) != None || (exists f :: ShowsEarly(s, k, f)) || (exists f :: ShowsLater(c, s, k, f)))
  }

  /** Between a cache put and the index put that follows: the key is read from the cache, its hint still addresses the
      value before, no write that is left in the batch gives that value again, and the next batch rotates. */
  ghost predicate Stale(c: Config, s: Sys, k: Key)
  {
    && s.worker.Publishing? && s.worker.stage == ToIndex && s.worker.next < |s.worker.batch|
    && s.worker.batch[s.worker.next].write.key == k && ReadsCache(s, k)
    && (forall u | s.worker.next <= u < |s.worker.batch| && s.worker.batch[u].write.key == k ::
          Live(s.worker.batch[u].write.value) != Live(StableValue(s.view.files, s.view.index[k])))
    && TakesQueue(c, s) && |Next(c, s)| > |s.segs|
  }

  /** A read of `k` that begins here can go wrong. */
  ghost predicate Dangerous(c: Config, s: Sys, k: Key)
  {
    (Rotating(s) && Exposed(c, s, k)) || Stale(c, s, k)
  }

  /** The key passes the active-id test. */
  predicate ReadsCache(s: Sys, k: Key)
  {
    k in s.view.index && s.view.index[k].fd == |s.view.stable|
  }

  // ---------------------------------------------------------------- what the worker does during a read

  ghost predicate InBatch(s: Sys)
  {
    s.worker.Written? || s.worker.Inserted? || s.worker.Publishing?
  }

  /** `s` is a later state of the publication that `s0` belongs to. */
  ghost predicate SameBatch(s0: Sys, s: Sys)
    requires InBatch(s0)
  {
    && InBatch(s) && s.segs == s0.segs && s.base == s0.base && s.queue == s0.queue
    && s.worker.batch == s0.worker.batch && s.worker.lastActive == s0.worker.lastActive
    && (s.running ==> s0.running) && (s0.worker.Publishing? ==> s.worker.Publishing?)
  }

  /** That publication is over. */
  ghost predicate Rests(s0: Sys, s: Sys)
  {
    && (s.worker.Idle? || s.worker.Exited?) && s.segs == s0.segs && s.base == s0.segs && s.queue == s0.queue
    && ((s.running || s.worker.Idle?) ==> s0.running)
  }

  /** The worker is busy with the queue of `s0`. */
  ghost predicate NextBatch(c: Config, s0: Sys, s: Sys)
  {
    && s.queue == [] && s0.running && s.base == s0.segs
    && (s.worker.Taken? || InBatch(s)) && s.worker.batch == s0.queue
    && if s.worker.Taken? then s.segs == s0.segs else s.segs == Next(c, s0) && Fits(s.segs)
  }

  /** It is done with that too; what it takes now is empty. */
  ghost predicate Idles(c: Config, s0: Sys, s: Sys)
  {
    && s.queue == [] && TakesQueue(c, s0) && s.segs == s.base == Next(c, s0)
    && (s.worker.Idle? || s.worker.Exited? || ((s.worker.Taken? || InBatch(s)) && s.worker.batch == []))
  }

  ghost predicate Later(c: Config, s0: Sys, s: Sys)
    requires InBatch(s0)
  {
    SameBatch(s0, s) || Rests(s0, s) || NextBatch(c, s0, s) || Idles(c, s0, s)
  }

  lemma NothingMore(segs: Segments, ps: seq<Pending>, maxSize: nat)
    requires ps == []
    ensures PlaceAll(segs, WritesOf(ps), maxSize) == segs
  {
  }

  /** A reader in flight keeps callers from enqueuing, so the worker's next batch is the queue as it stands. */
  lemma LaterStep(c: Config, s0: Sys, s: Sys, a: Action)
    requires InBatch(s0) && Later(c, s0, s) && Enabled(c, s, a) && !a.Submit? && !a.SubmitDelete?
    ensures Later(c, s0, Apply(c, s, a))
    ensures SameBatch(s0, s) && !SameBatch(s0, Apply(c, s, a)) ==> a == Finish
  {
    hide Image, PlaceAll, PublicationData, Entries, Between, Fits;
    if a.WriteFiles? && s.worker.batch == [] {
      NothingMore(s.segs, s.worker.batch, c.maxSize);
    }
  }

  lemma LaterStart(c: Config, s: Sys)
    requires InBatch(s)
    ensures SameBatch(s, s) && Later(c, s, s)
  {
  }

  lemma NoSubmit(c: Config, tr: seq<Sys>, acts: seq<Action>, i: nat, m: nat, j: nat, r: nat, k: Key)
    requires IsRun(c, tr, acts) && Reading(tr, acts, i, j, r, k) && i <= m < j
    ensures !acts[m].Submit? && !acts[m].SubmitDelete?
  {
    hide Start, Apply;
    assert Enabled(c, tr[m], acts[m]);
    if i < m {
      ReaderPresent(c, tr, acts, i, m, r, k);
    }
  }

  lemma {:induction false} LaterRun(c: Config, tr: seq<Sys>, acts: seq<Action>, i: nat, m: nat, j: nat, r: nat, k: Key)
    requires IsRun(c, tr, acts) && Reading(tr, acts, i, j, r, k) && i <= m <= j && InBatch(tr[i])
    ensures Later(c, tr[i], tr[m])
  {
    hide Start, Apply, Enabled, Later, InBatch;
    if i < m {
      LaterRun(c, tr, acts, i, m - 1, j, r, k);
      assert Enabled(c, tr[m - 1], acts[m - 1]) && tr[m - 1 + 1] == Apply(c, tr[m - 1], acts[m - 1]);
      NoSubmit(c, tr, acts, i, m - 1, j, r, k);
      LaterStep(c, tr[i], tr[m - 1], acts[m - 1]);
    } else {
      LaterStart(c, tr[i]);
    }
  }

  // ---------------------------------------------------------------- hints and cache entries, by the log

  lemma EntriesGrow(c: Config, s: Sys, a: Action)
    requires Enabled(c, s, a)
    ensures Entries(s.segs) <= Entries(Apply(c, s, a).segs)
  {
    hide PlaceAll, Image, Entries, PublicationData, Between;
    if a.WriteFiles? {
      EntriesPlaceAll(s.segs, WritesOf(s.worker.batch), c.maxSize);
    }
  }

  lemma {:induction false} RunEntries(c: Config, tr: seq<Sys>, acts: seq<Action>, i: nat, j: nat)
    requires IsRun(c, tr, acts) && i <= j <= |acts|
    ensures Entries(tr[i].segs) <= Entries(tr[j].segs)
  {
    hide Enabled, Apply, Start, Entries;
    if i < j {
      RunEntries(c, tr, acts, i, j - 1);
      assert Enabled(c, tr[j - 1], acts[j - 1]) && tr[j - 1 + 1] == Apply(c, tr[j - 1], acts[j - 1]);
      EntriesGrow(c, tr[j - 1], acts[j - 1]);
    }
  }

  /** The bytes a hint addresses are, for good, the value of its key at the point the index was at. */
  lemma HintedValue(c: Config, s: Sys, s': Sys, k: Key)
    requires ViewInv(c, s) && ViewInv(c, s') && k in s.view.index && Entries(s.segs) <= Entries(s'.segs)
    ensures Indexed(s) <= |Flatten(s.segs)|
    ensures Live(StableValue(s'.view.files, s.view.index[k])) == ValueAt(Flatten(s.segs), Indexed(s), k)
  {
    hide Image, PlaceAll, Index, Cache, Entries, Flatten, PublicationData, EncodeAll, OnDisk, StableValue, Meaning,
         UpTo;
    var es, p := Entries(s.segs), Indexed(s);
    WritesOfEntries(s.segs);
    EntriesOnDisk(c.x, s'.view.files, s'.segs);
    IndexAt(es[..p], k);
    assert Writes(es)[..p] == Writes(es[..p]);
    var q := LastPos(Writes(es[..p]), k);
    assert es[..p][q] == es[q] == Entries(s'.segs)[q];
    assert OnDisk(s'.view.files, Entries(s'.segs)[q]);
    OnDiskValue(s'.view.files, es[q]);
    MeaningLast(Flatten(s.segs)[..p], k);
  }

  /** The key is read from the cache, which is one write of the key ahead of the index. */
  ghost predicate Lagging(s: Sys, k: Key)
  {
    && s.worker.Publishing? && s.worker.stage == ToIndex && s.worker.next < |s.worker.batch|
    && s.worker.batch[s.worker.next].write.key == k && ReadsCache(s, k)
  }

  /** Otherwise the hint addresses the key's value. */
  lemma HintedIsLookup(c: Config, s: Sys, k: Key)
    requires ViewInv(c, s) && k in s.view.index && !Lagging(s, k)
    ensures Indexed(s) <= |Flatten(s.segs)|
    ensures Lookup(s.view, k) == ValueAt(Flatten(s.segs), Indexed(s), k)
  {
    hide Lookup, Flatten, ValueAt, Entries, Image, Index, Cache, PublicationData, PlaceAll;
    AtomicGetOf(c, s, k);
    if KeyPoint(s, k) != Indexed(s) {
      var u := s.worker.next;
      BatchEntry(c, s, u);
      WritesOfEntries(s.segs);
      assert Flatten(s.segs)[Indexed(s)] == s.worker.batch[u].write;
      OtherKeySame(Flatten(s.segs), Indexed(s), k);
    }
  }

  function CacheAnswer(v: View, k: Key): (r: Option<Value>)
  {
    if k in v.cache then Live(v.cache[k]) else None
  }

  /** When the cache reflects `n` entries and the index `p` of them: a key that is cached without an active hint
      was put there by one of the entries between, and before them was not in the active file. */
  lemma AheadInLog(es: seq<Entry>, p: nat, n: nat, a: nat, k: Key) returns (q: nat)
    requires p <= n <= |es| && Ordered(es, a + 1)
    requires k in Cache(es[..n], a) && !(k in Index(es[..p]) && Index(es[..p])[k].fd == a)
    ensures p <= q < n && es[q].hint.fd == a && es[q].write == Write(k, Cache(es[..n], a)[k])
    ensures forall v | 0 <= v < p && es[v].write.key == k :: es[v].hint.fd != a
  {
    hide Index, Cache;
    CacheAt(es[..n], a, k);
    IndexAt(es[..p], k);
    q := LastPos(Writes(es[..n]), k);
    assert es[..n][q] == es[q];
    forall v | 0 <= v < p && es[v].write.key == k ensures es[v].hint.fd != a {
      assert Writes(es[..p])[v].key == k;
      var m := LastPos(Writes(es[..p]), k);
      assert es[..p][m] == es[m] && es[v].hint.fd <= es[m].hint.fd;
    }
  }

  /** The cache runs ahead of what the key reads as only between a cache put and the index put that follows, and
      only if that write is the first of its key in the new active file. */
  lemma CacheAhead(c: Config, s: Sys, k: Key)
    requires ViewInv(c, s) && !s.worker.Written? && !s.worker.Inserted?
    requires k in s.view.cache && Lookup(s.view, k) != CacheAnswer(s.view, k)
    ensures s.worker.Publishing? && s.worker.stage == ToIndex && s.worker.next < |s.worker.batch|
    ensures var f := s.worker.next;
            && s.worker.lastActive <= f
            && s.worker.batch[f].write == Write(k, s.view.cache[k])
            && forall u | s.worker.lastActive <= u < f :: s.worker.batch[u].write.key != k
  {
    hide Image, PlaceAll, Index, Cache, Entries, UpTo, StableValue, Ordered, PublicationData;
    var es := Entries(s.segs);
    EntriesOrdered(s.segs);
    var q := AheadInLog(es, Indexed(s), Cached(s), ActiveId(s), k);
    BatchEntry(c, s, s.worker.next);
    forall u | s.worker.lastActive <= u < s.worker.next ensures s.worker.batch[u].write.key != k {
      BatchEntry(c, s, u);
    }
  }

  /** Before the insertion, and after one that changes nothing, a key is cached exactly if it is read from there. */
  lemma CachedKey(c: Config, s: Sys, k: Key)
    requires ViewInv(c, s) && (s.worker.Written? || (s.worker.Inserted? && |s.segs| == |s.base|))
    ensures k in s.view.cache <==> ReadsCache(s, k)
    ensures k in s.view.cache ==> Lookup(s.view, k) == CacheAnswer(s.view, k)
  {
    hide Image, PlaceAll, PublicationData, Index, Cache, Entries;
    InFlightPrefix(c, s);
    EntriesOrdered(s.base);
    var es := Entries(s.base);
    IndexAt(es, k);
    CacheAt(es, |s.base| - 1, k);
  }

  lemma BaseCache(c: Config, s: Sys)
    requires ViewInv(c, s) && (s.worker.Written? || s.worker.Inserted?)
    ensures s.view.cache == Cache(Entries(s.base), |s.base| - 1)
  {
    hide Image, PlaceAll, PublicationData, Index, Cache, Entries, UpTo;
    InFlightPrefix(c, s);
  }

  /** The batch left no record of the key in the file that is active after it. */
  lemma NotInFinal(c: Config, s: Sys, k: Key)
    requires ViewInv(c, s) && Rotating(s) && Absent(s, k)
    ensures forall q | 0 <= q < |Entries(s.segs)| && Entries(s.segs)[q].write.key == k ::
              Entries(s.segs)[q].hint.fd != |s.segs| - 1
  {
    hide Image, PlaceAll, PublicationData, Index, Cache, Entries, UpTo;
    var es, b := Entries(s.segs), |Entries(s.base)|;
    InFlightPrefix(c, s);
    EntriesOrdered(s.base);
    forall q | 0 <= q < |es| && es[q].write.key == k ensures es[q].hint.fd != |s.segs| - 1 {
      if q < b {
        assert es[q] == Entries(s.base)[q];
      } else {
        BatchEntry(c, s, q - b);
      }
    }
  }

  /** After a batch that put no record of the key in its last file the next batch does not find it in the cache. */
  lemma GoneFromCache(c: Config, s0: Sys, s: Sys, k: Key)
    requires ViewInv(c, s0) && ViewInv(c, s) && Rotating(s0) && Absent(s0, k)
    requires (s.worker.Written? || s.worker.Inserted?) && s.base == s0.segs
    ensures k !in s.view.cache
  {
    hide Image, PlaceAll, PublicationData, Index, Cache, Entries, UpTo, ViewInv;
    BaseCache(c, s);
    NotInFinal(c, s0, k);
    EntriesOrdered(s.base);
    CacheAt(Entries(s.base), |s.base| - 1, k);
  }

  /** At the end of a publication a key is read from the cache if the batch put it in the active file. */
  lemma AbsentOrActive(c: Config, s0: Sys, s: Sys, k: Key)
    requires ViewInv(c, s) && s0.worker.Written? && SameBatch(s0, s) && Enabled(c, s, Finish)
    ensures Absent(s0, k) || ReadsCache(s, k)
  {
    hide Image, PlaceAll, PublicationData, Index, Cache, Entries;
    if !Absent(s0, k) {
      var u :| s.worker.lastActive <= u < |s.worker.batch| && s.worker.batch[u].write.key == k;
      var es, y := Entries(s.segs), |Entries(s.base)| + u;
      BatchEntry(c, s, u);
      EntriesOrdered(s.segs);
      assert es[..|es|] == es;
      IndexAt(es, k);
      assert Writes(es)[y].key == k;
      var q := LastPos(Writes(es), k);
      assert es[y].hint.fd <= es[q].hint.fd;
    }
  }

  // ---------------------------------------------------------------- following a reader

  /** The reader went to the cache, the key has been rotated away in state `p`, and is not back in an active file. */
  ghost predicate Behind(c: Config, tr: seq<Sys>, acts: seq<Action>, i: nat, p: nat, m: nat, k: Key)
    requires m < |tr| == |acts| + 1
  {
    && i <= p < m && acts[p] == Insert && Rotating(tr[p]) && k in tr[p].view.cache
    && !Exposed(c, tr[p], k) && Later(c, tr[p], tr[m])
    && (SameBatch(tr[p], tr[m]) || Absent(tr[p], k))
  }

  /** What is known when the cache is read. */
  ghost predicate Cacheable(c: Config, tr: seq<Sys>, acts: seq<Action>, i: nat, m: nat, k: Key)
    requires m < |tr| == |acts| + 1
  {
    ReadsCache(tr[m], k) || exists p :: Behind(c, tr, acts, i, p, m, k)
  }

  /** An earlier write of the key has been seen. */
  lemma WriteSeen(c: Config, tr: seq<Sys>, acts: seq<Action>, i: nat, p: nat, m: nat, k: Key, y: nat)
    requires IsRun(c, tr, acts) && i <= p <= m <= |acts|
    requires Point(tr[p]) <= y < Point(tr[m])
    ensures Point(tr[m]) <= |Flatten(tr[m].segs)|
    ensures Flatten(tr[m].segs)[y].key == k ==> Seen(tr, i, m, k, Live(Flatten(tr[m].segs)[y].value))
  {
    hide IsRun, Seen, Point, Flatten, ValueAt;
    RunLength(c, tr, acts);
    SeenAtAll(c, tr, acts, i, p, m, k, y + 1);
    ValueWritten(Flatten(tr[m].segs), y);
  }

  lemma SeenAtAll(c: Config, tr: seq<Sys>, acts: seq<Action>, i: nat, p: nat, m: nat, k: Key, q: nat)
    requires IsRun(c, tr, acts) && i <= p <= m <= |acts| && Point(tr[p]) <= q <= Point(tr[m])
    ensures Point(tr[m]) <= |Flatten(tr[m].segs)|
    ensures Seen(tr, i, m, k, ValueAt(Flatten(tr[m].segs), q, k))
  {
    hide Start, Enabled, Apply, Seen, Point, Flatten, ValueAt, ViewInv;
    RunMonotone(c, tr, acts, i, p);
    RunView(c, tr, acts, m);
    AtomicGet(c, tr[m], k);
    SeenExact(c, tr, acts, i, m, k, ValueAt(Flatten(tr[m].segs), q, k));
  }

  /** The log position of write `u` of the batch that was about to be published in state `p`. */
  lemma BatchInLog(c: Config, tr: seq<Sys>, acts: seq<Action>, p: nat, m: nat, u: nat)
    requires IsRun(c, tr, acts) && p <= m <= |acts| && InBatch(tr[p]) && u < |tr[p].worker.batch|
    ensures |Entries(tr[p].segs)| == |Entries(tr[p].base)| + |tr[p].worker.batch| <= |Flatten(tr[m].segs)|
    ensures Flatten(tr[m].segs)[|Entries(tr[p].base)| + u] == tr[p].worker.batch[u].write
  {
    hide Start, Enabled, Apply, Entries, Flatten, InFlight;
    RunView(c, tr, acts, p);
    BatchEntry(c, tr[p], u);
    RunEntries(c, tr, acts, p, m);
    WritesOfEntries(tr[m].segs);
  }

  /** The cache read, while the publication that rotated the key away goes on. */
  lemma SeenInBatch(c: Config, tr: seq<Sys>, acts: seq<Action>, i: nat, p: nat, m: nat, k: Key)
    requires IsRun(c, tr, acts) && m <= |acts| && Behind(c, tr, acts, i, p, m, k) && SameBatch(tr[p], tr[m])
    requires tr[m].worker.Publishing? && k in tr[m].view.cache && Live(tr[m].view.cache[k]) != None
    requires Lookup(tr[m].view, k) != CacheAnswer(tr[m].view, k)
    ensures Seen(tr, i, m, k, CacheAnswer(tr[m].view, k))
  {
    hide IsRun, ViewInv, Lookup, Live, Seen, Entries, Flatten, Later;
    RunLength(c, tr, acts);
    RunView(c, tr, acts, m);
    CacheAhead(c, tr[m], k);
    var s0, f := tr[p], tr[m].worker.next;
    assert !ShowsEarly(s0, k, f);
    var u :| 0 <= u < f && s0.worker.batch[u].write.key == k
             && Live(s0.worker.batch[u].write.value) == CacheAnswer(tr[m].view, k);
    BatchInLog(c, tr, acts, p, m, u);
    WriteSeen(c, tr, acts, i, p, m, k, |Entries(s0.base)| + u);
  }

  /** The cache read, in the publication of the next batch. */
  lemma SeenInNext(c: Config, tr: seq<Sys>, acts: seq<Action>, i: nat, p: nat, m: nat, k: Key)
    requires IsRun(c, tr, acts) && m <= |acts| && Behind(c, tr, acts, i, p, m, k) && NextBatch(c, tr[p], tr[m])
    requires Absent(tr[p], k)
    requires tr[m].worker.Publishing? && k in tr[m].view.cache && Live(tr[m].view.cache[k]) != None
    requires Lookup(tr[m].view, k) != CacheAnswer(tr[m].view, k)
    ensures Seen(tr, i, m, k, CacheAnswer(tr[m].view, k))
  {
    hide IsRun, ViewInv, Lookup, Live, Seen, Entries, Flatten, Later, SameBatch, PlaceAll, Fits, Absent;
    RunLength(c, tr, acts);
    RunView(c, tr, acts, m);
    CacheAhead(c, tr[m], k);
    var s0, s, f := tr[p], tr[m], tr[m].worker.next;
    StaysActiveIs(c, s0, s);
    var b, b' := |Entries(s0.base)|, |Entries(s0.segs)|;
    var v := CacheAnswer(s.view, k);
    assert !ShowsLater(c, s0, k, f);
    if u :| 0 <= u < |s0.worker.batch| && s0.worker.batch[u].write.key == k
            && Live(s0.worker.batch[u].write.value) == v {
      BatchInLog(c, tr, acts, p, m, u);
      WriteSeen(c, tr, acts, i, p, m, k, b + u);
    } else {
      var u :| 0 <= u < f && s0.queue[u].write.key == k && Live(s0.queue[u].write.value) == v;
      BatchInLog(c, tr, acts, m, m, u);
      RunView(c, tr, acts, p);
      BaseBelow(c, s0);
      WriteSeen(c, tr, acts, i, p, m, k, b' + u);
    }
  }

  lemma BaseBelow(c: Config, s: Sys)
    requires InBatch(s) && ViewInv(c, s)
    ensures |Entries(s.base)| <= |Entries(s.segs)|
  {
    hide Entries, PlaceAll, PublicationData;
    InFlightPrefix(c, s);
  }

  lemma StaysActiveIs(c: Config, s0: Sys, s: Sys)
    requires ViewInv(c, s) && NextBatch(c, s0, s) && InBatch(s)
    ensures forall u | 0 <= u < |s.worker.batch| :: StaysActive(c, s0, u) <==> s.worker.lastActive <= u
  {
    hide Entries, PlaceAll, PublicationData, Index, Cache, Image, UpTo, Fits;
    forall u | 0 <= u < |s.worker.batch| ensures StaysActive(c, s0, u) <==> s.worker.lastActive <= u {
      BatchEntry(c, s, u);
    }
  }

  /** The cache read of a key that was not exposed when it was rotated away. */
  lemma SeenBehind(c: Config, tr: seq<Sys>, acts: seq<Action>, i: nat, p: nat, m: nat, k: Key)
    requires IsRun(c, tr, acts) && m <= |acts| && Behind(c, tr, acts, i, p, m, k)
    ensures Seen(tr, i, m, k, CacheAnswer(tr[m].view, k))
  {
    hide IsRun, ViewInv, Lookup, Live, Entries, Exposed, Absent, ReadsCache;
    RunLength(c, tr, acts);
    var s0, s := tr[p], tr[m];
    RunView(c, tr, acts, p);
    RunView(c, tr, acts, m);
    DeletedBefore(c, s0, k);
    assert Lookup(s0.view, k) == None;
    if CacheAnswer(s.view, k) != None && Lookup(s.view, k) != CacheAnswer(s.view, k) {
      if s.worker.Written? || s.worker.Inserted? {
        NoAnswerYet(c, s0, s, k);
      } else {
        CacheAhead(c, s, k);
        if SameBatch(s0, s) {
          SeenInBatch(c, tr, acts, i, p, m, k);
        } else {
          SeenInNext(c, tr, acts, i, p, m, k);
        }
      }
    }
  }

  lemma DeletedBefore(c: Config, s0: Sys, k: Key)
    requires ViewInv(c, s0) && s0.worker.Written? && k in s0.view.cache && !Exposed(c, s0, k)
    ensures Live(s0.view.cache[k]) == None && Lookup(s0.view, k) == None
  {
    hide ViewInv, Lookup, Live, ShowsEarly, ShowsLater;
    CachedKey(c, s0, k);
  }

  /** Before the cache is cleared it holds nothing of the key but the deletion. */
  lemma NoAnswerYet(c: Config, s0: Sys, s: Sys, k: Key)
    requires ViewInv(c, s0) && ViewInv(c, s) && Rotating(s0) && Later(c, s0, s)
    requires SameBatch(s0, s) || Absent(s0, k)
    requires s.worker.Written? || s.worker.Inserted?
    requires k in s0.view.cache && Live(s0.view.cache[k]) == None
    ensures CacheAnswer(s.view, k) == None || Lookup(s.view, k) == CacheAnswer(s.view, k)
  {
    hide ViewInv, Lookup, Live, PlaceAll, Entries, Cache;
    BaseCache(c, s0);
    BaseCache(c, s);
    if NextBatch(c, s0, s) && Absent(s0, k) {
      GoneFromCache(c, s0, s, k);
    } else if Idles(c, s0, s) {
      CachedKey(c, s, k);
    }
  }

  lemma CacheReadSeen(c: Config, tr: seq<Sys>, acts: seq<Action>, i: nat, m: nat, k: Key)
    requires IsRun(c, tr, acts) && i <= m <= |acts| && |tr| == |acts| + 1 && Cacheable(c, tr, acts, i, m, k)
    ensures Seen(tr, i, m, k, CacheAnswer(tr[m].view, k))
  {
    hide IsRun, Behind;
    if ReadsCache(tr[m], k) {
      assert Lookup(tr[m].view, k) == CacheAnswer(tr[m].view, k);
    } else {
      var p :| Behind(c, tr, acts, i, p, m, k);
      SeenBehind(c, tr, acts, i, p, m, k);
    }
  }

  /** A step of anybody keeps what is known for the cache read. */
  lemma CacheableStep(c: Config, tr: seq<Sys>, acts: seq<Action>, i: nat, m: nat, k: Key)
    requires IsRun(c, tr, acts) && i <= m < |acts| && |tr| == |acts| + 1 && Cacheable(c, tr, acts, i, m, k)
    requires !acts[m].Submit? && !acts[m].SubmitDelete?
    requires acts[m] == Insert && Rotating(tr[m]) ==> !Exposed(c, tr[m], k)
    ensures Cacheable(c, tr, acts, i, m + 1, k)
  {
    hide Start, Enabled, Apply, ViewInv, Exposed, Later, SameBatch, Absent, ReadsCache;
    var s, a := tr[m], acts[m];
    assert Enabled(c, s, a) && tr[m + 1] == Apply(c, s, a);
    RunView(c, tr, acts, m);
    if ReadsCache(s, k) {
      if a == Insert && Rotating(s) {
        CachedKey(c, s, k);
        LaterStart(c, s);
        LaterStep(c, s, s, a);
        assert Behind(c, tr, acts, i, m, m + 1, k);
      } else {
        StaysInCache(c, s, a, k);
      }
    } else {
      var p: nat :| p < m && Behind(c, tr, acts, i, p, m, k);
      LaterStep(c, tr[p], s, a);
      if SameBatch(tr[p], s) && !SameBatch(tr[p], tr[m + 1]) {
        AbsentOrActive(c, tr[p], s, k);
      }
      assert Behind(c, tr, acts, i, p, m + 1, k);
    }
  }

  lemma StaysInCache(c: Config, s: Sys, a: Action, k: Key)
    requires ViewInv(c, s) && Enabled(c, s, a) && ReadsCache(s, k) && !(a == Insert && Rotating(s))
    ensures ReadsCache(Apply(c, s, a), k)
  {
    hide ViewInv, Enabled, Apply;
    if a.Insert? {
      InsertIsWritten(c, s, a);
    }
    StepView(c, s, a);
    TableSize(c, s);
    TableSize(c, Apply(c, s, a));
    ActiveHintStays(c, s, a, k);
  }

  lemma InsertIsWritten(c: Config, s: Sys, a: Action)
    requires Enabled(c, s, a) && a.Insert?
    ensures s.worker.Written?
  {
  }

  lemma TableSize(c: Config, s: Sys)
    requires ViewInv(c, s)
    ensures |s.view.stable| == ActiveId(s)
  {
    hide Image, PlaceAll, PublicationData, Index, Cache, Entries;
  }

  /** What is known of a reader that looked `k` up in state `i`. */
  ghost predicate Followed(c: Config, tr: seq<Sys>, acts: seq<Action>, i: nat, m: nat, r: nat, k: Key)
    requires i < m < |tr| == |acts| + 1
  {
    var s0, s := tr[i], tr[m];
    && |s0.view.stable| <= |s.view.stable|
    && r in s.readers && s.readers[r].key == k
    && match s.readers[r]
       case Located(_, h) =>
         k in s0.view.index && h == s0.view.index[k] && (h.fd == |s.view.stable| ==> ReadsCache(s, k))
       case AtCache(_) => Cacheable(c, tr, acts, i, m, k)
       case AtTable(_, h) =>
         && k in s0.view.index && h == s0.view.index[k] && h.fd in s.view.stable
         && Seen(tr, i, m, k, Live(StableValue(s.view.files, h)))
       case Answered(_, v) => Seen(tr, i, m, k, v)
  }

  /** During a read nothing is inserted that makes the key dangerous. */
  ghost predicate Unharmed(c: Config, tr: seq<Sys>, acts: seq<Action>, i: nat, j: nat, k: Key)
    requires i <= j <= |acts| && |tr| == |acts| + 1
  {
    && !Stale(c, tr[i], k)
    && forall p | i <= p < j && acts[p] == Insert && Rotating(tr[p]) :: !Exposed(c, tr[p], k)
  }

  lemma SeenMore(tr: seq<Sys>, i: nat, m: nat, m': nat, k: Key, v: Option<Value>)
    requires i <= m <= m' < |tr| && Seen(tr, i, m, k, v)
    ensures Seen(tr, i, m', k, v)
  {
  }

  /** The value a hint addresses does not change. */
  lemma SameBytes(c: Config, tr: seq<Sys>, acts: seq<Action>, i: nat, m: nat, m': nat, k: Key)
    requires IsRun(c, tr, acts) && i <= m <= |acts| && i <= m' <= |acts| && k in tr[i].view.index
    ensures var h := tr[i].view.index[k];
            Live(StableValue(tr[m'].view.files, h)) == Live(StableValue(tr[m].view.files, h))
  {
    hide Start, Enabled, Apply, ViewInv, StableValue, ValueAt, Flatten, Entries, Live;
    RunView(c, tr, acts, i);
    RunView(c, tr, acts, m);
    RunView(c, tr, acts, m');
    RunEntries(c, tr, acts, i, m);
    RunEntries(c, tr, acts, i, m');
    HintedValue(c, tr[i], tr[m], k);
    HintedValue(c, tr[i], tr[m'], k);
  }

  /** If the table has grown since a moment between the two puts, the next batch is in, and rotated. */
  lemma TableGrew(c: Config, s0: Sys, s: Sys)
    requires ViewInv(c, s0) && ViewInv(c, s) && s0.worker.Publishing? && Later(c, s0, s)
    requires |s.view.stable| > |s0.view.stable|
    ensures TakesQueue(c, s0) && |Next(c, s0)| > |s0.segs|
    ensures Indexed(s) >= |Entries(s0.segs)|
  {
    hide Image, PlaceAll, PublicationData, Index, Cache, Entries, Fits;
    TableSize(c, s0);
    TableSize(c, s);
    EntriesPlaceAll(s0.segs, WritesOf(s0.queue), c.maxSize);
  }

  /** A read through an old hint: a value seen, unless the hint was overtaken when the reader got it. */
  lemma HintedSeen(c: Config, tr: seq<Sys>, acts: seq<Action>, i: nat, m: nat, r: nat, k: Key)
    requires IsRun(c, tr, acts) && Reading(tr, acts, i, m, r, k) && k in tr[i].view.index
    requires !Stale(c, tr[i], k) && tr[i].view.index[k].fd < |tr[m].view.stable|
    ensures Seen(tr, i, m, k, Live(StableValue(tr[m].view.files, tr[i].view.index[k])))
  {
    hide Start, Enabled, Apply, ViewInv, StableValue, ValueAt, Flatten, Entries, Live, Lookup, Later, Point, Fits,
         PlaceAll;
    var s0 := tr[i];
    RunView(c, tr, acts, i);
    RunView(c, tr, acts, m);
    HintedValue(c, s0, s0, k);
    SameBytes(c, tr, acts, i, i, m, k);
    if Lagging(s0, k) {
      LaterRun(c, tr, acts, i, m, m, r, k);
      TableGrew(c, s0, tr[m]);
      var u :| s0.worker.next <= u < |s0.worker.batch| && s0.worker.batch[u].write.key == k
               && Live(s0.worker.batch[u].write.value) == Live(StableValue(s0.view.files, s0.view.index[k]));
      BatchInLog(c, tr, acts, i, m, u);
      LagPoint(c, s0, k);
      WriteSeenLater(c, tr, acts, i, m, k, |Entries(s0.base)| + u);
    } else {
      HintedIsLookup(c, s0, k);
    }
  }

  lemma LagPoint(c: Config, s: Sys, k: Key)
    requires ViewInv(c, s) && Lagging(s, k)
    ensures Point(s) == |Entries(s.base)| + s.worker.next + 1
  {
    hide Image, PlaceAll, PublicationData, Index, Cache, Entries;
    TableSize(c, s);
  }

  lemma WriteSeenLater(c: Config, tr: seq<Sys>, acts: seq<Action>, i: nat, m: nat, k: Key, y: nat)
    requires IsRun(c, tr, acts) && i <= m <= |acts| && Point(tr[i]) <= y + 1 <= Indexed(tr[m])
    ensures y < |Flatten(tr[m].segs)|
    ensures Flatten(tr[m].segs)[y].key == k ==> Seen(tr, i, m, k, Live(Flatten(tr[m].segs)[y].value))
  {
    hide Start, Enabled, Apply, ViewInv, ValueAt, Flatten, Entries, Live, Lookup, Seen, Indexed;
    SeenAtAll(c, tr, acts, i, i, m, k, y + 1);
    ValueWritten(Flatten(tr[m].segs), y);
  }

  lemma FollowStart(c: Config, tr: seq<Sys>, acts: seq<Action>, i: nat, r: nat, k: Key)
    requires IsRun(c, tr, acts) && i < |acts| && acts[i] == GetLookup(r, k)
    ensures Followed(c, tr, acts, i, i + 1, r, k)
  {
    hide Start, ViewInv, StableValue;
    assert Enabled(c, tr[i], acts[i]) && tr[i + 1] == Apply(c, tr[i], acts[i]);
    assert k !in tr[i].view.index ==> Lookup(tr[i].view, k) == None;
  }

  lemma FollowOwn(c: Config, tr: seq<Sys>, acts: seq<Action>, i: nat, m: nat, r: nat, k: Key)
    requires IsRun(c, tr, acts) && m < |acts| && Reading(tr, acts, i, m, r, k) && Unharmed(c, tr, acts, i, m, k)
    requires Followed(c, tr, acts, i, m, r, k)
    requires acts[m] == GetTest(r) || acts[m] == GetCache(r) || acts[m] == GetStable(r)
    ensures Followed(c, tr, acts, i, m + 1, r, k)
  {
    hide Start, ViewInv, StableValue, Exposed, Stale, Lookup, Behind, Live;
    var s := tr[m];
    assert Enabled(c, s, acts[m]) && tr[m + 1] == Apply(c, s, acts[m]);
    RunView(c, tr, acts, i);
    RunView(c, tr, acts, m);
    if s.readers[r].AtCache? {
      CacheReadSeen(c, tr, acts, i, m, k);
      SeenMore(tr, i, m, m + 1, k, CacheAnswer(s.view, k));
    } else {
      HintBelow(c, tr[i], k);
      TableIds(c, s);
      if s.readers[r].hint.fd < |s.view.stable| {
        HintedSeen(c, tr, acts, i, m, r, k);
        SeenMore(tr, i, m, m + 1, k, Live(StableValue(s.view.files, tr[i].view.index[k])));
      }
    }
  }

  lemma TableIds(c: Config, s: Sys)
    requires ViewInv(c, s)
    ensures forall fd: nat :: fd in s.view.stable <==> fd < |s.view.stable|
  {
    hide Image, PlaceAll, PublicationData, Index, Cache, Entries;
  }

  lemma FollowOther(c: Config, tr: seq<Sys>, acts: seq<Action>, i: nat, m: nat, r: nat, k: Key)
    requires IsRun(c, tr, acts) && i < m < |acts| && Followed(c, tr, acts, i, m, r, k)
    requires Reading(tr, acts, i, m + 1, r, k) && Unharmed(c, tr, acts, i, m + 1, k)
    requires acts[m] != GetTest(r) && acts[m] != GetCache(r) && acts[m] != GetStable(r)
    ensures Followed(c, tr, acts, i, m + 1, r, k)
  {
    hide Start, ViewInv, StableValue, Exposed, Stale, Lookup, Behind, Live, Enabled, Apply, Cacheable, Seen, ReadsCache;
    var s, a := tr[m], acts[m];
    assert Enabled(c, s, a) && tr[m + 1] == Apply(c, s, a);
    RunView(c, tr, acts, i);
    RunView(c, tr, acts, m);
    TableGrows(c, s, a);
    OthersReaders(c, s, a, r);
    NoSubmit(c, tr, acts, i, m, m + 1, r, k);
    match s.readers[r]
    case Located(_, h) =>
      HintBelow(c, tr[i], k);
      if h.fd == |tr[m + 1].view.stable| {
        NotGrown(c, s, a);
        StaysInCache(c, s, a, k);
      }
    case AtCache(_) => CacheableStep(c, tr, acts, i, m, k);
    case AtTable(_, h) =>
      SameBytes(c, tr, acts, i, m, m + 1, k);
      SeenMore(tr, i, m, m + 1, k, Live(StableValue(s.view.files, h)));
    case Answered(_, v) => SeenMore(tr, i, m, m + 1, k, v);
  }

  lemma InsertGrows(c: Config, s: Sys)
    requires ViewInv(c, s) && Enabled(c, s, Insert) && Rotating(s)
    ensures |Apply(c, s, Insert).view.stable| > |s.view.stable|
  {
    hide Image, PlaceAll, PublicationData, Index, Cache, Entries, UpTo, Between;
    InFlightPrefix(c, s);
    NewIds(|s.base| - 1, |s.segs| - 1);
    assert Apply(c, s, Insert).view.stable == UpTo(|s.segs| - 1);
  }

  lemma NotGrown(c: Config, s: Sys, a: Action)
    requires ViewInv(c, s) && Enabled(c, s, a) && |Apply(c, s, a).view.stable| == |s.view.stable|
    ensures !(a == Insert && Rotating(s))
  {
    hide ViewInv, Apply, Enabled;
    if a == Insert && Rotating(s) {
      InsertGrows(c, s);
    }
  }

  lemma {:induction false} FollowRun(c: Config, tr: seq<Sys>, acts: seq<Action>, i: nat, j: nat, r: nat, k: Key)
    requires IsRun(c, tr, acts) && Reading(tr, acts, i, j, r, k) && Unharmed(c, tr, acts, i, j, k)
    ensures Followed(c, tr, acts, i, j, r, k)
  {
    hide IsRun, Followed, Exposed, Stale, Rotating;
    RunLength(c, tr, acts);
    if j == i + 1 {
      FollowStart(c, tr, acts, i, r, k);
    } else {
      FollowRun(c, tr, acts, i, j - 1, r, k);
      var a := acts[j - 1];
      if a == GetTest(r) || a == GetCache(r) || a == GetStable(r) {
        FollowOwn(c, tr, acts, i, j - 1, r, k);
      } else {
        FollowOther(c, tr, acts, i, j - 1, r, k);
      }
    }
  }

  /** Whole runs, any number of batches and readers, any lock mode: every read that goes wrong has a dangerous
      state of its key in its course, at its start or at an insertion. */
  lemma MisreadNeedsDanger(c: Config, tr: seq<Sys>, acts: seq<Action>, i: nat, j: nat, r: nat, k: Key)
    returns (p: nat)
    requires IsRun(c, tr, acts) && |tr| == |acts| + 1 && Misreads(tr, acts, i, j, r, k)
    ensures i <= p < j <= |acts| && Dangerous(c, tr[p], k) && (p == i || acts[p] == Insert)
  {
    hide IsRun, Exposed, Stale, Seen;
    if Unharmed(c, tr, acts, i, j, k) {
      FollowRun(c, tr, acts, i, j, r, k);
      assert false;
    } else if Stale(c, tr[i], k) {
      p := i;
    } else {
      p :| i <= p < j && acts[p] == Insert && tr[p].worker.Written? && Rotating(tr[p]) && Exposed(c, tr[p], k);
    }
  }
}
