/**
 The shared-mode insertion as it is: in every dangerous state a read can begin that goes wrong, so that the
 dangerous states are exactly the condition, and exactly when a read can miss a key that is present.
 */
module LockModeExact {
  import opened Codec
  import opened Layout
  import opened Commits
  import opened Concurrent
  import opened Linearizability
  import opened LockMode
  import opened Lifecycle

  /** Reader `r` answers that `k` is absent although `k` is present at every instant of the read. */
  ghost predicate Misses(tr: seq<Sys>, acts: seq<Action>, i: nat, j: nat, r: nat, k: Key)
    requires |tr| == |acts| + 1
  {
    && Reading(tr, acts, i, j, r, k)
    && r in tr[j].readers && tr[j].readers[r] == Answered(k, None)
    && forall m | i <= m <= j :: Lookup(tr[m].view, k) != None
  }

  /** The run goes on, in any way. */
  ghost predicate Continues(c: Config, tr: seq<Sys>, acts: seq<Action>, tr': seq<Sys>, acts': seq<Action>)
  {
    IsRun(c, tr', acts') && |tr'| == |acts'| + 1 && |tr| == |acts| + 1 && tr <= tr' && acts <= acts'
  }

  // ---------------------------------------------------------------- reads that do go wrong

  lemma FreshId(ids: set<nat>) returns (r: nat)
    ensures forall i | i in ids :: i < r
  {
    if ids == {} {
      r := 0;
    } else {
      var id :| id in ids;
      var rest := FreshId(ids - {id});
      r := if rest <= id then id + 1 else rest;
      forall i | i in ids ensures i < r {
        assert i == id || i in ids - {id};
      }
    }
  }

  /** A continuation that begins with the lookup of `k` by reader `r`, which has not returned. */
  ghost predicate ReadsOn(c: Config, tr: seq<Sys>, acts: seq<Action>, tr': seq<Sys>, acts': seq<Action>,
                          r: nat, k: Key)
  {
    && Continues(c, tr, acts, tr', acts') && |acts| < |acts'| && acts'[|acts|] == GetLookup(r, k)
    && forall m | |acts| < m < |acts'| :: acts'[m] != GetReturn(r)
  }

  lemma ReadsOnRun(c: Config, tr: seq<Sys>, acts: seq<Action>, tr': seq<Sys>, acts': seq<Action>, r: nat, k: Key)
    requires ReadsOn(c, tr, acts, tr', acts', r, k)
    ensures IsRun(c, tr', acts') && |tr'| == |acts'| + 1 && |tr| == |acts| + 1 && |acts| < |acts'|
    ensures tr'[|acts|] == tr[|acts|] && Reading(tr', acts', |acts|, |acts'|, r, k)
    ensures ViewInv(c, tr'[|acts'|])
  {
    hide Start, Enabled, Apply, ViewInv;
    RunView(c, tr', acts', |acts'|);
  }

  lemma Go(c: Config, tr: seq<Sys>, acts: seq<Action>, tr1: seq<Sys>, acts1: seq<Action>, r: nat, k: Key, a: Action)
    returns (tr': seq<Sys>, acts': seq<Action>)
    requires ReadsOn(c, tr, acts, tr1, acts1, r, k) && a != GetReturn(r) && Enabled(c, tr1[|acts1|], a)
    ensures ReadsOn(c, tr, acts, tr', acts', r, k)
    ensures |tr'| == |acts'| + 1 && tr'[|acts'|] == Apply(c, tr1[|acts1|], a) && acts' == acts1 + [a] && tr1 <= tr'
  {
    hide IsRun, Enabled, Apply;
    RunLength(c, tr1, acts1);
    tr', acts' := RunExtend(c, tr1, acts1, a);
  }

  /** The read begins. */
  lemma Begin(c: Config, tr: seq<Sys>, acts: seq<Action>, k: Key)
    returns (tr': seq<Sys>, acts': seq<Action>, r: nat)
    requires IsRun(c, tr, acts) && |tr| == |acts| + 1 && k in tr[|acts|].view.index
    ensures ReadsOn(c, tr, acts, tr', acts', r, k) && |tr'| == |acts'| + 1 && acts' == acts + [GetLookup(r, k)]
    ensures var s0, s := tr[|acts|], tr'[|acts'|];
            s == s0.(readers := s0.readers[r := Located(k, s0.view.index[k])])
  {
    hide IsRun;
    r := FreshId(tr[|acts|].readers.Keys);
    tr', acts' := RunExtend(c, tr, acts, GetLookup(r, k));
  }

  lemma BeginCached(c: Config, tr: seq<Sys>, acts: seq<Action>, k: Key)
    returns (tr': seq<Sys>, acts': seq<Action>, r: nat)
    requires IsRun(c, tr, acts) && |tr| == |acts| + 1 && ReadsCache(tr[|acts|], k)
    ensures ReadsOn(c, tr, acts, tr', acts', r, k) && |tr'| == |acts'| + 1
    ensures acts' == acts + [GetLookup(r, k)] + [GetTest(r)]
    ensures var s0, s := tr[|acts|], tr'[|acts'|]; s == s0.(readers := s0.readers[r := AtCache(k)])
  {
    hide IsRun, ReadsOn;
    var tr1, acts1;
    tr1, acts1, r := Begin(c, tr, acts, k);
    tr', acts' := Go(c, tr, acts, tr1, acts1, r, k, GetTest(r));
  }

  /** The run goes on without an insertion. */
  ghost predicate NoInsert(tr1: seq<Sys>, acts1: seq<Action>, tr': seq<Sys>, acts': seq<Action>)
  {
    tr1 <= tr' && acts1 <= acts' && forall m | |acts1| <= m < |acts'| :: acts'[m] != Insert
  }

  /** Steps of the worker that leave readers, layout and queue alone. */
  ghost predicate SameRest(s: Sys, s': Sys)
  {
    && s'.readers == s.readers && s'.segs == s.segs && s'.base == s.base && s'.queue == s.queue
    && s'.running == s.running
  }

  /** The worker inserts, clears and is about to publish its first write. */
  lemma Open(c: Config, tr: seq<Sys>, acts: seq<Action>, tr1: seq<Sys>, acts1: seq<Action>, r: nat, k: Key)
    returns (tr': seq<Sys>, acts': seq<Action>)
    requires ReadsOn(c, tr, acts, tr1, acts1, r, k) && |tr1| == |acts1| + 1
    requires !c.exclusive && tr1[|acts1|].worker.Written?
    ensures ReadsOn(c, tr, acts, tr', acts', r, k) && |tr'| == |acts'| + 1 && acts' == acts1 + [Insert] + [Clear]
    ensures var s, s' := tr1[|acts1|], tr'[|acts'|];
            && SameRest(s, s')
            && s'.worker == Publishing(s.worker.batch, s.worker.hints, s.worker.lastActive, 0, ToCache)
            && s'.view.cache == if |s.segs| > |s.base| then map[] else s.view.cache
  {
    hide IsRun, ReadsOn, Between;
    var tr2, acts2 := Go(c, tr, acts, tr1, acts1, r, k, Insert);
    tr', acts' := Go(c, tr, acts, tr2, acts2, r, k, Clear);
  }

  /** It publishes writes, up to write `f`. */
  lemma {:induction false} PublishTo(c: Config, tr: seq<Sys>, acts: seq<Action>, tr1: seq<Sys>, acts1: seq<Action>,
                                     r: nat, k: Key, f: nat)
    returns (tr': seq<Sys>, acts': seq<Action>)
    requires ReadsOn(c, tr, acts, tr1, acts1, r, k) && |tr1| == |acts1| + 1
    requires var w := tr1[|acts1|].worker;
             w.Publishing? && w.stage == ToCache && w.next <= f <= |w.batch| == |w.hints|
    ensures NoInsert(tr1, acts1, tr', acts')
    ensures ReadsOn(c, tr, acts, tr', acts', r, k) && |tr'| == |acts'| + 1
    ensures var s, s' := tr1[|acts1|], tr'[|acts'|]; SameRest(s, s') && s'.worker == s.worker.(next := f)
    decreases f - tr1[|acts1|].worker.next
  {
    hide IsRun, ReadsOn, Enabled, Apply;
    tr', acts' := tr1, acts1;
    if tr1[|acts1|].worker.next < f {
      var s1, s2, s3 := OneWrite(c, tr1[|acts1|]);
      tr', acts' := Go(c, tr, acts, tr', acts', r, k, CachePut);
      tr', acts' := Go(c, tr, acts, tr', acts', r, k, IndexPut);
      tr', acts' := Go(c, tr, acts, tr', acts', r, k, Fulfil);
      tr', acts' := PublishTo(c, tr, acts, tr', acts', r, k, f);
    }
  }

  /** It finishes, takes the queue and writes it. */
  lemma TakeNext(c: Config, tr: seq<Sys>, acts: seq<Action>, tr1: seq<Sys>, acts1: seq<Action>, r: nat, k: Key)
    returns (tr': seq<Sys>, acts': seq<Action>)
    requires ReadsOn(c, tr, acts, tr1, acts1, r, k) && |tr1| == |acts1| + 1
    requires var s := tr1[|acts1|];
             && s.worker.Publishing? && s.worker.stage == ToCache && s.worker.next == |s.worker.batch|
             && TakesQueue(c, s)
    ensures NoInsert(tr1, acts1, tr', acts')
    ensures ReadsOn(c, tr, acts, tr', acts', r, k) && |tr'| == |acts'| + 1
    ensures var s, s' := tr1[|acts1|], tr'[|acts'|];
            && s'.readers == s.readers && s'.base == s.segs && s'.segs == Next(c, s)
            && s'.worker.Written? && s'.worker.batch == s.queue
  {
    hide IsRun, ReadsOn, PlaceAll, Fits, Image, PublicationData, ViewInv;
    var s := tr1[|acts1|];
    tr', acts' := Go(c, tr, acts, tr1, acts1, r, k, Finish);
    tr', acts' := Go(c, tr, acts, tr', acts', r, k, Take);
    var hints, lastActive := WriteFilesDetermined(c, tr'[|acts'|]);
    tr', acts' := Go(c, tr, acts, tr', acts', r, k, WriteFiles(hints, lastActive));
  }

  /** A value that the key neither has at the start nor is given meanwhile is not seen. */
  lemma NotSeen(c: Config, tr: seq<Sys>, acts: seq<Action>, i: nat, j: nat, k: Key, v: Option<Value>)
    requires IsRun(c, tr, acts) && |tr| == |acts| + 1 && i <= j <= |acts|
    requires Point(tr[j]) <= |Flatten(tr[j].segs)| && Lookup(tr[i].view, k) != v
    requires forall y | Point(tr[i]) <= y < Point(tr[j]) && Flatten(tr[j].segs)[y].key == k ::
               Live(Flatten(tr[j].segs)[y].value) != v
    ensures !Seen(tr, i, j, k, v)
  {
    hide Start, Enabled, Apply, Lookup, Flatten, Point, ValueAt, Live;
    if Seen(tr, i, j, k, v) {
      var p := SeenInLog(c, tr, acts, i, j, k, v);
      InstantValue(c, tr, acts, i, j, k);
      var y := ValueBetween(Flatten(tr[j].segs), Point(tr[i]), p, k);
    }
  }

  /** The reader at the cache reads it. */
  lemma ReadCache(c: Config, tr: seq<Sys>, acts: seq<Action>, tr1: seq<Sys>, acts1: seq<Action>, r: nat, k: Key)
    returns (tr': seq<Sys>, acts': seq<Action>)
    requires ReadsOn(c, tr, acts, tr1, acts1, r, k) && |tr1| == |acts1| + 1
    requires r in tr1[|acts1|].readers && tr1[|acts1|].readers[r] == AtCache(k)
    ensures ReadsOn(c, tr, acts, tr', acts', r, k) && |tr'| == |acts'| + 1 && acts' == acts1 + [GetCache(r)]
    ensures var s, s' := tr1[|acts1|], tr'[|acts'|];
            s' == s.(readers := s'.readers)
            && r in s'.readers && s'.readers[r] == Answered(k, CacheAnswer(s.view, k))
  {
    hide IsRun, ReadsOn;
    tr', acts' := Go(c, tr, acts, tr1, acts1, r, k, GetCache(r));
  }

  /** A present key: the read finds the cache cleared. */
  lemma LiveMisses(c: Config, tr: seq<Sys>, acts: seq<Action>, k: Key)
    returns (tr': seq<Sys>, acts': seq<Action>, r: nat)
    requires !c.exclusive && IsRun(c, tr, acts) && |tr| == |acts| + 1
    requires var s := tr[|acts|]; Rotating(s) && k in s.view.cache && Live(s.view.cache[k]) != None
    ensures Continues(c, tr, acts, tr', acts') && Misses(tr', acts', |acts|, |acts'|, r, k)
    ensures acts' == acts + [GetLookup(r, k)] + [GetTest(r)] + [Insert] + [Clear] + [GetCache(r)]
  {
    hide IsRun, ReadsOn, ViewInv, Lookup, Live, Entries, Flatten, Reading;
    var s0 := tr[|acts|];
    RunView(c, tr, acts, |acts|);
    CachedKey(c, s0, k);
    tr', acts', r := BeginCached(c, tr, acts, k);
    tr', acts' := Open(c, tr, acts, tr', acts', r, k);
    tr', acts' := ReadCache(c, tr, acts, tr', acts', r, k);
    ReadsOnRun(c, tr, acts, tr', acts', r, k);
    ReadsOnContinues(c, tr, acts, tr', acts', r, k);
    AtomicGet(c, tr'[|acts'|], k);
    NotSeen(c, tr', acts', |acts|, |acts'|, k, None);
  }

  lemma ReadsOnContinues(c: Config, tr: seq<Sys>, acts: seq<Action>, tr': seq<Sys>, acts': seq<Action>, r: nat, k: Key)
    requires ReadsOn(c, tr, acts, tr', acts', r, k)
    ensures Continues(c, tr, acts, tr', acts')
  {
  }

  /** In the middle of a publication the store reflects the entries published, if no earlier entry of the key is in the
      active file. */
  lemma NotYetPoint(c: Config, s: Sys, k: Key)
    requires ViewInv(c, s) && s.worker.Publishing? && s.worker.stage == ToIndex && s.worker.next < |s.worker.batch|
    requires s.worker.batch[s.worker.next].write.key == k
    requires forall q | 0 <= q < Indexed(s) && Entries(s.segs)[q].write.key == k ::
               Entries(s.segs)[q].hint.fd != |s.segs| - 1
    ensures Point(s) == Indexed(s)
  {
    hide Image, PlaceAll, PublicationData, Index, Cache, Entries, UpTo;
    IndexAt(Entries(s.segs)[..Indexed(s)], k);
  }

  /** The end of a read that sees write `f` of the batch before it is published: `s` is the state after it. */
  lemma EarlyEnd(c: Config, tr: seq<Sys>, acts: seq<Action>, n: nat, s: Sys, r: nat, k: Key, v: Option<Value>)
    requires IsRun(c, tr, acts) && |tr| == |acts| + 1 && n <= |acts| && s == tr[|acts|]
    requires s.worker.Publishing? && s.worker.stage == ToIndex && s.worker.next < |s.worker.batch|
    requires s.worker.batch[s.worker.next].write.key == k && Lookup(tr[n].view, k) != v
    requires Indexed(s) <= |Entries(s.segs)|
    requires forall q | 0 <= q < Indexed(s) && Entries(s.segs)[q].write.key == k ::
               && Entries(s.segs)[q].hint.fd != |s.segs| - 1
               && (Point(tr[n]) <= q ==> Live(Entries(s.segs)[q].write.value) != v)
    ensures !Seen(tr, n, |acts|, k, v)
  {
    hide IsRun, ViewInv, Lookup, Live, Entries, Flatten, Indexed;
    RunView(c, tr, acts, |acts|);
    NotYetPoint(c, s, k);
    AtomicGet(c, s, k);
    WritesOfEntries(s.segs);
    NotSeen(c, tr, acts, n, |acts|, k, v);
  }

  /** The entries before write `f` of a batch that rotated, if no write of the key before it went to the new file. */
  lemma EntriesBefore(c: Config, s: Sys, k: Key, f: nat)
    requires ViewInv(c, s) && InBatch(s) && |s.segs| > |s.base| && f <= |s.worker.batch|
    requires forall u | s.worker.lastActive <= u < f :: s.worker.batch[u].write.key != k
    ensures |Entries(s.base)| + f <= |Entries(s.segs)|
    ensures forall q | 0 <= q < |Entries(s.base)| + f && Entries(s.segs)[q].write.key == k ::
              && Entries(s.segs)[q].hint.fd != |s.segs| - 1
              && (|Entries(s.base)| <= q ==>
                    Entries(s.segs)[q].write == s.worker.batch[q - |Entries(s.base)|].write)
  {
    hide Image, PlaceAll, PublicationData, Index, Cache, Entries, UpTo;
    var es, b := Entries(s.segs), |Entries(s.base)|;
    InFlightPrefix(c, s);
    EntriesOrdered(s.base);
    forall q | 0 <= q < b + f && es[q].write.key == k
      ensures es[q].hint.fd != |s.segs| - 1 && (b <= q ==> es[q].write == s.worker.batch[q - b].write)
    {
      if q < b {
        assert es[q] == Entries(s.base)[q];
      } else {
        BatchEntry(c, s, q - b);
      }
    }
  }

  /** A deleted key that this batch brings back in the new file. */
  lemma EarlyMisreads(c: Config, tr: seq<Sys>, acts: seq<Action>, k: Key, f: nat)
    returns (tr': seq<Sys>, acts': seq<Action>, r: nat)
    requires !c.exclusive && IsRun(c, tr, acts) && |tr| == |acts| + 1
    requires var s := tr[|acts|];
             Rotating(s) && k in s.view.cache && Live(s.view.cache[k]) == None && ShowsEarly(s, k, f)
    ensures Continues(c, tr, acts, tr', acts') && Misreads(tr', acts', |acts|, |acts'|, r, k)
  {
    hide IsRun, ReadsOn, ViewInv, Lookup, Live, Entries, Flatten, Reading, Apply, Enabled, Seen;
    var s0 := tr[|acts|];
    RunView(c, tr, acts, |acts|);
    CachedKey(c, s0, k);
    BatchEntry0(c, s0);
    tr', acts', r := BeginCached(c, tr, acts, k);
    tr', acts' := Open(c, tr, acts, tr', acts', r, k);
    tr', acts' := PublishTo(c, tr, acts, tr', acts', r, k, f);
    tr', acts' := PutCache(c, tr, acts, tr', acts', r, k);
    tr', acts' := ReadCache(c, tr, acts, tr', acts', r, k);
    ReadsOnRun(c, tr, acts, tr', acts', r, k);
    ReadsOnContinues(c, tr, acts, tr', acts', r, k);
    var s := tr'[|acts'|];
    EntriesBefore(c, s, k, f);
    EarlyEnd(c, tr', acts', |acts|, s, r, k, Live(s0.worker.batch[f].write.value));
  }

  lemma BatchEntry0(c: Config, s: Sys)
    requires ViewInv(c, s) && InBatch(s)
    ensures |s.worker.hints| == |s.worker.batch|
  {
    hide Image, PlaceAll, Index, Cache, Entries, UpTo;
  }

  /** The cache put of a write of `k` that goes to the active file. */
  lemma PutCache(c: Config, tr: seq<Sys>, acts: seq<Action>, tr1: seq<Sys>, acts1: seq<Action>, r: nat, k: Key)
    returns (tr': seq<Sys>, acts': seq<Action>)
    requires ReadsOn(c, tr, acts, tr1, acts1, r, k) && |tr1| == |acts1| + 1
    requires var w := tr1[|acts1|].worker;
             w.Publishing? && w.stage == ToCache && w.lastActive <= w.next < |w.batch|
             && w.batch[w.next].write.key == k
    ensures ReadsOn(c, tr, acts, tr', acts', r, k) && |tr'| == |acts'| + 1
    ensures var s, s' := tr1[|acts1|], tr'[|acts'|];
            && SameRest(s, s') && s'.worker == s.worker.(stage := ToIndex)
            && CacheAnswer(s'.view, k) == Live(s.worker.batch[s.worker.next].write.value)
  {
    hide IsRun, ReadsOn, Live;
    tr', acts' := Go(c, tr, acts, tr1, acts1, r, k, CachePut);
  }

  /** The entries before write `f` of the queue, if this batch and the queue before `f` put none of the key in the file
      that is active after the next batch. */
  lemma EntriesBeforeNext(c: Config, s0: Sys, s: Sys, k: Key, f: nat)
    requires ViewInv(c, s0) && ViewInv(c, s) && Rotating(s0) && Absent(s0, k)
    requires InBatch(s) && s.base == s0.segs && s.segs == Next(c, s0) && s.worker.batch == s0.queue && f <= |s0.queue|
    requires forall u | 0 <= u < f && s0.queue[u].write.key == k :: !StaysActive(c, s0, u)
    ensures |Entries(s0.base)| + |s0.worker.batch| == |Entries(s.base)| && |Entries(s.base)| + f <= |Entries(s.segs)|
    ensures forall q | 0 <= q < |Entries(s.base)| + f && Entries(s.segs)[q].write.key == k ::
              && Entries(s.segs)[q].hint.fd != |s.segs| - 1
              && (|Entries(s0.base)| <= q < |Entries(s.base)| ==>
                    Entries(s.segs)[q].write == s0.worker.batch[q - |Entries(s0.base)|].write)
              && (|Entries(s.base)| <= q ==>
                    Entries(s.segs)[q].write == s0.queue[q - |Entries(s.base)|].write)
  {
    hide Image, PlaceAll, PublicationData, Index, Cache, Entries, UpTo;
    var es, b, b' := Entries(s.segs), |Entries(s0.base)|, |Entries(s.base)|;
    InFlightPrefix(c, s0);
    InFlightPrefix(c, s);
    NotInFinal(c, s0, k);
    EntriesOrdered(s.base);
    forall q | 0 <= q < b' + f && es[q].write.key == k
      ensures es[q].hint.fd != |s.segs| - 1
      ensures b <= q < b' ==> es[q].write == s0.worker.batch[q - b].write
      ensures b' <= q ==> es[q].write == s0.queue[q - b'].write
    {
      if q < b' {
        assert es[q] == Entries(s.base)[q];
        if b <= q {
          BatchEntry(c, s0, q - b);
        }
      } else {
        BatchEntry(c, s, q - b');
      }
    }
  }

  /** A deleted key that the next batch brings back. */
  lemma LaterMisreads(c: Config, tr: seq<Sys>, acts: seq<Action>, k: Key, f: nat)
    returns (tr': seq<Sys>, acts': seq<Action>, r: nat)
    requires !c.exclusive && IsRun(c, tr, acts) && |tr| == |acts| + 1
    requires var s := tr[|acts|];
             Rotating(s) && k in s.view.cache && Live(s.view.cache[k]) == None && ShowsLater(c, s, k, f)
    ensures Continues(c, tr, acts, tr', acts') && Misreads(tr', acts', |acts|, |acts'|, r, k)
  {
    hide IsRun, ReadsOn, ViewInv, Lookup, Live, Entries, Flatten, Reading, Apply, Enabled, Seen, Absent, StaysActive,
         Fits, PlaceAll;
    var s0 := tr[|acts|];
    RunView(c, tr, acts, |acts|);
    CachedKey(c, s0, k);
    BatchEntry0(c, s0);
    tr', acts', r := BeginCached(c, tr, acts, k);
    tr', acts' := Open(c, tr, acts, tr', acts', r, k);
    tr', acts' := PublishTo(c, tr, acts, tr', acts', r, k, |s0.worker.batch|);
    tr', acts' := TakeNext(c, tr, acts, tr', acts', r, k);
    ReadsOnRun(c, tr, acts, tr', acts', r, k);
    BatchEntry0(c, tr'[|acts'|]);
    NextActive(c, s0, tr'[|acts'|], f);
    tr', acts' := Open(c, tr, acts, tr', acts', r, k);
    tr', acts' := PublishTo(c, tr, acts, tr', acts', r, k, f);
    tr', acts' := PutCache(c, tr, acts, tr', acts', r, k);
    tr', acts' := ReadCache(c, tr, acts, tr', acts', r, k);
    ReadsOnRun(c, tr, acts, tr', acts', r, k);
    ReadsOnContinues(c, tr, acts, tr', acts', r, k);
    var s := tr'[|acts'|];
    EntriesBeforeNext(c, s0, s, k, f);
    EarlyEnd(c, tr', acts', |acts|, s, r, k, Live(s0.queue[f].write.value));
  }

  lemma NextActive(c: Config, s0: Sys, s: Sys, u: nat)
    requires ViewInv(c, s) && InBatch(s) && s.base == s0.segs && s.segs == Next(c, s0) && s.worker.batch == s0.queue
    requires u < |s0.queue|
    ensures StaysActive(c, s0, u) <==> s.worker.lastActive <= u
  {
    hide Image, PlaceAll, PublicationData, Index, Cache, Entries, UpTo;
    BatchEntry(c, s, u);
  }

  /** An overtaken hint: the read of its old value once the file has been rotated away. */
  lemma StaleMisreads(c: Config, tr: seq<Sys>, acts: seq<Action>, k: Key)
    returns (tr': seq<Sys>, acts': seq<Action>, r: nat)
    requires !c.exclusive && IsRun(c, tr, acts) && |tr| == |acts| + 1 && Stale(c, tr[|acts|], k)
    ensures Continues(c, tr, acts, tr', acts') && Misreads(tr', acts', |acts|, |acts'|, r, k)
    ensures forall m | |acts| <= m < |acts'| && acts'[m] == Insert ::
              var s0, s := tr[|acts|], tr'[m];
              s.worker.Written? && s.worker.batch == s0.queue && s.base == s0.segs && s.segs == Next(c, s0)
  {
    hide IsRun, ReadsOn, ViewInv, Lookup, Live, Entries, Flatten, Reading, Seen, Fits, PlaceAll, StableValue, Apply,
         Enabled;
    var s0, h := tr[|acts|], tr[|acts|].view.index[k];
    RunView(c, tr, acts, |acts|);
    BatchEntry0(c, s0);
    tr', acts', r := Begin(c, tr, acts, k);
    tr', acts' := EndWrite(c, tr, acts, tr', acts', r, k);
    tr', acts' := PublishTo(c, tr, acts, tr', acts', r, k, |s0.worker.batch|);
    tr', acts' := TakeNext(c, tr, acts, tr', acts', r, k);
    tr', acts' := ReadTable(c, tr, acts, tr', acts', r, k, h, s0);
    ReadsOnRun(c, tr, acts, tr', acts', r, k);
    ReadsOnContinues(c, tr, acts, tr', acts', r, k);
    SameBytes(c, tr', acts', |acts|, |acts|, |acts'|, k);
    StaleNotSeen(c, tr', acts', |acts|, k);
  }

  /** The index put and the promise of the write whose cache put is done. */
  lemma EndWrite(c: Config, tr: seq<Sys>, acts: seq<Action>, tr1: seq<Sys>, acts1: seq<Action>, r: nat, k: Key)
    returns (tr': seq<Sys>, acts': seq<Action>)
    requires ReadsOn(c, tr, acts, tr1, acts1, r, k) && |tr1| == |acts1| + 1
    requires var w := tr1[|acts1|].worker; w.Publishing? && w.stage == ToIndex && w.next < |w.batch| == |w.hints|
    ensures NoInsert(tr1, acts1, tr', acts')
    ensures ReadsOn(c, tr, acts, tr', acts', r, k) && |tr'| == |acts'| + 1
    ensures var s, s' := tr1[|acts1|], tr'[|acts'|];
            SameRest(s, s') && s'.worker == s.worker.(next := s.worker.next + 1, stage := ToCache)
  {
    hide IsRun, ReadsOn;
    tr', acts' := Go(c, tr, acts, tr1, acts1, r, k, IndexPut);
    tr', acts' := Go(c, tr, acts, tr', acts', r, k, Fulfil);
  }

  /** The insertion of the next batch, which rotated, and the rest of the read through the old hint. */
  lemma ReadTable(c: Config, tr: seq<Sys>, acts: seq<Action>, tr1: seq<Sys>, acts1: seq<Action>, r: nat, k: Key,
                  h: Hint, s0: Sys)
    returns (tr': seq<Sys>, acts': seq<Action>)
    requires ReadsOn(c, tr, acts, tr1, acts1, r, k) && |tr1| == |acts1| + 1 && !c.exclusive
    requires ViewInv(c, s0) && s0.worker.Publishing? && h.fd == |s0.view.stable|
    requires var s := tr1[|acts1|];
             && Rotating(s) && s.base == s0.segs && r in s.readers && s.readers[r] == Located(k, h)
    ensures ReadsOn(c, tr, acts, tr', acts', r, k) && |tr'| == |acts'| + 1
    ensures var s, s' := tr1[|acts1|], tr'[|acts'|];
            && s'.segs == s.segs && s'.base == s.base && s'.worker.Inserted?
            && r in s'.readers && s'.readers[r] == Answered(k, Live(StableValue(s'.view.files, h)))
    ensures tr1 <= tr' && acts' == acts1 + [Insert] + [GetTest(r)] + [GetStable(r)]
  {
    hide IsRun, ReadsOn, Between, StableValue, Live, ViewInv;
    tr', acts' := Go(c, tr, acts, tr1, acts1, r, k, Insert);
    ReadsOnRun(c, tr, acts, tr', acts', r, k);
    TableSize(c, s0);
    TableSize(c, tr'[|acts'|]);
    TableIds(c, tr'[|acts'|]);
    tr', acts' := Go(c, tr, acts, tr', acts', r, k, GetTest(r));
    tr', acts' := Go(c, tr, acts, tr', acts', r, k, GetStable(r));
  }

  lemma StaleNotSeen(c: Config, tr: seq<Sys>, acts: seq<Action>, n: nat, k: Key)
    requires IsRun(c, tr, acts) && |tr| == |acts| + 1 && n <= |acts| && Stale(c, tr[n], k)
    requires tr[|acts|].worker.Inserted? && tr[|acts|].base == tr[n].segs
    ensures !Seen(tr, n, |acts|, k, Live(StableValue(tr[n].view.files, tr[n].view.index[k])))
  {
    hide IsRun, ViewInv, Lookup, Live, Entries, Flatten, Seen, StableValue, TakesQueue, Next;
    var s0, s := tr[n], tr[|acts|];
    var b, f := |Entries(s0.base)|, s0.worker.next;
    var v := Live(StableValue(s0.view.files, s0.view.index[k]));
    RunView(c, tr, acts, n);
    RunView(c, tr, acts, |acts|);
    AtomicGet(c, s, k);
    LagPoint(c, s0, k);
    BatchInLog(c, tr, acts, n, |acts|, f);
    InstantValue(c, tr, acts, n, |acts|, k);
    ValueWritten(Flatten(s.segs), b + f);
    forall y | b + f < y < |Entries(s.base)| && Flatten(s.segs)[y].key == k
      ensures Live(Flatten(s.segs)[y].value) != v
    {
      BatchInLog(c, tr, acts, n, |acts|, y - b);
    }
    NotSeen(c, tr, acts, n, |acts|, k, v);
  }

  /** Every dangerous state is one: some read of the key that begins in it goes wrong. */
  lemma DangerMisreads(c: Config, tr: seq<Sys>, acts: seq<Action>, k: Key)
    returns (tr': seq<Sys>, acts': seq<Action>, r: nat)
    requires !c.exclusive && IsRun(c, tr, acts) && |tr| == |acts| + 1 && Dangerous(c, tr[|acts|], k)
    ensures Continues(c, tr, acts, tr', acts') && Misreads(tr', acts', |acts|, |acts'|, r, k)
  {
    hide IsRun, Stale, ShowsEarly, ShowsLater, Live, Reading, Lookup;
    var s := tr[|acts|];
    if Stale(c, s, k) {
      tr', acts', r := StaleMisreads(c, tr, acts, k);
    } else if Live(s.view.cache[k]) != None {
      tr', acts', r := LiveMisses(c, tr, acts, k);
    } else if f :| ShowsEarly(s, k, f) {
      tr', acts', r := EarlyMisreads(c, tr, acts, k, f);
    } else {
      var f :| ShowsLater(c, s, k, f);
      tr', acts', r := LaterMisreads(c, tr, acts, k, f);
    }
  }

  // ---------------------------------------------------------------- the exact conditions

  /** Some continuation contains a read that goes wrong. */
  ghost predicate CanMisread(c: Config, tr: seq<Sys>, acts: seq<Action>)
  {
    exists tr', acts', i, j, r, k ::
      Continues(c, tr, acts, tr', acts') && |acts| <= i && Misreads(tr', acts', i, j, r, k)
  }

  /** Some continuation reaches a dangerous state. */
  ghost predicate CanReachDanger(c: Config, tr: seq<Sys>, acts: seq<Action>)
  {
    exists tr', acts', m, k ::
      Continues(c, tr, acts, tr', acts') && |acts| <= m <= |acts'| && Dangerous(c, tr'[m], k)
  }

  /** The exact condition on the lock mode as written, over whole runs with any number of batches and readers: a read
      can go wrong if and only if a dangerous state can be reached. */
  lemma SharedInsertExact(c: Config, tr: seq<Sys>, acts: seq<Action>)
    requires !c.exclusive && IsRun(c, tr, acts)
    ensures CanMisread(c, tr, acts) <==> CanReachDanger(c, tr, acts)
  {
    hide IsRun, Misreads, Dangerous;
    if CanMisread(c, tr, acts) {
      var tr', acts', i, j, r, k :|
        Continues(c, tr, acts, tr', acts') && |acts| <= i && Misreads(tr', acts', i, j, r, k);
      var p := MisreadNeedsDanger(c, tr', acts', i, j, r, k);
    }
    if CanReachDanger(c, tr, acts) {
      var tr1, acts1, m, k :|
        Continues(c, tr, acts, tr1, acts1) && |acts| <= m <= |acts1| && Dangerous(c, tr1[m], k);
      RunPrefix(c, tr1, acts1, m);
      var tr', acts', r := DangerMisreads(c, tr1[..m + 1], acts1[..m], k);
      assert Continues(c, tr, acts, tr', acts');
    }
  }

  lemma RunPrefix(c: Config, tr: seq<Sys>, acts: seq<Action>, m: nat)
    requires IsRun(c, tr, acts) && m <= |acts|
    ensures IsRun(c, tr[..m + 1], acts[..m])
  {
    hide Enabled, Apply, Start;
  }

  // ---------------------------------------------------------------- reads that miss a key

  /** The first insertion after a rotation, or `j` if there is none. */
  lemma {:induction false} FirstRotation(c: Config, tr: seq<Sys>, acts: seq<Action>, i: nat, j: nat) returns (p: nat)
    requires IsRun(c, tr, acts) && i <= j <= |acts|
    ensures i <= p <= j && TableFixed(tr, i, p)
    ensures p < j ==> acts[p] == Insert && Rotating(tr[p])
    ensures forall m | i <= m < p :: !(acts[m] == Insert && Rotating(tr[m]))
  {
    hide Enabled, Apply, Start, ViewInv;
    p := i;
    if i < j {
      p := FirstRotation(c, tr, acts, i, j - 1);
      if p == j - 1 && !(acts[p] == Insert && Rotating(tr[p])) {
        assert Enabled(c, tr[p], acts[p]) && tr[p + 1] == Apply(c, tr[p], acts[p]);
        RunView(c, tr, acts, p);
        TableUnchanged(c, tr[p], acts[p]);
        p := j;
      }
    }
  }

  lemma TableUnchanged(c: Config, s: Sys, a: Action)
    requires ViewInv(c, s) && Enabled(c, s, a) && !(a == Insert && Rotating(s))
    ensures Apply(c, s, a).view.stable == s.view.stable
  {
    hide Image, PlaceAll, PublicationData, Index, Cache, Entries, UpTo;
    if a.Insert? {
      InFlightPrefix(c, s);
      assert Between(|s.base| - 1, |s.segs| - 1) == {};
    }
  }

  /** Until the table changes a key stays in the cache. */
  lemma {:induction false} InCacheUntil(c: Config, tr: seq<Sys>, acts: seq<Action>, i: nat, p: nat, k: Key)
    requires IsRun(c, tr, acts) && i <= p <= |acts| && ReadsCache(tr[i], k)
    requires forall m | i <= m < p :: !(acts[m] == Insert && Rotating(tr[m]))
    ensures ReadsCache(tr[p], k)
  {
    hide Enabled, Apply, Start, ViewInv, ReadsCache, Rotating;
    if i < p {
      InCacheUntil(c, tr, acts, i, p - 1, k);
      assert Enabled(c, tr[p - 1], acts[p - 1]) && tr[p - 1 + 1] == Apply(c, tr[p - 1], acts[p - 1]);
      RunView(c, tr, acts, p - 1);
      StaysInCache(c, tr[p - 1], acts[p - 1], k);
    }
  }

  /** Whole runs: every read that misses a key that is present all the while runs across an insertion after a
      rotation, with the key present in the cache. */
  lemma MissNeedsLive(c: Config, tr: seq<Sys>, acts: seq<Action>, i: nat, j: nat, r: nat, k: Key) returns (p: nat)
    requires IsRun(c, tr, acts) && |tr| == |acts| + 1 && Misses(tr, acts, i, j, r, k)
    ensures i <= p < j <= |acts| && acts[p] == Insert && Rotating(tr[p])
    ensures k in tr[p].view.cache && Live(tr[p].view.cache[k]) != None
  {
    hide IsRun, ViewInv, Lookup, Tracked;
    p := FirstRotation(c, tr, acts, i, j);
    if p == j {
      ReaderTracked(c, tr, acts, i, j, r, k);
      assert false;
    }
    assert Lookup(tr[i].view, k) != None;
    PresentKey(tr[i], k);
    if !ReadsCache(tr[i], k) {
      StableKeysAreSafe(c, tr, acts, i, j, r, k);
      assert false;
    }
    InCacheUntil(c, tr, acts, i, p, k);
    RunView(c, tr, acts, p);
    CachedKey(c, tr[p], k);
    assert Lookup(tr[p].view, k) != None;
  }

  lemma PresentKey(s: Sys, k: Key)
    requires Lookup(s.view, k) != None
    ensures k in s.view.index
  {
  }

  ghost predicate HoldsLiveKey(cache: map<Key, Value>)
  {
    exists k :: k in cache && Live(cache[k]) != None
  }

  /** Some continuation that publishes the batch in flight and takes no other contains a read that misses a present
      key. */
  ghost predicate CanMiss(c: Config, tr: seq<Sys>, acts: seq<Action>)
  {
    exists tr', acts', i, j, r, k ::
      && Continues(c, tr, acts, tr', acts') && |acts| <= i && Misses(tr', acts', i, j, r, k)
      && forall m | |acts| <= m < |acts'| :: acts'[m] != Take
  }

  /** Before its insertion, `s` is as it was in `s0`; a batch that is taken comes later. */
  ghost predicate Waits(s0: Sys, s: Sys)
  {
    && !s.worker.Taken?
    && (s.worker.Written? ==> s.segs == s0.segs && s.base == s0.base && s.view.cache == s0.view.cache)
  }

  lemma WaitsStep(c: Config, s0: Sys, s: Sys, a: Action)
    requires Waits(s0, s) && Enabled(c, s, a) && a != Take
    ensures Waits(s0, Apply(c, s, a))
  {
    hide Image, PlaceAll, PublicationData, Entries, Between, Fits;
  }

  lemma {:induction false} WaitsRun(c: Config, tr: seq<Sys>, acts: seq<Action>, n: nat, m: nat)
    requires IsRun(c, tr, acts) && n <= m <= |acts| && tr[n].worker.Written?
    requires forall q | n <= q < m :: acts[q] != Take
    ensures Waits(tr[n], tr[m])
  {
    hide Start, Enabled, Apply;
    if n < m {
      WaitsRun(c, tr, acts, n, m - 1);
      assert Enabled(c, tr[m - 1], acts[m - 1]) && tr[m - 1 + 1] == Apply(c, tr[m - 1], acts[m - 1]);
      WaitsStep(c, tr[n], tr[m - 1], acts[m - 1]);
    }
  }

  lemma MissInBatch(c: Config, tr: seq<Sys>, acts: seq<Action>)
    requires IsRun(c, tr, acts) && |tr| == |acts| + 1 && tr[|acts|].worker.Written? && CanMiss(c, tr, acts)
    ensures Rotating(tr[|acts|]) && HoldsLiveKey(tr[|acts|].view.cache)
  {
    hide IsRun, Misses, Live;
    var tr', acts', i, j, r, k :|
      && Continues(c, tr, acts, tr', acts') && |acts| <= i && Misses(tr', acts', i, j, r, k)
      && forall m | |acts| <= m < |acts'| :: acts'[m] != Take;
    var p := MissNeedsLive(c, tr', acts', i, j, r, k);
    WaitsRun(c, tr', acts', |acts|, p);
  }

  /** One way to go wrong, for the publication of one batch: a read can miss a key that is present all the while if and
      only if the batch rotates and the cache holds a present key. */
  lemma SharedMissExact(c: Config, tr: seq<Sys>, acts: seq<Action>)
    requires !c.exclusive && IsRun(c, tr, acts) && tr[|acts|].worker.Written?
    ensures var s := tr[|acts|];
            CanMiss(c, tr, acts) <==> |s.segs| > |s.base| && HoldsLiveKey(s.view.cache)
  {
    hide IsRun, Misses, Live;
    RunLength(c, tr, acts);
    var s := tr[|acts|];
    if CanMiss(c, tr, acts) {
      MissInBatch(c, tr, acts);
    }
    if |s.segs| > |s.base| && HoldsLiveKey(s.view.cache) {
      var k :| k in s.view.cache && Live(s.view.cache[k]) != None;
      var tr', acts', r := LiveMisses(c, tr, acts, k);
      assert Misses(tr', acts', |acts|, |acts'|, r, k);
    }
  }
}
