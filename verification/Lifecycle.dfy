/**
 What callers, shutdown and readers do to the running system: what a call enqueues and what is read after
 it, when the worker exits, and that worker and readers always get to their end.
 */
module Lifecycle {
  import opened Codec
  import opened Layout
  import opened Commits
  import opened Concurrent
  import opened Linearizability
  import opened Pipeline

  // ---------------------------------------------------------------- what is enqueued

  /** The writes that the calls of a run ask for. */
  function Asked(acts: seq<Action>): (ws: seq<Write>)
  {
    if acts == [] then [] else
    Asked(acts[..|acts| - 1]) +
    match acts[|acts| - 1]
    case Submit(w) => [w]
    case SubmitDelete(k) => [Write(k, TOMBSTONE)]
    case _ => []
  }

  lemma SubmittedStep(c: Config, s: Sys, a: Action)
    requires Enabled(c, s, a)
    ensures Apply(c, s, a).submitted == s.submitted + Asked([a])
  {
    hide Image, PlaceAll, PublicationData, Entries, Between, Fits;
    assert [a][..0] == [];
    assert Asked([]) == [];
  }

  /** What is submitted is what was asked for, in order; a deletion asks for the tombstone. */
  lemma {:induction false} SubmittedIsAsked(c: Config, tr: seq<Sys>, acts: seq<Action>, i: nat)
    requires IsRun(c, tr, acts) && i <= |acts|
    ensures tr[i].submitted == Asked(acts[..i])
  {
    hide Enabled, Apply;
    if i > 0 {
      SubmittedIsAsked(c, tr, acts, i - 1);
      var s, a := tr[i - 1], acts[i - 1];
      assert Enabled(c, s, a) && tr[i - 1 + 1] == Apply(c, s, a);
      SubmittedStep(c, s, a);
      AskedSnoc(acts, i - 1);
    }
  }

  lemma AskedSnoc(acts: seq<Action>, i: nat)
    requires i < |acts|
    ensures Asked(acts[..i + 1]) == Asked(acts[..i]) + Asked([acts[i]])
  {
    assert acts[..i + 1][..i] == acts[..i];
    assert [acts[i]][..0] == [];
    assert Asked([]) == [];
  }

  lemma {:induction false} SubmittedGrows(c: Config, tr: seq<Sys>, acts: seq<Action>, i: nat, j: nat)
    requires IsRun(c, tr, acts) && i <= j <= |acts|
    ensures tr[i].submitted <= tr[j].submitted
  {
    hide Enabled, Apply, Start;
    if i < j {
      SubmittedGrows(c, tr, acts, i, j - 1);
      assert Enabled(c, tr[j - 1], acts[j - 1]) && tr[j - 1 + 1] == Apply(c, tr[j - 1], acts[j - 1]);
      SubmittedStep(c, tr[j - 1], acts[j - 1]);
    }
  }

  /** The call with action `a` is the `t`-th submission, and no later submission names its key. */
  ghost predicate LastOfKey(tr: seq<Sys>, a: nat, t: nat, j: nat, k: Key)
    requires a <= j < |tr|
  {
    && t == |tr[a].submitted|
    && forall u | t < u < |tr[j].submitted| :: tr[j].submitted[u].key != k
  }

  lemma CallSubmits(c: Config, tr: seq<Sys>, acts: seq<Action>, a: nat, j: nat)
    requires IsRun(c, tr, acts) && a < j <= |acts| && (acts[a].Submit? || acts[a].SubmitDelete?)
    ensures var t := |tr[a].submitted|;
            && t < |tr[j].submitted|
            && tr[j].submitted[t] == if acts[a].Submit? then acts[a].w else Write(acts[a].k, TOMBSTONE)
  {
    hide Enabled, Apply, Start;
    assert Enabled(c, tr[a], acts[a]) && tr[a + 1] == Apply(c, tr[a], acts[a]);
    SubmittedStep(c, tr[a], acts[a]);
    SubmittedGrows(c, tr, acts, a + 1, j);
    assert [acts[a]][..0] == [];
    assert Asked([]) == [];
  }

  /** After a deletion: once its promise is set, and until the key is submitted again, every `Get` answers none. */
  lemma DeletedReadsNone(c: Config, tr: seq<Sys>, acts: seq<Action>, a: nat, t: nat, i: nat, j: nat, r: nat, k: Key)
    requires c.exclusive && IsRun(c, tr, acts) && |tr| == |acts| + 1 && a < j && Reading(tr, acts, i, j, r, k)
    requires r in tr[j].readers && tr[j].readers[r].Answered?
    requires acts[a] == SubmitDelete(k) && t in tr[i].fulfilled && LastOfKey(tr, a, t, j, k)
    ensures tr[j].readers[r].result == None
  {
    hide IsRun;
    CallSubmits(c, tr, acts, a, j);
    var u := ReadYourWrites(c, tr, acts, t, i, j, r, k);
  }

  /** After a write, likewise, it answers the value written; writing the tombstone is deleting. */
  lemma WrittenReadsValue(c: Config, tr: seq<Sys>, acts: seq<Action>, a: nat, t: nat, i: nat, j: nat, r: nat, w: Write)
    requires c.exclusive && IsRun(c, tr, acts) && |tr| == |acts| + 1 && a < j && Reading(tr, acts, i, j, r, w.key)
    requires r in tr[j].readers && tr[j].readers[r].Answered?
    requires acts[a] == Submit(w) && t in tr[i].fulfilled && LastOfKey(tr, a, t, j, w.key)
    ensures tr[j].readers[r].result == if w.value == TOMBSTONE then None else Some(w.value)
  {
    hide IsRun;
    CallSubmits(c, tr, acts, a, j);
    var u := ReadYourWrites(c, tr, acts, t, i, j, r, w.key);
  }

  // ---------------------------------------------------------------- shutdown

  lemma RunningStep(c: Config, s: Sys, a: Action)
    requires Enabled(c, s, a)
    ensures Apply(c, s, a).running <==> s.running && a != Shutdown
  {
    hide Image, PlaceAll, PublicationData, Entries, Between, Fits;
  }

  /** The system runs until it is shut down. */
  lemma {:induction false} RunningIs(c: Config, tr: seq<Sys>, acts: seq<Action>, i: nat)
    requires IsRun(c, tr, acts) && i <= |acts|
    ensures tr[i].running <==> forall m | 0 <= m < i :: acts[m] != Shutdown
  {
    hide Enabled, Apply;
    if i > 0 {
      RunningIs(c, tr, acts, i - 1);
      assert Enabled(c, tr[i - 1], acts[i - 1]) && tr[i - 1 + 1] == Apply(c, tr[i - 1], acts[i - 1]);
      RunningStep(c, tr[i - 1], acts[i - 1]);
    }
  }

  lemma FinishEnds(c: Config, s: Sys)
    requires Enabled(c, s, Finish)
    ensures Apply(c, s, Finish).worker.Exited? <==> !s.running
    ensures Apply(c, s, Finish).worker.Idle? <==> s.running
  {
  }

  /** At the end of a pass the worker exits if and only if there has been a shutdown; otherwise it goes on. */
  lemma ExitExact(c: Config, tr: seq<Sys>, acts: seq<Action>, f: nat)
    requires IsRun(c, tr, acts) && f < |acts| && acts[f] == Finish
    ensures tr[f + 1].worker.Exited? <==> exists m :: 0 <= m < f && acts[m] == Shutdown
    ensures !tr[f + 1].worker.Exited? <==> tr[f + 1].worker.Idle?
  {
    hide Enabled, Apply, Start;
    assert Enabled(c, tr[f], acts[f]) && tr[f + 1] == Apply(c, tr[f], acts[f]);
    RunningIs(c, tr, acts, f);
    FinishEnds(c, tr[f]);
  }

  lemma ExitedStep(c: Config, s: Sys, a: Action)
    requires Enabled(c, s, a)
    ensures s.worker.Exited? ==> Apply(c, s, a) == s.(readers := Apply(c, s, a).readers, queue := Apply(c, s, a).queue,
                                                      submitted := Apply(c, s, a).submitted,
                                                      running := Apply(c, s, a).running)
    ensures !s.worker.Exited? && Apply(c, s, a).worker.Exited? ==> a == Finish
  {
    hide Image, PlaceAll, PublicationData, Entries, Between, Fits;
  }

  /** The worker exits only at the end of a pass, and then nothing is committed or published any more. */
  lemma {:induction false} ExitIsFinal(c: Config, tr: seq<Sys>, acts: seq<Action>, i: nat, j: nat)
    requires IsRun(c, tr, acts) && i <= j <= |acts| && tr[i].worker.Exited?
    ensures tr[j].worker.Exited? && tr[j].view == tr[i].view && tr[j].segs == tr[i].segs
    ensures tr[j].fulfilled == tr[i].fulfilled
  {
    hide Enabled, Apply, Start;
    if i < j {
      ExitIsFinal(c, tr, acts, i, j - 1);
      assert Enabled(c, tr[j - 1], acts[j - 1]) && tr[j - 1 + 1] == Apply(c, tr[j - 1], acts[j - 1]);
      ExitedStep(c, tr[j - 1], acts[j - 1]);
    }
  }

  // ---------------------------------------------------------------- the life of a reader

  lemma GoneStep(c: Config, s: Sys, a: Action, r: nat)
    requires Enabled(c, s, a)
    ensures a == GetReturn(r) ==> r !in Apply(c, s, a).readers
    ensures r !in s.readers && !(a.GetLookup? && a.r == r) ==> r !in Apply(c, s, a).readers
    ensures a.GetLookup? && a.r == r ==> r !in s.readers && r in Apply(c, s, a).readers
  {
    hide Image, PlaceAll, PublicationData, Entries, Between, Fits;
  }

  /** A reader that has returned holds the lock no more, until it begins another read. */
  lemma {:induction false} ReturnedIsGone(c: Config, tr: seq<Sys>, acts: seq<Action>, g: nat, m: nat, r: nat)
    requires IsRun(c, tr, acts) && g < m <= |acts| && acts[g] == GetReturn(r)
    requires forall q | g < q < m :: !(acts[q].GetLookup? && acts[q].r == r)
    ensures r !in tr[m].readers
  {
    hide Enabled, Apply, Start;
    if m > g + 1 {
      ReturnedIsGone(c, tr, acts, g, m - 1, r);
    }
    assert Enabled(c, tr[m - 1], acts[m - 1]) && tr[m - 1 + 1] == Apply(c, tr[m - 1], acts[m - 1]);
    GoneStep(c, tr[m - 1], acts[m - 1], r);
  }

  /** A run goes on with steps of its own readers, or of the worker. */
  ghost predicate GoesOn(c: Config, tr: seq<Sys>, acts: seq<Action>, tr': seq<Sys>, acts': seq<Action>)
  {
    && IsRun(c, tr', acts') && |tr'| == |acts'| + 1 && |tr| == |acts| + 1 && tr <= tr' && acts <= acts'
    && forall m | |acts| <= m < |acts'| ::
         acts'[m] != Shutdown && !acts'[m].Submit? && !acts'[m].SubmitDelete? && !acts'[m].GetLookup?
  }

  lemma GoOn(c: Config, tr: seq<Sys>, acts: seq<Action>, tr1: seq<Sys>, acts1: seq<Action>, a: Action)
    returns (tr': seq<Sys>, acts': seq<Action>)
    requires GoesOn(c, tr, acts, tr1, acts1) && Enabled(c, tr1[|acts1|], a)
    requires a != Shutdown && !a.Submit? && !a.SubmitDelete? && !a.GetLookup?
    ensures GoesOn(c, tr, acts, tr', acts') && |tr'| == |acts'| + 1 && |acts'| == |acts1| + 1
    ensures tr'[|acts'|] == Apply(c, tr1[|acts1|], a)
  {
    hide IsRun, Enabled, Apply;
    tr', acts' := RunExtend(c, tr1, acts1, a);
  }

  lemma StaysPut(c: Config, tr: seq<Sys>, acts: seq<Action>)
    requires IsRun(c, tr, acts)
    ensures GoesOn(c, tr, acts, tr, acts)
  {
    hide Enabled, Apply, Start;
  }

  /** How many steps a reader has before it. */
  function StepsLeft(g: Reader): (n: nat)
  {
    match g
    case Located(_, _) => 3
    case AtCache(_) => 2
    case AtTable(_, _) => 2
    case Answered(_, _) => 1
  }

  /** The next step of a reader is always possible, brings it nearer to its end, and touches nothing else. */
  lemma ReaderStep(c: Config, s: Sys, r: nat) returns (a: Action)
    requires r in s.readers
    ensures a in [GetTest(r), GetCache(r), GetStable(r), GetReturn(r)] && Enabled(c, s, a)
    ensures var s' := Apply(c, s, a);
            && s' == s.(readers := s'.readers) && s'.readers - {r} == s.readers - {r}
            && (r in s'.readers <==> StepsLeft(s.readers[r]) > 1)
            && (r in s'.readers ==> StepsLeft(s'.readers[r]) == StepsLeft(s.readers[r]) - 1)
  {
    hide Image, PlaceAll, PublicationData, Between, StableValue, Live;
    match s.readers[r]
    case Located(_, _) => a := GetTest(r);
    case AtCache(_) => a := GetCache(r);
    case AtTable(_, _) => a := GetStable(r);
    case Answered(_, _) => a := GetReturn(r);
  }

  /** Every reader in flight gets to its end in at most three steps of its own, which touch nothing else. */
  lemma {:induction false} ReaderReturns(c: Config, tr: seq<Sys>, acts: seq<Action>,
                                         tr1: seq<Sys>, acts1: seq<Action>, r: nat)
    returns (tr': seq<Sys>, acts': seq<Action>)
    requires GoesOn(c, tr, acts, tr1, acts1) && |tr1| == |acts1| + 1 && r in tr1[|acts1|].readers
    ensures GoesOn(c, tr, acts, tr', acts') && |tr'| == |acts'| + 1 && |acts'| <= |acts1| + 3
    ensures var s := tr1[|acts1|]; tr'[|acts'|] == s.(readers := s.readers - {r})
    ensures |acts'| == |acts1| + StepsLeft(tr1[|acts1|].readers[r])
    decreases StepsLeft(tr1[|acts1|].readers[r])
  {
    hide IsRun, GoesOn, Enabled, Apply;
    var a := ReaderStep(c, tr1[|acts1|], r);
    tr', acts' := GoOn(c, tr, acts, tr1, acts1, a);
    if r in tr'[|acts'|].readers {
      tr', acts' := ReaderReturns(c, tr, acts, tr', acts', r);
    } else {
      assert tr'[|acts'|].readers == tr'[|acts'|].readers - {r};
    }
  }

  /** So all readers can return, and callers get the lock. */
  lemma {:induction false} ReadersReturn(c: Config, tr: seq<Sys>, acts: seq<Action>,
                                         tr1: seq<Sys>, acts1: seq<Action>)
    returns (tr': seq<Sys>, acts': seq<Action>)
    requires GoesOn(c, tr, acts, tr1, acts1) && |tr1| == |acts1| + 1
    ensures GoesOn(c, tr, acts, tr', acts') && |tr'| == |acts'| + 1
    ensures tr'[|acts'|] == tr1[|acts1|].(readers := map[])
    decreases |tr1[|acts1|].readers|
  {
    hide IsRun, GoesOn;
    tr', acts' := tr1, acts1;
    var readers := tr1[|acts1|].readers;
    if r :| r in readers {
      tr', acts' := ReaderReturns(c, tr, acts, tr1, acts1, r);
      SmallerMap(readers, r);
      tr', acts' := ReadersReturn(c, tr, acts, tr', acts');
    } else {
      assert readers == map[];
    }
  }

  lemma SmallerMap(m: map<nat, Reader>, r: nat)
    requires r in m
    ensures |m - {r}| < |m|
  {
    assert (m - {r}).Keys == m.Keys - {r};
    assert |(m - {r}).Keys| == |m.Keys| - 1;
  }

  // ---------------------------------------------------------------- the end of a pass

  /** The worker publishes one write. */
  lemma OneWrite(c: Config, s: Sys) returns (s1: Sys, s2: Sys, s3: Sys)
    requires s.worker.Publishing? && s.worker.stage == ToCache && s.worker.next < |s.worker.batch| == |s.worker.hints|
    ensures Enabled(c, s, CachePut) && s1 == Apply(c, s, CachePut)
    ensures Enabled(c, s1, IndexPut) && s2 == Apply(c, s1, IndexPut)
    ensures Enabled(c, s2, Fulfil) && s3 == Apply(c, s2, Fulfil)
    ensures Ahead(s, s3) && s3.worker == s.worker.(next := s.worker.next + 1)
    ensures s1.worker == s.worker.(stage := ToIndex) && s2.worker == s.worker.(stage := ToFulfil)
  {
    s1 := Apply(c, s, CachePut);
    s2 := Apply(c, s1, IndexPut);
    s3 := Apply(c, s2, Fulfil);
  }

  /** The worker got on with its batch. */
  ghost predicate Ahead(s: Sys, s': Sys)
  {
    && s'.readers == s.readers && s'.segs == s.segs && s'.base == s.base && s'.queue == s.queue
    && s'.running == s.running && s'.done == s.done && s'.submitted == s.submitted
  }

  lemma {:induction false} PublishesAll(c: Config, tr: seq<Sys>, acts: seq<Action>, tr1: seq<Sys>, acts1: seq<Action>)
    returns (tr': seq<Sys>, acts': seq<Action>)
    requires GoesOn(c, tr, acts, tr1, acts1) && |tr1| == |acts1| + 1
    requires var w := tr1[|acts1|].worker;
             w.Publishing? && w.stage == ToCache && w.next <= |w.batch| == |w.hints|
    ensures GoesOn(c, tr, acts, tr', acts') && |tr'| == |acts'| + 1
    ensures var s, s' := tr1[|acts1|], tr'[|acts'|]; Ahead(s, s') && s'.worker == s.worker.(next := |s.worker.batch|)
    decreases |tr1[|acts1|].worker.batch| - tr1[|acts1|].worker.next
  {
    hide IsRun, GoesOn, Enabled, Apply;
    tr', acts' := tr1, acts1;
    if tr1[|acts1|].worker.next < |tr1[|acts1|].worker.batch| {
      var s1, s2, s3 := OneWrite(c, tr1[|acts1|]);
      tr', acts' := GoOn(c, tr, acts, tr', acts', CachePut);
      tr', acts' := GoOn(c, tr, acts, tr', acts', IndexPut);
      tr', acts' := GoOn(c, tr, acts, tr', acts', Fulfil);
      tr', acts' := PublishesAll(c, tr, acts, tr', acts');
    }
  }

  /** To the next boundary between two writes, or to the first. */
  lemma ToBoundary(c: Config, tr: seq<Sys>, acts: seq<Action>, tr1: seq<Sys>, acts1: seq<Action>)
    returns (tr': seq<Sys>, acts': seq<Action>)
    requires GoesOn(c, tr, acts, tr1, acts1) && |tr1| == |acts1| + 1
    requires var s := tr1[|acts1|];
             && s.readers == map[] && (s.worker.Written? || s.worker.Inserted? || s.worker.Publishing?)
             && |s.worker.hints| == |s.worker.batch|
             && (s.worker.Publishing? ==> s.worker.next <= |s.worker.batch|
                                          && (s.worker.stage != ToCache ==> s.worker.next < |s.worker.batch|))
    ensures GoesOn(c, tr, acts, tr', acts') && |tr'| == |acts'| + 1
    ensures var s, s' := tr1[|acts1|], tr'[|acts'|];
            && Ahead(s, s') && s'.worker.Publishing? && s'.worker.stage == ToCache && s'.worker.batch == s.worker.batch
            && s'.worker.next <= |s'.worker.batch| == |s'.worker.hints|
  {
    hide IsRun, GoesOn, Between;
    tr', acts' := tr1, acts1;
    if tr'[|acts'|].worker.Written? {
      tr', acts' := GoOn(c, tr, acts, tr', acts', Insert);
    }
    if tr'[|acts'|].worker.Inserted? {
      tr', acts' := GoOn(c, tr, acts, tr', acts', Clear);
    }
    if tr'[|acts'|].worker.stage == ToIndex {
      tr', acts' := GoOn(c, tr, acts, tr', acts', IndexPut);
    }
    if tr'[|acts'|].worker.stage == ToFulfil {
      tr', acts' := GoOn(c, tr, acts, tr', acts', Fulfil);
    }
  }

  /** What the worker is at work on, or would take. */
  function Work(s: Sys): (ps: seq<Pending>)
  {
    if s.worker.Idle? then s.queue else BatchOf(s.worker)
  }

  /** The files of that are written, or can be. */
  ghost predicate CanWrite(c: Config, s: Sys)
  {
    s.worker.Idle? || s.worker.Taken? ==> Fits(PlaceAll(s.segs, WritesOf(Work(s)), c.maxSize))
  }

  /** To the state in which the files are written. */
  lemma ToWritten(c: Config, tr: seq<Sys>, acts: seq<Action>, tr1: seq<Sys>, acts1: seq<Action>)
    returns (tr': seq<Sys>, acts': seq<Action>)
    requires GoesOn(c, tr, acts, tr1, acts1) && |tr1| == |acts1| + 1
    requires !tr1[|acts1|].worker.Exited? && CanWrite(c, tr1[|acts1|])
    ensures GoesOn(c, tr, acts, tr', acts') && |tr'| == |acts'| + 1
    ensures var s, s' := tr1[|acts1|], tr'[|acts'|];
            && (s'.worker.Written? || s'.worker.Inserted? || s'.worker.Publishing?)
            && BatchOf(s'.worker) == Work(s) && s'.queue == (if s.worker.Idle? then [] else s.queue)
            && s'.readers == s.readers && s'.running == s.running && s'.done == s.done && s'.submitted == s.submitted
  {
    hide IsRun, GoesOn, PlaceAll, Fits, Image, PublicationData;
    tr', acts' := tr1, acts1;
    if tr'[|acts'|].worker.Idle? {
      tr', acts' := GoOn(c, tr, acts, tr', acts', Take);
    }
    if tr'[|acts'|].worker.Taken? {
      var hints, lastActive := WriteFilesDetermined(c, tr'[|acts'|]);
      tr', acts' := GoOn(c, tr, acts, tr', acts', WriteFiles(hints, lastActive));
    }
  }

  lemma GoesOnRun(c: Config, tr: seq<Sys>, acts: seq<Action>, tr': seq<Sys>, acts': seq<Action>)
    requires GoesOn(c, tr, acts, tr', acts')
    ensures IsRun(c, tr', acts')
  {
  }

  lemma StageOf(c: Config, s: Sys)
    requires ViewInv(c, s) && (s.worker.Written? || s.worker.Inserted? || s.worker.Publishing?)
    ensures |s.worker.hints| == |s.worker.batch|
    ensures s.worker.Publishing? ==> s.worker.next <= |s.worker.batch|
                                     && (s.worker.stage != ToCache ==> s.worker.next < |s.worker.batch|)
  {
    hide Entries, PlaceAll, Image, Index, Cache, UpTo;
  }

  /** From every state of every run the worker, once the readers in flight have returned, gets to the end of its pass,
      if it can write the batch: it takes what is queued, commits it, and then exits if there has been a shutdown, and
      otherwise is ready for the next. */
  lemma PassEnds(c: Config, tr: seq<Sys>, acts: seq<Action>) returns (tr': seq<Sys>, acts': seq<Action>)
    requires IsRun(c, tr, acts) && |tr| == |acts| + 1
    requires !tr[|acts|].worker.Exited? && CanWrite(c, tr[|acts|])
    ensures GoesOn(c, tr, acts, tr', acts') && |tr'| == |acts'| + 1
    ensures var s, s' := tr[|acts|], tr'[|acts'|];
            && s'.worker == (if s.running then Idle else Exited)
            && s'.done == s.done + |Work(s)|
            && s'.queue == (if s.worker.Idle? then [] else s.queue) && s'.submitted == s.submitted
  {
    hide IsRun, GoesOn, ViewInv;
    StaysPut(c, tr, acts);
    tr', acts' := ReadersReturn(c, tr, acts, tr, acts);
    tr', acts' := ToWritten(c, tr, acts, tr', acts');
    GoesOnRun(c, tr, acts, tr', acts');
    RunView(c, tr', acts', |acts'|);
    StageOf(c, tr'[|acts'|]);
    tr', acts' := ToBoundary(c, tr, acts, tr', acts');
    tr', acts' := PublishesAll(c, tr, acts, tr', acts');
    tr', acts' := GoOn(c, tr, acts, tr', acts', Finish);
  }

  // ---------------------------------------------------------------- a write that is left behind

  function Opened(c: Config, segs: Segments): (s: Sys)
  {
    Sys(ViewOf(c.x, segs), Idle, [], true, map[], segs, segs, [], 0, [])
  }

  lemma JustOpened(c: Config, segs: Segments)
    requires Fits(segs)
    ensures IsRun(c, [Opened(c, segs)], [])
  {
    hide Fits, ViewOf;
  }

  lemma NoBatch(segs: Segments, maxSize: nat)
    ensures PlaceAll(segs, WritesOf([]), maxSize) == segs
  {
  }

  /** On every store there is a run in which the worker exits and leaves a write in the queue: the call came after its
      last take. */
  lemma ExitReached(c: Config, segs: Segments, w: Write) returns (tr: seq<Sys>, acts: seq<Action>)
    requires Fits(segs)
    ensures IsRun(c, tr, acts) && |tr| == |acts| + 1 && tr[0] == Opened(c, segs)
    ensures var s := tr[|acts|];
            s.worker.Exited? && s.submitted == [w] && WritesOf(s.queue) == [w] && s.fulfilled == []
  {
    hide IsRun, Fits, PlaceAll, ViewOf;
    JustOpened(c, segs);
    NoBatch(segs, c.maxSize);
    tr, acts := RunExtend(c, [Opened(c, segs)], [], Take);
    tr, acts := RunExtend(c, tr, acts, Submit(w));
    tr, acts := RunExtend(c, tr, acts, Shutdown);
    var tr1, acts1 := tr, acts;
    tr, acts := PassEnds(c, tr1, acts1);
    assert tr[0] == tr1[0];
    RunQueue(c, tr, acts, |acts|);
  }
}
