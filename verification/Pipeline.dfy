/**
 The write pipeline: no write is lost, duplicated or reordered between submission, queue, batch and log;
 promises are set in order, once, and after their write is visible.
 */
module Pipeline {
  import opened Codec
  import opened Layout
  import opened Recovery
  import opened Commits
  import opened Concurrent
  import opened Linearizability

  function BatchOf(w: Worker): (ps: seq<Pending>)
  {
    match w
    case Idle => []
    case Exited => []
    case Taken(batch) => batch
    case Written(batch, _, _) => batch
    case Inserted(batch, _, _) => batch
    case Publishing(batch, _, _, _, _) => batch
  }

  function FulfilledInBatch(w: Worker): (n: nat)
  {
    if w.Publishing? then w.next else 0
  }

  /** The pendings `ps` are the submissions from number `from` on. */
  ghost predicate Numbered(ps: seq<Pending>, submitted: seq<Write>, from: nat)
  {
    from + |ps| <= |submitted| && forall i | 0 <= i < |ps| :: ps[i] == Pending(submitted[from + i], from + i)
  }

  /** `log0` is the log the session started with. */
  ghost predicate QueueInv(s: Sys, log0: seq<Write>)
  {
    var batch := BatchOf(s.worker);
    && s.done + |batch| + |s.queue| == |s.submitted|
    && Numbered(batch, s.submitted, s.done)
    && Numbered(s.queue, s.submitted, s.done + |batch|)
    && FulfilledInBatch(s.worker) <= |batch|
    && s.fulfilled == Ascending(s.done + FulfilledInBatch(s.worker))
    && Flatten(s.base) == log0 + s.submitted[..s.done]
  }

  lemma EnqueueQueue(s: Sys, w: Write, log0: seq<Write>)
    requires QueueInv(s, log0)
    ensures QueueInv(Enqueue(s, w), log0)
  {
    hide Flatten, Ascending;
    var s' := Enqueue(s, w);
    assert s'.submitted[..s.done] == s.submitted[..s.done];
  }

  lemma FulfilQueue(c: Config, s: Sys, a: Action, log0: seq<Write>)
    requires QueueInv(s, log0) && Enabled(c, s, a) && a.Fulfil?
    ensures QueueInv(Apply(c, s, a), log0)
  {
    hide Flatten, Ascending;
    AscendingSnoc(s.done + s.worker.next);
    assert s.worker.batch[s.worker.next].ticket == s.done + s.worker.next;
  }

  lemma FinishQueue(c: Config, s: Sys, a: Action, log0: seq<Write>)
    requires ViewInv(c, s) && QueueInv(s, log0) && Enabled(c, s, a) && a.Finish?
    ensures QueueInv(Apply(c, s, a), log0)
  {
    hide Flatten, Ascending, PlaceAll, ViewInv;
    var batch := s.worker.batch;
    FinishedLayout(c, s);
    FlattenPlaceAll(s.base, WritesOf(batch), c.maxSize);
    NumberedSlice(batch, s.submitted, s.done);
    Assoc(log0, s.submitted[..s.done], WritesOf(batch));
  }

  lemma NumberedSlice(ps: seq<Pending>, submitted: seq<Write>, from: nat)
    requires Numbered(ps, submitted, from)
    ensures submitted[..from + |ps|] == submitted[..from] + WritesOf(ps)
  {
  }

  lemma FinishedLayout(c: Config, s: Sys)
    requires ViewInv(c, s) && s.worker.Publishing?
    ensures s.segs == PlaceAll(s.base, WritesOf(s.worker.batch), c.maxSize)
  {
    hide PlaceAll, Entries, Index, Cache, Image, UpTo, PublicationData;
  }

  lemma StepQueue(c: Config, s: Sys, a: Action, log0: seq<Write>)
    requires ViewInv(c, s) && QueueInv(s, log0) && Enabled(c, s, a)
    ensures QueueInv(Apply(c, s, a), log0)
  {
    hide Flatten, Ascending, PlaceAll, Entries, Index, Cache, Image, UpTo, PublicationData, ViewInv;
    match a
    case Submit(w) => EnqueueQueue(s, w, log0);
    case SubmitDelete(k) => EnqueueQueue(s, Write(k, TOMBSTONE), log0);
    case Fulfil => FulfilQueue(c, s, a, log0);
    case Finish => FinishQueue(c, s, a, log0);
    case _ =>
  }

  /** FIFO conservation in every reachable state. */
  lemma {:induction false} RunQueue(c: Config, tr: seq<Sys>, acts: seq<Action>, i: nat)
    requires IsRun(c, tr, acts) && i <= |acts|
    ensures QueueInv(tr[i], Flatten(tr[0].segs))
  {
    hide ViewInv, Enabled, Apply, Flatten;
    var log0 := Flatten(tr[0].segs);
    if i == 0 {
      assert log0 + tr[0].submitted[..0] == log0;
    } else {
      RunQueue(c, tr, acts, i - 1);
      RunView(c, tr, acts, i - 1);
      assert Enabled(c, tr[i - 1], acts[i - 1]) && tr[i - 1 + 1] == Apply(c, tr[i - 1], acts[i - 1]);
      StepQueue(c, tr[i - 1], acts[i - 1], log0);
    }
  }

  /** The same in the terms of the write path: committed, in flight and queued writes together are the
      submitted ones, in order, and the promises set are those of the first submissions, in order. */
  lemma Conservation(c: Config, tr: seq<Sys>, acts: seq<Action>, i: nat)
    requires IsRun(c, tr, acts) && i <= |acts|
    ensures var s := tr[i];
            && s.done <= |s.submitted|
            && s.submitted == s.submitted[..s.done] + WritesOf(BatchOf(s.worker)) + WritesOf(s.queue)
            && Flatten(s.base) == Flatten(tr[0].segs) + s.submitted[..s.done]
            && s.fulfilled == Ascending(|s.fulfilled|)
            && s.done <= |s.fulfilled| <= s.done + |BatchOf(s.worker)|
  {
    hide Flatten, IsRun;
    RunLength(c, tr, acts);
    RunQueue(c, tr, acts, i);
  }

  /** What is on the files ends with a submission of the batch in flight or of the batches before it. */
  lemma LogEnds(c: Config, s: Sys, log0: seq<Write>) returns (n: nat)
    requires ViewInv(c, s) && QueueInv(s, log0)
    ensures n <= |s.submitted| && Flatten(s.segs) == log0 + s.submitted[..n]
  {
    hide Flatten, PlaceAll, Entries, PublicationData, Index, Cache, Image, UpTo, Ascending;
    n := s.done;
    if s.segs != s.base {
      var batch := s.worker.batch;
      n := s.done + |batch|;
      FlattenPlaceAll(s.base, WritesOf(batch), c.maxSize);
      NumberedSlice(batch, s.submitted, s.done);
      Assoc(log0, s.submitted[..s.done], WritesOf(batch));
    }
  }

  /** The log on the files: that of the session's start and a prefix of the submissions. */
  lemma LogOnFiles(c: Config, tr: seq<Sys>, acts: seq<Action>, i: nat)
    requires IsRun(c, tr, acts) && i <= |acts|
    ensures var log0, s := Flatten(tr[0].segs), tr[i];
            && |log0| <= |Flatten(s.segs)| <= |log0| + |s.submitted|
            && Flatten(s.segs) == log0 + s.submitted[..|Flatten(s.segs)| - |log0|]
            && |Entries(s.base)| == |log0| + s.done
  {
    hide IsRun, Flatten, Entries, ViewInv, Ascending;
    RunLength(c, tr, acts);
    RunQueue(c, tr, acts, i);
    RunView(c, tr, acts, i);
    WritesOfEntries(tr[i].base);
    var n := LogEnds(c, tr[i], Flatten(tr[0].segs));
  }

  /** A promise is set only after its write is visible: the store as a whole already reads past it. */
  lemma PromisedIsVisible(c: Config, tr: seq<Sys>, acts: seq<Action>, i: nat, t: nat)
    requires IsRun(c, tr, acts) && i <= |acts| && t in tr[i].fulfilled
    ensures t < |tr[i].submitted|
    ensures |Flatten(tr[0].segs)| + t < Point(tr[i])
  {
    hide IsRun, Flatten, Entries, ViewInv;
    RunLength(c, tr, acts);
    RunQueue(c, tr, acts, i);
    LogOnFiles(c, tr, acts, i);
  }

  /** Read your writes, deletions included: a `Get` that starts after the promise of the `t`-th submission is
      set returns the value of that submission, none for a tombstone, or of a later one of the same key. */
  lemma ReadYourWrites(c: Config, tr: seq<Sys>, acts: seq<Action>, t: nat, i: nat, j: nat, r: nat, k: Key)
    returns (u: nat)
    requires c.exclusive && IsRun(c, tr, acts) && Reading(tr, acts, i, j, r, k)
    requires r in tr[j].readers && tr[j].readers[r].Answered?
    requires t in tr[i].fulfilled && t < |tr[j].submitted| && tr[j].submitted[t].key == k
    ensures t <= u < |tr[j].submitted| && tr[j].submitted[u].key == k
    ensures var v := tr[j].submitted[u].value;
            tr[j].readers[r].result == if v == TOMBSTONE then None else Some(v)
  {
    hide IsRun, Flatten, Reading, Entries, Point, Enabled, Apply, Seen, Meaning, Live, Find, LastPos;
    RunLength(c, tr, acts);
    ReadingBounds(tr, acts, i, j, r, k);
    var p := ReadsLinearize(c, tr, acts, i, j, r, k);
    PromisedIsVisible(c, tr, acts, i, t);
    LogOnFiles(c, tr, acts, j);
    var log0, log := Flatten(tr[0].segs), Flatten(tr[j].segs);
    var m := |log0| + t;
    assert log[..p][m] == log[m] == tr[j].submitted[t];
    MeaningLast(log[..p], k);
    var q := LastPos(log[..p], k);
    u := q - |log0|;
    assert log[q] == tr[j].submitted[u];
  }

  // ---------------------------------------------------------------- deletion

  /** In every reachable state, with no reader holding the lock, a deletion is possible: it is enqueued if the key has a
      record in the published log, and refused, without effect, if it has none. */
  lemma RefusedDelete(c: Config, tr: seq<Sys>, acts: seq<Action>, i: nat, k: Key)
    requires IsRun(c, tr, acts) && i <= |acts|
    ensures Indexed(tr[i]) <= |Flatten(tr[i].segs)|
    ensures var free, p := tr[i].readers == map[], LastPos(Flatten(tr[i].segs)[..Indexed(tr[i])], k);
            && (Enabled(c, tr[i], SubmitDelete(k)) <==> free && p >= 0)
            && (Enabled(c, tr[i], RefuseDelete(k)) <==> free && p < 0)
            && (i < |acts| && acts[i] == SubmitDelete(k) ==> p >= 0)
            && (i < |acts| && acts[i] == RefuseDelete(k) ==> p < 0 && tr[i + 1] == tr[i])
  {
    hide Flatten, Entries, Index, Cache, Image, UpTo, InFlight, Start, LastPos;
    var s := tr[i];
    RunView(c, tr, acts, i);
    assert i < |acts| ==> Enabled(c, s, acts[i]) && tr[i + 1] == Apply(c, s, acts[i]);
    WritesOfEntries(s.segs);
    var es, p := Entries(s.segs), Indexed(s);
    assert Writes(es)[..p] == Writes(es[..p]);
    IndexAt(es[..p], k);
  }

  // ---------------------------------------------------------------- shutdown

  /** Between two takes the submissions taken so far do not change. */
  lemma {:induction false} SinceTake(c: Config, tr: seq<Sys>, acts: seq<Action>, j: nat, i: nat)
    requires IsRun(c, tr, acts) && j < i <= |acts| && acts[j] == Take
    requires forall m | j < m < i :: acts[m] != Take
    ensures tr[i].done + |BatchOf(tr[i].worker)| == |tr[j].submitted|
  {
    hide Start, Flatten, QueueInv, Enabled, Apply, BatchOf;
    var s, a := tr[i - 1], acts[i - 1];
    assert Enabled(c, s, a) && tr[i - 1 + 1] == Apply(c, s, a);
    if i == j + 1 {
      RunQueue(c, tr, acts, j);
      TakenAll(c, s, Flatten(tr[0].segs));
    } else {
      SinceTake(c, tr, acts, j, i - 1);
      TakenStays(c, s, a);
    }
  }

  lemma TakenAll(c: Config, s: Sys, log0: seq<Write>)
    requires QueueInv(s, log0) && Enabled(c, s, Take)
    ensures var s' := Apply(c, s, Take);
            s'.done + |BatchOf(s'.worker)| == |s.submitted|
  {
  }

  lemma TakenStays(c: Config, s: Sys, a: Action)
    requires Enabled(c, s, a) && a != Take
    ensures var s' := Apply(c, s, a);
            s'.done + |BatchOf(s'.worker)| == s.done + |BatchOf(s.worker)|
  {
    hide Image, PlaceAll, Entries, PublicationData, UpTo, Between;
  }

  /** What is left unset when the worker exits is exactly what was enqueued after its last take. */
  lemma ExitLeaves(c: Config, tr: seq<Sys>, acts: seq<Action>, j: nat, i: nat)
    requires IsRun(c, tr, acts) && j < i <= |acts| && acts[j] == Take
    requires forall m | j < m < i :: acts[m] != Take
    requires tr[i].worker.Exited?
    ensures var n := |tr[j].submitted|;
            && n <= |tr[i].submitted|
            && tr[i].fulfilled == Ascending(n)
            && WritesOf(tr[i].queue) == tr[i].submitted[n..]
  {
    hide IsRun, Flatten;
    RunLength(c, tr, acts);
    RunQueue(c, tr, acts, i);
    SinceTake(c, tr, acts, j, i);
  }
}
