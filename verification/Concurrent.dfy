/**
 The running system as a step relation: callers that enqueue writes and deletions, the commit worker with
 its publication steps, shutdown, and any number of readers whose `Get` is split into index lookup,
 active-id test, and cache or stable read.

 A reader holds the shared lock from its lookup to its return. Enqueuing takes the lock exclusively.
 `exclusive` says whether the insertion into the stable table does so too, which is what is meant, or
 takes the lock in shared mode, which is what is written.
 */
module Concurrent {
  import opened Codec
  import opened Layout
  import opened Commits

  datatype Config = Config(x: Extend, maxSize: nat, exclusive: bool)

  /** A queued write and its promise, numbered in the order of submission. */
  datatype Pending = Pending(write: Write, ticket: nat)

  /** What is next for the write being published. */
  datatype Stage = ToCache | ToIndex | ToFulfil

  datatype Worker =
    | Idle
    | Taken(batch: seq<Pending>)
    | Written(batch: seq<Pending>, hints: seq<Hint>, lastActive: nat)
    | Inserted(batch: seq<Pending>, hints: seq<Hint>, lastActive: nat)
    | Publishing(batch: seq<Pending>, hints: seq<Hint>, lastActive: nat, next: nat, stage: Stage)
    | Exited

  /** A `Get` in flight. */
  datatype Reader =
    | Located(key: Key, hint: Hint)
    | AtCache(key: Key)
    | AtTable(key: Key, hint: Hint)
    | Answered(key: Key, result: Option<Value>)

  /** `segs` is the layout of the files, `base` that of the files before the batch in flight; `submitted`,
      `done` and `fulfilled` record what was enqueued, how many submissions earlier batches committed,
      and which promises were set, in order. */
  datatype Sys = Sys(view: View, worker: Worker, queue: seq<Pending>, running: bool, readers: map<nat, Reader>,
                     segs: Segments, base: Segments, submitted: seq<Write>, done: nat, fulfilled: seq<nat>)

  datatype Action =
    | Submit(w: Write) | SubmitDelete(k: Key) | RefuseDelete(k: Key) | Shutdown
    | Take | WriteFiles(hints: seq<Hint>, lastActive: nat) | Insert | Clear | CachePut | IndexPut | Fulfil | Finish
    | GetLookup(r: nat, k: Key) | GetTest(r: nat) | GetCache(r: nat) | GetStable(r: nat) | GetReturn(r: nat)

  function WritesOf(ps: seq<Pending>): (ws: seq<Write>)
    ensures |ws| == |ps|
    ensures forall i | 0 <= i < |ps| :: ws[i] == ps[i].write
  {
    seq(|ps|, i requires 0 <= i < |ps| => ps[i].write)
  }

  function Between(m: nat, n: nat): (s: set<nat>)
    ensures forall i: nat :: i in s <==> m <= i < n
  {
    if n <= m then {} else Between(m, n - 1) + {n - 1}
  }

  function Enqueue(s: Sys, w: Write): (r: Sys)
  {
    s.(queue := s.queue + [Pending(w, |s.submitted|)], submitted := s.submitted + [w])
  }

  ghost predicate Enabled(c: Config, s: Sys, a: Action)
  {
    match a
    case Submit(_) => s.readers == map[]
    case SubmitDelete(k) => s.readers == map[] && k in s.view.index
    case RefuseDelete(k) => s.readers == map[] && k !in s.view.index
    case Shutdown => true
    case Take => s.worker.Idle?
    case WriteFiles(hints, lastActive) =>
      s.worker.Taken? &&
      var next := PlaceAll(s.segs, WritesOf(s.worker.batch), c.maxSize);
      Fits(next) && PublicationData(Entries(next), WritesOf(s.worker.batch), hints, lastActive, |next| - 1)
    case Insert => s.worker.Written? && (c.exclusive ==> s.readers == map[])
    case Clear => s.worker.Inserted?
    case CachePut => s.worker.Publishing? && s.worker.stage == ToCache && s.worker.next < |s.worker.batch|
    case IndexPut =>
      s.worker.Publishing? && s.worker.stage == ToIndex && s.worker.next < |s.worker.batch| <= |s.worker.hints|
    case Fulfil => s.worker.Publishing? && s.worker.stage == ToFulfil && s.worker.next < |s.worker.batch|
    case Finish => s.worker.Publishing? && s.worker.stage == ToCache && s.worker.next == |s.worker.batch|
    case GetLookup(r, _) => r !in s.readers
    case GetTest(r) => r in s.readers && s.readers[r].Located?
    case GetCache(r) => r in s.readers && s.readers[r].AtCache?
    case GetStable(r) => r in s.readers && s.readers[r].AtTable?
    case GetReturn(r) => r in s.readers && s.readers[r].Answered?
  }

  function Apply(c: Config, s: Sys, a: Action): (r: Sys)
    requires Enabled(c, s, a)
  {
    match a
    case Submit(w) => Enqueue(s, w)
    case SubmitDelete(k) => Enqueue(s, Write(k, TOMBSTONE))
    case RefuseDelete(_) => s
    case Shutdown => s.(running := false)
    case Take => s.(worker := Taken(s.queue), queue := [])
    case WriteFiles(hints, lastActive) =>
      var next := PlaceAll(s.segs, WritesOf(s.worker.batch), c.maxSize);
      s.(worker := Written(s.worker.batch, hints, lastActive), segs := next,
         view := s.view.(files := Image(c.x, next)))
    case Insert =>
      s.(worker := Inserted(s.worker.batch, s.worker.hints, s.worker.lastActive),
         view := s.view.(stable := s.view.stable + Between(|s.base| - 1, |s.segs| - 1)))
    case Clear =>
      s.(worker := Publishing(s.worker.batch, s.worker.hints, s.worker.lastActive, 0, ToCache),
         view := if |s.segs| > |s.base| then s.view.(cache := map[]) else s.view)
    case CachePut =>
      var w := s.worker.batch[s.worker.next].write;
      s.(worker := s.worker.(stage := ToIndex),
         view := if s.worker.next >= s.worker.lastActive
                 then s.view.(cache := s.view.cache[w.key := w.value]) else s.view)
    case IndexPut =>
      var w := s.worker.batch[s.worker.next].write;
      s.(worker := s.worker.(stage := ToFulfil),
         view := s.view.(index := s.view.index[w.key := s.worker.hints[s.worker.next]]))
    case Fulfil =>
      s.(worker := s.worker.(next := s.worker.next + 1, stage := ToCache),
         fulfilled := s.fulfilled + [s.worker.batch[s.worker.next].ticket])
    case Finish =>
      s.(worker := if s.running then Idle else Exited, base := s.segs, done := s.done + |s.worker.batch|)
    case GetLookup(r, k) =>
      s.(readers := s.readers[r := if k in s.view.index then Located(k, s.view.index[k]) else Answered(k, None)])
    case GetTest(r) =>
      var g := s.readers[r];
      s.(readers := s.readers[r := if g.hint.fd == |s.view.stable| then AtCache(g.key) else AtTable(g.key, g.hint)])
    case GetCache(r) =>
      var k := s.readers[r].key;
      s.(readers := s.readers[r := Answered(k, if k in s.view.cache then Live(s.view.cache[k]) else None)])
    case GetStable(r) =>
      var g := s.readers[r];
      s.(readers := s.readers[r := Answered(g.key, if g.hint.fd in s.view.stable
                                                   then Live(StableValue(s.view.files, g.hint)) else None)])
    case GetReturn(r) => s.(readers := s.readers - {r})
  }

  /** After opening: nothing queued, nothing in flight, the state of some layout. */
  ghost predicate Start(c: Config, s: Sys)
  {
    && s.view == ViewOf(c.x, s.segs) && s.base == s.segs && Fits(s.segs)
    && s.worker == Idle && s.queue == [] && s.running && s.readers == map[]
    && s.submitted == [] && s.done == 0 && s.fulfilled == []
  }

  /** A run: states joined by actions, from a start state. */
  ghost predicate IsRun(c: Config, tr: seq<Sys>, acts: seq<Action>)
  {
    && |tr| == |acts| + 1
    && Start(c, tr[0])
    && forall i | 0 <= i < |acts| :: Enabled(c, tr[i], acts[i]) && tr[i + 1] == Apply(c, tr[i], acts[i])
  }

  // ---------------------------------------------------------------- the invariant of the view

  /** How many log entries the index reflects. */
  function Indexed(s: Sys): (p: nat)
  {
    |Entries(s.base)| +
    if s.worker.Publishing? then s.worker.next + (if s.worker.stage == ToFulfil then 1 else 0) else 0
  }

  /** How many log entries the cache reflects. */
  function Cached(s: Sys): (q: nat)
  {
    |Entries(s.base)| +
    if s.worker.Publishing? then s.worker.next + (if s.worker.stage == ToCache then 0 else 1) else 0
  }

  /** The id the active-id test compares with. */
  function ActiveId(s: Sys): (n: nat)
  {
    if s.worker.Inserted? || s.worker.Publishing? then |s.segs| - 1 else |s.base| - 1
  }

  /** The batch in flight is laid out after `base`. */
  ghost predicate InFlight(c: Config, s: Sys)
  {
    && (s.worker.Written? || s.worker.Inserted? || s.worker.Publishing?)
    && s.segs == PlaceAll(s.base, WritesOf(s.worker.batch), c.maxSize)
    && PublicationData(Entries(s.segs), WritesOf(s.worker.batch), s.worker.hints, s.worker.lastActive, |s.segs| - 1)
    && (s.worker.Publishing? ==> s.worker.next <= |s.worker.batch|
                                 && (s.worker.stage != ToCache ==> s.worker.next < |s.worker.batch|))
  }

  ghost predicate ViewInv(c: Config, s: Sys)
  {
    && (if s.worker.Written? || s.worker.Inserted? || s.worker.Publishing? then InFlight(c, s) else s.base == s.segs)
    && Indexed(s) <= Cached(s) <= |Entries(s.segs)|
    && s.view.files == Image(c.x, s.segs)
    && s.view.stable == UpTo(ActiveId(s))
    && s.view.index == Index(Entries(s.segs)[..Indexed(s)])
    && s.view.cache ==
       if s.worker.Inserted? then Cache(Entries(s.base), |s.base| - 1)
       else Cache(Entries(s.segs)[..Cached(s)], ActiveId(s))
  }

  lemma StartView(c: Config, s: Sys)
    requires Start(c, s)
    ensures ViewInv(c, s)
  {
    hide Index, Cache, Entries, Image, UpTo, Fits;
    assert Entries(s.segs)[..|Entries(s.segs)|] == Entries(s.segs);
  }

  lemma WriteFilesView(c: Config, s: Sys, a: Action)
    requires ViewInv(c, s) && Enabled(c, s, a) && a.WriteFiles?
    ensures ViewInv(c, Apply(c, s, a))
  {
    hide Index, Cache, Entries, Image, UpTo, Fits, PublicationData, PlaceAll;
    EntriesPlaceAll(s.segs, WritesOf(s.worker.batch), c.maxSize);
    var s' := Apply(c, s, a);
    assert Entries(s'.segs)[..|Entries(s.segs)|] == Entries(s.segs) == Entries(s.segs)[..|Entries(s.segs)|];
  }

  lemma NewIds(m: nat, n: nat)
    requires m <= n
    ensures UpTo(m) + Between(m, n) == UpTo(n)
  {
  }

  lemma InFlightPrefix(c: Config, s: Sys)
    requires InFlight(c, s)
    ensures |s.base| <= |s.segs|
    ensures |Entries(s.segs)| == |Entries(s.base)| + |s.worker.batch|
    ensures Entries(s.segs)[..|Entries(s.base)|] == Entries(s.base)
  {
    hide Entries, PublicationData, PlaceAll;
    EntriesPlaceAll(s.base, WritesOf(s.worker.batch), c.maxSize);
  }

  lemma InsertView(c: Config, s: Sys, a: Action)
    requires ViewInv(c, s) && Enabled(c, s, a) && a.Insert?
    ensures ViewInv(c, Apply(c, s, a))
  {
    hide Index, Cache, Entries, Image, UpTo, PublicationData, PlaceAll, Between;
    InFlightPrefix(c, s);
    NewIds(|s.base| - 1, |s.segs| - 1);
  }

  lemma ClearView(c: Config, s: Sys, a: Action)
    requires ViewInv(c, s) && Enabled(c, s, a) && a.Clear?
    ensures ViewInv(c, Apply(c, s, a))
  {
    hide Index, Cache, Entries, Image, UpTo, PublicationData, PlaceAll;
    InFlightPrefix(c, s);
    CacheBeforePublication(s.base, WritesOf(s.worker.batch), c.maxSize);
  }

  lemma PutView(c: Config, s: Sys, a: Action)
    requires ViewInv(c, s) && Enabled(c, s, a) && (a.CachePut? || a.IndexPut?)
    ensures ViewInv(c, Apply(c, s, a))
  {
    hide Index, Cache, Entries, Image, UpTo, PlaceAll;
    InFlightPrefix(c, s);
    var es, i := Entries(s.segs), |Entries(s.base)| + s.worker.next;
    assert es[i] == Entry(s.worker.batch[s.worker.next].write, s.worker.hints[s.worker.next]);
    PublishStep(es, i, |s.segs| - 1);
  }

  lemma FinishView(c: Config, s: Sys, a: Action)
    requires ViewInv(c, s) && Enabled(c, s, a) && a.Finish?
    ensures ViewInv(c, Apply(c, s, a))
  {
    hide Index, Cache, Entries, Image, UpTo, PublicationData, PlaceAll;
    InFlightPrefix(c, s);
  }

  /** Every step keeps the invariant of the view, whatever the lock mode. */
  lemma StepView(c: Config, s: Sys, a: Action)
    requires ViewInv(c, s) && Enabled(c, s, a)
    ensures ViewInv(c, Apply(c, s, a))
  {
    match a
    case WriteFiles(_, _) => WriteFilesView(c, s, a);
    case Insert => InsertView(c, s, a);
    case Clear => ClearView(c, s, a);
    case CachePut => PutView(c, s, a);
    case IndexPut => PutView(c, s, a);
    case Finish => FinishView(c, s, a);
    case _ => QuietView(c, s, a);
  }

  lemma QuietView(c: Config, s: Sys, a: Action)
    requires ViewInv(c, s) && Enabled(c, s, a)
    requires !a.WriteFiles? && !a.Insert? && !a.Clear? && !a.CachePut? && !a.IndexPut? && !a.Finish?
    ensures ViewInv(c, Apply(c, s, a))
  {
    hide Index, Cache, Entries, Image, UpTo, PublicationData, PlaceAll;
  }

  /** Between batches the state is that of the layout of everything committed, as after the store's
      sequential commit. */
  lemma SettledView(c: Config, s: Sys)
    requires ViewInv(c, s) && (s.worker.Idle? || s.worker.Taken? || s.worker.Exited?)
    ensures s.view == ViewOf(c.x, s.segs)
  {
    hide Index, Cache, Entries, Image, UpTo;
    var es := Entries(s.segs);
    assert es[..|es|] == es;
  }

  /** The worker is never stuck: for every batch whose layout fits there is exactly one way to write it. */
  lemma WriteFilesDetermined(c: Config, s: Sys) returns (hints: seq<Hint>, lastActive: nat)
    requires s.worker.Taken? && Fits(PlaceAll(s.segs, WritesOf(s.worker.batch), c.maxSize))
    ensures Enabled(c, s, WriteFiles(hints, lastActive))
    ensures forall hs, l | Enabled(c, s, WriteFiles(hs, l)) :: hs == hints && l == lastActive
  {
    hide Fits, PlaceAll, Entries;
    var ws := WritesOf(s.worker.batch);
    hints, lastActive := PublicationExists(s.segs, ws, c.maxSize);
    var next := PlaceAll(s.segs, ws, c.maxSize);
    forall hs, l | Enabled(c, s, WriteFiles(hs, l)) ensures hs == hints && l == lastActive {
      PublicationUnique(Entries(next), ws, hints, lastActive, hs, l, |next| - 1);
    }
  }
}
