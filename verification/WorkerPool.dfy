/** `MirrorComponents` (internal/releases/cloner.go): worker goroutines take
    components from a closed job channel, pull them, and leave at the first
    error, which they offer to an error channel.  Everything interleaves. */
module WorkerPool {
  import opened Digests
  import Blobs
  import Barrier
  import Clone
  import opened Relations
  import opened ImageRefs

  datatype Component = Component(name: string, ref: string)

  /** `jobs` in whatever order the map of references is walked; `upstream` is the
      manifest that the registry answers for a reference, with its media type. */
  datatype Config = Config(sha: Bytes -> string, parse: Bytes -> Option<Clone.Manifest>, repo: string,
                           upstream: string -> (Bytes, string), jobs: seq<Component>,
                           concurrency: int, layerConcurrency: int)
  {
    /** `if workers <= 0 { workers = 4 }` */
    function Workers(): (n: nat)
      ensures n >= 1
    {
      if concurrency <= 0 then 4 else concurrency
    }

    /** What `PullComponentImage` does for a reference. */
    function Image(ref: string): Clone.Job {
      Clone.Job(Clone.Component, sha, parse, repo, "", upstream(ref).0, upstream(ref).1, layerConcurrency)
    }
  }

  datatype Worker =
    | Idle                       // about to receive
    | Got(job: Component)        // about to look at the context
    | Pulling(job: Component)
    | Reporting(job: Component)  // about to offer the error
    | Drained                    // left: no jobs
    | Cancelled(job: Component)  // left: context cancelled
    | Failed(job: Component)     // left: pull failed

  datatype Main = Waiting | Returned(err: Option<Component>)

  /** `mirrored` are the components pulled, in order; its length is the counter
      of the same name. */
  datatype State = State(main: Main, queue: seq<Component>, workers: seq<Worker>, errors: seq<Component>,
                         mirrored: seq<Component>, cancelled: bool, store: Blobs.Files)

  function Init(c: Config, cancelled: bool, store: Blobs.Files): State {
    State(Waiting, c.jobs, seq(c.Workers(), _ => Idle), [], [], cancelled, store)
  }

  predicate Gone(w: Worker) {
    w.Drained? || w.Cancelled? || w.Failed?
  }

  /* ---- steps ---- */

  predicate Receive(c: Config, s: State, s': State, k: nat) {
    && k < |s.workers| && s.workers[k].Idle? && s.queue != []
    && s' == s.(workers := s.workers[k := Got(s.queue[0])], queue := s.queue[1..])
  }

  predicate Drain(c: Config, s: State, s': State, k: nat) {
    && k < |s.workers| && s.workers[k].Idle? && s.queue == []
    && s' == s.(workers := s.workers[k := Drained])
  }

  /** `if ctx.Err() != nil { return }` drops the job without an error. */
  predicate Check(c: Config, s: State, s': State, k: nat) {
    && k < |s.workers| && s.workers[k].Got?
    && s' == s.(workers := s.workers[k := if s.cancelled then Cancelled(s.workers[k].job) else Pulling(s.workers[k].job)])
  }

  /** `PullComponentImage` refuses a reference without a repository or a reference part. */
  predicate Named(ref: string) {
    ParseImageRef(ref).repo != "" && ParseImageRef(ref).ref != ""
  }

  /** `PullComponentImage` ran to its end without an error: it began when the store
      was at most `from`, everything else being its other activity, and left `to`. */
  ghost predicate Pulled(c: Config, ref: string, pull: seq<Clone.State>, from: Blobs.Files, to: Blobs.Files) {
    && Named(ref) && Clone.IsRun(c.Image(ref), pull) && pull[0].barrier.store.Keys <= from.Keys
    && Clone.Finished(c.Image(ref), pull[|pull|-1]) && pull[|pull|-1].barrier.store == to
  }

  ghost predicate PullOk(c: Config, s: State, s': State, k: nat) {
    && k < |s.workers| && s.workers[k].Pulling?
    && Barrier.Grows(c.sha, s.store, s'.store)
    && (exists pull :: Pulled(c, s.workers[k].job.ref, pull, s.store, s'.store))
    && s' == s.(workers := s.workers[k := Idle], mirrored := s.mirrored + [s.workers[k].job], store := s'.store)
  }

  ghost predicate PullFails(c: Config, s: State, s': State, k: nat) {
    && k < |s.workers| && s.workers[k].Pulling?
    && Barrier.Grows(c.sha, s.store, s'.store)
    && s' == s.(workers := s.workers[k := Reporting(s.workers[k].job)], store := s'.store)
  }

  /** `select { case errCh <- err: default: }` and leave. */
  predicate Report(c: Config, s: State, s': State, k: nat) {
    && k < |s.workers| && s.workers[k].Reporting?
    && s' == s.(workers := s.workers[k := Failed(s.workers[k].job)],
                errors := if |s.errors| < c.Workers() then s.errors + [s.workers[k].job] else s.errors)
  }

  /** `wg.Wait`, then one receive from the closed error channel. */
  predicate Finish(c: Config, s: State, s': State) {
    && s.main.Waiting? && (forall k :: 0 <= k < |s.workers| ==> Gone(s.workers[k]))
    && s' == s.(main := Returned(if s.errors == [] then None else Some(s.errors[0])))
  }

  ghost predicate WorkerStep(c: Config, s: State, s': State, k: nat) {
    || Receive(c, s, s', k) || Drain(c, s, s', k) || Check(c, s, s', k)
    || PullOk(c, s, s', k) || PullFails(c, s, s', k) || Report(c, s, s', k)
  }

  ghost predicate Next(c: Config, s: State, s': State) {
    Finish(c, s, s') || exists k: nat :: WorkerStep(c, s, s', k)
  }

  /** Somebody cancels the context, or adds blobs. */
  ghost predicate Other(c: Config, s: State, s': State) {
    && Barrier.Grows(c.sha, s.store, s'.store)
    && s' == s.(cancelled := s.cancelled || s'.cancelled, store := s'.store)
  }

  /* ---- counting jobs ---- */

  type Jobs = multiset<Component>

  function InFlight(w: Worker): Jobs {
    match w case Got(j) => multiset{j} case Pulling(j) => multiset{j} case Reporting(j) => multiset{j} case _ => multiset{}
  }

  function FailedJob(w: Worker): Jobs {
    match w case Failed(j) => multiset{j} case _ => multiset{}
  }

  function DroppedJob(w: Worker): Jobs {
    match w case Cancelled(j) => multiset{j} case _ => multiset{}
  }

  function Total(f: Worker -> Jobs, workers: seq<Worker>): Jobs {
    if workers == [] then multiset{} else Total(f, workers[..|workers|-1]) + f(workers[|workers|-1])
  }

  lemma AddBoth(a: Jobs, b: Jobs, a': Jobs, b': Jobs, x: Jobs)
    requires a + b == a' + b'
    ensures (a + x) + b == (a' + x) + b'
  {
    forall y: Component ensures ((a + x) + b)[y] == ((a' + x) + b')[y] {
      assert (a + b)[y] == (a' + b')[y];
    }
  }

  lemma {:induction false} TotalUpdate(f: Worker -> Jobs, workers: seq<Worker>, k: nat, w: Worker)
    requires k < |workers|
    ensures Total(f, workers[k := w]) + f(workers[k]) == Total(f, workers) + f(w)
  {
    var init := workers[..|workers|-1];
    if k == |workers| - 1 {
      assert workers[k := w][..|workers|-1] == init;
    } else {
      assert workers[k := w][..|workers|-1] == init[k := w];
      TotalUpdate(f, init, k, w);
      AddBoth(Total(f, init[k := w]), f(workers[k]), Total(f, init), f(w), f(workers[|workers|-1]));
    }
  }

  lemma SameTotal(f: Worker -> Jobs, workers: seq<Worker>, k: nat, w: Worker)
    requires k < |workers| && f(workers[k]) == f(w)
    ensures Total(f, workers[k := w]) == Total(f, workers)
  {
    TotalUpdate(f, workers, k, w);
    var a, b, x := Total(f, workers[k := w]), Total(f, workers), f(w);
    assert (a + x) - x == a && (b + x) - x == b;
  }

  lemma {:induction false} TotalEmpty(f: Worker -> Jobs, workers: seq<Worker>)
    requires forall k :: 0 <= k < |workers| ==> f(workers[k]) == multiset{}
    ensures Total(f, workers) == multiset{}
  {
    if workers != [] {
      TotalEmpty(f, workers[..|workers|-1]);
    }
  }

  lemma {:induction false} TotalContains(f: Worker -> Jobs, workers: seq<Worker>, k: nat)
    requires k < |workers|
    ensures f(workers[k]) <= Total(f, workers)
  {
    if k < |workers| - 1 {
      TotalContains(f, workers[..|workers|-1], k);
    }
  }

  /** Each worker holds at most one job. */
  lemma {:induction false} TotalBound(f: Worker -> Jobs, workers: seq<Worker>)
    requires forall w :: |f(w)| <= 1
    ensures |Total(f, workers)| <= |workers|
  {
    if workers != [] {
      TotalBound(f, workers[..|workers|-1]);
    }
  }

  lemma {:induction false} TotalRoom(f: Worker -> Jobs, workers: seq<Worker>, k: nat)
    requires (forall w :: |f(w)| <= 1) && k < |workers| && f(workers[k]) == multiset{}
    ensures |Total(f, workers)| < |workers|
  {
    if k == |workers| - 1 {
      TotalBound(f, workers[..|workers|-1]);
    } else {
      TotalRoom(f, workers[..|workers|-1], k);
    }
  }

  /** The job a worker has, or has left with. */
  function Holds(w: Worker): Jobs {
    if w.Idle? || w.Drained? then multiset{} else multiset{w.job}
  }

  lemma {:induction false} TotalSplit(workers: seq<Worker>)
    ensures Total(Holds, workers) == Total(InFlight, workers) + Total(FailedJob, workers) + Total(DroppedJob, workers)
  {
    if workers != [] {
      var init, w := workers[..|workers|-1], workers[|workers|-1];
      TotalSplit(init);
      assert Holds(w) == InFlight(w) + FailedJob(w) + DroppedJob(w);
      hide InFlight, FailedJob, DroppedJob, Holds;
      Regroup(Total(InFlight, init), Total(FailedJob, init), Total(DroppedJob, init), InFlight(w), FailedJob(w), DroppedJob(w));
    }
  }

  lemma Regroup(a: Jobs, b: Jobs, c: Jobs, x: Jobs, y: Jobs, z: Jobs)
    ensures (a + b + c) + (x + y + z) == (a + x) + (b + y) + (c + z)
  {
  }

  function Accounted(s: State): Jobs {
    multiset(s.queue) + Total(Holds, s.workers) + multiset(s.mirrored)
  }

  /** What leaves one place arrives in another. */
  lemma Rebalance(q: Jobs, t: Jobs, m: Jobs, q': Jobs, t': Jobs, m': Jobs, h: Jobs, h': Jobs)
    requires t' + h == t + h' && q + m + h == q' + m' + h'
    ensures q' + t' + m' == q + t + m
  {
    forall x: Component ensures (q' + t' + m')[x] == (q + t + m)[x] {
      assert (t' + h)[x] == (t + h')[x] && (q + m + h)[x] == (q' + m' + h')[x];
    }
  }

  lemma Recount(s: State, s': State, k: nat)
    requires k < |s.workers| && k < |s'.workers| && s'.workers == s.workers[k := s'.workers[k]]
    requires multiset(s.queue) + multiset(s.mirrored) + Holds(s.workers[k])
          == multiset(s'.queue) + multiset(s'.mirrored) + Holds(s'.workers[k])
    ensures Accounted(s') == Accounted(s)
  {
    TotalUpdate(Holds, s.workers, k, s'.workers[k]);
    Rebalance(multiset(s.queue), Total(Holds, s.workers), multiset(s.mirrored),
              multiset(s'.queue), Total(Holds, s'.workers), multiset(s'.mirrored), Holds(s.workers[k]), Holds(s'.workers[k]));
  }

  /* ---- what every step keeps ---- */

  /** Every job is in exactly one place, and every failed pull in the channel. */
  ghost predicate Counted(c: Config, s: State) {
    Accounted(s) == multiset(c.jobs) && multiset(s.errors) == Total(FailedJob, s.workers)
  }

  ghost predicate AllMirrored(c: Config, mirrored: seq<Component>, store: Blobs.Files) {
    forall i :: 0 <= i < |mirrored| ==> Named(mirrored[i].ref) && Clone.Complete(c.Image(mirrored[i].ref), store)
  }

  ghost predicate Placed(c: Config, s: State) {
    && |s.workers| == c.Workers()
    && AllMirrored(c, s.mirrored, s.store)
    && (forall k :: 0 <= k < |s.workers| && s.workers[k].Cancelled? ==> s.cancelled)
    && (forall k :: 0 <= k < |s.workers| && s.workers[k].Drained? ==> s.queue == [])
    && (s.main.Returned? ==>
          (forall k :: 0 <= k < |s.workers| ==> Gone(s.workers[k])) && (s.main.err.None? <==> s.errors == []))
  }

  ghost predicate Inv(c: Config, s: State) {
    Counted(c, s) && Placed(c, s)
  }

  lemma InitInv(c: Config, cancelled: bool, store: Blobs.Files)
    ensures Inv(c, Init(c, cancelled, store))
  {
    var s := Init(c, cancelled, store);
    TotalEmpty(Holds, s.workers);
    TotalEmpty(FailedJob, s.workers);
  }

  /** As many workers as configured, or four by default. */
  lemma WorkersAre(c: Config, s: State)
    requires Inv(c, s)
    ensures |s.workers| == if c.concurrency <= 0 then 4 else c.concurrency
  {
  }

  lemma MirroredGrows(c: Config, mirrored: seq<Component>, from: Blobs.Files, to: Blobs.Files)
    requires AllMirrored(c, mirrored, from) && Barrier.Grows(c.sha, from, to)
    ensures AllMirrored(c, mirrored, to)
  {
    forall i | 0 <= i < |mirrored| ensures Clone.Complete(c.Image(mirrored[i].ref), to) {
      Clone.CompleteGrows(c.Image(mirrored[i].ref), from, to);
    }
  }

  lemma OtherInv(c: Config, s: State, s': State)
    requires Inv(c, s) && Other(c, s, s')
    ensures Inv(c, s')
  {
    MirroredGrows(c, s.mirrored, s.store, s'.store);
  }

  lemma ReceiveCounted(c: Config, s: State, s': State, k: nat)
    requires Counted(c, s) && Receive(c, s, s', k)
    ensures Counted(c, s')
  {
    assert s.queue == [s.queue[0]] + s'.queue;
    Recount(s, s', k);
    SameTotal(FailedJob, s.workers, k, s'.workers[k]);
  }

  lemma KeepsJob(c: Config, s: State, s': State, k: nat)
    requires Drain(c, s, s', k) || Check(c, s, s', k) || PullFails(c, s, s', k)
    ensures s'.workers == s.workers[k := s'.workers[k]] && s'.queue == s.queue && s'.mirrored == s.mirrored
    ensures Holds(s'.workers[k]) == Holds(s.workers[k]) && FailedJob(s'.workers[k]) == FailedJob(s.workers[k])
    ensures s'.errors == s.errors
  {
  }

  lemma CheckCounted(c: Config, s: State, s': State, k: nat)
    requires Counted(c, s) && (Drain(c, s, s', k) || Check(c, s, s', k) || PullFails(c, s, s', k))
    ensures Counted(c, s')
  {
    KeepsJob(c, s, s', k);
    hide Holds, FailedJob;
    Recount(s, s', k);
    SameTotal(FailedJob, s.workers, k, s'.workers[k]);
  }

  lemma PullCounted(c: Config, s: State, s': State, k: nat)
    requires Counted(c, s) && PullOk(c, s, s', k)
    ensures Counted(c, s')
  {
    assert multiset(s.mirrored + [s.workers[k].job]) == multiset(s.mirrored) + multiset{s.workers[k].job};
    Recount(s, s', k);
    SameTotal(FailedJob, s.workers, k, s'.workers[k]);
  }

  lemma ReportCounted(c: Config, s: State, s': State, k: nat)
    requires Inv(c, s) && Report(c, s, s', k)
    ensures Counted(c, s')
  {
    Recount(s, s', k);
    TotalUpdate(FailedJob, s.workers, k, s'.workers[k]);
    ErrorsFit(c, s, k);
  }

  /** The `default` of the error select is never taken: no error is lost. */
  lemma ErrorsFit(c: Config, s: State, k: nat)
    requires Inv(c, s) && k < |s.workers| && !s.workers[k].Failed?
    ensures |s.errors| < c.Workers()
  {
    TotalRoom(FailedJob, s.workers, k);
    assert |multiset(s.errors)| == |s.errors|;
  }

  /** What `Clone` guarantees of a finished pull. */
  lemma PullCompletes(c: Config, s: State, s': State, k: nat)
    requires PullOk(c, s, s', k)
    ensures Named(s.workers[k].job.ref) && Clone.Complete(c.Image(s.workers[k].job.ref), s'.store)
  {
    var ref := s.workers[k].job.ref;
    var pull :| Pulled(c, ref, pull, s.store, s'.store);
    Clone.FinishedImpliesComplete(c.Image(ref), pull, |pull| - 1);
  }

  /** Every run of `PullComponentImage` from the pool's store, however it ends, is
      a step of its worker. */
  lemma PullIsStep(c: Config, s: State, k: nat, pull: seq<Clone.State>) returns (s': State)
    requires k < |s.workers| && s.workers[k].Pulling?
    requires Clone.IsRun(c.Image(s.workers[k].job.ref), pull) && pull[0].barrier.store == s.store
    requires pull[|pull|-1].progress.Stopped? || Clone.Finished(c.Image(s.workers[k].job.ref), pull[|pull|-1])
    requires Named(s.workers[k].job.ref)
    ensures WorkerStep(c, s, s', k) && s'.store == pull[|pull|-1].barrier.store
    ensures s'.workers[k].Idle? <==> !pull[|pull|-1].progress.Stopped?
  {
    var ref, end := s.workers[k].job.ref, pull[|pull|-1];
    Clone.RunGrows(c.Image(ref), pull, |pull| - 1);
    hide Clone.IsRun;
    if end.progress.Stopped? {
      s' := s.(workers := s.workers[k := Reporting(s.workers[k].job)], store := end.barrier.store);
      assert PullFails(c, s, s', k);
    } else {
      s' := s.(workers := s.workers[k := Idle], mirrored := s.mirrored + [s.workers[k].job], store := end.barrier.store);
      assert Pulled(c, ref, pull, s.store, s'.store);
      assert PullOk(c, s, s', k);
    }
  }

  lemma WorkerPlaced(c: Config, s: State, s': State, k: nat)
    requires Placed(c, s) && WorkerStep(c, s, s', k)
    ensures Placed(c, s')
  {
    WorkerMirrored(c, s, s', k);
    assert s.main.Returned? ==> Gone(s.workers[k]);
    hide Pulled, AllMirrored, Barrier.Grows;
  }

  lemma WorkerMirrored(c: Config, s: State, s': State, k: nat)
    requires AllMirrored(c, s.mirrored, s.store) && WorkerStep(c, s, s', k)
    ensures AllMirrored(c, s'.mirrored, s'.store)
  {
    if PullOk(c, s, s', k) {
      PullCompletes(c, s, s', k);
      MirroredGrows(c, s.mirrored, s.store, s'.store);
    } else if PullFails(c, s, s', k) {
      MirroredGrows(c, s.mirrored, s.store, s'.store);
    }
    hide Pulled, Named, Clone.Complete, Barrier.Grows;
  }

  lemma NextInv(c: Config, s: State, s': State)
    requires Inv(c, s) && Next(c, s, s')
    ensures Inv(c, s')
  {
    if !Finish(c, s, s') {
      var k: nat :| WorkerStep(c, s, s', k);
      WorkerPlaced(c, s, s', k);
      if Receive(c, s, s', k) {
        ReceiveCounted(c, s, s', k);
      } else if Report(c, s, s', k) {
        ReportCounted(c, s, s', k);
      } else if Drain(c, s, s', k) || Check(c, s, s', k) || PullFails(c, s, s', k) {
        CheckCounted(c, s, s', k);
      } else {
        PullCounted(c, s, s', k);
      }
    }
  }

  /** queued + in flight + mirrored + failed + dropped = total, with every
      failure in the error channel */
  lemma Conservation(c: Config, s: State)
    requires Inv(c, s)
    ensures |s.queue| + |Total(InFlight, s.workers)| + |s.mirrored| + |s.errors| + |Total(DroppedJob, s.workers)| == |c.jobs|
  {
    TotalSplit(s.workers);
    var i, f, d := Total(InFlight, s.workers), Total(FailedJob, s.workers), Total(DroppedJob, s.workers);
    Cardinality(multiset(s.queue), i, multiset(s.mirrored), f, d);
    assert |multiset(s.queue)| == |s.queue| && |multiset(s.mirrored)| == |s.mirrored|;
    assert |multiset(s.errors)| == |s.errors| && |multiset(c.jobs)| == |c.jobs|;
  }

  lemma Cardinality(q: Jobs, i: Jobs, m: Jobs, f: Jobs, d: Jobs)
    ensures |q + (i + f + d) + m| == |q| + |i| + |m| + |f| + |d|
  {
  }

  /* ---- progress ---- */

  function Weight(w: Worker): nat {
    match w case Idle => 1 case Got(_) => 4 case Pulling(_) => 3 case Reporting(_) => 1 case _ => 0
  }

  function TotalWeight(workers: seq<Worker>): nat {
    if workers == [] then 0 else TotalWeight(workers[..|workers|-1]) + Weight(workers[|workers|-1])
  }

  lemma {:induction false} WeightUpdate(workers: seq<Worker>, k: nat, w: Worker)
    requires k < |workers|
    ensures TotalWeight(workers[k := w]) == TotalWeight(workers) + Weight(w) - Weight(workers[k])
  {
    var init := workers[..|workers|-1];
    if k == |workers| - 1 {
      assert workers[k := w][..|workers|-1] == init;
    } else {
      assert workers[k := w][..|workers|-1] == init[k := w];
      WeightUpdate(init, k, w);
    }
  }

  function Remaining(s: State): nat {
    4 * |s.queue| + TotalWeight(s.workers) + if s.main.Waiting? then 1 else 0
  }

  lemma WorkerStepCounts(c: Config, s: State, s': State, k: nat)
    requires WorkerStep(c, s, s', k)
    ensures Remaining(s') < Remaining(s)
  {
    assert s'.workers == s.workers[k := s'.workers[k]];
    WeightUpdate(s.workers, k, s'.workers[k]);
    hide TotalWeight;
    assert TotalWeight(s'.workers) == TotalWeight(s.workers) + Weight(s'.workers[k]) - Weight(s.workers[k]);
  }

  /** Every step of the pool's own comes closer to the end. */
  lemma EveryStepCounts(c: Config, s: State, s': State)
    requires Next(c, s, s')
    ensures Remaining(s') < Remaining(s)
  {
    if !Finish(c, s, s') {
      var k: nat :| WorkerStep(c, s, s', k);
      WorkerStepCounts(c, s, s', k);
    }
  }

  /** Until `MirrorComponents` has returned, somebody can move. */
  lemma NoDeadlock(c: Config, s: State) returns (s': State)
    requires s.main.Waiting?
    ensures Next(c, s, s') && s'.store == s.store
  {
    if k: nat :| k < |s.workers| && !Gone(s.workers[k]) {
      var w := s.workers[k];
      s' := if w.Idle? && s.queue == [] then s.(workers := s.workers[k := Drained])
            else if w.Idle? then s.(workers := s.workers[k := Got(s.queue[0])], queue := s.queue[1..])
            else if w.Got? then s.(workers := s.workers[k := if s.cancelled then Cancelled(w.job) else Pulling(w.job)])
            else if w.Pulling? then s.(workers := s.workers[k := Reporting(w.job)])
            else s.(workers := s.workers[k := Failed(w.job)],
                    errors := if |s.errors| < c.Workers() then s.errors + [w.job] else s.errors);
      assert WorkerStep(c, s, s', k);
    } else {
      s' := s.(main := Returned(if s.errors == [] then None else Some(s.errors[0])));
      assert Finish(c, s, s');
    }
  }

  /* ---- whole runs ---- */

  ghost predicate IsRun(c: Config, run: seq<State>) {
    && run != [] && run[0] == Init(c, run[0].cancelled, run[0].store)
    && forall i :: 0 <= i < |run| - 1 ==> Next(c, run[i], run[i+1]) || Other(c, run[i], run[i+1])
  }

  lemma {:induction false} RunInv(c: Config, run: seq<State>, i: nat)
    requires IsRun(c, run) && i < |run|
    ensures Inv(c, run[i])
  {
    if i == 0 {
      InitInv(c, run[0].cancelled, run[0].store);
    } else {
      RunInv(c, run, i - 1);
      if Next(c, run[i-1], run[i]) {
        NextInv(c, run[i-1], run[i]);
      } else {
        OtherInv(c, run[i-1], run[i]);
      }
    }
  }

  ghost function OwnSteps(c: Config, run: seq<State>, i: nat): nat
    requires i < |run|
  {
    if i == 0 then 0 else OwnSteps(c, run, i - 1) + if Next(c, run[i-1], run[i]) then 1 else 0
  }

  /** Over every interleaving the pool takes a bounded number of steps, and when
      none is left, `MirrorComponents` has returned. */
  lemma {:induction false} EveryRunReturns(c: Config, run: seq<State>, i: nat)
    requires IsRun(c, run) && i < |run|
    ensures OwnSteps(c, run, i) + Remaining(run[i]) <= Remaining(run[0])
    ensures (forall s' :: !Next(c, run[i], s')) ==> run[i].main.Returned?
  {
    if run[i].main.Waiting? {
      var s' := NoDeadlock(c, run[i]);
    }
    if i > 0 {
      EveryRunReturns(c, run, i - 1);
      if Next(c, run[i-1], run[i]) {
        EveryStepCounts(c, run[i-1], run[i]);
      }
    }
  }

  /** The result is nil exactly if no pull failed, and every component was pulled
      exactly once exactly if no pull failed and no worker saw the cancellation. */
  lemma MirrorOutcome(c: Config, run: seq<State>, i: nat)
    requires IsRun(c, run) && i < |run| && run[i].main.Returned?
    ensures run[i].main.err.None? <==> forall k :: 0 <= k < |run[i].workers| ==> !run[i].workers[k].Failed?
    ensures multiset(run[i].mirrored) == multiset(c.jobs) <==>
      forall k :: 0 <= k < |run[i].workers| ==> run[i].workers[k].Drained?
    ensures run[i].main.err.None? && !run[i].cancelled ==> multiset(run[i].mirrored) == multiset(c.jobs)
  {
    RunInv(c, run, i);
    ErrorsShow(c, run[i]);
    if forall k :: 0 <= k < |run[i].workers| ==> run[i].workers[k].Drained? {
      AllDrained(c, run[i]);
    } else {
      var k :| 0 <= k < |run[i].workers| && !run[i].workers[k].Drained?;
      SomeLost(c, run[i], k);
    }
  }

  lemma ErrorsShow(c: Config, s: State)
    requires Inv(c, s)
    ensures s.errors == [] <==> forall k :: 0 <= k < |s.workers| ==> !s.workers[k].Failed?
  {
    if s.errors == [] {
      forall k | 0 <= k < |s.workers| ensures !s.workers[k].Failed? {
        TotalContains(FailedJob, s.workers, k);
      }
    } else {
      assert s.errors[0] in multiset(s.errors);
      if forall k :: 0 <= k < |s.workers| ==> !s.workers[k].Failed? {
        TotalEmpty(FailedJob, s.workers);
      }
    }
  }

  lemma AllDrained(c: Config, s: State)
    requires Inv(c, s) && forall k :: 0 <= k < |s.workers| ==> s.workers[k].Drained?
    ensures multiset(s.mirrored) == multiset(c.jobs)
  {
    TotalEmpty(Holds, s.workers);
    assert s.workers[0].Drained?;
  }

  lemma FailureCounted(c: Config, s: State, k: nat)
    requires Inv(c, s) && k < |s.workers| && s.workers[k].Failed?
    ensures |s.errors| > 0
  {
    TotalContains(FailedJob, s.workers, k);
    assert s.workers[k].job in multiset(s.errors);
  }

  lemma DropCounted(workers: seq<Worker>, k: nat)
    requires k < |workers| && workers[k].Cancelled?
    ensures |Total(DroppedJob, workers)| > 0
  {
    TotalContains(DroppedJob, workers, k);
    assert workers[k].job in Total(DroppedJob, workers);
  }

  lemma SizesDiffer(a: seq<Component>, b: seq<Component>)
    requires |a| < |b|
    ensures multiset(a) != multiset(b)
  {
    assert |multiset(a)| == |a| && |multiset(b)| == |b|;
  }

  lemma SomeLost(c: Config, s: State, k: nat)
    requires Inv(c, s) && k < |s.workers| && (s.workers[k].Failed? || s.workers[k].Cancelled?)
    ensures |s.mirrored| < |c.jobs|
    ensures multiset(s.mirrored) != multiset(c.jobs)
  {
    Conservation(c, s);
    if s.workers[k].Failed? {
      FailureCounted(c, s, k);
    } else {
      DropCounted(s.workers, k);
    }
    SizesDiffer(s.mirrored, c.jobs);
    hide Inv;
  }

  /** A nil result without cancellation: every component is complete in the store. */
  lemma MirroredImpliesComplete(c: Config, run: seq<State>, i: nat)
    requires IsRun(c, run) && i < |run| && run[i].main == Returned(None) && !run[i].cancelled
    ensures forall j :: 0 <= j < |c.jobs| ==>
      ParseImageRef(c.jobs[j].ref).repo != "" && ParseImageRef(c.jobs[j].ref).ref != ""
      && Clone.Complete(c.Image(c.jobs[j].ref), run[i].store)
  {
    RunInv(c, run, i);
    MirrorOutcome(c, run, i);
    forall j | 0 <= j < |c.jobs|
      ensures Named(c.jobs[j].ref) && Clone.Complete(c.Image(c.jobs[j].ref), run[i].store)
    {
      assert c.jobs[j] in multiset(run[i].mirrored);
    }
  }

  /** No pull has begun. */
  predicate Untouched(s: State) {
    && s.cancelled && s.mirrored == [] && s.errors == []
    && (forall k :: 0 <= k < |s.workers| ==> !s.workers[k].Pulling? && !s.workers[k].Reporting? && !s.workers[k].Failed?)
    && (s.main.Returned? ==> s.main.err.None?)
  }

  /** With a context that is cancelled from the start no component is mirrored, no
      error is sent, and any result is nil, whatever the number of workers. */
  lemma {:induction false} CancelledMirrorReturnsNil(c: Config, run: seq<State>, i: nat)
    requires IsRun(c, run) && run[0].cancelled && i < |run|
    ensures Untouched(run[i])
  {
    if i > 0 {
      CancelledMirrorReturnsNil(c, run, i - 1);
      assert Next(c, run[i-1], run[i]) || Other(c, run[i-1], run[i]);
      hide IsRun, Next, Untouched, Barrier.Grows;
      if Next(c, run[i-1], run[i]) {
        UntouchedStep(c, run[i-1], run[i]);
      } else {
        UntouchedByOthers(c, run[i-1], run[i]);
      }
    }
  }

  lemma UntouchedByOthers(c: Config, s: State, s': State)
    requires Untouched(s) && Other(c, s, s')
    ensures Untouched(s')
  {
  }

  lemma UntouchedStep(c: Config, s: State, s': State)
    requires Untouched(s) && Next(c, s, s')
    ensures Untouched(s') && s'.store == s.store
  {
    if !Finish(c, s, s') {
      var k: nat :| WorkerStep(c, s, s', k);
    }
  }

  /** The pool left alone comes to its end; nothing need be added to the store. */
  lemma {:induction false} RunToEnd(c: Config, run: seq<State>) returns (r: seq<State>)
    requires IsRun(c, run)
    ensures IsRun(c, r) && r[0] == run[0] && r[|r|-1].main.Returned?
    ensures r[|r|-1].store == run[|run|-1].store
    decreases Remaining(run[|run|-1])
  {
    var last := run[|run|-1];
    if last.main.Returned? {
      r := run;
    } else {
      var s' := NoDeadlock(c, last);
      EveryStepCounts(c, last, s');
      r := RunToEnd(c, run + [s']);
    }
  }

  /** And there is such a run from every store, with the store left as it was. */
  lemma CancelledRun(c: Config, store: Blobs.Files) returns (run: seq<State>)
    ensures IsRun(c, run) && run[0].cancelled && run[0].store == run[|run|-1].store == store
    ensures run[|run|-1].main == Returned(None)
  {
    run := RunToEnd(c, [Init(c, true, store)]);
    CancelledMirrorReturnsNil(c, run, |run| - 1);
  }

  /* ---- runs that mirror everything ---- */

  /** Upstream can serve what every reference leads to. */
  ghost predicate CanMirror(c: Config) {
    forall x :: x in c.jobs ==> Named(x.ref) && Clone.CanFinish(c.Image(x.ref))
  }

  predicate Sound(c: Config, w: Worker) {
    w.Idle? || w.Drained? || ((w.Got? || w.Pulling?) && w.job in c.jobs)
  }

  /** Nothing has gone wrong, and every job in work is one of the given ones. */
  ghost predicate Smooth(c: Config, s: State) {
    && !s.cancelled && s.errors == [] && Blobs.ContentAddressed(c.sha, s.store)
    && (forall x :: x in s.queue ==> x in c.jobs)
    && (forall k :: 0 <= k < |s.workers| ==> Sound(c, s.workers[k]))
    && (s.main.Returned? ==> s.main.err.None?)
  }

  lemma SmoothPull(c: Config, s: State, k: nat, now: int) returns (s': State)
    requires Smooth(c, s) && CanMirror(c) && k < |s.workers| && s.workers[k].Pulling?
    ensures WorkerStep(c, s, s', k) && Smooth(c, s')
  {
    var j := c.Image(s.workers[k].job.ref);
    var pull, _ := Clone.SomeRunFinishes(j, s.store, NOTHING, now);
    Clone.RunGrows(j, pull, |pull| - 1);
    s' := s.(workers := s.workers[k := Idle], mirrored := s.mirrored + [s.workers[k].job],
             store := pull[|pull|-1].barrier.store);
    assert Pulled(c, s.workers[k].job.ref, pull, s.store, s'.store);
    assert PullOk(c, s, s', k);
  }

  lemma SmoothStep(c: Config, s: State, now: int) returns (s': State)
    requires Smooth(c, s) && CanMirror(c) && s.main.Waiting?
    ensures Next(c, s, s') && Smooth(c, s')
  {
    if k: nat :| k < |s.workers| && !Gone(s.workers[k]) {
      var w := s.workers[k];
      if w.Pulling? {
        s' := SmoothPull(c, s, k, now);
      } else {
        s' := if w.Idle? && s.queue == [] then s.(workers := s.workers[k := Drained])
              else if w.Idle? then s.(workers := s.workers[k := Got(s.queue[0])], queue := s.queue[1..])
              else s.(workers := s.workers[k := Pulling(w.job)]);
        assert WorkerStep(c, s, s', k);
      }
    } else {
      s' := s.(main := Returned(None));
      assert Finish(c, s, s');
    }
  }

  ghost predicate OwnRun(c: Config, run: seq<State>) {
    run != [] && forall i :: 0 <= i < |run| - 1 ==> Next(c, run[i], run[i+1])
  }

  lemma OwnStep(c: Config, run: seq<State>, s: State)
    requires OwnRun(c, run) && Next(c, run[|run|-1], s)
    ensures OwnRun(c, run + [s])
  {
    hide Next;
  }

  lemma {:induction false} SmoothRun(c: Config, run: seq<State>, now: int) returns (r: seq<State>)
    requires OwnRun(c, run) && Smooth(c, run[|run|-1]) && CanMirror(c)
    ensures OwnRun(c, r) && r[0] == run[0] && r[|r|-1].main.Returned? && Smooth(c, r[|r|-1])
    decreases Remaining(run[|run|-1])
  {
    var last := run[|run|-1];
    if last.main.Returned? {
      r := run;
    } else {
      var s' := SmoothStep(c, last, now);
      EveryStepCounts(c, last, s');
      OwnStep(c, run, s');
      hide Next, Smooth, CanMirror, Remaining, OwnRun;
      assert (run + [s'])[|run|] == s';
      r := SmoothRun(c, run + [s'], now);
    }
  }

  /** From `store` to a nil result, never cancelled and with no other activity. */
  ghost predicate Mirrors(c: Config, store: Blobs.Files, run: seq<State>) {
    && OwnRun(c, run) && IsRun(c, run) && run[0] == Init(c, false, store)
    && run[|run|-1].main == Returned(None) && !run[|run|-1].cancelled
  }

  /** Left to itself the pool mirrors every component. */
  lemma SomeRunMirrors(c: Config, store: Blobs.Files, now: int) returns (run: seq<State>)
    requires CanMirror(c) && Blobs.ContentAddressed(c.sha, store)
    ensures Mirrors(c, store, run) && multiset(run[|run|-1].mirrored) == multiset(c.jobs)
    ensures Blobs.ContentAddressed(c.sha, run[|run|-1].store) && store.Keys <= run[|run|-1].store.Keys
    ensures forall x :: x in c.jobs ==> Clone.Complete(c.Image(x.ref), run[|run|-1].store)
  {
    run := SmoothRun(c, [Init(c, false, store)], now);
    StoreGrows(c, run, |run| - 1);
    MirrorOutcome(c, run, |run| - 1);
    MirroredImpliesComplete(c, run, |run| - 1);
    forall x | x in c.jobs ensures Clone.Complete(c.Image(x.ref), run[|run|-1].store) {
      var j :| 0 <= j < |c.jobs| && c.jobs[j] == x;
    }
  }

  /** Over a run no blob is lost, and all hash to their names. */
  lemma {:induction false} StoreGrows(c: Config, run: seq<State>, i: nat)
    requires IsRun(c, run) && i < |run|
    ensures Barrier.Grows(c.sha, run[0].store, run[i].store)
  {
    if i > 0 {
      StoreGrows(c, run, i - 1);
      if Next(c, run[i-1], run[i]) && !Finish(c, run[i-1], run[i]) {
        var k: nat :| WorkerStep(c, run[i-1], run[i], k);
      }
    }
  }

  /** The pool can mirror from a store exactly if upstream can serve every job. */
  lemma CanMirrorExactly(c: Config, store: Blobs.Files)
    requires Blobs.ContentAddressed(c.sha, store)
    ensures CanMirror(c) <==> exists run :: Mirrors(c, store, run)
  {
    if CanMirror(c) {
      var run := SomeRunMirrors(c, store, 0);
    }
    if run: seq<State> :| Mirrors(c, store, run) {
      StoreGrows(c, run, |run| - 1);
      MirroredImpliesComplete(c, run, |run| - 1);
      forall x | x in c.jobs ensures Named(x.ref) && Clone.CanFinish(c.Image(x.ref)) {
        var j :| 0 <= j < |c.jobs| && c.jobs[j] == x;
        Clone.CompleteIsObtainable(c.Image(x.ref), run[|run|-1].store);
      }
    }
  }
}
