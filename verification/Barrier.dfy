/** The semaphore that `Clone` and `PullComponentImage` share
    (internal/releases/cloner.go): one goroutine per layer behind a buffered
    channel of `conc` slots, an error channel with room for every layer, and a
    main goroutine that waits by filling all slots itself.
    Goroutines interleave at channel operations and at accesses to the blob
    store; other activity may add blobs at any moment. */
module Barrier {
  import opened Digests
  import opened Blobs
  import opened Seqs

  datatype Config = Config(sha: Bytes -> string, layers: seq<string>, layerConcurrency: int) {
    /** `if conc <= 0 { conc = 10 }` */
    function Slots(): (n: nat)
      ensures n >= 1
    {
      if layerConcurrency <= 0 then 10 else layerConcurrency
    }
  }

  datatype Task =
    | Idle              // not started
    | Working           // parsing the digest, fetching, storing
    | Failing           // about to send on the error channel
    | Leaving(ok: bool) // about to run the deferred release
    | Done(ok: bool)

  datatype Main = Spawn(i: nat) | Fill(j: nat) | Poll | Return(ok: bool)

  /** `tokens` are the elements in the semaphore channel, `errors` the layers
      whose errors are in the error channel. */
  datatype State = State(main: Main, tasks: seq<Task>, tokens: nat, errors: seq<nat>, store: Files)

  function Init(c: Config, store: Files): State {
    State(Spawn(0), seq(|c.layers|, _ => Idle), 0, [], store)
  }

  predicate Active(t: Task) {
    t.Working? || t.Failing? || t.Leaving?
  }

  function CountActive(tasks: seq<Task>): nat {
    if tasks == [] then 0 else CountActive(tasks[..|tasks|-1]) + if Active(tasks[|tasks|-1]) then 1 else 0
  }

  /** The slots the main goroutine has taken for itself. */
  function Filled(c: Config, main: Main): nat {
    match main case Spawn(_) => 0 case Fill(j) => j case _ => c.Slots()
  }

  /* ---- steps ---- */

  /** `sem <- struct{}{}; go func...` for the next layer. */
  predicate SpawnStep(c: Config, s: State, s': State) {
    && s.main.Spawn? && s.main.i < |s.tasks| && s.tokens < c.Slots()
    && s' == s.(main := Spawn(s.main.i + 1), tasks := s.tasks[s.main.i := Working], tokens := s.tokens + 1)
  }

  predicate SpawnedStep(c: Config, s: State, s': State) {
    s.main.Spawn? && s.main.i == |s.tasks| && s' == s.(main := Fill(0))
  }

  predicate FillStep(c: Config, s: State, s': State) {
    && s.main.Fill? && s.main.j < c.Slots() && s.tokens < c.Slots()
    && s' == s.(main := Fill(s.main.j + 1), tokens := s.tokens + 1)
  }

  predicate FilledStep(c: Config, s: State, s': State) {
    s.main.Fill? && s.main.j == c.Slots() && s' == s.(main := Poll)
  }

  /** `select { case err := <-errCh: return err; default: }` */
  predicate PollStep(c: Config, s: State, s': State) {
    && s.main.Poll?
    && s' == s.(main := Return(s.errors == []), errors := if s.errors == [] then [] else s.errors[1..])
  }

  /** The layer is stored (or already was) under its digest. */
  ghost predicate SyncStep(c: Config, s: State, s': State, k: nat) {
    && k < |s.tasks| && k < |c.layers| && s.tasks[k] == Working && Valid(c.layers[k])
    && s'.tasks == s.tasks[k := Leaving(true)]
    && s' == s.(tasks := s'.tasks, store := s'.store)
    && ((Has(s.store, c.layers[k]) && s'.store == s.store)
        || exists data :: c.sha(data) == c.layers[k] && s'.store == s.store[BlobPath(c.layers[k]) := data])
  }

  /** Bad digest, failed request, or data that does not verify. */
  predicate FailStep(c: Config, s: State, s': State, k: nat) {
    k < |s.tasks| && s.tasks[k] == Working && s' == s.(tasks := s.tasks[k := Failing])
  }

  /** `errCh <- err` needs room in the channel. */
  predicate SendStep(c: Config, s: State, s': State, k: nat) {
    && k < |s.tasks| && s.tasks[k] == Failing && |s.errors| < |c.layers|
    && s' == s.(tasks := s.tasks[k := Leaving(false)], errors := s.errors + [k])
  }

  /** `<-sem` */
  predicate ReleaseStep(c: Config, s: State, s': State, k: nat) {
    && k < |s.tasks| && s.tasks[k].Leaving? && s.tokens > 0
    && s' == s.(tasks := s.tasks[k := Done(s.tasks[k].ok)], tokens := s.tokens - 1)
  }

  ghost predicate MainStep(c: Config, s: State, s': State) {
    SpawnStep(c, s, s') || SpawnedStep(c, s, s') || FillStep(c, s, s') || FilledStep(c, s, s') || PollStep(c, s, s')
  }

  ghost predicate TaskStep(c: Config, s: State, s': State, k: nat) {
    SyncStep(c, s, s', k) || FailStep(c, s, s', k) || SendStep(c, s, s', k) || ReleaseStep(c, s, s', k)
  }

  ghost predicate Next(c: Config, s: State, s': State) {
    MainStep(c, s, s') || exists k: nat :: TaskStep(c, s, s', k)
  }

  /** Other activity: blobs are added, none is deleted, all hash to their names. */
  ghost predicate Grows(sha: Bytes -> string, a: Files, b: Files) {
    a.Keys <= b.Keys && (ContentAddressed(sha, a) ==> ContentAddressed(sha, b))
  }

  ghost predicate Other(c: Config, s: State, s': State) {
    Grows(c.sha, s.store, s'.store) && s' == s.(store := s'.store)
  }

  /* ---- what every step keeps ---- */

  ghost predicate LayerThere(c: Config, store: Files, k: nat)
    requires k < |c.layers|
  {
    Valid(c.layers[k]) && Has(store, c.layers[k])
  }

  predicate HasFailed(t: Task) {
    (t.Leaving? || t.Done?) && !t.ok
  }

  predicate HasSucceeded(t: Task) {
    (t.Leaving? || t.Done?) && t.ok
  }

  /** Tokens, goroutines, main goroutine and error channel agree. */
  ghost predicate Counted(c: Config, s: State) {
    && |s.tasks| == |c.layers|
    && s.tokens == CountActive(s.tasks) + Filled(c, s.main) <= c.Slots()
    && (s.main.Spawn? ==> s.main.i <= |s.tasks|)
    && (forall k :: 0 <= k < |s.tasks| ==> (s.tasks[k].Idle? <==> s.main.Spawn? && s.main.i <= k))
    && (!s.main.Return? ==> forall k :: 0 <= k < |s.tasks| ==> (HasFailed(s.tasks[k]) <==> k in s.errors))
    && (forall a, b :: 0 <= a < b < |s.errors| ==> s.errors[a] != s.errors[b])
    && (forall a :: 0 <= a < |s.errors| ==> s.errors[a] < |s.tasks|)
    && (s.main.Return? ==> forall k :: 0 <= k < |s.tasks| ==> s.tasks[k].Done?)
    && (s.main.Return? ==> (s.main.ok <==> forall k :: 0 <= k < |s.tasks| ==> s.tasks[k] == Done(true)))
  }

  /** Every layer that has succeeded is in the store. */
  ghost predicate AllStored(c: Config, s: State)
    requires |s.tasks| == |c.layers|
  {
    && (forall k :: 0 <= k < |s.tasks| && HasSucceeded(s.tasks[k]) ==> LayerThere(c, s.store, k))
    && ContentAddressed(c.sha, s.store)
  }

  ghost predicate Inv(c: Config, s: State) {
    Counted(c, s) && AllStored(c, s)
  }

  lemma {:induction false} CountIdle(tasks: seq<Task>)
    requires forall k :: 0 <= k < |tasks| ==> !Active(tasks[k])
    ensures CountActive(tasks) == 0
  {
    if tasks != [] {
      CountIdle(tasks[..|tasks|-1]);
    }
  }

  lemma {:induction false} CountUpdate(tasks: seq<Task>, k: nat, t: Task)
    requires k < |tasks|
    ensures CountActive(tasks[k := t]) == CountActive(tasks) + (if Active(t) then 1 else 0) - (if Active(tasks[k]) then 1 else 0)
  {
    var init := tasks[..|tasks|-1];
    if k == |tasks| - 1 {
      assert tasks[k := t][..|tasks|-1] == init;
    } else {
      assert tasks[k := t][..|tasks|-1] == init[k := t];
      CountUpdate(init, k, t);
    }
  }

  lemma {:induction false} CountPositive(tasks: seq<Task>, k: nat)
    requires k < |tasks| && Active(tasks[k])
    ensures CountActive(tasks) > 0
  {
    if k < |tasks| - 1 {
      CountPositive(tasks[..|tasks|-1], k);
    }
  }

  lemma {:induction false} SomeActive(tasks: seq<Task>) returns (k: nat)
    requires CountActive(tasks) > 0
    ensures k < |tasks| && Active(tasks[k])
  {
    if Active(tasks[|tasks|-1]) {
      k := |tasks| - 1;
    } else {
      k := SomeActive(tasks[..|tasks|-1]);
    }
  }

  lemma InitInv(c: Config, store: Files)
    requires ContentAddressed(c.sha, store)
    ensures Inv(c, Init(c, store))
  {
    CountIdle(Init(c, store).tasks);
  }

  lemma OtherInv(c: Config, s: State, s': State)
    requires Inv(c, s) && Other(c, s, s')
    ensures Inv(c, s')
  {
    forall k | 0 <= k < |s.tasks| && HasSucceeded(s.tasks[k]) ensures LayerThere(c, s'.store, k) {
      assert LayerThere(c, s.store, k);
    }
  }

  lemma MainInv(c: Config, s: State, s': State)
    requires Inv(c, s) && MainStep(c, s, s')
    ensures Inv(c, s')
  {
    if SpawnStep(c, s, s') {
      CountUpdate(s.tasks, s.main.i, Working);
    } else if PollStep(c, s, s') {
      PollInv(c, s, s');
    }
  }

  lemma PollInv(c: Config, s: State, s': State)
    requires Inv(c, s) && PollStep(c, s, s')
    ensures Inv(c, s')
  {
    AllDone(c, s);
    if s.errors == [] {
      forall k | 0 <= k < |s.tasks| ensures s.tasks[k] == Done(true) {
        assert k !in s.errors;
      }
    } else {
      assert s.errors[0] in s.errors;
    }
  }

  /** The barrier: once every slot is filled, every layer goroutine is through. */
  lemma AllDone(c: Config, s: State)
    requires Inv(c, s) && (s.main == Fill(c.Slots()) || s.main.Poll? || s.main.Return?)
    ensures forall k :: 0 <= k < |s.tasks| ==> s.tasks[k].Done?
  {
    forall k | 0 <= k < |s.tasks| ensures s.tasks[k].Done? {
      if Active(s.tasks[k]) {
        CountPositive(s.tasks, k);
      }
    }
  }

  lemma SyncStored(c: Config, s: State, s': State, k: nat)
    requires Inv(c, s) && SyncStep(c, s, s', k)
    ensures Grows(c.sha, s.store, s'.store) && LayerThere(c, s'.store, k)
  {
    if s'.store != s.store {
      var data :| c.sha(data) == c.layers[k] && s'.store == s.store[BlobPath(c.layers[k]) := data];
      StoredKeeps(c.sha, s.store, c.layers[k], data);
    }
  }

  lemma SyncCounted(c: Config, s: State, s': State, k: nat)
    requires Counted(c, s) && SyncStep(c, s, s', k)
    ensures Counted(c, s')
  {
    CountUpdate(s.tasks, k, Leaving(true));
    hide CountActive, Valid, Has;
  }

  lemma SyncInv(c: Config, s: State, s': State, k: nat)
    requires Inv(c, s) && SyncStep(c, s, s', k)
    ensures Inv(c, s')
  {
    SyncCounted(c, s, s', k);
    SyncStored(c, s, s', k);
    hide Counted, Valid, Has;
    forall i | 0 <= i < |s'.tasks| && HasSucceeded(s'.tasks[i]) ensures LayerThere(c, s'.store, i) {
      if i != k {
        assert HasSucceeded(s.tasks[i]) && LayerThere(c, s.store, i);
      }
    }
  }

  lemma SendInv(c: Config, s: State, s': State, k: nat)
    requires Inv(c, s) && SendStep(c, s, s', k)
    ensures Inv(c, s')
  {
    CountUpdate(s.tasks, k, Leaving(false));
    CountPositive(s.tasks, k);
    forall i | 0 <= i < |s'.tasks| && HasSucceeded(s'.tasks[i]) ensures LayerThere(c, s'.store, i) {
      assert HasSucceeded(s.tasks[i]);
    }
  }

  lemma ReleaseInv(c: Config, s: State, s': State, k: nat)
    requires Inv(c, s) && ReleaseStep(c, s, s', k)
    ensures Inv(c, s')
  {
    CountUpdate(s.tasks, k, Done(s.tasks[k].ok));
    forall i | 0 <= i < |s'.tasks| && HasSucceeded(s'.tasks[i]) ensures LayerThere(c, s'.store, i) {
      assert HasSucceeded(s.tasks[i]);
    }
  }

  lemma FailInv(c: Config, s: State, s': State, k: nat)
    requires Inv(c, s) && FailStep(c, s, s', k)
    ensures Inv(c, s')
  {
    CountUpdate(s.tasks, k, Failing);
    forall i | 0 <= i < |s'.tasks| && HasSucceeded(s'.tasks[i]) ensures LayerThere(c, s'.store, i) {
      assert HasSucceeded(s.tasks[i]);
    }
  }

  lemma NextInv(c: Config, s: State, s': State)
    requires Inv(c, s) && Next(c, s, s')
    ensures Inv(c, s')
    ensures Grows(c.sha, s.store, s'.store)
  {
    if MainStep(c, s, s') {
      MainInv(c, s, s');
    } else {
      var k: nat :| TaskStep(c, s, s', k);
      if SyncStep(c, s, s', k) {
        SyncInv(c, s, s', k);
      } else if FailStep(c, s, s', k) {
        FailInv(c, s, s', k);
      } else if SendStep(c, s, s', k) {
        SendInv(c, s, s', k);
      } else {
        ReleaseInv(c, s, s', k);
      }
    }
  }

  /** No goroutine ever blocks on the error channel. */
  lemma SendNeverBlocks(c: Config, s: State, k: nat)
    requires Inv(c, s) && k < |s.tasks| && s.tasks[k] == Failing
    ensures |s.errors| < |c.layers|
  {
    CountPositive(s.tasks, k);
    assert k !in s.errors;
    DistinctBelow(s.errors + [k], |c.layers|);
  }

  /** The numbers below n, at most n of which are different. */
  function Below(n: nat): (r: set<nat>)
    ensures |r| == n && forall i: nat :: i in r <==> i < n
  {
    if n == 0 then {} else Below(n - 1) + {n - 1}
  }

  lemma DistinctBelow(s: seq<nat>, n: nat)
    requires forall a, b :: 0 <= a < b < |s| ==> s[a] != s[b]
    requires forall a :: 0 <= a < |s| ==> s[a] < n
    ensures |s| <= n
  {
    NoRepeatsCount(s);
    SubsetCount(Elements(s), Below(n));
  }

  /** A goroutine in flight can always take a step. */
  lemma TaskCanStep(c: Config, s: State, k: nat) returns (s': State)
    requires Inv(c, s) && k < |s.tasks| && Active(s.tasks[k])
    ensures TaskStep(c, s, s', k)
  {
    CountPositive(s.tasks, k);
    match s.tasks[k]
    case Working => s' := s.(tasks := s.tasks[k := Failing]);
    case Failing =>
      SendNeverBlocks(c, s, k);
      s' := s.(tasks := s.tasks[k := Leaving(false)], errors := s.errors + [k]);
    case Leaving(ok) => s' := s.(tasks := s.tasks[k := Done(ok)], tokens := s.tokens - 1);
  }

  /** Until the main goroutine has returned, somebody can move. */
  lemma NoDeadlock(c: Config, s: State) returns (s': State)
    requires Inv(c, s) && !s.main.Return?
    ensures Next(c, s, s')
  {
    match s.main
    case Poll =>
      s' := s.(main := Return(s.errors == []), errors := if s.errors == [] then [] else s.errors[1..]);
    case Spawn(i) =>
      if i == |s.tasks| {
        s' := s.(main := Fill(0));
      } else if s.tokens < c.Slots() {
        s' := s.(main := Spawn(i + 1), tasks := s.tasks[i := Working], tokens := s.tokens + 1);
      } else {
        var k := SomeActive(s.tasks);
        s' := TaskCanStep(c, s, k);
      }
    case Fill(j) =>
      if j == c.Slots() {
        s' := s.(main := Poll);
      } else if s.tokens < c.Slots() {
        s' := s.(main := Fill(j + 1), tokens := s.tokens + 1);
      } else {
        var k := SomeActive(s.tasks);
        s' := TaskCanStep(c, s, k);
      }
  }

  /* ---- every step makes progress ---- */

  function Weight(t: Task): nat {
    match t case Idle => 4 case Working => 3 case Failing => 2 case Leaving(_) => 1 case Done(_) => 0
  }

  function TotalWeight(tasks: seq<Task>): nat {
    if tasks == [] then 0 else TotalWeight(tasks[..|tasks|-1]) + Weight(tasks[|tasks|-1])
  }

  lemma {:induction false} WeightUpdate(tasks: seq<Task>, k: nat, t: Task)
    requires k < |tasks|
    ensures TotalWeight(tasks[k := t]) == TotalWeight(tasks) + Weight(t) - Weight(tasks[k])
  {
    var init := tasks[..|tasks|-1];
    if k == |tasks| - 1 {
      assert tasks[k := t][..|tasks|-1] == init;
    } else {
      assert tasks[k := t][..|tasks|-1] == init[k := t];
      WeightUpdate(init, k, t);
    }
  }

  function Remaining(c: Config, s: State): int {
    TotalWeight(s.tasks) + match s.main
      case Spawn(i) => |s.tasks| - i + c.Slots() + 3
      case Fill(j) => c.Slots() - j + 2
      case Poll => 1
      case Return(_) => 0
  }

  lemma TaskStepCounts(c: Config, s: State, s': State, k: nat)
    requires TaskStep(c, s, s', k)
    ensures s'.main == s.main && |s'.tasks| == |s.tasks| && TotalWeight(s'.tasks) < TotalWeight(s.tasks)
  {
    WeightUpdate(s.tasks, k, s'.tasks[k]);
    assert s'.tasks == s.tasks[k := s'.tasks[k]];
  }

  lemma MainStepCounts(c: Config, s: State, s': State)
    requires |s.tasks| == |c.layers| && MainStep(c, s, s')
    requires s.main.Spawn? && s.main.i < |s.tasks| ==> s.tasks[s.main.i].Idle?
    ensures Remaining(c, s') < Remaining(c, s)
  {
    if SpawnStep(c, s, s') {
      WeightUpdate(s.tasks, s.main.i, Working);
    }
  }

  /** Every run of the program's own steps is finite. */
  lemma EveryStepCounts(c: Config, s: State, s': State)
    requires Inv(c, s) && Next(c, s, s')
    ensures 0 <= Remaining(c, s') < Remaining(c, s)
  {
    NextInv(c, s, s');
    if MainStep(c, s, s') {
      MainStepCounts(c, s, s');
    } else {
      var k: nat :| TaskStep(c, s, s', k);
      TaskStepCounts(c, s, s', k);
    }
  }

  /* ---- whole runs ---- */

  ghost predicate IsRun(c: Config, store: Files, run: seq<State>) {
    && run != [] && run[0] == Init(c, store)
    && forall i :: 0 <= i < |run| - 1 ==> Next(c, run[i], run[i+1]) || Other(c, run[i], run[i+1])
  }

  lemma {:induction false} RunInv(c: Config, store: Files, run: seq<State>, i: nat)
    requires IsRun(c, store, run) && ContentAddressed(c.sha, store) && i < |run|
    ensures Inv(c, run[i])
  {
    if i == 0 {
      InitInv(c, store);
    } else {
      RunInv(c, store, run, i - 1);
      if Next(c, run[i-1], run[i]) {
        NextInv(c, run[i-1], run[i]);
      } else {
        OtherInv(c, run[i-1], run[i]);
      }
    }
  }

  /** The steps among the first `i` that are the program's own. */
  ghost function OwnSteps(c: Config, run: seq<State>, i: nat): nat
    requires i < |run|
  {
    if i == 0 then 0 else OwnSteps(c, run, i - 1) + if Next(c, run[i-1], run[i]) then 1 else 0
  }

  /** However the goroutines interleave with each other and with other activity,
      they take a bounded number of steps, and when none of them can take
      another, the barrier is through. */
  lemma {:induction false} EveryRunReturns(c: Config, store: Files, run: seq<State>, i: nat)
    requires IsRun(c, store, run) && ContentAddressed(c.sha, store) && i < |run|
    ensures Remaining(c, run[i]) >= 0 && OwnSteps(c, run, i) + Remaining(c, run[i]) <= Remaining(c, run[0])
    ensures (forall s' :: !Next(c, run[i], s')) ==> run[i].main.Return?
  {
    hide IsRun, Inv, Next, Other, Remaining;
    RunInv(c, store, run, i);
    SomeRemaining(c, run[i]);
    if forall s' :: !Next(c, run[i], s') {
      StuckIsThrough(c, run[i]);
    }
    if i > 0 {
      RunInv(c, store, run, i - 1);
      EveryRunReturns(c, store, run, i - 1);
      RunStep(c, store, run, i - 1);
      if Next(c, run[i-1], run[i]) {
        EveryStepCounts(c, run[i-1], run[i]);
      } else {
        SameRemaining(c, run[i-1], run[i]);
      }
    }
  }

  lemma RunStep(c: Config, store: Files, run: seq<State>, i: nat)
    requires IsRun(c, store, run) && i + 1 < |run|
    ensures Next(c, run[i], run[i+1]) || Other(c, run[i], run[i+1])
  {
  }

  lemma StuckIsThrough(c: Config, s: State)
    requires Inv(c, s) && forall s' :: !Next(c, s, s')
    ensures s.main.Return?
  {
    if !s.main.Return? {
      var s' := NoDeadlock(c, s);
    }
  }

  lemma SomeRemaining(c: Config, s: State)
    requires Inv(c, s)
    ensures Remaining(c, s) >= 0
  {
  }

  lemma SameRemaining(c: Config, s: State, s': State)
    requires Other(c, s, s')
    ensures Remaining(c, s') == Remaining(c, s)
  {
  }

  /** The barrier reports success exactly if every layer has a valid digest and
      was stored, over every interleaving. */
  lemma BarrierOutcome(c: Config, store: Files, run: seq<State>, i: nat)
    requires IsRun(c, store, run) && ContentAddressed(c.sha, store)
    requires i < |run| && run[i].main.Return?
    ensures |run[i].tasks| == |c.layers|
    ensures forall k :: 0 <= k < |c.layers| ==> run[i].tasks[k].Done?
    ensures run[i].main.ok ==> forall k :: 0 <= k < |c.layers| ==> LayerThere(c, run[i].store, k)
    ensures !run[i].main.ok ==> exists k :: 0 <= k < |c.layers| && run[i].tasks[k] == Done(false)
  {
    RunInv(c, store, run, i);
    Outcome(c, run[i]);
  }

  lemma Outcome(c: Config, s: State)
    requires Inv(c, s) && s.main.Return?
    ensures forall k :: 0 <= k < |c.layers| ==> s.tasks[k].Done?
    ensures s.main.ok ==> forall k :: 0 <= k < |c.layers| ==> LayerThere(c, s.store, k)
    ensures !s.main.ok ==> exists k :: 0 <= k < |c.layers| && s.tasks[k] == Done(false)
  {
    if s.main.ok {
      forall k | 0 <= k < |c.layers| ensures LayerThere(c, s.store, k) {
        assert HasSucceeded(s.tasks[k]);
      }
    } else {
      var k :| 0 <= k < |s.tasks| && s.tasks[k] != Done(true);
      assert s.tasks[k] == Done(false);
    }
  }

  /* ---- how many at a time ---- */

  /** Never more goroutines at a time than configured, or ten by default. */
  lemma AtMostConfigured(c: Config, s: State)
    requires Inv(c, s)
    ensures CountActive(s.tasks) <= if c.layerConcurrency <= 0 then 10 else c.layerConcurrency
  {
  }

  /** And as many can be, if there are layers enough. */
  lemma {:induction false} ConfiguredAtOnce(c: Config, store: Files, n: nat) returns (run: seq<State>)
    requires ContentAddressed(c.sha, store) && n <= |c.layers|
    requires n <= if c.layerConcurrency <= 0 then 10 else c.layerConcurrency
    ensures OwnRun(c, run) && run[0] == Init(c, store) && Inv(c, run[|run|-1])
    ensures run[|run|-1].main == Spawn(n) && CountActive(run[|run|-1].tasks) == n
  {
    if n == 0 {
      InitInv(c, store);
      run := [Init(c, store)];
    } else {
      var before := ConfiguredAtOnce(c, store, n - 1);
      var s := before[|before|-1];
      var s' := s.(main := Spawn(n), tasks := s.tasks[n-1 := Working], tokens := s.tokens + 1);
      assert SpawnStep(c, s, s');
      NextInv(c, s, s');
      hide Next;
      run := before + [s'];
    }
  }

  /* ---- runs that succeed ---- */

  /** Upstream could serve bytes that verify. */
  ghost predicate Obtainable(sha: Bytes -> string, d: string) {
    Valid(d) && exists data :: sha(data) == d
  }

  ghost predicate AllObtainable(c: Config) {
    forall k :: 0 <= k < |c.layers| ==> Obtainable(c.sha, c.layers[k])
  }

  /** Nothing has gone wrong so far. */
  predicate Smooth(s: State) {
    && s.errors == []
    && (forall k :: 0 <= k < |s.tasks| ==> s.tasks[k] != Failing && !HasFailed(s.tasks[k]))
    && (s.main.Return? ==> s.main.ok)
  }

  /** A layer is fetched, unless it is there. */
  function Synced(c: Config, s: State, k: nat, data: Bytes): State
    requires k < |s.tasks| && k < |c.layers| && Valid(c.layers[k])
  {
    s.(tasks := s.tasks[k := Leaving(true)],
       store := if Has(s.store, c.layers[k]) then s.store else s.store[BlobPath(c.layers[k]) := data])
  }

  lemma SmoothTask(c: Config, s: State, k: nat) returns (s': State)
    requires Inv(c, s) && Smooth(s) && AllObtainable(c) && k < |s.tasks| && Active(s.tasks[k])
    ensures TaskStep(c, s, s', k) && Smooth(s')
  {
    CountPositive(s.tasks, k);
    if s.tasks[k] == Working {
      assert Obtainable(c.sha, c.layers[k]);
      var data :| c.sha(data) == c.layers[k];
      s' := Synced(c, s, k, data);
      assert SyncStep(c, s, s', k);
    } else {
      s' := s.(tasks := s.tasks[k := Done(true)], tokens := s.tokens - 1);
      assert ReleaseStep(c, s, s', k);
    }
  }

  lemma SmoothStep(c: Config, s: State) returns (s': State)
    requires Inv(c, s) && Smooth(s) && AllObtainable(c) && !s.main.Return?
    ensures Next(c, s, s') && Smooth(s')
  {
    if s.main.Poll? {
      s' := s.(main := Return(true));
    } else if s.main.Spawn? && s.main.i == |s.tasks| {
      s' := s.(main := Fill(0));
    } else if s.main == Fill(c.Slots()) {
      s' := s.(main := Poll);
    } else if s.tokens == c.Slots() {
      var k := SomeActive(s.tasks);
      s' := SmoothTask(c, s, k);
    } else if s.main.Spawn? {
      s' := s.(main := Spawn(s.main.i + 1), tasks := s.tasks[s.main.i := Working], tokens := s.tokens + 1);
      assert SpawnStep(c, s, s');
    } else {
      s' := s.(main := Fill(s.main.j + 1), tokens := s.tokens + 1);
    }
  }

  ghost predicate OwnRun(c: Config, run: seq<State>) {
    run != [] && forall i :: 0 <= i < |run| - 1 ==> Next(c, run[i], run[i+1])
  }

  lemma {:induction false} SmoothRun(c: Config, run: seq<State>) returns (r: seq<State>)
    requires OwnRun(c, run) && Inv(c, run[|run|-1]) && Smooth(run[|run|-1]) && AllObtainable(c)
    ensures OwnRun(c, r) && r[0] == run[0] && r[|r|-1].main == Return(true) && Inv(c, r[|r|-1])
    decreases Remaining(c, run[|run|-1])
  {
    var last := run[|run|-1];
    if last.main.Return? {
      r := run;
    } else {
      var s' := SmoothStep(c, last);
      NextInv(c, last, s');
      EveryStepCounts(c, last, s');
      hide Next, Inv, Smooth, Remaining;
      r := SmoothRun(c, run + [s']);
    }
  }

  lemma {:induction false} OwnRunInv(c: Config, run: seq<State>, i: nat)
    requires OwnRun(c, run) && Inv(c, run[0]) && i < |run|
    ensures Inv(c, run[i])
  {
    if i > 0 {
      hide Next, Inv;
      OwnRunInv(c, run, i - 1);
      assert Next(c, run[i-1], run[i-1+1]);
      NextInv(c, run[i-1], run[i]);
    }
  }

  /** From `store` to a positive result with no other activity. */
  ghost predicate Succeeds(c: Config, store: Files, run: seq<State>) {
    OwnRun(c, run) && run[0] == Init(c, store) && run[|run|-1].main == Return(true)
  }

  /** Left to itself the barrier can succeed exactly if every layer has a valid
      digest that some data has. */
  lemma CanSucceed(c: Config, store: Files)
    requires ContentAddressed(c.sha, store)
    ensures AllObtainable(c) <==> exists run :: Succeeds(c, store, run)
  {
    InitInv(c, store);
    if AllObtainable(c) {
      assert OwnRun(c, [Init(c, store)]);
      var run := SmoothRun(c, [Init(c, store)]);
      assert Succeeds(c, store, run);
    }
    if run: seq<State> :| Succeeds(c, store, run) {
      OwnRunInv(c, run, |run| - 1);
      Outcome(c, run[|run|-1]);
      forall k | 0 <= k < |c.layers| ensures Obtainable(c.sha, c.layers[k]) {
        assert LayerThere(c, run[|run|-1].store, k);
        PresentIsObtainable(c.sha, run[|run|-1].store, c.layers[k]);
      }
    }
  }

  lemma PresentIsObtainable(sha: Bytes -> string, store: Files, d: string)
    requires ContentAddressed(sha, store) && Valid(d) && Has(store, d)
    ensures Obtainable(sha, d)
  {
    assert sha(Content(store, d)) == d;
  }
}
