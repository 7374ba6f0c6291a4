/** Pulling one image (internal/releases/cloner.go): `Clone` pulls a release and
    then publishes its tag, `PullComponentImage` registers a component under its
    digest and then pulls it.  Both do the same six things in a different order,
    with the layer goroutines of `Barrier` inside.
    Every step may interleave with other activity on the stores. */
module Clone {
  import opened Digests
  import opened Blobs
  import opened Relations
  import opened Seqs
  import Barrier

  /** What is used of a decoded manifest; no config is the empty string. */
  datatype Manifest = Manifest(config: string, layers: seq<string>)

  datatype Kind = Release | Component

  datatype Task = Parse | PullConfig | PullLayers | StoreManifest | Publish | Link

  /** The bytes are what the upstream registry answered. */
  datatype Job = Job(kind: Kind, sha: Bytes -> string, parse: Bytes -> Option<Manifest>,
                     repo: string, tag: string, bytes: Bytes, mediaType: string, layerConcurrency: int)
  {
    function Digest(): string { sha(bytes) }

    function Parsed(): Manifest {
      match parse(bytes) case None => Manifest("", []) case Some(m) => m
    }

    function Layers(): Barrier.Config {
      Barrier.Config(sha, Parsed().layers, layerConcurrency)
    }

    /** `Clone` publishes a tag, `PullComponentImage` the digest itself. */
    function Reference(): string {
      if kind.Release? then tag else Digest()
    }

    function Meta(now: int): ManifestMeta {
      ManifestMeta(Digest(), mediaType, |bytes|, now, Parsed().layers)
    }

    /** What is linked to the repository in the end; a component's config and
        layers are linked by its goroutines, which counts as other activity here. */
    function Links(): set<string> {
      if kind.Release? then {Digest()} + (if Parsed().config != "" then {Parsed().config} else {}) + Elements(Parsed().layers)
      else {Digest()}
    }

    function Order(): (r: seq<Task>)
      ensures |r| == 6
    {
      match kind
      case Release => [Parse, PullConfig, PullLayers, StoreManifest, Publish, Link]
      case Component => [StoreManifest, Parse, Publish, Link, PullConfig, PullLayers]
    }
  }

  datatype Progress = Doing(n: nat) | Stopped

  datatype State = State(progress: Progress, barrier: Barrier.State, meta: Typed)

  predicate Finished(j: Job, s: State) {
    s.progress == Doing(|j.Order()|)
  }

  predicate At(j: Job, s: State, t: Task) {
    s.progress.Doing? && s.progress.n < |j.Order()| && j.Order()[s.progress.n] == t
  }

  predicate Behind(j: Job, s: State, t: Task) {
    s.progress.Doing? && exists i :: 0 <= i < s.progress.n && i < |j.Order()| && j.Order()[i] == t
  }

  function Init(j: Job, store: Files, meta: Typed): State {
    State(Doing(0), Barrier.Init(j.Layers(), store), meta)
  }

  function Advance(s: State): State
    requires s.progress.Doing?
  {
    s.(progress := Doing(s.progress.n + 1))
  }

  function WithStore(s: State, store: Files): State {
    s.(barrier := s.barrier.(store := store))
  }

  /* ---- steps ---- */

  predicate ParseStep(j: Job, s: State, s': State) {
    At(j, s, Parse) && s' == if j.parse(j.bytes).None? then s.(progress := Stopped) else Advance(s)
  }

  /** The blob was there, or has been fetched and verified. */
  ghost predicate Pulls(sha: Bytes -> string, a: Files, b: Files, d: string)
    requires Valid(d)
  {
    (Has(a, d) && b == a) || exists data :: sha(data) == d && b == a[BlobPath(d) := data]
  }

  /** A missing config is nothing to pull; `PullComponentImage` treats one with an
      invalid digest the same way. */
  predicate SkipsConfig(j: Job) {
    j.Parsed().config == "" || (j.kind.Component? && !Valid(j.Parsed().config))
  }

  ghost predicate ConfigPulled(j: Job, s: State, s': State)
    requires Valid(j.Parsed().config) && s.progress.Doing?
  {
    && Pulls(j.sha, s.barrier.store, s'.barrier.store, j.Parsed().config)
    && s' == Advance(WithStore(s, s'.barrier.store))
  }

  ghost predicate ConfigStep(j: Job, s: State, s': State) {
    && At(j, s, PullConfig)
    && (SkipsConfig(j) ==> s' == Advance(s))
    && (!SkipsConfig(j) && Valid(j.Parsed().config) ==> s' == s.(progress := Stopped) || ConfigPulled(j, s, s'))
    && (!SkipsConfig(j) && !Valid(j.Parsed().config) ==> s' == s.(progress := Stopped))
  }

  ghost predicate LayerStep(j: Job, s: State, s': State) {
    At(j, s, PullLayers) && Barrier.Next(j.Layers(), s.barrier, s'.barrier) && s' == s.(barrier := s'.barrier)
  }

  predicate LayersStep(j: Job, s: State, s': State) {
    && At(j, s, PullLayers) && s.barrier.main.Return?
    && s' == if s.barrier.main.ok then Advance(s) else s.(progress := Stopped)
  }

  ghost predicate ManifestStep(j: Job, s: State, s': State) {
    && At(j, s, StoreManifest) && Valid(j.Digest())
    && (s' == s.(progress := Stopped)
        || (&& Pulls(j.sha, s.barrier.store, s'.barrier.store, j.Digest())
            && s' == Advance(WithStore(s, s'.barrier.store))))
  }

  /** `PutManifest` is one transaction; `PullComponentImage` only logs that it failed. */
  ghost predicate PublishStep(j: Job, s: State, s': State) {
    && At(j, s, Publish)
    && ((s' == if j.kind.Release? then s.(progress := Stopped) else Advance(s))
        || exists now :: s' == Advance(s.(meta := s.meta.Put(j.repo, j.Reference(), j.Meta(now), now))))
  }

  /** Errors of single links are ignored, so any part of them may be made. */
  ghost predicate LinkStep(j: Job, s: State, s': State) {
    && At(j, s, Link)
    && exists ds :: ds <= j.Links() && s' == Advance(s.(meta := s.meta.LinkAll(ds, j.repo)))
  }

  ghost predicate Next(j: Job, s: State, s': State) {
    || ParseStep(j, s, s') || ConfigStep(j, s, s') || LayerStep(j, s, s') || LayersStep(j, s, s')
    || ManifestStep(j, s, s') || PublishStep(j, s, s') || LinkStep(j, s, s')
  }

  /** The tag resolves to what this job pulls. */
  predicate Shows(j: Job, meta: Typed) {
    (j.repo, j.tag) in meta.tags && meta.tags[(j.repo, j.tag)] == j.Digest()
  }

  /** Other activity deletes no blob, and makes the tag of a release point to this
      job's digest only when the image is complete; otherwise it may change
      metadata in any way. */
  ghost predicate Other(j: Job, s: State, s': State) {
    && Barrier.Grows(j.sha, s.barrier.store, s'.barrier.store)
    && (j.kind.Release? && Shows(j, s'.meta) ==> Shows(j, s.meta) || Complete(j, s'.barrier.store))
    && s' == WithStore(s, s'.barrier.store).(meta := s'.meta)
  }

  /* ---- what a pulled image is ---- */

  predicate HasConfig(j: Job, store: Files) {
    Valid(j.Parsed().config) && Has(store, j.Parsed().config)
  }

  ghost predicate HasLayers(j: Job, store: Files) {
    forall k :: 0 <= k < |j.Parsed().layers| ==> Barrier.LayerThere(j.Layers(), store, k)
  }

  predicate HasManifest(j: Job, store: Files) {
    Valid(j.Digest()) && Has(store, j.Digest())
  }

  /** Manifest, config and all layers are there. */
  ghost predicate Complete(j: Job, store: Files) {
    && j.parse(j.bytes).Some?
    && HasManifest(j, store)
    && (SkipsConfig(j) || HasConfig(j, store))
    && HasLayers(j, store)
  }

  ghost predicate Inv(j: Job, s: State) {
    && Barrier.Inv(j.Layers(), s.barrier)
    && (s.progress.Doing? ==> s.progress.n <= |j.Order()|)
    && (Behind(j, s, Parse) ==> j.parse(j.bytes).Some?)
    && (Behind(j, s, PullConfig) ==> SkipsConfig(j) || HasConfig(j, s.barrier.store))
    && (Behind(j, s, PullLayers) ==> s.barrier.main == Barrier.Return(true))
    && (Behind(j, s, StoreManifest) ==> HasManifest(j, s.barrier.store))
    && (j.kind.Release? && Shows(j, s.meta) ==> Complete(j, s.barrier.store))
  }

  /** Advancing leaves exactly the current task behind. */
  lemma BehindNext(j: Job, s: State, s': State, t: Task, u: Task)
    requires At(j, s, t) && s'.progress == Doing(s.progress.n + 1)
    ensures Behind(j, s', u) <==> Behind(j, s, u) || u == t
  {
    if Behind(j, s, u) {
      var i :| 0 <= i < s.progress.n && i < |j.Order()| && j.Order()[i] == u;
      assert Behind(j, s', u);
    } else if u == t {
      assert j.Order()[s.progress.n] == u;
    }
  }

  lemma AllBehindNext(j: Job, s: State, s': State, t: Task)
    requires At(j, s, t) && s'.progress == Doing(s.progress.n + 1)
    ensures forall u :: Behind(j, s', u) <==> Behind(j, s, u) || u == t
  {
    forall u ensures Behind(j, s', u) <==> Behind(j, s, u) || u == t {
      BehindNext(j, s, s', t, u);
    }
  }

  lemma NotBehind(j: Job, s: State, t: Task)
    requires At(j, s, t)
    ensures !Behind(j, s, t)
  {
    assert forall a, b :: 0 <= a < b < |j.Order()| ==> j.Order()[a] != j.Order()[b];
  }

  lemma SameBehind(j: Job, s: State, s': State)
    requires s'.progress == s.progress
    ensures forall u :: Behind(j, s', u) == Behind(j, s, u)
  {
  }

  lemma CompleteGrows(j: Job, a: Files, b: Files)
    requires a.Keys <= b.Keys && Complete(j, a)
    ensures Complete(j, b)
  {
    forall k | 0 <= k < |j.Parsed().layers| ensures Barrier.LayerThere(j.Layers(), b, k) {
      assert Barrier.LayerThere(j.Layers(), a, k);
    }
  }

  /** A pull adds one verified blob, which the barrier sees as other activity. */
  lemma PullGrows(sha: Bytes -> string, a: Files, b: Files, d: string)
    requires Valid(d) && Pulls(sha, a, b, d)
    ensures Barrier.Grows(sha, a, b) && Has(b, d)
  {
    if b != a {
      var data :| sha(data) == d && b == a[BlobPath(d) := data];
      if ContentAddressed(sha, a) {
        StoredKeeps(sha, a, d, data);
      }
    }
  }

  /** Whatever only adds blobs keeps all but the place in the job. */
  lemma StoreInv(j: Job, s: State, store: Files)
    requires Inv(j, s) && Barrier.Grows(j.sha, s.barrier.store, store)
    ensures Inv(j, WithStore(s, store))
  {
    var s' := WithStore(s, store);
    assert Barrier.Other(j.Layers(), s.barrier, s'.barrier);
    Barrier.OtherInv(j.Layers(), s.barrier, s'.barrier);
    SameBehind(j, s, s');
    if j.kind.Release? && Shows(j, s.meta) {
      CompleteGrows(j, s.barrier.store, store);
    }
  }

  lemma OtherInv(j: Job, s: State, s': State)
    requires Inv(j, s) && Other(j, s, s')
    ensures Inv(j, s')
  {
    StoreInv(j, s, s'.barrier.store);
    SameBehind(j, s, s');
  }

  lemma AdvanceInv(j: Job, s: State, t: Task)
    requires Inv(j, s) && At(j, s, t)
    requires t == Parse ==> j.parse(j.bytes).Some?
    requires t == PullConfig ==> SkipsConfig(j) || HasConfig(j, s.barrier.store)
    requires t == PullLayers ==> s.barrier.main == Barrier.Return(true)
    requires t == StoreManifest ==> HasManifest(j, s.barrier.store)
    ensures Inv(j, Advance(s))
  {
    AllBehindNext(j, s, Advance(s), t);
  }

  lemma StoppedInv(j: Job, s: State)
    requires Inv(j, s)
    ensures Inv(j, s.(progress := Stopped))
  {
    var s' := s.(progress := Stopped);
    assert forall t :: !Behind(j, s', t);
  }

  /** When `Clone` gets to publish, the image is complete. */
  lemma ReadyToPublish(j: Job, s: State)
    requires Inv(j, s) && (Finished(j, s) || (j.kind.Release? && At(j, s, Publish)))
    ensures Complete(j, s.barrier.store)
  {
    forall t: Task | t == Parse || t == PullConfig || t == PullLayers || t == StoreManifest
      ensures Behind(j, s, t)
    {
      assert exists i :: 0 <= i < 6 && j.Order()[i] == t by {
        var o := j.Order();
        assert o[0] == t || o[1] == t || o[2] == t || o[3] == t || o[4] == t || o[5] == t;
      }
    }
    Barrier.Outcome(j.Layers(), s.barrier);
  }

  lemma PublishInv(j: Job, s: State, s': State)
    requires Inv(j, s) && PublishStep(j, s, s')
    ensures Inv(j, s')
  {
    if s' == Advance(s) {
      AdvanceInv(j, s, Publish);
    } else if s' == s.(progress := Stopped) {
      StoppedInv(j, s);
    } else {
      AllBehindNext(j, s, s', Publish);
      if j.kind.Release? {
        ReadyToPublish(j, s);
      }
    }
  }

  lemma LinkInv(j: Job, s: State, s': State)
    requires Inv(j, s) && LinkStep(j, s, s')
    ensures Inv(j, s')
  {
    AllBehindNext(j, s, s', Link);
  }

  lemma ConfigInv(j: Job, s: State, s': State)
    requires Inv(j, s) && ConfigStep(j, s, s')
    ensures Inv(j, s') && Barrier.Grows(j.sha, s.barrier.store, s'.barrier.store)
  {
    if SkipsConfig(j) {
      AdvanceInv(j, s, PullConfig);
    } else if s' == s.(progress := Stopped) {
      StoppedInv(j, s);
    } else {
      PullGrows(j.sha, s.barrier.store, s'.barrier.store, j.Parsed().config);
      StoreInv(j, s, s'.barrier.store);
      AdvanceInv(j, WithStore(s, s'.barrier.store), PullConfig);
    }
  }

  lemma StoreManifestInv(j: Job, s: State, s': State)
    requires Inv(j, s) && ManifestStep(j, s, s')
    ensures Inv(j, s') && Barrier.Grows(j.sha, s.barrier.store, s'.barrier.store)
  {
    if s' == s.(progress := Stopped) {
      StoppedInv(j, s);
    } else {
      PullGrows(j.sha, s.barrier.store, s'.barrier.store, j.Digest());
      StoreInv(j, s, s'.barrier.store);
      AdvanceInv(j, WithStore(s, s'.barrier.store), StoreManifest);
    }
  }

  lemma LayerInv(j: Job, s: State, s': State)
    requires Inv(j, s) && LayerStep(j, s, s')
    ensures Inv(j, s') && Barrier.Grows(j.sha, s.barrier.store, s'.barrier.store)
  {
    Barrier.NextInv(j.Layers(), s.barrier, s'.barrier);
    StoreInv(j, s, s'.barrier.store);
    SameBehind(j, s, s');
    NotBehind(j, s, PullLayers);
  }

  lemma NextInv(j: Job, s: State, s': State)
    requires Inv(j, s) && Next(j, s, s')
    ensures Inv(j, s') && Barrier.Grows(j.sha, s.barrier.store, s'.barrier.store)
  {
    if ConfigStep(j, s, s') {
      ConfigInv(j, s, s');
    } else if LayerStep(j, s, s') {
      LayerInv(j, s, s');
    } else if ManifestStep(j, s, s') {
      StoreManifestInv(j, s, s');
    } else if PublishStep(j, s, s') {
      PublishInv(j, s, s');
    } else if LinkStep(j, s, s') {
      LinkInv(j, s, s');
    } else if s' == s.(progress := Stopped) {
      StoppedInv(j, s);
    } else if ParseStep(j, s, s') {
      AdvanceInv(j, s, Parse);
    } else {
      AdvanceInv(j, s, PullLayers);
    }
  }

  /* ---- whole runs ---- */

  ghost predicate IsRun(j: Job, run: seq<State>) {
    && run != []
    && run[0] == Init(j, run[0].barrier.store, run[0].meta)
    && ContentAddressed(j.sha, run[0].barrier.store)
    && (j.kind.Release? && Shows(j, run[0].meta) ==> Complete(j, run[0].barrier.store))
    && forall i :: 0 <= i < |run| - 1 ==> Next(j, run[i], run[i+1]) || Other(j, run[i], run[i+1])
  }

  lemma {:induction false} RunInv(j: Job, run: seq<State>, i: nat)
    requires IsRun(j, run) && i < |run|
    ensures Inv(j, run[i])
  {
    if i == 0 {
      Barrier.InitInv(j.Layers(), run[0].barrier.store);
      assert forall t :: !Behind(j, run[0], t);
    } else {
      RunInv(j, run, i - 1);
      if Next(j, run[i-1], run[i]) {
        NextInv(j, run[i-1], run[i]);
      } else {
        OtherInv(j, run[i-1], run[i]);
      }
    }
  }

  /** Whenever the tag of a release resolves to the digest `Clone` pulls, its
      manifest, config and layers are all in the store. */
  lemma VisibleImpliesComplete(j: Job, run: seq<State>, i: nat)
    requires IsRun(j, run) && i < |run| && j.kind.Release?
    requires Shows(j, run[i].meta)
    ensures Complete(j, run[i].barrier.store)
    ensures ContentAddressed(j.sha, run[i].barrier.store)
  {
    RunInv(j, run, i);
  }

  /** A nil error means a complete image, for releases and components alike. */
  lemma FinishedImpliesComplete(j: Job, run: seq<State>, i: nat)
    requires IsRun(j, run) && i < |run| && Finished(j, run[i])
    ensures Complete(j, run[i].barrier.store)
  {
    RunInv(j, run, i);
    ReadyToPublish(j, run[i]);
  }

  /** `Clone` touches metadata only after the last blob is in place, and a nil
      error means that its tag was published on the way. */
  lemma {:induction false} FinishedImpliesPublished(j: Job, run: seq<State>, i: nat) returns (p: nat)
    requires IsRun(j, run) && i < |run| && j.kind.Release? && !IsDigestRef(j.tag)
    requires run[i].progress.Doing? && run[i].progress.n > 4
    ensures 0 < p <= i && Shows(j, run[p].meta) && Complete(j, run[p].barrier.store)
    ensures run[p].progress == Doing(5)
  {
    var u, v := run[i-1], run[i];
    if Next(j, u, v) {
      PublishShows(j, u, v);
    }
    hide Next, Inv, Shows, Complete;
    if u.progress == Doing(4) {
      p := i;
      RunInv(j, run, i);
      VisibleImpliesComplete(j, run, i);
    } else {
      p := FinishedImpliesPublished(j, run, i - 1);
    }
  }

  lemma PublishShows(j: Job, s: State, s': State)
    requires j.kind.Release? && !IsDigestRef(j.tag) && Next(j, s, s')
    requires s'.progress.Doing? && s'.progress.n > 4
    ensures s.progress.Doing? && s.progress.n >= 4
    ensures s.progress == Doing(4) ==> s'.progress == Doing(5) && Shows(j, s'.meta)
  {
  }

  lemma SilentUntilPublished(j: Job, s: State, s': State)
    requires Next(j, s, s') && j.kind.Release? && s'.meta != s.meta
    ensures s.progress == Doing(4) || s.progress == Doing(5)
  {
  }

  /** Whoever is not finished can move, whatever the layers do. */
  lemma NoDeadlock(j: Job, s: State) returns (s': State)
    requires Inv(j, s) && MakesDigests(j.sha) && s.progress.Doing? && !Finished(j, s)
    ensures Next(j, s, s')
  {
    match j.Order()[s.progress.n] {
      case Parse => s' := if j.parse(j.bytes).None? then s.(progress := Stopped) else Advance(s);
      case PullConfig => s' := if SkipsConfig(j) then Advance(s) else s.(progress := Stopped);
      case PullLayers =>
        if s.barrier.main.Return? {
          s' := if s.barrier.main.ok then Advance(s) else s.(progress := Stopped);
        } else {
          var b := Barrier.NoDeadlock(j.Layers(), s.barrier);
          s' := s.(barrier := b);
          assert LayerStep(j, s, s');
        }
      case StoreManifest =>
        s' := s.(progress := Stopped);
        assert Valid(j.Digest());
        assert ManifestStep(j, s, s');
      case Publish => s' := if j.kind.Release? then s.(progress := Stopped) else Advance(s);
      case Link =>
        s' := Advance(s.(meta := s.meta.LinkAll({}, j.repo)));
        assert LinkStep(j, s, s');
    }
  }

  /** Over a run no blob is lost. */
  lemma {:induction false} RunGrows(j: Job, run: seq<State>, i: nat)
    requires IsRun(j, run) && i < |run|
    ensures run[0].barrier.store.Keys <= run[i].barrier.store.Keys && ContentAddressed(j.sha, run[i].barrier.store)
  {
    RunInv(j, run, i);
    if i > 0 {
      RunInv(j, run, i - 1);
      RunGrows(j, run, i - 1);
      if Next(j, run[i-1], run[i]) {
        NextInv(j, run[i-1], run[i]);
      }
    }
  }

  /** The store once a component's manifest is in and nothing else has happened. */
  function WithManifest(j: Job, store: Files): Files
    requires Valid(j.Digest())
  {
    store[BlobPath(j.Digest()) := j.bytes]
  }

  /** A component is registered before its config and layers are pulled: it shows
      an incomplete image whenever something but the manifest is missing. */
  lemma ComponentsAreVisibleEarly(j: Job, store: Files, now: int) returns (run: seq<State>)
    requires j.kind.Component? && j.parse(j.bytes).Some? && MakesDigests(j.sha)
    requires ContentAddressed(j.sha, store) && !Complete(j, WithManifest(j, store))
    ensures IsRun(j, run) && |run| == 4 && run[0].barrier.store == store
    ensures (j.repo, j.Digest()) in run[3].meta.manifests && Behind(j, run[3], Publish)
    ensures !Complete(j, run[3].barrier.store)
  {
    var s0 := Init(j, store, NOTHING);
    var s1 := Advance(WithStore(s0, WithManifest(j, store)));
    FirstBlob(j, s0, s1);
    var s2 := Advance(s1);
    assert ParseStep(j, s1, s2);
    var s3 := Advance(s2.(meta := s2.meta.Put(j.repo, j.Reference(), j.Meta(now), now)));
    assert PublishStep(j, s2, s3);
    run := [s0, s1, s2, s3];
    assert j.Order()[2] == Publish;
    assert run[3].barrier.store == WithManifest(j, store);
  }

  /** A moment of a run from `store` after the manifest has been registered. */
  ghost predicate Registered(j: Job, store: Files, run: seq<State>, i: int) {
    IsRun(j, run) && run[0].barrier.store == store && 0 <= i < |run| && Behind(j, run[i], Publish)
  }

  lemma RegisteredHasManifest(j: Job, store: Files, run: seq<State>, i: nat)
    requires j.kind.Component? && Registered(j, store, run, i)
    ensures HasManifest(j, run[i].barrier.store)
  {
    RunInv(j, run, i);
    assert j.Order()[0] == StoreManifest;
    assert Behind(j, run[i], StoreManifest);
  }

  /** The image of a component is complete from its registration on, in every run,
      exactly if it would be with nothing but the manifest added to the store. */
  lemma RegisteredIsComplete(j: Job, store: Files)
    requires j.kind.Component? && j.parse(j.bytes).Some? && MakesDigests(j.sha)
    requires ContentAddressed(j.sha, store)
    ensures (forall run: seq<State>, i :: Registered(j, store, run, i) ==> Complete(j, run[i].barrier.store))
      <==> Complete(j, WithManifest(j, store))
  {
    if Complete(j, WithManifest(j, store)) {
      forall run: seq<State>, i | Registered(j, store, run, i)
        ensures Complete(j, run[i].barrier.store)
      {
        RegisteredHasManifest(j, store, run, i);
        RunGrows(j, run, i);
        CompleteGrows(j, WithManifest(j, store), run[i].barrier.store);
      }
    } else {
      var run := ComponentsAreVisibleEarly(j, store, 0);
      assert Registered(j, store, run, 3);
    }
  }

  lemma FirstBlob(j: Job, s: State, s': State)
    requires Valid(j.Digest()) && At(j, s, StoreManifest)
    requires s' == Advance(WithStore(s, s.barrier.store[BlobPath(j.Digest()) := j.bytes]))
    ensures ManifestStep(j, s, s')
  {
    assert Pulls(j.sha, s.barrier.store, s'.barrier.store, j.Digest());
  }

  /* ---- runs that finish ---- */

  /** Upstream serves a manifest that decodes, and bytes that verify for all it names. */
  ghost predicate CanFinish(j: Job) {
    && j.parse(j.bytes).Some? && Valid(j.Digest())
    && (SkipsConfig(j) || Barrier.Obtainable(j.sha, j.Parsed().config))
    && Barrier.AllObtainable(j.Layers())
  }

  /** The metadata once the image is registered: its record under the tag of a
      release, or under the digest of a component. */
  function WithRecord(j: Job, meta: Typed, now: int): Typed {
    meta.Put(j.repo, if j.kind.Release? then j.tag else j.sha(j.bytes),
             ManifestMeta(j.sha(j.bytes), j.mediaType, |j.bytes|, now, j.Parsed().layers), now)
  }

  /** A release links manifest, config and layers, a component its manifest alone. */
  predicate ToLink(j: Job, d: string) {
    || d == j.sha(j.bytes)
    || (j.kind.Release? && ((j.Parsed().config != "" && d == j.Parsed().config) || d in j.Parsed().layers))
  }

  lemma LinksExactly(j: Job)
    ensures forall d :: d in j.Links() <==> ToLink(j, d)
  {
  }

  /** Nothing has gone wrong, and metadata is what it was, with what is registered
      and linked so far. */
  ghost predicate Smooth(j: Job, s: State, meta: Typed, now: int) {
    && Inv(j, s) && s.progress.Doing? && Barrier.Smooth(s.barrier)
    && s.meta == if Behind(j, s, Link) then WithRecord(j, meta, now).LinkAll(j.Links(), j.repo)
                 else if Behind(j, s, Publish) then WithRecord(j, meta, now) else meta
  }

  /** The store with one blob more, unless it is there. */
  function Fetched(store: Files, d: string, data: Bytes): Files
    requires Valid(d)
  {
    if Has(store, d) then store else store[BlobPath(d) := data]
  }

  lemma SmoothFetch(j: Job, s: State, d: string) returns (store: Files)
    requires Barrier.Obtainable(j.sha, d)
    ensures Pulls(j.sha, s.barrier.store, store, d)
  {
    var data :| j.sha(data) == d;
    store := Fetched(s.barrier.store, d, data);
  }

  /** The next step when all goes well. */
  lemma SmoothNext(j: Job, s: State, meta: Typed, now: int) returns (s': State)
    requires Smooth(j, s, meta, now) && CanFinish(j) && !Finished(j, s)
    ensures Next(j, s, s') && s'.progress.Doing? && Barrier.Smooth(s'.barrier)
    ensures s'.progress == s.progress ==> Barrier.Next(j.Layers(), s.barrier, s'.barrier)
    ensures s'.progress == s.progress || s'.progress == Doing(s.progress.n + 1)
    ensures At(j, s, Publish) ==> s'.meta == WithRecord(j, s.meta, now)
    ensures At(j, s, Link) ==> s'.meta == s.meta.LinkAll(j.Links(), j.repo)
    ensures !At(j, s, Publish) && !At(j, s, Link) ==> s'.meta == s.meta
  {
    match j.Order()[s.progress.n] {
      case Parse =>
        s' := Advance(s);
        assert ParseStep(j, s, s');
      case PullConfig =>
        if SkipsConfig(j) {
          s' := Advance(s);
        } else {
          var store := SmoothFetch(j, s, j.Parsed().config);
          s' := Advance(WithStore(s, store));
          assert ConfigPulled(j, s, s');
        }
        assert ConfigStep(j, s, s');
      case PullLayers =>
        if s.barrier.main.Return? {
          s' := Advance(s);
          assert LayersStep(j, s, s');
        } else {
          var b := Barrier.SmoothStep(j.Layers(), s.barrier);
          s' := s.(barrier := b);
          assert LayerStep(j, s, s');
        }
      case StoreManifest =>
        s' := Advance(WithStore(s, Fetched(s.barrier.store, j.Digest(), j.bytes)));
        assert Pulls(j.sha, s.barrier.store, s'.barrier.store, j.Digest());
        assert ManifestStep(j, s, s');
      case Publish =>
        s' := Advance(s.(meta := s.meta.Put(j.repo, j.Reference(), j.Meta(now), now)));
        assert PublishStep(j, s, s');
      case Link =>
        s' := Advance(s.(meta := s.meta.LinkAll(j.Links(), j.repo)));
        assert LinkStep(j, s, s');
    }
  }

  lemma SmoothStep(j: Job, s: State, meta: Typed, now: int) returns (s': State)
    requires Smooth(j, s, meta, now) && CanFinish(j) && !Finished(j, s)
    ensures Next(j, s, s') && Smooth(j, s', meta, now)
    ensures s'.progress == Doing(s.progress.n + 1)
      || (s'.progress == s.progress && Barrier.Remaining(j.Layers(), s'.barrier) < Barrier.Remaining(j.Layers(), s.barrier))
  {
    s' := SmoothNext(j, s, meta, now);
    NextInv(j, s, s');
    LinkIsAfter(j, s);
    if s'.progress == s.progress {
      Barrier.EveryStepCounts(j.Layers(), s.barrier, s'.barrier);
      SameBehind(j, s, s');
    } else {
      AllBehindNext(j, s, s', j.Order()[s.progress.n]);
    }
    hide Next, Inv, Behind, Barrier.Smooth, Barrier.Remaining, Barrier.Inv, CanFinish, WithRecord;
  }

  /** Linking comes right after publishing. */
  lemma LinkIsAfter(j: Job, s: State)
    requires s.progress.Doing? && s.progress.n < |j.Order()|
    ensures Behind(j, s, Link) ==> Behind(j, s, Publish) && !At(j, s, Publish)
    ensures At(j, s, Link) ==> Behind(j, s, Publish) && !Behind(j, s, Link)
    ensures At(j, s, Publish) ==> !Behind(j, s, Publish) && !Behind(j, s, Link)
  {
    var o := j.Order();
    assert o[2] == Publish || o[4] == Publish;
    assert o[3] == Link || o[5] == Link;
    if At(j, s, Publish) {
      NotBehind(j, s, Publish);
    }
    if At(j, s, Link) {
      NotBehind(j, s, Link);
    }
  }

  ghost predicate OwnRun(j: Job, run: seq<State>) {
    run != [] && forall i :: 0 <= i < |run| - 1 ==> Next(j, run[i], run[i+1])
  }

  lemma {:induction false} SmoothRun(j: Job, run: seq<State>, meta: Typed, now: int) returns (r: seq<State>)
    requires OwnRun(j, run) && Smooth(j, run[|run|-1], meta, now) && CanFinish(j)
    ensures OwnRun(j, r) && r[0] == run[0] && Finished(j, r[|r|-1]) && Smooth(j, r[|r|-1], meta, now)
    decreases 6 - run[|run|-1].progress.n, Barrier.Remaining(j.Layers(), run[|run|-1].barrier)
  {
    var last := run[|run|-1];
    if Finished(j, last) {
      r := run;
    } else {
      Barrier.SomeRemaining(j.Layers(), last.barrier);
      var s' := SmoothStep(j, last, meta, now);
      Barrier.SomeRemaining(j.Layers(), s'.barrier);
      hide Next, Inv, Barrier.Smooth, Barrier.Remaining, Barrier.Inv, CanFinish;
      r := SmoothRun(j, run + [s'], meta, now);
    }
  }

  /** From given stores to the end with no other activity. */
  ghost predicate Finishes(j: Job, store: Files, meta: Typed, run: seq<State>) {
    && OwnRun(j, run) && IsRun(j, run) && Finished(j, run[|run|-1])
    && run[0].barrier.store == store && run[0].meta == meta
  }

  /** Left to itself the job finishes: the image is complete, exactly its record and
      its links are new, and a release shows its tag. */
  lemma SomeRunFinishes(j: Job, store: Files, meta: Typed, now: int) returns (run: seq<State>, links: set<string>)
    requires CanFinish(j) && ContentAddressed(j.sha, store)
    requires j.kind.Release? && Shows(j, meta) ==> Complete(j, store)
    ensures Finishes(j, store, meta, run) && Complete(j, run[|run|-1].barrier.store)
    ensures j.kind.Release? && !IsDigestRef(j.tag) ==> Shows(j, run[|run|-1].meta)
    ensures run[|run|-1].meta == WithRecord(j, meta, now).LinkAll(links, j.repo)
    ensures forall d :: d in links <==> ToLink(j, d)
  {
    var s0 := Init(j, store, meta);
    assert IsRun(j, [s0]);
    RunInv(j, [s0], 0);
    assert forall t :: !Behind(j, s0, t);
    run := SmoothRun(j, [s0], meta, now);
    links := j.Links();
    LinksExactly(j);
    FinishedImpliesComplete(j, run, |run| - 1);
    EndIsBehind(j, run[|run|-1]);
  }

  lemma EndIsBehind(j: Job, s: State)
    requires Finished(j, s)
    ensures Behind(j, s, Publish) && Behind(j, s, Link)
  {
    var o := j.Order();
    assert o[2] == Publish || o[4] == Publish;
    assert o[3] == Link || o[5] == Link;
  }

  /** A job can finish from a store exactly if upstream can serve it. */
  lemma CanFinishExactly(j: Job, store: Files, meta: Typed)
    requires ContentAddressed(j.sha, store) && (j.kind.Release? && Shows(j, meta) ==> Complete(j, store))
    ensures CanFinish(j) <==> exists run :: Finishes(j, store, meta, run)
  {
    if CanFinish(j) {
      var run, _ := SomeRunFinishes(j, store, meta, 0);
    }
    if run: seq<State> :| Finishes(j, store, meta, run) {
      FinishedImpliesComplete(j, run, |run| - 1);
      RunGrows(j, run, |run| - 1);
      CompleteIsObtainable(j, run[|run|-1].barrier.store);
    }
  }

  lemma CompleteIsObtainable(j: Job, store: Files)
    requires ContentAddressed(j.sha, store) && Complete(j, store)
    ensures CanFinish(j)
  {
    if !SkipsConfig(j) {
      Barrier.PresentIsObtainable(j.sha, store, j.Parsed().config);
    }
    forall k | 0 <= k < |j.Parsed().layers| ensures Barrier.Obtainable(j.sha, j.Layers().layers[k]) {
      assert Barrier.LayerThere(j.Layers(), store, k);
      Barrier.PresentIsObtainable(j.sha, store, j.Parsed().layers[k]);
    }
  }
}
