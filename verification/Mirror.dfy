/** The completeness gate of the release pipeline: `VerifyMirror`
    (internal/releases/manager.go) with `LookupComponentManifest`
    (internal/releases/cloner.go), and what the earlier phases of `CloneRelease`
    guarantee about its verdict. */
module Mirror {
  import opened Digests
  import opened Blobs
  import opened Relations
  import opened Seqs
  import Barrier
  import Clone
  import WorkerPool
  import opened ImageRefs

  type Component = WorkerPool.Component

  function Lookup(store: Files, imageRef: string): Option<Bytes> {
    var ref := ParseImageRef(imageRef).ref;
    if ref == "" || !Valid(ref) || !Has(store, ref) then None else Some(Content(store, ref))
  }

  /* ---- counting ---- */

  predicate There(store: Files, d: string) {
    Valid(d) && Has(store, d)
  }

  predicate AllThere(store: Files, ds: seq<string>) {
    forall i :: 0 <= i < |ds| ==> There(store, ds[i])
  }

  lemma AllThereButLast(store: Files, ds: seq<string>)
    requires ds != []
    ensures AllThere(store, ds) <==> AllThere(store, ds[..|ds|-1]) && There(store, ds[|ds|-1])
  {
    var init := ds[..|ds|-1];
    assert forall i :: 0 <= i < |init| ==> init[i] == ds[i];
  }

  function DigestsOf(m: Clone.Manifest): seq<string> {
    (if m.config != "" then [m.config] else []) + m.layers
  }

  /** Config, if there is one, and every layer are there. */
  predicate BlobsThere(store: Files, m: Clone.Manifest) {
    (m.config != "" ==> There(store, m.config)) && forall k :: 0 <= k < |m.layers| ==> There(store, m.layers[k])
  }

  lemma DigestsAreAll(store: Files, m: Clone.Manifest)
    ensures AllThere(store, DigestsOf(m)) <==> BlobsThere(store, m)
    ensures |DigestsOf(m)| == |m.layers| + if m.config != "" then 1 else 0
  {
    hide There;
    var ds, n := DigestsOf(m), if m.config != "" then 1 else 0;
    assert forall k :: 0 <= k < |m.layers| ==> ds[n+k] == m.layers[k];
    assert m.config != "" ==> ds[0] == m.config;
  }

  function AppendCapped(xs: seq<string>, x: string, max: nat): seq<string> {
    if |xs| >= max then xs else xs + [x]
  }

  datatype Tally = Tally(expected: nat, present: nat, missing: seq<string>)

  function Check(store: Files, t: Tally, d: string): Tally {
    if !Valid(d) then t.(expected := t.expected + 1)
    else if Has(store, d) then t.(expected := t.expected + 1, present := t.present + 1)
    else t.(expected := t.expected + 1, missing := AppendCapped(t.missing, d, 50))
  }

  function CheckAll(store: Files, t: Tally, ds: seq<string>): Tally {
    if ds == [] then t else Check(store, CheckAll(store, t, ds[..|ds|-1]), ds[|ds|-1])
  }

  /** Both counters move together exactly while everything is there. */
  lemma {:induction false} CheckAllExact(store: Files, t: Tally, ds: seq<string>)
    requires t.present <= t.expected
    ensures CheckAll(store, t, ds).present <= CheckAll(store, t, ds).expected
    ensures CheckAll(store, t, ds).present == CheckAll(store, t, ds).expected
      <==> t.present == t.expected && AllThere(store, ds)
  {
    if ds != [] {
      CheckAllExact(store, t, ds[..|ds|-1]);
      AllThereButLast(store, ds);
      hide AllThere;
    }
  }

  /** Every digest reported as missing is missing, and while the report has
      room it is all of them. */
  lemma {:induction false} CheckAllReports(store: Files, t: Tally, ds: seq<string>)
    ensures forall d :: d in CheckAll(store, t, ds).missing && d !in t.missing ==> d in ds && Valid(d) && !Has(store, d)
    ensures |CheckAll(store, t, ds).missing| < 50 ==>
      forall d :: d in ds && Valid(d) && !Has(store, d) ==> d in CheckAll(store, t, ds).missing
    ensures |t.missing| <= |CheckAll(store, t, ds).missing|
    ensures |t.missing| <= 50 ==> |CheckAll(store, t, ds).missing| <= 50
  {
    if ds != [] {
      CheckAllReports(store, t, ds[..|ds|-1]);
      assert ds == ds[..|ds|-1] + [ds[|ds|-1]];
    }
  }

  /** Every digest is expected once, and counted once if it is there. */
  lemma {:induction false} CheckAllCounts(store: Files, t: Tally, ds: seq<string>, good: set<string>)
    requires forall d :: d in ds ==> (d in good <==> There(store, d))
    ensures CheckAll(store, t, ds).expected == t.expected + |ds|
    ensures CheckAll(store, t, ds).present == t.present + |Keep(ds, good)|
  {
    if ds != [] {
      CheckAllCounts(store, t, ds[..|ds|-1], good);
      assert ds[|ds|-1] in ds;
    }
  }

  datatype Count = Count(manifests: nat, blobs: Tally, missing: seq<string>)

  /** A manifest counts before it is decoded. */
  function CountOne(parse: Bytes -> Option<Clone.Manifest>, store: Files, c: Count, x: Component): Count {
    match Lookup(store, x.ref)
    case None => c.(missing := c.missing + [x.name])
    case Some(bytes) =>
      match parse(bytes)
      case None => c.(manifests := c.manifests + 1, missing := c.missing + [x.name])
      case Some(m) => c.(manifests := c.manifests + 1, blobs := CheckAll(store, c.blobs, DigestsOf(m)))
  }

  function CountAll(parse: Bytes -> Option<Clone.Manifest>, store: Files, c: Count, xs: seq<Component>): Count {
    if xs == [] then c else CountOne(parse, store, CountAll(parse, store, c, xs[..|xs|-1]), xs[|xs|-1])
  }

  /** Found, and all there as far as it can be decoded. */
  predicate Served(parse: Bytes -> Option<Clone.Manifest>, store: Files, x: Component) {
    match Lookup(store, x.ref)
    case None => false
    case Some(bytes) =>
      match parse(bytes)
      case None => true
      case Some(m) => BlobsThere(store, m)
  }

  predicate AllServed(parse: Bytes -> Option<Clone.Manifest>, store: Files, xs: seq<Component>) {
    forall i :: 0 <= i < |xs| ==> Served(parse, store, xs[i])
  }

  lemma AllServedButLast(parse: Bytes -> Option<Clone.Manifest>, store: Files, xs: seq<Component>)
    requires xs != []
    ensures AllServed(parse, store, xs) <==> AllServed(parse, store, xs[..|xs|-1]) && Served(parse, store, xs[|xs|-1])
  {
    hide Served;
    var init := xs[..|xs|-1];
    assert forall i :: 0 <= i < |init| ==> init[i] == xs[i];
  }

  lemma {:induction false} CountAllExact(parse: Bytes -> Option<Clone.Manifest>, store: Files, c: Count, xs: seq<Component>)
    requires c.blobs.present == c.blobs.expected && c.manifests == 0
    ensures var r := CountAll(parse, store, c, xs);
      && r.blobs.present <= r.blobs.expected && r.manifests <= |xs|
      && (r.blobs.present == r.blobs.expected && r.manifests == |xs|
          <==> AllServed(parse, store, xs))
  {
    if xs != [] {
      var init, last := xs[..|xs|-1], xs[|xs|-1];
      CountAllExact(parse, store, c, init);
      CountOneExact(parse, store, CountAll(parse, store, c, init), last);
      AllServedButLast(parse, store, xs);
      hide AllServed, CountOne, Served;
    }
  }

  lemma CountOneExact(parse: Bytes -> Option<Clone.Manifest>, store: Files, c: Count, x: Component)
    requires c.blobs.present <= c.blobs.expected
    ensures var r := CountOne(parse, store, c, x);
      && r.blobs.present <= r.blobs.expected && c.manifests <= r.manifests <= c.manifests + 1
      && (r.blobs.present == r.blobs.expected && r.manifests == c.manifests + 1
          <==> c.blobs.present == c.blobs.expected && Served(parse, store, x))
  {
    match Lookup(store, x.ref) {
      case None =>
      case Some(bytes) =>
        match parse(bytes) {
          case None =>
          case Some(m) =>
            CheckAllExact(store, c.blobs, DigestsOf(m));
            DigestsAreAll(store, m);
        }
    }
  }

  /* ---- the gate ---- */

  datatype Verdict =
    | ReleaseNotFound
    | ReleaseUnreadable
    | ReleaseUndecodable
    | ReferencesUnreadable(release: Tally)
    | Interrupted(release: Tally, components: Count)
    | Verified(complete: bool, release: Tally, components: Count, componentsExpected: nat)

  function ReleaseBytes(store: Files, meta: Typed, repo: string, tag: string): Option<Bytes> {
    match meta.Get(repo, tag)
    case None => None
    case Some(m) => if There(store, m.digest) then Some(Content(store, m.digest)) else None
  }

  /** What `Complete` promises: the release and every component are served. */
  predicate MirrorComplete(parse: Bytes -> Option<Clone.Manifest>, store: Files, release: Clone.Manifest, xs: seq<Component>) {
    BlobsThere(store, release) && AllServed(parse, store, xs)
  }

  method CheckDigests(store: Files, t: Tally, ds: seq<string>) returns (r: Tally)
    ensures r == CheckAll(store, t, ds)
  {
    var expected, present, missing := t.expected, t.present, t.missing;
    for i := 0 to |ds|
      invariant Tally(expected, present, missing) == CheckAll(store, t, ds[..i])
    {
      assert ds[..i+1][..i] == ds[..i];
      expected := expected + 1;
      if Valid(ds[i]) {
        if BlobPath(ds[i]) in store {
          present := present + 1;
        } else {
          missing := AppendCapped(missing, ds[i], 50);
        }
      }
    }
    assert ds[..|ds|] == ds;
    r := Tally(expected, present, missing);
  }

  method CountComponents(parse: Bytes -> Option<Clone.Manifest>, store: Files, c: Count, xs: seq<Component>,
                         cancelled: Option<nat>) returns (r: Count, interrupted: bool)
    ensures interrupted <==> cancelled.Some? && cancelled.value < |xs|
    ensures r == CountAll(parse, store, c, if interrupted then xs[..cancelled.value] else xs)
  {
    var manifests, blobs, missing := c.manifests, c.blobs, c.missing;
    for i := 0 to |xs|
      invariant Count(manifests, blobs, missing) == CountAll(parse, store, c, xs[..i])
      invariant cancelled.Some? ==> cancelled.value >= i
    {
      assert xs[..i+1][..i] == xs[..i];
      if cancelled == Some(i) {
        return Count(manifests, blobs, missing), true;
      }
      var bytes := Lookup(store, xs[i].ref);
      if bytes.None? {
        missing := missing + [xs[i].name];
        continue;
      }
      manifests := manifests + 1;
      var m := parse(bytes.value);
      if m.None? {
        missing := missing + [xs[i].name];
        continue;
      }
      blobs := CheckDigests(store, blobs, DigestsOf(m.value));
    }
    assert xs[..|xs|] == xs;
    r, interrupted := Count(manifests, blobs, missing), false;
  }

  /** `refs` in the order in which the map is walked; `cancelled` is the round
      that finds the context cancelled. */
  method VerifyMirror(parse: Bytes -> Option<Clone.Manifest>, store: Files, meta: Typed, repo: string, tag: string,
                      refs: Option<seq<Component>>, cancelled: Option<nat>) returns (v: Verdict)
    ensures v.ReleaseNotFound? <==> meta.Get(repo, tag).None?
    ensures v.ReleaseUnreadable? <==> meta.Get(repo, tag).Some? && ReleaseBytes(store, meta, repo, tag).None?
    ensures v.ReleaseUndecodable? <==>
      ReleaseBytes(store, meta, repo, tag).Some? && parse(ReleaseBytes(store, meta, repo, tag).value).None?
    ensures v.Interrupted? ==> refs.Some? && cancelled.Some? && cancelled.value < |refs.value|
    ensures v.Verified? <==>
      && ReleaseBytes(store, meta, repo, tag).Some? && parse(ReleaseBytes(store, meta, repo, tag).value).Some?
      && refs.Some? && (cancelled.None? || cancelled.value >= |refs.value|)
    ensures v.Verified? ==>
      var release := parse(ReleaseBytes(store, meta, repo, tag).value).value;
      && (v.complete <==> MirrorComplete(parse, store, release, refs.value))
      && v.release == CheckAll(store, Tally(0, 0, []), DigestsOf(release))
      && v.components == CountAll(parse, store, Count(0, Tally(0, 0, v.release.missing), []), refs.value)
      && v.componentsExpected == |refs.value|
  {
    var rmeta := meta.Get(repo, tag);
    if rmeta.None? {
      return ReleaseNotFound;
    }
    if !There(store, rmeta.value.digest) {
      return ReleaseUnreadable;
    }
    var decoded := parse(Content(store, rmeta.value.digest));
    if decoded.None? {
      return ReleaseUndecodable;
    }
    var release := CheckDigests(store, Tally(0, 0, []), DigestsOf(decoded.value));
    if refs.None? {
      return ReferencesUnreadable(release);
    }
    var start := Count(0, Tally(0, 0, release.missing), []);
    var count, interrupted := CountComponents(parse, store, start, refs.value, cancelled);
    if interrupted {
      return Interrupted(release, count);
    }
    CheckAllExact(store, Tally(0, 0, []), DigestsOf(decoded.value));
    DigestsAreAll(store, decoded.value);
    CountAllExact(parse, store, start, refs.value);
    v := Verified(release.present == release.expected && count.manifests == |refs.value|
                    && count.blobs.present == count.blobs.expected,
                  release, count, |refs.value|);
  }

  /* ---- what the verdict is worth ---- */

  /** Its manifest is found and decodes, and everything it names is there. */
  predicate Ships(parse: Bytes -> Option<Clone.Manifest>, store: Files, x: Component) {
    match Lookup(store, x.ref)
    case None => false
    case Some(bytes) =>
      match parse(bytes)
      case None => false
      case Some(m) => BlobsThere(store, m)
  }

  /** Everything an extraction without network needs. */
  predicate SelfContained(parse: Bytes -> Option<Clone.Manifest>, store: Files, release: Clone.Manifest, xs: seq<Component>) {
    BlobsThere(store, release) && forall i :: 0 <= i < |xs| ==> Ships(parse, store, xs[i])
  }

  /** Its manifest is found and does not decode. */
  predicate Garbled(parse: Bytes -> Option<Clone.Manifest>, store: Files, x: Component) {
    Lookup(store, x.ref).Some? && parse(Lookup(store, x.ref).value).None?
  }

  predicate Readable(parse: Bytes -> Option<Clone.Manifest>, store: Files, x: Component) {
    Lookup(store, x.ref).Some? && parse(Lookup(store, x.ref).value).Some?
  }

  predicate AllReadable(parse: Bytes -> Option<Clone.Manifest>, store: Files, xs: seq<Component>) {
    forall i :: 0 <= i < |xs| ==> Readable(parse, store, xs[i])
  }

  lemma AllReadableButLast(parse: Bytes -> Option<Clone.Manifest>, store: Files, xs: seq<Component>)
    requires xs != []
    ensures AllReadable(parse, store, xs) <==> AllReadable(parse, store, xs[..|xs|-1]) && Readable(parse, store, xs[|xs|-1])
  {
    hide Readable;
    var init := xs[..|xs|-1];
    assert forall i :: 0 <= i < |init| ==> init[i] == xs[i];
  }

  lemma OneReported(parse: Bytes -> Option<Clone.Manifest>, store: Files, c: Count, x: Component)
    ensures CountOne(parse, store, c, x).missing == [] <==> c.missing == [] && Readable(parse, store, x)
  {
    hide Lookup, CheckAll;
  }

  /** The report names the components that are not found and those that do not decode. */
  lemma {:induction false} ReportedComponents(parse: Bytes -> Option<Clone.Manifest>, store: Files, c: Count, xs: seq<Component>)
    ensures CountAll(parse, store, c, xs).missing == [] <==>
      c.missing == [] && AllReadable(parse, store, xs)
  {
    if xs != [] {
      var init, last := xs[..|xs|-1], xs[|xs|-1];
      ReportedComponents(parse, store, c, init);
      OneReported(parse, store, CountAll(parse, store, c, init), last);
      AllReadableButLast(parse, store, xs);
      hide CountOne, Readable, AllReadable;
    }
  }

  function Names(xs: seq<Component>): seq<string> {
    seq(|xs|, i requires 0 <= i < |xs| => xs[i].name)
  }

  /** Manifests are counted as they are found, decoded or not. */
  lemma {:induction false} CountsFound(parse: Bytes -> Option<Clone.Manifest>, store: Files, c: Count, xs: seq<Component>,
                                       found: set<Component>)
    requires forall i :: 0 <= i < |xs| ==> (xs[i] in found <==> Lookup(store, xs[i].ref).Some?)
    ensures CountAll(parse, store, c, xs).manifests == c.manifests + |Keep(xs, found)|
  {
    if xs != [] {
      var init, last := xs[..|xs|-1], xs[|xs|-1];
      CountsFound(parse, store, c, init, found);
      OneCounts(parse, store, CountAll(parse, store, c, init), last);
      hide CountOne, Lookup;
    }
  }

  predicate BadAmong(parse: Bytes -> Option<Clone.Manifest>, store: Files, xs: seq<Component>, bad: set<Component>) {
    forall i :: 0 <= i < |xs| ==> (xs[i] in bad <==> !Readable(parse, store, xs[i]))
  }

  lemma BadButLast(parse: Bytes -> Option<Clone.Manifest>, store: Files, xs: seq<Component>, bad: set<Component>)
    requires xs != [] && BadAmong(parse, store, xs, bad)
    ensures BadAmong(parse, store, xs[..|xs|-1], bad) && (xs[|xs|-1] in bad <==> !Readable(parse, store, xs[|xs|-1]))
  {
    hide Readable;
  }

  /** Reported, in order, are the names of those not found or not decoded. */
  lemma {:induction false} ReportsNames(parse: Bytes -> Option<Clone.Manifest>, store: Files, c: Count, xs: seq<Component>,
                                        bad: set<Component>)
    requires BadAmong(parse, store, xs, bad)
    ensures CountAll(parse, store, c, xs).missing == c.missing + Names(Keep(xs, bad))
  {
    hide BadAmong, CountAll, Keep, Names, Readable;
    if xs == [] {
      ReportsNone(parse, store, c, bad);
    } else {
      BadButLast(parse, store, xs, bad);
      ReportsNames(parse, store, c, xs[..|xs|-1], bad);
      ReportsOneMore(parse, store, c, xs, bad);
    }
  }

  lemma ReportsNone(parse: Bytes -> Option<Clone.Manifest>, store: Files, c: Count, bad: set<Component>)
    ensures CountAll(parse, store, c, []).missing == c.missing + Names(Keep([], bad))
  {
    assert Names([]) == [];
  }

  lemma ReportsOneMore(parse: Bytes -> Option<Clone.Manifest>, store: Files, c: Count, xs: seq<Component>, bad: set<Component>)
    requires xs != [] && (xs[|xs|-1] in bad <==> !Readable(parse, store, xs[|xs|-1]))
    requires CountAll(parse, store, c, xs[..|xs|-1]).missing == c.missing + Names(Keep(xs[..|xs|-1], bad))
    ensures CountAll(parse, store, c, xs).missing == c.missing + Names(Keep(xs, bad))
  {
    hide CountOne, Readable, Names;
    var init, last := xs[..|xs|-1], xs[|xs|-1];
    OneCounts(parse, store, CountAll(parse, store, c, init), last);
    assert CountAll(parse, store, c, xs).missing == CountOne(parse, store, CountAll(parse, store, c, init), last).missing;
    NamesKept(Keep(init, bad), last);
    assert Keep(xs, bad) == if last in bad then Keep(init, bad) + [last] else Keep(init, bad);
    Joined(c.missing, Names(Keep(init, bad)), last.name);
  }

  lemma Joined(a: seq<string>, b: seq<string>, x: string)
    ensures a + b + [x] == a + (b + [x]) && b + [] == b
  {
  }

  lemma NamesKept(kept: seq<Component>, last: Component)
    ensures Names(kept + [last]) == Names(kept) + [last.name]
  {
  }

  lemma OneCounts(parse: Bytes -> Option<Clone.Manifest>, store: Files, c: Count, x: Component)
    ensures CountOne(parse, store, c, x).manifests == c.manifests + if Lookup(store, x.ref).Some? then 1 else 0
    ensures CountOne(parse, store, c, x).missing == if Readable(parse, store, x) then c.missing else c.missing + [x.name]
  {
    hide Lookup, CheckAll;
  }

  /** `Complete` alone does not mean that the mirror is self-contained; `Complete`
      with no component reported does, and nothing else does. */
  lemma CompleteIsSelfContained(parse: Bytes -> Option<Clone.Manifest>, store: Files, release: Clone.Manifest,
                                xs: seq<Component>, c: Count)
    requires c.missing == []
    ensures SelfContained(parse, store, release, xs) <==>
      MirrorComplete(parse, store, release, xs) && CountAll(parse, store, c, xs).missing == []
  {
    ReportedComponents(parse, store, c, xs);
    hide CountAll, Lookup, BlobsThere;
    forall i | 0 <= i < |xs|
      ensures Ships(parse, store, xs[i]) <==> Served(parse, store, xs[i]) && Readable(parse, store, xs[i])
    {}
  }

  /** The gate passes a mirror that is not self-contained exactly if some
      component manifest is garbled and everything else is there. */
  lemma GarbledPasses(parse: Bytes -> Option<Clone.Manifest>, store: Files, release: Clone.Manifest, xs: seq<Component>)
    ensures MirrorComplete(parse, store, release, xs) && !SelfContained(parse, store, release, xs) <==>
      && BlobsThere(store, release)
      && (forall i :: 0 <= i < |xs| ==> Ships(parse, store, xs[i]) || Garbled(parse, store, xs[i]))
      && (exists i :: 0 <= i < |xs| && Garbled(parse, store, xs[i]))
  {
    hide Lookup, BlobsThere;
    forall i | 0 <= i < |xs|
      ensures Served(parse, store, xs[i]) <==> Ships(parse, store, xs[i]) || Garbled(parse, store, xs[i])
      ensures Garbled(parse, store, xs[i]) ==> !Ships(parse, store, xs[i])
    {}
  }

  /* ---- the whole pipeline ---- */

  ghost predicate NoCollision(sha: Bytes -> string, bytes: Bytes) {
    forall other :: sha(other) == sha(bytes) ==> other == bytes
  }

  /** An honest upstream: the reference is the digest of the manifest it leads to. */
  ghost predicate Honest(j: Clone.Job, ref: string) {
    Valid(ref) && j.Digest() == ref && NoCollision(j.sha, j.bytes)
  }

  /** `PullComponentImage` skips a config with an invalid digest. */
  predicate ConfigValid(j: Clone.Job) {
    j.Parsed().config == "" || Valid(j.Parsed().config)
  }

  /** With its manifest there, an image is complete exactly if its blobs are there,
      up to a config that is no digest and is skipped. */
  lemma CompleteBlobs(j: Clone.Job, store: Files)
    requires j.parse(j.bytes).Some? && Clone.HasManifest(j, store)
    ensures BlobsThere(store, j.Parsed()) <==> Clone.Complete(j, store) && ConfigValid(j)
  {
    hide Has;
    assert forall k :: 0 <= k < |j.Parsed().layers| ==>
      (Barrier.LayerThere(j.Layers(), store, k) <==> There(store, j.Parsed().layers[k]));
  }

  lemma FoundAgain(j: Clone.Job, store: Files)
    requires ContentAddressed(j.sha, store) && NoCollision(j.sha, j.bytes) && Clone.HasManifest(j, store)
    ensures Content(store, j.Digest()) == j.bytes
  {
  }

  /** A component ships exactly if its image is complete and its config digest, if
      any, is valid; once its manifest is stored and decodes, the gate counts it
      exactly then. */
  lemma ShipsExactly(j: Clone.Job, store: Files, x: Component)
    requires ContentAddressed(j.sha, store) && Honest(j, ParseImageRef(x.ref).ref)
    ensures Ships(j.parse, store, x) <==> Clone.Complete(j, store) && ConfigValid(j)
    ensures Clone.HasManifest(j, store) && j.parse(j.bytes).Some? ==>
      (Served(j.parse, store, x) <==> Clone.Complete(j, store) && ConfigValid(j))
  {
    if Clone.HasManifest(j, store) {
      FoundAgain(j, store);
      if j.parse(j.bytes).Some? {
        CompleteBlobs(j, store);
      }
    }
    hide BlobsThere, Clone.HasLayers, ConfigValid;
  }

  /** The same for the release under its tag: the gate's view of the release is
      that of `Clone`. */
  lemma ReleaseExactly(rel: Clone.Job, meta: Typed, store: Files)
    requires rel.kind.Release? && ContentAddressed(rel.sha, store) && NoCollision(rel.sha, rel.bytes)
    requires meta.Get(rel.repo, rel.tag).Some? && meta.Get(rel.repo, rel.tag).value.digest == rel.Digest()
    ensures Clone.Complete(rel, store) && ConfigValid(rel) <==>
      && ReleaseBytes(store, meta, rel.repo, rel.tag) == Some(rel.bytes)
      && rel.parse(rel.bytes).Some? && BlobsThere(store, rel.Parsed())
  {
    if Clone.HasManifest(rel, store) {
      FoundAgain(rel, store);
      if rel.parse(rel.bytes).Some? {
        CompleteBlobs(rel, store);
      }
    }
    hide BlobsThere, Clone.HasLayers, ConfigValid;
  }

  /** `CloneRelease`: if `Clone` and then `MirrorComponents` return nil without
      cancellation and nothing is deleted, the gate finds the mirror complete, and
      it is self-contained, exactly if no component names its config by an invalid
      digest. */
  lemma PipelineIsComplete(rel: Clone.Job, cloned: seq<Clone.State>, pool: WorkerPool.Config, mirrored: seq<WorkerPool.State>,
                           meta: Typed, store: Files)
    requires rel.kind.Release? && Clone.IsRun(rel, cloned) && Clone.Finished(rel, cloned[|cloned|-1])
    requires WorkerPool.IsRun(pool, mirrored) && pool.sha == rel.sha && pool.parse == rel.parse
    requires mirrored[|mirrored|-1].main == WorkerPool.Returned(None) && !mirrored[|mirrored|-1].cancelled
    requires cloned[|cloned|-1].barrier.store.Keys <= store.Keys
    requires mirrored[|mirrored|-1].store.Keys <= store.Keys && ContentAddressed(rel.sha, store)
    requires meta.Get(rel.repo, rel.tag).Some? && meta.Get(rel.repo, rel.tag).value.digest == rel.Digest()
    requires NoCollision(rel.sha, rel.bytes)
    requires forall x :: x in pool.jobs ==> Honest(pool.Image(x.ref), ParseImageRef(x.ref).ref)
    ensures ReleaseBytes(store, meta, rel.repo, rel.tag) == Some(rel.bytes) && rel.parse(rel.bytes).Some?
    ensures MirrorComplete(rel.parse, store, rel.Parsed(), pool.jobs) <==>
      forall x :: x in pool.jobs ==> ConfigValid(pool.Image(x.ref))
    ensures SelfContained(rel.parse, store, rel.Parsed(), pool.jobs) <==>
      forall x :: x in pool.jobs ==> ConfigValid(pool.Image(x.ref))
  {
    ReleaseIsThere(rel, cloned, meta, store);
    WorkerPool.MirroredImpliesComplete(pool, mirrored, |mirrored|-1);
    hide BlobsThere, ConfigValid, Served, Ships, Honest, ReleaseBytes, WorkerPool.IsRun, Clone.IsRun, Clone.Complete;
    forall i | 0 <= i < |pool.jobs|
      ensures Ships(rel.parse, store, pool.jobs[i]) <==> ConfigValid(pool.Image(pool.jobs[i].ref))
      ensures Served(rel.parse, store, pool.jobs[i]) <==> ConfigValid(pool.Image(pool.jobs[i].ref))
    {
      var x := pool.jobs[i];
      assert Honest(pool.Image(x.ref), ParseImageRef(x.ref).ref);
      Clone.CompleteGrows(pool.Image(x.ref), mirrored[|mirrored|-1].store, store);
      CompleteHasManifest(pool.Image(x.ref), store);
      ShipsExactly(pool.Image(x.ref), store, x);
    }
    assert forall x :: x in pool.jobs <==> exists i :: 0 <= i < |pool.jobs| && pool.jobs[i] == x;
  }

  lemma ReleaseIsThere(rel: Clone.Job, cloned: seq<Clone.State>, meta: Typed, store: Files)
    requires rel.kind.Release? && Clone.IsRun(rel, cloned) && Clone.Finished(rel, cloned[|cloned|-1])
    requires cloned[|cloned|-1].barrier.store.Keys <= store.Keys && ContentAddressed(rel.sha, store)
    requires meta.Get(rel.repo, rel.tag).Some? && meta.Get(rel.repo, rel.tag).value.digest == rel.Digest()
    requires NoCollision(rel.sha, rel.bytes)
    ensures ReleaseBytes(store, meta, rel.repo, rel.tag) == Some(rel.bytes) && rel.parse(rel.bytes).Some?
    ensures BlobsThere(store, rel.Parsed())
  {
    Clone.FinishedImpliesComplete(rel, cloned, |cloned|-1);
    Clone.CompleteGrows(rel, cloned[|cloned|-1].barrier.store, store);
    ReleaseExactly(rel, meta, store);
  }

  lemma CompleteHasManifest(j: Clone.Job, store: Files)
    requires Clone.Complete(j, store)
    ensures j.parse(j.bytes).Some? && Clone.HasManifest(j, store)
  {
  }

  /** With such a component anywhere in the list the gate never passes, however
      often it is pulled. */
  lemma InvalidConfigNeverPasses(j: Clone.Job, store: Files, release: Clone.Manifest, xs: seq<Component>, x: Component)
    requires x in xs && ContentAddressed(j.sha, store) && Clone.Complete(j, store)
    requires Honest(j, ParseImageRef(x.ref).ref) && !ConfigValid(j)
    ensures !MirrorComplete(j.parse, store, release, xs)
  {
    ShipsExactly(j, store, x);
    var i :| 0 <= i < |xs| && xs[i] == x;
    assert !Served(j.parse, store, xs[i]);
  }
}
