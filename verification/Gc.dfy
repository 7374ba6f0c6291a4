/** Mark and sweep (internal/gc/collector.go). Marking follows nested manifests
    from the newest tags of each repository; sweeping removes what is not marked. */
module Gc {
  import opened Seqs
  import opened Lex
  import opened Digests
  import opened Blobs
  import opened Relations
  import opened Sums

  /** What the JSON decoder finds in a manifest or an index. */
  datatype Parsed = Parsed(config: string, layers: seq<string>, manifests: seq<string>)

  type Graph = string -> Option<Parsed>

  /** The manifest a digest names on disk, if it can be read and decoded. */
  function ManifestAt(parse: Bytes -> Option<Parsed>, files: Files, d: string): Option<Parsed> {
    if Valid(d) && Has(files, d) then parse(Content(files, d)) else None
  }

  function GraphOf(parse: Bytes -> Option<Parsed>, files: Files): Graph {
    (d: string) => ManifestAt(parse, files, d)
  }

  function Leaves(m: Parsed): set<string> {
    (if m.config != "" then {m.config} else {}) + Elements(m.layers)
  }

  /** As config or as a layer. */
  predicate NamesBlob(m: Parsed, x: string) {
    (m.config != "" && x == m.config) || exists k :: 0 <= k < |m.layers| && m.layers[k] == x
  }

  lemma LeavesAreNamed(m: Parsed)
    ensures forall x :: x in Leaves(m) <==> NamesBlob(m, x)
  {
  }

  /* ---- what is reachable, independently of how it is marked ---- */

  /** Each digest names a manifest that lists the next one. */
  ghost predicate Chain(g: Graph, path: seq<string>) {
    && path != []
    && forall i :: 0 <= i < |path| - 1 ==> g(path[i]).Some? && path[i+1] in g(path[i]).value.manifests
  }

  ghost predicate EndsAt(g: Graph, path: seq<string>, x: string)
    requires path != []
  {
    var last := path[|path|-1];
    x == last || (g(last).Some? && NamesBlob(g(last).value, x))
  }

  ghost predicate Reachable(g: Graph, root: string, x: string) {
    exists path :: Chain(g, path) && path[0] == root && EndsAt(g, path, x)
  }

  /** Content addressing keeps a manifest from listing itself, however deep:
      nested digests have smaller ranks. `markManifest` comes back because of
      this alone; it remembers no visited digests. */
  ghost predicate Ranked(g: Graph, rank: string -> nat) {
    forall d, n :: g(d).Some? && n in g(d).value.manifests ==> rank(n) < rank(d)
  }

  ghost function Marked(g: Graph, rank: string -> nat, d: string): set<string>
    requires Ranked(g, rank)
    decreases rank(d), 1
  {
    match g(d)
    case None => {d}
    case Some(m) => {d} + Leaves(m) + MarkedNested(g, rank, m.manifests, rank(d))
  }

  ghost function MarkedNested(g: Graph, rank: string -> nat, ns: seq<string>, bound: nat): set<string>
    requires Ranked(g, rank) && forall n :: n in ns ==> rank(n) < bound
    decreases bound, 0, |ns|
  {
    if ns == [] then {}
    else MarkedNested(g, rank, ns[..|ns|-1], bound) + Marked(g, rank, ns[|ns|-1])
  }

  lemma {:induction false} NestedIs(g: Graph, rank: string -> nat, ns: seq<string>, bound: nat)
    requires Ranked(g, rank) && forall n :: n in ns ==> rank(n) < bound
    ensures forall x :: x in MarkedNested(g, rank, ns, bound) <==> exists n :: n in ns && x in Marked(g, rank, n)
  {
    if ns != [] {
      var init, last := ns[..|ns|-1], ns[|ns|-1];
      NestedIs(g, rank, init, bound);
      assert ns == init + [last];
      forall x ensures x in MarkedNested(g, rank, ns, bound) <==> exists n :: n in ns && x in Marked(g, rank, n) {
        if x in MarkedNested(g, rank, init, bound) {
          var n :| n in init && x in Marked(g, rank, n);
          assert n in ns;
        }
        assert last in ns;
      }
    }
  }

  lemma NestedNext(g: Graph, rank: string -> nat, ns: seq<string>, bound: nat, i: nat)
    requires Ranked(g, rank) && i < |ns| && forall n :: n in ns ==> rank(n) < bound
    ensures MarkedNested(g, rank, ns[..i+1], bound) == MarkedNested(g, rank, ns[..i], bound) + Marked(g, rank, ns[i])
  {
    assert ns[..i+1][..|ns[..i+1]|-1] == ns[..i];
  }

  lemma {:induction false} MarkedReachable(g: Graph, rank: string -> nat, d: string, x: string)
    requires Ranked(g, rank) && x in Marked(g, rank, d)
    ensures Reachable(g, d, x)
    decreases rank(d)
  {
    if x == d || (g(d).Some? && x in Leaves(g(d).value)) {
      assert Chain(g, [d]) && EndsAt(g, [d], x);
    } else {
      NestedIs(g, rank, g(d).value.manifests, rank(d));
      var n :| n in g(d).value.manifests && x in Marked(g, rank, n);
      MarkedReachable(g, rank, n, x);
      var path :| Chain(g, path) && path[0] == n && EndsAt(g, path, x);
      assert Chain(g, [d] + path) && EndsAt(g, [d] + path, x);
    }
  }

  lemma {:induction false} ReachableMarked(g: Graph, rank: string -> nat, path: seq<string>, x: string)
    requires Ranked(g, rank) && Chain(g, path) && EndsAt(g, path, x)
    ensures x in Marked(g, rank, path[0])
    decreases |path|
  {
    if |path| > 1 {
      var tail := path[1..];
      assert Chain(g, tail) by {
        forall i | 0 <= i < |tail| - 1 ensures g(tail[i]).Some? && tail[i+1] in g(tail[i]).value.manifests {
          assert g(path[i+1]).Some? && path[i+2] in g(path[i+1]).value.manifests;
        }
      }
      ReachableMarked(g, rank, tail, x);
      assert path[1] in g(path[0]).value.manifests;
      NestedIs(g, rank, g(path[0]).value.manifests, rank(path[0]));
    }
  }

  /** Marking computes reachability. */
  lemma MarkedIffReachable(g: Graph, rank: string -> nat, d: string, x: string)
    requires Ranked(g, rank)
    ensures x in Marked(g, rank, d) <==> Reachable(g, d, x)
  {
    if x in Marked(g, rank, d) {
      MarkedReachable(g, rank, d, x);
    }
    if Reachable(g, d, x) {
      var path :| Chain(g, path) && path[0] == d && EndsAt(g, path, x);
      ReachableMarked(g, rank, path, x);
    }
  }

  /* ---- which tags are kept ---- */

  datatype TagInfo = TagInfo(name: string, digest: string, time: int)

  /** The resolvable ones of the listed tags. */
  function Infos(t: Typed, repo: string, names: seq<string>): seq<TagInfo> {
    if names == [] then []
    else
      var name := names[|names|-1];
      Infos(t, repo, names[..|names|-1]) + match t.Get(repo, name)
        case None => []
        case Some(meta) => [TagInfo(name, meta.digest, meta.createdAt)]
  }

  /** `sort.Slice` by creation time, newest first. It is not stable, so nothing
      is assumed about ties but that equal inputs give equal results. */
  ghost predicate NewestFirst(newest: seq<TagInfo> -> seq<TagInfo>) {
    forall s :: multiset(newest(s)) == multiset(s) && Descending(newest(s))
  }

  ghost predicate Descending(s: seq<TagInfo>) {
    forall i, j :: 0 <= i < j < |s| ==> s[i].time >= s[j].time
  }

  /** The retention policy, and the repositories whose tags cannot be listed. */
  datatype Policy = Policy(keepRecent: int, newest: seq<TagInfo> -> seq<TagInfo>, unlisted: set<string>) {

    function Candidates(t: Typed, repo: string): seq<TagInfo> {
      if repo in unlisted then [] else newest(Infos(t, repo, InOrder(t.TagsOf(repo))))
    }

    function KeepCount(n: nat): nat {
      if keepRecent > 0 && n > keepRecent then keepRecent else n
    }

    function Kept(t: Typed, repo: string): seq<TagInfo> {
      var all := Candidates(t, repo);
      all[..KeepCount(|all|)]
    }

    function Dropped(t: Typed, repo: string): seq<TagInfo> {
      var all := Candidates(t, repo);
      all[KeepCount(|all|)..]
    }
  }

  /** The metadata without some tags of a repository and their digest records. */
  function Without(t: Typed, repo: string, gone: seq<TagInfo>): Typed {
    t.(tags := t.tags - (set i | i in gone :: (repo, i.name)),
       manifests := t.manifests - set i | i in gone :: (repo, i.digest))
  }

  /** The metadata after the old tags of some repositories are gone. */
  function Cleaned(p: Policy, t: Typed, repos: set<string>): Typed {
    t.(tags := map k | k in t.tags && !(k.0 in repos && DropsName(p, t, k.0, k.1)) :: t.tags[k],
       manifests := map k | k in t.manifests && !(k.0 in repos && DropsDigest(p, t, k.0, k.1)) :: t.manifests[k])
  }

  predicate DropsName(p: Policy, t: Typed, repo: string, name: string) {
    exists i :: i in p.Dropped(t, repo) && i.name == name
  }

  predicate DropsDigest(p: Policy, t: Typed, repo: string, digest: string) {
    exists i :: i in p.Dropped(t, repo) && i.digest == digest
  }

  ghost function MarksOf(g: Graph, rank: string -> nat, kept: seq<TagInfo>): set<string>
    requires Ranked(g, rank)
  {
    if kept == [] then {} else MarksOf(g, rank, kept[..|kept|-1]) + Marked(g, rank, kept[|kept|-1].digest)
  }

  /** Everything marked from the kept tags of some repositories. */
  ghost function AllMarks(g: Graph, rank: string -> nat, p: Policy, t: Typed, repos: set<string>): set<string>
    requires Ranked(g, rank)
  {
    set r, x | r in repos && x in MarksOf(g, rank, p.Kept(t, r)) :: x
  }

  ghost function KeptCount(p: Policy, t: Typed, repos: set<string>): int {
    Sum(map r | r in repos :: |p.Kept(t, r)|)
  }

  ghost function DroppedCount(p: Policy, t: Typed, repos: set<string>): int {
    Sum(map r | r in repos :: |p.Dropped(t, r)|)
  }

  /* ---- sweeping ---- */

  function DigestOf(f: Path): string {
    "sha256:" + f.2
  }

  /** The files that the sweep meets: those under `blobs/sha256`. */
  function Walked(files: Files): set<Path> {
    set f | f in files && f.0 == "sha256"
  }

  predicate IsBlob(f: Path) {
    f.0 == "sha256" && |f.2| == 64
  }

  /** A blob file (by the length of its name) that nothing marked. */
  predicate Unmarked(f: Path, referenced: set<string>) {
    IsBlob(f) && DigestOf(f) !in referenced
  }

  /** What a sweep takes away. */
  function Gone(files: Files, referenced: set<string>, dryRun: bool, removeFails: set<Path>): set<Path> {
    set f | f in files && Unmarked(f, referenced) && (dryRun || f !in removeFails)
  }

  /** The repositories the mark phase goes through. */
  function Listed(t: Typed, listFails: bool): set<string> {
    if listFails then {} else t.repos.Keys
  }

  ghost function SizeOf(files: Files): int {
    Sum(map f | f in files :: |files[f]|)
  }

  /** Digest records sit under their own digest and tags never look like digests
      (`MetadataRuns.RunInvariants`). */
  ghost predicate Sane(t: Typed) {
    && (forall k :: k in t.manifests ==> t.manifests[k].digest == k.1)
    && (forall k :: k in t.tags ==> !IsDigestRef(k.1))
  }

  /* ---- repositories do not disturb each other ---- */

  ghost predicate SameRepo(a: Typed, b: Typed, repo: string) {
    && (forall x :: (repo, x) in a.tags <==> (repo, x) in b.tags)
    && (forall x :: (repo, x) in a.tags ==> a.tags[(repo, x)] == b.tags[(repo, x)])
    && (forall d :: (repo, d) in a.manifests <==> (repo, d) in b.manifests)
    && (forall d :: (repo, d) in a.manifests ==> a.manifests[(repo, d)] == b.manifests[(repo, d)])
  }

  lemma {:induction false} InfosLocal(a: Typed, b: Typed, repo: string, names: seq<string>)
    requires SameRepo(a, b, repo)
    ensures Infos(a, repo, names) == Infos(b, repo, names)
  {
    if names != [] {
      InfosLocal(a, b, repo, names[..|names|-1]);
    }
  }

  lemma CandidatesLocal(p: Policy, a: Typed, b: Typed, repo: string)
    requires SameRepo(a, b, repo)
    ensures p.Candidates(a, repo) == p.Candidates(b, repo)
  {
    forall x ensures x in a.TagsOf(repo) <==> x in b.TagsOf(repo) {
      assert x in a.TagsOf(repo) <==> (repo, x) in a.tags;
      assert x in b.TagsOf(repo) <==> (repo, x) in b.tags;
    }
    assert a.TagsOf(repo) == b.TagsOf(repo);
    InfosLocal(a, b, repo, InOrder(a.TagsOf(repo)));
  }

  lemma CleanedElsewhere(p: Policy, t: Typed, repos: set<string>, repo: string)
    requires repo !in repos
    ensures SameRepo(Cleaned(p, t, repos), t, repo)
  {}

  /** One more repository: what the mark phase takes away. */
  lemma CleanedNext(p: Policy, t: Typed, t': Typed, repos: set<string>, repo: string)
    requires repo !in repos && Sane(t) && t' == Cleaned(p, t, repos)
    ensures Sane(t')
    ensures p.Kept(t', repo) == p.Kept(t, repo) && p.Dropped(t', repo) == p.Dropped(t, repo)
    ensures Without(t', repo, p.Dropped(t, repo)) == Cleaned(p, t, repos + {repo})
  {
    CleanedElsewhere(p, t, repos, repo);
    CandidatesLocal(p, t', t, repo);
    WithoutCleaned(p, t, t', repos, repo);
  }

  lemma WithoutCleaned(p: Policy, t: Typed, t': Typed, repos: set<string>, repo: string)
    requires repo !in repos && t' == Cleaned(p, t, repos)
    ensures Without(t', repo, p.Dropped(t, repo)) == Cleaned(p, t, repos + {repo})
  {
    var a, b := Without(t', repo, p.Dropped(t, repo)), Cleaned(p, t, repos + {repo});
    forall k ensures (k in a.tags <==> k in b.tags) && (k in a.manifests <==> k in b.manifests) {
      GoneKeys(p, t, repo, k);
    }
    hide Policy.Dropped, DropsName, DropsDigest;
    assert a.tags == b.tags && a.manifests == b.manifests;
  }

  lemma GoneKeys(p: Policy, t: Typed, repo: string, k: (string, string))
    ensures k in (set i | i in p.Dropped(t, repo) :: (repo, i.name)) <==> k.0 == repo && DropsName(p, t, repo, k.1)
    ensures k in (set i | i in p.Dropped(t, repo) :: (repo, i.digest)) <==> k.0 == repo && DropsDigest(p, t, repo, k.1)
  {
  }

  lemma MarksNext(g: Graph, rank: string -> nat, p: Policy, t: Typed, repos: set<string>, repo: string)
    requires Ranked(g, rank)
    ensures AllMarks(g, rank, p, t, repos + {repo}) == AllMarks(g, rank, p, t, repos) + MarksOf(g, rank, p.Kept(t, repo))
  {}

  lemma KeptNext(p: Policy, t: Typed, repos: set<string>, repo: string)
    requires repo !in repos
    ensures KeptCount(p, t, repos + {repo}) == KeptCount(p, t, repos) + |p.Kept(t, repo)|
  {
    var m := map r | r in repos :: |p.Kept(t, r)|;
    assert (map r | r in repos + {repo} :: |p.Kept(t, r)|) == m[repo := |p.Kept(t, repo)|];
    SumSet(m, repo, |p.Kept(t, repo)|);
  }

  lemma DroppedNext(p: Policy, t: Typed, repos: set<string>, repo: string)
    requires repo !in repos
    ensures DroppedCount(p, t, repos + {repo}) == DroppedCount(p, t, repos) + |p.Dropped(t, repo)|
  {
    var m := map r | r in repos :: |p.Dropped(t, r)|;
    assert (map r | r in repos + {repo} :: |p.Dropped(t, r)|) == m[repo := |p.Dropped(t, repo)|];
    SumSet(m, repo, |p.Dropped(t, repo)|);
  }

  /* ---- facts about candidates ---- */

  /** `i` is a resolvable tag of the repository, with its manifest's data. */
  ghost predicate IsCandidate(t: Typed, repo: string, i: TagInfo) {
    && (repo, i.name) in t.tags && t.tags[(repo, i.name)] == i.digest
    && (repo, i.digest) in t.manifests
    && t.manifests[(repo, i.digest)].createdAt == i.time
  }

  lemma {:induction false} InfosAre(t: Typed, repo: string, names: seq<string>)
    requires Sane(t) && NoRepeats(names) && forall n :: n in names ==> (repo, n) in t.tags
    ensures forall i :: i in Infos(t, repo, names) <==> i.name in names && IsCandidate(t, repo, i)
    ensures NoRepeats(Infos(t, repo, names))
  {
    if names != [] {
      var init, last := names[..|names|-1], names[|names|-1];
      assert names == init + [last] && last !in init;
      InfosAre(t, repo, init);
      var d := t.tags[(repo, last)];
      if (repo, d) in t.manifests {
        var i := TagInfo(last, d, t.manifests[(repo, d)].createdAt);
        assert t.Get(repo, last) == Some(t.manifests[(repo, d)]);
        NoRepeatsMore(Infos(t, repo, init), i);
        assert Infos(t, repo, names) == Infos(t, repo, init) + [i];
      }
    }
  }

  lemma CandidatesAre(p: Policy, t: Typed, repo: string)
    requires Sane(t) && NewestFirst(p.newest)
    ensures NoRepeats(p.Candidates(t, repo))
    ensures forall i :: i in p.Candidates(t, repo) <==> repo !in p.unlisted && IsCandidate(t, repo, i)
  {
    if repo !in p.unlisted {
      var names := InOrder(t.TagsOf(repo));
      InOrderElements(t.TagsOf(repo));
      forall n ensures n in names <==> (repo, n) in t.tags {
        assert n in names <==> n in Elements(names);
        assert n in t.TagsOf(repo) <==> (repo, n) in t.tags;
      }
      InfosAre(t, repo, names);
      SameMultiset(Infos(t, repo, names), p.newest(Infos(t, repo, names)));
    }
  }

  lemma NamesDiffer(t: Typed, repo: string, s: seq<TagInfo>, i: nat)
    requires NoRepeats(s) && i < |s| && forall x :: x in s ==> IsCandidate(t, repo, x)
    ensures forall g :: g in s[..i] ==> g.name != s[i].name
  {
    forall g | g in s[..i] ensures g.name != s[i].name {
      var j :| 0 <= j < i && s[j] == g;
      assert s[j] in s && s[i] in s && s[j] != s[i];
    }
  }

  lemma DroppedAre(p: Policy, t: Typed, repo: string)
    requires Sane(t) && NewestFirst(p.newest)
    ensures NoRepeats(p.Dropped(t, repo)) && forall i :: i in p.Dropped(t, repo) ==> IsCandidate(t, repo, i)
  {
    CandidatesAre(p, t, repo);
    var all := p.Candidates(t, repo);
    assert forall i :: i in p.Dropped(t, repo) ==> i in all;
  }

  lemma NothingDropped(p: Policy, t: Typed, repo: string)
    requires repo in p.unlisted
    ensures p.Kept(t, repo) == [] && p.Dropped(t, repo) == []
    ensures Without(t, repo, p.Dropped(t, repo)) == t
  {
    assert Without(t, repo, []) == t;
  }

  lemma UnlistedMarksNothing(g: Graph, rank: string -> nat, p: Policy, t: Typed, repo: string)
    requires Ranked(g, rank) && repo in p.unlisted
    ensures p.Kept(t, repo) == [] && p.Dropped(t, repo) == []
    ensures MarksOf(g, rank, p.Kept(t, repo)) == {} && Without(t, repo, p.Dropped(t, repo)) == t
  {
    NothingDropped(p, t, repo);
  }

  lemma DeleteOne(t: Typed, repo: string, gone: seq<TagInfo>, i: TagInfo)
    requires Sane(t) && IsCandidate(t, repo, i)
    requires forall g :: g in gone ==> g.name != i.name
    ensures Without(t, repo, gone).Delete(repo, i.name) == Some(Without(t, repo, gone + [i]))
  {
    var t', t'' := Without(t, repo, gone), Without(t, repo, gone + [i]);
    assert (repo, i.name) in t'.tags;
    assert t''.tags == t'.tags - {(repo, i.name)};
    assert t''.manifests == t'.manifests - {(repo, i.digest)};
  }

  class Collector {
    const parse: Bytes -> Option<Parsed>
    const policy: Policy
    const dryRun: bool
    var metadata: Typed
    var files: Files
    var referenced: set<string>
    // the statistics of the current run
    var blobsScanned: nat
    var blobsDeleted: nat
    var bytesFreed: int
    var manifestsKept: nat
    var manifestsDeleted: nat
    var errors: nat
    var running: bool

    constructor (parse: Bytes -> Option<Parsed>, policy: Policy, dryRun: bool, metadata: Typed, files: Files)
      ensures this.parse == parse && this.policy == policy && this.dryRun == dryRun
      ensures this.metadata == metadata && this.files == files
    {
      this.parse, this.policy, this.dryRun, this.metadata, this.files := parse, policy, dryRun, metadata, files;
      blobsScanned, blobsDeleted, bytesFreed, manifestsKept, manifestsDeleted, errors := 0, 0, 0, 0, 0, 0;
      referenced, running := {}, false;
    }

    method MarkLeaves(manifest: Parsed)
      modifies `referenced
      ensures forall x :: x in referenced <==> x in old(referenced) || NamesBlob(manifest, x)
      ensures referenced == old(referenced) + Leaves(manifest)
    {
      if manifest.config != "" {
        referenced := referenced + {manifest.config};
      }
      ghost var base := referenced;
      for i := 0 to |manifest.layers|
        invariant referenced == base + Elements(manifest.layers[..i])
      {
        ElementsNext(manifest.layers, i);
        referenced := referenced + {manifest.layers[i]};
      }
      assert manifest.layers[..|manifest.layers|] == manifest.layers;
    }

    method MarkManifest(dgst: string, ghost g: Graph, ghost rank: string -> nat)
      requires g == GraphOf(parse, files) && Ranked(g, rank)
      modifies `referenced
      ensures referenced == old(referenced) + Marked(g, rank, dgst)
      decreases rank(dgst)
    {
      referenced := referenced + {dgst};
      if !Valid(dgst) || !Has(files, dgst) {
        return;
      }
      var decoded := parse(Content(files, dgst));
      if decoded.None? {
        return;
      }
      var manifest := decoded.value;
      MarkLeaves(manifest);
      ghost var base := referenced;
      var nested := manifest.manifests;
      for i := 0 to |nested|
        invariant referenced == base + MarkedNested(g, rank, nested[..i], rank(dgst))
      {
        NestedNext(g, rank, nested, rank(dgst), i);
        MarkManifest(nested[i], g, rank);
      }
      assert nested[..|nested|] == nested;
    }

    method MarkRepo(repo: string, ghost g: Graph, ghost rank: string -> nat)
      requires g == GraphOf(parse, files) && Ranked(g, rank) && NewestFirst(policy.newest) && Sane(metadata)
      modifies `referenced, `metadata, `manifestsKept, `manifestsDeleted, `errors
      ensures referenced == old(referenced) + MarksOf(g, rank, policy.Kept(old(metadata), repo))
      ensures metadata == if dryRun then old(metadata)
                          else Without(old(metadata), repo, policy.Dropped(old(metadata), repo))
      ensures manifestsKept == old(manifestsKept) + |policy.Kept(old(metadata), repo)|
      ensures manifestsDeleted == old(manifestsDeleted) + |policy.Dropped(old(metadata), repo)|
    {
      hide Policy.Kept, Policy.Dropped, Policy.Candidates;
      hide Without, NewestFirst, Sane, Ranked, GraphOf, MarksOf;
      if repo in policy.unlisted {
        errors := errors + 1;
        UnlistedMarksNothing(g, rank, policy, metadata, repo);
        return;
      }
      var kept, dropped := Choose(repo);
      DroppedAre(policy, metadata, repo);
      MarkKept(kept, g, rank);
      DeleteDropped(repo, dropped);
    }

    /** The newest tags, and the others. */
    method Choose(repo: string) returns (kept: seq<TagInfo>, dropped: seq<TagInfo>)
      requires repo !in policy.unlisted
      ensures kept == policy.Kept(metadata, repo) && dropped == policy.Dropped(metadata, repo)
    {
      hide Infos, InOrder;
      var tagInfos := CollectInfos(repo);
      tagInfos := policy.newest(tagInfos);
      var keepCount := |tagInfos|;
      if policy.keepRecent > 0 && keepCount > policy.keepRecent {
        keepCount := policy.keepRecent;
      }
      kept, dropped := tagInfos[..keepCount], tagInfos[keepCount..];
    }

    method CollectInfos(repo: string) returns (tagInfos: seq<TagInfo>)
      ensures tagInfos == Infos(metadata, repo, InOrder(metadata.TagsOf(repo)))
    {
      var tags := InOrder(metadata.TagsOf(repo));
      tagInfos := [];
      for i := 0 to |tags|
        invariant tagInfos == Infos(metadata, repo, tags[..i])
      {
        assert tags[..i+1][..|tags[..i+1]|-1] == tags[..i];
        var got := metadata.Get(repo, tags[i]);
        if got.Some? {
          tagInfos := tagInfos + [TagInfo(tags[i], got.value.digest, got.value.createdAt)];
        }
      }
      assert tags[..|tags|] == tags;
    }

    method MarkKept(kept: seq<TagInfo>, ghost g: Graph, ghost rank: string -> nat)
      requires g == GraphOf(parse, files) && Ranked(g, rank)
      modifies `referenced, `manifestsKept
      ensures referenced == old(referenced) + MarksOf(g, rank, kept)
      ensures manifestsKept == old(manifestsKept) + |kept|
    {
      for i := 0 to |kept|
        invariant referenced == old(referenced) + MarksOf(g, rank, kept[..i])
        invariant manifestsKept == old(manifestsKept) + i
      {
        assert kept[..i+1][..|kept[..i+1]|-1] == kept[..i];
        MarkManifest(kept[i].digest, g, rank);
        manifestsKept := manifestsKept + 1;
      }
      assert kept[..|kept|] == kept;
    }

    method DeleteDropped(repo: string, dropped: seq<TagInfo>)
      requires Sane(metadata) && NoRepeats(dropped) && forall i :: i in dropped ==> IsCandidate(metadata, repo, i)
      modifies `metadata, `manifestsDeleted
      ensures metadata == if dryRun then old(metadata) else Without(old(metadata), repo, dropped)
      ensures manifestsDeleted == old(manifestsDeleted) + |dropped|
    {
      WithoutNone(metadata, repo);
      hide Without, NoRepeats, IsCandidate, Sane;
      for i := 0 to |dropped|
        invariant metadata == if dryRun then old(metadata) else Without(old(metadata), repo, dropped[..i])
        invariant manifestsDeleted == old(manifestsDeleted) + i
      {
        if !dryRun {
          NamesDiffer(old(metadata), repo, dropped, i);
          DeleteOne(old(metadata), repo, dropped[..i], dropped[i]);
          assert dropped[..i+1] == dropped[..i] + [dropped[i]];
          var deleted := metadata.Delete(repo, dropped[i].name);
          if deleted.Some? {
            metadata := deleted.value;
          }
        }
        manifestsDeleted := manifestsDeleted + 1;
      }
      assert dropped[..|dropped|] == dropped;
    }

    method MarkPhase(listFails: bool, ghost g: Graph, ghost rank: string -> nat)
      requires g == GraphOf(parse, files) && Ranked(g, rank) && NewestFirst(policy.newest) && Sane(metadata)
      requires manifestsKept == manifestsDeleted == 0
      modifies `referenced, `metadata, `manifestsKept, `manifestsDeleted, `errors
      ensures Mark(referenced, metadata, manifestsKept, manifestsDeleted)
        == MarkedFrom(g, rank, policy, dryRun, old(metadata), Listed(old(metadata), listFails))
    {
      referenced := {};
      MarkedNone(g, rank, policy, dryRun, metadata);
      if listFails {
        errors := errors + 1;
        return;
      }
      var repos := InOrder(metadata.repos.Keys);
      InOrderElements(metadata.repos.Keys);
      MarkRepos(repos, g, rank);
    }

    method MarkRepos(repos: seq<string>, ghost g: Graph, ghost rank: string -> nat)
      requires g == GraphOf(parse, files) && Ranked(g, rank) && NewestFirst(policy.newest) && Sane(metadata)
      requires NoRepeats(repos)
      requires Mark(referenced, metadata, manifestsKept, manifestsDeleted) == MarkedFrom(g, rank, policy, dryRun, metadata, {})
      modifies `referenced, `metadata, `manifestsKept, `manifestsDeleted, `errors
      ensures Mark(referenced, metadata, manifestsKept, manifestsDeleted)
        == MarkedFrom(g, rank, policy, dryRun, old(metadata), Elements(repos))
    {
      hide MarkedFrom, MarksOf, Without, Sane, NewestFirst;
      ghost var t := metadata;
      assert Elements(repos[..0]) == {};
      for i := 0 to |repos|
        invariant Mark(referenced, metadata, manifestsKept, manifestsDeleted)
          == MarkedFrom(g, rank, policy, dryRun, t, Elements(repos[..i]))
      {
        ElementsNext(repos, i);
        NewElement(repos, i);
        MarkedNext(g, rank, policy, dryRun, t, Elements(repos[..i]), repos[i], metadata);
        MarkRepo(repos[i], g, rank);
      }
      assert repos[..|repos|] == repos;
    }

    /** Walks the files in any order; those in `unread` come with an error and are skipped. */
    method SweepPhase(unread: set<Path>, removeFails: set<Path>)
      requires blobsScanned == blobsDeleted == 0 && bytesFreed == 0
      modifies `files, `blobsScanned, `blobsDeleted, `bytesFreed, `errors
      ensures Sweep(files, blobsScanned, blobsDeleted, bytesFreed)
        == SweptBut(Walked(old(files)) - unread, {}, old(files), dryRun, Gone(old(files), referenced, dryRun, removeFails) - unread)
    {
      GoneWalked(files, referenced, dryRun, unread, removeFails);
      hide SweptBut, Gone, Walked, Unmarked;
      ghost var before, all := files, Gone(files, referenced, dryRun, removeFails) - unread;
      var todo := Walked(files) - unread;
      ghost var walk := todo;
      SweptNone(walk, before, dryRun, all);
      while todo != {}
        invariant todo <= walk
        invariant Sweep(files, blobsScanned, blobsDeleted, bytesFreed) == SweptBut(walk, todo, before, dryRun, all)
        decreases todo
      {
        var f :| f in todo;
        SweptNext(walk, todo, before, dryRun, all, f);
        var taken := SweepFile(f, removeFails);
        assert taken <==> f in all;
        todo := todo - {f};
      }
    }

    method SweepFile(f: Path, removeFails: set<Path>) returns (taken: bool)
      requires f in files && f.0 == "sha256"
      modifies `files, `blobsScanned, `blobsDeleted, `bytesFreed, `errors
      ensures taken <==> Unmarked(f, referenced) && (dryRun || f !in removeFails)
      ensures files == if taken && !dryRun then old(files) - {f} else old(files)
      ensures blobsScanned == old(blobsScanned) + 1
      ensures blobsDeleted == old(blobsDeleted) + if taken then 1 else 0
      ensures bytesFreed == old(bytesFreed) + if taken then |old(files)[f]| else 0
    {
      var size := |files[f]|;
      blobsScanned := blobsScanned + 1;
      if |f.2| != 64 {
        return false;
      }
      if DigestOf(f) in referenced {
        return false;
      }
      if !dryRun {
        if f in removeFails {
          errors := errors + 1;
          return false;
        }
        files := files - {f};
      }
      blobsDeleted := blobsDeleted + 1;
      bytesFreed := bytesFreed + size;
      return true;
    }

    /** Nothing happens while another run is under way. */
    method Run(listFails: bool, unread: set<Path>, removeFails: set<Path>, ghost g: Graph, ghost rank: string -> nat)
      returns (ran: bool)
      requires g == GraphOf(parse, files) && Ranked(g, rank) && NewestFirst(policy.newest) && Sane(metadata)
      modifies this
      ensures ran == !old(running) && running == old(running)
      ensures !ran ==> metadata == old(metadata) && files == old(files) && referenced == old(referenced)
      ensures ran ==>
        MarkedFrom(g, rank, policy, dryRun, old(metadata), Listed(old(metadata), listFails))
          == Mark(referenced, metadata, manifestsKept, manifestsDeleted)
      ensures ran ==>
        SweptBut(Walked(old(files)) - unread, {}, old(files), dryRun, Gone(old(files), referenced, dryRun, removeFails) - unread)
          == Sweep(files, blobsScanned, blobsDeleted, bytesFreed)
    {
      hide MarkedFrom, SweptBut, Gone, NewestFirst, Sane, Ranked, GraphOf;
      if running {
        return false;
      }
      running := true;
      blobsScanned, blobsDeleted, bytesFreed, manifestsKept, manifestsDeleted, errors := 0, 0, 0, 0, 0, 0;
      MarkPhase(listFails, g, rank);
      SweepPhase(unread, removeFails);
      running := false;
      return true;
    }
  }

  /* ---- what the two loops have done so far ---- */

  datatype Mark = Mark(referenced: set<string>, metadata: Typed, kept: int, dropped: int)

  /** After the repositories in `done`: marks, metadata and counts. */
  ghost function MarkedFrom(g: Graph, rank: string -> nat, p: Policy, dryRun: bool, t: Typed, done: set<string>): Mark
    requires Ranked(g, rank)
  {
    Mark(AllMarks(g, rank, p, t, done), if dryRun then t else Cleaned(p, t, done), KeptCount(p, t, done), DroppedCount(p, t, done))
  }

  lemma WithoutNone(t: Typed, repo: string)
    ensures Without(t, repo, []) == t
  {
    assert Without(t, repo, []).tags == t.tags && Without(t, repo, []).manifests == t.manifests;
  }

  lemma MarkedNone(g: Graph, rank: string -> nat, p: Policy, dryRun: bool, t: Typed)
    requires Ranked(g, rank)
    ensures MarkedFrom(g, rank, p, dryRun, t, {}) == Mark({}, t, 0, 0)
  {
    assert Cleaned(p, t, {}).tags == t.tags && Cleaned(p, t, {}).manifests == t.manifests;
  }

  /** What `MarkRepo` then adds and takes away leads to the same for one more. */
  lemma MarkedNext(g: Graph, rank: string -> nat, p: Policy, dryRun: bool, t: Typed, done: set<string>, repo: string, now: Typed)
    requires Ranked(g, rank) && Sane(t) && repo !in done
    requires now == MarkedFrom(g, rank, p, dryRun, t, done).metadata
    ensures Sane(now)
    ensures var m := MarkedFrom(g, rank, p, dryRun, t, done);
      MarkedFrom(g, rank, p, dryRun, t, done + {repo}) ==
        Mark(m.referenced + MarksOf(g, rank, p.Kept(now, repo)),
             if dryRun then now else Without(now, repo, p.Dropped(now, repo)),
             m.kept + |p.Kept(now, repo)|, m.dropped + |p.Dropped(now, repo)|)
  {
    hide Cleaned, Without, AllMarks, KeptCount, DroppedCount, MarksOf, Policy.Kept, Policy.Dropped, Sane, Ranked;
    MarksNext(g, rank, p, t, done, repo);
    KeptNext(p, t, done, repo);
    DroppedNext(p, t, done, repo);
    CleanedNext(p, t, Cleaned(p, t, done), done, repo);
  }

  datatype Sweep = Sweep(files: Files, scanned: int, deleted: int, freed: int)

  /** Of the files in `walk` all but those in `todo` have been looked at; of `all`
      that is to go, the ones looked at are gone and counted. */
  ghost function SweptBut(walk: set<Path>, todo: set<Path>, before: Files, dryRun: bool, all: set<Path>): Sweep {
    var gone := all - todo;
    Sweep(if dryRun then before else before - gone, |walk| - |todo|, |gone|, SizeOf(before) - SizeOf(before - gone))
  }

  lemma GoneWalked(files: Files, referenced: set<string>, dryRun: bool, unread: set<Path>, removeFails: set<Path>)
    ensures Walked(files) <= files.Keys && forall f :: f in Walked(files) ==> f.0 == "sha256"
    ensures Gone(files, referenced, dryRun, removeFails) <= Walked(files)
    ensures forall f :: f in Walked(files) ==>
      (f in Gone(files, referenced, dryRun, removeFails) <==> Unmarked(f, referenced) && (dryRun || f !in removeFails))
  {
  }

  lemma SweptNone(walk: set<Path>, before: Files, dryRun: bool, all: set<Path>)
    requires all <= walk
    ensures SweptBut(walk, walk, before, dryRun, all) == Sweep(before, 0, 0, 0)
  {
    assert all - walk == {} && before - {} == before;
  }

  /** One more file: it goes if it is among `all`. */
  lemma SweptNext(walk: set<Path>, todo: set<Path>, before: Files, dryRun: bool, all: set<Path>, f: Path)
    requires f in todo && todo <= walk <= Walked(before)
    ensures f in SweptBut(walk, todo, before, dryRun, all).files
    ensures var s := SweptBut(walk, todo, before, dryRun, all);
      SweptBut(walk, todo - {f}, before, dryRun, all) ==
        if f in all then
          Sweep(if dryRun then s.files else s.files - {f}, s.scanned + 1, s.deleted + 1, s.freed + |s.files[f]|)
        else s.(scanned := s.scanned + 1)
  {
    TakeNext(before, all, todo, all - todo, f);
    SizeWithout(before, all - todo, f);
  }

  lemma TakeNext(files: Files, all: set<Path>, todo: set<Path>, gone: set<Path>, f: Path)
    requires gone == all - todo && f in todo
    ensures f in all ==> gone + {f} == all - (todo - {f})
    ensures f !in all ==> gone == all - (todo - {f})
    ensures files - gone - {f} == files - (gone + {f})
  {}

  lemma SizeWithout(files: Files, gone: set<Path>, f: Path)
    requires f in files && f !in gone
    ensures SizeOf(files - gone) == SizeOf(files - (gone + {f})) + |files[f]|
  {
    var m := map p | p in files - gone :: |files[p]|;
    SumOut(m, f);
    assert m - {f} == map p | p in files - (gone + {f}) :: |files[p]|;
    assert m == map p | p in files - gone :: |(files - gone)[p]|;
    assert m - {f} == map p | p in files - (gone + {f}) :: |(files - (gone + {f}))[p]|;
  }
}
