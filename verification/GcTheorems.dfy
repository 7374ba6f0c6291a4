/** What a collection run removes and keeps, and what a second run does.
    `Gc.Collector.Run` is proved to produce exactly these marks, metadata and files. */
module GcTheorems {
  import opened Seqs
  import opened Digests
  import opened Blobs
  import opened Relations
  import opened Gc

  type Parser = Bytes -> Option<Parsed>

  ghost function Marks(parse: Parser, rank: string -> nat, p: Policy, t: Typed, files: Files, listFails: bool): set<string>
    requires Ranked(GraphOf(parse, files), rank)
  {
    AllMarks(GraphOf(parse, files), rank, p, t, Listed(t, listFails))
  }

  /** What a real run leaves; files that the walk cannot read count among those
      that cannot be removed (`UnreadStay`). */
  ghost function FilesAfter(parse: Parser, rank: string -> nat, p: Policy, t: Typed, files: Files,
                            listFails: bool, removeFails: set<Path>): Files
    requires Ranked(GraphOf(parse, files), rank)
  {
    files - Gone(files, Marks(parse, rank, p, t, files, listFails), false, removeFails)
  }

  lemma UnreadStay(files: Files, referenced: set<string>, unread: set<Path>, removeFails: set<Path>)
    ensures SweptBut(Walked(files) - unread, {}, files, false, Gone(files, referenced, false, removeFails) - unread).files
      == files - Gone(files, referenced, false, removeFails + unread)
  {
    assert Gone(files, referenced, false, removeFails) - unread - {} == Gone(files, referenced, false, removeFails + unread);
  }

  /** Some kept tag of a repository that could be listed reaches `x`. */
  ghost predicate Live(parse: Parser, p: Policy, t: Typed, files: Files, listFails: bool, x: string) {
    exists repo, i :: repo in Listed(t, listFails) && i in p.Kept(t, repo) && Reachable(GraphOf(parse, files), i.digest, x)
  }

  lemma {:induction false} MarksOfIs(g: Graph, rank: string -> nat, kept: seq<TagInfo>, x: string)
    requires Ranked(g, rank)
    ensures x in MarksOf(g, rank, kept) <==> exists i :: i in kept && x in Marked(g, rank, i.digest)
  {
    if kept != [] {
      var init, last := kept[..|kept|-1], kept[|kept|-1];
      MarksOfIs(g, rank, init, x);
      assert kept == init + [last];
      assert last in kept;
    }
  }

  lemma MarksAreLive(parse: Parser, rank: string -> nat, p: Policy, t: Typed, files: Files, listFails: bool, x: string)
    requires Ranked(GraphOf(parse, files), rank)
    ensures x in Marks(parse, rank, p, t, files, listFails) <==> Live(parse, p, t, files, listFails, x)
  {
    var g := GraphOf(parse, files);
    if x in Marks(parse, rank, p, t, files, listFails) {
      var repo :| repo in Listed(t, listFails) && x in MarksOf(g, rank, p.Kept(t, repo));
      MarksOfIs(g, rank, p.Kept(t, repo), x);
      var i :| i in p.Kept(t, repo) && x in Marked(g, rank, i.digest);
      MarkedIffReachable(g, rank, i.digest, x);
    }
    if Live(parse, p, t, files, listFails, x) {
      var repo, i :| repo in Listed(t, listFails) && i in p.Kept(t, repo) && Reachable(g, i.digest, x);
      MarkedIffReachable(g, rank, i.digest, x);
      MarksOfIs(g, rank, p.Kept(t, repo), x);
    }
  }

  /* ---- what is live, manifest by manifest ---- */

  /** Marking reads `d` as a manifest: a kept tag leads to it from list to list. */
  ghost predicate Followed(parse: Parser, p: Policy, t: Typed, files: Files, listFails: bool, d: string) {
    exists repo, i, path :: repo in Listed(t, listFails) && i in p.Kept(t, repo) && Leads(GraphOf(parse, files), path, i.digest, d)
  }

  ghost predicate Leads(g: Graph, path: seq<string>, root: string, d: string) {
    Chain(g, path) && path[0] == root && path[|path|-1] == d
  }

  lemma OneListMore(g: Graph, path: seq<string>, root: string, d: string, x: string)
    requires Leads(g, path, root, d) && g(d).Some? && x in g(d).value.manifests
    ensures Leads(g, path + [x], root, x)
  {
  }

  lemma OneListLess(g: Graph, path: seq<string>, root: string, x: string)
    requires Leads(g, path, root, x) && |path| > 1
    ensures var d := path[|path|-2];
      Leads(g, path[..|path|-1], root, d) && g(d).Some? && x in g(d).value.manifests
  {
    assert g(path[|path|-2]).Some? && path[|path|-2+1] in g(path[|path|-2]).value.manifests;
  }

  /** Exactly the digests of kept tags are followed, and what followed manifests list. */
  lemma FollowedExactly(parse: Parser, p: Policy, t: Typed, files: Files, listFails: bool, x: string)
    ensures Followed(parse, p, t, files, listFails, x) <==>
      || (exists repo, i :: repo in Listed(t, listFails) && i in p.Kept(t, repo) && i.digest == x)
      || (exists d :: Followed(parse, p, t, files, listFails, d) && GraphOf(parse, files)(d).Some?
                      && x in GraphOf(parse, files)(d).value.manifests)
  {
    var g := GraphOf(parse, files);
    hide Chain, GraphOf, Policy.Kept;
    if repo, i :| repo in Listed(t, listFails) && i in p.Kept(t, repo) && i.digest == x {
      assert Leads(g, [x], x, x) by { SingleChain(g, x); }
    }
    if d :| Followed(parse, p, t, files, listFails, d) && g(d).Some? && x in g(d).value.manifests {
      var repo, i, path :| repo in Listed(t, listFails) && i in p.Kept(t, repo) && Leads(g, path, i.digest, d);
      OneListMore(g, path, i.digest, d, x);
    }
    if Followed(parse, p, t, files, listFails, x) {
      var repo, i, path :| repo in Listed(t, listFails) && i in p.Kept(t, repo) && Leads(g, path, i.digest, x);
      if |path| > 1 {
        OneListLess(g, path, i.digest, x);
        assert Followed(parse, p, t, files, listFails, path[|path|-2]);
      } else {
        assert |path| == 1 by { ChainNotEmpty(g, path); }
        assert i.digest == x;
      }
    }
  }

  lemma SingleChain(g: Graph, x: string)
    ensures Chain(g, [x])
  {
  }

  lemma ChainNotEmpty(g: Graph, path: seq<string>)
    ensures Chain(g, path) ==> path != []
  {
  }

  /** Live are exactly the followed manifests, and the config and the layers that
      each of them names.  A layer is kept, not read: what it would name if it were
      read as a manifest is not live because of it. */
  lemma LiveExactly(parse: Parser, p: Policy, t: Typed, files: Files, listFails: bool, x: string)
    ensures Live(parse, p, t, files, listFails, x) <==>
      || Followed(parse, p, t, files, listFails, x)
      || (exists d :: Followed(parse, p, t, files, listFails, d) && GraphOf(parse, files)(d).Some?
                      && var m := GraphOf(parse, files)(d).value;
                      (m.config != "" && x == m.config) || exists k :: 0 <= k < |m.layers| && m.layers[k] == x)
  {
    var g := GraphOf(parse, files);
    hide Chain, GraphOf, Policy.Kept, Leads, Reachable;
    if Followed(parse, p, t, files, listFails, x) {
      var repo, i, path :| repo in Listed(t, listFails) && i in p.Kept(t, repo) && Leads(g, path, i.digest, x);
      EndReached(g, path, i.digest, x, x);
    }
    if d :| Followed(parse, p, t, files, listFails, d) && g(d).Some? && NamesBlob(g(d).value, x) {
      var repo, i, path :| repo in Listed(t, listFails) && i in p.Kept(t, repo) && Leads(g, path, i.digest, d);
      EndReached(g, path, i.digest, d, x);
    }
    if Live(parse, p, t, files, listFails, x) {
      var repo, i :| repo in Listed(t, listFails) && i in p.Kept(t, repo) && Reachable(g, i.digest, x);
      var path, last := ReachedEnd(g, i.digest, x);
      assert Followed(parse, p, t, files, listFails, last);
    }
  }

  lemma EndReached(g: Graph, path: seq<string>, root: string, d: string, x: string)
    requires Leads(g, path, root, d) && (x == d || (g(d).Some? && NamesBlob(g(d).value, x)))
    ensures Reachable(g, root, x)
  {
    assert EndsAt(g, path, x);
  }

  lemma ReachedEnd(g: Graph, root: string, x: string) returns (path: seq<string>, d: string)
    requires Reachable(g, root, x)
    ensures Leads(g, path, root, d) && (x == d || (g(d).Some? && NamesBlob(g(d).value, x)))
  {
    path :| Chain(g, path) && path[0] == root && EndsAt(g, path, x);
    d := path[|path|-1];
  }

  lemma RootListsNothing(g: Graph, path: seq<string>, root: string, d: string)
    requires Leads(g, path, root, d) && g(root).Some? && g(root).value.manifests == []
    ensures d == root
  {
    if |path| > 1 {
      FirstListed(g, path);
    }
  }

  lemma FirstListed(g: Graph, path: seq<string>)
    requires Chain(g, path) && |path| > 1
    ensures g(path[0]).Some? && path[1] in g(path[0]).value.manifests
  {
    assert g(path[0]).Some? && path[0+1] in g(path[0]).value.manifests;
  }

  /** One kept image with one layer that happens to decode as a manifest: the layer
      is live, what it names is not. */
  lemma LayerIsNotRead(parse: Parser, p: Policy, t: Typed, files: Files, a: string, l: string, y: string)
    requires exists repo, i :: repo in t.repos && i in p.Kept(t, repo) && i.digest == a
    requires forall repo, i :: repo in t.repos && i in p.Kept(t, repo) ==> i.digest == a
    requires GraphOf(parse, files)(a) == Some(Parsed("", [l], [])) && GraphOf(parse, files)(l) == Some(Parsed("", [y], []))
    requires y != a && y != l
    ensures Live(parse, p, t, files, false, l) && !Live(parse, p, t, files, false, y)
  {
    var g := GraphOf(parse, files);
    hide GraphOf, Policy.Kept;
    forall d | Followed(parse, p, t, files, false, d) ensures d == a {
      var repo, i, path :| repo in Listed(t, false) && i in p.Kept(t, repo) && Leads(g, path, i.digest, d);
      RootListsNothing(g, path, i.digest, d);
    }
    FollowedExactly(parse, p, t, files, false, a);
    LiveExactly(parse, p, t, files, false, l);
    LiveExactly(parse, p, t, files, false, y);
    assert [l][0] == l;
  }

  /** A digest is read as a manifest exactly if it is valid and its file decodes. */
  lemma ReadExactly(parse: Parser, files: Files, d: string, m: Parsed)
    ensures GraphOf(parse, files)(d) == Some(m) <==> Valid(d) && Has(files, d) && parse(Content(files, d)) == Some(m)
  {
  }

  /** All blobs of a followed manifest stay: itself, its config and every layer, as
      far as they were on disk. */
  lemma ImageStays(parse: Parser, rank: string -> nat, p: Policy, t: Typed, files: Files, listFails: bool,
                   removeFails: set<Path>, d: string, m: Parsed)
    requires Ranked(GraphOf(parse, files), rank)
    requires Followed(parse, p, t, files, listFails, d) && Valid(d) && Has(files, d) && parse(Content(files, d)) == Some(m)
    ensures var after := FilesAfter(parse, rank, p, t, files, listFails, removeFails);
      && Has(after, d) && Content(after, d) == Content(files, d)
      && (m.config != "" && Valid(m.config) && Has(files, m.config) ==> Has(after, m.config))
      && (forall k :: 0 <= k < |m.layers| && Valid(m.layers[k]) && Has(files, m.layers[k]) ==> Has(after, m.layers[k]))
      && (forall k :: 0 <= k < |m.manifests| && Valid(m.manifests[k]) && Has(files, m.manifests[k]) ==> Has(after, m.manifests[k]))
  {
    hide FilesAfter, Live, Followed, GraphOf, Ranked, Valid, Has, Content;
    LiveExactly(parse, p, t, files, listFails, d);
    ReadExactly(parse, files, d, m);
    ReachableIntact(parse, rank, p, t, files, listFails, removeFails, d);
    if m.config != "" && Valid(m.config) {
      LiveExactly(parse, p, t, files, listFails, m.config);
      ReachableIntact(parse, rank, p, t, files, listFails, removeFails, m.config);
    }
    forall k | 0 <= k < |m.layers| && Valid(m.layers[k]) && Has(files, m.layers[k])
      ensures Has(FilesAfter(parse, rank, p, t, files, listFails, removeFails), m.layers[k])
    {
      LiveExactly(parse, p, t, files, listFails, m.layers[k]);
      ReachableIntact(parse, rank, p, t, files, listFails, removeFails, m.layers[k]);
    }
    forall k | 0 <= k < |m.manifests| && Valid(m.manifests[k]) && Has(files, m.manifests[k])
      ensures Has(FilesAfter(parse, rank, p, t, files, listFails, removeFails), m.manifests[k])
    {
      FollowedExactly(parse, p, t, files, listFails, m.manifests[k]);
      LiveExactly(parse, p, t, files, listFails, m.manifests[k]);
      ReachableIntact(parse, rank, p, t, files, listFails, removeFails, m.manifests[k]);
    }
  }

  /** A blob file, that is one under `sha256` with a name of 64 characters, is left
      on disk exactly if it is reachable from a kept tag (or could not be removed);
      other files are never touched. When listing
      the repositories fails, nothing is reachable and every blob goes. */
  lemma Exactness(parse: Parser, rank: string -> nat, p: Policy, t: Typed, files: Files, listFails: bool, removeFails: set<Path>, f: Path)
    requires Ranked(GraphOf(parse, files), rank)
    ensures f in FilesAfter(parse, rank, p, t, files, listFails, removeFails) <==>
      f in files && (f.0 != "sha256" || |f.2| != 64 || f in removeFails || Live(parse, p, t, files, listFails, "sha256:" + f.2))
    ensures listFails && f in files && f.0 == "sha256" && |f.2| == 64 && f !in removeFails ==>
      f !in FilesAfter(parse, rank, p, t, files, listFails, removeFails)
  {
    MarksAreLive(parse, rank, p, t, files, listFails, DigestOf(f));
  }

  /** The kept tags are the newest ones: at most `keepRecent`, all of them if
      that is not positive, and none older than a dropped one. */
  lemma KeptAreNewest(p: Policy, t: Typed, repo: string)
    requires Sane(t) && NewestFirst(p.newest) && repo !in p.unlisted
    ensures forall i :: i in p.Kept(t, repo) || i in p.Dropped(t, repo) <==> IsCandidate(t, repo, i)
    ensures forall i, j :: i in p.Kept(t, repo) && j in p.Dropped(t, repo) ==> i.time >= j.time && i.name != j.name
    ensures p.keepRecent <= 0 ==> p.Dropped(t, repo) == []
    ensures p.keepRecent > 0 ==> |p.Kept(t, repo)| <= p.keepRecent
    ensures p.keepRecent > 0 && p.Dropped(t, repo) != [] ==> |p.Kept(t, repo)| == p.keepRecent
  {
    CandidatesAre(p, t, repo);
    hide Policy.Candidates, IsCandidate, Sane, NewestFirst;
    var all, kept, dropped := p.Candidates(t, repo), p.Kept(t, repo), p.Dropped(t, repo);
    assert all == kept + dropped && Descending(all);
    forall i, j | i in kept && j in dropped ensures i.time >= j.time && i.name != j.name {
      Earlier(t, repo, kept, dropped, i, j);
    }
  }

  lemma Earlier(t: Typed, repo: string, kept: seq<TagInfo>, dropped: seq<TagInfo>, i: TagInfo, j: TagInfo)
    requires NoRepeats(kept + dropped) && Descending(kept + dropped)
    requires forall x :: x in kept + dropped ==> IsCandidate(t, repo, x)
    requires i in kept && j in dropped
    ensures i.time >= j.time && i.name != j.name
  {
    var all := kept + dropped;
    var a :| 0 <= a < |kept| && kept[a] == i;
    var b :| 0 <= b < |dropped| && dropped[b] == j;
    assert all[a] == i && all[|kept| + b] == j;
    NamesDiffer(t, repo, all, |kept| + b);
    assert all[..|kept| + b][a] == i;
  }

  /** A kept tag still resolves, to the same manifest, exactly if no dropped tag
      of its repository names the same digest; otherwise its record is gone. */
  lemma KeptTagResolves(p: Policy, t: Typed, repos: set<string>, repo: string, k: TagInfo)
    requires Sane(t) && NewestFirst(p.newest) && repo in repos && k in p.Kept(t, repo)
    ensures t.Get(repo, k.name).Some?
    ensures !DropsDigest(p, t, repo, k.digest) ==> Cleaned(p, t, repos).Get(repo, k.name) == t.Get(repo, k.name)
    ensures DropsDigest(p, t, repo, k.digest) ==> Cleaned(p, t, repos).Get(repo, k.name) == None
  {
    KeptSurvives(p, t, repo, k);
    var t' := Cleaned(p, t, repos);
    assert (repo, k.name) in t'.tags && t'.tags[(repo, k.name)] == k.digest;
  }

  lemma KeptSurvives(p: Policy, t: Typed, repo: string, k: TagInfo)
    requires Sane(t) && NewestFirst(p.newest) && k in p.Kept(t, repo)
    ensures repo !in p.unlisted && IsCandidate(t, repo, k) && !DropsName(p, t, repo, k.name)
  {
    CandidatesAre(p, t, repo);
    assert k in p.Candidates(t, repo);
    KeptAreNewest(p, t, repo);
  }

  /** Whatever a kept tag reaches and the disk held, the disk still holds. */
  lemma ReachableIntact(parse: Parser, rank: string -> nat, p: Policy, t: Typed, files: Files, listFails: bool, removeFails: set<Path>, x: string)
    requires Ranked(GraphOf(parse, files), rank)
    requires Valid(x) && Live(parse, p, t, files, listFails, x)
    ensures Has(FilesAfter(parse, rank, p, t, files, listFails, removeFails), x) <==> Has(files, x)
    ensures Has(files, x) ==>
      Content(FilesAfter(parse, rank, p, t, files, listFails, removeFails), x) == Content(files, x)
  {
    ValidShape(x);
    Exactness(parse, rank, p, t, files, listFails, removeFails, BlobPath(x));
  }

  /** The sweep decides by what was marked before it began: a blob that is in the
      store when the sweep meets it, uploaded or put under a tag since or not, is
      left exactly if it was reachable from a kept tag at marking time (or could
      not be removed).  So an image pushed during a run survives exactly if all of
      it was reachable before. */
  lemma UploadsDuringRun(parse: Parser, rank: string -> nat, p: Policy, t: Typed, files: Files,
                         now: Files, removeFails: set<Path>, image: set<string>)
    requires Ranked(GraphOf(parse, files), rank)
    requires forall d :: d in image ==> Valid(d) && Has(now, d) && BlobPath(d) !in removeFails
    ensures var swept := now - Gone(now, Marks(parse, rank, p, t, files, false), false, removeFails);
      (forall d :: d in image ==> Has(swept, d)) <==> (forall d :: d in image ==> Live(parse, p, t, files, false, d))
  {
    var swept := now - Gone(now, Marks(parse, rank, p, t, files, false), false, removeFails);
    forall d | d in image ensures Has(swept, d) <==> Live(parse, p, t, files, false, d) {
      ValidShape(d);
      assert DigestOf(BlobPath(d)) == d;
      MarksAreLive(parse, rank, p, t, files, false, d);
    }
  }

  /* ---- a second run ---- */

  /** A kept tag whose digest no dropped tag of the repository names: the ones
      that still resolve after the run. */
  ghost predicate Lasting(p: Policy, t: Typed, repo: string, k: TagInfo) {
    k in p.Kept(t, repo) && !DropsDigest(p, t, repo, k.digest)
  }

  ghost predicate LiveByLasting(parse: Parser, p: Policy, t: Typed, files: Files, x: string) {
    exists repo, k :: repo in t.repos && Lasting(p, t, repo, k) && Reachable(GraphOf(parse, files), k.digest, x)
  }

  /** After one run the resolvable tags of a repository are the lasting ones ... */
  lemma CandidatesAfter(p: Policy, t: Typed, repo: string, i: TagInfo)
    requires Sane(t) && NewestFirst(p.newest) && repo in t.repos && repo !in p.unlisted
    ensures IsCandidate(Cleaned(p, t, t.repos.Keys), repo, i) <==> Lasting(p, t, repo, i)
  {
    var t1 := Cleaned(p, t, t.repos.Keys);
    KeptAreNewest(p, t, repo);
    if i in p.Kept(t, repo) {
      KeptSurvives(p, t, repo, i);
    }
    assert i in p.Dropped(t, repo) ==> DropsName(p, t, repo, i.name);
    if IsCandidate(t1, repo, i) {
      assert IsCandidate(t, repo, i);
    }
  }

  lemma CleanedSane(p: Policy, t: Typed, repos: set<string>)
    requires Sane(t)
    ensures Sane(Cleaned(p, t, repos))
  {}

  lemma ResolvableAfter(p: Policy, t: Typed, t1: Typed, repo: string)
    requires Sane(t) && NewestFirst(p.newest) && repo in t.repos && repo !in p.unlisted
    requires t1 == Cleaned(p, t, t.repos.Keys)
    ensures forall i :: i in p.Candidates(t1, repo) <==> Lasting(p, t, repo, i)
    ensures NoRepeats(p.Candidates(t1, repo)) && NoRepeats(p.Kept(t, repo))
  {
    CleanedSane(p, t, t.repos.Keys);
    CandidatesAre(p, t, repo);
    CandidatesAre(p, t1, repo);
    hide Cleaned, Lasting, Policy.Candidates, IsCandidate, Sane;
    forall i ensures i in p.Candidates(t1, repo) <==> Lasting(p, t, repo, i) {
      CandidatesAfter(p, t, repo, i);
    }
  }

  /** ... so the next run keeps them all and drops none. */
  lemma NothingMoreDropped(p: Policy, t: Typed, t1: Typed, repo: string)
    requires Sane(t) && NewestFirst(p.newest) && repo in t.repos
    requires t1 == Cleaned(p, t, t.repos.Keys)
    ensures p.Dropped(t1, repo) == [] && forall i :: i in p.Kept(t1, repo) <==> Lasting(p, t, repo, i)
  {
    if repo !in p.unlisted {
      ResolvableAfter(p, t, t1, repo);
      hide Cleaned, Policy.Candidates, Sane, NewestFirst, DropsDigest;
      NoLonger(p.Candidates(t1, repo), p.Kept(t, repo));
      assert p.Kept(t1, repo) == p.Candidates(t1, repo);
    }
  }

  lemma NoLonger<T>(a: seq<T>, b: seq<T>)
    requires NoRepeats(a) && NoRepeats(b) && forall x :: x in a ==> x in b
    ensures |a| <= |b|
  {
    NoRepeatsCount(a);
    NoRepeatsCount(b);
    SubsetCount(Elements(a), Elements(b));
  }

  /** Marks depend only on the manifests that get marked. */
  lemma {:induction false} MarkedStable(g: Graph, h: Graph, rank: string -> nat, d: string)
    requires Ranked(g, rank) && Ranked(h, rank)
    requires forall x :: x in Marked(g, rank, d) ==> h(x) == g(x)
    ensures Marked(h, rank, d) == Marked(g, rank, d)
    decreases rank(d)
  {
    assert d in Marked(g, rank, d);
    if g(d).Some? {
      var ns := g(d).value.manifests;
      NestedIs(g, rank, ns, rank(d));
      NestedIs(h, rank, ns, rank(d));
      forall n | n in ns ensures Marked(h, rank, n) == Marked(g, rank, n) {
        forall x | x in Marked(g, rank, n) ensures h(x) == g(x) {
          assert x in MarkedNested(g, rank, ns, rank(d));
        }
        MarkedStable(g, h, rank, n);
      }
      assert MarkedNested(h, rank, ns, rank(d)) == MarkedNested(g, rank, ns, rank(d));
    }
  }

  lemma FewerFiles(parse: Parser, files: Files, gone: set<Path>, d: string)
    ensures GraphOf(parse, files - gone)(d).Some? ==> GraphOf(parse, files)(d) == GraphOf(parse, files - gone)(d)
  {
    assert GraphOf(parse, files)(d) == ManifestAt(parse, files, d);
    if Valid(d) && Has(files - gone, d) {
      assert Content(files - gone, d) == Content(files, d);
    }
  }

  lemma GraphAfter(parse: Parser, rank: string -> nat, p: Policy, t: Typed, files: Files)
    requires Ranked(GraphOf(parse, files), rank)
    ensures var files1 := FilesAfter(parse, rank, p, t, files, false, {});
      && Ranked(GraphOf(parse, files1), rank)
      && forall x :: x in Marks(parse, rank, p, t, files, false) ==> GraphOf(parse, files1)(x) == GraphOf(parse, files)(x)
  {
    var files1 := FilesAfter(parse, rank, p, t, files, false, {});
    var g, g1 := GraphOf(parse, files), GraphOf(parse, files1);
    forall d, n | g1(d).Some? && n in g1(d).value.manifests ensures rank(n) < rank(d) {
      FewerFiles(parse, files, Gone(files, Marks(parse, rank, p, t, files, false), false, {}), d);
    }
    forall x | x in Marks(parse, rank, p, t, files, false) ensures g1(x) == g(x) {
      MarksAreLive(parse, rank, p, t, files, false, x);
      if Valid(x) {
        ReachableIntact(parse, rank, p, t, files, false, {}, x);
      }
    }
  }

  lemma StillMarked(parse: Parser, rank: string -> nat, p: Policy, t: Typed, files: Files, repo: string, k: TagInfo)
    requires Ranked(GraphOf(parse, files), rank) && repo in t.repos && k in p.Kept(t, repo)
    requires Ranked(GraphOf(parse, FilesAfter(parse, rank, p, t, files, false, {})), rank)
    ensures Marked(GraphOf(parse, FilesAfter(parse, rank, p, t, files, false, {})), rank, k.digest)
      == Marked(GraphOf(parse, files), rank, k.digest)
  {
    var g, g1 := GraphOf(parse, files), GraphOf(parse, FilesAfter(parse, rank, p, t, files, false, {}));
    GraphAfter(parse, rank, p, t, files);
    forall x | x in Marked(g, rank, k.digest) ensures g1(x) == g(x) {
      MarksOfIs(g, rank, p.Kept(t, repo), x);
      assert x in Marks(parse, rank, p, t, files, false);
    }
    MarkedStable(g, g1, rank, k.digest);
  }

  /** The second run marks what the lasting tags reach. */
  lemma MarksAfter(parse: Parser, rank: string -> nat, p: Policy, t: Typed, files: Files, x: string)
    requires Ranked(GraphOf(parse, files), rank) && Sane(t) && NewestFirst(p.newest)
    requires Ranked(GraphOf(parse, FilesAfter(parse, rank, p, t, files, false, {})), rank)
    ensures x in Marks(parse, rank, p, Cleaned(p, t, t.repos.Keys), FilesAfter(parse, rank, p, t, files, false, {}), false)
      <==> LiveByLasting(parse, p, t, files, x)
  {
    var files1, t1 := FilesAfter(parse, rank, p, t, files, false, {}), Cleaned(p, t, t.repos.Keys);
    var g, g1 := GraphOf(parse, files), GraphOf(parse, files1);
    assert Marks(parse, rank, p, t1, files1, false) == AllMarks(g1, rank, p, t1, t1.repos.Keys);
    hide FilesAfter, Cleaned, GraphOf, Ranked, Sane, NewestFirst, Marked, Marks, Reachable;
    assert t1.repos == t.repos by { CleanedRepos(p, t); }
    if x in Marks(parse, rank, p, t1, files1, false) {
      var repo :| repo in t1.repos && x in MarksOf(g1, rank, p.Kept(t1, repo));
      MarksOfIs(g1, rank, p.Kept(t1, repo), x);
      var k :| k in p.Kept(t1, repo) && x in Marked(g1, rank, k.digest);
      NothingMoreDropped(p, t, t1, repo);
      StillMarked(parse, rank, p, t, files, repo, k);
      MarkedIffReachable(g, rank, k.digest, x);
    }
    if LiveByLasting(parse, p, t, files, x) {
      var repo, k :| repo in t.repos && Lasting(p, t, repo, k) && Reachable(g, k.digest, x);
      NothingMoreDropped(p, t, t1, repo);
      StillMarked(parse, rank, p, t, files, repo, k);
      MarkedIffReachable(g, rank, k.digest, x);
      MarksOfIs(g1, rank, p.Kept(t1, repo), x);
    }
  }

  lemma CleanedRepos(p: Policy, t: Typed)
    ensures Cleaned(p, t, t.repos.Keys).repos == t.repos
  {}

  /** A second run right after the first deletes no tag. */
  lemma SecondRunDropsNoTag(p: Policy, t: Typed)
    requires Sane(t) && NewestFirst(p.newest)
    ensures var t1 := Cleaned(p, t, t.repos.Keys);
      && Sane(t1) && t1.repos == t.repos
      && (forall repo :: repo in t1.repos ==> p.Dropped(t1, repo) == [])
      && Cleaned(p, t1, t1.repos.Keys) == t1
  {
    var t1 := Cleaned(p, t, t.repos.Keys);
    forall repo | repo in t1.repos ensures p.Dropped(t1, repo) == [] {
      NothingMoreDropped(p, t, t1, repo);
    }
    CleanedSane(p, t, t.repos.Keys);
    CleanedNothing(p, t1);
  }

  /** It deletes exactly the blobs that no lasting tag reaches: those that the
      first run left only for kept tags that shared a digest with a dropped one. */
  lemma SecondRunDeletes(parse: Parser, rank: string -> nat, p: Policy, t: Typed, files: Files)
    requires Ranked(GraphOf(parse, files), rank) && Sane(t) && NewestFirst(p.newest)
    ensures var t1, files1 := Cleaned(p, t, t.repos.Keys), FilesAfter(parse, rank, p, t, files, false, {});
      && Ranked(GraphOf(parse, files1), rank)
      && (forall f :: f in FilesAfter(parse, rank, p, t1, files1, false, {}) <==>
            f in files1 && (!IsBlob(f) || LiveByLasting(parse, p, t, files, DigestOf(f))))
      && (FilesAfter(parse, rank, p, t1, files1, false, {}) == files1 <==>
            forall f :: f in files && IsBlob(f) && Live(parse, p, t, files, false, DigestOf(f)) ==>
              LiveByLasting(parse, p, t, files, DigestOf(f)))
  {
    var t1, files1 := Cleaned(p, t, t.repos.Keys), FilesAfter(parse, rank, p, t, files, false, {});
    GraphAfter(parse, rank, p, t, files);
    var files2 := FilesAfter(parse, rank, p, t1, files1, false, {});
    forall f ensures f in files2 <==> f in files1 && (!IsBlob(f) || LiveByLasting(parse, p, t, files, DigestOf(f))) {
      MarksAfter(parse, rank, p, t, files, DigestOf(f));
    }
    forall f ensures f in files1 <==> f in files && (!IsBlob(f) || Live(parse, p, t, files, false, DigestOf(f))) {
      Exactness(parse, rank, p, t, files, false, {}, f);
    }
    hide GraphOf, Live, LiveByLasting, Marks, Cleaned, IsBlob, Ranked;
    assert files2 == files1 <==> forall f :: f in files1 ==> f in files2;
  }

  /** No dropped tag shares its digest with a kept tag of the same repository. */
  ghost predicate NoSharing(p: Policy, t: Typed) {
    forall repo, k :: repo in t.repos && k in p.Kept(t, repo) ==> !DropsDigest(p, t, repo, k.digest)
  }

  /** Without shared digests a second run deletes nothing at all. */
  lemma SecondRunDeletesNothing(parse: Parser, rank: string -> nat, p: Policy, t: Typed, files: Files)
    requires Ranked(GraphOf(parse, files), rank) && Sane(t) && NewestFirst(p.newest) && NoSharing(p, t)
    ensures var t1, files1 := Cleaned(p, t, t.repos.Keys), FilesAfter(parse, rank, p, t, files, false, {});
      && Ranked(GraphOf(parse, files1), rank)
      && Cleaned(p, t1, t1.repos.Keys) == t1
      && FilesAfter(parse, rank, p, t1, files1, false, {}) == files1
  {
    SecondRunDropsNoTag(p, t);
    SecondRunDeletes(parse, rank, p, t, files);
    forall x | Live(parse, p, t, files, false, x) ensures LiveByLasting(parse, p, t, files, x) {
      var repo, i :| repo in t.repos && i in p.Kept(t, repo) && Reachable(GraphOf(parse, files), i.digest, x);
      assert Lasting(p, t, repo, i);
    }
  }

  lemma CleanedNothing(p: Policy, t: Typed)
    requires forall repo :: repo in t.repos ==> p.Dropped(t, repo) == []
    ensures Cleaned(p, t, t.repos.Keys) == t
  {
    forall r, x | r in t.repos ensures !DropsName(p, t, r, x) && !DropsDigest(p, t, r, x) {}
    assert Cleaned(p, t, t.repos.Keys).tags == t.tags;
    assert Cleaned(p, t, t.repos.Keys).manifests == t.manifests;
  }

  /** A dry run changes nothing and reports the numbers a real run from the same
      state would, exactly if no unreferenced blob that the walk can read resists
      removal. */
  lemma DryRunReportsTheSame(files: Files, referenced: set<string>, unread: set<Path>, removeFails: set<Path>)
    ensures var walk := Walked(files) - unread;
      var dry := SweptBut(walk, {}, files, true, Gone(files, referenced, true, removeFails) - unread);
      var run := SweptBut(walk, {}, files, false, Gone(files, referenced, false, removeFails) - unread);
      && dry.files == files && dry.scanned == run.scanned
      && (dry.deleted == run.deleted && dry.freed == run.freed <==>
            forall f :: f in files && f !in unread && Unmarked(f, referenced) ==> f !in removeFails)
      && run.deleted == |files| - |run.files| && run.freed == SizeOf(files) - SizeOf(run.files)
  {
    var all, some := Gone(files, referenced, true, removeFails) - unread, Gone(files, referenced, false, removeFails) - unread;
    AllGone(files, referenced, unread, removeFails);
    hide Gone, Unmarked;
    assert all - {} == all && some - {} == some;
    SameCount(some, all);
    LeftCount(files, some);
  }

  lemma AllGone(files: Files, referenced: set<string>, unread: set<Path>, removeFails: set<Path>)
    ensures var all := Gone(files, referenced, true, removeFails) - unread;
      var some := Gone(files, referenced, false, removeFails) - unread;
      && some <= all <= files.Keys
      && (some == all <==> forall f :: f in files && f !in unread && Unmarked(f, referenced) ==> f !in removeFails)
  {
    var all, some := Gone(files, referenced, true, removeFails) - unread, Gone(files, referenced, false, removeFails) - unread;
    forall f ensures f in all && f !in some <==> f in files && f !in unread && Unmarked(f, referenced) && f in removeFails {}
    hide Unmarked;
    assert all == some <==> forall f :: f in all ==> f in some;
  }

  lemma SameCount<T>(some: set<T>, all: set<T>)
    requires some <= all
    ensures |some| == |all| <==> some == all
  {
    assert all == some + (all - some);
  }

  lemma LeftCount(files: Files, gone: set<Path>)
    requires gone <= files.Keys
    ensures |files - gone| == |files| - |gone|
  {
    assert files.Keys == (files - gone).Keys + gone;
  }
}
