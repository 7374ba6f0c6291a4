/** Five separate relations, and the proof that the flat key map of `Metadata`
    behaves as these five as long as repository names have no colon. */
module TypedMetadata {
  import opened Seqs
  import opened Lex
  import opened Digests
  import opened Metadata
  import opened Relations

  predicate Good(repo: string) {
    ':' !in repo
  }

  /** The keys of the flat map, before they are written as strings. */
  datatype Key =
    | ManifestOf(repo: string, digest: string)
    | TagOf(repo: string, tag: string)
    | RepoOf(repo: string)
    | BlobRepoOf(digest: string, repo: string)
    | RepoBlobOf(repo: string, digest: string)
  {
    function Written(): string {
      match this
      case ManifestOf(r, d) => ManifestKey(r, d)
      case TagOf(r, x) => TagKey(r, x)
      case RepoOf(r) => RepoKey(r)
      case BlobRepoOf(d, r) => BlobRepoKey(d, r)
      case RepoBlobOf(r, d) => RepoBlobKey(r, d)
    }

    /** The first component can be told from what follows it. */
    predicate Parses() {
      match this
      case ManifestOf(r, _) => Good(r)
      case TagOf(r, _) => Good(r)
      case RepoOf(_) => true
      case BlobRepoOf(d, _) => Valid(d)
      case RepoBlobOf(r, _) => Good(r)
    }

    /** `DeleteRepository(r)` is meant to drop this key. */
    predicate BelongsTo(r: string) {
      !BlobRepoOf? && repo == r
    }
  }

  /** What the five relations hold under a key. */
  function Lookup(t: Typed, k: Key): Option<Value> {
    match k
    case ManifestOf(r, d) => if (r, d) in t.manifests then Some(Manifest(t.manifests[(r, d)])) else None
    case TagOf(r, x) => if (r, x) in t.tags then Some(TagTo(t.tags[(r, x)])) else None
    case RepoOf(r) => if r in t.repos then Some(Repo(t.repos[r])) else None
    case BlobRepoOf(d, r) => if (d, r) in t.blobRepos then Some(Mark) else None
    case RepoBlobOf(r, d) => if (r, d) in t.repoBlobs then Some(Mark) else None
  }

  function Find(db: Db, s: string): Option<Value> {
    if s in db then Some(db[s]) else None
  }

  /** The flat map holds, under every key that parses, what the relations hold. */
  ghost predicate Agrees(db: Db, written: Key -> string, look: Key -> Option<Value>) {
    forall k: Key :: k.Parses() ==> Find(db, written(k)) == look(k)
  }

  ghost predicate Refines(db: Db, t: Typed) {
    && Agrees(db, Write, View(t))
    && (forall k: Key :: Lookup(t, k).Some? ==> k.Parses())
    && (forall r :: r in t.repos ==> Good(r))
  }

  const Write: Key -> string := (k: Key) => k.Written()

  function View(t: Typed): Key -> Option<Value> {
    (k: Key) => Lookup(t, k)
  }

  lemma EmptyRefines()
    ensures Refines(map[], NOTHING)
  {}

  /* ---- keys determine what they were made of ---- */

  lemma JoinInjective(a: string, b: string, c: string, d: string)
    requires ':' !in a && ':' !in c && a + ":" + b == c + ":" + d
    ensures a == c && b == d
  {
    SplitColonAt(a, b);
    SplitColonAt(c, d);
  }

  lemma PeelInjective(h: string, a: string, b: string)
    requires h + a == h + b
    ensures a == b
  {
    assert (h + a)[|h|..] == a && (h + b)[|h|..] == b;
  }

  /** A digest holds a colon itself; its fixed length settles where it ends. */
  lemma DigestJoinInjective(a: string, b: string, c: string, d: string)
    requires Valid(a) && Valid(c) && a + ":" + b == c + ":" + d
    ensures a == c && b == d
  {
    ValidShape(a);
    ValidShape(c);
    assert (a + ":" + b)[..71] == a && (c + ":" + d)[..71] == c;
    assert (a + ":" + b)[72..] == b && (c + ":" + d)[72..] == d;
  }

  lemma Kinds(k: Key)
    ensures |k.Written()| >= 2
    ensures k.Written()[0] == match k case ManifestOf(_, _) => 'm' case TagOf(_, _) => 't' case BlobRepoOf(_, _) => 'b' case _ => 'r'
    ensures k.RepoOf? ==> k.Written()[1] == ':'
    ensures k.RepoBlobOf? ==> k.Written()[1] == 'b'
  {}

  lemma KeysInjective(k: Key, l: Key)
    requires k.Parses() && l.Parses() && k.Written() == l.Written()
    ensures k == l
  {
    Kinds(k);
    Kinds(l);
    match (k, l) {
      case (ManifestOf(a, b), ManifestOf(c, d)) =>
        PeelInjective("m:", a + ":" + b, c + ":" + d);
        JoinInjective(a, b, c, d);
      case (TagOf(a, b), TagOf(c, d)) =>
        PeelInjective("t:", a + ":" + b, c + ":" + d);
        JoinInjective(a, b, c, d);
      case (RepoOf(a), RepoOf(c)) =>
        PeelInjective("r:", a, c);
      case (BlobRepoOf(a, b), BlobRepoOf(c, d)) =>
        PeelInjective("br:", a + ":" + b, c + ":" + d);
        DigestJoinInjective(a, b, c, d);
      case (RepoBlobOf(a, b), RepoBlobOf(c, d)) =>
        PeelInjective("rb:", a + ":" + b, c + ":" + d);
        JoinInjective(a, b, c, d);
      case _ =>
    }
  }

  ghost predicate Injective(written: Key -> string) {
    forall k: Key, l: Key :: k.Parses() && l.Parses() && written(k) == written(l) ==> k == l
  }

  lemma WriteInjective()
    ensures Injective(Write)
  {
    forall k: Key, l: Key | k.Parses() && l.Parses() && Write(k) == Write(l) ensures k == l {
      KeysInjective(k, l);
    }
  }

  /* ---- one write, one deletion ---- */

  lemma SetAgrees(db: Db, written: Key -> string, look: Key -> Option<Value>, look': Key -> Option<Value>, k0: Key, v: Value)
    requires Agrees(db, written, look) && Injective(written) && k0.Parses()
    requires forall k :: look'(k) == if k == k0 then Some(v) else look(k)
    ensures Agrees(db[written(k0) := v], written, look')
  {}

  lemma DropAgrees(db: Db, written: Key -> string, look: Key -> Option<Value>, look': Key -> Option<Value>, gone: set<string>)
    requires Agrees(db, written, look)
    requires forall k: Key :: k.Parses() ==>
      look'(k) == if written(k) in gone then None else look(k)
    ensures Agrees(db - gone, written, look')
  {}

  /* ---- each operation ---- */

  lemma SetOne(db: Db, t: Typed, t': Typed, k0: Key, v: Value)
    requires Refines(db, t) && k0.Parses() && forall r :: r in t'.repos ==> Good(r)
    requires forall k :: Lookup(t', k) == if k == k0 then Some(v) else Lookup(t, k)
    ensures Refines(db[k0.Written() := v], t')
  {
    WriteInjective();
    assert Write(k0) == k0.Written();
    SetAgrees(db, Write, View(t), View(t'), k0, v);
  }

  lemma PutRefines(db: Db, t: Typed, repo: string, reference: string, meta: ManifestMeta, now: int)
    requires Refines(db, t) && Good(repo)
    ensures Refines(PutManifestFlat(db, repo, reference, meta, now), t.Put(repo, reference, meta, now))
  {
    var t1 := t.(manifests := t.manifests[(repo, meta.digest) := meta]);
    SetOne(db, t, t1, ManifestOf(repo, meta.digest), Manifest(meta));
    var db1 := db[ManifestKey(repo, meta.digest) := Manifest(meta)];
    if IsDigestRef(reference) {
      TouchRefines(db1, t1, repo, now);
    } else {
      var t2 := t1.(tags := t1.tags[(repo, reference) := meta.digest]);
      SetOne(db1, t1, t2, TagOf(repo, reference), TagTo(meta.digest));
      TouchRefines(db1[TagKey(repo, reference) := TagTo(meta.digest)], t2, repo, now);
    }
  }

  /** The last write of `PutManifest`: the repository's own entry. */
  lemma TouchRefines(db: Db, t: Typed, repo: string, now: int)
    requires Refines(db, t) && Good(repo)
    ensures var r := RepoMeta(repo, if repo in t.repos then t.repos[repo].createdAt else now, now);
      RepoCreated(db, repo, now) == r.createdAt
      && Refines(db[RepoKey(repo) := Repo(r)], t.(repos := t.repos[repo := r]))
  {
    FindIs(db, t, RepoOf(repo));
    var r := RepoMeta(repo, if repo in t.repos then t.repos[repo].createdAt else now, now);
    SetOne(db, t, t.(repos := t.repos[repo := r]), RepoOf(repo), Repo(r));
  }

  lemma FindIs(db: Db, t: Typed, k: Key)
    requires Refines(db, t) && k.Parses()
    ensures Find(db, k.Written()) == Lookup(t, k)
  {
    assert Find(db, Write(k)) == View(t)(k);
  }

  lemma GetRefines(db: Db, t: Typed, repo: string, reference: string)
    requires Refines(db, t) && Good(repo)
    ensures GetManifestFlat(db, repo, reference) ==
      match t.Get(repo, reference) case Some(meta) => Ok(meta) case None => Err(ManifestNotFound)
  {
    FindIs(db, t, TagOf(repo, reference));
    if t.Target(repo, reference).Some? {
      FindIs(db, t, ManifestOf(repo, t.Target(repo, reference).value));
    }
  }

  lemma DropOne(db: Db, t: Typed, t': Typed, k0: Key)
    requires Refines(db, t) && k0.Parses() && t'.repos == t.repos
    requires forall k :: Lookup(t', k) == if k == k0 then None else Lookup(t, k)
    ensures Refines(db - {k0.Written()}, t')
  {
    WriteInjective();
    assert Write(k0) == k0.Written();
    forall k: Key | k.Parses() ensures View(t')(k) == if Write(k) in {k0.Written()} then None else View(t)(k) {
      assert Write(k) == Write(k0) ==> k == k0;
    }
    DropAgrees(db, Write, View(t), View(t'), {k0.Written()});
  }

  lemma DeleteRefines(db: Db, t: Typed, repo: string, reference: string)
    requires Refines(db, t) && Good(repo)
    ensures t.Delete(repo, reference).Some? ==>
      DeleteManifestFlat(db, repo, reference).Ok?
      && Refines(DeleteManifestFlat(db, repo, reference).value, t.Delete(repo, reference).value)
    ensures t.Delete(repo, reference).None? ==>
      DeleteManifestFlat(db, repo, reference) == Err(ManifestNotFound)
  {
    FindIs(db, t, TagOf(repo, reference));
    if t.Target(repo, reference).Some? {
      var d := t.Target(repo, reference).value;
      var t1 := if IsDigestRef(reference) then t else t.(tags := t.tags - {(repo, reference)});
      var db1 := if IsDigestRef(reference) then db else db - {TagKey(repo, reference)};
      if !IsDigestRef(reference) {
        DropOne(db, t, t1, TagOf(repo, reference));
      }
      DropOne(db1, t1, t1.(manifests := t.manifests - {(repo, d)}), ManifestOf(repo, d));
    }
  }

  lemma LinkRefines(db: Db, t: Typed, d: string, repo: string)
    requires Refines(db, t) && Good(repo) && Valid(d)
    ensures Refines(db[BlobRepoKey(d, repo) := Mark][RepoBlobKey(repo, d) := Mark], t.Link(d, repo))
  {
    var t1 := t.(blobRepos := t.blobRepos + {(d, repo)});
    SetOne(db, t, t1, BlobRepoOf(d, repo), Mark);
    SetOne(db[BlobRepoKey(d, repo) := Mark], t1, t.Link(d, repo), RepoBlobOf(repo, d), Mark);
  }

  lemma UnlinkRefines(db: Db, t: Typed, d: string, repo: string)
    requires Refines(db, t) && Good(repo) && Valid(d)
    ensures Refines(db - {BlobRepoKey(d, repo), RepoBlobKey(repo, d)}, t.Unlink(d, repo))
  {
    var t1 := t.(blobRepos := t.blobRepos - {(d, repo)});
    DropOne(db, t, t1, BlobRepoOf(d, repo));
    DropOne(db - {BlobRepoKey(d, repo)}, t1, t.Unlink(d, repo), RepoBlobOf(repo, d));
    assert db - {BlobRepoKey(d, repo)} - {RepoBlobKey(repo, d)} == db - {BlobRepoKey(d, repo), RepoBlobKey(repo, d)};
  }

  /** Writes under other prefixes (`ev:`, `dl:`, `ch:`, `rel:`) leave the five relations alone. */
  lemma RawRefines(db: Db, t: Typed, key: string, data: Bytes)
    requires Refines(db, t)
    requires !("m:" <= key) && !("t:" <= key) && !("r:" <= key)
      && !("br:" <= key) && !("rb:" <= key)
    ensures Refines(db[key := Raw(data)], t)
  {
    forall k: Key | k.Parses() ensures Find(db[key := Raw(data)], Write(k)) == View(t)(k) {
      NotRaw(k, key);
      assert Find(db, Write(k)) == View(t)(k);
    }
  }

  lemma NotRaw(k: Key, key: string)
    requires !("m:" <= key) && !("t:" <= key) && !("r:" <= key)
      && !("br:" <= key) && !("rb:" <= key)
    ensures k.Written() != key
  {
    var w := k.Written();
    match k
    case ManifestOf(_, _) => assert w[..2] == "m:";
    case TagOf(_, _) => assert w[..2] == "t:";
    case RepoOf(_) => assert w[..2] == "r:";
    case BlobRepoOf(_, _) => assert w[..3] == "br:";
    case RepoBlobOf(_, _) => assert w[..3] == "rb:";
  }

  /* ---- deleting a repository ---- */

  lemma PrefixPeel(h: string, s: string, q: string)
    ensures h + q <= h + s <==> q <= s
  {
    if |q| <= |s| {
      assert (h + s)[..|h + q|] == h + s[..|q|];
      assert h + q <= h + s ==> (h + s[..|q|])[|h|..] == (h + q)[|h|..];
    }
  }

  /** The part before the colon is the deleted repository, or continues it. */
  lemma JoinPrefix(a: string, b: string, c: string)
    ensures Good(a) && Good(c) ==> (c + ":" + "" <= a + ":" + b <==> a == c)
    ensures c + ":" <= a ==> c + ":" + "" <= a + ":" + b
  {
    var s, q := a + ":" + b, c + ":" + "";
    assert q == c + ":";
    if Good(a) && Good(c) && q <= s {
      assert s == c + ":" + s[|q|..];
      JoinInjective(a, b, c, s[|q|..]);
    }
    if a == c {
      assert s[..|q|] == q;
    }
    if c + ":" <= a {
      assert s[..|q|] == a[..|q|];
    }
  }

  /** A key of one kind is no prefix of a key of another. */
  lemma OtherKind(k: Key, l: Key)
    requires (l.ManifestOf? && !k.ManifestOf?) || (l.TagOf? && !k.TagOf?) || (l.RepoBlobOf? && !k.RepoBlobOf?)
    ensures !(l.Written() <= k.Written())
  {
    Kinds(k);
    Kinds(l);
    hide Key.Written;
  }

  /** A key begins like an empty one of some kind and repository exactly if it is
      of that kind and repository. */
  lemma BeginsLike(k: Key, l: Key, repo: string)
    requires Good(repo) && k.Parses() && (k.RepoOf? || Good(k.repo) || k.BlobRepoOf?)
    requires l == ManifestOf(repo, "") || l == TagOf(repo, "") || l == RepoBlobOf(repo, "")
    ensures l.Written() <= k.Written() <==>
      k.repo == repo && ((l.ManifestOf? && k.ManifestOf?) || (l.TagOf? && k.TagOf?) || (l.RepoBlobOf? && k.RepoBlobOf?))
  {
    match (k, l) {
      case (ManifestOf(r, d), ManifestOf(_, _)) =>
        JoinPrefix(r, d, repo);
        PrefixPeel("m:", r + ":" + d, repo + ":" + "");
      case (TagOf(r, x), TagOf(_, _)) =>
        JoinPrefix(r, x, repo);
        PrefixPeel("t:", r + ":" + x, repo + ":" + "");
      case (RepoBlobOf(r, d), RepoBlobOf(_, _)) =>
        JoinPrefix(r, d, repo);
        PrefixPeel("rb:", r + ":" + d, repo + ":" + "");
      case _ =>
        OtherKind(k, l);
    }
  }

  lemma DoomedIff(db: Db, repo: string, k: Key)
    requires Good(repo) && k.Parses() && (k.RepoOf? || Good(k.repo) || k.BlobRepoOf?)
    ensures k.Written() in db ==> (k.Written() in Doomed(db, repo) <==> k.BelongsTo(repo))
  {
    BeginsLike(k, ManifestOf(repo, ""), repo);
    BeginsLike(k, TagOf(repo, ""), repo);
    BeginsLike(k, RepoBlobOf(repo, ""), repo);
    assert ManifestOf(repo, "").Written() == ManifestKey(repo, "") && TagOf(repo, "").Written() == TagKey(repo, "");
    assert RepoBlobOf(repo, "").Written() == RepoBlobKey(repo, "") && RepoOf(repo).Written() == RepoKey(repo);
    hide Key.Written;
    if k.Written() == RepoKey(repo) {
      KeysInjective(k, RepoOf(repo));
    }
  }

  lemma DeleteRepoRefines(db: Db, t: Typed, repo: string)
    requires Refines(db, t) && Good(repo)
    ensures Refines(db - Doomed(db, repo), t.DeleteRepo(repo))
  {
    var t', gone := t.DeleteRepo(repo), Doomed(db, repo);
    forall k: Key | k.Parses() ensures View(t')(k) == if Write(k) in gone then None else View(t)(k) {
      DoomedIff(db, repo, k);
      FindIs(db, t, k);
      if k == RepoOf(repo) {
        assert Write(k) in gone;
      }
    }
    DropAgrees(db, Write, View(t), View(t'), gone);
  }

  /** Were a colon allowed in names, deleting `a` would also delete what
      belongs to `a:b`. */
  lemma ColonNamesCollide(db: Db, repo: string, rest: string, digest: string)
    requires ManifestKey(repo + ":" + rest, digest) in db
    ensures ManifestKey(repo + ":" + rest, digest) in Doomed(db, repo)
  {
    var other := repo + ":" + rest;
    assert other[..|repo|+1] == repo + ":";
    JoinPrefix(other, digest, repo);
    PrefixPeel("m:", other + ":" + digest, repo + ":" + "");
  }

  /* ---- what a put leaves to be found ---- */

  /** A reference is a digest by its first seven characters; every valid digest is. */
  lemma DigestRefs(x: string)
    ensures IsDigestRef(x) <==> |x| >= 7 && x[..7] == "sha256:"
    ensures Valid(x) ==> IsDigestRef(x)
  {
    ValidShape(x);
    if |x| >= 7 && x[..7] == "sha256:" {
      assert forall i :: 0 <= i < 7 ==> x[i] == x[..7][i];
    }
  }

  /** On the flat map: a manifest that has been put is found by its digest and, if
      the reference is no digest, by that tag; the repository is listed, with the
      time at which it was first seen. */
  lemma PutThenGet(db: Db, repo: string, x: string, meta: ManifestMeta, now: int)
    requires Valid(meta.digest)
    ensures var db' := PutManifestFlat(db, repo, x, meta, now);
      && GetManifestFlat(db', repo, meta.digest) == Ok(meta)
      && (!("sha256:" <= x) ==> GetManifestFlat(db', repo, x) == Ok(meta))
      && ("sha256:" <= x ==> forall y :: TagKey(repo, y) in db' <==> TagKey(repo, y) in db)
      && repo in Suffixes(db', RepoKey(""))
      && db'[RepoKey(repo)] == Repo(RepoMeta(repo, RepoCreated(db, repo, now), now))
      && (RepoKey(repo) !in db ==> RepoCreated(db, repo, now) == now)
      && (RepoKey(repo) in db && !db[RepoKey(repo)].Repo? ==> RepoCreated(db, repo, now) == 0)
      && (forall before :: RepoKey(repo) in db && db[RepoKey(repo)] == Repo(before) ==> RepoCreated(db, repo, now) == before.createdAt)
  {
    DigestRefs(meta.digest);
    Kinds(ManifestOf(repo, meta.digest));
    Kinds(TagOf(repo, x));
    Kinds(RepoOf(repo));
    forall y ensures TagKey(repo, y) != ManifestKey(repo, meta.digest) && TagKey(repo, y) != RepoKey(repo) {
      Kinds(TagOf(repo, y));
    }
    SuffixIs(PutManifestFlat(db, repo, x, meta, now), RepoKey(""), repo);
    assert RepoKey("") + repo == RepoKey(repo);
  }

  /** Two records of one repository that went in by different digests do not
      disturb each other, nor do two tags. */
  lemma PutKeepsOthers(t: Typed, repo: string, x: string, meta: ManifestMeta, now: int, r: string, y: string)
    ensures (r != repo || (y != x && t.Target(r, y) != Some(meta.digest))) ==>
      t.Put(repo, x, meta, now).Get(r, y) == t.Get(r, y)
  {
  }

  /* ---- listings ---- */

  lemma TagListing(db: Db, t: Typed, repo: string)
    requires Refines(db, t) && Good(repo)
    ensures Suffixes(db, TagKey(repo, "")) == t.TagsOf(repo)
  {
    forall x ensures x in Suffixes(db, TagKey(repo, "")) <==> (repo, x) in t.tags {
      SuffixIs(db, TagKey(repo, ""), x);
      FindIs(db, t, TagOf(repo, x));
      assert TagKey(repo, "") + x == TagKey(repo, x);
    }
    forall x ensures x in t.TagsOf(repo) <==> (repo, x) in t.tags {}
  }

  lemma RepoListing(db: Db, t: Typed)
    requires Refines(db, t)
    ensures Suffixes(db, RepoKey("")) == t.repos.Keys
  {
    forall x ensures x in Suffixes(db, RepoKey("")) <==> x in t.repos {
      SuffixIs(db, RepoKey(""), x);
      FindIs(db, t, RepoOf(x));
      assert RepoKey("") + x == RepoKey(x);
    }
  }

  lemma BlobRepoListing(db: Db, t: Typed, d: string)
    requires Refines(db, t) && Valid(d)
    ensures Suffixes(db, BlobRepoKey(d, "")) == t.ReposOf(d)
  {
    forall x ensures x in Suffixes(db, BlobRepoKey(d, "")) <==> (d, x) in t.blobRepos {
      SuffixIs(db, BlobRepoKey(d, ""), x);
      FindIs(db, t, BlobRepoOf(d, x));
      assert BlobRepoKey(d, "") + x == BlobRepoKey(d, x);
    }
    forall x ensures x in t.ReposOf(d) <==> (d, x) in t.blobRepos {}
  }

  lemma RepoBlobListing(db: Db, t: Typed, repo: string)
    requires Refines(db, t) && Good(repo)
    ensures Suffixes(db, RepoBlobKey(repo, "")) == t.BlobsOf(repo)
  {
    forall x ensures x in Suffixes(db, RepoBlobKey(repo, "")) <==> (repo, x) in t.repoBlobs {
      SuffixIs(db, RepoBlobKey(repo, ""), x);
      FindIs(db, t, RepoBlobOf(repo, x));
      assert RepoBlobKey(repo, "") + x == RepoBlobKey(repo, x);
    }
    forall x ensures x in t.BlobsOf(repo) <==> (repo, x) in t.repoBlobs {}
  }
}
