/** Runs of the metadata store: the flat map keeps refining the five relations,
    and the two link indexes keep together as far as they do. */
module MetadataRuns {
  import opened Seqs
  import opened Lex
  import opened Digests
  import opened Metadata
  import opened Relations
  import opened TypedMetadata

  datatype Op =
    | OpPut(repo: string, reference: string, meta: ManifestMeta, now: int)
    | OpDelete(repo: string, reference: string)
    | OpDeleteRepo(repo: string)
    | OpLink(digest: string, repo: string)
    | OpUnlink(digest: string, repo: string)
    | OpRaw(key: string, data: Bytes)
  {
    /** What the HTTP routes let through: names without a colon, whole
        digests, raw keys under prefixes of their own. */
    predicate Routed() {
      match this
      case OpPut(r, _, _, _) => Good(r)
      case OpDelete(r, _) => Good(r)
      case OpDeleteRepo(r) => Good(r)
      case OpLink(d, r) => Valid(d) && Good(r)
      case OpUnlink(d, r) => Valid(d) && Good(r)
      case OpRaw(k, _) =>
        !("m:" <= k) && !("t:" <= k) && !("r:" <= k) && !("br:" <= k) && !("rb:" <= k)
    }
  }

  function FlatStep(db: Db, op: Op): Db {
    match op
    case OpPut(r, x, m, now) => PutManifestFlat(db, r, x, m, now)
    case OpDelete(r, x) => (match DeleteManifestFlat(db, r, x) case Ok(db') => db' case Err(_) => db)
    case OpDeleteRepo(r) => db - Doomed(db, r)
    case OpLink(d, r) => db[BlobRepoKey(d, r) := Mark][RepoBlobKey(r, d) := Mark]
    case OpUnlink(d, r) => db - {BlobRepoKey(d, r), RepoBlobKey(r, d)}
    case OpRaw(k, data) => db[k := Raw(data)]
  }

  function TypedStep(t: Typed, op: Op): Typed {
    match op
    case OpPut(r, x, m, now) => t.Put(r, x, m, now)
    case OpDelete(r, x) => (match t.Delete(r, x) case Some(t') => t' case None => t)
    case OpDeleteRepo(r) => t.DeleteRepo(r)
    case OpLink(d, r) => t.Link(d, r)
    case OpUnlink(d, r) => t.Unlink(d, r)
    case OpRaw(_, _) => t
  }

  function FlatRun(ops: seq<Op>): Db {
    if ops == [] then map[] else FlatStep(FlatRun(ops[..|ops|-1]), ops[|ops|-1])
  }

  function TypedRun(ops: seq<Op>): Typed {
    if ops == [] then NOTHING else TypedStep(TypedRun(ops[..|ops|-1]), ops[|ops|-1])
  }

  lemma StepRefines(db: Db, t: Typed, op: Op)
    requires Refines(db, t) && op.Routed()
    ensures Refines(FlatStep(db, op), TypedStep(t, op))
  {
    match op
    case OpPut(r, x, m, now) => PutRefines(db, t, r, x, m, now);
    case OpDelete(r, x) => DeleteRefines(db, t, r, x);
    case OpDeleteRepo(r) => DeleteRepoRefines(db, t, r);
    case OpLink(d, r) => LinkRefines(db, t, d, r);
    case OpUnlink(d, r) => UnlinkRefines(db, t, d, r);
    case OpRaw(k, data) => RawRefines(db, t, k, data);
  }

  /** The single string map behaves as five relations, over every run. */
  lemma {:induction false} RunRefines(ops: seq<Op>)
    requires forall op :: op in ops ==> op.Routed()
    ensures Refines(FlatRun(ops), TypedRun(ops))
  {
    if ops == [] {
      EmptyRefines();
    } else {
      RunRefines(ops[..|ops|-1]);
      StepRefines(FlatRun(ops[..|ops|-1]), TypedRun(ops[..|ops|-1]), ops[|ops|-1]);
    }
  }

  /** Every manifest record is stored under its own digest. */
  ghost predicate KeyedByDigest(t: Typed) {
    forall k :: k in t.manifests ==> t.manifests[k].digest == k.1
  }

  /** Whatever a repository lists as its blob points back at it. */
  ghost predicate Twins(t: Typed) {
    forall r, d :: (r, d) in t.repoBlobs ==> (d, r) in t.blobRepos
  }

  /** No tag looks like a digest: digest references never become tags. */
  ghost predicate PlainTags(t: Typed) {
    forall k :: k in t.tags ==> !IsDigestRef(k.1)
  }

  ghost predicate SameLinks(t: Typed) {
    forall r, d :: (r, d) in t.repoBlobs <==> (d, r) in t.blobRepos
  }

  lemma StepInvariants(t: Typed, op: Op)
    ensures KeyedByDigest(t) ==> KeyedByDigest(TypedStep(t, op))
    ensures Twins(t) ==> Twins(TypedStep(t, op))
    ensures PlainTags(t) ==> PlainTags(TypedStep(t, op))
    ensures SameLinks(t) && !op.OpDeleteRepo? ==> SameLinks(TypedStep(t, op))
  {}

  lemma {:induction false} RunInvariants(ops: seq<Op>)
    ensures KeyedByDigest(TypedRun(ops)) && Twins(TypedRun(ops)) && PlainTags(TypedRun(ops))
    ensures (forall i :: 0 <= i < |ops| ==> !ops[i].OpDeleteRepo?) ==> SameLinks(TypedRun(ops))
  {
    if ops != [] {
      RunInvariants(ops[..|ops|-1]);
      StepInvariants(TypedRun(ops[..|ops|-1]), ops[|ops|-1]);
    }
  }

  /** Deleting a repository is what tears the two indexes apart, exactly when
      it still lists a blob. */
  lemma DeleteRepoSplitsLinks(t: Typed, repo: string)
    requires SameLinks(t)
    ensures SameLinks(t.DeleteRepo(repo)) <==> t.BlobsOf(repo) == {}
  {
    if d :| d in t.BlobsOf(repo) {
      assert (repo, d) in t.repoBlobs && (d, repo) in t.DeleteRepo(repo).blobRepos;
    } else {
      forall d ensures (repo, d) !in t.repoBlobs {
        assert (repo, d) in t.repoBlobs ==> d in t.BlobsOf(repo);
      }
    }
  }
}
