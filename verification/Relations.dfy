/** The metadata of a registry as five separate relations. */
module Relations {
  import opened Digests
  import opened Lex

  datatype ManifestMeta = ManifestMeta(digest: string, mediaType: string, size: nat, createdAt: int, layers: seq<string>)
  datatype RepoMeta = RepoMeta(name: string, createdAt: int, updatedAt: int)

  predicate IsDigestRef(reference: string) {
    "sha256:" <= reference
  }

  datatype Typed = Typed(
    manifests: map<(string, string), ManifestMeta>,  // (repo, digest)
    tags: map<(string, string), string>,             // (repo, tag) -> digest
    repos: map<string, RepoMeta>,
    blobRepos: set<(string, string)>,                // (digest, repo)
    repoBlobs: set<(string, string)>)                // (repo, digest)
  {
    function Put(repo: string, reference: string, meta: ManifestMeta, now: int): Typed {
      this.(manifests := manifests[(repo, meta.digest) := meta],
            tags := if IsDigestRef(reference) then tags else tags[(repo, reference) := meta.digest],
            repos := repos[repo := RepoMeta(repo, if repo in repos then repos[repo].createdAt else now, now)])
    }

    function Target(repo: string, reference: string): Option<string> {
      if IsDigestRef(reference) then Some(reference)
      else if (repo, reference) in tags then Some(tags[(repo, reference)])
      else None
    }

    function Get(repo: string, reference: string): Option<ManifestMeta> {
      match Target(repo, reference)
      case None => None
      case Some(d) => if (repo, d) in manifests then Some(manifests[(repo, d)]) else None
    }

    /** By tag or by digest; a tag takes the digest record with it. */
    function Delete(repo: string, reference: string): Option<Typed> {
      match Target(repo, reference)
      case None => None
      case Some(d) =>
        Some(this.(tags := if IsDigestRef(reference) then tags else tags - {(repo, reference)},
                   manifests := manifests - {(repo, d)}))
    }

    /** Everything of one repository, except that blobs still point back at it. */
    function DeleteRepo(repo: string): Typed {
      this.(manifests := map k | k in manifests && k.0 != repo :: manifests[k],
            tags := map k | k in tags && k.0 != repo :: tags[k],
            repoBlobs := (set k | k in repoBlobs && k.0 != repo),
            repos := repos - {repo})
    }

    function Link(d: string, repo: string): Typed {
      this.(blobRepos := blobRepos + {(d, repo)}, repoBlobs := repoBlobs + {(repo, d)})
    }

    function LinkAll(ds: set<string>, repo: string): Typed {
      this.(blobRepos := blobRepos + (set d | d in ds :: (d, repo)),
            repoBlobs := repoBlobs + (set d | d in ds :: (repo, d)))
    }

    function Unlink(d: string, repo: string): Typed {
      this.(blobRepos := blobRepos - {(d, repo)}, repoBlobs := repoBlobs - {(repo, d)})
    }

    function TagsOf(repo: string): set<string> {
      set k | k in tags && k.0 == repo :: k.1
    }

    function ReposOf(d: string): set<string> {
      set k | k in blobRepos && k.0 == d :: k.1
    }

    function BlobsOf(repo: string): set<string> {
      set k | k in repoBlobs && k.0 == repo :: k.1
    }
  }

  lemma LinkOneMore(t: Typed, ds: set<string>, repo: string, d: string)
    ensures t.LinkAll(ds, repo).Link(d, repo) == t.LinkAll(ds + {d}, repo)
  {
    var a, b := t.LinkAll(ds, repo).Link(d, repo), t.LinkAll(ds + {d}, repo);
    forall k ensures k in a.blobRepos <==> k in b.blobRepos {}
    forall k ensures k in a.repoBlobs <==> k in b.repoBlobs {}
  }

  const NOTHING := Typed(map[], map[], map[], {}, {})
}
