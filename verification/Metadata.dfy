/** The metadata store (internal/storage/metadata.go): five relations in one
    string-keyed map, read by point lookups and by ordered prefix scans. */
module Metadata {
  import opened Seqs
  import opened Lex
  import opened Digests
  import opened Relations

  /** A stored value, already decoded. */
  datatype Value = Manifest(meta: ManifestMeta) | TagTo(digest: string) | Repo(repo: RepoMeta) | Mark | Raw(data: Bytes)

  datatype Error = ManifestNotFound | RepoNotFound | Corrupt
  datatype Result<+T> = Ok(value: T) | Err(error: Error)

  type Db = map<string, Value>

  /* ---- keys ---- */

  function ManifestKey(repo: string, digest: string): string { "m:" + (repo + ":" + digest) }

  function TagKey(repo: string, tag: string): string { "t:" + (repo + ":" + tag) }

  function RepoKey(repo: string): string { "r:" + repo }

  function BlobRepoKey(digest: string, repo: string): string { "br:" + (digest + ":" + repo) }

  function RepoBlobKey(repo: string, digest: string): string { "rb:" + (repo + ":" + digest) }

  /* ---- what each operation does to the flat map ---- */

  function PutManifestFlat(db: Db, repo: string, reference: string, meta: ManifestMeta, now: int): Db {
    var db1 := db[ManifestKey(repo, meta.digest) := Manifest(meta)];
    var db2 := if IsDigestRef(reference) then db1 else db1[TagKey(repo, reference) := TagTo(meta.digest)];
    db2[RepoKey(repo) := Repo(RepoMeta(repo, RepoCreated(db2, repo, now), now))]
  }

  function RepoCreated(db: Db, repo: string, now: int): int {
    if RepoKey(repo) !in db then now
    else match db[RepoKey(repo)] case Repo(existing) => existing.createdAt case _ => 0
  }

  function ResolveFlat(db: Db, repo: string, reference: string): Result<string> {
    if IsDigestRef(reference) then Ok(reference)
    else if TagKey(repo, reference) !in db then Err(ManifestNotFound)
    else match db[TagKey(repo, reference)] case TagTo(d) => Ok(d) case _ => Err(Corrupt)
  }

  function GetManifestFlat(db: Db, repo: string, reference: string): Result<ManifestMeta> {
    match ResolveFlat(db, repo, reference)
    case Err(e) => Err(e)
    case Ok(d) =>
      if ManifestKey(repo, d) !in db then Err(ManifestNotFound)
      else match db[ManifestKey(repo, d)] case Manifest(meta) => Ok(meta) case _ => Err(Corrupt)
  }

  function DeleteManifestFlat(db: Db, repo: string, reference: string): Result<Db> {
    match ResolveFlat(db, repo, reference)
    case Err(e) => Err(e)
    case Ok(d) =>
      Ok((if IsDigestRef(reference) then db else db - {TagKey(repo, reference)}) - {ManifestKey(repo, d)})
  }

  /** What follows the prefix in the keys that have it. */
  function Suffixes(db: Db, prefix: string): set<string> {
    set k | k in db && prefix <= k :: k[|prefix|..]
  }

  function Prefixed(db: Db, prefix: string): set<string> {
    set k | k in db && prefix <= k
  }

  /** The keys `DeleteRepository` collects. */
  function Doomed(db: Db, repo: string): set<string> {
    Prefixed(db, ManifestKey(repo, "")) + Prefixed(db, TagKey(repo, "")) + Prefixed(db, RepoBlobKey(repo, ""))
      + {RepoKey(repo)}
  }

  /* ---- the store ---- */

  class MetadataStore {
    var db: Db

    constructor ()
      ensures db == map[]
    { db := map[]; }

    method PutManifest(repo: string, reference: string, meta: ManifestMeta, now: int)
      modifies this
      ensures db == PutManifestFlat(old(db), repo, reference, meta, now)
    {
      db := db[ManifestKey(repo, meta.digest) := Manifest(meta)];
      if !IsDigestRef(reference) {
        db := db[TagKey(repo, reference) := TagTo(meta.digest)];
      }
      var created := now;
      if RepoKey(repo) in db {
        match db[RepoKey(repo)] {
          case Repo(existing) => created := existing.createdAt;
          case _ => created := 0;
        }
      }
      db := db[RepoKey(repo) := Repo(RepoMeta(repo, created, now))];
    }

    method GetManifest(repo: string, reference: string) returns (r: Result<ManifestMeta>)
      ensures r == GetManifestFlat(db, repo, reference)
    {
      var d := reference;
      if !IsDigestRef(reference) {
        if TagKey(repo, reference) !in db {
          return Err(ManifestNotFound);
        }
        match db[TagKey(repo, reference)] {
          case TagTo(t) => d := t;
          case _ => return Err(Corrupt);
        }
      }
      if ManifestKey(repo, d) !in db {
        return Err(ManifestNotFound);
      }
      match db[ManifestKey(repo, d)] {
        case Manifest(meta) => return Ok(meta);
        case _ => return Err(Corrupt);
      }
    }

    /** Deleting by tag drops the digest record along with the tag. */
    method DeleteManifest(repo: string, reference: string) returns (r: Result<()>)
      modifies this
      ensures DeleteManifestFlat(old(db), repo, reference).Ok? ==>
        r == Ok(()) && db == DeleteManifestFlat(old(db), repo, reference).value
      ensures DeleteManifestFlat(old(db), repo, reference).Err? ==>
        r == Err(DeleteManifestFlat(old(db), repo, reference).error) && db == old(db)
    {
      var d := reference;
      if !IsDigestRef(reference) {
        if TagKey(repo, reference) !in db {
          return Err(ManifestNotFound);
        }
        match db[TagKey(repo, reference)] {
          case TagTo(t) => d := t;
          case _ => return Err(Corrupt);
        }
        db := db - {TagKey(repo, reference)};
      }
      db := db - {ManifestKey(repo, d)};
      return Ok(());
    }

    /** An iterator's `Seek(prefix)`, then `Next` while the key has the prefix.
        The iterator sees a snapshot in key order. */
    method ScanSuffixes(prefix: string) returns (r: seq<string>)
      ensures r == InOrder(Suffixes(db, prefix))
    {
      var keys := InOrder(db.Keys);
      var start := Seek(keys, prefix);
      var i := start;
      r := [];
      while i < |keys| && prefix <= keys[i]
        invariant start <= i <= |keys|
        invariant IsCut(r, keys, start, i, prefix)
      {
        CutMore(r, keys, start, i, prefix);
        r := r + [keys[i][|prefix|..]];
        i := i + 1;
      }
      ScanComplete(db, prefix, keys, start, i, r);
    }

    method ListTags(repo: string) returns (r: seq<string>)
      ensures r == InOrder(Suffixes(db, TagKey(repo, "")))
    { r := ScanSuffixes(TagKey(repo, "")); }

    method ListRepositories() returns (r: seq<string>)
      ensures r == InOrder(Suffixes(db, RepoKey("")))
    { r := ScanSuffixes(RepoKey("")); }

    method GetBlobRepos(d: string) returns (r: seq<string>)
      ensures r == InOrder(Suffixes(db, BlobRepoKey(d, "")))
    { r := ScanSuffixes(BlobRepoKey(d, "")); }

    method GetRepoBlobs(repo: string) returns (r: seq<string>)
      ensures r == InOrder(Suffixes(db, RepoBlobKey(repo, "")))
    { r := ScanSuffixes(RepoBlobKey(repo, "")); }

    method HasBlob(repo: string, d: string) returns (r: bool)
      ensures r <==> RepoBlobKey(repo, d) in db
    { r := RepoBlobKey(repo, d) in db; }

    method LinkBlobToRepo(d: string, repo: string)
      modifies this
      ensures db == old(db)[BlobRepoKey(d, repo) := Mark][RepoBlobKey(repo, d) := Mark]
    {
      db := db[BlobRepoKey(d, repo) := Mark];
      db := db[RepoBlobKey(repo, d) := Mark];
    }

    method UnlinkBlobFromRepo(d: string, repo: string)
      modifies this
      ensures db == old(db) - {BlobRepoKey(d, repo), RepoBlobKey(repo, d)}
    {
      db := db - {BlobRepoKey(d, repo)};
      db := db - {RepoBlobKey(repo, d)};
    }

    /** Three scans collect the keys, then they are deleted one by one. */
    method DeleteRepository(repo: string)
      modifies this
      ensures db == old(db) - Doomed(old(db), repo)
    {
      var prefixes := [ManifestKey(repo, ""), TagKey(repo, ""), RepoBlobKey(repo, "")];
      var doomed: seq<string> := [];
      for p := 0 to 3
        invariant db == old(db)
        invariant Elements(doomed) == (if p > 0 then Prefixed(db, prefixes[0]) else {})
          + (if p > 1 then Prefixed(db, prefixes[1]) else {}) + if p > 2 then Prefixed(db, prefixes[2]) else {}
      {
        var found := ScanSuffixes(prefixes[p]);
        var more := WithPrefix(prefixes[p], found);
        ScannedKeys(db, prefixes[p], found);
        assert Elements(doomed + more) == Elements(doomed) + Elements(more);
        doomed := doomed + more;
      }
      assert Elements(doomed + [RepoKey(repo)]) == Elements(doomed) + {RepoKey(repo)};
      doomed := doomed + [RepoKey(repo)];
      for i := 0 to |doomed|
        invariant db == old(db) - Elements(doomed[..i])
      {
        assert Elements(doomed[..i+1]) == Elements(doomed[..i]) + {doomed[i]} by {
          assert doomed[..i+1] == doomed[..i] + [doomed[i]];
        }
        db := db - {doomed[i]};
      }
      assert doomed[..|doomed|] == doomed;
    }

    method PutRaw(key: string, data: Bytes)
      modifies this
      ensures db == old(db)[key := Raw(data)]
    { db := db[key := Raw(data)]; }
  }

  function WithPrefix(prefix: string, s: seq<string>): (r: seq<string>)
    ensures |r| == |s| && forall i :: 0 <= i < |r| ==> r[i] == prefix + s[i]
  {
    seq(|s|, i requires 0 <= i < |s| => prefix + s[i])
  }

  lemma ScannedKeys(db: Db, prefix: string, found: seq<string>)
    requires found == InOrder(Suffixes(db, prefix))
    ensures Elements(WithPrefix(prefix, found)) == Prefixed(db, prefix)
  {
    var r := WithPrefix(prefix, found);
    InOrderElements(Suffixes(db, prefix));
    assert forall s :: s in found <==> s in Elements(found);
    forall k ensures k in Elements(r) <==> k in Prefixed(db, prefix) {
      if k in r {
        var i :| 0 <= i < |r| && r[i] == k;
        assert found[i] in Suffixes(db, prefix);
        SuffixIs(db, prefix, found[i]);
        assert k[..|prefix|] == prefix;
      }
      if k in Prefixed(db, prefix) {
        var s := k[|prefix|..];
        assert k == prefix + s;
        SuffixIs(db, prefix, s);
        var i :| 0 <= i < |found| && found[i] == s;
        assert r[i] == k;
      }
    }
  }

  lemma SuffixIs(db: Db, p: string, x: string)
    ensures x in Suffixes(db, p) <==> p + x in db
  {
    if x in Suffixes(db, p) {
      var k :| k in db && p <= k && x == k[|p|..];
      assert k == p + k[|p|..];
    }
    if p + x in db {
      assert p <= p + x && x == (p + x)[|p|..];
    }
  }

  lemma CutMore(r: seq<string>, keys: seq<string>, lo: nat, hi: nat, prefix: string)
    requires IsCut(r, keys, lo, hi, prefix) && hi < |keys| && prefix <= keys[hi]
    ensures IsCut(r + [keys[hi][|prefix|..]], keys, lo, hi + 1, prefix)
  {}

  method Seek(keys: seq<string>, prefix: string) returns (i: nat)
    ensures i <= |keys|
    ensures forall j :: 0 <= j < i ==> !Leq(prefix, keys[j])
    ensures i < |keys| ==> Leq(prefix, keys[i])
  {
    i := 0;
    while i < |keys| && !Leq(prefix, keys[i])
      invariant 0 <= i <= |keys|
      invariant forall j :: 0 <= j < i ==> !Leq(prefix, keys[j])
    {
      i := i + 1;
    }
  }

  /** `r` is the stretch of the keys from `lo` to `hi`, prefixes cut off. */
  ghost predicate IsCut(r: seq<string>, keys: seq<string>, lo: nat, hi: nat, prefix: string) {
    && lo <= hi <= |keys| && |r| == hi - lo
    && (forall m :: lo <= m < hi ==> prefix <= keys[m])
    && forall j :: 0 <= j < |r| ==> r[j] == keys[lo + j][|prefix|..]
  }

  /** The scanned stretch of the ordered keys holds every key with the prefix,
      in an order the suffixes inherit. */
  lemma ScanComplete(db: Db, prefix: string, keys: seq<string>, lo: nat, hi: nat, r: seq<string>)
    requires keys == InOrder(db.Keys) && IsCut(r, keys, lo, hi, prefix)
    requires forall j :: 0 <= j < lo ==> !Leq(prefix, keys[j])
    requires lo < |keys| ==> Leq(prefix, keys[lo])
    requires hi < |keys| ==> !(prefix <= keys[hi])
    ensures r == InOrder(Suffixes(db, prefix))
  {
    ScanElements(db, prefix, keys, lo, hi, r);
    InOrderIncreasing(db.Keys);
    CutIncreasing(r, keys, lo, hi, prefix);
    InOrderIncreasing(Suffixes(db, prefix));
    IncreasingUnique(r, InOrder(Suffixes(db, prefix)));
  }

  lemma CutIncreasing(r: seq<string>, keys: seq<string>, lo: nat, hi: nat, prefix: string)
    requires Increasing(keys) && IsCut(r, keys, lo, hi, prefix)
    ensures Increasing(r)
  {
    forall i, j | 0 <= i < j < |r| ensures Leq(r[i], r[j]) && r[i] != r[j] {
      SuffixOrder(prefix, keys[lo + i], keys[lo + j]);
    }
  }

  lemma ScanElements(db: Db, prefix: string, keys: seq<string>, lo: nat, hi: nat, r: seq<string>)
    requires keys == InOrder(db.Keys) && IsCut(r, keys, lo, hi, prefix)
    requires forall j :: 0 <= j < lo ==> !Leq(prefix, keys[j])
    requires lo < |keys| ==> Leq(prefix, keys[lo])
    requires hi < |keys| ==> !(prefix <= keys[hi])
    ensures Elements(r) == Suffixes(db, prefix)
  {
    InOrderElements(db.Keys);
    forall x | x in r ensures x in Suffixes(db, prefix) {
      var j :| 0 <= j < |r| && r[j] == x;
      assert keys[lo + j] in Elements(keys);
    }
    forall x | x in Suffixes(db, prefix) ensures x in r {
      var k :| k in db && prefix <= k && x == k[|prefix|..];
      var j := ScanFinds(db, prefix, keys, lo, hi, k);
      assert r[j - lo] == x;
    }
  }

  lemma ScanFinds(db: Db, prefix: string, keys: seq<string>, lo: nat, hi: nat, k: string) returns (j: nat)
    requires keys == InOrder(db.Keys) && lo <= hi <= |keys|
    requires forall j :: 0 <= j < lo ==> !Leq(prefix, keys[j])
    requires lo < |keys| ==> Leq(prefix, keys[lo])
    requires hi < |keys| ==> !(prefix <= keys[hi])
    requires k in db && prefix <= k
    ensures lo <= j < hi && keys[j] == k
  {
    InOrderIncreasing(db.Keys);
    assert k in Elements(keys);
    j :| 0 <= j < |keys| && keys[j] == k;
    PrefixLeq(prefix, k);
    if hi <= j {
      NotPast(prefix, keys, lo, hi, j);
    }
  }

  lemma NotPast(prefix: string, keys: seq<string>, lo: nat, hi: nat, j: nat)
    requires Increasing(keys) && lo <= hi <= j < |keys|
    requires Leq(prefix, keys[lo]) && prefix <= keys[j]
    ensures prefix <= keys[hi]
  {
    LeqRefl(keys[lo]);
    LeqRefl(keys[hi]);
    assert Leq(keys[lo], keys[hi]) && Leq(keys[hi], keys[j]);
    LeqTrans(prefix, keys[lo], keys[hi]);
    PrefixConvex(prefix, keys[hi], keys[j]);
  }

  lemma {:induction false} SuffixOrder(p: string, a: string, b: string)
    requires p <= a && p <= b && Leq(a, b)
    ensures Leq(a[|p|..], b[|p|..])
    ensures a != b ==> a[|p|..] != b[|p|..]
  {
    if p == "" {
      assert a[0..] == a && b[0..] == b;
    } else {
      assert a[0] == a[..|p|][0] == p[0] == b[..|p|][0] == b[0];
      assert a[1..][..|p|-1] == a[..|p|][1..] == p[1..];
      assert b[1..][..|p|-1] == b[..|p|][1..] == p[1..];
      SuffixOrder(p[1..], a[1..], b[1..]);
      assert a == [a[0]] + a[1..] && b == [b[0]] + b[1..];
      assert a[|p|..] == a[1..][|p|-1..] && b[|p|..] == b[1..][|p|-1..];
    }
  }
}
