/** The manifest handlers with their cache in front of the metadata store
    (internal/api/v2/handlers.go, and the store's half of `GetManifest` in
    internal/mirror/proxy.go).  The metadata store is the five relations that it
    refines (see `TypedMetadata`).  Handlers are atomic at first; what happens
    between the two halves of a GET comes after that. */
module ManifestCache {
  import opened Seqs
  import opened Digests
  import opened Blobs
  import opened Relations
  import opened TypedMetadata
  import opened MetadataRuns
  import Lru
  import LruCache

  type Entry = Lru.Entry<ManifestMeta>

  const CAPACITY: nat := 10000

  function CacheKey(repo: string, reference: string): string {
    repo + ":" + reference
  }

  lemma CacheKeyInjective(r1: string, x1: string, r2: string, x2: string)
    requires Good(r1) && Good(r2) && CacheKey(r1, x1) == CacheKey(r2, x2)
    ensures r1 == r2 && x1 == x2
  {
    JoinInjective(r1, x1, r2, x2);
  }

  datatype State = State(cache: seq<Entry>, meta: Typed)

  /** What the pull-through proxy came back with, and which of its own stores
      succeeded. */
  datatype Proxied = Proxied(meta: ManifestMeta, body: Bytes, stored: bool, linked: bool)

  function Fill(t: Typed, repo: string, reference: string, p: Proxied, now: int): Typed {
    var t' := if p.stored then t.Put(repo, reference, p.meta, now) else t;
    if p.linked then t'.Link(p.meta.digest, repo) else t'
  }

  datatype Answer = Resolved(m: ManifestMeta) | Fetched(m: ManifestMeta, body: Bytes) | Unknown | Unreadable

  /** `fails`: the metadata cannot be read. */
  function GetStep(s: State, repo: string, reference: string, p: Option<Proxied>, fails: bool, now: int): (State, Answer) {
    var key := CacheKey(repo, reference);
    var (es, hit) := Lru.GetSpec(s.cache, key, now);
    if hit.Some? then (State(es, s.meta), Resolved(hit.value))
    else if fails then (State(es, s.meta), Unreadable)
    else match s.meta.Get(repo, reference)
      case Some(m) => (State(Lru.SetSpec(CAPACITY, es, key, m, 0, now), s.meta), Resolved(m))
      case None => match p
        case Some(q) => (State(es, Fill(s.meta, repo, reference, q, now)), Fetched(q.meta, q.body))
        case None => (State(es, s.meta), Unknown)
  }

  function PutStep(s: State, repo: string, reference: string, m: ManifestMeta, links: set<string>, now: int): State {
    State(Lru.Without(Lru.Without(s.cache, CacheKey(repo, reference)), CacheKey(repo, m.digest)),
          s.meta.Put(repo, reference, m, now).LinkAll(links, repo))
  }

  function DeleteStep(s: State, repo: string, reference: string): Option<State> {
    match s.meta.Delete(repo, reference)
    case None => None
    case Some(t) => Some(State(Lru.Without(s.cache, CacheKey(repo, reference)), t))
  }

  /* ---- the handlers ---- */

  /** What is used of an uploaded manifest. */
  datatype Doc = Doc(mediaType: string, config: string, layers: seq<string>)

  datatype Status = Created | BadRequest | ServerError | Aborted

  /** A digest too short to make a file name from aborts the request. */
  predicate Named(d: string) {
    |Hex(d)| >= 2
  }

  predicate Known(files: Files, d: string) {
    Named(d) && BlobPath(d) in files
  }

  datatype Response = Ok(m: ManifestMeta, body: Bytes) | NotFound | InternalError | Broken

  /** A resolved manifest is read from the blob store, a fetched one is at hand. */
  function Respond(files: Files, a: Answer): Response {
    match a
    case Resolved(m) =>
      if !Named(m.digest) then Broken else if Known(files, m.digest) then Ok(m, files[BlobPath(m.digest)]) else InternalError
    case Fetched(m, body) => Ok(m, body)
    case Unknown => NotFound
    case Unreadable => InternalError
  }

  function Referenced(doc: Doc): seq<string> {
    (if doc.config != "" then [doc.config] else []) + doc.layers
  }

  /** Config, if there is one, and every layer are stored. */
  predicate AllKnown(files: Files, doc: Doc) {
    (doc.config != "" ==> Known(files, doc.config)) && forall k :: 0 <= k < |doc.layers| ==> Known(files, doc.layers[k])
  }

  lemma ReferencedAreAll(files: Files, doc: Doc)
    ensures AllKnown(files, doc) <==> forall i :: 0 <= i < |Referenced(doc)| ==> Known(files, Referenced(doc)[i])
    ensures forall d :: d in Elements(Referenced(doc)) <==> (doc.config != "" && d == doc.config) || d in doc.layers
  {
    hide Known;
    var ds, n := Referenced(doc), if doc.config != "" then 1 else 0;
    assert forall k :: 0 <= k < |doc.layers| ==> ds[n+k] == doc.layers[k];
    assert doc.config != "" ==> ds[0] == doc.config;
  }

  /** The blobs after a manifest has been stored; one of the same name and size is
      left as it is. */
  function WithBody(sha: Bytes -> string, files: Files, body: Bytes): Files
    requires Digests.Valid(sha(body))
  {
    if Has(files, sha(body)) && |Content(files, sha(body))| == |body| then files else files[BlobPath(sha(body)) := body]
  }

  function MetaOf(sha: Bytes -> string, body: Bytes, doc: Doc, contentType: string): ManifestMeta {
    ManifestMeta(sha(body), if doc.mediaType == "" then contentType else doc.mediaType, |body|, 0, doc.layers)
  }

  class Handler {
    const cache: LruCache.LRUCache<ManifestMeta>
    const blobs: BlobStore
    var meta: Typed

    ghost predicate Valid()
      reads this, cache, cache.lru, cache.lru.Repr
    {
      cache.Valid() && cache.capacity == CAPACITY
    }

    ghost function Now(): State
      requires Valid()
      reads this, cache, cache.lru, cache.lru.Repr
    {
      State(cache.Contents(), meta)
    }

    constructor (blobs: BlobStore)
      ensures Valid() && Now() == State([], NOTHING) && this.blobs == blobs
    {
      this.blobs := blobs;
      cache := new LruCache.LRUCache(CAPACITY);
      meta := NOTHING;
    }

    method HandleGetManifest(repo: string, reference: string, p: Option<Proxied>, fails: bool, now: int) returns (r: Response)
      requires Valid()
      modifies this`meta, cache, cache.lru, cache.lru.Repr
      ensures Valid() && Now() == GetStep(old(Now()), repo, reference, p, fails, now).0
      ensures r == Respond(blobs.files, GetStep(old(Now()), repo, reference, p, fails, now).1)
    {
      hide LruCache.Indexed, LruCache.Linked, LruCache.Entries, NoRepeats, Lru.GetSpec, Lru.SetSpec, Lru.Without;
      var key := CacheKey(repo, reference);
      var cached := cache.Get(key, now);
      if cached.Some? {
        r := ServeManifest(cached.value);
        return;
      }
      if fails {
        return InternalError;
      }
      match meta.Get(repo, reference) {
        case None =>
          if p.None? {
            return NotFound;
          }
          if p.value.stored {
            meta := meta.Put(repo, reference, p.value.meta, now);
          }
          if p.value.linked {
            meta := meta.Link(p.value.meta.digest, repo);
          }
          return Ok(p.value.meta, p.value.body);
        case Some(m) =>
          cache.SetWithTTL(key, m, 0, now);
          r := ServeManifest(m);
      }
    }

    method ServeManifest(m: ManifestMeta) returns (r: Response)
      ensures r == Respond(blobs.files, Resolved(m))
    {
      if !Named(m.digest) {
        return Broken;
      }
      if BlobPath(m.digest) !in blobs.files {
        return InternalError;
      }
      return Ok(m, blobs.files[BlobPath(m.digest)]);
    }

    /** Every blob the manifest refers to, in the order in which they are looked
        up; the first that is unknown ends it. */
    method CheckReferenced(ds: seq<string>) returns (s: Status)
      ensures s == Created <==> forall i :: 0 <= i < |ds| ==> Known(blobs.files, ds[i])
      ensures s == Aborted ==> exists i :: 0 <= i < |ds| && |Hex(ds[i])| < 2
      ensures s != ServerError
    {
      for i := 0 to |ds|
        invariant forall k :: 0 <= k < i ==> Known(blobs.files, ds[k])
      {
        if !Named(ds[i]) {
          return Aborted;
        }
        if BlobPath(ds[i]) !in blobs.files {
          return BadRequest;
        }
      }
      return Created;
    }

    method HandlePutManifest(repo: string, reference: string, body: Bytes, doc: Option<Doc>, contentType: string,
                             io: Faults, metaFails: bool, now: int) returns (s: Status)
      requires Valid() && MakesDigests(blobs.sha)
      modifies this`meta, blobs, cache, cache.lru, cache.lru.Repr
      ensures Valid()
      ensures s == Created ==>
        && doc.Some? && AllKnown(old(blobs.files), doc.value)
        && blobs.files == WithBody(blobs.sha, old(blobs.files), body)
        && Now() == PutStep(old(Now()), repo, reference, MetaOf(blobs.sha, body, doc.value, contentType),
                            Elements([blobs.sha(body)] + Referenced(doc.value)), now)
      ensures s != Created ==> Now() == old(Now())
      ensures blobs.files == old(blobs.files) || blobs.files == WithBody(blobs.sha, old(blobs.files), body)
      ensures doc.None? ==> s == BadRequest
      ensures s == BadRequest || s == Aborted ==>
        blobs.files == old(blobs.files) && (doc.Some? ==> !AllKnown(old(blobs.files), doc.value))
      ensures (&& doc.Some? && AllKnown(old(blobs.files), doc.value)
               && io == Faults(false, false, false, false) && !metaFails) ==> s == Created
      ensures ContentAddressed(blobs.sha, old(blobs.files)) ==> ContentAddressed(blobs.sha, blobs.files)
    {
      hide LruCache.Indexed, LruCache.Linked, LruCache.Entries, NoRepeats, Lru.GetSpec, Lru.SetSpec, Lru.Without;
      if doc.None? {
        return BadRequest;
      }
      ReferencedAreAll(blobs.files, doc.value);
      var known := CheckReferenced(Referenced(doc.value));
      if known != Created {
        return known;
      }
      var dgst := blobs.sha(body);
      var stored := StoreBody(body, io);
      if !stored || metaFails {
        return ServerError;
      }
      var m := MetaOf(blobs.sha, body, doc.value, contentType);
      Register(repo, reference, m, [dgst] + Referenced(doc.value), now);
      return Created;
    }

    method StoreBody(body: Bytes, io: Faults) returns (ok: bool)
      requires MakesDigests(blobs.sha)
      modifies blobs
      ensures blobs.files == if ok then WithBody(blobs.sha, old(blobs.files), body) else old(blobs.files)
      ensures io == Faults(false, false, false, false) ==> ok
      ensures ContentAddressed(blobs.sha, old(blobs.files)) ==> ContentAddressed(blobs.sha, blobs.files)
    {
      var dgst := blobs.sha(body);
      ValidShape(dgst);
      ghost var files := blobs.files;
      var outcome := blobs.Put(dgst, Reader(body, false), |body|, io);
      if ContentAddressed(blobs.sha, files) {
        StoredKeeps(blobs.sha, files, dgst, body);
      }
      return outcome == Stored || outcome == Present;
    }

    /** Record, links, and only then the cache. */
    method Register(repo: string, reference: string, m: ManifestMeta, links: seq<string>, now: int)
      requires Valid()
      modifies this`meta, cache, cache.lru, cache.lru.Repr
      ensures Valid() && Now() == PutStep(old(Now()), repo, reference, m, Elements(links), now)
    {
      hide LruCache.Indexed, LruCache.Linked, LruCache.Entries, NoRepeats, Lru.GetSpec, Lru.SetSpec, Lru.Without;
      meta := meta.Put(repo, reference, m, now);
      Link(links, repo);
      cache.Delete(CacheKey(repo, reference));
      cache.Delete(CacheKey(repo, m.digest));
    }

    method Link(ds: seq<string>, repo: string)
      modifies this`meta
      ensures meta == old(meta).LinkAll(Elements(ds), repo)
    {
      for i := 0 to |ds|
        invariant meta == old(meta).LinkAll(Elements(ds[..i]), repo)
      {
        ElementsNext(ds, i);
        LinkOneMore(old(meta), Elements(ds[..i]), repo, ds[i]);
        meta := meta.Link(ds[i], repo);
      }
      assert ds[..|ds|] == ds;
    }

    method HandleDeleteManifest(repo: string, reference: string) returns (found: bool)
      requires Valid()
      modifies this`meta, cache, cache.lru, cache.lru.Repr
      ensures Valid()
      ensures found == DeleteStep(old(Now()), repo, reference).Some?
      ensures Now() == if found then DeleteStep(old(Now()), repo, reference).value else old(Now())
    {
      hide LruCache.Indexed, LruCache.Linked, LruCache.Entries, NoRepeats, Lru.GetSpec, Lru.SetSpec, Lru.Without;
      var t := meta.Delete(repo, reference);
      if t.None? {
        return false;
      }
      meta := t.value;
      cache.Delete(CacheKey(repo, reference));
      return true;
    }
  }

  /* ---- coherence ---- */

  function Cached(es: seq<Entry>, repo: string, reference: string): Option<ManifestMeta> {
    match Lru.Find(es, CacheKey(repo, reference)) case None => None case Some(e) => Some(e.value)
  }

  predicate Resolves(t: Typed, repo: string, reference: string, d: string) {
    t.Get(repo, reference).Some? && t.Get(repo, reference).value.digest == d
  }

  /** Every cached reference has the digest the metadata would resolve it to. */
  ghost predicate Coherent(s: State) {
    forall r, x :: Good(r) && Cached(s.cache, r, x).Some? ==> Resolves(s.meta, r, x, Cached(s.cache, r, x).value.digest)
  }

  ghost predicate Inv(s: State) {
    Lru.Fits(CAPACITY, s.cache) && KeyedByDigest(s.meta) && Coherent(s)
  }

  /** What is found after an operation on the cache was just set, or found before. */
  lemma FoundAfter(es: seq<Entry>, op: Lru.Op<ManifestMeta>, now: int, key: string)
    requires Lru.Fits(CAPACITY, es)
    ensures var es' := Lru.Apply(CAPACITY, es, op, now);
      && Lru.Fits(CAPACITY, es')
      && (Lru.Find(es', key).Some? ==>
            || (op.Set? && op.key == key && Lru.Find(es', key).value.value == op.value)
            || (Lru.Find(es', key) == Lru.Find(es, key) && (op.Set? || op.Delete? ==> op.key != key)))
  {
    var es' := Lru.Apply(CAPACITY, es, op, now);
    Lru.ApplyFits(CAPACITY, es, op, now);
    if Lru.Find(es', key).Some? {
      var e := Lru.Find(es', key).value;
      Lru.ApplyFrom(CAPACITY, es, op, now, e);
      if e in es {
        var i :| 0 <= i < |es| && es[i] == e;
        Lru.FindAt(es, i);
      }
    }
  }

  /** Other keys lose nothing by a deletion. */
  lemma KeptAfter(es: seq<Entry>, gone: string, key: string)
    requires Lru.Fits(CAPACITY, es) && key != gone
    ensures Lru.Find(Lru.Without(es, gone), key) == Lru.Find(es, key)
  {
    Lru.FrontKeep(es, Lru.Others(es, gone), key);
  }

  lemma PutResolves(t: Typed, repo: string, reference: string, m: ManifestMeta, now: int, r: string, x: string, d: string)
    requires KeyedByDigest(t)
    ensures KeyedByDigest(t.Put(repo, reference, m, now))
    ensures Resolves(t, r, x, d) && ((r, x) != (repo, reference) || IsDigestRef(x)) ==>
      Resolves(t.Put(repo, reference, m, now), r, x, d)
    ensures !IsDigestRef(reference) ==> (Resolves(t.Put(repo, reference, m, now), repo, reference, d) <==> d == m.digest)
  {
  }

  lemma LinkKeepsGet(t: Typed, ds: set<string>, d: string, repo: string)
    ensures forall r, x :: t.LinkAll(ds, repo).Get(r, x) == t.Get(r, x) && t.Link(d, repo).Get(r, x) == t.Get(r, x)
    ensures KeyedByDigest(t) ==> KeyedByDigest(t.LinkAll(ds, repo)) && KeyedByDigest(t.Link(d, repo))
  {
  }

  /** GET, from the cache, the store, or upstream. */
  lemma GetKeepsCoherence(s: State, repo: string, reference: string, p: Option<Proxied>, fails: bool, now: int)
    requires Inv(s) && Good(repo)
    ensures Inv(GetStep(s, repo, reference, p, fails, now).0)
    ensures GetStep(s, repo, reference, p, fails, now).1.Resolved? ==>
      Resolves(s.meta, repo, reference, GetStep(s, repo, reference, p, fails, now).1.m.digest)
  {
    var key := CacheKey(repo, reference);
    var (es, hit) := Lru.GetSpec(s.cache, key, now);
    AfterGet(s, repo, reference, now);
    assert Coherent(State(es, s.meta));
    if hit.Some? {
      assert Cached(s.cache, repo, reference) == hit;
    } else if fails {
    } else if s.meta.Get(repo, reference).Some? {
      SetKeepsCoherence(State(es, s.meta), repo, reference, now);
    } else if p.Some? {
      FillKeepsCoherence(State(es, s.meta), repo, reference, p.value, now);
    }
  }

  /** The bytes that a GET serves from the store hash to the digest that the
      metadata resolves the reference to. */
  lemma GetServesResolved(s: State, sha: Bytes -> string, files: Files, repo: string, reference: string,
                          p: Option<Proxied>, fails: bool, now: int)
    requires Inv(s) && Good(repo) && ContentAddressed(sha, files)
    ensures var (_, a) := GetStep(s, repo, reference, p, fails, now);
      a.Resolved? && Respond(files, a).Ok? && Valid(a.m.digest) ==>
        s.meta.Get(repo, reference).Some? && sha(Respond(files, a).body) == s.meta.Get(repo, reference).value.digest
  {
    GetKeepsCoherence(s, repo, reference, p, fails, now);
    var a := GetStep(s, repo, reference, p, fails, now).1;
    hide GetStep;
    if a.Resolved? && Respond(files, a).Ok? && Valid(a.m.digest) {
      assert Has(files, a.m.digest) && Content(files, a.m.digest) == Respond(files, a).body;
    }
  }

  lemma AfterGet(s: State, repo: string, reference: string, now: int)
    requires Inv(s)
    ensures Inv(State(Lru.GetSpec(s.cache, CacheKey(repo, reference), now).0, s.meta))
  {
    var op := Lru.Get(CacheKey(repo, reference));
    Lru.ApplyFits(CAPACITY, s.cache, op, now);
    var es := Lru.Apply(CAPACITY, s.cache, op, now);
    forall r, x | Good(r) && Cached(es, r, x).Some? ensures Resolves(s.meta, r, x, Cached(es, r, x).value.digest) {
      FoundAfter(s.cache, op, now, CacheKey(r, x));
      assert Cached(s.cache, r, x) == Cached(es, r, x);
    }
  }

  lemma SetFinds(es: seq<Entry>, key: string, m: ManifestMeta, now: int)
    ensures Lru.Find(Lru.SetSpec(CAPACITY, es, key, m, 0, now), key) == Some(Lru.Entry(key, m, 0))
  {
    var es' := Lru.SetSpec(CAPACITY, es, key, m, 0, now);
    hide Lru.Without;
    assert es'[0] == Lru.Entry(key, m, 0);
  }

  /** Caching a record keeps coherence exactly if the metadata resolves the
      reference to its digest at that moment. */
  lemma SetCoherence(s: State, repo: string, reference: string, m: ManifestMeta, now: int)
    requires Inv(s) && Good(repo)
    ensures var s' := State(Lru.SetSpec(CAPACITY, s.cache, CacheKey(repo, reference), m, 0, now), s.meta);
      Lru.Fits(CAPACITY, s'.cache) && (Coherent(s') <==> Resolves(s.meta, repo, reference, m.digest))
  {
    var op := Lru.Set(CacheKey(repo, reference), m, 0);
    Lru.ApplyFits(CAPACITY, s.cache, op, now);
    var es := Lru.Apply(CAPACITY, s.cache, op, now);
    SetFinds(s.cache, CacheKey(repo, reference), m, now);
    assert Cached(es, repo, reference) == Some(m);
    hide Lru.SetSpec, Resolves;
    if Resolves(s.meta, repo, reference, m.digest) {
      forall r, x | Good(r) && Cached(es, r, x).Some? ensures Resolves(s.meta, r, x, Cached(es, r, x).value.digest) {
        FoundAfter(s.cache, op, now, CacheKey(r, x));
        if CacheKey(r, x) == CacheKey(repo, reference) {
          CacheKeyInjective(r, x, repo, reference);
        } else {
          assert Cached(s.cache, r, x) == Cached(es, r, x);
        }
      }
    }
  }

  lemma SetKeepsCoherence(s: State, repo: string, reference: string, now: int)
    requires Inv(s) && Good(repo) && s.meta.Get(repo, reference).Some?
    ensures Inv(State(Lru.SetSpec(CAPACITY, s.cache, CacheKey(repo, reference), s.meta.Get(repo, reference).value, 0, now), s.meta))
  {
    SetCoherence(s, repo, reference, s.meta.Get(repo, reference).value, now);
  }

  /** The proxy fills in a reference that did not resolve, hence was not cached. */
  lemma FillKeepsCoherence(s: State, repo: string, reference: string, p: Proxied, now: int)
    requires Inv(s) && Good(repo) && s.meta.Get(repo, reference).None?
    ensures Inv(State(s.cache, Fill(s.meta, repo, reference, p, now)))
  {
    var t := if p.stored then s.meta.Put(repo, reference, p.meta, now) else s.meta;
    LinkKeepsGet(t, {}, p.meta.digest, repo);
    var t' := Fill(s.meta, repo, reference, p, now);
    PutResolves(s.meta, repo, reference, p.meta, now, repo, reference, "");
    forall r, x | Good(r) && Cached(s.cache, r, x).Some? ensures Resolves(t', r, x, Cached(s.cache, r, x).value.digest) {
      assert Resolves(s.meta, r, x, Cached(s.cache, r, x).value.digest);
      PutResolves(s.meta, repo, reference, p.meta, now, r, x, Cached(s.cache, r, x).value.digest);
    }
  }

  lemma WithoutFits(es: seq<Entry>, key: string)
    requires Lru.Fits(CAPACITY, es)
    ensures Lru.Fits(CAPACITY, Lru.Without(es, key))
    ensures forall k :: Lru.Find(Lru.Without(es, key), k) == if k == key then None else Lru.Find(es, k)
  {
    Lru.WithoutFits(CAPACITY, es, key);
    forall k ensures Lru.Find(Lru.Without(es, key), k) == if k == key then None else Lru.Find(es, k) {
      if k != key {
        KeptAfter(es, key, k);
      }
    }
  }

  /** PUT forgets what it replaces. */
  lemma PutKeepsCoherence(s: State, repo: string, reference: string, m: ManifestMeta, links: set<string>, now: int)
    requires Inv(s) && Good(repo)
    ensures Inv(PutStep(s, repo, reference, m, links, now))
  {
    var s' := PutStep(s, repo, reference, m, links, now);
    WithoutFits(s.cache, CacheKey(repo, reference));
    WithoutFits(Lru.Without(s.cache, CacheKey(repo, reference)), CacheKey(repo, m.digest));
    LinkKeepsGet(s.meta.Put(repo, reference, m, now), links, "", repo);
    PutResolves(s.meta, repo, reference, m, now, repo, reference, "");
    forall r, x | Good(r) && Cached(s'.cache, r, x).Some? ensures Resolves(s'.meta, r, x, Cached(s'.cache, r, x).value.digest) {
      assert Cached(s.cache, r, x) == Cached(s'.cache, r, x);
      assert Resolves(s.meta, r, x, Cached(s.cache, r, x).value.digest);
      PutResolves(s.meta, repo, reference, m, now, r, x, Cached(s.cache, r, x).value.digest);
    }
  }

  /* ---- a PUT, then a GET ---- */

  /** What the record of a manifest and the links of its repository say after a
      PUT, over the fields of the manifest. */
  lemma PutRecords(s: State, sha: Bytes -> string, repo: string, reference: string, body: Bytes, doc: Doc, contentType: string, now: int)
    requires Digests.Valid(sha(body))
    ensures var t := PutStep(s, repo, reference, MetaOf(sha, body, doc, contentType),
                             Elements([sha(body)] + Referenced(doc)), now).meta;
      && t.Get(repo, sha(body)) == Some(ManifestMeta(sha(body), if doc.mediaType == "" then contentType else doc.mediaType,
                                                     |body|, 0, doc.layers))
      && (!IsDigestRef(reference) ==> t.Get(repo, reference) == t.Get(repo, sha(body)))
      && repo in t.repos
      && Linked(t, repo, sha(body)) && (doc.config != "" ==> Linked(t, repo, doc.config))
      && (forall k :: 0 <= k < |doc.layers| ==> Linked(t, repo, doc.layers[k]))
  {
    var links := Elements([sha(body)] + Referenced(doc));
    var t := s.meta.Put(repo, reference, MetaOf(sha, body, doc, contentType), now);
    ValidShape(sha(body));
    LinkKeepsGet(t, links, "", repo);
    ReferencedAreAll(map[], doc);
    assert forall d :: d in links <==> d == sha(body) || d in Elements(Referenced(doc));
    assert forall d :: d in links ==> Linked(t.LinkAll(links, repo), repo, d);
  }

  predicate Linked(t: Typed, repo: string, d: string) {
    (d, repo) in t.blobRepos && (repo, d) in t.repoBlobs
  }

  /** A GET by the tag, or by the digest, right after a PUT serves the manifest that
      was put: its record, and its body if no other blob had the name before. */
  lemma GetAfterPut(s: State, sha: Bytes -> string, files: Files, repo: string, reference: string, body: Bytes, doc: Doc,
                    contentType: string, x: string, p: Option<Proxied>, put: int, now: int)
    requires Inv(s) && Digests.Valid(sha(body))
    requires x == sha(body) || (x == reference && !IsDigestRef(reference))
    ensures var s1 := PutStep(s, repo, reference, MetaOf(sha, body, doc, contentType), Elements([sha(body)] + Referenced(doc)), put);
      var r := Respond(WithBody(sha, files, body), GetStep(s1, repo, x, p, false, now).1);
      && r.Ok? && r.m.digest == sha(body) && r.m.layers == doc.layers && r.m.size == |body|
      && |r.body| == |body| && (!Has(files, sha(body)) || |Content(files, sha(body))| != |body| ==> r.body == body)
      && (Has(files, sha(body)) && |Content(files, sha(body))| == |body| ==> r.body == Content(files, sha(body)))
      && (ContentAddressed(sha, files) ==> sha(r.body) == sha(body))
  {
    var m := MetaOf(sha, body, doc, contentType);
    var s1 := PutStep(s, repo, reference, m, Elements([sha(body)] + Referenced(doc)), put);
    PutRecords(s, sha, repo, reference, body, doc, contentType, put);
    ValidShape(sha(body));
    WithoutFits(s.cache, CacheKey(repo, reference));
    WithoutFits(Lru.Without(s.cache, CacheKey(repo, reference)), CacheKey(repo, m.digest));
    assert Lru.Find(s1.cache, CacheKey(repo, x)).None?;
    UncachedResolves(s1, repo, x, p, now);
    assert Known(WithBody(sha, files, body), sha(body));
    if ContentAddressed(sha, files) {
      StoredKeeps(sha, files, sha(body), body);
      assert ContentAddressed(sha, WithBody(sha, files, body));
      assert Has(WithBody(sha, files, body), sha(body));
    }
  }

  lemma UncachedResolves(s: State, repo: string, x: string, p: Option<Proxied>, now: int)
    requires Lru.Find(s.cache, CacheKey(repo, x)).None? && s.meta.Get(repo, x).Some?
    ensures GetStep(s, repo, x, p, false, now).1 == Resolved(s.meta.Get(repo, x).value)
  {
  }

  /** A GET whose metadata can be read finds the manifest exactly if metadata
      resolves the reference (up to what the proxy adds), cached or not. */
  lemma GetFindsExactly(s: State, repo: string, reference: string, p: Option<Proxied>, now: int)
    requires Inv(s) && Good(repo)
    ensures GetStep(s, repo, reference, p, false, now).1.Resolved? <==> s.meta.Get(repo, reference).Some?
    ensures GetStep(s, repo, reference, p, false, now).1 == Unknown <==> s.meta.Get(repo, reference).None? && p.None?
    ensures var a := GetStep(s, repo, reference, p, false, now).1;
      a.Fetched? ==> p.Some? && a.m == p.value.meta && a.body == p.value.body
  {
    GetKeepsCoherence(s, repo, reference, p, false, now);
  }

  /** What a GET answers with: nothing, an error, or the bytes; a digest too short for
      a file name, or one whose blob is gone, is an error. */
  lemma RespondExactly(files: Files, a: Answer)
    ensures Respond(files, a).Ok? <==>
      a.Fetched? || (a.Resolved? && |Hex(a.m.digest)| >= 2 && BlobPath(a.m.digest) in files)
    ensures Respond(files, a) == Broken <==> a.Resolved? && |Hex(a.m.digest)| < 2
    ensures Respond(files, a) == NotFound <==> a == Unknown
    ensures a.Fetched? ==> Respond(files, a) == Ok(a.m, a.body)
    ensures a.Resolved? && Respond(files, a).Ok? ==> Respond(files, a) == Ok(a.m, files[BlobPath(a.m.digest)])
  {
  }

  /** What the proxy brought is found in metadata afterwards exactly as far as it
      could be stored, and linked as far as that worked. */
  lemma FetchedIsKept(s: State, repo: string, reference: string, q: Proxied, now: int)
    requires Inv(s) && Good(repo) && s.meta.Get(repo, reference).None? && Digests.Valid(q.meta.digest)
    ensures var (s', a) := GetStep(s, repo, reference, Some(q), false, now);
      && a == Fetched(q.meta, q.body)
      && (q.stored ==> s'.meta.Get(repo, q.meta.digest) == Some(q.meta)
                       && (!IsDigestRef(reference) ==> s'.meta.Get(repo, reference) == Some(q.meta)))
      && (!q.stored ==> s'.meta.manifests == s.meta.manifests && s'.meta.tags == s.meta.tags)
      && (q.linked ==> Linked(s'.meta, repo, q.meta.digest))
      && (!q.linked ==> s'.meta.blobRepos == s.meta.blobRepos && s'.meta.repoBlobs == s.meta.repoBlobs)
  {
    GetFindsExactly(s, repo, reference, Some(q), now);
    ValidShape(q.meta.digest);
  }

  /** And what was served once is served again from the cache, even if metadata can
      then not be read, until the entry goes. */
  lemma ServedAgain(s: State, repo: string, reference: string, p: Option<Proxied>, now: int, later: int, q: Option<Proxied>)
    requires Inv(s) && Good(repo) && s.meta.Get(repo, reference).Some?
    requires forall e :: e in s.cache ==> e.expiresAt == 0
    ensures var (s', a) := GetStep(s, repo, reference, p, false, now);
      GetStep(s', repo, reference, q, true, later).1 == a
  {
    var key := CacheKey(repo, reference);
    var (s', a) := GetStep(s, repo, reference, p, false, now);
    match Lru.Find(s.cache, key)
    case Some(e) =>
      assert s'.cache[0] == e;
    case None =>
      SetFinds(s.cache, key, s.meta.Get(repo, reference).value, now);
  }

  /* ---- runs of handlers ---- */

  datatype Request =
    | GetManifest(repo: string, reference: string, proxied: Option<Proxied>, fails: bool)
    | PutManifest(repo: string, reference: string, meta: ManifestMeta, links: set<string>)

  function Step(s: State, q: Request, now: int): State {
    match q
    case GetManifest(r, x, p, fails) => GetStep(s, r, x, p, fails, now).0
    case PutManifest(r, x, m, links) => PutStep(s, r, x, m, links, now)
  }

  lemma RequestKeeps(s: State, q: Request, now: int)
    requires Inv(s) && Good(q.repo)
    ensures Inv(Step(s, q, now))
  {
    match q
    case GetManifest(r, x, p, fails) => GetKeepsCoherence(s, r, x, p, fails, now);
    case PutManifest(r, x, m, links) => PutKeepsCoherence(s, r, x, m, links, now);
  }

  function RunAll(qs: seq<(Request, int)>): State {
    if qs == [] then State([], NOTHING) else Step(RunAll(qs[..|qs|-1]), qs[|qs|-1].0, qs[|qs|-1].1)
  }

  /** Over any run of GET, proxy fill and PUT, one after the other, the cache never
      resolves a reference differently from the metadata. */
  lemma {:induction false} AlwaysCoherent(qs: seq<(Request, int)>)
    requires forall i :: 0 <= i < |qs| ==> Good(qs[i].0.repo)
    ensures Inv(RunAll(qs))
  {
    if qs != [] {
      AlwaysCoherent(qs[..|qs|-1]);
      RequestKeeps(RunAll(qs[..|qs|-1]), qs[|qs|-1].0, qs[|qs|-1].1);
    }
  }

  /* ---- a GET in two halves ---- */

  /** `LateSet` is the second half of a GET: the record it caches was read from the
      metadata some time before. */
  datatype Event =
    | Handled(q: Request, now: int)
    | LateSet(repo: string, reference: string, m: ManifestMeta, now: int)
  {
    function Repo(): string {
      if Handled? then q.repo else repo
    }
  }

  function EventStep(s: State, e: Event): State {
    match e
    case Handled(q, now) => Step(s, q, now)
    case LateSet(r, x, m, now) => State(Lru.SetSpec(CAPACITY, s.cache, CacheKey(r, x), m, 0, now), s.meta)
  }

  function RunEvents(es: seq<Event>): State {
    if es == [] then State([], NOTHING) else EventStep(RunEvents(es[..|es|-1]), es[|es|-1])
  }

  /** What is cached late is still what the metadata resolves to. */
  predicate StillResolves(s: State, e: Event) {
    e.LateSet? ==> Resolves(s.meta, e.repo, e.reference, e.m.digest)
  }

  /** Coherent after every event. */
  ghost predicate AlwaysInv(es: seq<Event>) {
    Inv(RunEvents(es)) && (es != [] ==> AlwaysInv(es[..|es|-1]))
  }

  /** Every record is cached while its reference still resolves to it. */
  predicate AllStillResolve(es: seq<Event>) {
    es != [] ==> AllStillResolve(es[..|es|-1]) && StillResolves(RunEvents(es[..|es|-1]), es[|es|-1])
  }

  /** Over any run with GETs in two halves, the cache is coherent at every moment
      exactly if every record is cached while its reference still resolves to it. */
  lemma {:induction false} CoherentThroughout(es: seq<Event>)
    requires forall i :: 0 <= i < |es| ==> Good(es[i].Repo())
    ensures AlwaysInv(es) <==> AllStillResolve(es)
  {
    if es == [] {
      AlwaysCoherent([]);
    } else {
      hide StillResolves, Inv, EventStep;
      var before, last := es[..|es|-1], es[|es|-1];
      CoherentThroughout(before);
      if AlwaysInv(before) {
        EventCoherence(RunEvents(before), last);
      }
    }
  }

  lemma EventCoherence(s: State, e: Event)
    requires Inv(s) && Good(e.Repo())
    ensures Inv(EventStep(s, e)) <==> StillResolves(s, e)
  {
    match e
    case Handled(q, now) => RequestKeeps(s, q, now);
    case LateSet(r, x, m, now) => SetCoherence(s, r, x, m, now);
  }

  /** A PUT between the two halves: the GET then caches what the PUT has replaced,
      without expiry, exactly if the reference is a tag and the digest a new one. */
  lemma PutInsideGet(s: State, repo: string, reference: string, m: ManifestMeta, links: set<string>, put: int, late: int)
    requires Inv(s) && Good(repo) && s.meta.Get(repo, reference).Some?
    ensures var stale := s.meta.Get(repo, reference).value;
      var s' := EventStep(Step(s, PutManifest(repo, reference, m, links), put), LateSet(repo, reference, stale, late));
      && (Coherent(s') <==> IsDigestRef(reference) || m.digest == stale.digest)
      && Lru.Find(s'.cache, CacheKey(repo, reference)) == Some(Lru.Entry(CacheKey(repo, reference), stale, 0))
  {
    var stale := s.meta.Get(repo, reference).value;
    var between := PutStep(s, repo, reference, m, links, put);
    PutKeepsCoherence(s, repo, reference, m, links, put);
    SetCoherence(between, repo, reference, stale, late);
    SetFinds(between.cache, CacheKey(repo, reference), stale, late);
    PutResolves(s.meta, repo, reference, m, put, repo, reference, stale.digest);
    LinkKeepsGet(s.meta.Put(repo, reference, m, put), links, "", repo);
  }

  /* ---- what does not keep it ---- */

  lemma DeleteResolves(t: Typed, repo: string, reference: string, r: string, x: string, d: string)
    requires t.Delete(repo, reference).Some?
    ensures Resolves(t.Delete(repo, reference).value, r, x, d) <==>
      Resolves(t, r, x, d) && !(r == repo && t.Target(r, x) == t.Target(repo, reference))
  {
  }

  /** DELETE works for every digest and for every known tag. The reference, and all
      others of the repository with its digest, then resolve to nothing; no other does. */
  lemma DeleteExactly(s: State, repo: string, reference: string)
    ensures DeleteStep(s, repo, reference).Some? <==> IsDigestRef(reference) || (repo, reference) in s.meta.tags
    ensures DeleteStep(s, repo, reference).Some? ==>
      var t := DeleteStep(s, repo, reference).value.meta;
      && t.Get(repo, reference).None?
      && (forall r, x :: t.Get(r, x) ==
            if r == repo && s.meta.Target(r, x) == s.meta.Target(repo, reference) then None else s.meta.Get(r, x))
  {
  }

  /** And after it the handler finds the reference neither in the cache nor in metadata. */
  lemma GetAfterDelete(s: State, repo: string, reference: string, p: Option<Proxied>, now: int)
    requires Inv(s) && DeleteStep(s, repo, reference).Some?
    ensures var s' := DeleteStep(s, repo, reference).value;
      && Cached(s'.cache, repo, reference).None?
      && (GetStep(s', repo, reference, p, false, now).1 == Unknown <==> p.None?)
      && forall key :: key != CacheKey(repo, reference) ==> Lru.Find(s'.cache, key) == Lru.Find(s.cache, key)
  {
    var s' := DeleteStep(s, repo, reference).value;
    DeleteExactly(s, repo, reference);
    WithoutFits(s.cache, CacheKey(repo, reference));
  }

  /** DELETE keeps coherence exactly if no other cached reference of the
      repository resolves to the deleted digest. */
  lemma DeleteCoherence(s: State, repo: string, reference: string)
    requires Inv(s) && Good(repo) && DeleteStep(s, repo, reference).Some?
    ensures Coherent(DeleteStep(s, repo, reference).value) <==>
      forall x :: x != reference && Cached(s.cache, repo, x).Some? ==>
        s.meta.Target(repo, x) != s.meta.Target(repo, reference)
  {
    var s' := DeleteStep(s, repo, reference).value;
    WithoutFits(s.cache, CacheKey(repo, reference));
    if x :| x != reference && Cached(s.cache, repo, x).Some? && s.meta.Target(repo, x) == s.meta.Target(repo, reference) {
      assert CacheKey(repo, x) != CacheKey(repo, reference) by {
        if CacheKey(repo, x) == CacheKey(repo, reference) {
          CacheKeyInjective(repo, x, repo, reference);
        }
      }
      assert Cached(s'.cache, repo, x) == Cached(s.cache, repo, x);
      DeleteResolves(s.meta, repo, reference, repo, x, Cached(s.cache, repo, x).value.digest);
    } else {
      forall r, x | Good(r) && Cached(s'.cache, r, x).Some? ensures Resolves(s'.meta, r, x, Cached(s'.cache, r, x).value.digest) {
        assert Cached(s.cache, r, x) == Cached(s'.cache, r, x);
        assert (r, x) != (repo, reference);
        DeleteResolves(s.meta, repo, reference, r, x, Cached(s.cache, r, x).value.digest);
      }
    }
  }

  /** A release clone, a sync or the proxy of another request puts a manifest
      without touching the cache: that keeps coherence exactly if the reference
      is a digest, is not cached, or is cached with that very digest. */
  lemma BackgroundPutCoherence(s: State, repo: string, reference: string, m: ManifestMeta, now: int)
    requires Inv(s) && Good(repo)
    ensures Coherent(State(s.cache, s.meta.Put(repo, reference, m, now))) <==>
      IsDigestRef(reference) || Cached(s.cache, repo, reference).None?
      || Cached(s.cache, repo, reference).value.digest == m.digest
  {
    var s' := State(s.cache, s.meta.Put(repo, reference, m, now));
    var c := Cached(s.cache, repo, reference);
    if !IsDigestRef(reference) && c.Some? && c.value.digest != m.digest {
      PutResolves(s.meta, repo, reference, m, now, repo, reference, c.value.digest);
      assert Cached(s'.cache, repo, reference) == c;
    } else {
      forall r, x | Good(r) && Cached(s.cache, r, x).Some? ensures Resolves(s'.meta, r, x, Cached(s.cache, r, x).value.digest) {
        assert Resolves(s.meta, r, x, Cached(s.cache, r, x).value.digest);
        PutResolves(s.meta, repo, reference, m, now, r, x, Cached(s.cache, r, x).value.digest);
      }
    }
  }

  /** Deleting a repository leaves the cache alone, which is coherent exactly if
      nothing of that repository is cached. */
  lemma DeleteRepoCoherence(s: State, repo: string)
    requires Inv(s) && Good(repo)
    ensures Coherent(State(s.cache, s.meta.DeleteRepo(repo))) <==> forall x :: Cached(s.cache, repo, x).None?
  {
    var s' := State(s.cache, s.meta.DeleteRepo(repo));
    if x :| Cached(s.cache, repo, x).Some? {
      assert Cached(s'.cache, repo, x).Some? && s'.meta.Get(repo, x).None?;
    } else {
      forall r, x | Good(r) && Cached(s.cache, r, x).Some? ensures Resolves(s'.meta, r, x, Cached(s.cache, r, x).value.digest) {
        assert Resolves(s.meta, r, x, Cached(s.cache, r, x).value.digest) && r != repo;
        assert s'.meta.Get(r, x) == s.meta.Get(r, x);
      }
    }
  }
}
