/** Content-addressed blob files (internal/storage/blob.go). */
module Blobs {
  import opened Digests
  import opened Seqs

  /** Files under `blobs`: (algorithm, sub-directory, name) to content. */
  type Path = (string, string, string)
  type Files = map<Path, Bytes>

  function BlobPath(d: string): Path
    requires |Hex(d)| >= 2
  {
    (Algorithm(d), Hex(d)[..2], Hex(d))
  }

  predicate Has(files: Files, d: string)
    requires Valid(d)
  {
    BlobPath(d) in files
  }

  function Content(files: Files, d: string): Bytes
    requires Valid(d) && Has(files, d)
  {
    files[BlobPath(d)]
  }

  lemma BlobPathInjective(d: string, e: string)
    requires Valid(d) && Valid(e) && BlobPath(d) == BlobPath(e)
    ensures d == e
  {
    ValidShape(d);
    ValidShape(e);
  }

  /** Every blob hashes to its name. */
  ghost predicate ContentAddressed(sha: Bytes -> string, files: Files) {
    forall d :: Valid(d) && Has(files, d) ==> sha(Content(files, d)) == d
  }

  /** `FromBytes` makes valid digests; about SHA-256 itself nothing more is assumed. */
  ghost predicate MakesDigests(sha: Bytes -> string) {
    forall b :: Valid(sha(b))
  }

  /** What a reader delivers, and whether it then fails. */
  datatype Reader = Reader(data: Bytes, fails: bool)

  /** The places where the file system may refuse. */
  datatype Faults = Faults(create: bool, sync: bool, close: bool, rename: bool)

  datatype PutOutcome = Present | Stored | Failed | Panicked

  /** The only changes a blob directory ever sees: a verified blob arrives under
      its name, or a blob is removed. */
  ghost predicate StoreStep(sha: Bytes -> string, a: Files, b: Files) {
    || b == a
    || (exists d, data :: Valid(d) && sha(data) == d && b == a[BlobPath(d) := data])
    || (exists d :: Valid(d) && b == a - {BlobPath(d)})
  }

  class BlobStore {
    const sha: Bytes -> string
    var files: Files

    constructor (sha: Bytes -> string)
      ensures this.sha == sha && files == map[]
    {
      this.sha := sha;
      files := map[];
    }

    method Exists(d: string) returns (r: bool)
      requires Valid(d)
      ensures r == Has(files, d)
    { r := BlobPath(d) in files; }

    method Get(d: string) returns (r: Option<Bytes>)
      requires Valid(d)
      ensures r == if Has(files, d) then Some(Content(files, d)) else None
    { r := if BlobPath(d) in files then Some(files[BlobPath(d)]) else None; }

    /** Deduplicate by size, else write a temporary file, verify, rename.
        The temporary file is first extended to the expected size, so it is the
        later size check that keeps padding out of the store. */
    method Put(d: string, r: Reader, expectedSize: int, io: Faults) returns (outcome: PutOutcome)
      requires MakesDigests(sha)
      modifies this
      ensures outcome == Panicked <==> |Hex(d)| < 2
      ensures outcome == Present <==>
        |Hex(d)| >= 2 && BlobPath(d) in old(files) && |old(files)[BlobPath(d)]| == expectedSize
      ensures outcome == Stored ==> Valid(d) && sha(r.data) == d && files == old(files)[BlobPath(d) := r.data]
      ensures outcome != Stored ==> files == old(files)
      ensures StoreStep(sha, old(files), files)
      ensures outcome == Stored ==> !r.fails && (expectedSize <= 0 || |r.data| == expectedSize)
      ensures (Valid(d) && !r.fails && sha(r.data) == d && (expectedSize <= 0 || |r.data| == expectedSize)
               && io == Faults(false, false, false, false)) ==> outcome == Stored || outcome == Present
    {
      if |Hex(d)| < 2 {
        return Panicked;
      }
      var path := BlobPath(d);
      if path in files && |files[path]| == expectedSize {
        return Present;
      }
      if io.create {
        return Failed;
      }
      var tmp: Bytes := [];
      if expectedSize > 0 {
        tmp := Repeat(0, expectedSize);
      }
      if !Valid(d) {
        return Failed;
      }
      tmp := r.data + if |r.data| < |tmp| then tmp[|r.data|..] else [];
      if r.fails {
        return Failed;
      }
      var written := |r.data|;
      if Hex(sha(r.data)) != Hex(d) {
        return Failed;
      }
      if expectedSize > 0 && written != expectedSize {
        return Failed;
      }
      if io.sync || io.close || io.rename {
        return Failed;
      }
      ValidShape(d);
      ValidShape(sha(r.data));
      assert tmp == r.data;
      files := files[path := tmp];
      return Stored;
    }

    method Delete(d: string) returns (found: bool)
      requires Valid(d)
      modifies this
      ensures found == Has(old(files), d) && files == old(files) - {BlobPath(d)}
      ensures StoreStep(sha, old(files), files)
    {
      found := BlobPath(d) in files;
      files := files - {BlobPath(d)};
    }
  }

  lemma StoredKeeps(sha: Bytes -> string, files: Files, d: string, data: Bytes)
    requires ContentAddressed(sha, files) && Valid(d) && sha(data) == d
    ensures ContentAddressed(sha, files[BlobPath(d) := data])
  {
    var files' := files[BlobPath(d) := data];
    forall e | Valid(e) && Has(files', e) ensures sha(Content(files', e)) == e {
      if BlobPath(e) == BlobPath(d) {
        BlobPathInjective(d, e);
      } else {
        assert Has(files, e);
      }
    }
  }

  lemma RemovedKeeps(sha: Bytes -> string, files: Files, gone: set<Path>)
    requires ContentAddressed(sha, files)
    ensures ContentAddressed(sha, files - gone)
  {
    forall e | Valid(e) && Has(files - gone, e) ensures sha(Content(files - gone, e)) == e {
      assert Has(files, e);
    }
  }

  lemma StepKeeps(sha: Bytes -> string, a: Files, b: Files)
    requires ContentAddressed(sha, a) && StoreStep(sha, a, b)
    ensures ContentAddressed(sha, b)
  {
    if d, data :| Valid(d) && sha(data) == d && b == a[BlobPath(d) := data] {
      StoredKeeps(sha, a, d, data);
    } else if d :| Valid(d) && b == a - {BlobPath(d)} {
      RemovedKeeps(sha, a, {BlobPath(d)});
    }
  }

  /** Over every run of the store, each blob hashes to its name. */
  lemma {:induction false} AlwaysContentAddressed(sha: Bytes -> string, run: seq<Files>, i: nat)
    requires i < |run| && run[0] == map[]
    requires forall k :: 0 <= k < |run| - 1 ==> StoreStep(sha, run[k], run[k+1])
    ensures ContentAddressed(sha, run[i])
  {
    if i > 0 {
      hide StoreStep, ContentAddressed;
      AlwaysContentAddressed(sha, run, i - 1);
      assert StoreStep(sha, run[i-1], run[i-1+1]);
      StepKeeps(sha, run[i-1], run[i]);
    }
  }
}
