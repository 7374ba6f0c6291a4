/** Upload sessions (internal/storage/upload.go): a file with a cursor takes
    sequential and positioned writes, then becomes a blob if it hashes to the
    announced digest. */
module Uploads {
  import opened Digests
  import opened Seqs
  import opened Blobs

  function Max(a: nat, b: nat): nat {
    if a > b then a else b
  }

  /** A write at a file offset: past the end it leaves a gap of zeros, and
      writing nothing changes nothing. */
  function Overwrite(content: Bytes, at: nat, data: Bytes): (r: Bytes)
    ensures data != [] ==> |r| == Max(|content|, at + |data|)
    ensures data != [] ==> forall i :: 0 <= i < |r| ==>
      r[i] == if at <= i < at + |data| then data[i - at] else if i < |content| then content[i] else 0
  {
    if data == [] then content
    else
      var padded := content + Repeat(0, at - |content|);
      padded[..at] + data + if at + |data| <= |padded| then padded[at + |data|..] else []
  }

  datatype File = File(content: Bytes, cursor: nat, size: nat)

  const EMPTY := File([], 0, 0)

  /** The two writes as functions of what they change; `AtSize` is a `WriteAt`
      whose offset is the announced size. */
  datatype WriteOp = Append(data: Bytes) | AtSize(data: Bytes) | At(offset: nat, data: Bytes)

  function Apply(f: File, op: WriteOp): File
    decreases op.AtSize?
  {
    match op
    case Append(data) => File(Overwrite(f.content, f.cursor, data), f.cursor + |data|, f.size + |data|)
    case At(offset, data) => File(Overwrite(f.content, offset, data), offset + |data|, Max(f.size, offset + |data|))
    case AtSize(data) => Apply(f, At(f.size, data))
  }

  function ApplyAll(f: File, ops: seq<WriteOp>): File {
    if ops == [] then f else Apply(ApplyAll(f, ops[..|ops|-1]), ops[|ops|-1])
  }

  class Upload {
    var content: Bytes
    var cursor: nat
    var size: nat
    var open: bool

    ghost function Now(): File
      reads this
    {
      File(content, cursor, size)
    }

    constructor ()
      ensures Now() == EMPTY && open
    {
      content, cursor, size, open := [], 0, 0, true;
    }

    /** Whatever the reader delivers before it fails is written. */
    method Write(r: Reader) returns (n: nat, ok: bool)
      modifies this
      ensures open == old(open) && (ok <==> open && !r.fails)
      ensures n == if open then |r.data| else 0
      ensures Now() == if open then Apply(old(Now()), Append(r.data)) else old(Now())
    {
      if !open {
        return 0, false;
      }
      content := Overwrite(content, cursor, r.data);
      n := |r.data|;
      cursor := cursor + n;
      size := size + n;
      ok := !r.fails;
    }

    method WriteAt(r: Reader, offset: int) returns (n: nat, ok: bool)
      modifies this
      ensures open == old(open) && (ok <==> open && offset >= 0 && !r.fails)
      ensures n == if open && offset >= 0 then |r.data| else 0
      ensures Now() == if open && offset >= 0 then Apply(old(Now()), At(offset, r.data)) else old(Now())
    {
      if !open || offset < 0 {
        return 0, false;
      }
      cursor := offset;
      content := Overwrite(content, cursor, r.data);
      n := |r.data|;
      cursor := cursor + n;
      if offset + n > size {
        size := offset + n;
      }
      ok := !r.fails;
    }
  }

  /* ---- chunks in any order ---- */

  type Chunk = op: WriteOp | op.At? witness At(0, [])

  /** The chunk is a piece of the blob. */
  predicate PieceOf(c: Chunk, blob: Bytes) {
    c.offset + |c.data| <= |blob| && blob[c.offset..c.offset + |c.data|] == c.data
  }

  predicate Holds(c: Chunk, i: int) {
    c.offset <= i < c.offset + |c.data|
  }

  ghost predicate Covered(chunks: seq<Chunk>, i: int) {
    exists k :: 0 <= k < |chunks| && Holds(chunks[k], i)
  }

  /** Pieces of a blob assemble to the blob, with zeros where no piece was. */
  lemma {:induction false} AssembledSoFar(chunks: seq<Chunk>, blob: Bytes)
    requires forall k :: 0 <= k < |chunks| ==> PieceOf(chunks[k], blob)
    ensures var r := ApplyAll(EMPTY, chunks).content;
      && |r| <= |blob|
      && (forall i :: 0 <= i < |blob| && Covered(chunks, i) ==> i < |r| && r[i] == blob[i])
      && (forall i :: 0 <= i < |r| && !Covered(chunks, i) ==> r[i] == 0)
  {
    if chunks != [] {
      var init, last := chunks[..|chunks|-1], chunks[|chunks|-1];
      AssembledSoFar(init, blob);
      var before, r := ApplyAll(EMPTY, init).content, ApplyAll(EMPTY, chunks).content;
      assert PieceOf(last, blob);
      forall i | 0 <= i < |blob| && Covered(chunks, i) ensures i < |r| && r[i] == blob[i] {
        CoveredSplit(chunks, i);
        if Holds(last, i) {
          assert blob[i] == blob[last.offset..last.offset + |last.data|][i - last.offset];
        }
      }
      forall i | 0 <= i < |r| && !Covered(chunks, i) ensures r[i] == 0 {
        CoveredSplit(chunks, i);
      }
    }
  }

  lemma CoveredSplit(chunks: seq<Chunk>, i: int)
    requires chunks != []
    ensures Covered(chunks, i) <==> Covered(chunks[..|chunks|-1], i) || Holds(chunks[|chunks|-1], i)
  {
    var init := chunks[..|chunks|-1];
    if Covered(chunks, i) {
      var k :| 0 <= k < |chunks| && Holds(chunks[k], i);
      assert k < |init| ==> init[k] == chunks[k];
    }
    if Covered(init, i) {
      var k :| 0 <= k < |init| && Holds(init[k], i);
      assert Holds(chunks[k], i);
    }
  }

  /** Non-empty or not, overlapping or not, in whatever order: pieces that cover
      a blob assemble to it, and only gaps of zeros may be left uncovered. */
  lemma AnyOrder(chunks: seq<Chunk>, blob: Bytes)
    requires forall k :: 0 <= k < |chunks| ==> PieceOf(chunks[k], blob)
    ensures (forall i :: 0 <= i < |blob| ==> Covered(chunks, i)) ==> ApplyAll(EMPTY, chunks).content == blob
    ensures ApplyAll(EMPTY, chunks).content == blob ==> forall i :: 0 <= i < |blob| ==> Covered(chunks, i) || blob[i] == 0
  {
    AssembledSoFar(chunks, blob);
    var r := ApplyAll(EMPTY, chunks).content;
    if forall i :: 0 <= i < |blob| ==> Covered(chunks, i) {
      assert |r| < |blob| ==> Covered(chunks, |r|);
    }
  }

  /* ---- writes in sequence ---- */

  function Concat(ops: seq<WriteOp>): Bytes {
    if ops == [] then [] else Concat(ops[..|ops|-1]) + ops[|ops|-1].data
  }

  /** Cursor, announced size and file agree. */
  predicate Even(f: File) {
    f.cursor == f.size == |f.content|
  }

  /** Any mix of `Write` and of `WriteAt` at the announced size appends. */
  lemma {:induction false} InOrderConcatenates(ops: seq<WriteOp>)
    requires forall i :: 0 <= i < |ops| ==> !ops[i].At?
    ensures Even(ApplyAll(EMPTY, ops)) && ApplyAll(EMPTY, ops).content == Concat(ops)
  {
    if ops != [] {
      var init := ops[..|ops|-1];
      InOrderConcatenates(init);
      var f := ApplyAll(EMPTY, init);
      var data := ops[|ops|-1].data;
      AppendAtEnd(f.content, data);
      assert Apply(f, At(f.size, data)) == Apply(f, AtSize(data)) == Apply(f, Append(data));
      assert !ops[|ops|-1].At?;
    }
  }

  lemma AppendAtEnd(content: Bytes, data: Bytes)
    ensures Overwrite(content, |content|, data) == content + data
  {
  }

  /** A `Write` after positioned writes goes to where the last one stopped; it
      keeps the announced size right exactly if that was the end of the file. */
  lemma WriteKeepsSize(f: File, data: Bytes)
    requires f.size == |f.content| && f.cursor <= |f.content| && data != []
    ensures Apply(f, Append(data)).size == |Apply(f, Append(data)).content| <==> f.cursor == |f.content|
  {
  }

  /** Positioned writes alone never announce a wrong size. */
  lemma WriteAtKeepsSize(f: File, offset: nat, data: Bytes)
    requires f.size == |f.content|
    ensures Apply(f, At(offset, data)).size == |Apply(f, At(offset, data)).content|
      <==> data != [] || offset <= |f.content|
  {
  }

  /* ---- sessions ---- */

  datatype FinishFaults = FinishFaults(sync: bool, read: bool, close: bool, mkdir: bool, rename: bool)

  datatype FinishOutcome = Finished | UploadNotFound | DigestMismatch | IoError

  class UploadManager {
    var uploads: map<string, Upload>

    constructor ()
      ensures uploads == map[]
    { uploads := map[]; }

    /** `id` is the 128-bit random identifier, new each time. */
    method Start(id: string) returns (u: Upload)
      requires id !in uploads
      modifies this
      ensures fresh(u) && u.Now() == EMPTY && u.open
      ensures uploads == old(uploads)[id := u]
    {
      u := new Upload();
      uploads := uploads[id := u];
    }

    method Get(id: string) returns (u: Upload?)
      ensures if id in uploads then u == uploads[id] else u == null
    {
      u := if id in uploads then uploads[id] else null;
    }

    /** The session ends whatever happens; the store changes only if the content
        hashes to the announced digest, and then holds a blob of that name. */
    method Finish(id: string, expected: string, bs: BlobStore, io: FinishFaults) returns (r: FinishOutcome)
      requires MakesDigests(bs.sha)
      modifies this, bs, if id in uploads then {uploads[id]} else {}
      ensures uploads == old(uploads) - {id}
      ensures r == UploadNotFound <==> id !in old(uploads)
      ensures r == DigestMismatch ==> bs.sha(old(uploads[id].content)) != expected
      ensures r == Finished ==>
        && Digests.Valid(expected) && bs.sha(old(uploads[id].content)) == expected
        && bs.files == if Has(old(bs.files), expected) then old(bs.files)
                       else old(bs.files)[BlobPath(expected) := old(uploads[id].content)]
      ensures r != Finished ==> bs.files == old(bs.files)
      ensures (id in old(uploads) && bs.sha(old(uploads[id].content)) == expected
               && io == FinishFaults(false, false, false, false, false)) ==> r == Finished
      ensures id in old(uploads) && r != IoError ==> !old(uploads[id]).open
      ensures StoreStep(bs.sha, old(bs.files), bs.files)
    {
      if id !in uploads {
        return UploadNotFound;
      }
      var upload := uploads[id];
      uploads := uploads - {id};
      if io.sync {
        return IoError;
      }
      upload.cursor := 0;
      if io.read {
        return IoError;
      }
      upload.cursor := |upload.content|;
      var actual := bs.sha(upload.content);
      if io.close {
        return IoError;
      }
      upload.open := false;
      if actual != expected {
        return DigestMismatch;
      }
      assert Digests.Valid(expected);
      if io.mkdir {
        return IoError;
      }
      if BlobPath(expected) in bs.files {
        return Finished;
      }
      if io.rename {
        return IoError;
      }
      bs.files := bs.files[BlobPath(expected) := upload.content];
      return Finished;
    }

    method Cancel(id: string) returns (found: bool)
      modifies this, if id in uploads then {uploads[id]} else {}
      ensures found == (id in old(uploads)) && uploads == old(uploads) - {id}
      ensures found ==> !old(uploads[id]).open && old(uploads[id]).content == old(uploads[id].content)
    {
      if id !in uploads {
        return false;
      }
      var upload := uploads[id];
      uploads := uploads - {id};
      upload.open := false;
      return true;
    }
  }
}
