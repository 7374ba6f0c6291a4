/** The mesh on top of the ring: routing blobs to their primary node, pushing
    them to replicas, and repairing what was not pushed
    (internal/mesh/router.go, internal/mesh/replication.go). */
module Mesh {
  import opened Seqs
  import opened Digests
  import opened Blobs
  import Ring
  import RingTheorems

  type Stores = map<string, Files>

  /** What one node sees at one moment: the members with an address, and those
      that answer. */
  datatype Net = Net(known: set<string>, up: set<string>) {
    function Reach(): set<string> { known * up }
  }

  /** A ring that does not change. */
  datatype Cluster = Cluster(h: Ring.Hashing, ring: Ring.State, factor: int) {
    ghost predicate Valid() {
      Ring.Owned(ring)
    }

    /** `GetPrimaryNode`, "" when there is none. */
    function Primary(d: string): string
      requires Valid()
    {
      var p := Ring.Preference(ring, h.crc(d));
      if p == [] then "" else p[0]
    }

    /** `GetReplicaNodes` */
    function Replicas(d: string): seq<string>
      requires Valid()
    {
      Take(Ring.Preference(ring, h.crc(d)), if factor > |ring.members| then |ring.members| else factor)
    }
  }

  /* ---- one node asks, or is asked ---- */

  datatype GetOutcome = Found(data: Bytes) | NotFound | Unreachable

  predicate HasOn(s: Stores, n: string, d: string)
    requires Valid(d)
  {
    n in s && Has(s[n], d)
  }

  function GetSpec(c: Cluster, net: Net, s: Stores, at: string, d: string): GetOutcome
    requires c.Valid() && Digests.Valid(d) && net.Reach() <= s.Keys
  {
    if HasOn(s, at, d) then Found(Content(s[at], d))
    else if c.Primary(d) == at || c.Primary(d) == "" then NotFound
    else if c.Primary(d) !in net.Reach() then Unreachable
    else if HasOn(s, c.Primary(d), d) then Found(Content(s[c.Primary(d)], d))
    else NotFound
  }

  /** Where a blob put at a node goes: to the primary, or here if there is no
      primary or it is no member with an address; nowhere if it is one and does
      not answer. */
  function PutTarget(c: Cluster, net: Net, at: string, d: string): Option<string>
    requires c.Valid()
  {
    var p := c.Primary(d);
    if p == at || p == "" || p !in net.known then Some(at)
    else if p in net.up then Some(p)
    else None
  }

  datatype Job = Job(digest: string, targets: seq<string>)

  /** At most one node's store changes, and only by a verified blob. */
  ghost predicate Arrives(sha: Bytes -> string, s: Stores, s': Stores, n: string) {
    && n in s && s'.Keys == s.Keys && s' == s[n := s'[n]]
    && StoreStep(sha, s[n], s'[n]) && s[n].Keys <= s'[n].Keys
  }

  const QUEUE: nat := 10000

  /** All nodes of a mesh, each with a blob store of its own. */
  class Mesh {
    const c: Cluster
    const sha: Bytes -> string
    const nodes: map<string, BlobStore>

    ghost predicate Valid() {
      && c.Valid() && MakesDigests(sha)
      && (forall n :: n in nodes ==> nodes[n].sha == sha)
      && forall a, b :: a in nodes && b in nodes && a != b ==> nodes[a] != nodes[b]
    }

    ghost function All(): set<BlobStore> {
      set n | n in nodes :: nodes[n]
    }

    ghost function Now(): Stores
      reads All()
    {
      map n | n in nodes :: nodes[n].files
    }

    constructor (c: Cluster, sha: Bytes -> string, nodes: map<string, BlobStore>)
      ensures this.c == c && this.sha == sha && this.nodes == nodes
    { this.c, this.sha, this.nodes := c, sha, nodes; }

    method GetBlob(net: Net, at: string, d: string) returns (r: GetOutcome)
      requires Valid() && net.Reach() <= nodes.Keys && at in nodes && Digests.Valid(d)
      ensures r == GetSpec(c, net, Now(), at, d)
    {
      var local := nodes[at].Get(d);
      if local.Some? {
        return Found(local.value);
      }
      var primary := c.Primary(d);
      if primary == at || primary == "" {
        return NotFound;
      }
      if primary !in net.known {
        return Unreachable;
      }
      if primary !in net.up {
        return Unreachable;
      }
      var remote := nodes[primary].Get(d);
      return match remote case None => NotFound case Some(data) => Found(data);
    }

    method HasBlob(net: Net, at: string, d: string) returns (r: bool)
      requires Valid() && net.Reach() <= nodes.Keys && at in nodes && Digests.Valid(d)
      ensures r <==> GetSpec(c, net, Now(), at, d).Found?
    {
      var here := nodes[at].Exists(d);
      if here {
        return true;
      }
      var primary := c.Primary(d);
      if primary == at || primary == "" || primary !in net.known || primary !in net.up {
        return false;
      }
      r := nodes[primary].Exists(d);
    }

    /** Success means the blob is verified in the store of the target; without a
        target the put fails and stores nothing. */
    method PutBlob(net: Net, at: string, d: string, r: Reader, size: int, io: Faults) returns (ok: bool)
      requires Valid() && net.Reach() <= nodes.Keys && at in nodes && Digests.Valid(d)
      modifies All()
      ensures Happens(c, sha, Put(net, at, d), old(Now()), Now())
      ensures PutTarget(c, net, at, d).None? ==> !ok && Now() == old(Now())
      ensures PutTarget(c, net, at, d).Some? ==> Arrives(sha, old(Now()), Now(), PutTarget(c, net, at, d).value)
      ensures ok ==> HasOn(Now(), PutTarget(c, net, at, d).value, d)
      ensures (PutTarget(c, net, at, d).Some? && !r.fails && sha(r.data) == d && (size <= 0 || |r.data| == size)
               && io == Faults(false, false, false, false)) ==> ok
    {
      var primary := c.Primary(d);
      if primary == at || primary == "" || primary !in net.known {
        var here := PutOn(at, d, r, size, io);
        return here == Stored || here == Present;
      }
      if primary !in net.up {
        return false;
      }
      var there := PutOn(primary, d, r, size, io);
      return there == Stored || there == Present;
    }

    method PutOn(n: string, d: string, r: Reader, size: int, io: Faults) returns (outcome: PutOutcome)
      requires Valid() && n in nodes && Digests.Valid(d)
      modifies nodes[n]
      ensures Now() == old(Now())[n := nodes[n].files]
      ensures StoreStep(sha, old(nodes[n].files), nodes[n].files) && old(nodes[n].files).Keys <= nodes[n].files.Keys
      ensures outcome == Stored || outcome == Present ==> Has(nodes[n].files, d)
      ensures outcome == Stored ==> nodes[n].files == old(nodes[n].files)[BlobPath(d) := r.data]
      ensures outcome != Stored ==> nodes[n].files == old(nodes[n].files)
      ensures outcome == Present <==> Has(old(nodes[n].files), d) && |Content(old(nodes[n].files), d)| == size
      ensures (!r.fails && sha(r.data) == d && (size <= 0 || |r.data| == size) && io == Faults(false, false, false, false))
        ==> outcome == Stored || outcome == Present
    {
      outcome := nodes[n].Put(d, r, size, io);
    }

    /** A full queue drops the job. */
    method Replicate(at: string, d: string, queue: seq<Job>) returns (queue': seq<Job>)
      requires Valid()
      ensures queue' == if OtherReplicas(c, at, d) == [] || |queue| >= QUEUE then queue
                        else queue + [Job(d, OtherReplicas(c, at, d))]
    {
      var targets := c.Replicas(d);
      var replicaTargets: seq<string> := [];
      for i := 0 to |targets|
        invariant replicaTargets == Keep(targets[..i], Elements(targets) - {at})
      {
        assert targets[..i+1] == targets[..i] + [targets[i]];
        KeepSnoc(targets[..i], targets[i], Elements(targets) - {at});
        if targets[i] != at {
          replicaTargets := replicaTargets + [targets[i]];
        }
      }
      assert targets[..|targets|] == targets;
      if |replicaTargets| == 0 {
        return queue;
      }
      if |queue| < QUEUE {
        return queue + [Job(d, replicaTargets)];
      }
      return queue;
    }

    /** A node's blob goes to every target that answers. */
    method ProcessJob(net: Net, at: string, job: Job)
      requires Valid() && net.Reach() <= nodes.Keys && at in nodes && Digests.Valid(job.digest)
      requires ContentAddressed(sha, nodes[at].files)
      modifies All()
      ensures Happens(c, sha, Push(net, at, job), old(Now()), Now())
      ensures Now() == if HasOn(old(Now()), at, job.digest)
                       then PushAll(old(Now()), job.targets, net.Reach(), job.digest, Content(old(Now())[at], job.digest))
                       else old(Now())
    {
      var found := nodes[at].Get(job.digest);
      if found.None? {
        return;
      }
      var data := found.value;
      for i := 0 to |job.targets|
        invariant Now() == PushAll(old(Now()), job.targets[..i], net.Reach(), job.digest, data)
      {
        assert job.targets[..i+1][..i] == job.targets[..i];
        var t := job.targets[i];
        if t in net.known && t in net.up {
          Receive(t, job.digest, data);
        }
      }
      assert job.targets[..|job.targets|] == job.targets;
    }

    /** `handlePut` of verified data without I/O errors. */
    method Receive(t: string, d: string, data: Bytes)
      requires Valid() && t in nodes && Digests.Valid(d) && sha(data) == d
      modifies nodes[t]
      ensures nodes[t].files == Received(old(nodes[t].files), d, data)
      ensures Now() == old(Now())[t := Received(old(nodes[t].files), d, data)]
    {
      var _ := PutOn(t, d, Reader(data, false), |data|, Faults(false, false, false, false));
    }

    method ShouldHave(n: string, d: string) returns (r: bool)
      requires Valid()
      ensures r <==> n in c.Replicas(d)
    {
      var replicas := c.Replicas(d);
      for i := 0 to |replicas|
        invariant n !in replicas[..i]
      {
        if replicas[i] == n {
          return true;
        }
      }
      return false;
    }

    /** The replicas are asked in turn until one has the blob. */
    method Ask(net: Net, n: string, d: string) returns (got: Option<Bytes>)
      requires Valid() && net.Reach() <= nodes.Keys && Digests.Valid(d)
      ensures got == Answer(c, Now(), n, net.Reach(), d)
    {
      var replicas := c.Replicas(d);
      ghost var s, answering := Now(), net.Reach() - {n};
      assert replicas[0..] == replicas;
      for i := 0 to |replicas|
        invariant FirstHolder(replicas, s, answering, d) == FirstHolder(replicas[i..], s, answering, d)
      {
        var r := replicas[i];
        assert replicas[i..][0] == r && replicas[i..][1..] == replicas[i+1..];
        if r == n || r !in net.known || r !in net.up {
          continue;
        }
        got := nodes[r].Get(d);
        assert HasOn(s, r, d) <==> got.Some?;
        if got.Some? {
          assert FirstHolder(replicas, s, answering, d) == Some(r) && got == Some(Content(s[r], d));
          assert s == Now() && Answer(c, s, n, net.Reach(), d) == got;
          return;
        }
      }
      assert s == Now() && Answer(c, s, n, net.Reach(), d) == None;
      return None;
    }

    /** Pull a blob this node should have from the first replica that has it. */
    method Repair(net: Net, n: string, d: string)
      requires Valid() && net.Reach() <= nodes.Keys && n in nodes && Digests.Valid(d)
      requires forall m :: m in nodes && m != n ==> ContentAddressed(sha, nodes[m].files)
      modifies nodes[n]
      ensures Now() == old(Now())[n := Repaired(c, old(Now()), n, net.Reach(), d)]
    {
      hide FirstHolder;
      ghost var s := Now();
      var shouldHave := ShouldHave(n, d);
      var here := nodes[n].Exists(d);
      assert s == Now() == s[n := s[n]];
      if !shouldHave || here {
        return;
      }
      var got := Ask(net, n, d);
      assert s == Now() && got == Answer(c, s, n, net.Reach(), d);
      if got.Some? {
        FirstHolderIs(c.Replicas(d), s, net.Reach() - {n}, d);
        assert ContentAddressed(sha, s[FirstHolder(c.Replicas(d), s, net.Reach() - {n}, d).value]);
        Receive(n, d, got.value);
        assert Received(s[n], d, got.value) == s[n][BlobPath(d) := got.value];
      } else {
        assert Repaired(c, s, n, net.Reach(), d) == s[n];
      }
    }

    /** One anti-entropy round of a node over the blobs its metadata links. */
    method Sync(net: Net, n: string, repos: seq<seq<string>>)
      requires Valid() && net.Reach() <= nodes.Keys && n in nodes
      requires forall i :: 0 <= i < |repos| ==> AllValid(repos[i])
      requires forall m :: m in nodes ==> ContentAddressed(sha, nodes[m].files)
      modifies nodes[n]
      ensures Happens(c, sha, AntiEntropy(net, n, Flatten(repos)), old(Now()), Now())
      ensures AllValid(Flatten(repos))
      ensures Now() == old(Now())[n := Round(c, old(Now()), n, net.Reach(), Flatten(repos))]
    {
      hide Repaired, Round;
      ghost var s := Now();
      RoundNone(c, s, n, net.Reach());
      for i := 0 to |repos|
        invariant AllValid(Flatten(repos[..i]))
        invariant Now() == s[n := Round(c, s, n, net.Reach(), Flatten(repos[..i]))]
      {
        assert repos[..i+1][..i] == repos[..i];
        SyncRepo(net, n, repos[i], s, Flatten(repos[..i]));
      }
      assert repos[..|repos|] == repos;
    }

    method SyncRepo(net: Net, n: string, ds: seq<string>, ghost s: Stores, ghost done: seq<string>)
      requires Valid() && net.Reach() <= nodes.Keys && n in nodes && s.Keys == nodes.Keys && AllValid(done) && AllValid(ds)
      requires forall m :: m in nodes && m != n ==> ContentAddressed(sha, nodes[m].files)
      requires Now() == s[n := Round(c, s, n, net.Reach(), done)]
      modifies nodes[n]
      ensures AllValid(done + ds)
      ensures Now() == s[n := Round(c, s, n, net.Reach(), done + ds)]
    {
      hide Repaired, Round;
      assert done + ds[..0] == done;
      for k := 0 to |ds|
        invariant AllValid(done + ds[..k])
        invariant Now() == s[n := Round(c, s, n, net.Reach(), done + ds[..k])]
      {
        RoundNext(c, s, n, net.Reach(), done + ds[..k], ds[k]);
        OneMore(done, ds, k);
        Repair(net, n, ds[k]);
      }
      assert ds[..|ds|] == ds;
    }
  }

  function Flatten(repos: seq<seq<string>>): seq<string> {
    if repos == [] then [] else Flatten(repos[..|repos|-1]) + repos[|repos|-1]
  }

  /** A round goes over all digests of all repositories. */
  lemma {:induction false} FlattenHas(repos: seq<seq<string>>, d: string)
    ensures d in Flatten(repos) <==> exists i :: 0 <= i < |repos| && d in repos[i]
  {
    if repos != [] {
      FlattenHas(repos[..|repos|-1], d);
    }
  }

  predicate AllValid(ds: seq<string>) {
    forall i :: 0 <= i < |ds| ==> Valid(ds[i])
  }

  function FirstHolder(rs: seq<string>, s: Stores, answering: set<string>, d: string): Option<string>
    requires Valid(d)
  {
    if rs == [] then None
    else if rs[0] in answering && HasOn(s, rs[0], d) then Some(rs[0])
    else FirstHolder(rs[1..], s, answering, d)
  }

  lemma {:induction false} FirstHolderIs(rs: seq<string>, s: Stores, answering: set<string>, d: string)
    requires Valid(d)
    ensures match FirstHolder(rs, s, answering, d)
      case Some(r) => r in rs && r in answering && HasOn(s, r, d)
      case None => forall r :: r in rs && r in answering ==> !HasOn(s, r, d)
  {
    if rs != [] {
      FirstHolderIs(rs[1..], s, answering, d);
    }
  }

  function Answer(c: Cluster, s: Stores, n: string, answering: set<string>, d: string): Option<Bytes>
    requires c.Valid() && Valid(d)
  {
    match FirstHolder(c.Replicas(d), s, answering - {n}, d)
    case None => None
    case Some(r) => FirstHolderIs(c.Replicas(d), s, answering - {n}, d); Some(Content(s[r], d))
  }

  function Repaired(c: Cluster, s: Stores, n: string, answering: set<string>, d: string): Files
    requires c.Valid() && n in s && Valid(d)
  {
    if n !in c.Replicas(d) || Has(s[n], d) then s[n]
    else match Answer(c, s, n, answering, d) case None => s[n] case Some(data) => s[n][BlobPath(d) := data]
  }

  /** The node's own files after repairing the given digests in turn. */
  function Round(c: Cluster, s: Stores, n: string, answering: set<string>, ds: seq<string>): Files
    requires c.Valid() && n in s && AllValid(ds)
  {
    if ds == [] then s[n]
    else Repaired(c, s[n := Round(c, s, n, answering, ds[..|ds|-1])], n, answering, ds[|ds|-1])
  }

  lemma OneMore(done: seq<string>, ds: seq<string>, k: nat)
    requires k < |ds|
    ensures done + ds[..k] + [ds[k]] == done + ds[..k+1]
  {
  }

  lemma RoundNone(c: Cluster, s: Stores, n: string, answering: set<string>)
    requires c.Valid() && n in s
    ensures s == s[n := Round(c, s, n, answering, [])]
  {
  }

  lemma RoundNext(c: Cluster, s: Stores, n: string, answering: set<string>, ds: seq<string>, d: string)
    requires c.Valid() && n in s && AllValid(ds) && Valid(d)
    ensures AllValid(ds + [d])
    ensures s[n := Round(c, s, n, answering, ds + [d])] ==
      s[n := Round(c, s, n, answering, ds)][n := Repaired(c, s[n := Round(c, s, n, answering, ds)], n, answering, d)]
  {
    var more := ds + [d];
    assert more[..|more|-1] == ds && more[|more|-1] == d;
    assert Round(c, s, n, answering, more) == Repaired(c, s[n := Round(c, s, n, answering, ds)], n, answering, d);
    hide Round, Repaired;
  }

  function OtherReplicas(c: Cluster, at: string, d: string): seq<string>
    requires c.Valid()
  {
    Keep(c.Replicas(d), Elements(c.Replicas(d)) - {at})
  }

  /** A job is for the other replicas, in their order. */
  lemma OthersAre(c: Cluster, at: string, d: string)
    requires c.Valid()
    ensures forall t :: t in OtherReplicas(c, at, d) <==> t in c.Replicas(d) && t != at
    ensures at !in c.Replicas(d) ==> OtherReplicas(c, at, d) == c.Replicas(d)
  {
    var rs := c.Replicas(d);
    KeepElements(rs, Elements(rs) - {at});
    if at !in rs {
      KeepAll(rs, Elements(rs) - {at});
    }
  }

  function Received(files: Files, d: string, data: Bytes): Files
    requires Valid(d)
  {
    if Has(files, d) && |Content(files, d)| == |data| then files else files[BlobPath(d) := data]
  }

  function PushAll(s: Stores, targets: seq<string>, answering: set<string>, d: string, data: Bytes): Stores
    requires Valid(d)
  {
    if targets == [] then s
    else
      var s', t := PushAll(s, targets[..|targets|-1], answering, d, data), targets[|targets|-1];
      if t in answering && t in s' then s'[t := Received(s'[t], d, data)] else s'
  }

  /* ---- where blobs belong ---- */

  /** The primary of a digest owns the ring point that follows its checksum. */
  lemma PrimaryIsOwner(c: Cluster, d: string)
    requires c.Valid() && Seqs.Sorted(c.ring.ring)
    ensures c.ring.ring == [] ==> c.Primary(d) == ""
    ensures c.ring.ring != [] ==> exists p ::
      Ring.IsSuccessor(Elements(c.ring.ring), c.h.crc(d), p) && c.Primary(d) == c.ring.nodes[p]
  {
    if c.ring.ring != [] {
      RingTheorems.FirstIsSuccessor(c.ring, c.h.crc(d));
    } else {
      Ring.ClockwiseElements(c.ring.ring, c.h.crc(d));
    }
  }

  /** Without collisions there are min(factor, members) different replicas, all
      members, the primary first: `GetN` of the ring. */
  lemma ReplicasAreFirst(c: Cluster, d: string)
    requires RingTheorems.Canonical(c.h, c.ring) && c.h.replicas >= 1
    ensures c.Valid() && c.Replicas(d) == RingTheorems.Replicas(c.ring, c.h.crc(d), c.factor)
    ensures var rs := c.Replicas(d);
      && |rs| == (if c.factor <= 0 then 0 else if c.factor > |c.ring.members| then |c.ring.members| else c.factor)
      && NoRepeats(rs) && (forall n :: n in rs ==> n in c.ring.members)
      && (rs != [] ==> rs[0] == c.Primary(d))
  {
    RingTheorems.ReplicasExact(c.h, c.ring, c.h.crc(d), c.factor);
  }

  /* ---- what routing guarantees ---- */

  ghost predicate Addressed(sha: Bytes -> string, s: Stores) {
    forall n :: n in s ==> ContentAddressed(sha, s[n])
  }

  /** A node delivers what it has, or what a primary has that it reaches; it blames
      the network exactly if another node is primary and cannot be reached. */
  lemma GetExactly(c: Cluster, net: Net, s: Stores, at: string, d: string)
    requires c.Valid() && net.Reach() <= s.Keys && Valid(d)
    ensures var r, p := GetSpec(c, net, s, at, d), c.Primary(d);
      && (r.Found? <==> HasOn(s, at, d) || (p != "" && p in net.known && p in net.up && HasOn(s, p, d)))
      && (r.Unreachable? <==> !HasOn(s, at, d) && p != "" && p != at && !(p in net.known && p in net.up))
      && (HasOn(s, at, d) ==> r == Found(Content(s[at], d)))
      && (r.Found? && !HasOn(s, at, d) ==> r == Found(Content(s[p], d)))
  {
  }

  /** A put goes nowhere exactly if the primary is another member with an address
      that does not answer, and to another node only if that is the primary. */
  lemma PutExactly(c: Cluster, net: Net, at: string, d: string)
    requires c.Valid()
    ensures var t, p := PutTarget(c, net, at, d), c.Primary(d);
      && (t == None <==> p != "" && p != at && p in net.known && p !in net.up)
      && (t == Some(at) <==> p == at || p == "" || p !in net.known)
      && (t.Some? && t.value != at ==> t.value == p)
  {
  }

  /** Once the primary has a blob and answers, every node delivers it. */
  lemma PrimaryServesAll(c: Cluster, net: Net, sha: Bytes -> string, s: Stores, at: string, d: string)
    requires c.Valid() && net.Reach() <= s.Keys && Valid(d) && Addressed(sha, s) && at in s
    requires c.Primary(d) in net.Reach() && c.Primary(d) != "" && HasOn(s, c.Primary(d), d)
    ensures GetSpec(c, net, s, at, d).Found? && sha(GetSpec(c, net, s, at, d).data) == d
  {
    assert ContentAddressed(sha, s[at]) && ContentAddressed(sha, s[c.Primary(d)]);
  }

  /** With every node known and answering, a blob is delivered everywhere exactly
      if the primary has it, or every node has it. */
  lemma DeliveredEverywhere(c: Cluster, net: Net, s: Stores, d: string)
    requires c.Valid() && net.Reach() == s.Keys && Valid(d)
    ensures (forall at :: at in s ==> GetSpec(c, net, s, at, d).Found?) <==>
      (HasOn(s, c.Primary(d), d) && c.Primary(d) != "") || (forall at :: at in s ==> Has(s[at], d))
  {
    if forall at :: at in s ==> GetSpec(c, net, s, at, d).Found? {
      if at :| at in s && !Has(s[at], d) {
        assert GetSpec(c, net, s, at, d).Found?;
      }
    }
  }

  /** After a put that reached a node, and with every node known and answering
      later: every node delivers the blob exactly if it went to the primary, or the
      primary had it, or all other nodes had it. */
  lemma PutIsDelivered(c: Cluster, net: Net, later: Net, s: Stores, at: string, d: string, data: Bytes)
    requires c.Valid() && Valid(d) && at in s && net.Reach() <= s.Keys && later.Reach() == s.Keys
    requires PutTarget(c, net, at, d).Some?
    ensures PutTarget(c, net, at, d).value in s
    ensures var t := PutTarget(c, net, at, d).value;
      var s' := s[t := s[t][BlobPath(d) := data]];
      (forall n :: n in s ==> GetSpec(c, later, s', n, d).Found?) <==>
        || (c.Primary(d) != "" && (t == c.Primary(d) || HasOn(s, c.Primary(d), d)))
        || (forall n :: n in s && n != t ==> Has(s[n], d))
  {
    var t := PutTarget(c, net, at, d).value;
    var s' := s[t := s[t][BlobPath(d) := data]];
    DeliveredEverywhere(c, later, s', d);
    assert forall n :: n in s' <==> n in s;
    hide GetSpec, PutTarget;
    assert forall n :: n in s ==> (Has(s'[n], d) <==> n == t || Has(s[n], d));
  }

  /** A put through a node that does not know the primary stays there: once all
      nodes are known and answer, every other node that lacks the blob misses it. */
  lemma FallbackIsLocal(c: Cluster, net: Net, later: Net, s: Stores, at: string, other: string, d: string, data: Bytes)
    requires c.Valid() && Valid(d) && at in s && other in s && other != at && later.Reach() == s.Keys
    requires c.Primary(d) in s && c.Primary(d) != "" && c.Primary(d) != at && c.Primary(d) !in net.known
    requires !Has(s[c.Primary(d)], d) && !Has(s[other], d)
    ensures PutTarget(c, net, at, d) == Some(at)
    ensures GetSpec(c, later, s[at := s[at][BlobPath(d) := data]], other, d) == NotFound
  {
    var s' := s[at := s[at][BlobPath(d) := data]];
    assert s'[other] == s[other] && s'[c.Primary(d)] == s[c.Primary(d)];
  }

  /* ---- runs ---- */

  datatype Event =
    | Put(net: Net, at: string, digest: string)
    | Push(net: Net, at: string, job: Job)
    | AntiEntropy(net: Net, node: string, links: seq<string>)

  ghost predicate Happens(c: Cluster, sha: Bytes -> string, e: Event, s: Stores, s': Stores)
    requires c.Valid()
  {
    && e.net.Reach() <= s.Keys
    && match e
    case Put(net, at, d) =>
      && at in s
      && var t := PutTarget(c, net, at, d);
      if t.None? then s' == s else Arrives(sha, s, s', t.value)
    case Push(net, at, job) =>
      && at in s && Valid(job.digest)
      && s' == if HasOn(s, at, job.digest)
               then PushAll(s, job.targets, net.Reach(), job.digest, Content(s[at], job.digest)) else s
    case AntiEntropy(net, n, ds) => n in s && AllValid(ds) && s' == s[n := Round(c, s, n, net.Reach(), ds)]
  }

  /** Stores only grow, and what they hold hashes to its name. */
  ghost predicate Grows(sha: Bytes -> string, s: Stores, s': Stores) {
    && s'.Keys == s.Keys && (forall n :: n in s ==> s[n].Keys <= s'[n].Keys)
    && (Addressed(sha, s) ==> Addressed(sha, s'))
  }

  lemma OneGrows(sha: Bytes -> string, s: Stores, n: string, files: Files)
    requires n in s && s[n].Keys <= files.Keys && (ContentAddressed(sha, s[n]) ==> ContentAddressed(sha, files))
    ensures Grows(sha, s, s[n := files])
  {
    if Addressed(sha, s) {
      var s' := s[n := files];
      forall m | m in s' ensures ContentAddressed(sha, s'[m]) {
        assert ContentAddressed(sha, s[m]);
      }
    }
  }

  lemma {:induction false} PushGrows(sha: Bytes -> string, s: Stores, targets: seq<string>, answering: set<string>, d: string, data: Bytes)
    requires Valid(d) && sha(data) == d
    ensures Grows(sha, s, PushAll(s, targets, answering, d, data))
  {
    if targets != [] {
      PushGrows(sha, s, targets[..|targets|-1], answering, d, data);
      var s', t := PushAll(s, targets[..|targets|-1], answering, d, data), targets[|targets|-1];
      if t in answering && t in s' {
        if ContentAddressed(sha, s'[t]) {
          StoredKeeps(sha, s'[t], d, data);
        }
        OneGrows(sha, s', t, Received(s'[t], d, data));
      }
    }
  }

  /** Every answering target of a job has the blob afterwards; other stores stay. */
  lemma {:induction false} PushDelivers(s: Stores, targets: seq<string>, answering: set<string>, d: string, data: Bytes)
    requires Valid(d)
    ensures var s' := PushAll(s, targets, answering, d, data);
      && s'.Keys == s.Keys
      && (forall t :: t in s && t in targets && t in answering ==> HasOn(s', t, d) && |Content(s'[t], d)| == |data|)
      && (forall t :: t in s && t in targets && t in answering && !Has(s[t], d) ==> Content(s'[t], d) == data)
      && (forall t :: t in s && (t !in targets || t !in answering) ==> s'[t] == s[t])
      && (forall t :: t in s && Has(s[t], d) && |Content(s[t], d)| == |data| ==> s'[t] == s[t])
  {
    if targets != [] {
      var init, last := targets[..|targets|-1], targets[|targets|-1];
      PushDelivers(s, init, answering, d, data);
      assert targets == init + [last];
    }
  }

  /** Some replica that answers has the blob. */
  ghost predicate Held(c: Cluster, s: Stores, answering: set<string>, d: string)
    requires c.Valid() && Valid(d)
  {
    exists r :: r in c.Replicas(d) && r in answering && HasOn(s, r, d)
  }

  /** A repair takes what another replica holds, and nothing is lost. */
  lemma RepairWorks(c: Cluster, sha: Bytes -> string, s: Stores, n: string, answering: set<string>, d: string)
    requires c.Valid() && n in s && Valid(d) && Addressed(sha, s)
    ensures s[n].Keys <= Repaired(c, s, n, answering, d).Keys && ContentAddressed(sha, Repaired(c, s, n, answering, d))
    ensures n in c.Replicas(d) && Held(c, s, answering, d) ==> Has(Repaired(c, s, n, answering, d), d)
  {
    FirstHolderIs(c.Replicas(d), s, answering - {n}, d);
    match FirstHolder(c.Replicas(d), s, answering - {n}, d) {
      case None =>
      case Some(r) =>
        assert ContentAddressed(sha, s[r]);
        StoredKeeps(sha, s[n], d, Content(s[r], d));
    }
    assert ContentAddressed(sha, s[n]);
  }

  lemma {:induction false} RoundGrows(c: Cluster, sha: Bytes -> string, s: Stores, n: string, answering: set<string>, ds: seq<string>)
    requires c.Valid() && n in s && AllValid(ds) && Addressed(sha, s)
    ensures s[n].Keys <= Round(c, s, n, answering, ds).Keys && ContentAddressed(sha, Round(c, s, n, answering, ds))
  {
    assert ContentAddressed(sha, s[n]);
    if ds != [] {
      var init := ds[..|ds|-1];
      RoundGrows(c, sha, s, n, answering, init);
      OneGrows(sha, s, n, Round(c, s, n, answering, init));
      RepairWorks(c, sha, s[n := Round(c, s, n, answering, init)], n, answering, ds[|ds|-1]);
    }
  }

  lemma InInit(ds: seq<string>, d: string)
    requires d in ds && d != ds[|ds|-1]
    ensures d in ds[..|ds|-1]
  {
    assert ds == ds[..|ds|-1] + [ds[|ds|-1]];
  }

  lemma HeldGrows(c: Cluster, s: Stores, s': Stores, answering: set<string>, d: string)
    requires c.Valid() && Valid(d) && s'.Keys == s.Keys && (forall n :: n in s ==> s[n].Keys <= s'[n].Keys)
    ensures Held(c, s, answering, d) ==> Held(c, s', answering, d)
  {
    if Held(c, s, answering, d) {
      var r :| r in c.Replicas(d) && r in answering && HasOn(s, r, d);
      assert HasOn(s', r, d);
    }
  }

  lemma {:induction false} RoundRepairs(c: Cluster, sha: Bytes -> string, s: Stores, n: string, answering: set<string>, ds: seq<string>, d: string)
    requires c.Valid() && n in s && AllValid(ds) && Addressed(sha, s)
    requires d in ds && Valid(d) && n in c.Replicas(d) && Held(c, s, answering, d)
    ensures Has(Round(c, s, n, answering, ds), d)
  {
    var init, last := ds[..|ds|-1], ds[|ds|-1];
    RoundGrows(c, sha, s, n, answering, init);
    var own := Round(c, s, n, answering, init);
    OneGrows(sha, s, n, own);
    RepairWorks(c, sha, s[n := own], n, answering, last);
    HeldGrows(c, s, s[n := own], answering, d);
    assert Round(c, s, n, answering, ds) == Repaired(c, s[n := own], n, answering, last);
    hide Held, Repaired, Round, Addressed, ContentAddressed;
    if d != last {
      InInit(ds, d);
      RoundRepairs(c, sha, s, n, answering, init, d);
    }
  }

  lemma HappensGrows(c: Cluster, sha: Bytes -> string, e: Event, s: Stores, s': Stores)
    requires c.Valid() && Happens(c, sha, e, s, s') && Addressed(sha, s)
    ensures Grows(sha, s, s')
  {
    match e {
      case Put(net, at, d) =>
        if PutTarget(c, net, at, d).Some? {
          var t := PutTarget(c, net, at, d).value;
          assert ContentAddressed(sha, s[t]);
          StepKeeps(sha, s[t], s'[t]);
          OneGrows(sha, s, t, s'[t]);
        }
      case Push(net, at, job) =>
        if HasOn(s, at, job.digest) {
          assert ContentAddressed(sha, s[at]);
          PushGrows(sha, s, job.targets, net.Reach(), job.digest, Content(s[at], job.digest));
        }
      case AntiEntropy(net, n, ds) =>
        RoundGrows(c, sha, s, n, net.Reach(), ds);
        OneGrows(sha, s, n, s'[n]);
    }
  }

  ghost predicate IsRun(c: Cluster, sha: Bytes -> string, run: seq<Stores>, events: seq<Event>)
    requires c.Valid()
  {
    && |run| == |events| + 1 && Addressed(sha, run[0])
    && forall i :: 0 <= i < |events| ==> Happens(c, sha, events[i], run[i], run[i+1])
  }

  lemma {:induction false} RunGrows(c: Cluster, sha: Bytes -> string, run: seq<Stores>, events: seq<Event>, i: nat, j: nat)
    requires c.Valid() && IsRun(c, sha, run, events) && i <= j < |run|
    ensures Addressed(sha, run[j]) && Grows(sha, run[i], run[j])
    decreases j
  {
    if j > 0 {
      RunGrows(c, sha, run, events, if i < j then i else j - 1, j - 1);
      HappensGrows(c, sha, events[j-1], run[j-1], run[j]);
    }
  }

  /** Read your writes: after a put that reached its target with the primary
      known, every node delivers the blob whenever it reaches the primary, whatever
      outages there are in between. */
  lemma ReadYourWrites(c: Cluster, sha: Bytes -> string, run: seq<Stores>, events: seq<Event>, i: nat, j: nat, at: string, later: Net)
    requires c.Valid() && IsRun(c, sha, run, events) && i < |events| && i < j < |run|
    requires events[i].Put? && Valid(events[i].digest)
    requires var target := PutTarget(c, events[i].net, events[i].at, events[i].digest);
      target.Some? && HasOn(run[i+1], target.value, events[i].digest)
    requires c.Primary(events[i].digest) in events[i].net.known + {events[i].at} && c.Primary(events[i].digest) != ""
    requires c.Primary(events[i].digest) in later.Reach() && later.Reach() <= run[j].Keys && at in run[j]
    ensures var r := GetSpec(c, later, run[j], at, events[i].digest);
      r.Found? && sha(r.data) == events[i].digest
  {
    RunGrows(c, sha, run, events, i + 1, j);
    PrimaryServesAll(c, later, sha, run[j], at, events[i].digest);
  }

  /** Convergence, whatever replication jobs were dropped or failed: a replica
      node that runs one anti-entropy round over a digest some answering replica
      holds, holds it from then on. */
  lemma RoundConverges(c: Cluster, sha: Bytes -> string, run: seq<Stores>, events: seq<Event>, i: nat, j: nat, d: string, r: string)
    requires c.Valid() && IsRun(c, sha, run, events) && i < |events| && i < j < |run|
    requires events[i].AntiEntropy? && d in events[i].links && events[i].node in c.Replicas(d)
    requires r in c.Replicas(d) && r in events[i].net.Reach() && Valid(d) && HasOn(run[i], r, d)
    ensures HasOn(run[j], events[i].node, d)
  {
    RunGrows(c, sha, run, events, 0, i);
    assert Happens(c, sha, events[i], run[i], run[i+1]);
    assert Held(c, run[i], events[i].net.Reach(), d);
    RoundRepairs(c, sha, run[i], events[i].node, events[i].net.Reach(), events[i].links, d);
    assert HasOn(run[i+1], events[i].node, d);
    RunGrows(c, sha, run, events, i + 1, j);
  }

  /** A round of `n` over `d` that reaches the holder `r`. */
  predicate Rounds(e: Event, n: string, d: string, r: string) {
    e.AntiEntropy? && e.node == n && d in e.links && r in e.net.Reach()
  }

  /** Once every replica node has had its round, all of them hold the blob. */
  lemma ReplicasConverge(c: Cluster, sha: Bytes -> string, run: seq<Stores>, events: seq<Event>, start: nat, d: string, r: string)
    requires c.Valid() && IsRun(c, sha, run, events) && start < |run| && Valid(d)
    requires r in c.Replicas(d) && HasOn(run[start], r, d)
    requires forall n :: n in c.Replicas(d) ==> exists i :: start <= i < |events| && Rounds(events[i], n, d, r)
    ensures forall n :: n in c.Replicas(d) ==> HasOn(run[|run|-1], n, d)
  {
    forall n | n in c.Replicas(d) ensures HasOn(run[|run|-1], n, d) {
      var i :| start <= i < |events| && Rounds(events[i], n, d, r);
      RunGrows(c, sha, run, events, start, i);
      RoundConverges(c, sha, run, events, i, |run| - 1, d, r);
    }
  }
}
