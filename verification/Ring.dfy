/** Consistent hashing with virtual nodes (internal/mesh/hash.go). The class
    `ConsistentHash` changes its fields as the source does; `AddSpec` and
    `RemoveSpec` are what its methods are proved against, and `RingTheorems`
    reasons about those. */
module Ring {
  import opened Numbers
  import opened Seqs

  /** `string(rune(i))`: surrogates and values past the last code point become U+FFFD. */
  function RuneString(i: nat): string {
    if i < 0xD800 || 0xE000 <= i < 0x11_0000 then [i as char] else "\U{FFFD}"
  }

  function VirtualNodeKey(nodeID: string, replica: nat): string {
    nodeID + "#" + RuneString(replica)
  }

  /** The parameters of a ring: the checksum, about which nothing is assumed,
      and the number of virtual nodes per member. */
  datatype Hashing = Hashing(crc: string -> UInt32, replicas: nat) {

    function Point(id: string, i: nat): UInt32 {
      crc(VirtualNodeKey(id, i))
    }

    /** The points of one member, in the order they are appended. */
    function PointSeq(id: string): (s: seq<nat>)
      ensures |s| == replicas && forall i :: 0 <= i < replicas ==> s[i] == Point(id, i)
    {
      seq(replicas, i requires 0 <= i < replicas => Point(id, i) as nat)
    }

    function Points(id: string): set<nat> {
      set i | 0 <= i < replicas :: Point(id, i) as nat
    }

    /** All virtual-node points of `ids` are pairwise different. */
    ghost predicate CollisionFree(ids: set<string>) {
      forall a, b, i, j ::
        (a in ids && b in ids && 0 <= i < replicas && 0 <= j < replicas && Point(a, i) == Point(b, j))
        ==> a == b && i == j
    }
  }

  datatype State = State(ring: seq<nat>, nodes: map<nat, string>, members: set<string>)

  const EMPTY := State([], map[], {})

  function AddSpec(h: Hashing, st: State, id: string): State {
    if id in st.members then st
    else State(Sort(st.ring + h.PointSeq(id)),
               st.nodes + map p | p in h.Points(id) :: id,
               st.members + {id})
  }

  /** Allocating the new ring needs `len(ring) - replicas >= 0`; the program
      panics otherwise. */
  predicate RemovePanics(h: Hashing, st: State, id: string) {
    id in st.members && |st.ring| < h.replicas
  }

  /** After a panic the owners are gone but the ring is still the old one. */
  function RemoveSpec(h: Hashing, st: State, id: string): State {
    if id !in st.members then st
    else
      var nodes := st.nodes - h.Points(id);
      State(if RemovePanics(h, st, id) then st.ring else Keep(st.ring, nodes.Keys),
            nodes, st.members - {id})
  }

  /** The point responsible for `k`: the least ring point at or above it, or,
      when there is none, the least point of all. */
  ghost predicate IsSuccessor(points: set<nat>, k: nat, p: nat) {
    && p in points
    && (k <= p ==> forall q :: q in points && k <= q ==> p <= q)
    && (p < k ==> forall q :: q in points ==> p <= q < k)
  }

  lemma SuccessorUnique(points: set<nat>, k: nat, p: nat, q: nat)
    requires IsSuccessor(points, k, p) && IsSuccessor(points, k, q)
    ensures p == q
  {
  }

  /** Who has not joined cannot leave, even if a point of another member is one of its own. */
  lemma StrangerLeaves(h: Hashing, st: State, id: string)
    requires id !in st.members
    ensures RemoveSpec(h, st, id) == st
  {
  }

  /** The ring read clockwise from `k`. */
  function Clockwise(ring: seq<nat>, k: nat): seq<nat> {
    Keep(ring, From(ring, k)) + Keep(ring, Below(ring, k))
  }

  function From(ring: seq<nat>, k: nat): set<nat> {
    set p: nat | p in ring && k <= p
  }

  function Below(ring: seq<nat>, k: nat): set<nat> {
    set p: nat | p in ring && p < k
  }

  ghost predicate Owned(st: State) {
    forall p :: p in st.ring ==> p in st.nodes
  }

  function Owners(nodes: map<nat, string>, points: seq<nat>): (r: seq<string>)
    requires forall p :: p in points ==> p in nodes
    ensures |r| == |points| && forall i :: 0 <= i < |r| ==> r[i] == nodes[points[i]]
  {
    seq(|points|, i requires 0 <= i < |points| => nodes[points[i]])
  }

  /** The members met on the way around from `k`, each at its first point. */
  function Preference(st: State, k: nat): seq<string>
    requires Owned(st)
  {
    assert forall p :: p in Clockwise(st.ring, k) ==> p in st.nodes by {
      ClockwiseElements(st.ring, k);
    }
    Distinct(Owners(st.nodes, Clockwise(st.ring, k)))
  }

  lemma ClockwiseElements(ring: seq<nat>, k: nat)
    ensures forall p :: p in Clockwise(ring, k) <==> p in ring
    ensures |Clockwise(ring, k)| == |ring|
  {
    var hi, lo := From(ring, k), Below(ring, k);
    KeepElements(ring, hi);
    KeepElements(ring, lo);
    KeepSplit(ring, hi, lo);
  }

  lemma {:induction false} KeepSplit(s: seq<nat>, a: set<nat>, b: set<nat>)
    requires forall x :: x in s ==> (x in a <==> x !in b)
    ensures |Keep(s, a)| + |Keep(s, b)| == |s|
  {
    if s != [] {
      assert s == s[..|s|-1] + [s[|s|-1]];
      KeepSplit(s[..|s|-1], a, b);
    }
  }

  /** What binary search finds splits the sorted ring where the walk starts. */
  lemma ClockwiseIsRotation(ring: seq<nat>, k: nat, at: nat)
    requires at <= |ring|
    requires forall i :: 0 <= i < at ==> ring[i] < k
    requires forall i :: at <= i < |ring| ==> k <= ring[i]
    ensures Clockwise(ring, k) == ring[at..] + ring[..at]
  {
    var hi, lo := From(ring, k), Below(ring, k);
    var a, b := ring[..at], ring[at..];
    assert ring == a + b;
    KeepRight(a, b, From(ring, k));
    KeepLeft(a, b, Below(ring, k));
  }

  lemma KeepRight(a: seq<nat>, b: seq<nat>, keep: set<nat>)
    requires forall x :: x in a ==> x !in keep
    requires forall x :: x in b ==> x in keep
    ensures Keep(a + b, keep) == b
  {
    KeepConcat(a, b, keep);
    KeepNone(a, keep);
    KeepAll(b, keep);
  }

  lemma KeepLeft(a: seq<nat>, b: seq<nat>, keep: set<nat>)
    requires forall x :: x in a ==> x in keep
    requires forall x :: x in b ==> x !in keep
    ensures Keep(a + b, keep) == a
  {
    KeepConcat(a, b, keep);
    KeepAll(a, keep);
    KeepNone(b, keep);
  }

  /** The unsorted ring after the first `i` virtual nodes of `id` are in. */
  function Appended(h: Hashing, st: State, id: string, i: nat): State {
    if i == 0 then State(st.ring, st.nodes, st.members + {id})
    else
      var s, p: nat := Appended(h, st, id, i - 1), h.Point(id, i - 1);
      State(s.ring + [p], s.nodes[p := id], s.members)
  }

  lemma {:induction false} AppendedRing(h: Hashing, st: State, id: string, i: nat)
    requires i <= h.replicas
    ensures Appended(h, st, id, i).ring == st.ring + h.PointSeq(id)[..i]
    ensures Appended(h, st, id, i).members == st.members + {id}
  {
    if i > 0 {
      AppendedRing(h, st, id, i - 1);
      assert h.PointSeq(id)[..i] == h.PointSeq(id)[..i-1] + [h.Point(id, i - 1)];
    }
  }

  function FirstPoints(h: Hashing, id: string, i: nat): set<nat> {
    if i == 0 then {} else FirstPoints(h, id, i - 1) + {h.Point(id, i - 1)}
  }

  lemma {:induction false} FirstPointsAre(h: Hashing, id: string, i: nat)
    ensures forall p :: p in FirstPoints(h, id, i) <==> exists j :: 0 <= j < i && p == h.Point(id, j)
  {
    if i > 0 {
      FirstPointsAre(h, id, i - 1);
    }
  }

  lemma {:induction false} AppendedNodes(h: Hashing, st: State, id: string, i: nat)
    ensures Appended(h, st, id, i).nodes == st.nodes + map p | p in FirstPoints(h, id, i) :: id
  {
    if i > 0 {
      AppendedNodes(h, st, id, i - 1);
      AssignMore(st.nodes, FirstPoints(h, id, i - 1), h.Point(id, i - 1), id);
    }
  }

  /** Appending point by point and sorting once is `AddSpec`. */
  lemma AppendedAll(h: Hashing, st: State, id: string)
    requires id !in st.members && Owned(st)
    ensures var all := Appended(h, st, id, h.replicas);
      AddSpec(h, st, id) == all.(ring := Sort(all.ring))
    ensures Owned(AddSpec(h, st, id)) && Sorted(AddSpec(h, st, id).ring)
  {
    AppendedRing(h, st, id, h.replicas);
    AppendedNodes(h, st, id, h.replicas);
    FirstPointsAre(h, id, h.replicas);
    assert FirstPoints(h, id, h.replicas) == h.Points(id);
    assert h.PointSeq(id)[..h.replicas] == h.PointSeq(id);
    AddOwned(h, st, id);
  }

  lemma AssignMore(m: map<nat, string>, s: set<nat>, x: nat, v: string)
    ensures (m + map p | p in s :: v)[x := v] == m + map p | p in s + {x} :: v
  {}

  /** One turn of the walk in `GetN`. */
  lemma WalkStep(owners: seq<string>, t: nat)
    requires t < |owners|
    ensures Distinct(owners[..t+1]) ==
      if owners[t] in Elements(Distinct(owners[..t])) then Distinct(owners[..t])
      else Distinct(owners[..t]) + [owners[t]]
    ensures Elements(Distinct(owners[..t+1])) == Elements(Distinct(owners[..t])) + {owners[t]}
  {
    assert owners[..t+1] == owners[..t] + [owners[t]];
    DistinctSnoc(owners[..t], owners[t]);
    DistinctFacts(owners[..t]);
    DistinctFacts(owners[..t+1]);
  }

  lemma WalkContinues(owners: seq<string>, t: nat)
    requires t <= |owners|
    requires |Distinct(owners[..t])| < |Distinct(owners)|
    ensures t < |owners|
  {
    assert owners[..|owners|] == owners;
  }

  lemma WalkEnd(owners: seq<string>, t: nat, n: int)
    requires t <= |owners| && n <= |Distinct(owners[..t])|
    requires |Distinct(owners[..t])| <= n || |Distinct(owners[..t])| == 0
    ensures Distinct(owners[..t]) == Take(Distinct(owners), n)
  {
    DistinctPrefix(owners[..t], owners);
  }

  /** `owners` are the owners of all points, once around from index `start`. */
  ghost predicate IsWalk(st: State, start: nat, owners: seq<string>)
    requires Owned(st) && start < |st.ring|
  {
    && |owners| == |st.ring|
    && forall t :: 0 <= t < |st.ring| ==>
         owners[t] == st.nodes[st.ring[if start + t < |st.ring| then start + t else start + t - |st.ring|]]
  }

  lemma WalkAt(st: State, start: nat, owners: seq<string>, t: nat, idx: nat)
    requires Owned(st) && start < |st.ring| && IsWalk(st, start, owners)
    requires t < |st.ring| && idx == if start + t < |st.ring| then start + t else start + t - |st.ring|
    ensures owners[t] == st.nodes[st.ring[idx]]
  {}

  /** The owners in the order in which the loops of `Get` and `GetN` visit them. */
  lemma WalkOwners(st: State, k: nat, at: nat) returns (owners: seq<string>)
    requires Owned(st) && st.ring != []
    requires at <= |st.ring|
    requires forall i :: 0 <= i < at ==> st.ring[i] < k
    requires forall i :: at <= i < |st.ring| ==> k <= st.ring[i]
    ensures IsWalk(st, if at < |st.ring| then at else 0, owners)
    ensures Preference(st, k) == Distinct(owners)
  {
    ClockwiseIsRotation(st.ring, k, at);
    ClockwiseElements(st.ring, k);
    var start := if at < |st.ring| then at else 0;
    Rotate(st.ring, at, start);
    owners := Owners(st.nodes, Clockwise(st.ring, k));
    hide Clockwise, Distinct;
  }

  lemma Rotate(ring: seq<nat>, at: nat, start: nat)
    requires at <= |ring| && ring != [] && start == if at < |ring| then at else 0
    ensures var r := ring[at..] + ring[..at];
      forall t :: 0 <= t < |ring| ==> r[t] == ring[if start + t < |ring| then start + t else start + t - |ring|]
  {
  }

  lemma NextIndex(i: nat, n: nat)
    requires i < n
    ensures (i + 1) % n == if i + 1 == n then 0 else i + 1
  {
    if i + 1 < n {
      assert (i + 1) / n == 0;
    }
  }

  lemma AddOwned(h: Hashing, st: State, id: string)
    requires Owned(st)
    ensures Owned(AddSpec(h, st, id))
  {
    if id !in st.members {
      var unsorted := st.ring + h.PointSeq(id);
      SameMultiset(unsorted, Sort(unsorted));
      forall p | p in unsorted ensures p in AddSpec(h, st, id).nodes {
        if p !in st.ring {
          var i :| 0 <= i < h.replicas && h.PointSeq(id)[i] == p;
          assert h.Point(id, i) in h.Points(id);
        }
      }
    }
  }

  class ConsistentHash {
    const h: Hashing
    var ring: seq<nat>
    var nodes: map<nat, string>
    var members: set<string>

    ghost function Abstract(): State
      reads this
    {
      State(ring, nodes, members)
    }

    /** The ring is sorted and every point on it has an owner: what lookups
        rely on. It holds in every state reached without a panic, whatever
        the checksum (`RingTheorems.AnyRun`). */
    ghost predicate Valid()
      reads this
    {
      Sorted(ring) && Owned(Abstract())
    }

    constructor (crc: string -> UInt32, replicas: int)
      ensures Abstract() == EMPTY && Valid()
      ensures h == Hashing(crc, if replicas < 1 then 150 else replicas)
    {
      h := Hashing(crc, if replicas < 1 then 150 else replicas);
      ring, nodes, members := [], map[], {};
    }

    method Add(nodeID: string)
      requires Valid()
      modifies this
      ensures Valid()
      ensures Abstract() == AddSpec(h, old(Abstract()), nodeID)
    {
      if nodeID in members {
        return;
      }
      members := members + {nodeID};
      for i := 0 to h.replicas
        invariant Abstract() == Appended(h, old(Abstract()), nodeID, i)
      {
        var hash := h.Point(nodeID, i);
        ring := ring + [hash];
        nodes := nodes[hash := nodeID];
      }
      AppendedAll(h, old(Abstract()), nodeID);
      ring := Sort(ring);
    }

    method Remove(nodeID: string) returns (panicked: bool)
      requires Valid()
      modifies this
      ensures Abstract() == RemoveSpec(h, old(Abstract()), nodeID)
      ensures panicked <==> RemovePanics(h, old(Abstract()), nodeID)
      ensures !panicked ==> Valid()
    {
      if nodeID !in members {
        return false;
      }
      members := members - {nodeID};
      for i := 0 to h.replicas
        invariant ring == old(ring) && members == old(members) - {nodeID}
        invariant nodes == old(nodes) - set j | 0 <= j < i :: h.Point(nodeID, j) as nat
      {
        nodes := nodes - {h.Point(nodeID, i) as nat};
      }
      if |ring| - h.replicas < 0 {
        return true;
      }
      var newRing := [];
      for i := 0 to |ring|
        invariant |ring| == |old(ring)|
        invariant newRing == Keep(ring[..i], nodes.Keys)
        invariant ring == old(ring) && members == old(members) - {nodeID}
        invariant nodes == old(nodes) - h.Points(nodeID)
      {
        KeepSnoc(ring[..i], ring[i], nodes.Keys);
        assert ring[..i+1] == ring[..i] + [ring[i]];
        if ring[i] in nodes {
          newRing := newRing + [ring[i]];
        }
      }
      assert ring[..|ring|] == ring;
      KeepSorted(ring, nodes.Keys);
      KeepElements(ring, nodes.Keys);
      ring := newRing;
      return false;
    }

    /** `sort.Search` on the ring. */
    method Search(hash: nat) returns (at: nat)
      requires Sorted(ring)
      ensures at <= |ring|
      ensures forall i :: 0 <= i < at ==> ring[i] < hash
      ensures forall i :: at <= i < |ring| ==> hash <= ring[i]
    {
      var j := |ring|;
      at := 0;
      while at < j
        invariant 0 <= at <= j <= |ring|
        invariant forall i :: 0 <= i < at ==> ring[i] < hash
        invariant forall i :: j <= i < |ring| ==> hash <= ring[i]
      {
        var mid := (at + j) / 2;
        if ring[mid] < hash {
          at := mid + 1;
        } else {
          j := mid;
        }
      }
    }

    /** The owner of the successor point, or "" on an empty ring. */
    method Get(key: string) returns (id: string)
      requires Valid()
      ensures ring == [] ==> id == ""
      ensures ring != [] ==> exists p :: IsSuccessor(Elements(ring), h.crc(key), p) && id == nodes[p]
      ensures ring != [] ==> Preference(Abstract(), h.crc(key)) != [] && id == Preference(Abstract(), h.crc(key))[0]
    {
      if |ring| == 0 {
        return "";
      }
      var hash := h.crc(key);
      var idx := Search(hash);
      ghost var at := idx;
      if idx >= |ring| {
        idx := 0;
      }
      id := nodes[ring[idx]];
      assert IsSuccessor(Elements(ring), hash, ring[idx]);
      ghost var owners := WalkOwners(Abstract(), hash, at);
      DistinctFacts(owners);
    }

    /** The first `n` members met clockwise from the key. The loop ends when,
        and only when (`RingTheorems.WalkReaches`), enough members own a
        point; that is the precondition. */
    method GetN(key: string, n: int) returns (result: seq<string>)
      requires Valid()
      requires ring != [] ==>
        (if n > |members| then |members| else n) <= |Preference(Abstract(), h.crc(key))|
      ensures ring == [] ==> result == []
      ensures ring != [] ==>
        result == Take(Preference(Abstract(), h.crc(key)), if n > |members| then |members| else n)
    {
      if |ring| == 0 {
        return [];
      }
      var n := if n > |members| then |members| else n;
      var hash := h.crc(key);
      var idx := Search(hash);
      ghost var at := idx;
      if idx >= |ring| {
        idx := 0;
      }
      ghost var owners := WalkOwners(Abstract(), hash, at);
      result := Collect(idx, n, owners);
    }

    /** The loop of `GetN`: from index `start` on, the members not seen before. */
    method Collect(start: nat, n: int, ghost owners: seq<string>) returns (result: seq<string>)
      requires Owned(Abstract()) && start < |ring| && IsWalk(Abstract(), start, owners)
      requires n <= |Distinct(owners)|
      ensures result == Take(Distinct(owners), n)
    {
      var idx, seen := start, {};
      ghost var t := 0;
      result := [];
      assert owners[..0] == [];
      while |result| < n
        invariant 0 <= t <= |ring|
        invariant idx == if start + t < |ring| then start + t else start + t - |ring|
        invariant result == Distinct(owners[..t])
        invariant seen == Elements(result)
        invariant |result| <= n || |result| == 0
        decreases |ring| - t
      {
        WalkContinues(owners, t);
        WalkAt(Abstract(), start, owners, t, idx);
        var nodeID := nodes[ring[idx]];
        WalkStep(owners, t);
        if nodeID !in seen {
          seen := seen + {nodeID};
          result := result + [nodeID];
        }
        NextIndex(idx, |ring|);
        idx := (idx + 1) % |ring|;
        t := t + 1;
      }
      WalkEnd(owners, t, n);
    }
  }
}
