/** What every run of joins and leaves keeps, with and without hash collisions,
    and what a single join or leave can change for a key. */
module RingTheorems {
  import opened Seqs
  import opened Ring

  datatype Op = Join(id: string) | Leave(id: string)

  datatype Outcome = Running(st: State) | Panicked

  function Step(h: Hashing, o: Outcome, op: Op): Outcome {
    match o
    case Panicked => Panicked
    case Running(st) =>
      match op
      case Join(id) => Running(AddSpec(h, st, id))
      case Leave(id) => if RemovePanics(h, st, id) then Panicked else Running(RemoveSpec(h, st, id))
  }

  /** A run from the empty ring; a panic ends it. */
  function Run(h: Hashing, ops: seq<Op>): Outcome {
    if ops == [] then Running(EMPTY) else Step(h, Run(h, ops[..|ops|-1]), ops[|ops|-1])
  }

  /** Who is in after the operations, read off the operations alone. */
  function MembersAfter(ops: seq<Op>): set<string> {
    if ops == [] then {}
    else match ops[|ops|-1]
      case Join(id) => MembersAfter(ops[..|ops|-1]) + {id}
      case Leave(id) => MembersAfter(ops[..|ops|-1]) - {id}
  }

  /* ---- with collisions allowed ---- */

  /** Sorted ring, the ring's points are exactly the owned points, and every
      owner is a member one of whose virtual nodes has that point. */
  ghost predicate Consistent(h: Hashing, st: State) {
    && Sorted(st.ring)
    && (forall p :: p in st.ring <==> p in st.nodes)
    && (forall p :: p in st.nodes ==> st.nodes[p] in st.members && p in h.Points(st.nodes[p]))
  }

  lemma AddConsistent(h: Hashing, st: State, id: string)
    requires Consistent(h, st)
    ensures Consistent(h, AddSpec(h, st, id))
  {
    if id !in st.members {
      var added := st.ring + h.PointSeq(id);
      AddOwned(h, st, id);
      SameMultiset(added, Sort(added));
      forall p | p in h.Points(id) ensures p in added {
        var i :| 0 <= i < h.replicas && p == h.Point(id, i);
        assert h.PointSeq(id)[i] in added;
      }
    }
  }

  lemma RemoveConsistent(h: Hashing, st: State, id: string)
    requires Consistent(h, st) && !RemovePanics(h, st, id)
    ensures Consistent(h, RemoveSpec(h, st, id))
  {
    var nodes := st.nodes - h.Points(id);
    KeepElements(st.ring, nodes.Keys);
    KeepSorted(st.ring, nodes.Keys);
  }

  lemma {:induction false} AnyRun(h: Hashing, ops: seq<Op>)
    requires Run(h, ops).Running?
    ensures Consistent(h, Run(h, ops).st)
    ensures Run(h, ops).st.members == MembersAfter(ops)
  {
    if ops != [] {
      assert Run(h, ops[..|ops|-1]).Running?;
      AnyRun(h, ops[..|ops|-1]);
      var st := Run(h, ops[..|ops|-1]).st;
      match ops[|ops|-1]
      case Join(id) => AddConsistent(h, st, id);
      case Leave(id) => RemoveConsistent(h, st, id);
    }
  }

  /** Two single-point members that collide: removing the first takes the
      second one's point along, and removing the second then panics. */
  lemma CollisionPanics(h: Hashing, st: State, a: string, b: string)
    requires h.replicas == 1 && a != b && h.Point(a, 0) == h.Point(b, 0)
    requires Consistent(h, st) && st.members == {a, b}
    ensures Step(h, Step(h, Running(st), Leave(a)), Leave(b)) == Panicked
  {
    assert h.Point(a, 0) in h.Points(a);
    forall p | p in st.ring ensures p in h.Points(a) {
      assert p in h.Points(st.nodes[p]);
    }
    KeepNone(st.ring, (st.nodes - h.Points(a)).Keys);
  }

  /* ---- when GetN comes back ---- */

  /** The owners `GetN` has looked at after `t` turns from index `start`. */
  function Visited(st: State, start: nat, t: nat): (r: seq<string>)
    requires Owned(st) && start < |st.ring|
    ensures |r| == t
  {
    seq(t, i requires 0 <= i < t => st.nodes[st.ring[(start + i) % |st.ring|]])
  }

  /** The loop of `GetN` collects `n` members after some number of turns iff
      the walk has that many owners to offer; otherwise it turns forever. */
  lemma WalkReaches(st: State, k: nat, at: nat, n: int)
    requires Owned(st) && st.ring != [] && at <= |st.ring|
    requires forall i :: 0 <= i < at ==> st.ring[i] < k
    requires forall i :: at <= i < |st.ring| ==> k <= st.ring[i]
    ensures var start := if at < |st.ring| then at else 0;
      (exists t: nat :: n <= |Distinct(Visited(st, start, t))|) <==> n <= |Preference(st, k)|
  {
    var start := if at < |st.ring| then at else 0;
    var owners := WalkOwners(st, k, at);
    forall t: nat ensures |Distinct(Visited(st, start, t))| <= |Preference(st, k)| {
      VisitedIn(st, start, owners, t);
    }
    VisitedAll(st, start, owners);
    assert n <= |Preference(st, k)| ==> n <= |Distinct(Visited(st, start, |st.ring|))|;
  }

  lemma VisitedIn(st: State, start: nat, owners: seq<string>, t: nat)
    requires Owned(st) && start < |st.ring| && IsWalk(st, start, owners)
    ensures |Distinct(Visited(st, start, t))| <= |Distinct(owners)|
  {
    var seen := Visited(st, start, t);
    forall x | x in seen ensures x in owners {
      var i :| 0 <= i < t && seen[i] == x;
      var idx := (start + i) % |st.ring|;
      assert owners[if start <= idx then idx - start else idx + |st.ring| - start] == x;
    }
    DistinctCount(seen);
    DistinctCount(owners);
    SubsetCount(Elements(seen), Elements(owners));
  }

  lemma VisitedAll(st: State, start: nat, owners: seq<string>)
    requires Owned(st) && start < |st.ring| && IsWalk(st, start, owners)
    ensures Visited(st, start, |st.ring|) == owners
  {
    var full := Visited(st, start, |st.ring|);
    forall i | 0 <= i < |st.ring| ensures full[i] == owners[i] {
      WrapIndex(start, i, |st.ring|);
    }
  }

  lemma WrapIndex(start: nat, i: nat, n: nat)
    requires start < n && i < n
    ensures (start + i) % n == if start + i < n then start + i else start + i - n
  {
    if start + i < n {
      assert (start + i) / n == 0;
    } else {
      assert (start + i) / n == 1;
    }
  }

  /** With every requested size allowed, the walk suffices iff each member
      still owns a point, which a collision can take away. */
  lemma GetNTerminates(h: Hashing, st: State, k: nat)
    requires Consistent(h, st)
    ensures |Preference(st, k)| == |st.members| <==>
      forall id :: id in st.members ==> exists p :: p in st.ring && st.nodes[p] == id
  {
    PreferenceElements(h, st, k);
    NoRepeatsCount(Preference(st, k));
    var owners := Elements(Preference(st, k));
    assert owners <= st.members;
    if |owners| == |st.members| {
      assert st.members == owners + (st.members - owners);
      assert st.members == owners;
    } else {
      assert owners != st.members;
    }
  }

  lemma PreferenceElements(h: Hashing, st: State, k: nat)
    requires Consistent(h, st)
    ensures NoRepeats(Preference(st, k))
    ensures forall id :: id in Preference(st, k) <==> exists p :: p in st.ring && st.nodes[p] == id
    ensures forall id :: id in Preference(st, k) ==> id in st.members
  {
    ClockwiseElements(st.ring, k);
    var walk := Clockwise(st.ring, k);
    DistinctFacts(Owners(st.nodes, walk));
    OwnersElements(st.nodes, walk);
    hide Clockwise, Distinct, NoRepeats;
  }

  lemma OwnersElements(nodes: map<nat, string>, points: seq<nat>)
    requires forall p :: p in points ==> p in nodes
    ensures forall id :: id in Owners(nodes, points) <==> exists p :: p in points && nodes[p] == id
  {
    var owners := Owners(nodes, points);
    forall id ensures id in owners <==> exists p :: p in points && nodes[p] == id {
      if id in owners {
        var i :| 0 <= i < |owners| && owners[i] == id;
        assert points[i] in points;
      }
      if p :| p in points && nodes[p] == id {
        var i :| 0 <= i < |points| && points[i] == p;
        assert owners[i] == id;
      }
    }
  }

  /* ---- without collisions ---- */

  function PointsOf(h: Hashing, ids: set<string>): set<nat> {
    set id, p | id in ids && p in h.Points(id) :: p
  }

  /** The one state the members allow: their points in order, each owned by
      the member it belongs to. */
  ghost predicate Canonical(h: Hashing, st: State) {
    && StrictlySorted(st.ring)
    && Elements(st.ring) == st.nodes.Keys == PointsOf(h, st.members)
    && forall id, p :: id in st.members && p in h.Points(id) ==> st.nodes[p] == id
  }

  lemma CanonicalUnique(h: Hashing, a: State, b: State)
    requires Canonical(h, a) && Canonical(h, b) && a.members == b.members
    ensures a == b
  {
    StrictlySortedUnique(a.ring, b.ring);
    forall p | p in a.nodes ensures a.nodes[p] == b.nodes[p] {
      var id :| id in a.members && p in h.Points(id);
    }
    assert a.nodes == b.nodes;
  }

  lemma CanonicalConsistent(h: Hashing, st: State)
    requires Canonical(h, st)
    ensures Consistent(h, st)
  {
    assert forall p :: p in st.ring <==> p in Elements(st.ring);
    forall p | p in st.nodes ensures st.nodes[p] in st.members && p in h.Points(st.nodes[p]) {
      var id :| id in st.members && p in h.Points(id);
    }
  }

  /** Collision-freedom seen from the sets of points. */
  ghost predicate Apart(h: Hashing, ids: set<string>) {
    && (forall a, b, p :: a in ids && b in ids && p in h.Points(a) && p in h.Points(b) ==> a == b)
    && (forall a :: a in ids ==> NoRepeats(h.PointSeq(a)))
  }

  lemma PointsApart(h: Hashing, ids: set<string>)
    requires h.CollisionFree(ids)
    ensures Apart(h, ids)
  {
    forall a, b, p | a in ids && b in ids && p in h.Points(a) && p in h.Points(b) ensures a == b {
      var i :| 0 <= i < h.replicas && p == h.Point(a, i);
      var j :| 0 <= j < h.replicas && p == h.Point(b, j);
    }
    forall a | a in ids ensures NoRepeats(h.PointSeq(a)) {
      forall i, j | 0 <= i < j < h.replicas ensures h.PointSeq(a)[i] != h.PointSeq(a)[j] {
        assert h.Point(a, i) != h.Point(a, j);
      }
    }
  }

  lemma PointSeqElements(h: Hashing, id: string)
    ensures Elements(h.PointSeq(id)) == h.Points(id)
  {
    var s := h.PointSeq(id);
    forall p ensures p in Elements(s) <==> p in h.Points(id) {
      if p in s {
        var i :| 0 <= i < |s| && s[i] == p;
        assert h.Point(id, i) in h.Points(id);
      }
      if p in h.Points(id) {
        var i :| 0 <= i < h.replicas && p == h.Point(id, i);
        assert s[i] == p;
      }
    }
  }

  lemma {:induction false} PointsOfSize(h: Hashing, ids: set<string>)
    requires Apart(h, ids)
    ensures |PointsOf(h, ids)| == h.replicas * |ids|
  {
    if ids == {} {
      assert PointsOf(h, ids) == {};
    } else {
      var id :| id in ids;
      var rest := ids - {id};
      assert ids == rest + {id};
      ApartSubset(h, rest, ids);
      PointsOfSize(h, rest);
      MorePoints(h, rest, id);
      OneMoreTime(h.replicas, |rest|);
    }
  }

  lemma ApartSubset(h: Hashing, ids: set<string>, more: set<string>)
    requires ids <= more && Apart(h, more)
    ensures Apart(h, ids)
  {}

  lemma MorePoints(h: Hashing, ids: set<string>, id: string)
    requires id !in ids && Apart(h, ids + {id})
    ensures |PointsOf(h, ids + {id})| == |PointsOf(h, ids)| + h.replicas
  {
    PointsOfMore(h, ids, id);
    PointSeqElements(h, id);
    NoRepeatsCount(h.PointSeq(id));
    assert PointsOf(h, ids) !! h.Points(id);
  }

  lemma OneMoreTime(r: nat, m: nat)
    ensures r * (m + 1) == r * m + r
  {}

  lemma CanonicalSize(h: Hashing, st: State)
    requires Canonical(h, st) && h.CollisionFree(st.members)
    ensures |st.ring| == h.replicas * |st.members|
  {
    PointsApart(h, st.members);
    PointsOfSize(h, st.members);
    NoRepeatsCount(st.ring);
  }

  lemma AddCanonical(h: Hashing, st: State, id: string)
    requires Canonical(h, st) && h.CollisionFree(st.members + {id})
    ensures Canonical(h, AddSpec(h, st, id))
  {
    if id !in st.members {
      var st' := AddSpec(h, st, id);
      PointsApart(h, st'.members);
      PointSeqElements(h, id);
      AddRing(st.ring, h.PointSeq(id));
      PointsOfMore(h, st.members, id);
    }
  }

  lemma PointsOfMore(h: Hashing, ids: set<string>, id: string)
    ensures PointsOf(h, ids + {id}) == PointsOf(h, ids) + h.Points(id)
  {}

  lemma AddRing(ring: seq<nat>, more: seq<nat>)
    requires StrictlySorted(ring) && NoRepeats(more) && Elements(ring) !! Elements(more)
    ensures StrictlySorted(Sort(ring + more))
    ensures Elements(Sort(ring + more)) == Elements(ring) + Elements(more)
  {
    var all := ring + more;
    forall i, j | 0 <= i < j < |all| ensures all[i] != all[j] {
      if i < |ring| <= j {
        assert all[i] in Elements(ring) && all[j] in Elements(more);
      }
    }
    SameMultiset(all, Sort(all));
    assert Elements(Sort(all)) == Elements(all) == Elements(ring) + Elements(more);
  }

  lemma RemoveCanonical(h: Hashing, st: State, id: string)
    requires Canonical(h, st) && h.CollisionFree(st.members)
    ensures !RemovePanics(h, st, id)
    ensures Canonical(h, RemoveSpec(h, st, id))
  {
    if id in st.members {
      CanonicalSize(h, st);
      AtLeastOnce(h.replicas, |st.members|);
      var st' := RemoveSpec(h, st, id);
      PointsApart(h, st.members);
      assert PointsOf(h, st'.members) == PointsOf(h, st.members) - h.Points(id);
      KeepSorted(st.ring, st'.nodes.Keys);
      KeepElements(st.ring, st'.nodes.Keys);
      assert Elements(st'.ring) == Elements(st.ring) * st'.nodes.Keys;
    }
  }

  lemma AtLeastOnce(r: nat, m: nat)
    requires m >= 1
    ensures r * m >= r
  {}

  /** At every moment of the run the members' virtual nodes are collision-free. */
  ghost predicate Clean(h: Hashing, ops: seq<Op>) {
    forall i :: 0 <= i <= |ops| ==> h.CollisionFree(MembersAfter(ops[..i]))
  }

  lemma CleanInit(h: Hashing, ops: seq<Op>)
    requires Clean(h, ops)
    ensures h.CollisionFree(MembersAfter(ops))
    ensures ops != [] ==> Clean(h, ops[..|ops|-1]) && h.CollisionFree(MembersAfter(ops[..|ops|-1]))
  {
    assert ops[..|ops|] == ops;
    if ops != [] {
      var init := ops[..|ops|-1];
      forall i | 0 <= i <= |init| ensures h.CollisionFree(MembersAfter(init[..i])) {
        assert init[..i] == ops[..i];
      }
    }
  }

  lemma {:induction false} CleanRun(h: Hashing, ops: seq<Op>)
    requires Clean(h, ops)
    ensures Run(h, ops).Running?
    ensures Canonical(h, Run(h, ops).st)
    ensures Run(h, ops).st.members == MembersAfter(ops)
    ensures |Run(h, ops).st.ring| == h.replicas * |MembersAfter(ops)|
  {
    if ops != [] {
      var init := ops[..|ops|-1];
      CleanInit(h, ops);
      CleanRun(h, init);
      hide Clean, Canonical, AddSpec, RemoveSpec, RemovePanics, Hashing.CollisionFree;
      match ops[|ops|-1]
      case Join(id) => AddCanonical(h, Run(h, init).st, id);
      case Leave(id) => RemoveCanonical(h, Run(h, init).st, id);
    } else {
      CleanInit(h, ops);
    }
    CanonicalSize(h, Run(h, ops).st);
  }

  /** Ring and owner map depend on who is in, not on how they came and went. */
  lemma HistoryIndependence(h: Hashing, ops1: seq<Op>, ops2: seq<Op>)
    requires Clean(h, ops1) && Clean(h, ops2) && MembersAfter(ops1) == MembersAfter(ops2)
    ensures Run(h, ops1) == Run(h, ops2)
  {
    CleanRun(h, ops1);
    CleanRun(h, ops2);
    CanonicalUnique(h, Run(h, ops1).st, Run(h, ops2).st);
  }

  /* ---- what a lookup returns, and what a join or a leave changes ---- */

  function AtMost(n: int, cap: nat): int {
    if n > cap then cap else n
  }

  /** What `GetN` returns (its contract in `Ring`; on an empty ring both are empty). */
  function Replicas(st: State, k: nat, n: int): seq<string>
    requires Owned(st)
  {
    Take(Preference(st, k), AtMost(n, |st.members|))
  }

  lemma {:induction false} FirstDistinct(s: seq<string>)
    requires s != []
    ensures Distinct(s) != [] && Distinct(s)[0] == s[0]
  {
    if |s| > 1 {
      FirstDistinct(s[..|s|-1]);
    }
  }

  lemma {:induction false} Boundary(ring: seq<nat>, k: nat) returns (at: nat)
    requires Sorted(ring)
    ensures at <= |ring|
    ensures forall i :: 0 <= i < at ==> ring[i] < k
    ensures forall i :: at <= i < |ring| ==> k <= ring[i]
  {
    if ring == [] || k <= ring[0] {
      at := 0;
    } else {
      at := Boundary(ring[1..], k);
      at := at + 1;
    }
  }

  /** The first member clockwise owns the point responsible for the key. */
  lemma FirstIsSuccessor(st: State, k: nat)
    requires Owned(st) && Sorted(st.ring) && st.ring != []
    ensures Preference(st, k) != []
    ensures exists p :: IsSuccessor(Elements(st.ring), k, p) && Preference(st, k)[0] == st.nodes[p]
  {
    var at := Boundary(st.ring, k);
    ClockwiseIsRotation(st.ring, k, at);
    ClockwiseElements(st.ring, k);
    FirstDistinct(Owners(st.nodes, Clockwise(st.ring, k)));
    var p := if at < |st.ring| then st.ring[at] else st.ring[0];
    assert Clockwise(st.ring, k)[0] == p;
    assert IsSuccessor(Elements(st.ring), k, p);
  }

  /** Without collisions `GetN` always comes back, with exactly
      min(n, members) different members, the owner of the key first. */
  lemma ReplicasExact(h: Hashing, st: State, k: nat, n: int)
    requires Canonical(h, st) && h.replicas >= 1
    ensures Owned(st) && |Preference(st, k)| == |st.members|
    ensures var r := Replicas(st, k, n);
      && |r| == (if n <= 0 then 0 else if n > |st.members| then |st.members| else n)
      && NoRepeats(r)
      && (forall id :: id in r ==> id in st.members)
      && (r != [] ==> r[0] == Preference(st, k)[0])
  {
    CanonicalConsistent(h, st);
    GetNTerminates(h, st, k);
    PreferenceElements(h, st, k);
    forall id | id in st.members ensures exists p :: p in st.ring && st.nodes[p] == id {
      var p: nat := h.Point(id, 0);
      assert p in h.Points(id) && p in PointsOf(h, st.members) && p in Elements(st.ring);
    }
  }

  /** `small` is `big` without the points of some members. */
  ghost predicate Restricts(small: State, big: State) {
    && Owned(small) && Owned(big)
    && small.ring == Keep(big.ring, small.nodes.Keys)
    && (forall p :: p in big.ring ==> (p in small.nodes <==> big.nodes[p] in small.members))
    && (forall p :: p in small.ring ==> p in big.nodes && small.nodes[p] == big.nodes[p])
  }

  lemma PreferenceRestricted(small: State, big: State, k: nat)
    requires Restricts(small, big)
    ensures Preference(small, k) == Keep(Preference(big, k), small.members)
  {
    var r, s := big.ring, small.nodes.Keys;
    var w := Clockwise(r, k);
    ClockwiseElements(r, k);
    ClockwiseElements(small.ring, k);
    ClockwiseRestricted(r, s, k);
    OwnersRestricted(small, big, w);
    DistinctKeep(Owners(big.nodes, w), small.members);
  }

  lemma ClockwiseRestricted(r: seq<nat>, s: set<nat>, k: nat)
    ensures Clockwise(Keep(r, s), k) == Keep(Clockwise(r, k), s)
  {
    KeepElements(r, s);
    KeepConcat(Keep(r, From(r, k)), Keep(r, Below(r, k)), s);
    KeepKeep(r, From(r, k), s);
    KeepKeep(r, Below(r, k), s);
    KeepKeep(r, s, From(Keep(r, s), k));
    KeepKeep(r, s, Below(Keep(r, s), k));
    KeepSame(r, From(r, k) * s, s * From(Keep(r, s), k));
    KeepSame(r, Below(r, k) * s, s * Below(Keep(r, s), k));
  }

  lemma {:induction false} OwnersRestricted(small: State, big: State, w: seq<nat>)
    requires Restricts(small, big) && forall p :: p in w ==> p in big.ring
    ensures forall p :: p in Keep(w, small.nodes.Keys) ==> p in small.nodes
    ensures Owners(small.nodes, Keep(w, small.nodes.Keys)) == Keep(Owners(big.nodes, w), small.members)
  {
    KeepElements(w, small.nodes.Keys);
    if w != [] {
      var init, p := w[..|w|-1], w[|w|-1];
      assert w == init + [p] && p in w;
      OwnersRestricted(small, big, init);
      OwnersSnoc(big.nodes, init, p);
      KeepSnoc(Owners(big.nodes, init), big.nodes[p], small.members);
      KeepSnoc(init, p, small.nodes.Keys);
      if p in small.nodes {
        OwnersSnoc(small.nodes, Keep(init, small.nodes.Keys), p);
        KeepElements(big.ring, small.nodes.Keys);
        assert p in small.ring;
      }
    }
  }

  lemma OwnersSnoc(nodes: map<nat, string>, w: seq<nat>, p: nat)
    requires p in nodes && forall q :: q in w ==> q in nodes
    ensures Owners(nodes, w + [p]) == Owners(nodes, w) + [nodes[p]]
  {}

  lemma RemoveRestricts(h: Hashing, st: State, id: string)
    requires Canonical(h, st) && h.CollisionFree(st.members)
    ensures !RemovePanics(h, st, id) && Restricts(RemoveSpec(h, st, id), st)
  {
    RemoveCanonical(h, st, id);
    CanonicalConsistent(h, st);
    var st' := RemoveSpec(h, st, id);
    if id in st.members {
      KeepElements(st.ring, st'.nodes.Keys);
      forall p | p in st.ring ensures p in st'.nodes <==> st.nodes[p] in st'.members {
        assert p in h.Points(st.nodes[p]);
      }
    } else {
      KeepAll(st.ring, st.nodes.Keys);
    }
  }

  lemma LeavePreference(h: Hashing, st: State, x: string, k: nat)
    requires Canonical(h, st) && h.CollisionFree(st.members) && h.replicas >= 1
    ensures Canonical(h, RemoveSpec(h, st, x)) && Owned(st) && Owned(RemoveSpec(h, st, x))
    ensures Preference(RemoveSpec(h, st, x), k) == Keep(Preference(st, k), st.members - {x})
    ensures |Preference(RemoveSpec(h, st, x), k)| == |st.members - {x}|
  {
    RemoveCanonical(h, st, x);
    RemoveRestricts(h, st, x);
    var st' := RemoveSpec(h, st, x);
    assert st'.members == st.members - {x};
    PreferenceRestricted(st', st, k);
    ReplicasExact(h, st', k, 0);
  }

  /** A leaving member changes nothing for the keys it did not own ... */
  lemma LeaveKeepsOwners(h: Hashing, st: State, x: string, k: nat)
    requires Canonical(h, st) && h.CollisionFree(st.members) && h.replicas >= 1
    requires Owned(st) && Preference(st, k) != [] && Preference(st, k)[0] != x
    ensures Owned(RemoveSpec(h, st, x)) && Preference(RemoveSpec(h, st, x), k) != []
    ensures Preference(RemoveSpec(h, st, x), k)[0] == Preference(st, k)[0]
  {
    LeavePreference(h, st, x, k);
    CanonicalConsistent(h, st);
    PreferenceElements(h, st, k);
    assert Preference(st, k)[0] in Preference(st, k);
    FirstKept(Preference(st, k), st.members - {x});
  }

  /** ... and in every replica list gives up only its own place. */
  lemma LeaveKeepsReplicas(h: Hashing, st: State, x: string, k: nat, n: int)
    requires Canonical(h, st) && h.CollisionFree(st.members) && h.replicas >= 1
    ensures Canonical(h, RemoveSpec(h, st, x)) && Owned(st) && Owned(RemoveSpec(h, st, x))
    ensures Keep(Replicas(st, k, n), st.members - {x}) <= Replicas(RemoveSpec(h, st, x), k, n)
  {
    LeavePreference(h, st, x, k);
    var rest := st.members - {x};
    SubsetCount(rest, st.members);
    TakeRestricted(Preference(st, k), Preference(RemoveSpec(h, st, x), k), rest, n, |st.members|);
  }

  /** A joining member is the only one that can displace a replica. */
  lemma JoinDisplacesOnlyForItself(h: Hashing, st: State, x: string, k: nat, n: int)
    requires Canonical(h, st) && h.replicas >= 1
    requires x !in st.members && h.CollisionFree(st.members + {x})
    ensures Canonical(h, AddSpec(h, st, x)) && Owned(st) && Owned(AddSpec(h, st, x))
    ensures Keep(Replicas(AddSpec(h, st, x), k, n), st.members) <= Replicas(st, k, n)
    ensures forall id :: id in Replicas(AddSpec(h, st, x), k, n) ==> id == x || id in Replicas(st, k, n)
  {
    AddCanonical(h, st, x);
    var big := AddSpec(h, st, x);
    RemoveRestricts(h, big, x);
    RemoveCanonical(h, big, x);
    assert RemoveSpec(h, big, x).members == st.members;
    CanonicalUnique(h, RemoveSpec(h, big, x), st);
    PreferenceRestricted(st, big, k);
    ReplicasExact(h, st, k, n);
    ReplicasExact(h, big, k, n);
    SubsetCount(st.members, big.members);
    TakeRestricted(Preference(big, k), Preference(st, k), st.members, n, |big.members|);
    var r := Replicas(big, k, n);
    KeepElements(r, st.members);
    forall id | id in r && id != x ensures id in Replicas(st, k, n) {
      assert id in Keep(r, st.members);
    }
  }

  lemma TakeRestricted(big: seq<string>, small: seq<string>, keep: set<string>, n: int, cap: nat)
    requires small == Keep(big, keep) && |small| == |keep| <= cap
    ensures Keep(Take(big, AtMost(n, cap)), keep) <= Take(small, AtMost(n, |keep|))
  {
    var r := Take(big, AtMost(n, cap));
    KeepPrefix(r, big, keep);
    KeepShortens(r, keep);
  }

  lemma {:induction false} FirstKept(s: seq<string>, keep: set<string>)
    requires s != [] && s[0] in keep
    ensures Keep(s, keep) != [] && Keep(s, keep)[0] == s[0]
  {
    if |s| > 1 {
      FirstKept(s[..|s|-1], keep);
    }
  }

  /** Keys of virtual nodes tell members apart, and numbers up to the first surrogate. */
  lemma VirtualNodeKeysDiffer(a: string, b: string, i: nat, j: nat)
    requires i <= 0xD800 && j <= 0xD800
    ensures VirtualNodeKey(a, i) == VirtualNodeKey(b, j) <==> a == b && i == j
  {
    if VirtualNodeKey(a, i) == VirtualNodeKey(b, j) {
      var s, t := VirtualNodeKey(a, i), VirtualNodeKey(b, j);
      assert |s| == |a| + 2 && |t| == |b| + 2;
      assert a == s[..|a|] && b == t[..|b|];
      assert s[|a|+1] == t[|b|+1];
    }
  }

  ghost predicate KeysDiffer(id: string, replicas: int) {
    forall i: nat, j: nat :: i < j < replicas ==> VirtualNodeKey(id, i) != VirtualNodeKey(id, j)
  }

  /** The keys of one member are pairwise different exactly up to 0xD801 virtual
      nodes: all surrogates make the same key. */
  lemma KeysDifferExactly(id: string, replicas: int)
    ensures KeysDiffer(id, replicas) <==> replicas <= 0xD801
  {
    if replicas <= 0xD801 {
      forall i: nat, j: nat | i < j < replicas ensures VirtualNodeKey(id, i) != VirtualNodeKey(id, j) {
        VirtualNodeKeysDiffer(id, id, i, j);
      }
    } else {
      assert VirtualNodeKey(id, 0xD800) == VirtualNodeKey(id, 0xD801);
    }
  }

  /** So beyond that the points of a member collide under every hash. */
  lemma TooManyReplicasCollide(h: Hashing, id: string)
    ensures h.CollisionFree({id}) ==> h.replicas <= 0xD801
  {
    if h.replicas > 0xD801 {
      assert VirtualNodeKey(id, 0xD800) == VirtualNodeKey(id, 0xD801);
      assert h.Point(id, 0xD800) == h.Point(id, 0xD801);
    }
  }

  /** Points are free of collisions exactly if the hash tells the keys apart and no
      two virtual nodes of one member have the same key. */
  lemma CollisionFreeExactly(h: Hashing, ids: set<string>)
    ensures h.CollisionFree(ids) <==>
      && (ids == {} || h.replicas <= 0xD801)
      && forall a, b, i: nat, j: nat ::
           a in ids && b in ids && i < h.replicas && j < h.replicas && VirtualNodeKey(a, i) != VirtualNodeKey(b, j)
           ==> h.Point(a, i) != h.Point(b, j)
  {
    if h.CollisionFree(ids) && ids != {} {
      var id :| id in ids;
      assert h.CollisionFree({id});
      TooManyReplicasCollide(h, id);
    } else if h.replicas <= 0xD801 {
      forall a, b, i: nat, j: nat | a in ids && b in ids && i < h.replicas && j < h.replicas
        ensures VirtualNodeKey(a, i) == VirtualNodeKey(b, j) ==> a == b && i == j
      {
        VirtualNodeKeysDiffer(a, b, i, j);
      }
    }
  }
}
