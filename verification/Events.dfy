/** Events and download counters (internal/events/store.go): event keys count
    down, so that the key order of the database is newest first; counters of
    several instances are merged by taking maxima. */
module Events {
  import opened Seqs
  import opened Lex
  import opened Digests
  import opened Metadata
  import opened Sums

  const MAX_INT64: nat := 0x7FFF_FFFF_FFFF_FFFF

  /* ---- fixed-width decimals ---- */

  function DigitChar(d: nat): char
    requires d < 10
  {
    '0' + d as char
  }

  function Decimal(n: nat): (r: string)
    ensures |r| >= 1
  {
    if n < 10 then [DigitChar(n)] else Decimal(n / 10) + [DigitChar(n % 10)]
  }

  /** `%0<width>d` */
  function Padded(n: nat, width: nat): string {
    Repeat('0', width - |Decimal(n)|) + Decimal(n)
  }

  /** The key of what happens at `t` nanoseconds after 1970. */
  function ReverseTimestamp(t: nat): string
    requires t <= MAX_INT64
  {
    Padded(MAX_INT64 - t, 19)
  }

  function Fixed(n: nat, width: nat): (r: string)
    ensures |r| == width
  {
    if width == 0 then "" else Fixed(n / 10, width - 1) + [DigitChar(n % 10)]
  }

  function Pow10(k: nat): nat {
    if k == 0 then 1 else 10 * Pow10(k - 1)
  }

  lemma {:induction false} FixedZero(k: nat)
    ensures Fixed(0, k) == Repeat('0', k)
  {
    if k > 0 {
      FixedZero(k - 1);
      assert Repeat('0', k) == Repeat('0', k - 1) + ['0'];
    }
  }

  lemma {:induction false} PaddedIsFixed(n: nat, k: nat)
    requires k >= 1 && n < Pow10(k)
    ensures Padded(n, k) == Fixed(n, k)
  {
    if n < 10 {
      assert n / 10 == 0;
      FixedZero(k - 1);
    } else {
      assert Pow10(1) == 10 && k >= 2;
      assert n / 10 < Pow10(k - 1);
      PaddedIsFixed(n / 10, k - 1);
      assert Padded(n, k) == Repeat('0', k - 1 - |Decimal(n / 10)|) + Decimal(n / 10) + [DigitChar(n % 10)];
    }
  }

  /** Strings of one length compare by their fronts, then by the last character. */
  lemma {:induction false} LeqSnoc(a: string, b: string, x: char, y: char)
    requires |a| == |b|
    ensures Leq(a + [x], b + [y]) <==> if a == b then x <= y else Leq(a, b)
  {
    if a == "" {
      assert [x][1..] == "" && a + [x] == [x] && b + [y] == [y];
    } else {
      assert (a + [x])[1..] == a[1..] + [x] && (b + [y])[1..] == b[1..] + [y];
      assert a == [a[0]] + a[1..] && b == [b[0]] + b[1..];
      LeqSnoc(a[1..], b[1..], x, y);
    }
  }

  lemma {:induction false} FixedOrder(n: nat, m: nat, k: nat)
    requires n < Pow10(k) && m < Pow10(k)
    ensures Leq(Fixed(n, k), Fixed(m, k)) <==> n <= m
    ensures Fixed(n, k) == Fixed(m, k) <==> n == m
  {
    if k > 0 {
      assert n / 10 < Pow10(k - 1) && m / 10 < Pow10(k - 1);
      FixedOrder(n / 10, m / 10, k - 1);
      LeqSnoc(Fixed(n / 10, k - 1), Fixed(m / 10, k - 1), DigitChar(n % 10), DigitChar(m % 10));
      assert Fixed(n, k)[..k-1] == Fixed(n / 10, k - 1) && Fixed(m, k)[..k-1] == Fixed(m / 10, k - 1);
      assert Fixed(n, k)[k-1] == DigitChar(n % 10) && Fixed(m, k)[k-1] == DigitChar(m % 10);
    }
  }

  lemma MaxFits()
    ensures MAX_INT64 < Pow10(19)
  {
    assert Pow10(4) == 10000;
    assert Pow10(8) == 100000000;
    assert Pow10(12) == 1000000000000;
    assert Pow10(16) == 10000000000000000;
  }

  /** Key order is the reverse of time order, and keys have 19 characters. */
  lemma ReverseOrder(t: nat, u: nat)
    requires t <= MAX_INT64 && u <= MAX_INT64
    ensures Leq(ReverseTimestamp(t), ReverseTimestamp(u)) <==> u <= t
    ensures ReverseTimestamp(t) == ReverseTimestamp(u) <==> t == u
    ensures |ReverseTimestamp(t)| == 19
  {
    MaxFits();
    PaddedIsFixed(MAX_INT64 - t, 19);
    PaddedIsFixed(MAX_INT64 - u, 19);
    FixedOrder(MAX_INT64 - t, MAX_INT64 - u, 19);
  }

  /* ---- listing events ---- */

  datatype Event = Event(id: string, kind: string, details: string)

  const EVENT := "ev:"

  /** The stored events that decode and pass the filter, as a set of IDs. */
  function Matching(db: Db, decode: Bytes -> Option<Event>, filter: string): set<string> {
    set id | id in Suffixes(db, EVENT) && Selected(db, decode, filter, id)
  }

  function EventAt(db: Db, decode: Bytes -> Option<Event>, id: string): Option<Event> {
    if EVENT + id !in db then None
    else match db[EVENT + id] case Raw(data) => decode(data) case _ => None
  }

  predicate Selected(db: Db, decode: Bytes -> Option<Event>, filter: string, id: string) {
    match EventAt(db, decode, id) case None => false case Some(ev) => filter == "" || ev.kind == filter
  }

  /** The IDs that `ListEvents` delivers. */
  function Listed(db: Db, decode: Bytes -> Option<Event>, limit: int, filter: string): seq<string> {
    var all := Keep(InOrder(Suffixes(db, EVENT)), Matching(db, decode, filter));
    if limit > 0 then Take(all, limit) else all
  }

  class Store {
    const metadata: MetadataStore
    const encode: Event -> Bytes
    const decode: Bytes -> Option<Event>

    constructor (metadata: MetadataStore, encode: Event -> Bytes, decode: Bytes -> Option<Event>)
      ensures this.metadata == metadata && this.encode == encode && this.decode == decode
    { this.metadata, this.encode, this.decode := metadata, encode, decode; }

    method RecordEvent(kind: string, details: string, now: nat)
      requires now <= MAX_INT64
      modifies metadata
      ensures metadata.db == old(metadata.db)[EVENT + ReverseTimestamp(now) :=
        Raw(encode(Event(ReverseTimestamp(now), kind, details)))]
    {
      var ev := Event(ReverseTimestamp(now), kind, details);
      metadata.PutRaw(EVENT + ev.id, encode(ev));
    }

    /** An ID that is already there is left alone. */
    method ImportEvent(ev: Event)
      modifies metadata
      ensures metadata.db == if EVENT + ev.id in old(metadata.db) then old(metadata.db)
                             else old(metadata.db)[EVENT + ev.id := Raw(encode(ev))]
    {
      var key := EVENT + ev.id;
      if key in metadata.db {
        return;
      }
      metadata.PutRaw(key, encode(ev));
    }

    method ListEvents(limit: int, filter: string) returns (events: seq<Event>)
      ensures var ids := Listed(metadata.db, decode, limit, filter);
        && |events| == |ids|
        && forall i :: 0 <= i < |ids| ==> EventAt(metadata.db, decode, ids[i]) == Some(events[i])
    {
      hide InOrder, Suffixes, Matching;
      var ids := metadata.ScanSuffixes(EVENT);
      ghost var matching, taken := Matching(metadata.db, decode, filter), [];
      events := [];
      for i := 0 to |ids|
        invariant taken == Keep(ids[..i], matching)
        invariant |events| == |taken| && (limit > 0 ==> |taken| < limit)
        invariant forall j :: 0 <= j < |taken| ==> EventAt(metadata.db, decode, taken[j]) == Some(events[j])
      {
        assert ids[..i+1] == ids[..i] + [ids[i]] && ids == ids[..i+1] + ids[i+1..];
        KeepSnoc(ids[..i], ids[i], matching);
        KeepConcat(ids[..i+1], ids[i+1..], matching);
        ScannedId(metadata.db, decode, filter, ids, i);
        var ev := EventAt(metadata.db, decode, ids[i]);
        if ev.None? {
          continue;
        }
        if filter != "" && ev.value.kind != filter {
          continue;
        }
        events := events + [ev.value];
        taken := taken + [ids[i]];
        if limit > 0 && |events| >= limit {
          return;
        }
      }
      assert ids[..|ids|] == ids;
    }
  }

  lemma ScannedId(db: Db, decode: Bytes -> Option<Event>, filter: string, ids: seq<string>, i: nat)
    requires ids == InOrder(Suffixes(db, EVENT)) && i < |ids|
    ensures ids[i] in Matching(db, decode, filter) <==> Selected(db, decode, filter, ids[i])
  {
    InOrderElements(Suffixes(db, EVENT));
    assert ids[i] in Elements(ids);
  }

  /** The list is in strictly increasing key order, holds only matching events,
      and what it leaves out comes after all of it, once the limit is reached. */
  lemma ListedIsFirst(db: Db, decode: Bytes -> Option<Event>, limit: int, filter: string)
    ensures var ids := Listed(db, decode, limit, filter);
      && Increasing(ids) && (limit > 0 ==> |ids| <= limit)
      && (forall id :: id in ids ==> id in Matching(db, decode, filter))
      && (forall id :: id in Matching(db, decode, filter) && id !in ids ==>
            limit > 0 && |ids| == limit && forall j :: 0 <= j < |ids| ==> Leq(ids[j], id) && ids[j] != id)
  {
    var keys, matching := InOrder(Suffixes(db, EVENT)), Matching(db, decode, filter);
    var all, ids := Keep(keys, matching), Listed(db, decode, limit, filter);
    InOrderIncreasing(Suffixes(db, EVENT));
    KeepIncreasing(keys, matching);
    KeepElements(keys, matching);
    assert forall j :: 0 <= j < |ids| ==> ids[j] == all[j] && all[j] in all;
    forall id | id in matching && id !in ids
      ensures limit > 0 && |ids| == limit && forall j :: 0 <= j < |ids| ==> Leq(ids[j], id) && ids[j] != id
    {
      assert id in Elements(keys) && id in all;
      var m :| 0 <= m < |all| && all[m] == id;
      assert m >= |ids|;
    }
  }

  /** A stored event of the kind asked for, or of any kind if none is, is listed
      unless the limit is reached with events at smaller keys. */
  lemma ListedUnlessFull(db: Db, decode: Bytes -> Option<Event>, limit: int, filter: string, id: string, data: Bytes, ev: Event)
    requires EVENT + id in db && db[EVENT + id] == Raw(data) && decode(data) == Some(ev)
    ensures (ev.kind == filter || filter == "") && id !in Listed(db, decode, limit, filter) ==>
      limit > 0 && |Listed(db, decode, limit, filter)| == limit
      && forall j :: 0 <= j < limit ==> Leq(Listed(db, decode, limit, filter)[j], id)
    ensures ev.kind != filter && filter != "" ==> id !in Listed(db, decode, limit, filter)
  {
    SuffixIs(db, EVENT, id);
    ListedIsFirst(db, decode, limit, filter);
    hide Listed;
    assert id in Matching(db, decode, filter) <==> ev.kind == filter || filter == "";
  }

  /** An event that has been recorded is listed under its kind. */
  lemma RecordedIsListed(db: Db, encode: Event -> Bytes, decode: Bytes -> Option<Event>, kind: string, details: string, now: nat)
    requires now <= MAX_INT64
    ensures var ev := Event(ReverseTimestamp(now), kind, details);
      decode(encode(ev)) == Some(ev) ==> ev.id in Listed(db[EVENT + ev.id := Raw(encode(ev))], decode, 0, kind)
  {
    var ev := Event(ReverseTimestamp(now), kind, details);
    if decode(encode(ev)) == Some(ev) {
      ListedUnlessFull(db[EVENT + ev.id := Raw(encode(ev))], decode, 0, kind, ev.id, encode(ev), ev);
    }
  }

  ghost predicate Precedes(ids: seq<string>, a: string, b: string) {
    exists i, j :: 0 <= i < j < |ids| && ids[i] == a && ids[j] == b
  }

  /** Events are listed newest first: of two matching events recorded at
      different times the newer comes earlier, and is listed if the older is. */
  lemma NewestFirst(db: Db, decode: Bytes -> Option<Event>, limit: int, filter: string, t: nat, u: nat)
    requires u < t <= MAX_INT64
    requires ReverseTimestamp(t) in Matching(db, decode, filter)
    requires ReverseTimestamp(u) in Listed(db, decode, limit, filter)
    ensures Precedes(Listed(db, decode, limit, filter), ReverseTimestamp(t), ReverseTimestamp(u))
  {
    var ids, a, b := Listed(db, decode, limit, filter), ReverseTimestamp(t), ReverseTimestamp(u);
    ListedIsFirst(db, decode, limit, filter);
    ReverseOrder(t, u);
    ReverseOrder(u, t);
    assert Leq(a, b) && !Leq(b, a);
    var j :| 0 <= j < |ids| && ids[j] == b;
    assert a in ids;
    var i :| 0 <= i < |ids| && ids[i] == a;
    assert i != j && (j < i ==> Leq(b, a));
  }

  /* ---- counters ---- */

  type Counts = map<string, int>

  datatype Counter = Counter(total: int, bytes: int, last: int, byVersion: Counts, byArtifact: Counts)

  const ZERO := Counter(0, 0, 0, map[], map[])

  datatype Download = Download(version: string, artifact: string, size: int, time: int)

  function At(m: Counts, k: string): int {
    if k in m then m[k] else 0
  }

  function Max(a: int, b: int): int {
    if b > a then b else a
  }

  function Record(c: Counter, d: Download): Counter {
    Counter(c.total + 1, c.bytes + d.size, d.time,
            c.byVersion[d.version := At(c.byVersion, d.version) + 1],
            c.byArtifact[d.artifact := At(c.byArtifact, d.artifact) + 1])
  }

  /** `if v > current[k] { current[k] = v }` for every entry; an absent key reads as 0. */
  function MergeCounts(a: Counts, b: Counts): Counts {
    map k | k in a.Keys + b.Keys && (k in a || b[k] > 0) :: if k in b then Max(At(a, k), b[k]) else a[k]
  }

  function Merge(c: Counter, s: Counter): Counter {
    Counter(Max(c.total, s.total), Max(c.bytes, s.bytes), Max(c.last, s.last),
            MergeCounts(c.byVersion, s.byVersion), MergeCounts(c.byArtifact, s.byArtifact))
  }

  lemma MergeOneMore(a: Counts, done: Counts, k: string, v: int)
    requires k !in done
    ensures var r := MergeCounts(a, done);
      MergeCounts(a, done[k := v]) == if v > At(r, k) then r[k := v] else r
  {
  }

  const DOWNLOAD := "dl:"

  class CounterStore {
    var current: Counter
    var records: map<string, Download>

    constructor ()
      ensures current == ZERO && records == map[]
    { current, records := ZERO, map[]; }

    /** A record under the key of the moment, and one step of the counter. */
    method RecordDownload(d: Download, now: nat)
      requires now <= MAX_INT64
      modifies this
      ensures records == old(records)[DOWNLOAD + ReverseTimestamp(now) := d]
      ensures current == Record(old(current), d)
    {
      records := records[DOWNLOAD + ReverseTimestamp(now) := d];
      current := current.(total := current.total + 1, bytes := current.bytes + d.size, last := d.time);
      current := current.(byVersion := current.byVersion[d.version := At(current.byVersion, d.version) + 1]);
      current := current.(byArtifact := current.byArtifact[d.artifact := At(current.byArtifact, d.artifact) + 1]);
    }

    /** The walk over a map, in whatever order. */
    method MergeInto(a: Counts, b: Counts) returns (r: Counts)
      ensures r == MergeCounts(a, b)
    {
      r := a;
      var rest := b.Keys;
      ghost var done: Counts := map[];
      while rest != {}
        invariant done.Keys == b.Keys - rest && rest <= b.Keys
        invariant forall k :: k in done ==> done[k] == b[k]
        invariant r == MergeCounts(a, done)
        decreases rest
      {
        var k :| k in rest;
        MergeOneMore(a, done, k, b[k]);
        if b[k] > At(r, k) {
          r := r[k := b[k]];
        }
        rest := rest - {k};
        done := done[k := b[k]];
      }
      assert done == b;
    }

    method ImportDownloadStats(stats: Option<Counter>)
      modifies this`current
      ensures current == match stats case None => old(current) case Some(s) => Merge(old(current), s)
    {
      if stats.None? {
        return;
      }
      var s := stats.value;
      if s.total > current.total {
        current := current.(total := s.total);
      }
      if s.bytes > current.bytes {
        current := current.(bytes := s.bytes);
      }
      if s.last > current.last {
        current := current.(last := s.last);
      }
      var versions := MergeInto(current.byVersion, s.byVersion);
      var artifacts := MergeInto(current.byArtifact, s.byArtifact);
      current := current.(byVersion := versions, byArtifact := artifacts);
    }
  }

  /** Counts are positive, as counting and merging leave them. */
  ghost predicate Positive(m: Counts) {
    forall k :: k in m ==> m[k] > 0
  }

  ghost predicate Proper(c: Counter) {
    Positive(c.byVersion) && Positive(c.byArtifact)
  }

  ghost predicate BelowCounts(a: Counts, b: Counts) {
    forall k :: k in a ==> k in b && a[k] <= b[k]
  }

  ghost predicate Below(a: Counter, b: Counter) {
    && a.total <= b.total && a.bytes <= b.bytes && a.last <= b.last
    && BelowCounts(a.byVersion, b.byVersion) && BelowCounts(a.byArtifact, b.byArtifact)
  }

  lemma CountsIsLeast(a: Counts, b: Counts, c: Counts)
    requires Positive(a) && Positive(b)
    ensures BelowCounts(a, MergeCounts(a, b)) && BelowCounts(b, MergeCounts(a, b)) && Positive(MergeCounts(a, b))
    ensures BelowCounts(a, c) && BelowCounts(b, c) ==> BelowCounts(MergeCounts(a, b), c)
  {
  }

  /** Merging is the least upper bound: it is above both, and below whatever is. */
  lemma MergeIsLeast(a: Counter, b: Counter, c: Counter)
    requires Proper(a) && Proper(b)
    ensures Below(a, Merge(a, b)) && Below(b, Merge(a, b)) && Proper(Merge(a, b))
    ensures Below(a, c) && Below(b, c) ==> Below(Merge(a, b), c)
  {
    CountsIsLeast(a.byVersion, b.byVersion, c.byVersion);
    CountsIsLeast(a.byArtifact, b.byArtifact, c.byArtifact);
    hide MergeCounts, BelowCounts, Positive;
  }

  lemma BelowAntisym(a: Counter, b: Counter)
    requires Below(a, b) && Below(b, a)
    ensures a == b
  {
    assert a.byVersion == b.byVersion;
    assert a.byArtifact == b.byArtifact;
  }

  lemma BelowTrans(a: Counter, b: Counter, c: Counter)
    requires Below(a, b) && Below(b, c)
    ensures Below(a, c)
  {
  }

  lemma MergeCommutes(a: Counter, b: Counter)
    requires Proper(a) && Proper(b)
    ensures Merge(a, b) == Merge(b, a)
  {
    MergeIsLeast(a, b, Merge(b, a));
    MergeIsLeast(b, a, Merge(a, b));
    hide Merge, Proper;
    BelowAntisym(Merge(a, b), Merge(b, a));
  }

  lemma MergeAbsorbs(a: Counter, b: Counter)
    requires Proper(a) && Proper(b) && Below(b, a)
    ensures Merge(a, b) == a
  {
    MergeIsLeast(a, b, a);
    BelowRefl(a);
    hide Merge, Proper;
    BelowAntisym(Merge(a, b), a);
  }

  lemma BelowRefl(a: Counter)
    ensures Below(a, a)
  {
  }

  /** One grouping is below the other. */
  lemma MergeRegroups(a: Counter, b: Counter, c: Counter)
    requires Proper(a) && Proper(b) && Proper(c)
    ensures Below(Merge(Merge(a, b), c), Merge(a, Merge(b, c)))
  {
    var bc := Merge(b, c);
    MergeIsLeast(b, c, bc);
    var all := Merge(a, bc);
    MergeIsLeast(a, bc, all);
    hide Merge, Below, Proper;
    BelowTrans(b, bc, all);
    BelowTrans(c, bc, all);
    MergeIsLeast(a, b, all);
    MergeIsLeast(Merge(a, b), c, all);
  }

  /** The order, number and grouping of imports do not matter. */
  lemma MergeLaws(a: Counter, b: Counter, c: Counter)
    requires Proper(a) && Proper(b) && Proper(c)
    ensures Merge(a, b) == Merge(b, a)
    ensures Merge(Merge(a, b), c) == Merge(a, Merge(b, c))
    ensures Merge(Merge(a, b), b) == Merge(a, b)
  {
    MergeIsLeast(a, b, a);
    MergeIsLeast(b, c, a);
    hide Merge, Below, Proper;
    MergeCommutes(a, b);
    MergeAbsorbs(Merge(a, b), b);
    MergeRegroups(a, b, c);
    MergeRegroups(c, b, a);
    MergeCommutes(b, c);
    MergeCommutes(Merge(a, b), c);
    MergeCommutes(a, Merge(b, c));
    BelowAntisym(Merge(Merge(a, b), c), Merge(a, Merge(b, c)));
  }

  /** The total is covered by the versions, and by the artifacts. */
  ghost predicate Covered(c: Counter) {
    Proper(c) && 0 <= c.total <= Sum(c.byVersion) && c.total <= Sum(c.byArtifact)
  }

  datatype Step = Recorded(d: Download) | Imported(stats: Counter)

  function Apply(c: Counter, s: Step): Counter {
    match s case Recorded(d) => Record(c, d) case Imported(stats) => Merge(c, stats)
  }

  function RunSteps(steps: seq<Step>): Counter {
    if steps == [] then ZERO else Apply(RunSteps(steps[..|steps|-1]), steps[|steps|-1])
  }

  lemma MergeCovered(a: Counter, b: Counter)
    requires Covered(a) && Covered(b)
    ensures Covered(Merge(a, b))
  {
    MergeIsLeast(a, b, Merge(a, b));
    var m := Merge(a, b);
    SumMonotone(a.byVersion, m.byVersion);
    SumMonotone(b.byVersion, m.byVersion);
    SumMonotone(a.byArtifact, m.byArtifact);
    SumMonotone(b.byArtifact, m.byArtifact);
  }

  lemma RecordCovered(c: Counter, d: Download)
    requires Proper(c)
    ensures Proper(Record(c, d))
    ensures Sum(Record(c, d).byVersion) == Sum(c.byVersion) + 1
    ensures Sum(Record(c, d).byArtifact) == Sum(c.byArtifact) + 1
  {
    SumSet(c.byVersion, d.version, At(c.byVersion, d.version) + 1);
    SumSet(c.byArtifact, d.artifact, At(c.byArtifact, d.artifact) + 1);
  }

  /** Whatever mix of downloads and imports: the total never exceeds the sum over
      versions nor over artifacts; without imports all three are the number of
      downloads. */
  lemma {:induction false} TotalsAreCovered(steps: seq<Step>)
    requires forall i :: 0 <= i < |steps| && steps[i].Imported? ==> Covered(steps[i].stats)
    ensures Covered(RunSteps(steps))
    ensures (forall i :: 0 <= i < |steps| ==> steps[i].Recorded?) ==>
      RunSteps(steps).total == Sum(RunSteps(steps).byVersion) == Sum(RunSteps(steps).byArtifact) == |steps|
  {
    if steps != [] {
      var init, last := steps[..|steps|-1], steps[|steps|-1];
      TotalsAreCovered(init);
      match last {
        case Recorded(d) => RecordCovered(RunSteps(init), d);
        case Imported(stats) => MergeCovered(RunSteps(init), stats);
      }
    }
  }

  predicate AllRecorded(steps: seq<Step>) {
    forall i :: 0 <= i < |steps| ==> steps[i].Recorded?
  }

  /** Without imports a version's count is the number of its downloads ... */
  lemma {:induction false} VersionsAreCounted(steps: seq<Step>, version: string, ofVersion: set<Step>)
    requires AllRecorded(steps) && forall i :: 0 <= i < |steps| ==> (steps[i] in ofVersion <==> steps[i].d.version == version)
    ensures At(RunSteps(steps).byVersion, version) == |Keep(steps, ofVersion)|
    ensures version in RunSteps(steps).byVersion <==> Keep(steps, ofVersion) != []
  {
    if steps != [] {
      VersionsAreCounted(steps[..|steps|-1], version, ofVersion);
    }
  }

  /** ... and likewise for artifacts; ... */
  lemma {:induction false} ArtifactsAreCounted(steps: seq<Step>, artifact: string, ofArtifact: set<Step>)
    requires AllRecorded(steps) && forall i :: 0 <= i < |steps| ==> (steps[i] in ofArtifact <==> steps[i].d.artifact == artifact)
    ensures At(RunSteps(steps).byArtifact, artifact) == |Keep(steps, ofArtifact)|
    ensures artifact in RunSteps(steps).byArtifact <==> Keep(steps, ofArtifact) != []
  {
    if steps != [] {
      ArtifactsAreCounted(steps[..|steps|-1], artifact, ofArtifact);
    }
  }

  function Sizes(steps: seq<Step>): map<int, int> {
    map i | 0 <= i < |steps| && steps[i].Recorded? :: steps[i].d.size
  }

  /** ... bytes are the sum of all sizes, and the last time is that of the last download. */
  lemma {:induction false} BytesAreSummed(steps: seq<Step>)
    requires AllRecorded(steps)
    ensures RunSteps(steps).bytes == Sum(Sizes(steps))
    ensures RunSteps(steps).last == if steps == [] then 0 else steps[|steps|-1].d.time
  {
    if steps == [] {
      assert Sizes(steps) == map[];
    } else {
      var init, last := steps[..|steps|-1], steps[|steps|-1];
      BytesAreSummed(init);
      SumSet(Sizes(init), |init|, last.d.size);
      assert Sizes(steps) == Sizes(init)[|init| := last.d.size];
    }
  }

  lemma MergeBelow(a: Counts, b: Counts)
    requires Positive(a) && Positive(b)
    ensures MergeCounts(a, b) == b <==> BelowCounts(a, b)
    ensures MergeCounts(a, b) == a <==> BelowCounts(b, a)
  {
    var m := MergeCounts(a, b);
    assert BelowCounts(a, m) && BelowCounts(b, m);
    if BelowCounts(a, b) {
      assert m.Keys == b.Keys;
      assert forall k :: k in b ==> m[k] == b[k];
    }
    if BelowCounts(b, a) {
      assert m.Keys == a.Keys;
      assert forall k :: k in a ==> m[k] == a[k];
    }
  }

  /** The greater of two sums is the sum of the maxima exactly if one map is below the other. */
  lemma MergeKeepsSum(a: Counts, b: Counts)
    requires Positive(a) && Positive(b)
    ensures Max(Sum(a), Sum(b)) == Sum(MergeCounts(a, b)) <==> BelowCounts(a, b) || BelowCounts(b, a)
  {
    var m := MergeCounts(a, b);
    assert BelowCounts(a, m) && BelowCounts(b, m) && Positive(m);
    MergeBelow(a, b);
    hide MergeCounts;
    SumMonotone(a, m);
    SumMonotone(b, m);
    if Sum(a) == Sum(m) {
      SumStrict(a, m);
    }
    if Sum(b) == Sum(m) {
      SumStrict(b, m);
    }
  }

  /** An import keeps the total equal to the sum over versions exactly if one of
      the two instances has seen, per version, all that the other has; and likewise
      for artifacts. */
  lemma ImportKeepsTotals(a: Counter, b: Counter)
    requires Proper(a) && Proper(b)
    ensures a.total == Sum(a.byVersion) && b.total == Sum(b.byVersion) ==>
      (Merge(a, b).total == Sum(Merge(a, b).byVersion) <==>
         BelowCounts(a.byVersion, b.byVersion) || BelowCounts(b.byVersion, a.byVersion))
    ensures a.total == Sum(a.byArtifact) && b.total == Sum(b.byArtifact) ==>
      (Merge(a, b).total == Sum(Merge(a, b).byArtifact) <==>
         BelowCounts(a.byArtifact, b.byArtifact) || BelowCounts(b.byArtifact, a.byArtifact))
  {
    MergeKeepsSum(a.byVersion, b.byVersion);
    MergeKeepsSum(a.byArtifact, b.byArtifact);
    hide BelowCounts, MergeCounts, Positive;
  }

  /** Two instances that each saw one download, of different versions, lose one. */
  lemma ImportLosesTotals(v: string, w: string, x: string, size: int, time: int)
    requires v != w
    ensures var a, b := Record(ZERO, Download(v, x, size, time)), Record(ZERO, Download(w, x, size, time));
      Merge(a, b).total == 1 && Sum(Merge(a, b).byVersion) == 2
  {
    var a, b := Record(ZERO, Download(v, x, size, time)), Record(ZERO, Download(w, x, size, time));
    assert Merge(a, b).byVersion == map[][v := 1][w := 1];
    SumSet(map[][v := 1], w, 1);
    SumSet(map[], v, 1);
  }
}
