/** What the LRU cache of internal/storage/cache.go does, as functions on the
    list of its entries, most recently used first, and what follows about whole
    traces.  The clock is an input; time 0 is Go's zero time. */
module Lru {
  import opened Digests
  import opened Seqs

  datatype Entry<V> = Entry(key: string, value: V, expiresAt: int)

  predicate Expired<V>(e: Entry<V>, now: int) {
    e.expiresAt != 0 && now > e.expiresAt
  }

  function Find<V>(es: seq<Entry<V>>, key: string): (r: Option<Entry<V>>)
    ensures r.Some? ==> r.value in es && r.value.key == key
    ensures r.None? ==> forall e :: e in es ==> e.key != key
  {
    if es == [] then None else if es[0].key == key then Some(es[0]) else Find(es[1..], key)
  }

  function Others<V(==)>(es: seq<Entry<V>>, key: string): set<Entry<V>> {
    set e | e in es && e.key != key
  }

  function Without<V(==)>(es: seq<Entry<V>>, key: string): seq<Entry<V>> {
    Keep(es, Others(es, key))
  }

  /** An expired entry is dropped, any other moves to the front. */
  function GetSpec<V(==)>(es: seq<Entry<V>>, key: string, now: int): (seq<Entry<V>>, Option<V>) {
    match Find(es, key)
    case None => (es, None)
    case Some(e) => if Expired(e, now) then (Without(es, key), None) else ([e] + Without(es, key), Some(e.value))
  }

  /** Replacing an entry evicts nothing. */
  function SetSpec<V(==)>(capacity: nat, es: seq<Entry<V>>, key: string, value: V, ttl: int, now: int): seq<Entry<V>> {
    var e := Entry(key, value, if ttl > 0 then now + ttl else 0);
    if Find(es, key).Some? then [e] + Without(es, key) else Take([e] + es, capacity)
  }

  datatype Op<V> = Get(key: string) | Set(key: string, value: V, ttl: int) | Delete(key: string) | Clear

  function Apply<V(==)>(capacity: nat, es: seq<Entry<V>>, op: Op<V>, now: int): seq<Entry<V>> {
    match op
    case Get(k) => GetSpec(es, k, now).0
    case Set(k, v, ttl) => SetSpec(capacity, es, k, v, ttl, now)
    case Delete(k) => Without(es, k)
    case Clear => []
  }

  type Trace<V> = seq<(Op<V>, int)>

  function Run<V(==)>(capacity: nat, trace: Trace<V>): seq<Entry<V>> {
    if trace == [] then []
    else Apply(capacity, Run(capacity, trace[..|trace|-1]), trace[|trace|-1].0, trace[|trace|-1].1)
  }

  /* ---- representation ---- */

  ghost predicate Keyed<V>(es: seq<Entry<V>>) {
    forall i, j :: 0 <= i < j < |es| ==> es[i].key != es[j].key
  }

  /** At most `capacity` entries, one per key. */
  ghost predicate Fits<V>(capacity: nat, es: seq<Entry<V>>) {
    |es| <= capacity && Keyed(es)
  }

  lemma FindAt<V>(es: seq<Entry<V>>, i: nat)
    requires i < |es| && Keyed(es)
    ensures Find(es, es[i].key) == Some(es[i])
  {
    if i > 0 {
      FindAt(es[1..], i - 1);
    }
  }

  /** Removing a key from distinct keys removes the one position it is at. */
  lemma WithoutAt<V>(es: seq<Entry<V>>, i: nat)
    requires i < |es| && Keyed(es)
    ensures Without(es, es[i].key) == es[..i] + es[i+1..]
  {
    var keep, front, back := Others(es, es[i].key), es[..i], es[i+1..];
    assert es == front + [es[i]] + back;
    forall x | x in front ensures x in keep {
      var j :| 0 <= j < |front| && front[j] == x;
      assert es[j] == x;
    }
    forall x | x in back ensures x in keep {
      var j :| 0 <= j < |back| && back[j] == x;
      assert es[i+1+j] == x;
    }
    KeepAround(front, es[i], back, keep);
  }

  lemma KeepAround<V>(front: seq<Entry<V>>, x: Entry<V>, back: seq<Entry<V>>, keep: set<Entry<V>>)
    requires (forall e :: e in front ==> e in keep) && (forall e :: e in back ==> e in keep) && x !in keep
    ensures Keep(front + [x] + back, keep) == front + back
  {
    hide Keep;
    KeepConcat(front + [x], back, keep);
    KeepConcat(front, [x], keep);
    KeepAll(front, keep);
    KeepNone([x], keep);
    KeepAll(back, keep);
  }

  lemma WithoutMiss<V>(es: seq<Entry<V>>, key: string)
    requires Find(es, key).None?
    ensures Without(es, key) == es
  {
    KeepAll(es, Others(es, key));
  }

  lemma WithoutFits<V>(capacity: nat, es: seq<Entry<V>>, key: string)
    requires Fits(capacity, es)
    ensures Fits(capacity, Without(es, key))
    ensures forall e :: e in Without(es, key) ==> e in es && e.key != key
    ensures forall e :: e in es && e.key != key ==> e in Without(es, key)
    ensures |Without(es, key)| == |es| - if Find(es, key).Some? then 1 else 0
  {
    KeepElements(es, Others(es, key));
    match Find(es, key) {
      case None => WithoutMiss(es, key);
      case Some(e) =>
        var i :| 0 <= i < |es| && es[i] == e;
        WithoutAt(es, i);
    }
  }

  lemma PrependFits<V>(capacity: nat, es: seq<Entry<V>>, e: Entry<V>)
    requires Fits(capacity, es) && forall x :: x in es ==> x.key != e.key
    ensures Fits(capacity, Take([e] + es, capacity)) && Fits(capacity + 1, [e] + es)
  {
    var r := [e] + es;
    forall i, j | 0 <= i < j < |r| ensures r[i].key != r[j].key {
      assert r[j] == es[j-1] && es[j-1] in es;
    }
  }

  lemma FrontFits<V>(capacity: nat, es: seq<Entry<V>>, e: Entry<V>)
    requires Fits(capacity, es) && Find(es, e.key).Some?
    ensures Fits(capacity, [e] + Without(es, e.key))
  {
    var rest := Without(es, e.key);
    WithoutFits(capacity, es, e.key);
    PrependFits(capacity, rest, e);
  }

  lemma ApplyFits<V>(capacity: nat, es: seq<Entry<V>>, op: Op<V>, now: int)
    requires Fits(capacity, es)
    ensures Fits(capacity, Apply(capacity, es, op, now))
  {
    match op {
      case Get(k) =>
        WithoutFits(capacity, es, k);
        if Find(es, k).Some? {
          FrontFits(capacity, es, Find(es, k).value);
        }
      case Set(k, v, ttl) =>
        var e := Entry(k, v, if ttl > 0 then now + ttl else 0);
        if Find(es, k).Some? {
          FrontFits(capacity, es, e);
        } else {
          PrependFits(capacity, es, e);
        }
      case Delete(k) => WithoutFits(capacity, es, k);
      case Clear =>
    }
  }

  lemma {:induction false} RunFits<V>(capacity: nat, trace: Trace<V>)
    ensures Fits(capacity, Run(capacity, trace))
  {
    if trace != [] {
      RunFits(capacity, trace[..|trace|-1]);
      ApplyFits(capacity, Run(capacity, trace[..|trace|-1]), trace[|trace|-1].0, trace[|trace|-1].1);
    }
  }

  /* ---- stack inclusion ---- */

  /** The same entries in the same order, some left out. */
  ghost predicate Within<V>(small: seq<Entry<V>>, large: seq<Entry<V>>) {
    small == Keep(large, Elements(small))
  }

  ghost predicate Included<V>(k: nat, small: seq<Entry<V>>, m: nat, large: seq<Entry<V>>) {
    && Fits(k, small) && Fits(m, large)
    && Within(small, large)
    && |large| - |small| <= m - k
  }

  lemma WithinElements<V>(small: seq<Entry<V>>, large: seq<Entry<V>>)
    requires Within(small, large)
    ensures forall e :: e in small ==> e in large
  {
    KeepElements(large, Elements(small));
  }

  /** A hit in the small cache is the same hit in the large one. */
  lemma SameHit<V>(k: nat, small: seq<Entry<V>>, m: nat, large: seq<Entry<V>>, key: string)
    requires Included(k, small, m, large) && Find(small, key).Some?
    ensures Find(large, key) == Find(small, key)
  {
    var e := Find(small, key).value;
    WithinElements(small, large);
    var i :| 0 <= i < |large| && large[i] == e;
    FindAt(large, i);
  }

  lemma WithinWithout<V>(small: seq<Entry<V>>, large: seq<Entry<V>>, key: string)
    requires Within(small, large)
    ensures Within(Without(small, key), Without(large, key))
  {
    var a, b := Others(small, key), Others(large, key);
    WithinElements(small, large);
    KeepElements(small, a);
    KeepKeep(large, Elements(small), a);
    KeepKeep(large, b, Elements(Without(small, key)));
    KeepSame(large, Elements(small) * a, b * Elements(Without(small, key)));
  }

  lemma WithinPrepend<V>(small: seq<Entry<V>>, large: seq<Entry<V>>, e: Entry<V>)
    requires Within(small, large) && e !in large
    ensures Within([e] + small, [e] + large)
  {
    var keep := Elements([e] + small);
    KeepConcat([e], large, keep);
    KeepAll([e], keep);
    KeepSame(large, keep, Elements(small));
  }

  /** Entries beyond both capacities leave the inclusion as it is. */
  lemma WithinTake<V>(k: nat, small: seq<Entry<V>>, m: nat, large: seq<Entry<V>>)
    requires Within(small, large) && NoRepeats(large) && |large| - |small| <= m - k
    ensures Within(Take(small, k), Take(large, m))
  {
    var keep := Elements(small);
    if |large| <= m {
      assert Take(large, m) == large;
      PrefixWithin(small, large, k);
    } else {
      var front, back := large[..m], large[m..];
      assert Take(large, m) == front && NoRepeats(front);
      assert large == front + back;
      KeepConcat(front, back, keep);
      KeepShortens(back, keep);
      var a := Keep(front, keep);
      assert small == a + Keep(back, keep);
      assert Take(small, k) == Take(a, k);
      KeepElements(front, keep);
      KeepElements(back, keep);
      KeepSame(front, keep, Elements(a));
      PrefixWithin(a, front, k);
    }
  }

  lemma PrefixWithin<V>(small: seq<Entry<V>>, large: seq<Entry<V>>, k: nat)
    requires Within(small, large) && NoRepeats(large)
    ensures Within(Take(small, k), large)
  {
    var p := Take(small, k);
    var rest := small[|p|..];
    assert small == p + rest;
    KeepNoRepeats(large, Elements(small));
    KeepKeep(large, Elements(small), Elements(p));
    assert Elements(small) * Elements(p) == Elements(p);
    KeepConcat(p, rest, Elements(p));
    KeepAll(p, Elements(p));
    forall x | x in rest ensures x !in Elements(p) {
      var i :| 0 <= i < |rest| && rest[i] == x;
      assert small[|p| + i] == x;
    }
    KeepNone(rest, Elements(p));
  }

  lemma IncludedGet<V>(k: nat, small: seq<Entry<V>>, m: nat, large: seq<Entry<V>>, key: string, now: int)
    requires Included(k, small, m, large)
    ensures Included(k, GetSpec(small, key, now).0, m, GetSpec(large, key, now).0)
    ensures GetSpec(small, key, now).1.Some? ==> GetSpec(large, key, now).1 == GetSpec(small, key, now).1
  {
    IncludedWithout(k, small, m, large, key);
    ApplyFits(k, small, Get(key), now);
    ApplyFits(m, large, Get(key), now);
    WithoutFits(k, small, key);
    WithoutFits(m, large, key);
    if Find(small, key).Some? {
      SameHit(k, small, m, large, key);
      WithinPrepend(Without(small, key), Without(large, key), Find(small, key).value);
    } else {
      WithoutMiss(small, key);
      if Find(large, key).Some? {
        WithinMore(small, Without(large, key), Find(large, key).value);
      }
    }
  }

  lemma IncludedWithout<V>(k: nat, small: seq<Entry<V>>, m: nat, large: seq<Entry<V>>, key: string)
    requires Included(k, small, m, large)
    ensures Included(k, Without(small, key), m, Without(large, key))
  {
    WithinWithout(small, large, key);
    WithoutFits(k, small, key);
    WithoutFits(m, large, key);
    if Find(small, key).Some? {
      SameHit(k, small, m, large, key);
    }
  }

  /** The large list may gain an entry that the small one does not have. */
  lemma WithinMore<V>(small: seq<Entry<V>>, large: seq<Entry<V>>, e: Entry<V>)
    requires Within(small, large) && e !in small
    ensures Within(small, [e] + large)
  {
    KeepConcat([e], large, Elements(small));
    KeepNone([e], Elements(small));
  }

  lemma IncludedSet<V>(k: nat, small: seq<Entry<V>>, m: nat, large: seq<Entry<V>>, key: string, value: V, ttl: int, now: int)
    requires k <= m && Included(k, small, m, large)
    ensures Included(k, SetSpec(k, small, key, value, ttl, now), m, SetSpec(m, large, key, value, ttl, now))
  {
    var e := Entry(key, value, if ttl > 0 then now + ttl else 0);
    ApplyFits(k, small, Set(key, value, ttl), now);
    ApplyFits(m, large, Set(key, value, ttl), now);
    IncludedWithout(k, small, m, large, key);
    WithoutFits(m, large, key);
    WithinPrepend(Without(small, key), Without(large, key), e);
    hide Fits, Within;
    if Find(small, key).Some? {
      SameHit(k, small, m, large, key);
      WithoutSize(k, small, key);
      WithoutSize(m, large, key);
    } else {
      WithoutMiss(small, key);
      IncludedNew(k, small, m, large, e);
    }
  }

  lemma IncludedNew<V>(k: nat, small: seq<Entry<V>>, m: nat, large: seq<Entry<V>>, e: Entry<V>)
    requires k <= m && Fits(k, small) && Fits(m, large) && |large| - |small| <= m - k
    requires Within([e] + small, [e] + Without(large, e.key))
    ensures var large' := if Find(large, e.key).Some? then [e] + Without(large, e.key) else Take([e] + large, m);
      Within(Take([e] + small, k), large') && |large'| - |Take([e] + small, k)| <= m - k
  {
    WithoutFits(m, large, e.key);
    SetMiss(k, small, m, Without(large, e.key), e);
    if Find(large, e.key).None? {
      WithoutMiss(large, e.key);
    } else {
      assert Take([e] + Without(large, e.key), m) == [e] + Without(large, e.key);
    }
  }

  lemma WithoutSize<V>(capacity: nat, es: seq<Entry<V>>, key: string)
    requires Fits(capacity, es)
    ensures |Without(es, key)| == |es| - if Find(es, key).Some? then 1 else 0
  {
    WithoutFits(capacity, es, key);
  }

  /** The step in which the small cache takes a new key, and with it perhaps the
      large one. */
  lemma SetMiss<V>(k: nat, small: seq<Entry<V>>, m: nat, large: seq<Entry<V>>, e: Entry<V>)
    requires k <= m && Fits(k, small) && Fits(m, large) && |large| - |small| <= m - k
    requires forall x :: x in large ==> x.key != e.key
    requires Within([e] + small, [e] + large)
    ensures Within(Take([e] + small, k), Take([e] + large, m))
    ensures |Take([e] + large, m)| - |Take([e] + small, k)| <= m - k
  {
    var large' := [e] + large;
    assert NoRepeats(large') by {
      forall i, j | 0 <= i < j < |large'| ensures large'[i] != large'[j] {
        assert large'[j] in large;
        if i > 0 {
          assert large[i-1].key != large[j-1].key;
        }
      }
    }
    WithinTake(k, [e] + small, m, large');
  }

  /** Over every trace, a cache is a part, in the same order, of any larger one,
      so it hits only where the larger one hits, with the same value. */
  lemma {:induction false} StackInclusion<V>(k: nat, m: nat, trace: Trace<V>)
    requires k <= m
    ensures Included(k, Run(k, trace), m, Run(m, trace))
    ensures forall key, now {:trigger GetSpec(Run(k, trace), key, now)} ::
      GetSpec(Run(k, trace), key, now).1.Some? ==> GetSpec(Run(m, trace), key, now).1 == GetSpec(Run(k, trace), key, now).1
  {
    if trace != [] {
      var before, op, now := trace[..|trace|-1], trace[|trace|-1].0, trace[|trace|-1].1;
      StackInclusion(k, m, before);
      IncludedStep(k, Run(k, before), m, Run(m, before), op, now);
    }
    forall key, now ensures GetSpec(Run(k, trace), key, now).1.Some? ==>
      GetSpec(Run(m, trace), key, now).1 == GetSpec(Run(k, trace), key, now).1
    {
      IncludedGet(k, Run(k, trace), m, Run(m, trace), key, now);
    }
  }

  lemma IncludedStep<V>(k: nat, small: seq<Entry<V>>, m: nat, large: seq<Entry<V>>, op: Op<V>, now: int)
    requires k <= m && Included(k, small, m, large)
    ensures Included(k, Apply(k, small, op, now), m, Apply(m, large, op, now))
  {
    match op {
      case Get(key) => IncludedGet(k, small, m, large, key, now);
      case Set(key, v, ttl) => IncludedSet(k, small, m, large, key, v, ttl, now);
      case Delete(key) => IncludedWithout(k, small, m, large, key);
      case Clear =>
    }
  }

  /* ---- the last value set ---- */

  /** The entry last set for the key, unless deleted or cleared since. */
  function LastSet<V>(trace: Trace<V>, key: string): Option<Entry<V>> {
    if trace == [] then None
    else
      var (op, now) := trace[|trace|-1];
      match op
      case Set(k, v, ttl) =>
        if k == key then Some(Entry(k, v, if ttl > 0 then now + ttl else 0)) else LastSet(trace[..|trace|-1], key)
      case Delete(k) => if k == key then None else LastSet(trace[..|trace|-1], key)
      case Clear => None
      case Get(_) => LastSet(trace[..|trace|-1], key)
  }

  /** The operation sets the key to this entry, and no later one ends it. */
  predicate SetAt<V(==)>(trace: Trace<V>, i: nat, e: Entry<V>) {
    && i < |trace| && trace[i].0.Set? && trace[i].0.key == e.key && trace[i].0.value == e.value
    && e.expiresAt == (if trace[i].0.ttl > 0 then trace[i].1 + trace[i].0.ttl else 0)
    && forall j :: i < j < |trace| ==>
         trace[j].0 != Clear && trace[j].0 != Delete(e.key) && !(trace[j].0.Set? && trace[j].0.key == e.key)
  }

  lemma {:induction false} LastSetExactly<V>(trace: Trace<V>, e: Entry<V>)
    ensures LastSet(trace, e.key) == Some(e) <==> exists i: nat :: SetAt(trace, i, e)
  {
    if trace != [] {
      var n := |trace| - 1;
      var before, op := trace[..n], trace[n].0;
      LastSetExactly(before, e);
      forall i: nat | i < n ensures SetAt(trace, i, e) <==>
        (SetAt(before, i, e) && op != Clear && op != Delete(e.key) && !(op.Set? && op.key == e.key))
      {
        if SetAt(trace, i, e) {
          forall j | i < j < n ensures before[j] == trace[j] {}
          assert trace[n].0 == op;
        }
      }
      assert SetAt(trace, n, e) <==> op.Set? && op.key == e.key && LastSet(trace, e.key) == Some(e);
      if op.Get? || (op.Set? && op.key != e.key) || (op.Delete? && op.key != e.key) {
        if i: nat :| SetAt(trace, i, e) {
          assert i < n;
        }
        if i: nat :| SetAt(before, i, e) {
          assert SetAt(trace, i, e);
        }
      }
    }
  }

  /** What one operation can leave in the cache. */
  predicate From<V(==)>(es: seq<Entry<V>>, op: Op<V>, now: int, e: Entry<V>) {
    match op
    case Get(_) => e in es
    case Set(k, v, ttl) => e == Entry(k, v, if ttl > 0 then now + ttl else 0) || (e in es && e.key != k)
    case Delete(k) => e in es && e.key != k
    case Clear => false
  }

  lemma ApplyFrom<V>(capacity: nat, es: seq<Entry<V>>, op: Op<V>, now: int, e: Entry<V>)
    requires Fits(capacity, es) && e in Apply(capacity, es, op, now)
    ensures From(es, op, now, e)
  {
    match op {
      case Get(k) => WithoutFits(capacity, es, k);
      case Set(k, v, ttl) => WithoutFits(capacity, es, k);
      case Delete(k) => WithoutFits(capacity, es, k);
      case Clear =>
    }
  }

  /** Never anything but the last value set: no stale entry in any trace. */
  lemma {:induction false} EntriesAreLastSet<V>(capacity: nat, trace: Trace<V>)
    ensures forall e :: e in Run(capacity, trace) ==> LastSet(trace, e.key) == Some(e)
  {
    if trace != [] {
      var before, op, now := trace[..|trace|-1], trace[|trace|-1].0, trace[|trace|-1].1;
      EntriesAreLastSet(capacity, before);
      RunFits(capacity, before);
      forall e | e in Run(capacity, trace) ensures LastSet(trace, e.key) == Some(e) {
        ApplyFrom(capacity, Run(capacity, before), op, now, e);
      }
    }
  }

  lemma HitsAreLastSet<V>(capacity: nat, trace: Trace<V>, key: string, now: int)
    ensures GetSpec(Run(capacity, trace), key, now).1.Some? ==>
      && LastSet(trace, key).Some? && !Expired(LastSet(trace, key).value, now)
      && GetSpec(Run(capacity, trace), key, now).1.value == LastSet(trace, key).value.value
  {
    EntriesAreLastSet(capacity, trace);
  }

  /* ---- what survives ---- */

  function Touched<V>(trace: Trace<V>): set<string> {
    if trace == [] then {}
    else
      Touched(trace[..|trace|-1]) + match trace[|trace|-1].0
        case Get(k) => {k}
        case Set(k, _, _) => {k}
        case _ => {}
  }

  /** The entries in front of a key. */
  function Front<V>(es: seq<Entry<V>>, key: string): seq<Entry<V>> {
    if es == [] || es[0].key == key then [] else [es[0]] + Front(es[1..], key)
  }

  function KeysOf<V(==)>(es: seq<Entry<V>>): set<string> {
    set e | e in es :: e.key
  }

  /** Neither replaced, deleted, cleared, nor looked up after it expired. */
  predicate Spares<V>(op: Op<V>, now: int, e: Entry<V>) {
    match op
    case Get(k) => k == e.key ==> !Expired(e, now)
    case Set(k, _, _) => k != e.key
    case Delete(k) => k != e.key
    case Clear => false
  }

  lemma {:induction false} FrontPrefix<V>(es: seq<Entry<V>>, key: string)
    ensures Front(es, key) <= es
    ensures Find(es, key).Some? ==> |Front(es, key)| < |es| && es[|Front(es, key)|] == Find(es, key).value
  {
    if es != [] && es[0].key != key {
      FrontPrefix(es[1..], key);
      assert es == [es[0]] + es[1..];
    }
  }

  lemma {:induction false} DistinctKeys<V>(es: seq<Entry<V>>)
    requires Keyed(es)
    ensures |KeysOf(es)| == |es|
  {
    if es != [] {
      var init, last := es[..|es|-1], es[|es|-1];
      DistinctKeys(init);
      assert es == init + [last];
      assert KeysOf(es) == KeysOf(init) + {last.key};
    }
  }

  /** Leaving out others brings a key no further back. */
  lemma {:induction false} FrontKeep<V>(es: seq<Entry<V>>, keep: set<Entry<V>>, key: string)
    requires forall e :: e in es && e.key == key ==> e in keep
    ensures Find(Keep(es, keep), key) == Find(es, key)
    ensures KeysOf(Front(Keep(es, keep), key)) <= KeysOf(Front(es, key))
  {
    if es != [] {
      var head, tail := es[0], es[1..];
      assert es == [head] + tail;
      FrontKeep(tail, keep, key);
      KeepConcat([head], tail, keep);
      FrontPrepend(head, tail, key);
      FrontPrepend(head, Keep(tail, keep), key);
      if head in keep {
        KeepAll([head], keep);
      } else {
        KeepNone([head], keep);
        assert Keep(es, keep) == Keep(tail, keep);
      }
    }
  }

  lemma FrontPrepend<V>(e: Entry<V>, es: seq<Entry<V>>, key: string)
    ensures KeysOf(Front([e] + es, key)) == if e.key == key then {} else {e.key} + KeysOf(Front(es, key))
    ensures Find([e] + es, key) == if e.key == key then Some(e) else Find(es, key)
  {
    assert ([e] + es)[1..] == es;
  }

  lemma {:induction false} FrontTake<V>(es: seq<Entry<V>>, n: nat, key: string)
    requires |Front(es, key)| < n
    ensures Front(Take(es, n), key) == Front(es, key)
  {
    if es != [] {
      TakeTail(es, n);
      hide Take;
      if es[0].key != key {
        FrontTake(es[1..], n - 1, key);
      }
    }
  }

  lemma TakeTail<T>(s: seq<T>, n: nat)
    requires s != [] && n > 0
    ensures Take(s, n) != [] && Take(s, n)[0] == s[0] && Take(s, n)[1..] == Take(s[1..], n - 1)
  {
  }

  /** The entry is there, with only the given keys in front of it. */
  ghost predicate BehindOnly<V>(es: seq<Entry<V>>, e: Entry<V>, keys: set<string>) {
    Find(es, e.key) == Some(e) && KeysOf(Front(es, e.key)) <= keys
  }

  lemma BehindWithout<V>(es: seq<Entry<V>>, e: Entry<V>, keys: set<string>, k: string)
    requires BehindOnly(es, e, keys) && k != e.key
    ensures BehindOnly(Without(es, k), e, keys)
  {
    FrontKeep(es, Others(es, k), e.key);
  }

  lemma BehindPrepend<V>(es: seq<Entry<V>>, x: Entry<V>, e: Entry<V>, keys: set<string>)
    requires BehindOnly(es, e, keys) && x.key != e.key
    ensures BehindOnly([x] + es, e, keys + {x.key})
  {
    FrontPrepend(x, es, e.key);
  }

  lemma BehindTake<V>(capacity: nat, es: seq<Entry<V>>, e: Entry<V>, keys: set<string>)
    requires Fits(capacity + 1, es) && BehindOnly(es, e, keys) && |keys| < capacity
    ensures BehindOnly(Take(es, capacity), e, keys)
  {
    FrontPrefix(es, e.key);
    DistinctKeys(Front(es, e.key));
    SubsetCount(KeysOf(Front(es, e.key)), keys);
    FrontTake(es, capacity, e.key);
    FindAt(Take(es, capacity), |Front(es, e.key)|);
  }

  lemma StaysBehindGet<V>(es: seq<Entry<V>>, e: Entry<V>, keys: set<string>, k: string, now: int)
    requires BehindOnly(es, e, keys) && Spares(Op.Get(k), now, e) && (k == e.key || k in keys)
    ensures BehindOnly(GetSpec(es, k, now).0, e, keys)
  {
    if k == e.key {
      FrontPrepend(e, Without(es, k), k);
    } else {
      BehindWithout(es, e, keys, k);
      if Find(es, k).Some? {
        BehindPrepend(Without(es, k), Find(es, k).value, e, keys);
        assert keys + {k} == keys;
      }
    }
  }

  lemma StaysBehindSet<V>(capacity: nat, es: seq<Entry<V>>, e: Entry<V>, keys: set<string>, k: string, v: V, ttl: int, now: int)
    requires Fits(capacity, es) && BehindOnly(es, e, keys) && k != e.key && k in keys && |keys| < capacity
    ensures BehindOnly(SetSpec(capacity, es, k, v, ttl, now), e, keys)
  {
    var x := Entry(k, v, if ttl > 0 then now + ttl else 0);
    assert keys + {k} == keys;
    if Find(es, k).Some? {
      BehindWithout(es, e, keys, k);
      BehindPrepend(Without(es, k), x, e, keys);
    } else {
      BehindPrepend(es, x, e, keys);
      PrependFits(capacity, es, x);
      BehindTake(capacity, [x] + es, e, keys);
    }
  }

  /** Operations on other keys push an entry back by at most those keys. */
  lemma StaysBehind<V>(capacity: nat, es: seq<Entry<V>>, e: Entry<V>, keys: set<string>, op: Op<V>, now: int)
    requires Fits(capacity, es) && BehindOnly(es, e, keys) && Spares(op, now, e)
    requires |keys| < capacity
    requires op.Get? || op.Set? ==> op.key == e.key || op.key in keys
    ensures BehindOnly(Apply(capacity, es, op, now), e, keys)
  {
    match op {
      case Get(k) => StaysBehindGet(es, e, keys, k, now);
      case Set(k, v, ttl) => StaysBehindSet(capacity, es, e, keys, k, v, ttl, now);
      case Delete(k) => BehindWithout(es, e, keys, k);
    }
    hide BehindOnly, Fits, GetSpec, SetSpec, Without;
  }

  /** A value that was set stays until it is replaced, deleted or expired, as
      long as fewer than `capacity` other keys have been used since. */
  lemma {:induction false} Survives<V>(capacity: nat, before: Trace<V>, key: string, value: V, ttl: int, now: int, after: Trace<V>, keys: set<string>)
    requires Touched(after) - {key} <= keys
    requires |keys| < capacity
    requires forall i :: 0 <= i < |after| ==> Spares(after[i].0, after[i].1, Entry(key, value, if ttl > 0 then now + ttl else 0))
    ensures BehindOnly(Run(capacity, before + [(Set(key, value, ttl), now)] + after),
                       Entry(key, value, if ttl > 0 then now + ttl else 0), keys)
  {
    var e := Entry(key, value, if ttl > 0 then now + ttl else 0);
    var trace := before + [(Op.Set(key, value, ttl), now)] + after;
    if after == [] {
      assert trace[..|trace|-1] == before;
      var es := Run(capacity, before);
      assert Take([e] + es, capacity)[0] == e;
    } else {
      var init, last := after[..|after|-1], after[|after|-1];
      Survives(capacity, before, key, value, ttl, now, init, keys);
      assert trace[..|trace|-1] == before + [(Set(key, value, ttl), now)] + init;
      assert trace[|trace|-1] == last;
      RunFits(capacity, trace[..|trace|-1]);
      StaysBehind(capacity, Run(capacity, trace[..|trace|-1]), e, keys, last.0, last.1);
    }
  }

  /** Hence what a lookup returns after such a trace: the value, unless expired. */
  lemma GetAfterSet<V>(capacity: nat, before: Trace<V>, key: string, value: V, ttl: int, now: int, after: Trace<V>, later: int)
    requires |Touched(after) - {key}| < capacity
    requires forall i :: 0 <= i < |after| ==> Spares(after[i].0, after[i].1, Entry(key, value, if ttl > 0 then now + ttl else 0))
    ensures GetSpec(Run(capacity, before + [(Set(key, value, ttl), now)] + after), key, later).1 ==
      if ttl > 0 && now + ttl != 0 && later > now + ttl then None else Some(value)
  {
    Survives(capacity, before, key, value, ttl, now, after, Touched(after) - {key});
  }
}
