/** Facts about sequences that several components share: keeping only the
    elements of a set, dropping repetitions, sorted sequences of numbers. */
module Seqs {

  /** The subsequence of `s` whose elements lie in `keep`. */
  function Keep<T(==)>(s: seq<T>, keep: set<T>): seq<T> {
    if s == [] then []
    else Keep(s[..|s|-1], keep) + if s[|s|-1] in keep then [s[|s|-1]] else []
  }

  /** The first occurrences in `s`, in order. */
  function Distinct<T(==)>(s: seq<T>): seq<T> {
    if s == [] then []
    else if s[|s|-1] in s[..|s|-1] then Distinct(s[..|s|-1])
    else Distinct(s[..|s|-1]) + [s[|s|-1]]
  }

  ghost predicate NoRepeats<T>(s: seq<T>) {
    forall i, j :: 0 <= i < j < |s| ==> s[i] != s[j]
  }

  function Elements<T(==)>(s: seq<T>): set<T> {
    set x | x in s
  }

  lemma ElementsNext<T>(s: seq<T>, i: nat)
    requires i < |s|
    ensures Elements(s[..i+1]) == Elements(s[..i]) + {s[i]}
  {
    assert s[..i+1] == s[..i] + [s[i]];
  }

  lemma NewElement<T>(s: seq<T>, i: nat)
    requires NoRepeats(s) && i < |s|
    ensures s[i] !in Elements(s[..i])
  {}

  function Take<T>(s: seq<T>, n: int): (r: seq<T>)
    ensures |r| == if n <= 0 then 0 else if n <= |s| then n else |s|
  {
    if n <= 0 then [] else if n <= |s| then s[..n] else s
  }

  lemma {:induction false} KeepConcat<T>(a: seq<T>, b: seq<T>, keep: set<T>)
    ensures Keep(a + b, keep) == Keep(a, keep) + Keep(b, keep)
  {
    if b == [] {
      assert a + b == a;
    } else {
      assert (a + b)[..|a + b| - 1] == a + b[..|b|-1];
      KeepConcat(a, b[..|b|-1], keep);
    }
  }

  lemma {:induction false} KeepElements<T>(s: seq<T>, keep: set<T>)
    ensures forall x :: x in Keep(s, keep) <==> x in s && x in keep
  {
    if s != [] {
      KeepElements(s[..|s|-1], keep);
      assert s == s[..|s|-1] + [s[|s|-1]];
    }
  }

  lemma {:induction false} KeepAll<T>(s: seq<T>, keep: set<T>)
    requires forall x :: x in s ==> x in keep
    ensures Keep(s, keep) == s
  {
    if s != [] {
      assert s == s[..|s|-1] + [s[|s|-1]];
      KeepAll(s[..|s|-1], keep);
    }
  }

  lemma {:induction false} KeepNone<T>(s: seq<T>, keep: set<T>)
    requires forall x :: x in s ==> x !in keep
    ensures Keep(s, keep) == []
  {
    if s != [] {
      assert s == s[..|s|-1] + [s[|s|-1]];
      KeepNone(s[..|s|-1], keep);
    }
  }

  lemma {:induction false} KeepKeep<T>(s: seq<T>, a: set<T>, b: set<T>)
    ensures Keep(Keep(s, a), b) == Keep(s, a * b)
  {
    if s != [] {
      var init, last := s[..|s|-1], s[|s|-1];
      KeepKeep(init, a, b);
      KeepConcat(Keep(init, a), if last in a then [last] else [], b);
      assert Keep([last], b) == if last in b then [last] else [];
    }
  }

  /** `Keep` depends on the set only through the elements of the sequence. */
  lemma {:induction false} KeepSame<T>(s: seq<T>, a: set<T>, b: set<T>)
    requires forall x :: x in s ==> (x in a <==> x in b)
    ensures Keep(s, a) == Keep(s, b)
  {
    if s != [] {
      assert s == s[..|s|-1] + [s[|s|-1]];
      KeepSame(s[..|s|-1], a, b);
    }
  }

  lemma {:induction false} KeepNoRepeats<T>(s: seq<T>, keep: set<T>)
    requires NoRepeats(s)
    ensures NoRepeats(Keep(s, keep))
  {
    if s != [] {
      KeepNoRepeats(s[..|s|-1], keep);
      KeepElements(s[..|s|-1], keep);
    }
  }

  lemma {:induction false} DistinctFacts<T>(s: seq<T>)
    ensures NoRepeats(Distinct(s))
    ensures forall x :: x in Distinct(s) <==> x in s
    ensures |Distinct(s)| <= |s|
    ensures s != [] ==> Distinct(s) != [] && Distinct(s)[0] == s[0]
  {
    if s != [] {
      var init, last := s[..|s|-1], s[|s|-1];
      DistinctFacts(init);
      assert s == init + [last];
      assert forall x :: x in s <==> x in init || x == last;
      if last !in init {
        NoRepeatsMore(Distinct(init), last);
        assert Distinct(s) == Distinct(init) + [last];
      }
    }
  }

  lemma NoRepeatsMore<T>(s: seq<T>, x: T)
    requires NoRepeats(s) && x !in s
    ensures NoRepeats(s + [x])
  {}

  /** Dropping repetitions of a longer sequence only appends. */
  lemma {:induction false} DistinctPrefix<T>(a: seq<T>, b: seq<T>)
    requires a <= b
    ensures Distinct(a) <= Distinct(b)
    decreases |b|
  {
    if a == b {
    } else {
      assert a == b[..|b|-1][..|a|];
      DistinctPrefix(a, b[..|b|-1]);
    }
  }

  lemma KeepSnoc<T>(s: seq<T>, x: T, keep: set<T>)
    ensures x in keep ==> Keep(s + [x], keep) == Keep(s, keep) + [x]
    ensures x !in keep ==> Keep(s + [x], keep) == Keep(s, keep)
  {
    assert (s + [x])[..|s + [x]|-1] == s;
  }

  lemma DistinctSnoc<T>(s: seq<T>, x: T)
    ensures x !in s ==> Distinct(s + [x]) == Distinct(s) + [x]
    ensures x in s ==> Distinct(s + [x]) == Distinct(s)
  {
    assert (s + [x])[..|s + [x]|-1] == s;
  }

  /** Dropping elements and dropping repetitions commute. */
  lemma {:induction false} DistinctKeep<T>(s: seq<T>, keep: set<T>)
    ensures Distinct(Keep(s, keep)) == Keep(Distinct(s), keep)
  {
    if s != [] {
      var init, last := s[..|s|-1], s[|s|-1];
      DistinctKeep(init, keep);
      DistinctKeepSnoc(init, last, keep);
      assert s == init + [last];
    }
  }

  lemma {:induction false} DistinctKeepSnoc<T>(s: seq<T>, x: T, keep: set<T>)
    requires Distinct(Keep(s, keep)) == Keep(Distinct(s), keep)
    ensures Distinct(Keep(s + [x], keep)) == Keep(Distinct(s + [x]), keep)
  {
    KeepSnoc(s, x, keep);
    DistinctSnoc(s, x);
    KeepElements(s, keep);
    if x in keep {
      DistinctSnoc(Keep(s, keep), x);
    }
    if x !in s {
      KeepSnoc(Distinct(s), x, keep);
    }
  }

  lemma {:induction false} DistinctCount<T>(s: seq<T>)
    ensures |Distinct(s)| == |Elements(s)|
  {
    DistinctFacts(s);
    NoRepeatsCount(Distinct(s));
    assert Elements(Distinct(s)) == Elements(s);
  }

  lemma {:induction false} NoRepeatsCount<T>(s: seq<T>)
    requires NoRepeats(s)
    ensures |s| == |Elements(s)|
  {
    if s == [] {
    } else {
      var init := s[..|s|-1];
      NoRepeatsCount(init);
      assert s == init + [s[|s|-1]];
      assert Elements(s) == Elements(init) + {s[|s|-1]};
      assert s[|s|-1] !in Elements(init);
    }
  }

  lemma {:induction false} KeepPrefix<T>(a: seq<T>, b: seq<T>, keep: set<T>)
    requires a <= b
    ensures Keep(a, keep) <= Keep(b, keep)
  {
    assert b == a + b[|a|..];
    KeepConcat(a, b[|a|..], keep);
  }

  lemma {:induction false} KeepShortens<T>(s: seq<T>, keep: set<T>)
    ensures |Keep(s, keep)| <= |s|
  {
    if s != [] {
      KeepShortens(s[..|s|-1], keep);
    }
  }

  /* ---- sorted sequences of numbers ---- */

  ghost predicate Sorted(s: seq<nat>) {
    forall i, j :: 0 <= i < j < |s| ==> s[i] <= s[j]
  }

  ghost predicate StrictlySorted(s: seq<nat>) {
    forall i, j :: 0 <= i < j < |s| ==> s[i] < s[j]
  }

  /** What `sort.Slice` with `<` returns on numbers: the order leaves no choice. */
  function Sort(s: seq<nat>): (r: seq<nat>)
    ensures Sorted(r) && multiset(r) == multiset(s)
  {
    if s == [] then []
    else
      var init, last := s[..|s|-1], s[|s|-1];
      assert s == init + [last];
      InsertSorted(Sort(init), last);
      Insert(Sort(init), last)
  }

  function Insert(s: seq<nat>, x: nat): (r: seq<nat>)
    ensures multiset(r) == multiset(s) + multiset{x}
  {
    if s == [] || s[|s|-1] <= x then s + [x]
    else
      assert s == s[..|s|-1] + [s[|s|-1]];
      Insert(s[..|s|-1], x) + [s[|s|-1]]
  }

  lemma {:induction false} InsertSorted(s: seq<nat>, x: nat)
    requires Sorted(s)
    ensures Sorted(Insert(s, x))
    ensures forall i :: 0 <= i < |Insert(s, x)| ==> Insert(s, x)[i] == x || Insert(s, x)[i] in s
  {
    if s != [] && s[|s|-1] > x {
      var init, last := s[..|s|-1], s[|s|-1];
      InsertSorted(init, x);
      var r := Insert(init, x);
      forall i | 0 <= i < |r| ensures r[i] <= last && (r[i] == x || r[i] in s) {
        if r[i] != x {
          assert r[i] in init;
        }
      }
      assert Insert(s, x) == r + [last];
    }
  }

  lemma SameMultiset<T>(a: seq<T>, b: seq<T>)
    requires multiset(a) == multiset(b)
    ensures |a| == |b|
    ensures forall x :: x in a <==> x in b
    ensures NoRepeats(a) ==> NoRepeats(b)
  {
    assert |multiset(a)| == |multiset(b)|;
    assert forall x :: x in a <==> x in multiset(a);
    assert forall x :: x in b <==> x in multiset(b);
    if NoRepeats(a) {
      assert Elements(a) == Elements(b);
      NoRepeatsCount(a);
      CountNoRepeats(b);
    }
  }

  lemma {:induction false} CountNoRepeats<T>(s: seq<T>)
    requires |s| == |Elements(s)|
    ensures NoRepeats(s)
  {
    if s != [] {
      var init, last := s[..|s|-1], s[|s|-1];
      assert s == init + [last];
      assert Elements(s) == Elements(init) + {last};
      ElementsBound(init);
      CountNoRepeats(init);
    }
  }

  lemma {:induction false} ElementsBound<T>(s: seq<T>)
    ensures |Elements(s)| <= |s|
  {
    if s == [] {
      assert Elements(s) == {};
    } else {
      var init, last := s[..|s|-1], s[|s|-1];
      assert s == init + [last];
      assert Elements(s) == Elements(init) + {last};
      ElementsBound(init);
    }
  }

  lemma LastIsGreatest(s: seq<nat>, x: nat)
    requires StrictlySorted(s) && x in s
    ensures x <= s[|s|-1]
    ensures x in s[..|s|-1] <==> x != s[|s|-1]
  {
    var i :| 0 <= i < |s| && s[i] == x;
    if i < |s| - 1 {
      assert s[..|s|-1][i] == x;
    }
  }

  /** A strictly sorted sequence is determined by its elements. */
  lemma {:induction false} StrictlySortedUnique(a: seq<nat>, b: seq<nat>)
    requires StrictlySorted(a) && StrictlySorted(b)
    requires Elements(a) == Elements(b)
    ensures a == b
  {
    NoRepeatsCount(a);
    NoRepeatsCount(b);
    if a != [] {
      var x, y := a[|a|-1], b[|b|-1];
      assert x in Elements(b) && y in Elements(a);
      LastIsGreatest(a, y);
      LastIsGreatest(b, x);
      ElementsInit(a);
      ElementsInit(b);
      StrictlySortedUnique(a[..|a|-1], b[..|b|-1]);
      assert a == a[..|a|-1] + [x] && b == b[..|b|-1] + [y];
    }
  }

  lemma ElementsInit(s: seq<nat>)
    requires StrictlySorted(s) && s != []
    ensures Elements(s[..|s|-1]) == Elements(s) - {s[|s|-1]}
  {
    var a, b := Elements(s[..|s|-1]), Elements(s) - {s[|s|-1]};
    forall x ensures x in a <==> x in b {
      if x in s {
        LastIsGreatest(s, x);
      }
    }
  }

  lemma {:induction false} KeepSorted(s: seq<nat>, keep: set<nat>)
    ensures Sorted(s) ==> Sorted(Keep(s, keep))
    ensures StrictlySorted(s) ==> StrictlySorted(Keep(s, keep))
  {
    if s != [] {
      var init, last, r := s[..|s|-1], s[|s|-1], Keep(s[..|s|-1], keep);
      KeepSorted(init, keep);
      KeepElements(init, keep);
      forall i | 0 <= i < |r|
        ensures Sorted(s) ==> r[i] <= last
        ensures StrictlySorted(s) ==> r[i] < last
      {
        assert r[i] in init;
        var k :| 0 <= k < |init| && init[k] == r[i];
      }
    }
  }

  lemma SubsetCount<T>(a: set<T>, b: set<T>)
    requires a <= b
    ensures |a| <= |b|
  {
    assert b == a + (b - a);
  }

  lemma Assoc<T>(a: seq<T>, b: seq<T>, c: seq<T>)
    ensures (a + b) + c == a + (b + c)
  {
  }

  function Repeat<T>(x: T, n: int): (r: seq<T>)
    ensures |r| == if n < 0 then 0 else n
  {
    if n <= 0 then [] else seq(n, _ => x)
  }
}
