/** The byte-wise order of keys: what the key/value database iterates in, and
    what its prefix scans rely on. */
module Lex {
  import opened Seqs

  predicate Leq(a: string, b: string) {
    a == "" || (b != "" && (a[0] < b[0] || (a[0] == b[0] && Leq(a[1..], b[1..]))))
  }

  lemma {:induction false} LeqRefl(a: string)
    ensures Leq(a, a)
  {
    if a != "" { LeqRefl(a[1..]); }
  }

  lemma {:induction false} LeqTotal(a: string, b: string)
    ensures Leq(a, b) || Leq(b, a)
  {
    if a != "" && b != "" { LeqTotal(a[1..], b[1..]); }
  }

  lemma {:induction false} LeqAntisym(a: string, b: string)
    requires Leq(a, b) && Leq(b, a)
    ensures a == b
  {
    if a != "" {
      LeqAntisym(a[1..], b[1..]);
      assert a == [a[0]] + a[1..] && b == [b[0]] + b[1..];
    }
  }

  lemma {:induction false} LeqTrans(a: string, b: string, c: string)
    requires Leq(a, b) && Leq(b, c)
    ensures Leq(a, c)
  {
    if a != "" && a[0] == b[0] == c[0] {
      LeqTrans(a[1..], b[1..], c[1..]);
    }
  }

  lemma {:induction false} PrefixLeq(p: string, s: string)
    requires p <= s
    ensures Leq(p, s)
  {
    if p != "" {
      assert s[..|p|][0] == s[0] && s[1..][..|p|-1] == s[..|p|][1..];
      PrefixLeq(p[1..], s[1..]);
    }
  }

  /** Keys with a common prefix are neighbours: nothing without the prefix
      lies between the prefix and a key that has it. */
  lemma {:induction false} PrefixConvex(p: string, a: string, b: string)
    requires Leq(p, a) && Leq(a, b) && p <= b
    ensures p <= a
  {
    if p != "" {
      assert b[0] == b[..|p|][0] == p[0];
      assert b[1..][..|p|-1] == b[..|p|][1..] == p[1..];
      PrefixConvex(p[1..], a[1..], b[1..]);
      assert a == [a[0]] + a[1..] && p == [p[0]] + p[1..];
    }
  }

  /** Strictly increasing. */
  ghost predicate Increasing(s: seq<string>) {
    forall i, j :: 0 <= i < j < |s| ==> Leq(s[i], s[j]) && s[i] != s[j]
  }

  lemma {:induction false} LeastExists(s: set<string>) returns (m: string)
    requires s != {}
    ensures m in s && forall x :: x in s ==> Leq(m, x)
  {
    m :| m in s;
    if s != {m} {
      var rest := s - {m};
      var n := LeastExists(rest);
      LeqTotal(m, n);
      LeqRefl(m);
      forall x | x in s && Leq(m, n) ensures Leq(m, x) {
        if x in rest { LeqTrans(m, n, x); }
      }
      if !Leq(m, n) { m := n; }
    } else {
      LeqRefl(m);
    }
  }

  function Least(s: set<string>): (m: string)
    requires s != {}
    ensures m in s && forall x :: x in s ==> Leq(m, x)
  {
    assert exists m :: m in s && forall x :: x in s ==> Leq(m, x) by {
      var m := LeastExists(s);
    }
    assert forall m, n :: m in s && n in s && Leq(m, n) && Leq(n, m) ==> m == n by {
      forall m, n | m in s && n in s && Leq(m, n) && Leq(n, m) ensures m == n { LeqAntisym(m, n); }
    }
    var m :| m in s && forall x :: x in s ==> Leq(m, x);
    m
  }

  /** The keys of a set in database order. */
  function InOrder(s: set<string>): seq<string> {
    if s == {} then [] else var m := Least(s); [m] + InOrder(s - {m})
  }

  lemma {:induction false} InOrderIncreasing(s: set<string>)
    ensures Increasing(InOrder(s)) && Elements(InOrder(s)) == s
  {
    if s != {} {
      var m := Least(s);
      var r := InOrder(s - {m});
      InOrderIncreasing(s - {m});
      assert forall i :: 0 <= i < |r| ==> r[i] in Elements(r);
      assert Elements([m] + r) == {m} + Elements(r);
    }
  }

  lemma InOrderElements(s: set<string>)
    ensures Elements(InOrder(s)) == s && |InOrder(s)| == |s| && NoRepeats(InOrder(s))
  {
    InOrderIncreasing(s);
    NoRepeatsCount(InOrder(s));
  }

  lemma {:induction false} IncreasingUnique(a: seq<string>, b: seq<string>)
    requires Increasing(a) && Increasing(b) && Elements(a) == Elements(b)
    ensures a == b
  {
    NoRepeatsCount(a);
    NoRepeatsCount(b);
    if a != [] {
      assert a[0] in Elements(a) && b[0] in Elements(b);
      FirstLeast(a, b[0]);
      FirstLeast(b, a[0]);
      LeqAntisym(a[0], b[0]);
      assert a == [a[0]] + a[1..] && b == [b[0]] + b[1..];
      assert Elements(a[1..]) == Elements(a) - {a[0]};
      assert Elements(b[1..]) == Elements(b) - {b[0]};
      IncreasingUnique(a[1..], b[1..]);
    }
  }

  lemma FirstLeast(a: seq<string>, x: string)
    requires Increasing(a) && x in Elements(a)
    ensures Leq(a[0], x)
  {
    LeqRefl(x);
  }

  lemma {:induction false} KeepIncreasing(s: seq<string>, keep: set<string>)
    requires Increasing(s)
    ensures Increasing(Keep(s, keep))
  {
    if s != [] {
      var init, r := s[..|s|-1], Keep(s[..|s|-1], keep);
      KeepIncreasing(init, keep);
      KeepElements(init, keep);
      assert forall i :: 0 <= i < |r| ==> r[i] in r && r[i] in init;
    }
  }
}
