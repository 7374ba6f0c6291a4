/** Content digests of the form `sha256:<64 characters>` (pkg/digest/digest.go). */
module Digests {
  import opened Lex

  newtype Byte = x: int | 0 <= x < 256

  type Bytes = seq<Byte>

  datatype Option<+T> = None | Some(value: T)

  /** `strings.SplitN(d, ":", 2)`: what comes before and after the first colon. */
  function SplitColon(d: string): Option<(string, string)> {
    if d == "" then None
    else if d[0] == ':' then Some(("", d[1..]))
    else match SplitColon(d[1..])
      case None => None
      case Some((a, b)) => Some(([d[0]] + a, b))
  }

  function Algorithm(d: string): string {
    match SplitColon(d) case None => "" case Some((a, _)) => a
  }

  function Hex(d: string): string {
    match SplitColon(d) case None => "" case Some((_, b)) => b
  }

  /** `Validate`: well-formed, sha256, 64 characters. */
  predicate Valid(d: string) {
    && Algorithm(d) != "" && Hex(d) != ""
    && Algorithm(d) == "sha256"
    && |Hex(d)| == 64
  }

  lemma {:induction false} SplitColonIs(d: string)
    ensures SplitColon(d).None? ==> ':' !in d
    ensures SplitColon(d).Some? ==>
      ':' !in SplitColon(d).value.0 && d == SplitColon(d).value.0 + ":" + SplitColon(d).value.1
  {
    if d != "" && d[0] != ':' {
      SplitColonIs(d[1..]);
      assert d == [d[0]] + d[1..];
    }
  }

  /** Valid digests are exactly the strings of one shape, hence of one length. */
  lemma ValidShape(d: string)
    ensures Valid(d) <==> "sha256:" <= d && |d| == 71
    ensures Valid(d) ==> d == "sha256:" + Hex(d)
  {
    SplitColonIs(d);
    if "sha256:" <= d {
      assert d == "sha256" + ":" + d[7..];
      SplitColonAt("sha256", d[7..]);
    }
  }

  lemma {:induction false} SplitColonAt(a: string, b: string)
    requires ':' !in a
    ensures SplitColon(a + ":" + b) == Some((a, b))
  {
    if a == "" {
      assert a + ":" + b == ":" + b;
    } else {
      SplitColonAt(a[1..], b);
      assert (a + ":" + b)[1..] == a[1..] + ":" + b;
      assert a == [a[0]] + a[1..];
    }
  }
}
