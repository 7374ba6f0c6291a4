/** Image references: `parseImageRef` (internal/releases/cloner.go). */
module ImageRefs {
  /** `strings.Index`, or -1. */
  function Index(s: string, ch: char): (r: int)
    ensures -1 <= r < |s|
    ensures r >= 0 ==> s[r] == ch && ch !in s[..r]
    ensures r < 0 ==> ch !in s
  {
    if s == "" then -1
    else if s[0] == ch then 0
    else
      var r := Index(s[1..], ch);
      assert s == [s[0]] + s[1..];
      if r < 0 then -1
      else
        assert s[..r+1] == [s[0]] + s[1..][..r];
        r + 1
  }

  /** `strings.LastIndex`, or -1. */
  function LastIndex(s: string, ch: char): (r: int)
    ensures -1 <= r < |s|
    ensures r >= 0 ==> s[r] == ch && ch !in s[r+1..]
    ensures r < 0 ==> ch !in s
  {
    if s == "" then -1
    else if s[|s|-1] == ch then |s| - 1
    else
      var r := LastIndex(s[..|s|-1], ch);
      assert s == s[..|s|-1] + [s[|s|-1]];
      assert r >= 0 ==> s[r+1..] == s[..|s|-1][r+1..] + [s[|s|-1]];
      r
  }

  datatype ImageRef = ImageRef(registry: string, repo: string, ref: string)

  /** The name before, and the reference after, the `@` or the last `:`. */
  function SplitReference(s: string): (string, string) {
    var at := Index(s, '@');
    if at >= 0 then (s[..at], s[at+1..])
    else
      var colon := LastIndex(s, ':');
      if colon > LastIndex(s, '/') && colon > 0 then (s[..colon], s[colon+1..]) else (s, "")
  }

  function ParseImageRef(s: string): ImageRef {
    var (name, ref) := SplitReference(s);
    var slash := Index(name, '/');
    if slash < 0 then ImageRef("", name, ref)
    else if '.' in name[..slash] || ':' in name[..slash] then ImageRef(name[..slash], name[slash+1..], ref)
    else ImageRef("", name, ref)
  }

  lemma {:induction false} IndexAt(a: string, ch: char, b: string)
    requires ch !in a
    ensures Index(a + [ch] + b, ch) == |a|
  {
    if a == "" {
      assert a + [ch] + b == [ch] + b;
    } else {
      IndexAt(a[1..], ch, b);
      assert (a + [ch] + b)[1..] == a[1..] + [ch] + b;
    }
  }

  lemma {:induction false} LastIndexBefore(a: string, ch: char, b: string)
    requires ch !in b
    ensures LastIndex(a + b, ch) < |a|
  {
    if b == "" {
      assert a + b == a;
    } else {
      LastIndexBefore(a, ch, b[..|b|-1]);
      assert (a + b)[..|a + b| - 1] == a + b[..|b|-1];
    }
  }

  lemma {:induction false} LastIndexAt(a: string, ch: char, b: string)
    requires ch !in b
    ensures LastIndex(a + [ch] + b, ch) == |a|
  {
    if b == "" {
      assert a + [ch] + b == a + [ch];
    } else {
      LastIndexAt(a, ch, b[..|b|-1]);
      assert (a + [ch] + b)[..|a| + |b|] == a + [ch] + b[..|b|-1];
    }
  }

  /** A digest reference keeps the digest, although it has a colon. */
  lemma DigestReference(name: string, d: string)
    requires '@' !in name
    ensures ParseImageRef(name + "@" + d).ref == d
  {
    var s := name + "@" + d;
    IndexAt(name, '@', d);
    assert s == name + ['@'] + d;
    var at := Index(s, '@');
    assert s[at+1..] == d;
  }

  /** The first, and by `IndexAt` the only, slash ends the name of the registry. */
  lemma ParsedName(name: string, ref: string, s: string)
    requires SplitReference(s) == (name, ref)
    ensures '/' !in name ==> ParseImageRef(s) == ImageRef("", name, ref)
    ensures forall first, rest :: name == first + "/" + rest && '/' !in first ==>
      ParseImageRef(s) == if '.' in first || ':' in first then ImageRef(first, rest, ref) else ImageRef("", name, ref)
  {
    forall first, rest | name == first + "/" + rest && '/' !in first
      ensures ParseImageRef(s) == if '.' in first || ':' in first then ImageRef(first, rest, ref) else ImageRef("", name, ref)
    {
      IndexAt(first, '/', rest);
      assert name == first + ['/'] + rest;
      assert name[..|first|] == first && name[|first|+1..] == rest;
    }
  }

  /** A reference is a name with a digest after `@`, with a tag after `:`, or alone. */
  lemma SplitsAll(name: string, ref: string)
    requires '@' !in name
    ensures SplitReference(name + "@" + ref) == (name, ref)
    ensures name != "" && '@' !in ref && '/' !in ref && ':' !in ref ==> SplitReference(name + ":" + ref) == (name, ref)
    ensures ':' !in name ==> SplitReference(name) == (name, "")
  {
    var s := name + "@" + ref;
    IndexAt(name, '@', ref);
    assert s == name + ['@'] + ref;
    assert s[..|name|] == name && s[|name|+1..] == ref;
    if name != "" && '@' !in ref && '/' !in ref && ':' !in ref {
      var t := name + ":" + ref;
      assert t[..|name|] == name && t[|name|+1..] == ref;
      LastIndexAt(name, ':', ref);
      LastIndexBefore(name + ":", '/', ref);
      assert t == name + [':'] + ref && t[|name|] == ':';
    }
  }

  /** With nothing before it, a colon separates nothing. */
  lemma ColonFirst(rest: string)
    requires '@' !in rest && ':' !in rest
    ensures SplitReference(":" + rest) == (":" + rest, "")
  {
    LastIndexAt("", ':', rest);
    assert ":" + rest == "" + [':'] + rest;
  }

  /** A registry is recognised by a dot or by a port. */
  lemma RegistryParsed(registry: string, repo: string, ref: string)
    requires '@' !in registry && '@' !in repo && '/' !in registry
    requires '.' in registry || ':' in registry
    ensures ParseImageRef(registry + "/" + repo + "@" + ref) == ImageRef(registry, repo, ref)
    ensures '@' !in ref && '/' !in ref && ':' !in ref ==>
      ParseImageRef(registry + "/" + repo + ":" + ref) == ImageRef(registry, repo, ref)
  {
    var name := registry + "/" + repo;
    SplitsAll(name, ref);
    ParsedName(name, ref, name + "@" + ref);
    if '@' !in ref && '/' !in ref && ':' !in ref {
      ParsedName(name, ref, name + ":" + ref);
    }
  }

  /** The first part of a name without dot and colon belongs to the repository. */
  lemma RepositoryParsed(first: string, rest: string, ref: string)
    requires '@' !in first && '@' !in rest && '/' !in first && '.' !in first && ':' !in first
    ensures ParseImageRef(first + "/" + rest + "@" + ref) == ImageRef("", first + "/" + rest, ref)
    ensures '@' !in ref && '/' !in ref && ':' !in ref ==>
      ParseImageRef(first + "/" + rest + ":" + ref) == ImageRef("", first + "/" + rest, ref)
  {
    var name := first + "/" + rest;
    SplitsAll(name, ref);
    ParsedName(name, ref, name + "@" + ref);
    if '@' !in ref && '/' !in ref && ':' !in ref {
      ParsedName(name, ref, name + ":" + ref);
    }
  }
}
