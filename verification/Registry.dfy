/** Two more handlers (internal/api/v2/handlers.go): deleting a blob through a
    repository, and listing tags page by page. */
module Registry {
  import opened Seqs
  import opened Lex
  import opened Digests
  import opened Blobs
  import opened Metadata
  import opened Relations
  import opened TypedMetadata
  import opened MetadataRuns

  lemma EmptyElements(s: seq<string>)
    ensures s == [] <==> Elements(s) == {}
  {
    if s != [] {
      assert s[0] in Elements(s);
    }
  }

  class Handler {
    const metadata: MetadataStore
    const blobs: BlobStore
    ghost var view: Typed  // the relations that the key map stands for

    ghost predicate Valid()
      reads this, metadata
    {
      Refines(metadata.db, view) && Twins(view)
    }

    constructor (metadata: MetadataStore, blobs: BlobStore, ghost view: Typed)
      requires Refines(metadata.db, view) && Twins(view)
      ensures Valid() && this.metadata == metadata && this.blobs == blobs && this.view == view
    {
      this.metadata, this.blobs, this.view := metadata, blobs, view;
    }

    /** Errors of the unlinking and of the scan are ignored; a failed scan
        reports no repositories. */
    method HandleDeleteBlob(repo: string, d: string, unlinkFails: bool, scanFails: bool)
      requires Valid() && Good(repo) && Digests.Valid(d)
      modifies this`view, metadata, blobs
      ensures Valid() && view == if unlinkFails then old(view) else old(view).Unlink(d, repo)
      ensures blobs.files ==
        if scanFails || view.ReposOf(d) == {} then old(blobs.files) - {BlobPath(d)} else old(blobs.files)
      ensures !scanFails && Has(old(blobs.files), d) && !Has(blobs.files, d) ==>
        (forall r :: (r, d) !in view.repoBlobs && (d, r) !in view.blobRepos)
    {
      if !unlinkFails {
        UnlinkRefines(metadata.db, view, d, repo);
        metadata.UnlinkBlobFromRepo(d, repo);
        view := view.Unlink(d, repo);
      }
      var repos: seq<string> := [];
      if !scanFails {
        repos := metadata.GetBlobRepos(d);
        BlobRepoListing(metadata.db, view, d);
        InOrderElements(view.ReposOf(d));
        EmptyElements(repos);
      }
      assert forall r :: (d, r) in view.blobRepos ==> r in view.ReposOf(d);
      if |repos| == 0 {
        var _ := blobs.Delete(d);
      }
    }

    /** All repositories, in key order. */
    method HandleCatalog() returns (repos: seq<string>)
      requires Valid()
      ensures Increasing(repos) && Elements(repos) == view.repos.Keys
    {
      repos := metadata.ListRepositories();
      RepoListing(metadata.db, view);
      InOrderIncreasing(view.repos.Keys);
    }

    method HandleListTags(repo: string, n: int, last: string) returns (p: Page)
      requires Valid() && Good(repo)
      ensures p == PageOf(InOrder(view.TagsOf(repo)), n, last)
    {
      var tags := metadata.ListTags(repo);
      TagListing(metadata.db, view, repo);
      p := ListPage(tags, n, last);
    }
  }

  /* ---- tags, page by page ---- */

  /** What follows the first occurrence of `last`; everything if there is none. */
  function After(tags: seq<string>, last: string): seq<string> {
    if last in tags then Tail(tags, last) else tags
  }

  function Tail(tags: seq<string>, last: string): seq<string>
    requires last in tags
  {
    if tags[0] == last then tags[1..] else Tail(tags[1..], last)
  }

  datatype Page = Page(tags: seq<string>, next: Option<string>)

  function PageOf(tags: seq<string>, n: int, last: string): Page {
    var rest := if last != "" then After(tags, last) else tags;
    if n > 0 && |rest| > n then Page(rest[..n], Some(rest[n-1])) else Page(rest, None)
  }

  method ListPage(all: seq<string>, n: int, last: string) returns (p: Page)
    ensures p == PageOf(all, n, last)
  {
    var tags := all;
    if last != "" {
      var i := 0;
      while i < |all| && all[i] != last
        invariant 0 <= i <= |all| && last !in all[..i]
      {
        i := i + 1;
      }
      assert all == all[..i] + all[i..];
      if i < |all| {
        TailAt(all, i);
        tags := all[i+1..];
      }
    }
    var next := None;
    if n > 0 && |tags| > n {
      tags := tags[..n];
      next := Some(tags[|tags|-1]);
    }
    p := Page(tags, next);
  }

  lemma {:induction false} TailAt(tags: seq<string>, i: nat)
    requires i < |tags| && tags[i] !in tags[..i]
    ensures Tail(tags, tags[i]) == tags[i+1..]
  {
    if i > 0 {
      assert tags[0] in tags[..i];
      assert tags[1..][..i-1] == tags[..i][1..];
      TailAt(tags[1..], i - 1);
      assert tags[1..][i..] == tags[i+1..];
    }
  }

  /** A client that follows the links from the given tag on. */
  function Follow(tags: seq<string>, n: nat, last: string, pages: nat): seq<string>
    decreases pages
  {
    if pages == 0 then []
    else
      var p := PageOf(tags, n, last);
      p.tags + match p.next case None => [] case Some(t) => Follow(tags, n, t, pages - 1)
  }

  ghost predicate Listing(tags: seq<string>) {
    NoRepeats(tags) && "" !in tags
  }

  /** What a client has to ask for next after so many tags. */
  function LastOf(tags: seq<string>, done: nat): string
    requires done <= |tags|
  {
    if done == 0 then "" else tags[done-1]
  }

  /** The page after the first `done` tags. */
  lemma PageAt(tags: seq<string>, n: nat, done: nat)
    requires n > 0 && Listing(tags) && done <= |tags|
    ensures PageOf(tags, n, LastOf(tags, done)) ==
      if |tags| - done > n then Page(tags[done..done+n], Some(LastOf(tags, done + n))) else Page(tags[done..], None)
  {
    if done > 0 {
      TailAt(tags, done - 1);
    }
    var rest := tags[done..];
    assert |rest| > n ==> rest[..n] == tags[done..done+n];
  }

  lemma CutAt(tags: seq<string>, i: nat, j: nat)
    requires i <= j <= |tags|
    ensures tags[i..] == tags[i..j] + tags[j..]
  {
  }

  lemma FollowNext(tags: seq<string>, n: nat, last: string, pages: nat)
    requires pages > 0
    ensures PageOf(tags, n, last).next.None? ==> Follow(tags, n, last, pages) == PageOf(tags, n, last).tags
    ensures PageOf(tags, n, last).next.Some? ==>
      Follow(tags, n, last, pages) == PageOf(tags, n, last).tags + Follow(tags, n, PageOf(tags, n, last).next.value, pages - 1)
  {
  }

  /** Following the links yields what is left, every tag once and in order. */
  lemma {:induction false} FollowRest(tags: seq<string>, n: nat, done: nat, pages: nat)
    requires n > 0 && Listing(tags) && done <= |tags| < done + pages
    ensures Follow(tags, n, LastOf(tags, done), pages) == tags[done..]
    decreases pages
  {
    hide PageOf, Follow, Listing, LastOf;
    if |tags| - done > n {
      NextPage(tags, n, done, pages);
      FollowRest(tags, n, done + n, pages - 1);
      CutAt(tags, done, done + n);
    } else {
      FinalPage(tags, n, done, pages);
    }
  }

  lemma NextPage(tags: seq<string>, n: nat, done: nat, pages: nat)
    requires n > 0 && Listing(tags) && done + n < |tags| && pages > 0
    ensures Follow(tags, n, LastOf(tags, done), pages) ==
      tags[done..done+n] + Follow(tags, n, LastOf(tags, done + n), pages - 1)
  {
    PageAt(tags, n, done);
    hide PageOf, Listing, LastOf;
    FollowNext(tags, n, LastOf(tags, done), pages);
  }

  lemma FinalPage(tags: seq<string>, n: nat, done: nat, pages: nat)
    requires n > 0 && Listing(tags) && done <= |tags| <= done + n && pages > 0
    ensures Follow(tags, n, LastOf(tags, done), pages) == tags[done..]
  {
    PageAt(tags, n, done);
    hide PageOf, Listing, LastOf;
    FollowNext(tags, n, LastOf(tags, done), pages);
  }

  lemma AllPages(tags: seq<string>, n: nat)
    requires n > 0 && Listing(tags)
    ensures Follow(tags, n, "", |tags| + 1) == tags
  {
    FollowRest(tags, n, 0, |tags| + 1);
  }

  /* ---- tags that change between two pages ---- */

  /** What follows a tag in key order is what is greater. */
  lemma {:induction false} TailIsGreater(tags: seq<string>, last: string)
    requires Increasing(tags) && last in tags
    ensures Increasing(Tail(tags, last))
    ensures forall x :: x in Tail(tags, last) <==> x in tags && Leq(last, x) && x != last
  {
    assert tags == [tags[0]] + tags[1..];
    if tags[0] == last {
      forall x | x in tags && Leq(last, x) && x != last ensures x in tags[1..] {}
    } else {
      assert Increasing(tags[1..]);
      TailIsGreater(tags[1..], last);
      assert Leq(tags[0], last);
      if Leq(last, tags[0]) {
        LeqAntisym(last, tags[0]);
      }
    }
  }

  /** A tag of the next page that the client has already been given: it was there
      before, up to the last one listed. */
  ghost predicate Repeats(before: set<string>, page: seq<string>, last: string) {
    exists x :: x in page && x in before && Leq(x, last)
  }

  /** The page after a tag that is still there holds the least of the greater tags,
      whatever else has changed, and repeats nothing. */
  lemma NextPageGoesOn(before: set<string>, now: set<string>, n: nat, last: string)
    requires n > 0 && last != "" && last in now
    ensures var page := PageOf(InOrder(now), n, last).tags;
      && !Repeats(before, page, last) && Increasing(page)
      && (forall x :: x in page ==> x in now && Leq(last, x) && x != last)
      && (forall x, y :: x in now && Leq(last, x) && x != last && x !in page && y in page ==> |page| == n && Leq(y, x))
  {
    var all := InOrder(now);
    InOrderIncreasing(now);
    assert last in Elements(all);
    assert forall x :: x in now <==> x in all by { assert forall x :: x in Elements(all) <==> x in all; }
    TailIsGreater(all, last);
    FirstOf(Tail(all, last), n);
    hide InOrder, Tail, Increasing;
    var page := PageOf(all, n, last).tags;
    forall x | x in page ensures !Leq(x, last) {
      if Leq(x, last) {
        LeqAntisym(x, last);
      }
    }
  }

  /** The first of an ordered list are its least. */
  lemma FirstOf(rest: seq<string>, n: nat)
    requires Increasing(rest)
    ensures var page := if |rest| > n then rest[..n] else rest;
      && Increasing(page) && (forall x :: x in page ==> x in rest)
      && forall x, y :: x in rest && x !in page && y in page ==> |page| == n && Leq(y, x)
  {
    var page := if |rest| > n then rest[..n] else rest;
    forall x, y | x in rest && x !in page && y in page ensures |page| == n && Leq(y, x) {
      var i :| 0 <= i < |rest| && rest[i] == x;
      var k :| 0 <= k < |page| && page[k] == y;
      assert page == rest[..n] && i >= n && rest[k] == y;
    }
  }

  /** The page repeats already listed tags exactly if the last one is gone, so that
      the listing starts over, and one of those it starts with was listed; if no
      tags have come in, that is one not greater than the last. */
  lemma RepeatsExactly(before: set<string>, now: set<string>, n: nat, last: string)
    requires n > 0 && last != "" && last in before
    ensures Repeats(before, PageOf(InOrder(now), n, last).tags, last) <==>
      last !in now && Repeats(before, PageOf(InOrder(now), n, "").tags, last)
    ensures now <= before ==>
      (Repeats(before, PageOf(InOrder(now), n, last).tags, last) <==> last !in now && exists x :: x in now && Leq(x, last))
  {
    var all := InOrder(now);
    InOrderIncreasing(now);
    assert forall x :: x in Elements(all) <==> x in all;
    if last in now {
      NextPageGoesOn(before, now, n, last);
    } else {
      var page := PageOf(all, n, "").tags;
      assert page == PageOf(all, n, last).tags;
      assert forall x :: x in page ==> x in all;
      if x :| x in now && Leq(x, last) {
        var i :| 0 <= i < |all| && all[i] == x;
        LeqRefl(x);
        LeqTrans(all[0], x, last);
        assert page[0] == all[0];
      }
    }
  }

  /** Without a limit the answer is one page: all tags, or all greater than `last`
      if that is a tag. */
  lemma NoLimit(now: set<string>, n: int, last: string)
    requires n <= 0
    ensures var p := PageOf(InOrder(now), n, last);
      && p.next == None && Increasing(p.tags)
      && (forall x :: x in p.tags <==> x in now && (last != "" && last in now ==> Leq(last, x) && x != last))
  {
    InOrderIncreasing(now);
    assert forall x :: x in Elements(InOrder(now)) <==> x in InOrder(now);
    if last in now {
      TailIsGreater(InOrder(now), last);
    }
  }

  /** There is a link exactly if greater tags are left, and it asks for what follows
      the last tag of the page. */
  lemma LinkExactly(now: set<string>, n: nat, last: string)
    requires n > 0 && (last == "" || last in now)
    ensures var p := PageOf(InOrder(now), n, last);
      && (p.next.Some? <==> exists x :: x in now && (last != "" ==> Leq(last, x) && x != last) && x !in p.tags)
      && (p.next.Some? ==> |p.tags| == n && p.next.value == p.tags[n-1])
  {
    var all := InOrder(now);
    InOrderIncreasing(now);
    assert forall x :: x in Elements(all) <==> x in all;
    if last != "" {
      TailIsGreater(all, last);
    }
    var rest := if last != "" then After(all, last) else all;
    var p := PageOf(all, n, last);
    if |rest| > n {
      assert p.tags == rest[..n];
      NotBefore(rest, n);
      assert rest[n] in rest;
    }
  }

  lemma NotBefore(s: seq<string>, n: nat)
    requires Increasing(s) && n < |s|
    ensures s[n] !in s[..n]
  {
  }
}
