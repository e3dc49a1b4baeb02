/**
  Worked cases of the provider's behaviour, each a lemma over concrete
  inputs: the remotes of both shapes, the three outcomes of `exists`, and a
  filtered catalog over two pages.
 */
module Scenarios {
  import opened Base
  import opened Text
  import opened Tasks
  import opened Github

  /** No token: the remote is passed through as one plain argument. */
  lemma InjectWithoutToken(url: string)
    ensures InjectToken(url, Some("")) == [Shown(url)]
    ensures InjectToken(url, None) == [Shown(url)]
    ensures Real(InjectToken(url, None)) == url && Secrets(InjectToken(url, None)) == []
  {
  }

  /** `git ls-remote` failing with the "repository not found" message means the repository is absent. */
  lemma ExistsNotFound()
    ensures ClassifyExists(ShResult(128, "fatal: repository 'foo' not found")) == Ok(false)
  {
    var out := "fatal: repository 'foo' not found";
    assert out[..|FatalPrefix|] == FatalPrefix;
    assert out[22..22 + |FatalSuffix|] == FatalSuffix;
    assert FatalNotFoundAt(out, 0, 22);
  }

  /** Success means the repository exists. */
  lemma ExistsFound(output: string)
    ensures ClassifyExists(ShResult(0, output)) == Ok(true)
  {
  }

  /** An unrelated failure is raised with its output attached. */
  lemma ExistsOtherFailure()
    ensures ClassifyExists(ShResult(1, "permission denied")) == Err(TaskError(1, "permission denied"))
  {
    var out := "permission denied";
    assert |out| < |FatalPrefix|;
    forall i, j ensures !FatalNotFoundAt(out, i, j) {}
    forall k ensures !OccursAt(out, ErrorPhrase, k) {
      if 0 <= k && k + |ErrorPhrase| <= |out| {}
    }
  }

  /** The filter `acme/svc-*` keeps the two service repositories of the two pages, in page order. */
  lemma SelectServices(a: Repo, o: Repo, b: Repo)
    requires a.fullName == "acme/svc-a" && o.fullName == "acme/other" && b.fullName == "acme/svc-b"
    ensures Selected([a, o] + [b], "acme/svc-*") == [a, b]
  {
    var pattern := "acme/svc-*";
    assert Glob.Literal("acme/svc-");
    assert pattern == "acme/svc-" + "*";
    assert a.fullName == "acme/svc-" + "a" && b.fullName == "acme/svc-" + "b";
    Glob.PrefixStarMatches("acme/svc-", "a");
    Glob.PrefixStarMatches("acme/svc-", "b");
    assert pattern == "acme/" + "svc-*" && o.fullName == "acme/" + "other";
    NoMatchAfterMismatch("acme/", "svc-*", "other");
    var repos := [a, o] + [b];
    assert repos[1..] == [o, b] && repos[1..][1..] == [b] && [b][1..] == [];
    assert Glob.Matches(pattern, a.fullName) && !Glob.Matches(pattern, o.fullName) && Glob.Matches(pattern, b.fullName);
    assert Selected([b], pattern) == [b] + Selected([], pattern);
    assert Selected([o, b], pattern) == Selected([b], pattern);
    assert Selected(repos, pattern) == [a] + Selected([o, b], pattern);
  }

  /**
    `list("acme", "acme/svc-*")` over a first page holding `acme/svc-a` and
    `acme/other` and a second page holding `acme/svc-b`: both service
    repositories, each as its detail record describes it.
   */
  lemma CatalogOverTwoPages(fetch: Fetcher, auth: Option<string>, a: Repo, o: Repo, b: Repo)
    requires a.fullName == "acme/svc-a" && o.fullName == "acme/other" && b.fullName == "acme/svc-b"
    requires fetch(ApiRoot + DetailPath(a), auth).id.Some? && fetch(ApiRoot + DetailPath(b), auth).id.Some?
    ensures var da, db := fetch(ApiRoot + DetailPath(a), auth), fetch(ApiRoot + DetailPath(b), auth);
      Catalog([a, o] + [b], "acme/svc-*", fetch, auth) == [(da.fullName, da.cloneUrl), (db.fullName, db.cloneUrl)]
  {
    SelectServices(a, o, b);
    var d := Details([a, b], fetch, auth);
    assert d == [d[0]] + [d[1]];
    AccessibleAppend([d[0]], [d[1]]);
  }

  /** Once a literal prefix is consumed, a name that disagrees with the next pattern letter fails. */
  lemma NoMatchAfterMismatch(prefix: string, pattern: string, rest: string)
    requires Glob.Literal(prefix)
    requires pattern != [] && rest != [] && pattern[0] != '*' && pattern[0] != '?' && pattern[0] != rest[0]
    ensures !Glob.Matches(prefix + pattern, prefix + rest)
    decreases |prefix|
  {
    if prefix != [] {
      assert (prefix + pattern)[1..] == prefix[1..] + pattern;
      assert (prefix + rest)[1..] == prefix[1..] + rest;
      NoMatchAfterMismatch(prefix[1..], pattern, rest);
    } else {
      assert prefix + pattern == pattern && prefix + rest == rest;
    }
  }
}
