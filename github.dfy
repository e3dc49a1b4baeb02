/**
  `forge/github.py`: the GitHub provider.  It walks the paginated REST
  collection of an organisation's repositories, keeps those whose full name
  matches a filter and whose detail record is accessible, builds git remotes
  that carry the API token without ever showing it, and turns the exit code
  and output of `git` into a boolean, an optional URL or an error.

  HTTP is a parameter: a `Server` answers a GET of a URL made with a given
  `Authorization` header, already parsed (ok flag, Link header, decoded list
  of repositories); a `Fetcher` answers a GET of a repository's detail URL
  with its decoded record.  Running `git` is a `Runner` from the argument
  list and working directory to the exit code and output.
 */
module Github {
  import opened Base
  import opened Text
  import opened Tasks
  import Glob

  /** One entry of a parsed `Link` header: its `rel` parameter and its target. */
  datatype Link = Link(rel: string, url: string)

  /** A repository as the API describes it; `id` is absent from error bodies. */
  datatype Repo = Repo(fullName: string, cloneUrl: string, id: Option<int>)

  /**
    An HTTP response: `response.ok`, the parsed `Link` header when there is
    one, and the body decoded as a list of repositories.
   */
  datatype Response = Response(ok: bool, link: Option<seq<Link>>, items: seq<Repo>)

  type Server = (string, Option<string>) -> Response
  type Fetcher = (string, Option<string>) -> Repo

  /** A command to run: its arguments and the working directory, if any. */
  datatype Invocation = Invocation(args: seq<Arg>, cwd: Option<string>)
  type Runner = (seq<Arg>, Option<string>) -> ShResult

  const ApiRoot: string := "https://api.github.com/"

  // ---------------------------------------------------------------------
  // next_page

  /** `links[i]` is the first link whose relation is `next`. */
  predicate FirstNextAt(links: seq<Link>, i: int) {
    0 <= i < |links| && links[i].rel == "next" && forall j :: 0 <= j < i ==> links[j].rel != "next"
  }

  /** Index of the first `next` link. */
  function FirstNextIndex(links: seq<Link>): (k: Option<nat>)
    ensures k.Some? ==> FirstNextAt(links, k.value)
    ensures k.None? ==> forall i :: 0 <= i < |links| ==> links[i].rel != "next"
  {
    if links == [] then None
    else if links[0].rel == "next" then Some(0)
    else match FirstNextIndex(links[1..])
      case None => None
      case Some(k) => Some(k + 1)
  }

  /**
    The URL `next_page` returns: the target of the first `next` link, and
    nothing when there is no `Link` header or no such link; other relations
    are skipped.
   */
  function NextLink(r: Response): (u: Option<string>)
    ensures u.Some? <==> r.link.Some? && exists i :: 0 <= i < |r.link.value| && r.link.value[i].rel == "next"
    ensures u.Some? ==> exists i :: FirstNextAt(r.link.value, i) && r.link.value[i].url == u.value
  {
    match r.link
    case None => None
    case Some(links) =>
      match FirstNextIndex(links)
      case None => None
      case Some(k) => Some(links[k].url)
  }

  /** Pagination goes on after `r`: `while next_url` sees a non-empty URL. */
  predicate Continues(r: Response) {
    Truthy(NextLink(r))
  }

  /** `next_page(response)`: scan the links in order, return the first `next` target. */
  method NextPage(response: Response) returns (next: Option<string>)
    ensures next == NextLink(response)
  {
    if response.link.None? {
      return None;
    }
    var links := response.link.value;
    var i := 0;
    while i < |links|
      invariant 0 <= i <= |links|
      invariant forall j :: 0 <= j < i ==> links[j].rel != "next"
    {
      if links[i].rel == "next" {
        assert FirstNextAt(links, i);
        return Some(links[i].url);
      }
      i := i + 1;
    }
    return None;
  }

  // ---------------------------------------------------------------------
  // inject_token

  /**
    `inject_token(url, token)`: no token leaves the URL alone; otherwise the
    token goes, hidden, right after the first `://` followed by `@`, or in
    front of the whole URL followed by `@` when the remote is scp-style.
   */
  function InjectToken(url: string, token: Option<string>): (a: Arg)
    ensures !Truthy(token) ==> a == Plain(url)
    ensures Truthy(token) ==> Secrets(a) == [token.value]
  {
    if !Truthy(token) then Plain(url)
    else
      var parts := SplitOnce(url, "://");
      if |parts| == 2 then
        Render3(Shown(parts[0] + "://"), Hidden(token.value), Shown("@" + parts[1]), "");
        [Shown(parts[0] + "://"), Hidden(token.value), Shown("@" + parts[1])]
      else
        Render2(Hidden(token.value), Shown("@" + parts[0]), "");
        [Hidden(token.value), Shown("@" + parts[0])]
  }

  /**
    URL-style remote: for `url == scheme + "://" + rest` split at the first
    `://`, the executed argument is `scheme://token@rest` and the displayed one
    has the marker in the token's place; `rest` may contain `://` again.
   */
  lemma InjectUrlStyle(url: string, token: string, scheme: string, rest: string, marker: string)
    requires token != ""
    requires url == scheme + "://" + rest
    requires forall k :: 0 <= k < |scheme| ==> !OccursAt(url, "://", k)
    ensures Real(InjectToken(url, Some(token))) == scheme + "://" + token + "@" + rest
    ensures Display(InjectToken(url, Some(token)), marker) == scheme + "://" + marker + "@" + rest
  {
    SplitOnceAtFirst(url, "://", scheme, rest);
    Render3(Shown(scheme + "://"), Hidden(token), Shown("@" + rest), marker);
  }

  /**
    scp-style remote (no `://` anywhere): the token goes in front, so the
    executed argument is `token@url` and the displayed one `marker@url`.
   */
  lemma InjectScpStyle(url: string, token: string, marker: string)
    requires token != ""
    requires forall k :: !OccursAt(url, "://", k)
    ensures Real(InjectToken(url, Some(token))) == token + "@" + url
    ensures Display(InjectToken(url, Some(token)), marker) == marker + "@" + url
  {
    Render2(Hidden(token), Shown("@" + url), marker);
  }

  /**
    The token never reaches the display: whichever token is injected, the
    shown segments and the displayed argument are the same.
   */
  lemma InjectHidesToken(url: string, t1: string, t2: string, marker: string)
    requires t1 != "" && t2 != ""
    ensures Skeleton(InjectToken(url, Some(t1))) == Skeleton(InjectToken(url, Some(t2)))
    ensures Display(InjectToken(url, Some(t1)), marker) == Display(InjectToken(url, Some(t2)), marker)
  {
    DisplayIgnoresSecrets(InjectToken(url, Some(t1)), InjectToken(url, Some(t2)), marker);
  }

  // ---------------------------------------------------------------------
  // Github.paginate

  /** Every page after the first was fetched, with `auth`, from the previous page's next link. */
  predicate Linked(server: Server, auth: Option<string>, pages: seq<Response>) {
    forall i :: 0 <= i < |pages| - 1 ==> Continues(pages[i]) && pages[i + 1] == server(NextLink(pages[i]).value, auth)
  }

  /**
    `pages` is what `paginate` yields from `url`: the first response always;
    nothing more when it is not ok; otherwise the chain of next links up to
    the first page that has none.  Pages after the first are never checked
    for `ok`.
   */
  predicate IsPagination(server: Server, auth: Option<string>, url: string, pages: seq<Response>) {
    && |pages| >= 1
    && pages[0] == server(url, auth)
    && (if pages[0].ok then Linked(server, auth, pages) && !Continues(pages[|pages| - 1]) else |pages| == 1)
  }

  /** Following next links from `r` reaches a page without one in at most `n` more fetches. */
  predicate StopsWithin(server: Server, auth: Option<string>, r: Response, n: nat)
    decreases n
  {
    !Continues(r) || (n > 0 && StopsWithin(server, auth, server(NextLink(r).value, auth), n - 1))
  }

  lemma {:induction false} LinkedAgree(server: Server, auth: Option<string>, p: seq<Response>, q: seq<Response>, i: nat)
    requires |p| >= 1 && |q| >= 1 && p[0] == q[0]
    requires Linked(server, auth, p) && Linked(server, auth, q)
    requires i < |p| && i < |q|
    ensures p[i] == q[i]
  {
    if i > 0 {
      LinkedAgree(server, auth, p, q, i - 1);
    }
  }

  /** The pages `paginate` yields are determined by the server, the header and the first URL. */
  lemma PaginationUnique(server: Server, auth: Option<string>, url: string, p: seq<Response>, q: seq<Response>)
    requires IsPagination(server, auth, url, p) && IsPagination(server, auth, url, q)
    ensures p == q
  {
    if p[0].ok {
      if |p| < |q| {
        LinkedAgree(server, auth, p, q, |p| - 1);
      } else if |q| < |p| {
        LinkedAgree(server, auth, p, q, |q| - 1);
      }
      assert |p| == |q|;
      forall i | 0 <= i < |p| ensures p[i] == q[i] {
        LinkedAgree(server, auth, p, q, i);
      }
    }
  }

  /**
    A failed page in the middle does not end the pagination: only the first
    response's `ok` is consulted, so a failed second page that still links
    onward is followed by a third.
   */
  lemma LaterFailureDoesNotStop()
    ensures exists server: Server, pages: seq<Response> ::
      IsPagination(server, None, "u1", pages) && |pages| == 3 && !pages[1].ok
  {
    var p3 := Response(true, None, []);
    var p2 := Response(false, Some([Link("next", "u3")]), []);
    var p1 := Response(true, Some([Link("prev", "u0"), Link("next", "u2")]), []);
    var server: Server := (u: string, h: Option<string>) => if u == "u1" then p1 else if u == "u2" then p2 else p3;
    assert FirstNextAt(p1.link.value, 1);
    assert FirstNextAt(p2.link.value, 0);
    assert NextLink(p1) == Some("u2") && NextLink(p2) == Some("u3") && NextLink(p3) == None;
    assert IsPagination(server, None, "u1", [p1, p2, p3]);
  }

  // ---------------------------------------------------------------------
  // Github.list

  /** All repositories of the yielded pages, page after page (`repos.extend`). */
  function Summaries(pages: seq<Response>): seq<Repo> {
    if pages == [] then [] else Summaries(pages[..|pages| - 1]) + pages[|pages| - 1].items
  }

  /** The repositories whose full name matches `filter`, in order. */
  function Selected(repos: seq<Repo>, filter: string): (sel: seq<Repo>)
    ensures forall i :: 0 <= i < |sel| ==> sel[i] in repos && Glob.Matches(filter, sel[i].fullName)
  {
    if repos == [] then []
    else (if Glob.Matches(filter, repos[0].fullName) then [repos[0]] else []) + Selected(repos[1..], filter)
  }

  /** The detail records fetched for `repos`, one per repository, in order (`project`). */
  function Details(repos: seq<Repo>, fetch: Fetcher, auth: Option<string>): (ds: seq<Repo>)
    ensures |ds| == |repos|
    ensures forall i :: 0 <= i < |repos| ==> ds[i] == fetch(ApiRoot + DetailPath(repos[i]), auth)
  {
    if repos == [] then []
    else [fetch(ApiRoot + DetailPath(repos[0]), auth)] + Details(repos[1..], fetch, auth)
  }

  /** The API path of an organisation's repository collection. */
  function ReposPath(organization: string): string {
    "orgs/" + organization + "/repos"
  }

  /** The API path of a repository's detail record. */
  function DetailPath(r: Repo): string {
    "repos/" + r.fullName
  }

  /** `(full_name, clone_url)` of every detail record that has an `id`, in order. */
  function Accessible(details: seq<Repo>): seq<(string, string)> {
    if details == [] then []
    else (if details[0].id.Some? then [(details[0].fullName, details[0].cloneUrl)] else []) + Accessible(details[1..])
  }

  /** What `list` returns for the repositories `repos` collected from the pages. */
  function Catalog(repos: seq<Repo>, filter: string, fetch: Fetcher, auth: Option<string>): seq<(string, string)> {
    Accessible(Details(Selected(repos, filter), fetch, auth))
  }

  lemma {:induction false} SelectedAppend(a: seq<Repo>, b: seq<Repo>, filter: string)
    ensures Selected(a + b, filter) == Selected(a, filter) + Selected(b, filter)
  {
    if a == [] {
      assert a + b == b;
    } else {
      assert (a + b)[0] == a[0];
      assert (a + b)[1..] == a[1..] + b;
      SelectedAppend(a[1..], b, filter);
    }
  }

  /** A repository is selected exactly when it is listed and its full name matches. */
  lemma {:induction false} SelectedMembers(repos: seq<Repo>, filter: string, r: Repo)
    ensures r in Selected(repos, filter) <==> r in repos && Glob.Matches(filter, r.fullName)
  {
    if repos != [] {
      SelectedMembers(repos[1..], filter, r);
      assert repos == [repos[0]] + repos[1..];
    }
  }

  /** The default filter `"*"` keeps every repository. */
  lemma {:induction false} DefaultFilterKeepsAll(repos: seq<Repo>)
    ensures Selected(repos, "*") == repos
  {
    if repos != [] {
      Glob.StarMatchesAll(repos[0].fullName);
      DefaultFilterKeepsAll(repos[1..]);
    }
  }

  lemma {:induction false} AccessibleMembers(details: seq<Repo>, name: string, url: string)
    ensures (name, url) in Accessible(details) <==>
      exists i :: 0 <= i < |details| && details[i].id.Some? && details[i].fullName == name && details[i].cloneUrl == url
  {
    if details != [] {
      AccessibleMembers(details[1..], name, url);
      if (name, url) in Accessible(details[1..]) {
        var i :| 0 <= i < |details[1..]| && details[1..][i].id.Some? && details[1..][i].fullName == name && details[1..][i].cloneUrl == url;
        assert details[i + 1] == details[1..][i];
      }
      forall i | 1 <= i < |details| && details[i].id.Some? && details[i].fullName == name && details[i].cloneUrl == url
        ensures (name, url) in Accessible(details[1..])
      {
        assert details[1..][i - 1] == details[i];
      }
    }
  }

  /**
    `list` returns a pair exactly when some collected repository matches the
    filter and the detail record fetched for it has an `id`; the pair is the
    detail record's `(full_name, clone_url)`.
   */
  lemma CatalogMembers(repos: seq<Repo>, filter: string, fetch: Fetcher, auth: Option<string>, name: string, url: string)
    ensures (name, url) in Catalog(repos, filter, fetch, auth) <==>
      exists r :: r in repos && Glob.Matches(filter, r.fullName)
        && var d := fetch(ApiRoot + DetailPath(r), auth); d.id.Some? && d.fullName == name && d.cloneUrl == url
  {
    var sel := Selected(repos, filter);
    var details := Details(sel, fetch, auth);
    AccessibleMembers(details, name, url);
    if (name, url) in Catalog(repos, filter, fetch, auth) {
      var i :| 0 <= i < |details| && details[i].id.Some? && details[i].fullName == name && details[i].cloneUrl == url;
      SelectedMembers(repos, filter, sel[i]);
    }
    forall r | r in repos && Glob.Matches(filter, r.fullName)
        && var d := fetch(ApiRoot + DetailPath(r), auth); d.id.Some? && d.fullName == name && d.cloneUrl == url
      ensures (name, url) in Catalog(repos, filter, fetch, auth)
    {
      SelectedMembers(repos, filter, r);
      var i :| 0 <= i < |sel| && sel[i] == r;
      assert details[i] == fetch(ApiRoot + DetailPath(r), auth);
    }
  }

  /** Page order is kept: the catalog of two runs of pages is the two catalogs in sequence. */
  lemma {:induction false} CatalogAppend(a: seq<Repo>, b: seq<Repo>, filter: string, fetch: Fetcher, auth: Option<string>)
    ensures Catalog(a + b, filter, fetch, auth) == Catalog(a, filter, fetch, auth) + Catalog(b, filter, fetch, auth)
  {
    SelectedAppend(a, b, filter);
    var sa, sb := Selected(a, filter), Selected(b, filter);
    var da, db, dab := Details(sa, fetch, auth), Details(sb, fetch, auth), Details(sa + sb, fetch, auth);
    forall i | 0 <= i < |dab| ensures dab[i] == (da + db)[i] {
      if i < |sa| { assert (sa + sb)[i] == sa[i]; } else { assert (sa + sb)[i] == sb[i - |sa|]; }
    }
    assert dab == da + db;
    AccessibleAppend(da, db);
  }

  lemma {:induction false} AccessibleAppend(a: seq<Repo>, b: seq<Repo>)
    ensures Accessible(a + b) == Accessible(a) + Accessible(b)
  {
    if a == [] {
      assert a + b == b;
    } else {
      assert (a + b)[1..] == a[1..] + b;
      AccessibleAppend(a[1..], b);
    }
  }

  // ---------------------------------------------------------------------
  // Github.exists and Github.remote: reading git's answer

  const FatalPrefix: string := "fatal: repository '"
  const FatalSuffix: string := "' not found"
  const ErrorPhrase: string := "ERROR: Repository not found"
  const NotARepository: string := "Not a git repository"

  /** `fatal: repository '.*' not found` matches `output` from `i`, with the closing quote at `j`. */
  predicate FatalNotFoundAt(output: string, i: int, j: int) {
    && OccursAt(output, FatalPrefix, i)
    && i + |FatalPrefix| <= j
    && OccursAt(output, FatalSuffix, j)
    && NoNewline(output[i + |FatalPrefix|..j])
  }

  /**
    What `re.search` at github.py line 74 finds: either phrasing of "repository
    not found" somewhere in the output (`.` never crosses a line break).
   */
  ghost predicate RepositoryNotFound(output: string) {
    (exists i, j :: FatalNotFoundAt(output, i, j)) || (exists k :: OccursAt(output, ErrorPhrase, k))
  }

  /** Does `.*' not found` match at `k` (the tail of the first alternative)? */
  function SuffixMatches(output: string, k: nat): bool
    requires k <= |output|
    decreases |output| - k
  {
    if OccursAt(output, FatalSuffix, k) then true
    else if k == |output| || output[k] == '\n' then false
    else SuffixMatches(output, k + 1)
  }

  lemma {:induction false} SuffixMatchesCorrect(output: string, k: nat)
    requires k <= |output|
    ensures SuffixMatches(output, k) <==> exists j :: k <= j && OccursAt(output, FatalSuffix, j) && NoNewline(output[k..j])
    decreases |output| - k
  {
    if OccursAt(output, FatalSuffix, k) {
      assert NoNewline(output[k..k]);
    } else if k == |output| {
    } else if output[k] == '\n' {
      forall j | k <= j && OccursAt(output, FatalSuffix, j) ensures !NoNewline(output[k..j]) {
        assert j > k;
        assert output[k..j][0] == '\n';
      }
    } else {
      SuffixMatchesCorrect(output, k + 1);
      if SuffixMatches(output, k + 1) {
        var j :| k + 1 <= j && OccursAt(output, FatalSuffix, j) && NoNewline(output[k + 1..j]);
        forall m | k < m < j ensures output[m] != '\n' {
          assert output[m] == output[k + 1..j][m - k - 1];
        }
        assert NoNewline(output[k..j]);
      }
      forall j | k <= j && OccursAt(output, FatalSuffix, j) && NoNewline(output[k..j])
        ensures SuffixMatches(output, k + 1)
      {
        assert j != k;
        forall m | k < m < j ensures output[m] != '\n' {
          assert output[m] == output[k..j][m - k];
        }
        assert NoNewline(output[k + 1..j]);
      }
    }
  }

  /** Does `fatal: repository '.*' not found` match anywhere at or after `from`? */
  function FatalMatchesFrom(output: string, from: nat): bool
    decreases |output| - from
  {
    if from + |FatalPrefix| > |output| then false
    else
      || (OccursAt(output, FatalPrefix, from) && SuffixMatches(output, from + |FatalPrefix|))
      || FatalMatchesFrom(output, from + 1)
  }

  lemma {:induction false} FatalMatchesFromCorrect(output: string, from: nat)
    ensures FatalMatchesFrom(output, from) <==> exists i, j :: from <= i && FatalNotFoundAt(output, i, j)
    decreases |output| - from
  {
    if from + |FatalPrefix| > |output| {
    } else {
      SuffixMatchesCorrect(output, from + |FatalPrefix|);
      FatalMatchesFromCorrect(output, from + 1);
      if OccursAt(output, FatalPrefix, from) && SuffixMatches(output, from + |FatalPrefix|) {
        var j :| from + |FatalPrefix| <= j && OccursAt(output, FatalSuffix, j) && NoNewline(output[from + |FatalPrefix|..j]);
        assert FatalNotFoundAt(output, from, j);
      }
      forall i, j | from <= i && FatalNotFoundAt(output, i, j)
        ensures (OccursAt(output, FatalPrefix, from) && SuffixMatches(output, from + |FatalPrefix|))
          || FatalMatchesFrom(output, from + 1)
      {
        if i == from {
          assert from + |FatalPrefix| <= j && OccursAt(output, FatalSuffix, j) && NoNewline(output[from + |FatalPrefix|..j]);
        }
      }
    }
  }

  /** The searcher used for line 74: exactly the outputs the regular expression finds. */
  function MentionsNotFound(output: string): (b: bool)
    ensures b <==> RepositoryNotFound(output)
  {
    FatalMatchesFromCorrect(output, 0);
    FatalMatchesFrom(output, 0) || Contains(output, ErrorPhrase)
  }

  /**
    `exists`: exit code 0 means the repository exists; a failure whose output
    says the repository was not found means it does not; any other failure
    raises a `TaskError` carrying the result.
   */
  function ClassifyExists(result: ShResult): (r: Result<bool>)
    ensures r == Ok(true) <==> result.code == 0
    ensures r == Ok(false) <==> result.code != 0 && RepositoryNotFound(result.output)
    ensures r.Err? <==> result.code != 0 && !RepositoryNotFound(result.output)
    ensures r.Err? ==> r.error == TaskError(result.code, result.output)
  {
    if result.code == 0 then Ok(true)
    else if MentionsNotFound(result.output) then Ok(false)
    else Err(TaskError(result.code, result.output))
  }

  /**
    `remote`: exit code 0 gives the output without surrounding whitespace; a
    failure in a directory that is not a git repository gives no remote; any
    other failure raises a `TaskError`.
   */
  function ClassifyRemote(result: ShResult): (r: Result<Option<string>>)
    ensures result.code == 0 <==> r.Ok? && r.value.Some?
    ensures result.code == 0 ==> Trimmed(r.value.value)
    ensures result.code == 0 ==>
      exists i :: 0 <= i <= |result.output| - |r.value.value|
        && result.output[i..i + |r.value.value|] == r.value.value
        && AllSpace(result.output[..i]) && AllSpace(result.output[i + |r.value.value|..])
    ensures r == Ok(None) <==> result.code != 0 && exists k :: OccursAt(result.output, NotARepository, k)
    ensures r.Err? <==> result.code != 0 && forall k :: !OccursAt(result.output, NotARepository, k)
    ensures r.Err? ==> r.error == TaskError(result.code, result.output)
  {
    if result.code == 0 then Ok(Some(Strip(result.output)))
    else if Contains(result.output, NotARepository) then Ok(None)
    else Err(TaskError(result.code, result.output))
  }

  // ---------------------------------------------------------------------
  // The Github client

  /** Every argument as it is displayed. */
  function DisplayAll(args: seq<Arg>, marker: string): seq<string> {
    seq(|args|, i requires 0 <= i < |args| => Display(args[i], marker))
  }

  /**
    A client for one token (`Github(token)`); its fields never change after
    construction, so it is a value.
   */
  datatype Github = Github(token: Option<string>) {

    /** The `Authorization` header sent with every API request, if any. */
    function Headers(): (h: Option<string>)
      ensures h.Some? <==> Truthy(token)
      ensures h.Some? ==> |h.value| == 6 + |token.value| && h.value[..6] == "token " && h.value[6..] == token.value
    {
      if Truthy(token) then Some("token " + token.value) else None
    }

    /** `get(api)`: GET of the API path below the API root. */
    function Get(server: Server, api: string): (r: Response)
      ensures !Truthy(token) ==> r == server(ApiRoot + api, None)
      ensures Truthy(token) ==> r == server(ApiRoot + api, Some("token " + token.value))
    {
      server(ApiRoot + api, Headers())
    }

    /**
      `paginate(api)` as the list of responses it yields.  The generator need
      not end; `bound` is a ghost witness that the chain of next links does.
     */
    method Paginate(server: Server, api: string, ghost bound: nat) returns (pages: seq<Response>)
      requires Get(server, api).ok ==> StopsWithin(server, Headers(), Get(server, api), bound)
      ensures IsPagination(server, Headers(), ApiRoot + api, pages)
    {
      var response := Get(server, api);
      pages := [response];
      if response.ok {
        var nextUrl := NextPage(response);
        ghost var fuel := bound;
        while Truthy(nextUrl)
          invariant |pages| >= 1 && pages[0] == Get(server, api) && pages[0].ok
          invariant Linked(server, Headers(), pages)
          invariant response == pages[|pages| - 1] && nextUrl == NextLink(response)
          invariant StopsWithin(server, Headers(), response, fuel)
          decreases fuel
        {
          response := server(nextUrl.value, Headers());
          nextUrl := NextPage(response);
          pages := pages + [response];
          fuel := fuel - 1;
        }
      }
    }

    /**
      `list(organization, filter)`: collect every page of the organisation's
      repositories, keep the names matching `filter`, fetch the detail record
      of each (and of no other), and return `(full_name, clone_url)` of the
      records that have an `id`.
     */
    method List(server: Server, fetch: Fetcher, organization: string, filter: string, ghost bound: nat)
      returns (urls: seq<(string, string)>, ghost requested: seq<string>)
      requires var first := Get(server, ReposPath(organization));
        first.ok ==> StopsWithin(server, Headers(), first, bound)
      ensures exists pages :: IsPagination(server, Headers(), ApiRoot + ReposPath(organization), pages)
      ensures forall pages :: IsPagination(server, Headers(), ApiRoot + ReposPath(organization), pages) ==>
        urls == Catalog(Summaries(pages), filter, fetch, Headers())
      ensures forall pages :: IsPagination(server, Headers(), ApiRoot + ReposPath(organization), pages) ==>
        forall u :: u in requested <==>
          exists r :: r in Summaries(pages) && Glob.Matches(filter, r.fullName) && u == DetailPath(r)
    {
      var pages := Paginate(server, ReposPath(organization), bound);
      var repos := [];
      var i := 0;
      while i < |pages|
        invariant 0 <= i <= |pages|
        invariant repos == Summaries(pages[..i])
      {
        assert pages[..i + 1][..i] == pages[..i];
        repos := repos + pages[i].items;
        i := i + 1;
      }
      assert pages[..i] == pages;
      var filtered := Selected(repos, filter);
      var paths := seq(|filtered|, k requires 0 <= k < |filtered| => DetailPath(filtered[k]));
      requested := paths;
      forall u ensures u in requested <==> exists r :: r in repos && Glob.Matches(filter, r.fullName) && u == DetailPath(r) {
        if u in requested {
          var k :| 0 <= k < |filtered| && requested[k] == u;
          SelectedMembers(repos, filter, filtered[k]);
        }
        forall r | r in repos && Glob.Matches(filter, r.fullName) && u == DetailPath(r) ensures u in requested {
          SelectedMembers(repos, filter, r);
          var k :| 0 <= k < |filtered| && filtered[k] == r;
          assert requested[k] == u;
        }
      }
      var auth := Headers();
      var realRepos := Project((path: string) => fetch(ApiRoot + path, auth), paths);
      assert realRepos == Details(filtered, fetch, auth);
      urls := Accessible(realRepos);
      forall other | IsPagination(server, Headers(), ApiRoot + ReposPath(organization), other) ensures other == pages {
        PaginationUnique(server, Headers(), ApiRoot + ReposPath(organization), other, pages);
      }
    }

    /** `git -c core.askpass=true ls-remote <remote> HEAD`, the remote carrying the token. */
    function ExistsCommand(url: string): (c: seq<Arg>)
      ensures |c| == 6 && c[4] == InjectToken(url, token)
      ensures forall i :: 0 <= i < |c| && i != 4 ==> Secrets(c[i]) == []
    {
      [Plain("git"), Plain("-c"), Plain("core.askpass=true"), Plain("ls-remote"), InjectToken(url, token), Plain("HEAD")]
    }

    /** `exists(url)`: run `ls-remote` and read its answer. */
    function Exists(run: Runner, url: string): (r: Result<bool>)
      ensures r == Ok(true) <==> run(ExistsCommand(url), None).code == 0
      ensures r == Ok(false) <==> run(ExistsCommand(url), None).code != 0 && RepositoryNotFound(run(ExistsCommand(url), None).output)
      ensures r.Err? <==> run(ExistsCommand(url), None).code != 0 && !RepositoryNotFound(run(ExistsCommand(url), None).output)
      ensures r.Err? ==> r.error == TaskError(run(ExistsCommand(url), None).code, run(ExistsCommand(url), None).output)
    {
      ClassifyExists(run(ExistsCommand(url), None))
    }

    /** `git remote get-url origin`, run inside the directory. */
    function RemoteCommand(): (c: seq<Arg>)
      ensures |c| == 4 && forall i :: 0 <= i < |c| ==> Secrets(c[i]) == []
    {
      [Plain("git"), Plain("remote"), Plain("get-url"), Plain("origin")]
    }

    /** `remote(directory)`: the `origin` URL of a checkout, if it is one. */
    function Remote(run: Runner, directory: string): (r: Result<Option<string>>)
      ensures r.Ok? && r.value.Some? <==> run(RemoteCommand(), Some(directory)).code == 0
      ensures var res := run(RemoteCommand(), Some(directory));
        res.code == 0 ==> r == Ok(Some(Strip(res.output)))
      ensures var res := run(RemoteCommand(), Some(directory));
        r == Ok(None) <==> res.code != 0 && exists k :: OccursAt(res.output, NotARepository, k)
      ensures var res := run(RemoteCommand(), Some(directory));
        r.Err? <==> res.code != 0 && forall k :: !OccursAt(res.output, NotARepository, k)
      ensures var res := run(RemoteCommand(), Some(directory));
        r.Err? ==> r.error == TaskError(res.code, res.output)
    {
      ClassifyRemote(run(RemoteCommand(), Some(directory)))
    }

    /** `clone(url, directory)`: `git -c core.askpass=true clone <remote> <directory>`. */
    function CloneCommand(url: string, directory: string): (c: seq<Arg>)
      ensures |c| == 6 && c[4] == InjectToken(url, token)
      ensures c[|c| - 1] == Plain(directory)
      ensures forall i :: 0 <= i < |c| && i != 4 ==> Secrets(c[i]) == []
    {
      [Plain("git"), Plain("-c"), Plain("core.askpass=true"), Plain("clone"), InjectToken(url, token), Plain(directory)]
    }

    /**
      `pull(url, directory)`: a missing directory is created and `git init`
      run in it first; then `git pull <remote>` runs inside it.
     */
    function PullCommands(url: string, directory: string, present: bool): (cmds: seq<Invocation>)
      ensures |cmds| == if present then 1 else 2
      ensures cmds[|cmds| - 1] == Invocation([Plain("git"), Plain("pull"), InjectToken(url, token)], Some(directory))
      ensures !present ==> cmds[0] == Invocation([Plain("git"), Plain("init")], Some(directory))
      ensures forall k :: 0 <= k < |cmds| ==> cmds[k].cwd == Some(directory)
    {
      var pull := Invocation([Plain("git"), Plain("pull"), InjectToken(url, token)], Some(directory));
      if present then [pull]
      else [Invocation([Plain("git"), Plain("init")], Some(directory)), pull]
    }
  }

  /** Argument lists that differ only in their secrets display the same. */
  lemma DisplayAllIgnoresSecrets(a: seq<Arg>, b: seq<Arg>, marker: string)
    requires |a| == |b|
    requires forall i :: 0 <= i < |a| ==> Skeleton(a[i]) == Skeleton(b[i])
    ensures DisplayAll(a, marker) == DisplayAll(b, marker)
  {
    forall i | 0 <= i < |a| ensures Display(a[i], marker) == Display(b[i], marker) {
      DisplayIgnoresSecrets(a[i], b[i], marker);
    }
  }

  /**
    The commands `exists`, `clone` and `pull` run display the same whatever
    the token, as long as there is one: the token is only ever executed.
   */
  lemma CommandsHideToken(t1: string, t2: string, url: string, directory: string, present: bool, marker: string)
    requires t1 != "" && t2 != ""
    ensures DisplayAll(Github(Some(t1)).ExistsCommand(url), marker) == DisplayAll(Github(Some(t2)).ExistsCommand(url), marker)
    ensures DisplayAll(Github(Some(t1)).CloneCommand(url, directory), marker) == DisplayAll(Github(Some(t2)).CloneCommand(url, directory), marker)
    ensures forall k :: 0 <= k < |Github(Some(t1)).PullCommands(url, directory, present)| ==>
      DisplayAll(Github(Some(t1)).PullCommands(url, directory, present)[k].args, marker)
        == DisplayAll(Github(Some(t2)).PullCommands(url, directory, present)[k].args, marker)
  {
    ExistsHidesToken(t1, t2, url, marker);
    CloneHidesToken(t1, t2, url, directory, marker);
    PullHidesToken(t1, t2, url, directory, present, marker);
  }

  lemma ExistsHidesToken(t1: string, t2: string, url: string, marker: string)
    requires t1 != "" && t2 != ""
    ensures DisplayAll(Github(Some(t1)).ExistsCommand(url), marker) == DisplayAll(Github(Some(t2)).ExistsCommand(url), marker)
  {
    var pre, post := [Plain("git"), Plain("-c"), Plain("core.askpass=true"), Plain("ls-remote")], [Plain("HEAD")];
    assert Github(Some(t1)).ExistsCommand(url) == pre + [InjectToken(url, Some(t1))] + post by {}
    assert Github(Some(t2)).ExistsCommand(url) == pre + [InjectToken(url, Some(t2))] + post by {}
    InjectHidesToken(url, t1, t2, marker);
    DisplayAllIgnoresSecretIn(pre, InjectToken(url, Some(t1)), InjectToken(url, Some(t2)), post, marker);
  }

  lemma CloneHidesToken(t1: string, t2: string, url: string, directory: string, marker: string)
    requires t1 != "" && t2 != ""
    ensures DisplayAll(Github(Some(t1)).CloneCommand(url, directory), marker) == DisplayAll(Github(Some(t2)).CloneCommand(url, directory), marker)
  {
    var pre, post := [Plain("git"), Plain("-c"), Plain("core.askpass=true"), Plain("clone")], [Plain(directory)];
    assert Github(Some(t1)).CloneCommand(url, directory) == pre + [InjectToken(url, Some(t1))] + post by {}
    assert Github(Some(t2)).CloneCommand(url, directory) == pre + [InjectToken(url, Some(t2))] + post by {}
    InjectHidesToken(url, t1, t2, marker);
    DisplayAllIgnoresSecretIn(pre, InjectToken(url, Some(t1)), InjectToken(url, Some(t2)), post, marker);
  }

  lemma PullHidesToken(t1: string, t2: string, url: string, directory: string, present: bool, marker: string)
    requires t1 != "" && t2 != ""
    ensures forall k :: 0 <= k < |Github(Some(t1)).PullCommands(url, directory, present)| ==>
      DisplayAll(Github(Some(t1)).PullCommands(url, directory, present)[k].args, marker)
        == DisplayAll(Github(Some(t2)).PullCommands(url, directory, present)[k].args, marker)
  {
    InjectHidesToken(url, t1, t2, marker);
    var pre := [Plain("git"), Plain("pull")];
    var p1, p2 := Github(Some(t1)).PullCommands(url, directory, present), Github(Some(t2)).PullCommands(url, directory, present);
    assert p1[|p1| - 1].args == pre + [InjectToken(url, Some(t1))] + [];
    assert p2[|p2| - 1].args == pre + [InjectToken(url, Some(t2))] + [];
    DisplayAllIgnoresSecretIn(pre, InjectToken(url, Some(t1)), InjectToken(url, Some(t2)), [], marker);
  }

  /** Argument lists that differ only in the secrets of one argument display the same. */
  lemma DisplayAllIgnoresSecretIn(pre: seq<Arg>, x: Arg, y: Arg, post: seq<Arg>, marker: string)
    requires Skeleton(x) == Skeleton(y)
    ensures DisplayAll(pre + [x] + post, marker) == DisplayAll(pre + [y] + post, marker)
  {
    var a, b := pre + [x] + post, pre + [y] + post;
    forall i | 0 <= i < |a| ensures Skeleton(a[i]) == Skeleton(b[i]) {
      if i < |pre| {
        assert a[i] == pre[i] == b[i];
      } else if i > |pre| {
        assert a[i] == post[i - |pre| - 1] == b[i];
      }
    }
    DisplayAllIgnoresSecrets(a, b, marker);
  }
}
