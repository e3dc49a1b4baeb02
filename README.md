# GitHub provider of forge, modelled in Dafny

This project models the GitHub integration of forge (`forge/github.py`). It covers five things:

- how the client walks the organisation's paginated repository collection by following `rel="next"` links;
- how `list` filters that collection by a glob on the full name and keeps only the repositories whose detail record has an `id`;
- how `inject_token` puts the API token into a git remote so that the executed argument carries it and the displayed one does not;
- how `exists` and `remote` turn git's exit code and output into `True`/`False`, a URL or nothing, or a `TaskError`;
- which commands `exists`, `clone` and `pull` run.

Modules:

- `Base`: `Option` and Python truthiness of an optional string.
- `Text`: the Python 2 string builtins the code uses: `in`, `split(sep, 1)` and `strip()`.
- `Glob`: the `*`/`?` subset of `fnmatch`.
- `Tasks`: the task-runner collaborators. A command argument is a sequence of shown and hidden segments (`Elidable`/`Secret`) with a real and a displayed rendering. It also holds a command's result, `TaskError`, and `project` as an order-preserving map.
- `Github`: `forge/github.py` itself. The client is the value `Github(token)`, because its fields never change after construction.
- `Scenarios`: worked cases over concrete inputs.

Everything outside the process is a parameter:

- `Server` answers an HTTP GET of a URL sent with an `Authorization` header. It gives the parsed response: the ok flag, the `Link` header (the `next` relation of section 3 of RFC 8288) and the body as a list of repositories.
- `Fetcher` answers a GET of a detail URL with the decoded record.
- `Runner` maps a git argument list and a working directory to an exit code and output.

Pagination follows the code, not the stricter "stop on any failed page" reading. Only the FIRST response's `ok` is checked (forge/github.py:46). After that, `paginate` follows next links whatever the status of the later pages (lines 48-51). `Github.LaterFailureDoesNotStop` shows a failed second page that links onward being followed by a third.

`list` returns `(full_name, clone_url)` taken from each DETAIL record (line 66), not from the summary in the listing.

## Model

| member | source | states |
|---|---|---|
| `Github.FirstNextIndex` | forge/github.py:21-23 | the index found is the first link whose `rel` is `next`; when there is none, no link has that relation |
| `Github.NextLink` | forge/github.py:18-24 | a URL comes back exactly when there is a `Link` header with some `next` link, and it is the target of the first such link; other relations are skipped |
| `Github.NextPage` | forge/github.py:18-24 | the loop over the links returns what `NextLink` specifies: the first `next` target, or nothing |
| `Github.InjectToken` | forge/github.py:26-32 | with no token (`None` or `""`) the result is the url as one plain argument; with a token the token is the one and only secret segment |
| `Github.InjectUrlStyle` | forge/github.py:28-30 | for a url split at its first `://` into scheme and rest, the executed argument is `scheme://token@rest` and the displayed one `scheme://marker@rest`; `rest` may itself contain `://` |
| `Github.InjectScpStyle` | forge/github.py:31-32 | for a remote without `://` the executed argument is `token@url` and the displayed one `marker@url` |
| `Github.InjectHidesToken` | forge/github.py:26-32 | the shown segments and the displayed argument are the same whatever non-empty token is injected, so the token never reaches the display |
| `Github.Github.Paginate` | forge/github.py:43-51 | the yielded responses are a pagination: first the response to the API URL; only that one if it is not ok; otherwise each later response is fetched with the same header from the previous one's first next link, and the last has none |
| `Github.PaginationUnique` | forge/github.py:43-51 | the yielded sequence is determined by the server, the header and the first URL, so every chain of ok-started linked pages ending without a next link is exactly what paginate yields |
| `Github.LaterFailureDoesNotStop` | forge/github.py:46-51 | a failed page after the first does not stop pagination: a three-page pagination exists whose second page is not ok |
| `Github.Github.List` | forge/github.py:59-67 | a pagination of the organisation's collection exists, and for it (it is unique) the result is the catalog of all its pages' repositories; a detail path is requested for exactly the repositories whose full name matches the filter |
| `Github.CatalogMembers` | forge/github.py:59-67 | a pair is listed exactly when some collected repository matches the filter and the detail record fetched for it has an `id`; the pair is that record's `(full_name, clone_url)` |
| `Github.CatalogAppend` | forge/github.py:59-67 | page order is kept: the catalog of two runs of repositories is the catalog of the first followed by that of the second |
| `Github.Details` | forge/github.py:65 | one detail record per selected repository, in order, each fetched from that repository's detail URL with the client's header |
| `Github.Selected` | forge/github.py:63 | every kept repository was listed and its full name matches the filter |
| `Github.SelectedAppend` | forge/github.py:63 | filtering distributes over concatenation, so matches keep their page order |
| `Github.SelectedMembers` | forge/github.py:63 | a repository survives the filter exactly when it was listed and its full name matches |
| `Github.DefaultFilterKeepsAll` | forge/github.py:59-63 | the default filter `*` keeps every repository |
| `Github.AccessibleMembers` | forge/github.py:66 | a pair is kept exactly when some detail record with an `id` has that full name and clone url |
| `Github.AccessibleAppend` | forge/github.py:66 | keeping accessible records distributes over concatenation |
| `Github.SuffixMatchesCorrect` | forge/github.py:74 | the searcher for `.*' not found` at a position succeeds exactly when the closing phrase follows on the same line |
| `Github.FatalMatchesFromCorrect` | forge/github.py:74 | the searcher for `fatal: repository '.*' not found` succeeds exactly when the pattern occurs at or after the start position |
| `Github.MentionsNotFound` | forge/github.py:74 | the search is true exactly when the output contains either not-found phrasing, with `.` never crossing a line break |
| `Github.ClassifyExists` | forge/github.py:72-77 | true if and only if the exit code is 0; false if and only if the code is non-zero and the output says the repository was not found; otherwise a `TaskError` carrying the code and output |
| `Github.Github.Exists` | forge/github.py:69-77 | `exists` runs `ls-remote` on the injected remote and answers true exactly on exit code 0, false exactly on a not-found failure, and otherwise raises a `TaskError` carrying the code and output |
| `Github.ClassifyRemote` | forge/github.py:81-87 | exit code 0 gives the output with its surrounding whitespace removed; a failure mentioning "Not a git repository" gives no remote; any other failure a `TaskError` |
| `Github.Github.Remote` | forge/github.py:79-87 | for `git remote get-url origin` run in the directory: a URL comes back exactly on exit code 0, and it is the output with its surrounding whitespace removed; no remote exactly when a failure's output mentions "Not a git repository"; otherwise a `TaskError` carrying the code and output |
| `Github.Github.PullCommands` | forge/github.py:53-57 | a missing directory gets `git init` in that directory first; the last command is always `git pull` of the injected remote; every command runs inside the directory |
| `Github.Github.CloneCommand` | forge/github.py:89-90 | `clone` runs six arguments: the fifth is the injected remote, the last is the target directory, and no other argument carries a secret |
| `Github.Github.ExistsCommand` | forge/github.py:70-71 | `ls-remote` runs six arguments: the fifth is the injected remote and no other argument carries a secret |
| `Github.Github.RemoteCommand` | forge/github.py:80 | `git remote get-url origin` carries no secret |
| `Github.Github.Headers` | forge/github.py:38 | an `Authorization` header is sent exactly when the token is truthy, and it is `token ` followed by the token |
| `Github.Github.Get` | forge/github.py:40-41 | `get` requests the API path below `https://api.github.com/`, without a header when the token is `None` or empty and with `token <token>` otherwise |
| `Github.CommandsHideToken` | forge/github.py:53-90 | the commands `exists`, `clone` and `pull` run display the same for every non-empty token |
| `Github.ExistsHidesToken` | forge/github.py:70-71 | the `ls-remote` command displays the same for every non-empty token |
| `Github.CloneHidesToken` | forge/github.py:89-90 | the `clone` command displays the same for every non-empty token |
| `Github.PullHidesToken` | forge/github.py:53-57 | every command of `pull` displays the same for every non-empty token |
| `Text.SplitOnce` | forge/github.py:28 | `split("://", 1)` gives one part (the whole url) exactly when the separator is absent; otherwise the text before its first occurrence and everything after it |
| `Text.Contains` | forge/github.py:84 | `pat in s` holds exactly when `pat` occurs at some index |
| `Text.Strip` | forge/github.py:82 | the result has no whitespace at either end and sits in the input with only whitespace around it |
| `Text.StripUnique` | forge/github.py:82 | whatever trimmed core a string is built around, strip returns exactly that core |
| `Text.StripIdempotent` | forge/github.py:82 | stripping twice is stripping once |
| `Glob.StarMatchesAll` | forge/github.py:59 | the pattern `*` matches every name |
| `Glob.LiteralMatchesItself` | forge/github.py:63 | a pattern without wildcards matches exactly the identical name |
| `Glob.PrefixStarMatches` | forge/github.py:63 | a literal prefix followed by `*` matches every name with that prefix |
| `Tasks.DisplayIgnoresSecrets` | forge/github.py:30-32 | two arguments that differ only in their secret payloads display the same |
| `Tasks.RealAppend` | forge/github.py:30-32 | the executed argument of a concatenation is the concatenation of the executed arguments |
| `Tasks.DisplayAppend` | forge/github.py:30-32 | the displayed argument of a concatenation is the concatenation of the displayed arguments |
| `Tasks.SecretsAppend` | forge/github.py:30-32 | the secrets of a concatenation are the secrets of each part, in order |
| `Tasks.Project` | forge/github.py:65 | `project` returns one result per item, in the order of the items, each the fetch applied to that item |
| `Scenarios.SelectServices` | forge/github.py:63 | `acme/svc-*` keeps `acme/svc-a` and `acme/svc-b` and drops `acme/other`, in page order |
| `Scenarios.CatalogOverTwoPages` | forge/github.py:59-67 | listing `acme` with `acme/svc-*` over two pages gives the two service repositories, as their detail records describe them |
| `Scenarios.ExistsNotFound` | forge/github.py:74-75 | exit 128 with `fatal: repository 'foo' not found` means the repository does not exist |
| `Scenarios.ExistsOtherFailure` | forge/github.py:76-77 | exit 1 with `permission denied` raises a `TaskError` carrying that output |
| `Scenarios.InjectWithoutToken` | forge/github.py:27 | without a token the remote is one plain argument with no secret |

## Left out

- HTTP requests and the parsing of the `Link` header text (`requests`, `parse_header_links`) are outside the model. A response arrives with its links already parsed.
- JSON decoding is outside the model. A collection page decodes to a list of repositories and a detail URL to one record. Error bodies that are not lists, and the `KeyError` for a missing `rel`, `full_name` or `clone_url`, are not modelled.
- Github.Paginate: the generator may never end. The model takes a ghost bound witnessing that the chain of next links ends, and requires it only when the first response is ok.
- Github.List: requires the same ghost bound on the organisation's pagination as Github.Paginate. Detail fetches that fail with an exception are not modelled.
- `project` runs its calls concurrently and raises after all of them finish if one failed. The model applies the fetch to each item in turn and keeps only the order of the results.
- `fnmatch` is modelled for `*`, `?` and literal characters. Bracket classes `[...]` and `os.path.normcase` are not modelled.
- The regular expression at forge/github.py:74 is modelled as this one pattern, not through a regex engine.
- Running commands through `sh`, the `expected=xrange(256)` exit-code check done inside `sh`, and the text of a `TaskError` (`result` at line 77 versus `str(result)` at line 87) are not modelled. Both errors carry the exit code and the output.
- Github.PullCommands: `os.path.exists`, `os.makedirs` and stopping after a failed `git init` belong to `sh` and the file system. The model gives only the commands and their working directory.
- `clone` is modelled only through the command it runs (`Github.CloneCommand`). The model has no result for it.
- The internals of `Elidable` and `Secret` and the redaction marker belong to `forge/tasks`, which is not part of this model. The marker is a parameter.
