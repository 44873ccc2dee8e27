# Repository analyzer service: a Dafny model of its core

The service is a small Flask application over GitPython. It clones remote
repositories into a single directory, `cloned_repos`, and answers four
requests about them:

- `GET /commit/<repo_name>/<commit_hash>` gives one commit's per-file patches.
- `POST /clone_repo` with `{"url": ...}` clones a repository.
- `GET /latest_changes/<repo_name>` gives at most ten commits of the history walk.
- `GET /readme/<repo_name>` gives the text of the top-level `README.md`.

This project models the logic of `app.py` that decides what each request
answers:

- how a repository name is normalised and turned into a path;
- how a clone URL becomes a repository name;
- in what order each handler checks things, and which exception becomes
  which status code;
- how the engine's answers are shaped into JSON payloads.

The model is made of pure functions over immutable values:

- `outcomes.dfy`: `Outcome<T>` is what a call produced: a value
  (`Found`), an exception of class `ValueError` (`ValueErrorRaised`), or
  any other exception (`OtherError`). A handler's `try` block is written as
  a `:-` chain, which stops at the first exception, as Python does. Its
  `except` clauses are a `match` on the result, with the `ValueError` case
  first.
- `paths.dfy`: `.git` normalisation, Python's `str.split('/')`, its `[-1]`
  element, and the two-argument POSIX `os.path.join`.
- `gateway.dfy`: the version-control engine and the UTF-8 decoder, as a
  `Gateway` value. Each field is an arbitrary total function that gives the
  outcome of one call. A lemma proved for every `Gateway` holds whatever
  the engine does. "The engine is never consulted" is stated as: two
  different gateways give the same response.
- `shaping.dfy`: the commit diff's change entries, the find-first choice of
  the default branch, and the first-ten listing of the history walk.
- `handlers.dfy`: the four endpoints. Each takes a `Store` (the existing
  directories and files) and returns a `Response(status, body)`.
  `clone_repo` also returns the new `Store`.
- `scenarios.dfy`: end-to-end runs on a repository named `sample`.

Three behaviours of `app.py` are easy to misread:

- **Undecodable patches.** A patch that is not valid UTF-8 raises
  `UnicodeDecodeError`, which is a subclass of `ValueError`. So the
  handler answers 404 "Commit not found.".
- **Default-branch choice.** The source takes the *first* remote ref, in
  listing order, whose `remote_head` is `HEAD` (`FirstDefault`).
- **Default-branch name.** The name whose history is walked is the last
  `/`-segment of that ref's name. A remote ref is named
  `<remote>/<remote_head>`, so for the ref that marks the default branch
  this segment is always `HEAD`, not the branch the remote's HEAD points
  to. `DefaultBranchNameIsHead` proves this.

Every commit is diffed against the literal revision `HEAD~1`. The model
passes `HEAD~1` unchanged to the engine's diff call (`DiffBase`); it is not
the looked-up commit's parent.

A clone URL that ends in `/` has an empty last segment. Such a URL is
cloned into `cloned_repos/.git`, whatever repository it names
(`TrailingSeparatorUrl`).

## Model

| member | source | states |
|---|---|---|
| Paths.Normalize | app.py:12-13 | the result always ends in `.git` and starts with the given name; it equals the name exactly when the name already ends in `.git`, and is otherwise the name with `.git` appended |
| Paths.NormalizeIdempotent | app.py:12-13 | normalising twice is the same as normalising once |
| Paths.NormalizeFixedPoints | app.py:12-13 | the names normalisation leaves unchanged are exactly those ending in `.git`, and exactly the names normalisation can produce |
| Paths.Split | app.py:45 | `split('/')` yields at least one piece and no piece contains `/` |
| Paths.JoinSplit | app.py:45 | joining the pieces of a split with `/` gives the original string back |
| Paths.SplitJoin | app.py:45 | splitting the `/`-join of `/`-free pieces gives the pieces back |
| Paths.LastSegment | app.py:45 | the tail after the last `/` is `/`-free, is a suffix of the string, and is either the whole string or starts right after a `/` |
| Paths.LastSegmentUnique | app.py:45 | only one suffix has those three properties |
| Paths.LastOfSplit | app.py:45 | element `[-1]` of `split('/')` is the tail after the last `/` |
| Paths.LastSegmentAfterSeparator | app.py:45 | whatever comes before a final `/`, element `[-1]` is what follows it |
| Paths.RepoPathOfPlainName | app.py:14 | a non-empty name without `/` is stored at `cloned_repos/<name>` |
| Paths.PathJoin | app.py:14 | the joined path ends with its second part; an absolute second part replaces the first; otherwise the joined path starts with the first part |
| Paths.RepoPathBelowRoot | app.py:14 | a name that does not start with `/` lands at `cloned_repos/<name>` |
| Paths.ReadmeInsideRepo | app.py:84-85 | the README of a normalised name is `<repo_path>/README.md` |
| Paths.RepoNameFromUrl | app.py:45-48 | the name derived from a URL contains no `/`, ends in `.git`, is the normalised tail of the URL after its last `/`, and its path is exactly `cloned_repos/<name>` |
| Paths.RepoNameOfGitUrl | app.py:45-47 | a URL whose last segment already ends in `.git` is stored under exactly that segment |
| Paths.TrailingSeparatorUrl | app.py:45-47 | a URL ending in `/` has an empty last segment and is stored under the bare name `.git` |
| Shaping.ShapeEntry | app.py:26-29 | an entry keeps the diff's `a_path` (possibly absent); its text is `''` for an absent or empty patch and the decoded patch otherwise; an undecodable patch raises a `ValueError` |
| Shaping.ShapeDiffs | app.py:23-30 | the entries succeed exactly when every patch decodes; then there is one entry per diff, in order, each being that diff's shaped entry; otherwise the result is a `ValueError` |
| Shaping.CollectChanges | app.py:23-29 | the append loop gives one entry per diff with the same `a_path`, and gives exactly what `ShapeDiffs` gives, including stopping at the first undecodable patch |
| Shaping.FirstDefault | app.py:68 | the chosen ref marks `HEAD` and no earlier ref does; there is no choice exactly when no ref marks `HEAD` |
| Shaping.FirstDefaultAt | app.py:68 | when ref `i` marks `HEAD` and no earlier ref does, ref `i` is the one chosen |
| Shaping.FirstDefaultAppend | app.py:68 | refs listed after a match never change the choice; non-matching refs listed before it only shift its index |
| Shaping.BranchShortName | app.py:71 | the branch name is `/`-free and is the tail of the ref's full name after its last `/` |
| Shaping.DefaultBranchNameIsHead | app.py:68-71 | for a ref named `<remote>/<remote_head>` that marks the default branch, the branch name used is `HEAD` |
| Shaping.Recent | app.py:74 | the walk is cut to its first `min(10, length)` commits, as a prefix in the walk's order |
| Shaping.RecentKeepsShortHistory | app.py:74 | a walk of at most ten commits is kept whole; commits after the tenth never matter |
| Shaping.Summaries | app.py:75 | one summary per commit, in order, with hash and message copied verbatim |
| Shaping.RecentListing | app.py:74-75 | the listing has at most ten entries; entry `i` carries the hash and the untrimmed message of the `i`-th commit of the walk |
| Handlers.GetCommitDiff | app.py:11-35 | the status is 200, 400 or 404; the answer is 404 "Repository not found." exactly when the repository directory is missing; every other 404 is "Commit not found."; a 200 carries change entries |
| Handlers.CommitDiffMissingRepoIgnoresEngine | app.py:14-19 | the directory test comes before any engine call: without the directory, the response is the same for every engine |
| Handlers.CommitDiffStages | app.py:18-35 | a `ValueError` from opening, commit lookup or diffing gives 404 "Commit not found."; any other exception gives 400 with its message |
| Handlers.CommitDiffSuccess | app.py:19-33 | once open, lookup and the `HEAD~1` diff succeed: 200 exactly when every present patch decodes, otherwise 404 "Commit not found."; on 200, entry `i` has diff `i`'s `a_path` and its decoded text, or `''` when there is no patch |
| Handlers.CommitDiffEmpty | app.py:23-30 | an empty diff list gives 200 with `[]` |
| Handlers.CloneTarget | app.py:45-48 | a URL is cloned to `cloned_repos/<name derived from the URL>` |
| Handlers.CloneRepo | app.py:38-55 | an absent or empty `url` gives 400 "URL is required." with the store unchanged; the status is 200, 201 or 400; only 201 changes the store; 200 is "already cloned" and happens only when the target directory already existed; 201 means the target was new, the directories become old ∪ {target}, and the message names the target; for a new target, a successful clone call gives 201 and a failed one gives 400 with the engine's message and the store unchanged |
| Handlers.CloneExistingIgnoresEngine | app.py:48-52 | an existing target directory gives 200 "Repository already cloned." and leaves the store unchanged, with no clone call: the result is the same for every engine |
| Handlers.CloneNewTarget | app.py:49-55 | for a new target, a successful clone gives 201 and adds exactly one directory; a failed clone gives 400 with the engine's message and leaves the store unchanged |
| Handlers.CloneFiles | app.py:49-53 | a clone changes no file other than the clone's own `README.md`; on a 201 the README the clone reported is stored as reported, and with none reported the files are unchanged |
| Handlers.CloneIdempotent | app.py:49-53 | after a 200 or 201, the same request again gives 200 "already cloned" and leaves the store unchanged, whatever the engine would do |
| Handlers.LatestChanges | app.py:58-78 | the status is 200, 400 or 404; it is 404 ("Repository not found.") exactly when the repository directory is missing; a 200 lists at most ten commits |
| Handlers.LatestMissingRepoIgnoresEngine | app.py:61-66 | without the repository directory, the response is the same for every engine |
| Handlers.LatestStages | app.py:65-78 | an exception from opening, listing the remote refs or walking the history, whether a `ValueError` or not, gives 400 carrying its message; no `HEAD`-marking ref gives 400 "Default branch not found."; a successful walk gives 200 with its first commits listed |
| Handlers.LatestNoDefaultBranch | app.py:68-78 | when no remote ref marks `HEAD`, the answer is 400 "Default branch not found.", not 404 |
| Handlers.LatestListing | app.py:65-76 | with the first `HEAD`-marking ref chosen, the history walked is that of the last `/`-segment of its name; the 200 listing has `min(10, length)` entries, each with the walk's hash and message in order |
| Handlers.ReadmeLocation | app.py:82-85 | the README is looked for at `<repo path>/README.md` |
| Handlers.GetReadme | app.py:81-94 | 404 "README.md not found." exactly when the README file is absent; 200 returns the file's text unchanged; 400 carries the read error's message |
| Handlers.ReadmeIgnoresDirectories | app.py:84-87 | which directories exist makes no difference; a missing repository gives the same "README.md not found." as a missing README |
| Handlers.CloneThenFound | app.py:45-63 | after a clone or "already cloned", `get_commit_diff` and `latest_changes` for any name that normalises to the clone's name find the repository directory |
| Handlers.CloneThenReadme | app.py:82-92 | after a fresh clone that checked out a readable `README.md`, `get_readme` for the clone's name returns its text |
| Scenarios.SampleLocations | app.py:12-14 | the URL `https://example.com/sample.git` and the names `sample` and `sample.git` all lead to `cloned_repos/sample.git` |
| Scenarios.CloneSampleTwice | app.py:44-53 | cloning into an empty root gives 201 and creates `cloned_repos/sample.git`; repeating the request gives 200 and changes nothing |
| Scenarios.UnknownCommit | app.py:14-33 | a hash whose lookup raises a `ValueError` gives 404 "Commit not found.", an uncloned repository gives 404 "Repository not found.", and the two bodies differ |
| Scenarios.LatestOfUnknownRepo | app.py:59-63 | `latest_changes` for a name that was never cloned gives 404 |
| Scenarios.ReadmeOfSample | app.py:82-92 | a README reading `# Hello` is returned as exactly `# Hello` |

## Left out

- Flask routing, `jsonify` and HTTP details: a response is only its status code and body.
- The `os.makedirs` call at start-up (app.py:7-8) and the real file system: the `Store` is a set of directory paths plus a map from file paths to what reading each file produces.
- GitPython itself: repository opening, commit resolution, diffing against `HEAD~1`, ref listing, history walking and cloning. These are foreign calls, so each is a `Gateway` field whose outcome is given. The exceptions they raise, and whether each is a `ValueError`, come from the engine.
- UTF-8 decoding and the platform text encoding of `open()`. Decoding is an opaque partial function. Reading a file is a given outcome.
- Handlers.CloneRepo: the `url` field is modelled as an optional string. A body that is not a JSON object and non-string `url` values (for example, a number, whose missing `split` would give a 400) are not modelled.
- Handlers.CloneRepo: a failed clone leaves the store unchanged. Any partial directory the engine leaves behind is not modelled.
- Handlers.CloneRepo: a successful clone adds to the files only the checked-out top-level `README.md`, as reported by the clone outcome. The other files it checks out are not modelled, because no handler reads them.
- Shaping.Recent: `max_count=10` is applied to the whole history walk given by the engine. The model does not say whether the engine stops walking early.
- Concurrent clones of the same repository: there is no locking, and the model is sequential.
- `app.run` (app.py:96-97).
