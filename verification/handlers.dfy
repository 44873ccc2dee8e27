/** The four HTTP endpoints of the service as pure functions from the state
    of the file system, the engine (a `Gateway`) and the request's
    parameters to the response: its status code and its JSON body. */
module Handlers {
  import opened Outcomes
  import opened Paths
  import opened Gateway
  import opened Shaping

  const RepoMissing: string := "Repository not found."
  const CommitMissing: string := "Commit not found."
  const UrlRequired: string := "URL is required."
  const AlreadyCloned: string := "Repository already cloned."
  const ClonedInto: string := "Repository cloned into "
  const NoDefaultBranch: string := "Default branch not found."
  const ReadmeMissing: string := "README.md not found."
  /** The revision every commit is diffed against (app.py:22), passed to the
      engine as it is written; it is not the looked-up commit's parent. */
  const DiffBase: string := "HEAD~1"

  /** The part of the file system the handlers look at: the directories
      that exist, and the regular files that exist together with what
      reading one as text produces. */
  datatype Store = Store(dirs: set<string>, files: map<string, Outcome<string>>)

  /** The JSON body: a `NotFound`/`BadRequest` description, a `message`
      object, or one of the three success payloads. */
  datatype Body =
    | Error(description: string)
    | Message(text: string)
    | Changes(entries: seq<ChangeEntry>)
    | Commits(summaries: seq<CommitSummary>)
    | Readme(content: string)

  datatype Response = Response(status: nat, body: Body)

  function NotFound(description: string): Response {
    Response(404, Error(description))
  }

  function BadRequest(description: string): Response {
    Response(400, Error(description))
  }

  /** Where a repository name is looked for: `cloned_repos/<name>.git`. */
  function Located(repoName: string): string {
    RepoPath(Normalize(repoName))
  }

  // ---------------------------------------------------------------------
  // GET /commit/<repo_name>/<commit_hash>

  /** The statements of the `try` block of `get_commit_diff`; the first
      exception ends it. */
  function CommitDiffAttempt(path: string, commitHash: string, g: Gateway): Outcome<seq<ChangeEntry>> {
    var repo :- g.openRepo(path);
    var commit :- g.lookupCommit(repo, commitHash);
    var diffs :- g.diff(commit, DiffBase);
    ShapeDiffs(diffs, g.decodeUtf8)
  }

  function GetCommitDiff(store: Store, g: Gateway, repoName: string, commitHash: string): (r: Response)
    ensures r.status in {200, 400, 404}
    ensures r == NotFound(RepoMissing) <==> Located(repoName) !in store.dirs
    ensures r.status == 404 ==> r.body in {Error(RepoMissing), Error(CommitMissing)}
    ensures r.status == 200 ==> r.body.Changes?
  {
    var path := Located(repoName);
    if path !in store.dirs then NotFound(RepoMissing)
    else
      match CommitDiffAttempt(path, commitHash, g)
      case Found(entries) => Response(200, Changes(entries))
      case ValueErrorRaised(_) => NotFound(CommitMissing)
      case OtherError(m) => BadRequest(m)
  }

  /** A repository that is not cloned is reported before the engine is
      asked anything: the response is the same whatever the engine would
      have done. */
  lemma CommitDiffMissingRepoIgnoresEngine(store: Store, g1: Gateway, g2: Gateway, repoName: string, commitHash: string)
    requires Located(repoName) !in store.dirs
    ensures GetCommitDiff(store, g1, repoName, commitHash) == GetCommitDiff(store, g2, repoName, commitHash)
  {
  }

  /** Classification of each engine step: an exception of class `ValueError`
      from opening, lookup or diffing is "Commit not found." (404), any
      other exception is a 400 carrying its message. */
  lemma CommitDiffStages(store: Store, g: Gateway, repoName: string, commitHash: string)
    requires Located(repoName) in store.dirs
    ensures var r := GetCommitDiff(store, g, repoName, commitHash);
      var opening := g.openRepo(Located(repoName));
      && (opening.ValueErrorRaised? ==> r == NotFound(CommitMissing))
      && (opening.OtherError? ==> r == BadRequest(opening.message))
      && (opening.Found? ==>
            var looked := g.lookupCommit(opening.value, commitHash);
            && (looked.ValueErrorRaised? ==> r == NotFound(CommitMissing))
            && (looked.OtherError? ==> r == BadRequest(looked.message))
            && (looked.Found? ==>
                  var diffed := g.diff(looked.value, DiffBase);
                  && (diffed.ValueErrorRaised? ==> r == NotFound(CommitMissing))
                  && (diffed.OtherError? ==> r == BadRequest(diffed.message))))
  {
  }

  /** The success case: the engine opened the repository, found the commit
      and diffed it against `HEAD~1`, and every patch decoded. The entries
      are then the diffs one for one, in order: the same `a_path`, and the
      decoded patch or `''` when there is none. A patch that does not
      decode turns the whole answer into "Commit not found." (404). */
  lemma CommitDiffSuccess(store: Store, g: Gateway, repoName: string, commitHash: string,
                          repo: Repo, commit: CommitObject, diffs: seq<RawDiff>)
    requires Located(repoName) in store.dirs
    requires g.openRepo(Located(repoName)) == Found(repo)
    requires g.lookupCommit(repo, commitHash) == Found(commit)
    requires g.diff(commit, DiffBase) == Found(diffs)
    ensures var r := GetCommitDiff(store, g, repoName, commitHash);
      && (r.status == 200 <==>
            forall i :: 0 <= i < |diffs| && !IsBlank(diffs[i].payload) ==>
              g.decodeUtf8(diffs[i].payload.value).Some?)
      && (r.status != 200 ==> r == NotFound(CommitMissing))
      && (r.status == 200 ==>
            && |r.body.entries| == |diffs|
            && forall i :: 0 <= i < |diffs| ==>
                 && r.body.entries[i].filePath == diffs[i].aPath
                 && (IsBlank(diffs[i].payload) ==> r.body.entries[i].diff == "")
                 && (!IsBlank(diffs[i].payload) ==>
                       Some(r.body.entries[i].diff) == g.decodeUtf8(diffs[i].payload.value)))
  {
    var shaped := ShapeDiffs(diffs, g.decodeUtf8);
    if shaped.Found? {
      forall i | 0 <= i < |diffs|
        ensures ShapeEntry(diffs[i], g.decodeUtf8) == Found(shaped.value[i])
      {
      }
    } else {
      var i :| 0 <= i < |diffs| && !ShapeEntry(diffs[i], g.decodeUtf8).Found?;
      assert !IsBlank(diffs[i].payload) && g.decodeUtf8(diffs[i].payload.value).None?;
    }
  }

  /** An empty diff is a success with an empty list. */
  lemma CommitDiffEmpty(store: Store, g: Gateway, repoName: string, commitHash: string,
                        repo: Repo, commit: CommitObject)
    requires Located(repoName) in store.dirs
    requires g.openRepo(Located(repoName)) == Found(repo)
    requires g.lookupCommit(repo, commitHash) == Found(commit)
    requires g.diff(commit, DiffBase) == Found([])
    ensures GetCommitDiff(store, g, repoName, commitHash) == Response(200, Changes([]))
  {
  }

  // ---------------------------------------------------------------------
  // POST /clone_repo

  datatype CloneResult = CloneResult(response: Response, store: Store)

  /** Where a clone URL is cloned to. */
  function CloneTarget(url: string): (path: string)
    ensures path == ReposDir + [Separator] + RepoNameFromUrl(url)
  {
    RepoPath(RepoNameFromUrl(url))
  }

  /** `clone_repo`: `url` is the request's `url` field, `None` when absent or
      null. The clone's own `README.md` becomes a file of the store. */
  function CloneRepo(store: Store, g: Gateway, url: Option<string>): (res: CloneResult)
    ensures url.None? || url == Some("") ==> res == CloneResult(BadRequest(UrlRequired), store)
    ensures res.response.status in {200, 201, 400}
    ensures res.response.status != 201 ==> res.store == store
    ensures res.response.status == 200 ==>
      && res.response.body == Message(AlreadyCloned)
      && url.Some? && CloneTarget(url.value) in store.dirs
    ensures res.response.status == 201 ==>
      && url.Some?
      && CloneTarget(url.value) !in store.dirs
      && res.store.dirs == store.dirs + {CloneTarget(url.value)}
      && res.response.body == Message(ClonedInto + CloneTarget(url.value))
    ensures url.Some? && url.value != "" && CloneTarget(url.value) !in store.dirs ==>
      match g.cloneFrom(url.value, CloneTarget(url.value))
      case CloneOk(_) => res.response.status == 201
      case CloneErr(m) => res == CloneResult(BadRequest(m), store)
  {
    if url.None? || url.value == "" then CloneResult(BadRequest(UrlRequired), store)
    else
      var path := CloneTarget(url.value);
      if path in store.dirs then CloneResult(Response(200, Message(AlreadyCloned)), store)
      else
        match g.cloneFrom(url.value, path)
        case CloneErr(m) => CloneResult(BadRequest(m), store)
        case CloneOk(readme) =>
          var files := if readme.Some? then store.files[ReadmePath(path) := readme.value] else store.files;
          CloneResult(Response(201, Message(ClonedInto + path)), Store(store.dirs + {path}, files))
  }

  /** An existing target directory short-circuits: 200, store unchanged,
      and the engine's clone is never invoked. */
  lemma CloneExistingIgnoresEngine(store: Store, g1: Gateway, g2: Gateway, url: string)
    requires url != ""
    requires CloneTarget(url) in store.dirs
    ensures CloneRepo(store, g1, Some(url)) == CloneRepo(store, g2, Some(url))
    ensures CloneRepo(store, g1, Some(url)) == CloneResult(Response(200, Message(AlreadyCloned)), store)
  {
  }

  /** A new clone adds exactly one directory; a failed one is a 400 with the
      engine's message. */
  lemma CloneNewTarget(store: Store, g: Gateway, url: string)
    requires url != ""
    requires CloneTarget(url) !in store.dirs
    ensures var res := CloneRepo(store, g, Some(url));
      && (g.cloneFrom(url, CloneTarget(url)).CloneOk? ==>
            && res.response.status == 201
            && res.store.dirs - store.dirs == {CloneTarget(url)}
            && |res.store.dirs| == |store.dirs| + 1)
      && (g.cloneFrom(url, CloneTarget(url)).CloneErr? ==>
            res == CloneResult(BadRequest(g.cloneFrom(url, CloneTarget(url)).message), store))
  {
    var res := CloneRepo(store, g, Some(url));
    if res.response.status == 201 {
      AddNewElement(store.dirs, CloneTarget(url));
    }
  }

  /** A clone touches no file but the clone's own `README.md`: every other
      file, other repositories' READMEs included, keeps what reading it
      produces; on a 201 the README the clone reported is stored as it was
      reported, and a clone that reported none leaves the files as they were. */
  lemma CloneFiles(store: Store, g: Gateway, url: string)
    requires url != ""
    ensures var res := CloneRepo(store, g, Some(url));
      var cloned := g.cloneFrom(url, CloneTarget(url));
      var readme := ReadmePath(CloneTarget(url));
      && res.store.files - {readme} == store.files - {readme}
      && (res.response.status == 201 && cloned == CloneOk(None) ==> res.store.files == store.files)
      && (res.response.status == 201 && cloned.CloneOk? && cloned.readme.Some? ==>
            readme in res.store.files && res.store.files[readme] == cloned.readme.value)
  {
    var target := CloneTarget(url);
    var readme := ReadmePath(target);
    var res := CloneRepo(store, g, Some(url));
    var cloned := g.cloneFrom(url, target);
    if target !in store.dirs && cloned.CloneOk? && cloned.readme.Some? {
      assert res.store.files == store.files[readme := cloned.readme.value];
      UpdateOutside(store.files, readme, cloned.readme.value);
    } else {
      assert res.store.files == store.files;
    }
  }

  /** Updating one key leaves the rest of a map as it was. */
  lemma UpdateOutside<K, V>(m: map<K, V>, k: K, v: V)
    ensures m[k := v] - {k} == m - {k}
  {
    assert (m[k := v] - {k}).Keys == (m - {k}).Keys;
  }

  /** Adding an element that was missing grows a set by exactly it. */
  lemma AddNewElement(dirs: set<string>, target: string)
    requires target !in dirs
    ensures (dirs + {target}) - dirs == {target}
    ensures |dirs + {target}| == |dirs| + 1
  {
    assert (dirs + {target}) - dirs == {target};
  }

  /** Cloning the same URL again is a no-op that reports "already cloned",
      whatever the engine would do the second time. */
  lemma CloneIdempotent(store: Store, g1: Gateway, g2: Gateway, url: Option<string>)
    ensures var first := CloneRepo(store, g1, url);
      var second := CloneRepo(first.store, g2, url);
      first.response.status in {200, 201} ==>
        second == CloneResult(Response(200, Message(AlreadyCloned)), first.store)
  {
  }

  // ---------------------------------------------------------------------
  // GET /latest_changes/<repo_name>

  /** The statements of the `try` block of `latest_changes`. A missing
      default branch is raised as a `ValueError`. */
  function LatestAttempt(path: string, g: Gateway): Outcome<seq<CommitSummary>> {
    var repo :- g.openRepo(path);
    var refs :- g.remoteRefs(repo);
    match FirstDefault(refs)
    case None => ValueErrorRaised(NoDefaultBranch)
    case Some(i) =>
      var commits :- g.history(repo, BranchShortName(refs[i]));
      Found(Summaries(Recent(commits)))
  }

  function LatestChanges(store: Store, g: Gateway, repoName: string): (r: Response)
    ensures r.status in {200, 400, 404}
    ensures r.status == 404 <==> Located(repoName) !in store.dirs
    ensures r.status == 404 ==> r == NotFound(RepoMissing)
    ensures r.status == 200 ==> r.body.Commits? && |r.body.summaries| <= MaxCount
    ensures r.status == 400 ==> r.body.Error?
  {
    var path := Located(repoName);
    if path !in store.dirs then NotFound(RepoMissing)
    else
      match LatestAttempt(path, g)
      case Found(summaries) => Response(200, Commits(summaries))
      case ValueErrorRaised(m) => BadRequest(m)
      case OtherError(m) => BadRequest(m)
  }

  lemma LatestMissingRepoIgnoresEngine(store: Store, g1: Gateway, g2: Gateway, repoName: string)
    requires Located(repoName) !in store.dirs
    ensures LatestChanges(store, g1, repoName) == LatestChanges(store, g2, repoName)
  {
  }

  /** Classification of each engine step of `latest_changes`: any exception
      from opening, listing the remote refs or walking the history, a
      `ValueError` or not, is a 400 carrying its message; so is a missing
      default branch; otherwise the walk's first commits are listed. */
  lemma LatestStages(store: Store, g: Gateway, repoName: string)
    requires Located(repoName) in store.dirs
    ensures var r := LatestChanges(store, g, repoName);
      var opening := g.openRepo(Located(repoName));
      && (!opening.Found? ==> r == BadRequest(opening.message))
      && (opening.Found? ==>
            var listed := g.remoteRefs(opening.value);
            && (!listed.Found? ==> r == BadRequest(listed.message))
            && (listed.Found? ==>
                  match FirstDefault(listed.value)
                  case None => r == BadRequest(NoDefaultBranch)
                  case Some(i) =>
                    var walked := g.history(opening.value, BranchShortName(listed.value[i]));
                    && (!walked.Found? ==> r == BadRequest(walked.message))
                    && (walked.Found? ==> r == Response(200, Commits(Summaries(Recent(walked.value)))))))
  {
  }

  /** No ref marking the remote's HEAD is a 400, not a 404. */
  lemma LatestNoDefaultBranch(store: Store, g: Gateway, repoName: string, repo: Repo, refs: seq<RemoteRef>)
    requires Located(repoName) in store.dirs
    requires g.openRepo(Located(repoName)) == Found(repo)
    requires g.remoteRefs(repo) == Found(refs)
    requires forall j :: 0 <= j < |refs| ==> refs[j].remoteHead != HeadMarker
    ensures LatestChanges(store, g, repoName) == BadRequest(NoDefaultBranch)
  {
  }

  /** With the `i`-th ref the first to mark the remote's HEAD, the history
      walked is that of the last `/`-segment of its name, and the listing is
      its first (at most ten) commits, in order, hash and message verbatim. */
  lemma LatestListing(store: Store, g: Gateway, repoName: string, repo: Repo,
                      refs: seq<RemoteRef>, i: nat, history: seq<CommitInfo>)
    requires Located(repoName) in store.dirs
    requires g.openRepo(Located(repoName)) == Found(repo)
    requires g.remoteRefs(repo) == Found(refs)
    requires i < |refs| && refs[i].remoteHead == HeadMarker
    requires forall j :: 0 <= j < i ==> refs[j].remoteHead != HeadMarker
    requires g.history(repo, LastSegment(refs[i].name)) == Found(history)
    ensures var r := LatestChanges(store, g, repoName);
      && r.status == 200
      && |r.body.summaries| == Min(|history|, MaxCount)
      && forall k :: 0 <= k < |r.body.summaries| ==>
           r.body.summaries[k] == CommitSummary(history[k].hexsha, history[k].message)
  {
    FirstDefaultAt(refs, i);
    assert BranchShortName(refs[i]) == LastSegment(refs[i].name);
    assert LatestAttempt(Located(repoName), g) == Found(Summaries(Recent(history)));
    RecentListing(history);
  }

  // ---------------------------------------------------------------------
  // GET /readme/<repo_name>

  /** Where the README of a repository name is looked for. */
  function ReadmeLocation(repoName: string): (path: string)
    ensures path == Located(repoName) + [Separator] + ReadmeName
  {
    ReadmeInsideRepo(repoName);
    ReadmePath(Located(repoName))
  }

  /** `get_readme`: only the README file is checked, never the directory. */
  function GetReadme(store: Store, repoName: string): (r: Response)
    ensures r.status in {200, 400, 404}
    ensures r.status == 404 <==> ReadmeLocation(repoName) !in store.files
    ensures r.status == 404 ==> r == NotFound(ReadmeMissing)
    ensures r.status == 200 ==> r.body.Readme? && store.files[ReadmeLocation(repoName)] == Found(r.body.content)
    ensures r.status == 400 ==>
      && r.body.Error?
      && !store.files[ReadmeLocation(repoName)].Found?
      && store.files[ReadmeLocation(repoName)].message == r.body.description
  {
    var path := ReadmeLocation(repoName);
    if path !in store.files then NotFound(ReadmeMissing)
    else
      match store.files[path]
      case Found(content) => Response(200, Readme(content))
      case ValueErrorRaised(m) => BadRequest(m)
      case OtherError(m) => BadRequest(m)
  }

  /** Which directories exist makes no difference to `get_readme`: a
      missing repository and a missing README are both
      "README.md not found.". */
  lemma ReadmeIgnoresDirectories(s1: Store, s2: Store, repoName: string)
    requires s1.files == s2.files
    ensures GetReadme(s1, repoName) == GetReadme(s2, repoName)
    ensures Located(repoName) !in s1.dirs && ReadmeLocation(repoName) !in s1.files ==>
      GetReadme(s1, repoName) == NotFound(ReadmeMissing)
  {
  }

  // ---------------------------------------------------------------------
  // Across endpoints

  /** Once a URL is cloned (or found already cloned), every name that
      normalises to the clone's name finds the repository. */
  lemma CloneThenFound(store: Store, g: Gateway, url: string, repoName: string, commitHash: string)
    requires url != ""
    requires Normalize(repoName) == RepoNameFromUrl(url)
    ensures var after := CloneRepo(store, g, Some(url));
      after.response.status in {200, 201} ==>
        && GetCommitDiff(after.store, g, repoName, commitHash) != NotFound(RepoMissing)
        && LatestChanges(after.store, g, repoName) != NotFound(RepoMissing)
  {
    assert Located(repoName) == CloneTarget(url);
  }

  /** After a fresh clone, `get_readme` for the clone's name returns the
      text of the README the clone checked out. */
  lemma CloneThenReadme(store: Store, g: Gateway, url: string, repoName: string, text: string)
    requires url != ""
    requires Normalize(repoName) == RepoNameFromUrl(url)
    requires CloneTarget(url) !in store.dirs
    requires g.cloneFrom(url, CloneTarget(url)) == CloneOk(Some(Found(text)))
    ensures GetReadme(CloneRepo(store, g, Some(url)).store, repoName) == Response(200, Readme(text))
  {
    var after := CloneRepo(store, g, Some(url));
    assert Located(repoName) == CloneTarget(url);
    assert ReadmeLocation(repoName) == ReadmePath(CloneTarget(url));
    assert after.store.files[ReadmePath(CloneTarget(url))] == Found(text);
  }
}
