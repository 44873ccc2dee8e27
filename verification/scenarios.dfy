/** End-to-end runs of the service on a repository called `sample`, against
    any engine that behaves as each step says. */
module Scenarios {
  import opened Outcomes
  import opened Paths
  import opened Gateway
  import opened Shaping
  import opened Handlers

  const SampleUrl: string := "https://example.com/sample.git"
  const SamplePath: string := "cloned_repos/sample.git"

  /** `sample` and `sample.git` both normalise to `sample.git`. */
  lemma SampleNames()
    ensures Normalize("sample") == "sample.git"
    ensures Normalize("sample.git") == "sample.git"
  {
    assert "sample"[2..] != GitSuffix;
    assert "sample.git"[6..] == GitSuffix;
  }

  /** The clone URL's last segment is the repository name `sample.git`.
      The URL is a parameter fixed by `requires` rather than the constant
      itself, so the verifier does not unfold the split on the literal. */
  lemma SampleUrlName(url: string)
    requires url == SampleUrl
    ensures RepoNameFromUrl(url) == "sample.git"
  {
    var host, name := "https://example.com", "sample.git";
    assert url == host + [Separator] + name;
    assert name[6..] == GitSuffix;
    RepoNameOfGitUrl(host, name);
  }

  lemma SampleDirectory(name: string)
    requires name == "sample.git"
    ensures ReposDir + [Separator] + name == SamplePath
  {
  }

  /** The route names `sample` and `sample.git` lead to the same directory,
      and that is where the clone URL is cloned to. The URL is fixed by
      `requires` rather than written inline, for the reason given at
      `SampleUrlName`. */
  lemma SampleLocations(url: string)
    requires url == SampleUrl
    ensures CloneTarget(url) == SamplePath
    ensures Located("sample") == SamplePath
    ensures Located("sample.git") == SamplePath
  {
    SampleUrlName(url);
    SampleDirectory("sample.git");
    SampleRoutes();
  }

  lemma SampleRoutes()
    ensures Located("sample") == SamplePath
    ensures Located("sample.git") == SamplePath
    ensures ReadmeLocation("sample") == SamplePath + [Separator] + ReadmeName
  {
    SampleNames();
    RepoPathOfPlainName("sample.git");
  }

  /** Cloning into an empty root creates `cloned_repos/sample.git` (201);
      the same request again is "already cloned" (200) and changes nothing.
      The URL is fixed by `requires`, as in `SampleUrlName`. */
  lemma CloneSampleTwice(g: Gateway, url: string)
    requires url == SampleUrl
    requires g.cloneFrom(url, SamplePath) == CloneOk(None)
    ensures var first := CloneRepo(Store({}, map[]), g, Some(url));
      && first == CloneResult(Response(201, Message(ClonedInto + SamplePath)), Store({SamplePath}, map[]))
      && CloneRepo(first.store, g, Some(url)) == CloneResult(Response(200, Message(AlreadyCloned)), first.store)
  {
    SampleLocations(url);
    var empty := Store({}, map[]);
    CloneNewTarget(empty, g, url);
    var first := CloneRepo(empty, g, Some(url));
    assert first.store.dirs == {SamplePath};
    assert first.store.files == map[];
    CloneExistingIgnoresEngine(first.store, g, g, url);
  }

  /** A hash whose lookup raises a `ValueError` is "Commit not found." (404), while
      an uncloned repository is "Repository not found." (404): two
      different answers. */
  lemma UnknownCommit(g: Gateway, repo: Repo)
    requires g.openRepo(SamplePath) == Found(repo)
    requires g.lookupCommit(repo, "deadbeef").ValueErrorRaised?
    ensures GetCommitDiff(Store({SamplePath}, map[]), g, "sample", "deadbeef") == NotFound(CommitMissing)
    ensures GetCommitDiff(Store({}, map[]), g, "sample", "deadbeef") == NotFound(RepoMissing)
    ensures NotFound(CommitMissing) != NotFound(RepoMissing)
  {
    SampleRoutes();
    CommitDiffStages(Store({SamplePath}, map[]), g, "sample", "deadbeef");
  }

  /** Latest changes of a repository that was never cloned is a 404. */
  lemma LatestOfUnknownRepo(g: Gateway)
    ensures LatestChanges(Store({SamplePath}, map[]), g, "nosuchrepo") == NotFound(RepoMissing)
  {
    var name := "nosuchrepo";
    assert name[|name| - 4..] != GitSuffix;
    RepoPathOfPlainName(name + GitSuffix);
    assert |Located(name)| != |SamplePath|;
  }

  /** The README is returned exactly as it reads from disk. */
  lemma ReadmeOfSample()
    ensures GetReadme(Store({SamplePath}, map[SamplePath + [Separator] + ReadmeName := Found("# Hello")]), "sample")
      == Response(200, Readme("# Hello"))
  {
    SampleRoutes();
  }
}
