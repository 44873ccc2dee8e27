/** The seam to the version-control engine. Every call the handlers make into
    the engine (open a repository, look a commit up, diff it, list remote
    refs, walk history, clone) and the UTF-8 decoder are fields of a
    `Gateway` value: an arbitrary total function from the call's arguments
    to what the call produced. A lemma that holds for every `Gateway` holds
    whatever the engine does. */
module Gateway {
  import opened Outcomes

  newtype byte = x: int | 0 <= x < 256

  /** An opened repository (`git.Repo(path)`). */
  datatype Repo = Repo(path: string)

  /** A resolved commit object (`repo.commit(hash)`). */
  datatype CommitObject = CommitObject(repo: Repo, hexsha: string)

  /** One element of `commit.diff(..., create_patch=True)`: the `a_path`
      (absent for an added file) and the raw patch bytes (absent or empty
      for mode-only changes and binary files). */
  datatype RawDiff = RawDiff(aPath: Option<string>, payload: Option<seq<byte>>)

  /** One element of `repo.remote().refs`: its `name` (as `origin/main`)
      and its `remote_head` (as `main`). */
  datatype RemoteRef = RemoteRef(name: string, remoteHead: string)

  /** One element of `repo.iter_commits(...)`. */
  datatype CommitInfo = CommitInfo(hexsha: string, message: string)

  /** What `git.Repo.clone_from(url, path)` did: either the clone succeeded,
      reporting the text of the `README.md` it checked out at the top of the
      tree (if any, as reading it would produce), or it raised. */
  datatype CloneOutcome =
    | CloneOk(readme: Option<Outcome<string>>)
    | CloneErr(message: string)

  datatype Gateway = Gateway(
    openRepo: string -> Outcome<Repo>,
    lookupCommit: (Repo, string) -> Outcome<CommitObject>,
    diff: (CommitObject, string) -> Outcome<seq<RawDiff>>,
    decodeUtf8: seq<byte> -> Option<string>,
    remoteRefs: Repo -> Outcome<seq<RemoteRef>>,
    history: (Repo, string) -> Outcome<seq<CommitInfo>>,
    cloneFrom: (string, string) -> CloneOutcome
  )
}
