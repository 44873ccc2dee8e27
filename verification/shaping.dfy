/** How the handlers turn what the engine returned into response payloads:
    the per-file change entries of a commit diff, the choice of the default
    branch among the remote refs, and the listing of recent commits. */
module Shaping {
  import opened Outcomes
  import opened Gateway
  import opened Paths

  /** `max_count` of the history walk (app.py:74). */
  const MaxCount: nat := 10
  /** The `remote_head` that marks the remote's default branch (app.py:68). */
  const HeadMarker: string := "HEAD"
  /** A placeholder for the message of the `UnicodeDecodeError` a bad
      payload raises (the real one names the offending byte and its
      position); no response shows it, since the handler replaces it. */
  const DecodeError: string := "'utf-8' codec can't decode bytes"

  /** `{'file_path': ..., 'diff': ...}`. */
  datatype ChangeEntry = ChangeEntry(filePath: Option<string>, diff: string)

  /** `{'commit': ..., 'message': ...}`. */
  datatype CommitSummary = CommitSummary(commit: string, message: string)

  /** Python's falsiness of `diff.diff`: `None` or empty bytes. */
  predicate IsBlank(payload: Option<seq<byte>>) {
    payload.None? || payload.value == []
  }

  /** One change entry: the path as the engine gave it, and the decoded
      patch, or `''` when there is no patch. A patch that is not UTF-8
      raises `UnicodeDecodeError`, a `ValueError`. */
  function ShapeEntry(d: RawDiff, decode: seq<byte> -> Option<string>): (r: Outcome<ChangeEntry>)
    ensures r.Found? ==> r.value.filePath == d.aPath
    ensures IsBlank(d.payload) ==> r.Found? && r.value.diff == ""
    ensures !IsBlank(d.payload) ==> (r.Found? <==> decode(d.payload.value).Some?)
    ensures r.Found? && !IsBlank(d.payload) ==> r.value.diff == decode(d.payload.value).value
    ensures !r.Found? ==> r == ValueErrorRaised(DecodeError)
  {
    if IsBlank(d.payload) then Found(ChangeEntry(d.aPath, ""))
    else
      match decode(d.payload.value)
      case Some(text) => Found(ChangeEntry(d.aPath, text))
      case None => ValueErrorRaised(DecodeError)
  }

  /** All change entries of a diff, in the engine's order; the first patch
      that does not decode aborts the whole list. */
  function ShapeDiffs(diffs: seq<RawDiff>, decode: seq<byte> -> Option<string>): (r: Outcome<seq<ChangeEntry>>)
    ensures r.Found? <==> forall i :: 0 <= i < |diffs| ==> ShapeEntry(diffs[i], decode).Found?
    ensures r.Found? ==> |r.value| == |diffs|
    ensures r.Found? ==> forall i :: 0 <= i < |diffs| ==> ShapeEntry(diffs[i], decode) == Found(r.value[i])
    ensures !r.Found? ==> r == ValueErrorRaised(DecodeError)
    decreases |diffs|
  {
    if diffs == [] then Found([])
    else
      var e :- ShapeEntry(diffs[0], decode);
      var rest :- ShapeDiffs(diffs[1..], decode);
      Found([e] + rest)
  }

  /** The loop that builds `commit_changes` by appending one entry per diff
      computes exactly `ShapeDiffs`. */
  method CollectChanges(diffs: seq<RawDiff>, decode: seq<byte> -> Option<string>)
    returns (r: Outcome<seq<ChangeEntry>>)
    ensures r.Found? ==> |r.value| == |diffs|
    ensures r.Found? ==> forall i :: 0 <= i < |diffs| ==> r.value[i].filePath == diffs[i].aPath
    ensures r == ShapeDiffs(diffs, decode)
  {
    var changes: seq<ChangeEntry> := [];
    var i := 0;
    while i < |diffs|
      invariant 0 <= i <= |diffs|
      invariant |changes| == i
      invariant forall k :: 0 <= k < i ==> ShapeEntry(diffs[k], decode) == Found(changes[k])
    {
      var d := diffs[i];
      var text: string;
      if IsBlank(d.payload) {
        text := "";
      } else {
        match decode(d.payload.value)
        case Some(t) =>
          text := t;
        case None =>
          r := ValueErrorRaised(DecodeError);
          return;
      }
      changes := changes + [ChangeEntry(d.aPath, text)];
      i := i + 1;
    }
    r := Found(changes);
    assert ShapeDiffs(diffs, decode).Found?;
    assert ShapeDiffs(diffs, decode).value == changes;
  }

  predicate IsDefaultRef(ref: RemoteRef) {
    ref.remoteHead == HeadMarker
  }

  /** `next((ref for ref in refs if ref.remote_head == 'HEAD'), None)`, as
      an index: the first ref, in listing order, that marks the default
      branch. */
  function FirstDefault(refs: seq<RemoteRef>): (r: Option<nat>)
    ensures r.Some? ==> r.value < |refs| && IsDefaultRef(refs[r.value])
    ensures r.Some? ==> forall j :: 0 <= j < r.value ==> !IsDefaultRef(refs[j])
    ensures r.None? <==> forall j :: 0 <= j < |refs| ==> !IsDefaultRef(refs[j])
  {
    FirstDefaultFrom(refs, 0)
  }

  /** The generator's scan, resumed at position `from`. */
  function FirstDefaultFrom(refs: seq<RemoteRef>, from: nat): (r: Option<nat>)
    requires from <= |refs|
    ensures r.Some? ==> from <= r.value < |refs| && IsDefaultRef(refs[r.value])
    ensures r.Some? ==> forall j :: from <= j < r.value ==> !IsDefaultRef(refs[j])
    ensures r.None? <==> forall j :: from <= j < |refs| ==> !IsDefaultRef(refs[j])
    decreases |refs| - from
  {
    if from == |refs| then None
    else if IsDefaultRef(refs[from]) then Some(from)
    else FirstDefaultFrom(refs, from + 1)
  }

  /** The first ref that marks the default branch is the one chosen. */
  lemma FirstDefaultAt(refs: seq<RemoteRef>, i: nat)
    requires i < |refs| && IsDefaultRef(refs[i])
    requires forall j :: 0 <= j < i ==> !IsDefaultRef(refs[j])
    ensures FirstDefault(refs) == Some(i)
  {
    var r := FirstDefault(refs);
    assert r.Some?;
    assert r.value <= i;
    assert i <= r.value;
  }

  /** Refs listed after a match never change the choice, and refs listed
      before it that do not match only shift it. */
  lemma FirstDefaultAppend(front: seq<RemoteRef>, back: seq<RemoteRef>)
    ensures FirstDefault(front).Some? ==> FirstDefault(front + back) == FirstDefault(front)
    ensures FirstDefault(front).None? && FirstDefault(back).Some? ==>
      FirstDefault(front + back) == Some(|front| + FirstDefault(back).value)
    ensures FirstDefault(front).None? && FirstDefault(back).None? ==> FirstDefault(front + back).None?
  {
    var whole := front + back;
    match FirstDefault(front)
    case Some(i) =>
      forall j | 0 <= j <= i
        ensures whole[j] == front[j]
      {
      }
      FirstDefaultAt(whole, i);
    case None =>
      match FirstDefault(back)
      case Some(k) =>
        forall j | 0 <= j < |front| + k
          ensures !IsDefaultRef(whole[j])
        {
          if j < |front| {
            assert whole[j] == front[j];
          } else {
            assert whole[j] == back[j - |front|];
          }
        }
        assert whole[|front| + k] == back[k];
        FirstDefaultAt(whole, |front| + k);
      case None =>
        forall j | 0 <= j < |whole|
          ensures !IsDefaultRef(whole[j])
        {
          if j < |front| {
            assert whole[j] == front[j];
          } else {
            assert whole[j] == back[j - |front|];
          }
        }
  }

  /** `default_branch.name.split('/')[-1]`. */
  function BranchShortName(ref: RemoteRef): (r: string)
    ensures Separator !in r
    ensures r == LastSegment(ref.name)
  {
    LastOfSplit(ref.name);
    Last(Split(ref.name))
  }

  /** A remote ref is named `<remote>/<remote_head>`; for the ref that marks
      the default branch the short name is therefore always `HEAD`, not the
      branch the remote's HEAD points to. */
  lemma DefaultBranchNameIsHead(remote: string, ref: RemoteRef)
    requires IsDefaultRef(ref)
    requires ref.name == remote + [Separator] + ref.remoteHead
    ensures BranchShortName(ref) == HeadMarker
  {
    LastSegmentAfterSeparator(remote, ref.remoteHead);
  }

  function Min(a: nat, b: nat): nat {
    if a <= b then a else b
  }

  /** What `iter_commits(..., max_count=10)` keeps of the history walk: its
      first ten commits, in the walk's order. */
  function Recent(history: seq<CommitInfo>): (r: seq<CommitInfo>)
    ensures |r| == Min(|history|, MaxCount)
    ensures r == history[..|r|]
  {
    history[..Min(|history|, MaxCount)]
  }

  /** A walk of at most ten commits is kept whole; commits past the tenth
      never reach the listing. */
  lemma RecentKeepsShortHistory(history: seq<CommitInfo>, older: seq<CommitInfo>)
    ensures |history| <= MaxCount ==> Recent(history) == history
    ensures |history| >= MaxCount ==> Recent(history + older) == Recent(history)
  {
    if |history| >= MaxCount {
      assert (history + older)[..MaxCount] == history[..MaxCount];
    }
  }

  /** The listing of commits, field by field and in order. */
  function Summaries(commits: seq<CommitInfo>): (r: seq<CommitSummary>)
    ensures |r| == |commits|
    ensures forall i :: 0 <= i < |commits| ==>
      r[i].commit == commits[i].hexsha && r[i].message == commits[i].message
    decreases |commits|
  {
    if commits == [] then []
    else [CommitSummary(commits[0].hexsha, commits[0].message)] + Summaries(commits[1..])
  }

  /** The `latest_changes` payload: at most ten entries, entry `i` carrying
      the hash and the untrimmed message of the `i`-th commit of the walk. */
  lemma RecentListing(history: seq<CommitInfo>)
    ensures |Summaries(Recent(history))| <= MaxCount
    ensures |Summaries(Recent(history))| == Min(|history|, MaxCount)
    ensures forall i :: 0 <= i < |Summaries(Recent(history))| ==>
      Summaries(Recent(history))[i] == CommitSummary(history[i].hexsha, history[i].message)
  {
  }
}
