/** Repository names and on-disk paths: the `.git` normalisation repeated in
    every handler, Python's `str.split('/')` with its `[-1]` element, and
    `os.path.join` as POSIX defines it. */
module Paths {

  const GitSuffix: string := ".git"
  const Separator: char := '/'
  /** The single root directory every clone lives under (app.py:7). */
  const ReposDir: string := "cloned_repos"
  const ReadmeName: string := "README.md"

  predicate EndsWith(s: string, suffix: string) {
    |suffix| <= |s| && s[|s| - |suffix|..] == suffix
  }

  predicate StartsWith(s: string, prefix: string) {
    |prefix| <= |s| && s[..|prefix|] == prefix
  }

  /** `if not name.endswith('.git'): name += '.git'`. */
  function Normalize(name: string): (r: string)
    ensures EndsWith(r, GitSuffix)
    ensures StartsWith(r, name)
    ensures r == name <==> EndsWith(name, GitSuffix)
    ensures r != name ==> r == name + GitSuffix
  {
    if EndsWith(name, GitSuffix) then name else name + GitSuffix
  }

  /** Normalising a normalised name changes nothing. */
  lemma NormalizeIdempotent(name: string)
    ensures Normalize(Normalize(name)) == Normalize(name)
  {
  }

  /** The names normalisation leaves alone are exactly the names that end
      in `.git`, and those are exactly the results normalisation can have. */
  lemma NormalizeFixedPoints(name: string)
    ensures Normalize(name) == name <==> EndsWith(name, GitSuffix)
    ensures Normalize(name) == name <==> exists n :: Normalize(n) == name
  {
    if exists n :: Normalize(n) == name {
      var n :| Normalize(n) == name;
      assert EndsWith(name, GitSuffix);
    }
  }

  /** Index of the first occurrence of `c` in `s`. */
  function IndexOf(s: string, c: char): (i: nat)
    requires c in s
    ensures i < |s| && s[i] == c
    ensures c !in s[..i]
  {
    if s[0] == c then 0
    else
      assert s == [s[0]] + s[1..];
      var j := IndexOf(s[1..], c);
      assert s[..j + 1] == [s[0]] + s[1..][..j];
      j + 1
  }

  /** Python's `s.split('/')`: the pieces between separators, in order,
      including empty pieces, and always at least one piece. */
  function Split(s: string): (parts: seq<string>)
    ensures |parts| >= 1
    ensures forall k :: 0 <= k < |parts| ==> Separator !in parts[k]
    decreases |s|
  {
    if Separator !in s then [s]
    else
      var i := IndexOf(s, Separator);
      [s[..i]] + Split(s[i + 1..])
  }

  /** `'/'.join(parts)`. */
  function Join(parts: seq<string>): (s: string)
    requires |parts| >= 1
  {
    if |parts| == 1 then parts[0] else parts[0] + [Separator] + Join(parts[1..])
  }

  function Last<T>(xs: seq<T>): T
    requires |xs| >= 1
  {
    xs[|xs| - 1]
  }

  /** The first occurrence of `c` is at `j` when `s[j]` is `c` and no `c`
      comes before it. */
  lemma IndexOfFirst(s: string, c: char, j: nat)
    requires j < |s| && s[j] == c
    requires c !in s[..j]
    ensures IndexOf(s, c) == j
  {
    var i := IndexOf(s, c);
    assert forall k :: 0 <= k < j ==> s[..j][k] == s[k];
    assert forall k :: 0 <= k < i ==> s[..i][k] == s[k];
  }

  /** Splitting then joining gives the string back. */
  lemma {:induction false} JoinSplit(s: string)
    ensures Join(Split(s)) == s
    decreases |s|
  {
    if Separator in s {
      var i := IndexOf(s, Separator);
      JoinSplit(s[i + 1..]);
      assert Split(s)[1..] == Split(s[i + 1..]);
      assert s == s[..i] + [Separator] + s[i + 1..];
    }
  }

  /** A separator-free first piece splits off on its own. */
  lemma SplitFirstPiece(first: string, rest: string)
    requires Separator !in first
    ensures Split(first + [Separator] + rest) == [first] + Split(rest)
  {
    var s := first + [Separator] + rest;
    assert s[..|first|] == first;
    IndexOfFirst(s, Separator, |first|);
    assert s[|first| + 1..] == rest;
  }

  /** Joining separator-free pieces then splitting gives the pieces back. */
  lemma {:induction false} SplitJoin(parts: seq<string>)
    requires |parts| >= 1
    requires forall k :: 0 <= k < |parts| ==> Separator !in parts[k]
    ensures Split(Join(parts)) == parts
    decreases |parts|
  {
    if |parts| > 1 {
      SplitJoin(parts[1..]);
      SplitFirstPiece(parts[0], Join(parts[1..]));
      assert parts == [parts[0]] + parts[1..];
    }
  }

  /** The separator-free tail of `s`: everything after the last `/`, or all
      of `s` when it holds no `/`. An independent definition of `[-1]` of a
      split, scanning from the end instead of the front. */
  function LastSegment(s: string): (r: string)
    ensures Separator !in r
    ensures EndsWith(s, r)
    ensures |r| < |s| ==> s[|s| - |r| - 1] == Separator
    decreases |s|
  {
    if |s| == 0 || s[|s| - 1] == Separator then ""
    else
      var prev := LastSegment(s[..|s| - 1]);
      assert s[..|s| - 1][|s| - 1 - |prev|..] == s[|s| - 1 - |prev|..|s| - 1];
      assert s[|s| - 1 - |prev|..] == s[|s| - 1 - |prev|..|s| - 1] + [s[|s| - 1]];
      prev + [s[|s| - 1]]
  }

  /** A separator-free suffix leaves no separator in the positions it covers. */
  lemma SeparatorFreeSuffix(s: string, r: string)
    requires Separator !in r
    requires EndsWith(s, r)
    ensures forall k :: |s| - |r| <= k < |s| ==> s[k] != Separator
  {
    forall k | |s| - |r| <= k < |s|
      ensures s[k] != Separator
    {
      assert s[k] == r[k - (|s| - |r|)];
    }
  }

  /** A separator-free suffix of `s` that is all of `s` or starts right
      after a separator is the last segment: there is only one such suffix. */
  lemma LastSegmentUnique(s: string, r: string)
    requires Separator !in r
    requires EndsWith(s, r)
    requires |r| < |s| ==> s[|s| - |r| - 1] == Separator
    ensures r == LastSegment(s)
  {
    var t := LastSegment(s);
    SeparatorFreeSuffix(s, r);
    SeparatorFreeSuffix(s, t);
    assert |r| <= |t|;
    assert |t| <= |r|;
  }

  /** The last piece of a split is the last segment. */
  lemma {:induction false} LastOfSplit(s: string)
    ensures Last(Split(s)) == LastSegment(s)
    decreases |s|
  {
    if Separator in s {
      var i := IndexOf(s, Separator);
      LastOfSplit(s[i + 1..]);
      assert Last(Split(s)) == Last(Split(s[i + 1..]));
      LastSegmentOfTail(s, i);
    } else {
      LastSegmentUnique(s, s);
    }
  }

  /** Dropping everything up to and including a separator keeps the last
      segment. */
  lemma LastSegmentOfTail(s: string, i: nat)
    requires i < |s| && s[i] == Separator
    ensures LastSegment(s[i + 1..]) == LastSegment(s)
  {
    var t := s[i + 1..];
    var r := LastSegment(t);
    assert s[|s| - |r|..] == t[|t| - |r|..];
    assert |r| == |t| ==> s[|s| - |r| - 1] == s[i];
    assert |r| < |t| ==> s[|s| - |r| - 1] == t[|t| - |r| - 1];
    LastSegmentUnique(s, r);
  }

  /** Whatever precedes a final separator, the last segment is what follows it. */
  lemma LastSegmentAfterSeparator(front: string, tail: string)
    requires Separator !in tail
    ensures Last(Split(front + [Separator] + tail)) == tail
  {
    var s := front + [Separator] + tail;
    assert s[|s| - |tail|..] == tail;
    assert s[|s| - |tail| - 1] == Separator;
    LastSegmentUnique(s, tail);
    LastOfSplit(s);
  }

  /** `os.path.join(a, b)` on POSIX: an absolute `b` replaces `a`; otherwise
      `b` is appended, with a `/` in between unless `a` is empty or already
      ends in one. */
  function PathJoin(a: string, b: string): (r: string)
    ensures EndsWith(r, b)
    ensures StartsWith(b, [Separator]) ==> r == b
    ensures !StartsWith(b, [Separator]) ==> StartsWith(r, a)
  {
    if StartsWith(b, [Separator]) then b
    else if a == [] || EndsWith(a, [Separator]) then a + b
    else a + [Separator] + b
  }

  /** `os.path.join(repos_dir, repo_name)`. */
  function RepoPath(name: string): string {
    PathJoin(ReposDir, name)
  }

  /** `os.path.join(repo_path, 'README.md')`. */
  function ReadmePath(repoPath: string): string {
    PathJoin(repoPath, ReadmeName)
  }

  /** A name that does not start with `/` lands directly below the root. */
  lemma RepoPathBelowRoot(name: string)
    requires !StartsWith(name, [Separator])
    ensures RepoPath(name) == ReposDir + [Separator] + name
  {
  }

  /** The README of a normalised name sits directly inside its repository
      directory. */
  lemma ReadmeInsideRepo(name: string)
    ensures ReadmePath(RepoPath(Normalize(name))) == RepoPath(Normalize(name)) + [Separator] + ReadmeName
  {
    var p := RepoPath(Normalize(name));
    assert EndsWith(p, GitSuffix);
    assert p[|p| - 1] == 't';
    assert ReadmeName[0] == 'R';
  }

  /** Normalisation adds no separator. */
  lemma NormalizeSeparatorFree(name: string)
    requires Separator !in name
    ensures Separator !in Normalize(name)
  {
    assert Separator !in GitSuffix;
  }

  /** A non-empty name without separators lands directly below the root. */
  lemma RepoPathOfPlainName(name: string)
    requires Separator !in name && name != []
    ensures RepoPath(name) == ReposDir + [Separator] + name
  {
    assert name[0] != Separator;
    RepoPathBelowRoot(name);
  }

  /** `repo_url.split('/')[-1]`, normalised: the repository name a clone URL
      is stored under. It holds no `/`, so its path is `cloned_repos/<name>`. */
  function RepoNameFromUrl(url: string): (r: string)
    ensures Separator !in r
    ensures EndsWith(r, GitSuffix)
    ensures r == Normalize(LastSegment(url))
    ensures RepoPath(r) == ReposDir + [Separator] + r
  {
    var segment := Last(Split(url));
    LastOfSplit(url);
    NormalizeSeparatorFree(segment);
    var r := Normalize(segment);
    RepoPathOfPlainName(r);
    r
  }

  /** A URL whose last segment already ends in `.git` is stored under
      exactly that segment. */
  lemma RepoNameOfGitUrl(front: string, name: string)
    requires Separator !in name
    requires EndsWith(name, GitSuffix)
    ensures RepoNameFromUrl(front + [Separator] + name) == name
  {
    LastSegmentAfterSeparator(front, name);
  }

  /** A URL ending in `/` has an empty last segment, so it is stored under
      the bare name `.git`, whatever precedes that `/`. */
  lemma TrailingSeparatorUrl(front: string)
    ensures RepoNameFromUrl(front + [Separator]) == GitSuffix
  {
    assert front + [Separator] == front + [Separator] + [];
    LastSegmentAfterSeparator(front, []);
  }
}
