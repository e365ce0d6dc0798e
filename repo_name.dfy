/**
 * The repository name taken from a URL in clone_or_update_repo
 * (codebase_rag.py): `repo_url.rstrip("/").split("/")[-1]`.
 */
module RepoName {

  /** s.rstrip("/"): drops every trailing '/'. */
  function StripTrailingSlashes(s: string): (r: string)
    ensures |r| <= |s| && s[..|r|] == r
    ensures r == [] || r[|r| - 1] != '/'
    ensures forall k :: |r| <= k < |s| ==> s[k] == '/'
    decreases |s|
  {
    if |s| > 0 && s[|s| - 1] == '/' then StripTrailingSlashes(s[..|s| - 1]) else s
  }

  /** s.split("/")[-1]: the part after the last '/', or all of s when it has none. */
  function LastSegment(s: string): (r: string)
    ensures |r| <= |s| && s[|s| - |r|..] == r
    ensures '/' !in r
    ensures |r| == |s| || s[|s| - |r| - 1] == '/'
    decreases |s|
  {
    if |s| == 0 || s[|s| - 1] == '/' then []
    else LastSegment(s[..|s| - 1]) + [s[|s| - 1]]
  }

  /** The repository name: last '/'-separated segment once trailing slashes are gone. */
  function RepoName(url: string): string
  {
    LastSegment(StripTrailingSlashes(url))
  }

  /**
   * The name has no '/', and the URL is some prefix, then the name, then only
   * slashes; the name is empty exactly when the URL is empty or all slashes.
   */
  lemma RepoNameSpec(url: string)
    ensures var name := RepoName(url);
      '/' !in name &&
      exists p: nat, q: nat :: p + |name| == q <= |url| && url[p..q] == name &&
        (p == 0 || url[p - 1] == '/') &&
        forall k :: q <= k < |url| ==> url[k] == '/'
    ensures RepoName(url) == [] <==> forall k :: 0 <= k < |url| ==> url[k] == '/'
  {
    var t := StripTrailingSlashes(url);
    var name := LastSegment(t);
    var q := |t|;
    var p := q - |name|;
    assert url[p..q] == t[p..] == name;
    if name == [] {
      assert t == [];
    } else {
      assert url[|t| - 1] != '/';
    }
  }

  /** The name of a name is itself: no slash is left to split on. */
  lemma RepoNameIdempotent(url: string)
    ensures RepoName(RepoName(url)) == RepoName(url)
  {
    var name := RepoName(url);
    NoSlashFixed(name);
  }

  lemma {:induction false} NoSlashFixed(s: string)
    requires '/' !in s
    ensures StripTrailingSlashes(s) == s && LastSegment(s) == s
    decreases |s|
  {
    if |s| > 0 {
      assert s[|s| - 1] in s;
      NoSlashFixed(s[..|s| - 1]);
      assert s[..|s| - 1] + [s[|s| - 1]] == s;
    }
  }
}
