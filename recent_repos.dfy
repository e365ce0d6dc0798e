/**
 * The recent-repository list (add_repo_to_recent in codebase_rag.py):
 * move the URL to the front, dropping its first earlier occurrence, and keep
 * at most ten entries. The JSON file behind load_recent_repos and
 * save_recent_repos is the field `saved` of RecentRepoStore.
 */
module RecentRepos {

  /** How many entries the list keeps ("Keep only the last 10 entries"). */
  const MAX_RECENT: nat := 10

  predicate NoDuplicates(s: seq<string>)
  {
    forall i, j :: 0 <= i < j < |s| ==> s[i] != s[j]
  }

  /** Position of the first occurrence of x in s. */
  function FirstIndex(s: seq<string>, x: string): (i: nat)
    requires x in s
    ensures i < |s| && s[i] == x && x !in s[..i]
  {
    if s[0] == x then 0
    else
      var i := 1 + FirstIndex(s[1..], x);
      assert s[..i] == [s[0]] + s[1..][..i - 1];
      i
  }

  /** list.remove(x): drops the first occurrence of x and nothing else. */
  function RemoveFirst(s: seq<string>, x: string): (r: seq<string>)
    ensures x !in s ==> r == s
    ensures x in s ==> r == s[..FirstIndex(s, x)] + s[FirstIndex(s, x) + 1..]
  {
    if s == [] then []
    else if s[0] == x then s[1..]
    else
      var rest := RemoveFirst(s[1..], x);
      if x in s[1..] then
        var i := FirstIndex(s[1..], x);
        assert FirstIndex(s, x) == i + 1;
        assert s[..i + 1] == [s[0]] + s[1..][..i];
        assert s[i + 2..] == s[1..][i + 1..];
        [s[0]] + rest
      else
        assert s == [s[0]] + s[1..];
        [s[0]] + rest
  }

  /** The list add_repo_to_recent returns and saves, given the saved list. */
  function AddToRecent(saved: seq<string>, url: string): seq<string>
  {
    var repos := if url in saved then RemoveFirst(saved, url) else saved;
    var front := [url] + repos;
    front[..if |front| <= MAX_RECENT then |front| else MAX_RECENT]
  }

  /**
   * The URL comes first; the list is non-empty and has at most ten entries;
   * it is as long as the old list grown by one (if the URL was absent),
   * capped at ten.
   */
  lemma AddToRecentFront(saved: seq<string>, url: string)
    ensures var r := AddToRecent(saved, url);
      0 < |r| <= MAX_RECENT && r[0] == url
    ensures var r := AddToRecent(saved, url);
      var grown := if url in saved then |saved| else |saved| + 1;
      |r| == if grown <= MAX_RECENT then grown else MAX_RECENT
  {
  }

  /**
   * After the URL, the entries are the old list in its old order with the
   * first occurrence of the URL taken out, cut to fit.
   */
  lemma AddToRecentOrder(saved: seq<string>, url: string)
    ensures var r := AddToRecent(saved, url);
      var others := if url in saved
        then saved[..FirstIndex(saved, url)] + saved[FirstIndex(saved, url) + 1..]
        else saved;
      |r| - 1 <= |others| && r[1..] == others[..|r| - 1]
  {
  }

  /** Every entry is the URL or was already in the saved list. */
  lemma AddToRecentEntries(saved: seq<string>, url: string, x: string)
    requires x in AddToRecent(saved, url)
    ensures x == url || x in saved
  {
    var r := AddToRecent(saved, url);
    var k :| 0 <= k < |r| && r[k] == x;
    if k > 0 {
      AddToRecentOrder(saved, url);
      var others := if url in saved
        then saved[..FirstIndex(saved, url)] + saved[FirstIndex(saved, url) + 1..]
        else saved;
      assert r[k] == others[k - 1];
      assert others[k - 1] in saved;
    }
  }

  /** Taking out the first occurrence of x from a duplicate-free list leaves no x and no duplicates. */
  lemma RemoveFirstNoDuplicates(s: seq<string>, x: string)
    requires NoDuplicates(s) && x in s
    ensures var o := s[..FirstIndex(s, x)] + s[FirstIndex(s, x) + 1..];
      NoDuplicates(o) && x !in o
  {
    var i := FirstIndex(s, x);
    var o := s[..i] + s[i + 1..];
    forall a | 0 <= a < |o| ensures o[a] == s[if a < i then a else a + 1] && o[a] != x {
    }
    forall a, b | 0 <= a < b < |o| ensures o[a] != o[b] {
      assert o[a] == s[if a < i then a else a + 1];
      assert o[b] == s[if b < i then b else b + 1];
    }
  }

  /**
   * A list without duplicates stays without duplicates, and the URL appears
   * in it exactly once, at the front.
   */
  lemma AddToRecentNoDuplicates(saved: seq<string>, url: string)
    requires NoDuplicates(saved)
    ensures var r := AddToRecent(saved, url);
      NoDuplicates(r) && r[0] == url && forall k :: 0 < k < |r| ==> r[k] != url
  {
    var r := AddToRecent(saved, url);
    AddToRecentOrder(saved, url);
    var others := if url in saved
      then saved[..FirstIndex(saved, url)] + saved[FirstIndex(saved, url) + 1..]
      else saved;
    if url in saved {
      RemoveFirstNoDuplicates(saved, url);
    }
    assert NoDuplicates(others) && url !in others;
    forall k | 0 < k < |r| ensures r[k] == others[k - 1] && r[k] != url {
    }
    forall a, b | 0 <= a < b < |r| ensures r[a] != r[b] {
      if a > 0 {
        assert r[a] == others[a - 1] && r[b] == others[b - 1];
      }
    }
  }

  /** Adding the same URL twice in a row leaves the list as adding it once. */
  lemma AddToRecentIdempotent(saved: seq<string>, url: string)
    ensures AddToRecent(AddToRecent(saved, url), url) == AddToRecent(saved, url)
  {
    var r := AddToRecent(saved, url);
    AddToRecentFront(saved, url);
    assert FirstIndex(r, url) == 0;
    assert RemoveFirst(r, url) == r[1..];
    assert [url] + r[1..] == r;
  }

  /** The persisted recent-repository list. */
  class RecentRepoStore {
    /** The list recent_repos.json holds. */
    var saved: seq<string>

    constructor (initial: seq<string>)
      ensures saved == initial
    {
      saved := initial;
    }

    /** add_repo_to_recent: updates the stored list and returns it. */
    method AddRepoToRecent(url: string) returns (repos: seq<string>)
      modifies this
      ensures repos == AddToRecent(old(saved), url)
      ensures saved == repos
    {
      repos := saved;
      if url in repos {
        repos := RemoveFirst(repos, url);
      }
      repos := [url] + repos;
      repos := repos[..if |repos| <= MAX_RECENT then |repos| else MAX_RECENT];
      saved := repos;
    }
  }
}
