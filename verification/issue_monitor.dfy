/**
 * The cache step of the monitoring tool: read the snapshot last stored for
 * `owner/repo`, detect the changes against it, overwrite the entry with the
 * current snapshot and assemble the result. The fetch is an input.
 */
module IssueMonitorTool {
  import opened Wrappers
  import opened IssueTypes
  import opened ChangeDetection
  import opened DetectionProperties

  /** The key under which a repository's snapshot is cached. */
  function CacheKey(owner: string, repo: string): (key: string)
    ensures |key| == |owner| + 1 + |repo|
    ensures key[..|owner|] == owner && key[|owner|] == '/' && key[|owner| + 1..] == repo
  {
    owner + "/" + repo
  }

  /** `issueCache.get(key)`: the stored snapshot, or absent for a key never stored. */
  function Cached(cache: map<string, seq<Issue>>, key: string): (r: Option<seq<Issue>>)
    ensures r.None? <==> key !in cache
    ensures r.Some? ==> r.value == cache[key]
  {
    if key in cache then Some(cache[key]) else None
  }

  /** `issueCache.set(key, issues)`: the entry for `key` now reads `issues`; every other key reads as before. */
  function Store(cache: map<string, seq<Issue>>, key: string, issues: seq<Issue>): (updated: map<string, seq<Issue>>)
    ensures Cached(updated, key) == Some(issues)
    ensures forall other :: other != key ==> Cached(updated, other) == Cached(cache, other)
    ensures updated.Keys == cache.Keys + {key}
  {
    cache[key := issues]
  }

  class IssueMonitor {
    /** The process-wide cache of the last snapshot per `owner/repo`. */
    var cache: map<string, seq<Issue>>

    constructor ()
      ensures cache == map[]
    {
      cache := map[];
    }

    /**
     * One monitoring call on an already fetched snapshot: changes are
     * detected against the cached snapshot (first-run policy when there is
     * none), the entry is overwritten whether or not anything changed, and
     * the result counts the current issues and flags whether any change
     * was found.
     */
    method Execute(owner: string, repo: string, currentIssues: seq<Issue>, timestamp: string)
      returns (result: IssueMonitorResult)
      modifies this
      ensures cache == Store(old(cache), CacheKey(owner, repo), currentIssues)
      ensures result.changes == ChangesBetween(currentIssues, Cached(old(cache), CacheKey(owner, repo)))
      ensures result.totalIssues == |currentIssues|
      ensures result.hasChanges == (|result.changes| > 0)
      ensures result.timestamp == timestamp
    {
      var cacheKey := CacheKey(owner, repo);
      var previousIssues := Cached(cache, cacheKey);
      var changes := DetectChanges(currentIssues, previousIssues);
      cache := Store(cache, cacheKey, currentIssues);
      result := IssueMonitorResult(|currentIssues|, changes, timestamp, |changes| > 0);
    }
  }

  /**
   * Two calls for one repository on a fresh monitor: the first takes the
   * first-run path and reports every issue as new; the second compares
   * against exactly what the first stored, and reports nothing when the
   * repository did not change.
   */
  method PollTwice(owner: string, repo: string, first: seq<Issue>, second: seq<Issue>, t1: string, t2: string)
    returns (r1: IssueMonitorResult, r2: IssueMonitorResult)
    ensures |r1.changes| == |first| && r1.hasChanges == (|first| > 0)
    ensures forall k :: 0 <= k < |first| ==> r1.changes[k] == IssueChange(NewIssue, first[k], None)
    ensures r2.changes == ChangesBetween(second, Some(first))
    ensures first == second && UniqueNumbers(first) ==> r2.changes == [] && !r2.hasChanges
  {
    var monitor := new IssueMonitor();
    r1 := monitor.Execute(owner, repo, first, t1);
    r2 := monitor.Execute(owner, repo, second, t2);
    if first == second && UniqueNumbers(first) {
      NoChangesAgainstItself(first);
    }
  }
}
