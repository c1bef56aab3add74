/**
 * Properties of `detectChanges` that hold for every input, including
 * snapshots that repeat an issue number: the length bound, the order of
 * the changes, their shape, and what the closed pass may do.
 */
module DetectionShape {
  import opened Wrappers
  import opened IssueTypes
  import opened ChangeDetection

  /** The first pass yields at most one change per current issue, in order, and never a closed one. */
  lemma {:induction false} ClassifyAllEmbeds(s: seq<Issue>, previousMap: map<nat, Issue>) returns (idx: seq<nat>)
    ensures |ClassifyAll(s, previousMap)| <= |s|
    ensures Embeds(idx, IssuesOf(ClassifyAll(s, previousMap)), s)
    ensures forall k :: 0 <= k < |ClassifyAll(s, previousMap)| ==>
      WellShaped(ClassifyAll(s, previousMap)[k]) && ClassifyAll(s, previousMap)[k].kind != ClosedIssue
  {
    if s == [] {
      idx := [];
    } else {
      var init := s[..|s| - 1];
      var before := ClassifyAll(init, previousMap);
      var last := Classify(s[|s| - 1], previousMap);
      var idx0 := ClassifyAllEmbeds(init, previousMap);
      var r := ClassifyAll(s, previousMap);
      assert r == before + last;
      forall k | 0 <= k < |r| ensures WellShaped(r[k]) && r[k].kind != ClosedIssue {
        if k >= |before| {
          assert r[k] == last[k - |before|] && r[k] in last;
        }
      }
      if last == [] {
        idx := idx0;
        assert IssuesOf(r) == IssuesOf(before);
        forall k | 0 <= k < |idx| ensures idx[k] < |s| && IssuesOf(before)[k] == s[idx[k]] {
          assert init[idx0[k]] == s[idx0[k]];
        }
      } else {
        idx := idx0 + [|s| - 1];
        assert last[0] in last;
        assert IssuesOf(r) == IssuesOf(before) + [s[|s| - 1]];
        forall k | 0 <= k < |idx0| ensures idx[k] < |s| && IssuesOf(before)[k] == s[idx[k]] {
          assert init[idx0[k]] == s[idx0[k]];
        }
      }
    }
  }

  /**
   * The closed pass never changes the length or the order of the changes:
   * each change keeps its issue and its previous state, and its type either
   * stays or goes from updated to closed, the latter only for an issue some
   * previous issue saw go from open to closed.
   */
  lemma {:induction false} RelabelClosedPromotes(changes: seq<IssueChange>, previous: seq<Issue>, currentMap: map<nat, Issue>)
    ensures |RelabelClosed(changes, previous, currentMap)| == |changes|
    ensures forall k :: 0 <= k < |changes| ==>
      var r := RelabelClosed(changes, previous, currentMap)[k];
      && r.issue == changes[k].issue
      && r.previousState == changes[k].previousState
      && (r.kind == changes[k].kind ||
          (changes[k].kind == UpdatedIssue && r.kind == ClosedIssue &&
           exists p :: p in previous && p.number == changes[k].issue.number && ClosedTransition(p, currentMap)))
  {
    if previous != [] {
      var init := previous[..|previous| - 1];
      var p := previous[|previous| - 1];
      var before := RelabelClosed(changes, init, currentMap);
      RelabelClosedPromotes(changes, init, currentMap);
      forall q | q in init ensures q in previous {
        var i :| 0 <= i < |init| && init[i] == q;
        assert previous[i] == q;
      }
    }
  }

  /**
   * Whatever the snapshots: at most one change per current issue, the
   * changed issues appear in the order of the current snapshot (so an issue
   * only in the previous snapshot yields nothing), new changes carry no
   * previous state and updated or closed ones always do.
   */
  lemma ChangesBetweenShape(current: seq<Issue>, previous: Option<seq<Issue>>)
    ensures |ChangesBetween(current, previous)| <= |current|
    ensures OrderedSubsequence(IssuesOf(ChangesBetween(current, previous)), current)
    ensures forall k :: 0 <= k < |ChangesBetween(current, previous)| ==> WellShaped(ChangesBetween(current, previous)[k])
  {
    var r := ChangesBetween(current, previous);
    if previous.None? || |previous.value| == 0 {
      var idx := seq(|current|, k requires 0 <= k < |current| => k);
      assert Embeds(idx, IssuesOf(r), current);
    } else {
      var previousMap := IndexByNumber(previous.value);
      var currentMap := IndexByNumber(current);
      var classified := ClassifyAll(current, previousMap);
      var idx := ClassifyAllEmbeds(current, previousMap);
      RelabelClosedPromotes(classified, previous.value, currentMap);
      assert IssuesOf(r) == IssuesOf(classified);
      assert Embeds(idx, IssuesOf(r), current);
    }
  }

  /** An issue number absent from the current snapshot never appears among the changes. */
  lemma VanishedIssueYieldsNothing(current: seq<Issue>, previous: Option<seq<Issue>>, n: nat)
    requires !HasNumber(current, n)
    ensures forall k :: 0 <= k < |ChangesBetween(current, previous)| ==> ChangesBetween(current, previous)[k].issue.number != n
  {
    ChangesBetweenShape(current, previous);
    var r := ChangesBetween(current, previous);
    var idx :| Embeds(idx, IssuesOf(r), current);
    forall k | 0 <= k < |r| ensures r[k].issue.number != n {
      assert r[k].issue == current[idx[k]];
    }
  }
}
