/**
 * A one-pass reference for change detection on well-formed snapshots (no
 * issue number repeated within a snapshot), and the proof that the two
 * passes of `detectChanges` compute exactly it.
 */
module DetectionReference {
  import opened Wrappers
  import opened IssueTypes
  import opened ChangeDetection
  import opened DetectionShape

  /** The first pass over a snapshot without repeated numbers reports each number at most once. */
  lemma ClassifyAllUnique(s: seq<Issue>, previousMap: map<nat, Issue>)
    requires UniqueNumbers(s)
    ensures UniqueNumbers(IssuesOf(ClassifyAll(s, previousMap)))
  {
    var idx := ClassifyAllEmbeds(s, previousMap);
    var xs := IssuesOf(ClassifyAll(s, previousMap));
    forall a, b | 0 <= a < b < |xs| ensures xs[a].number != xs[b].number {
      assert idx[a] < idx[b];
    }
  }

  /** The issue of `s` carrying number `n`, found by a linear search from the front. */
  function FindByNumber(s: seq<Issue>, n: nat): (r: Option<Issue>)
    ensures r.Some? ==> r.value in s && r.value.number == n
    ensures r.None? <==> !HasNumber(s, n)
  {
    if s == [] then None
    else if s[0].number == n then Some(s[0])
    else
      var r := FindByNumber(s[1..], n);
      assert HasNumber(s, n) && s[0].number != n ==> HasNumber(s[1..], n) by {
        if HasNumber(s, n) && s[0].number != n {
          var i :| 0 <= i < |s| && s[i].number == n;
          assert s[1..][i - 1].number == n;
        }
      }
      assert HasNumber(s[1..], n) ==> HasNumber(s, n) by {
        if HasNumber(s[1..], n) {
          var i :| 0 <= i < |s[1..]| && s[1..][i].number == n;
          assert s[i + 1].number == n;
        }
      }
      r
  }

  /**
   * The change one current issue should produce: new when its number was
   * not seen before; otherwise a change only when the update time or the
   * state differs, typed closed exactly for an open-to-closed transition,
   * and carrying the previous state, update time and title.
   */
  function Expected(current: Issue, previous: seq<Issue>): seq<IssueChange> {
    match FindByNumber(previous, current.number)
    case None => [IssueChange(NewIssue, current, None)]
    case Some(p) =>
      if p.updatedAt != current.updatedAt || p.state != current.state then
        var kind := if p.state == Open && current.state == Closed then ClosedIssue else UpdatedIssue;
        [IssueChange(kind, current, Some(PreviousStateOf(p)))]
      else
        []
  }

  function ExpectedAll(current: seq<Issue>, previous: seq<Issue>): seq<IssueChange> {
    if current == [] then [] else ExpectedAll(current[..|current| - 1], previous) + Expected(current[|current| - 1], previous)
  }

  /** The numbers the closed pass relabels: previous open issues that are closed now. */
  function ClosingNumbers(previous: seq<Issue>, currentMap: map<nat, Issue>): set<nat> {
    set p | p in previous && ClosedTransition(p, currentMap) :: p.number
  }

  /** Every updated change whose issue number is in `closing`, relabelled as closed. */
  function Promote(changes: seq<IssueChange>, closing: set<nat>): seq<IssueChange> {
    seq(|changes|, k requires 0 <= k < |changes| =>
      if changes[k].kind == UpdatedIssue && changes[k].issue.number in closing
      then changes[k].(kind := ClosedIssue) else changes[k])
  }

  lemma MarkClosedPromote(changes: seq<IssueChange>, closing: set<nat>, n: nat)
    requires UniqueNumbers(IssuesOf(changes))
    ensures MarkClosed(Promote(changes, closing), n) == Promote(changes, closing + {n})
  {
    var before := Promote(changes, closing);
    var after := Promote(changes, closing + {n});
    match FindUpdated(before, n)
    case None =>
      forall k | 0 <= k < |changes| ensures before[k] == after[k] {
        assert !IsUpdatedFor(before[k], n);
      }
    case Some(i) =>
      forall k | 0 <= k < |changes| ensures MarkClosed(before, n)[k] == after[k] {
        if k != i {
          assert IssuesOf(changes)[k].number != IssuesOf(changes)[i].number;
        }
      }
  }

  /**
   * On changes that name each issue at most once, the closed pass relabels
   * exactly the updated changes of the issues that went from open to closed.
   */
  lemma {:induction false} RelabelClosedIsPromote(changes: seq<IssueChange>, previous: seq<Issue>, currentMap: map<nat, Issue>)
    requires UniqueNumbers(IssuesOf(changes))
    ensures RelabelClosed(changes, previous, currentMap) == Promote(changes, ClosingNumbers(previous, currentMap))
  {
    if previous == [] {
      assert ClosingNumbers(previous, currentMap) == {};
    } else {
      var init := previous[..|previous| - 1];
      var p := previous[|previous| - 1];
      RelabelClosedIsPromote(changes, init, currentMap);
      assert previous == init + [p];
      if ClosedTransition(p, currentMap) {
        assert ClosingNumbers(previous, currentMap) == ClosingNumbers(init, currentMap) + {p.number};
        MarkClosedPromote(changes, ClosingNumbers(init, currentMap), p.number);
      } else {
        assert ClosingNumbers(previous, currentMap) == ClosingNumbers(init, currentMap);
      }
    }
  }

  lemma PromoteAppend(a: seq<IssueChange>, b: seq<IssueChange>, closing: set<nat>)
    ensures Promote(a + b, closing) == Promote(a, closing) + Promote(b, closing)
  {
  }

  /** For one issue of a well-formed current snapshot, the first pass followed by relabelling gives the reference change. */
  lemma ClassifyMatchesExpected(c: Issue, current: seq<Issue>, previous: seq<Issue>)
    requires c in current && UniqueNumbers(current) && UniqueNumbers(previous)
    ensures Promote(Classify(c, IndexByNumber(previous)), ClosingNumbers(previous, IndexByNumber(current))) == Expected(c, previous)
  {
    var previousMap := IndexByNumber(previous);
    var currentMap := IndexByNumber(current);
    var closing := ClosingNumbers(previous, currentMap);
    IndexByNumberKeys(previous, c.number);
    var ci :| 0 <= ci < |current| && current[ci] == c;
    IndexByNumberLastWins(current, ci);
    match FindByNumber(previous, c.number)
    case None =>
    case Some(p) =>
      var pi :| 0 <= pi < |previous| && previous[pi] == p;
      IndexByNumberLastWins(previous, pi);
      assert c.number in closing <==> p.state == Open && c.state == Closed by {
        if c.number in closing {
          var q :| q in previous && ClosedTransition(q, currentMap) && q.number == c.number;
          var qi :| 0 <= qi < |previous| && previous[qi] == q;
          assert qi == pi;
        }
      }
  }

  lemma {:induction false} PromoteClassifyAll(s: seq<Issue>, current: seq<Issue>, previous: seq<Issue>)
    requires forall c :: c in s ==> c in current
    requires UniqueNumbers(current) && UniqueNumbers(previous)
    ensures Promote(ClassifyAll(s, IndexByNumber(previous)), ClosingNumbers(previous, IndexByNumber(current))) == ExpectedAll(s, previous)
  {
    if s != [] {
      var init := s[..|s| - 1];
      var closing := ClosingNumbers(previous, IndexByNumber(current));
      forall c | c in init ensures c in current {
        var i :| 0 <= i < |init| && init[i] == c;
        assert s[i] == c;
      }
      PromoteClassifyAll(init, current, previous);
      ClassifyMatchesExpected(s[|s| - 1], current, previous);
      PromoteAppend(ClassifyAll(init, IndexByNumber(previous)), Classify(s[|s| - 1], IndexByNumber(previous)), closing);
    }
  }

  /** With nothing to compare against, the reference reports every issue as new: the first-run policy. */
  lemma {:induction false} FirstRunIsReference(current: seq<Issue>)
    ensures AllNew(current) == ExpectedAll(current, [])
  {
    if current != [] {
      FirstRunIsReference(current[..|current| - 1]);
    }
  }

  /** The previous snapshot a call compares against; an absent one is compared as empty. */
  function PreviousOrEmpty(previous: Option<seq<Issue>>): seq<Issue> {
    if previous.None? then [] else previous.value
  }

  /**
   * On well-formed snapshots the two passes of `detectChanges` (and its
   * first-run shortcut) yield exactly the one-pass reference: for each
   * current issue in order, its expected change.
   */
  lemma DetectionMatchesReference(current: seq<Issue>, previous: Option<seq<Issue>>)
    requires UniqueNumbers(current) && UniqueNumbers(PreviousOrEmpty(previous))
    ensures ChangesBetween(current, previous) == ExpectedAll(current, PreviousOrEmpty(previous))
  {
    if previous.None? || |previous.value| == 0 {
      FirstRunIsReference(current);
    } else {
      var prior := previous.value;
      var classified := ClassifyAll(current, IndexByNumber(prior));
      ClassifyAllUnique(current, IndexByNumber(prior));
      RelabelClosedIsPromote(classified, prior, IndexByNumber(current));
      PromoteClassifyAll(current, current, prior);
    }
  }
}
