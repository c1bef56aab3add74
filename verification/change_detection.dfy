/**
 * The change-detection step of the issue monitor: the two passes of
 * `detectChanges` as specification functions, and the method that runs
 * them as loops over a growing list of changes.
 */
module ChangeDetection {
  import opened Wrappers
  import opened IssueTypes

  /**
   * The identity map built from a snapshot: each number maps to the issue
   * carrying it; when a number occurs twice, the later issue wins.
   */
  function IndexByNumber(s: seq<Issue>): (m: map<nat, Issue>)
    ensures forall n :: n in m ==> m[n] in s && m[n].number == n
  {
    if s == [] then map[] else IndexByNumber(s[..|s| - 1])[s[|s| - 1].number := s[|s| - 1]]
  }

  predicate HasNumber(s: seq<Issue>, n: nat) {
    exists i :: 0 <= i < |s| && s[i].number == n
  }

  /** Position `i` holds the last issue of `s` carrying its number. */
  predicate LastWithNumber(s: seq<Issue>, i: nat)
    requires i < |s|
  {
    forall j :: i < j < |s| ==> s[j].number != s[i].number
  }

  /** The identity map has exactly the snapshot's numbers as keys. */
  lemma {:induction false} IndexByNumberKeys(s: seq<Issue>, n: nat)
    ensures n in IndexByNumber(s) <==> HasNumber(s, n)
  {
    if s != [] {
      var init := s[..|s| - 1];
      IndexByNumberKeys(init, n);
      if HasNumber(init, n) {
        var i :| 0 <= i < |init| && init[i].number == n;
        assert s[i].number == n;
      }
      if HasNumber(s, n) && s[|s| - 1].number != n {
        var i :| 0 <= i < |s| && s[i].number == n;
        assert init[i].number == n;
      }
    }
  }

  /** On a duplicate number the identity map keeps the later issue. */
  lemma {:induction false} IndexByNumberLastWins(s: seq<Issue>, i: nat)
    requires i < |s| && LastWithNumber(s, i)
    ensures s[i].number in IndexByNumber(s) && IndexByNumber(s)[s[i].number] == s[i]
  {
    if i < |s| - 1 {
      var init := s[..|s| - 1];
      assert LastWithNumber(init, i) by {
        forall j | i < j < |init| ensures init[j].number != init[i].number {
          assert init[j] == s[j];
        }
      }
      IndexByNumberLastWins(init, i);
      assert s[|s| - 1].number != s[i].number;
    }
  }

  /** First run: every current issue is reported as new, in order, without a previous state. */
  function AllNew(s: seq<Issue>): (r: seq<IssueChange>)
    ensures |r| == |s|
    ensures forall k :: 0 <= k < |s| ==> r[k] == IssueChange(NewIssue, s[k], None)
  {
    if s == [] then [] else AllNew(s[..|s| - 1]) + [IssueChange(NewIssue, s[|s| - 1], None)]
  }

  /** The change (zero or one) the first pass records for one current issue. */
  function Classify(current: Issue, previousMap: map<nat, Issue>): (r: seq<IssueChange>)
    ensures |r| <= 1
    ensures forall change :: change in r ==>
      change.issue == current && WellShaped(change) && change.kind != ClosedIssue
  {
    if current.number !in previousMap then
      [IssueChange(NewIssue, current, None)]
    else
      var previous := previousMap[current.number];
      if previous.updatedAt != current.updatedAt || previous.state != current.state then
        [IssueChange(UpdatedIssue, current, Some(PreviousStateOf(previous)))]
      else
        []
  }

  /** The first pass over the current issues, in their order. */
  function ClassifyAll(s: seq<Issue>, previousMap: map<nat, Issue>): seq<IssueChange> {
    if s == [] then [] else ClassifyAll(s[..|s| - 1], previousMap) + Classify(s[|s| - 1], previousMap)
  }

  predicate IsUpdatedFor(change: IssueChange, n: nat) {
    change.issue.number == n && change.kind == UpdatedIssue
  }

  /** `changes.find(...)`: the position of the first updated change for issue `n`, if any. */
  function FindUpdated(changes: seq<IssueChange>, n: nat): (r: Option<nat>)
    ensures r.Some? ==> r.value < |changes| && IsUpdatedFor(changes[r.value], n)
    ensures r.Some? ==> forall j :: 0 <= j < r.value ==> !IsUpdatedFor(changes[j], n)
    ensures r.None? ==> forall j :: 0 <= j < |changes| ==> !IsUpdatedFor(changes[j], n)
  {
    if changes == [] then None
    else if IsUpdatedFor(changes[0], n) then Some(0)
    else
      match FindUpdated(changes[1..], n)
      case None => None
      case Some(j) => Some(j + 1)
  }

  /** Relabel the first updated change for issue `n` as closed; nothing is appended. */
  function MarkClosed(changes: seq<IssueChange>, n: nat): (r: seq<IssueChange>)
    ensures |r| == |changes|
    ensures forall k :: 0 <= k < |changes| ==>
      r[k] == changes[k] || (IsUpdatedFor(changes[k], n) && r[k] == changes[k].(kind := ClosedIssue))
    ensures r == changes <==> forall k :: 0 <= k < |changes| ==> !IsUpdatedFor(changes[k], n)
    ensures forall j, k :: 0 <= j < k < |changes| && IsUpdatedFor(changes[j], n) ==> r[k] == changes[k]
  {
    match FindUpdated(changes, n)
    case None => changes
    case Some(k) => changes[k := changes[k].(kind := ClosedIssue)]
  }

  /** The previous issue is still present in the current snapshot and went from open to closed. */
  predicate ClosedTransition(previous: Issue, currentMap: map<nat, Issue>) {
    previous.number in currentMap && previous.state == Open && currentMap[previous.number].state == Closed
  }

  /** The second pass: for each previous issue in order, relabel on an open-to-closed transition. */
  function RelabelClosed(changes: seq<IssueChange>, previous: seq<Issue>, currentMap: map<nat, Issue>): seq<IssueChange> {
    if previous == [] then changes
    else
      var before := RelabelClosed(changes, previous[..|previous| - 1], currentMap);
      var p := previous[|previous| - 1];
      if ClosedTransition(p, currentMap) then MarkClosed(before, p.number) else before
  }

  /** What `detectChanges` returns for the current issues and the (possibly absent) previous ones. */
  function ChangesBetween(current: seq<Issue>, previous: Option<seq<Issue>>): (r: seq<IssueChange>)
    ensures previous.None? || |previous.value| == 0 ==>
      |r| == |current| && forall k :: 0 <= k < |current| ==> r[k] == IssueChange(NewIssue, current[k], None)
  {
    if previous.None? || |previous.value| == 0 then AllNew(current)
    else
      var previousMap := IndexByNumber(previous.value);
      var currentMap := IndexByNumber(current);
      RelabelClosed(ClassifyAll(current, previousMap), previous.value, currentMap)
  }

  /**
   * `detectChanges`: a first-run shortcut, then a pass over the current
   * issues that appends new and updated changes, then a pass over the
   * previous issues that relabels updated changes as closed in place.
   */
  method DetectChanges(current: seq<Issue>, previous: Option<seq<Issue>>) returns (changes: seq<IssueChange>)
    ensures changes == ChangesBetween(current, previous)
  {
    changes := [];
    if previous.None? || |previous.value| == 0 {
      for i := 0 to |current|
        invariant changes == AllNew(current[..i])
      {
        assert current[..i + 1][..i] == current[..i];
        changes := changes + [IssueChange(NewIssue, current[i], None)];
      }
      assert current[..|current|] == current;
      return;
    }

    var previousIssues := previous.value;
    var previousMap := IndexByNumber(previousIssues);
    var currentMap := IndexByNumber(current);

    for i := 0 to |current|
      invariant changes == ClassifyAll(current[..i], previousMap)
    {
      assert current[..i + 1][..i] == current[..i];
      var issue := current[i];
      if issue.number !in previousMap {
        changes := changes + [IssueChange(NewIssue, issue, None)];
      } else {
        var prior := previousMap[issue.number];
        if prior.updatedAt != issue.updatedAt || prior.state != issue.state {
          changes := changes + [IssueChange(UpdatedIssue, issue, Some(PreviousStateOf(prior)))];
        }
      }
    }
    assert current[..|current|] == current;

    ghost var classified := changes;
    for j := 0 to |previousIssues|
      invariant changes == RelabelClosed(classified, previousIssues[..j], currentMap)
    {
      assert previousIssues[..j + 1][..j] == previousIssues[..j];
      var prior := previousIssues[j];
      if prior.number in currentMap && prior.state == Open && currentMap[prior.number].state == Closed {
        var found := FindUpdated(changes, prior.number);
        if found.Some? {
          changes := changes[found.value := changes[found.value].(kind := ClosedIssue)];
        }
      }
    }
    assert previousIssues[..|previousIssues|] == previousIssues;
  }
}
