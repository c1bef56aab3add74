/**
 * What a caller of `detectChanges` can rely on for well-formed snapshots,
 * derived from the one-pass reference: exactly one change per new or
 * changed issue, none for an unchanged one, and the closed type exactly on
 * an open-to-closed transition.
 */
module DetectionProperties {
  import opened Wrappers
  import opened IssueTypes
  import opened ChangeDetection
  import opened DetectionReference

  /** The changes about issue number `n`, in order. */
  function ChangesFor(changes: seq<IssueChange>, n: nat): seq<IssueChange> {
    if changes == [] then []
    else
      var last := changes[|changes| - 1];
      ChangesFor(changes[..|changes| - 1], n) + (if last.issue.number == n then [last] else [])
  }

  lemma {:induction false} ChangesForAppend(a: seq<IssueChange>, b: seq<IssueChange>, n: nat)
    ensures ChangesFor(a + b, n) == ChangesFor(a, n) + ChangesFor(b, n)
  {
    if b == [] {
      assert a + b == a;
    } else {
      assert (a + b)[..|a + b| - 1] == a + b[..|b| - 1];
      assert (a + b)[|a + b| - 1] == b[|b| - 1];
      ChangesForAppend(a, b[..|b| - 1], n);
    }
  }

  /** In a snapshot without repeated numbers, searching for an issue's number finds that issue. */
  lemma FindByNumberUnique(s: seq<Issue>, i: nat)
    requires UniqueNumbers(s) && i < |s|
    ensures FindByNumber(s, s[i].number) == Some(s[i])
  {
    assert HasNumber(s, s[i].number);
    var found := FindByNumber(s, s[i].number);
    var fi :| 0 <= fi < |s| && s[fi] == found.value;
  }

  /** Dropping a last issue that carries another number does not change a search. */
  lemma FindByNumberInit(s: seq<Issue>, n: nat)
    requires UniqueNumbers(s) && |s| > 0 && s[|s| - 1].number != n
    ensures FindByNumber(s, n) == FindByNumber(s[..|s| - 1], n)
  {
    var init := s[..|s| - 1];
    if HasNumber(s, n) {
      var i :| 0 <= i < |s| && s[i].number == n;
      assert init[i] == s[i];
      assert UniqueNumbers(init);
      FindByNumberUnique(s, i);
      FindByNumberUnique(init, i);
    }
  }

  /** In a snapshot without repeated numbers, each number has exactly the reference change of its issue. */
  lemma {:induction false} ExpectedAllFor(current: seq<Issue>, previous: seq<Issue>, n: nat)
    requires UniqueNumbers(current)
    ensures ChangesFor(ExpectedAll(current, previous), n) ==
      match FindByNumber(current, n)
      case None => []
      case Some(c) => Expected(c, previous)
  {
    if current != [] {
      var init := current[..|current| - 1];
      var c := current[|current| - 1];
      assert UniqueNumbers(init);
      ExpectedAllFor(init, previous, n);
      ChangesForAppend(ExpectedAll(init, previous), Expected(c, previous), n);
      ExpectedAboutItsIssue(c, previous, n);
      if c.number == n {
        FindByNumberUnique(current, |current| - 1);
      } else {
        FindByNumberInit(current, n);
      }
    }
  }

  /** The reference change of an issue is about that issue only. */
  lemma ExpectedAboutItsIssue(c: Issue, previous: seq<Issue>, n: nat)
    ensures ChangesFor(Expected(c, previous), n) == if c.number == n then Expected(c, previous) else []
  {
    var e := Expected(c, previous);
    if e != [] {
      assert e[..|e| - 1] == [];
    }
  }

  /**
   * For well-formed snapshots, the changes about any issue number: none if
   * the number is not in the current snapshot (an issue only in the previous
   * one is never reported), and otherwise exactly the reference change of
   * that current issue — one new change without previous state if the number
   * was not there before, no change if neither update time nor state
   * differs, else one updated or closed change remembering the previous
   * state, update time and title.
   */
  lemma ChangesPerIssue(current: seq<Issue>, previous: Option<seq<Issue>>, n: nat)
    requires UniqueNumbers(current) && UniqueNumbers(PreviousOrEmpty(previous))
    ensures ChangesFor(ChangesBetween(current, previous), n) ==
      match FindByNumber(current, n)
      case None => []
      case Some(c) => Expected(c, PreviousOrEmpty(previous))
  {
    DetectionMatchesReference(current, previous);
    ExpectedAllFor(current, PreviousOrEmpty(previous), n);
  }

  /**
   * A change the monitor may report: new without previous state, updated or
   * closed with one that differs in update time or state, and closed exactly
   * when the issue went from open to closed.
   */
  predicate Justified(change: IssueChange) {
    && WellShaped(change)
    && (change.previousState.Some? ==>
          change.previousState.value.updatedAt != change.issue.updatedAt ||
          change.previousState.value.state != change.issue.state)
    && (change.kind == ClosedIssue <==>
          change.previousState.Some? && change.previousState.value.state == Open && change.issue.state == Closed)
  }

  lemma {:induction false} ExpectedAllJustified(current: seq<Issue>, previous: seq<Issue>)
    ensures forall k :: 0 <= k < |ExpectedAll(current, previous)| ==> Justified(ExpectedAll(current, previous)[k])
  {
    if current != [] {
      ExpectedAllJustified(current[..|current| - 1], previous);
    }
  }

  /**
   * For well-formed snapshots every reported change is justified; in
   * particular a closed change always has a closed issue and an open
   * previous state, and an updated one never has both.
   */
  lemma EveryChangeJustified(current: seq<Issue>, previous: Option<seq<Issue>>)
    requires UniqueNumbers(current) && UniqueNumbers(PreviousOrEmpty(previous))
    ensures forall k :: 0 <= k < |ChangesBetween(current, previous)| ==> Justified(ChangesBetween(current, previous)[k])
  {
    DetectionMatchesReference(current, previous);
    ExpectedAllJustified(current, PreviousOrEmpty(previous));
  }

  lemma {:induction false} ExpectedAllQuiet(s: seq<Issue>, previous: seq<Issue>)
    requires UniqueNumbers(previous)
    requires forall c :: c in s ==> c in previous
    ensures ExpectedAll(s, previous) == []
  {
    if s != [] {
      var init := s[..|s| - 1];
      var c := s[|s| - 1];
      forall d | d in init ensures d in previous {
        var i :| 0 <= i < |init| && init[i] == d;
        assert s[i] == d;
      }
      ExpectedAllQuiet(init, previous);
      assert c in s;
      var ci :| 0 <= ci < |previous| && previous[ci] == c;
      FindByNumberUnique(previous, ci);
    }
  }

  /** No-op stability: comparing a well-formed snapshot with itself reports nothing. */
  lemma NoChangesAgainstItself(s: seq<Issue>)
    requires UniqueNumbers(s)
    ensures ChangesBetween(s, Some(s)) == []
  {
    DetectionMatchesReference(s, Some(s));
    ExpectedAllQuiet(s, s);
  }

  /** An issue added to a known snapshot is the one change, reported as new. */
  lemma PureAddition(known: Issue, added: Issue)
    requires known.number != added.number
    ensures ChangesBetween([known, added], Some([known])) == [IssueChange(NewIssue, added, None)]
  {
    DetectionMatchesReference([known, added], Some([known]));
    assert [known, added][..1] == [known];
    assert [known][..0] == [];
    assert Expected(known, [known]) == [];
    assert FindByNumber([known], added.number) == None;
    assert ExpectedAll([known], [known]) == [];
  }

  /** A new update time on an issue whose state is unchanged is one updated change. */
  lemma UpdateDetected(previous: Issue, current: Issue)
    requires previous.number == current.number && previous.state == current.state
    requires previous.updatedAt != current.updatedAt
    ensures ChangesBetween([current], Some([previous])) == [IssueChange(UpdatedIssue, current, Some(PreviousStateOf(previous)))]
  {
    DetectionMatchesReference([current], Some([previous]));
    assert [current][..0] == [];
  }

  /** An issue that went from open to closed is one change typed closed, not updated. */
  lemma CloseReclassified(previous: Issue, current: Issue)
    requires previous.number == current.number && previous.state == Open && current.state == Closed
    ensures ChangesBetween([current], Some([previous])) == [IssueChange(ClosedIssue, current, Some(PreviousStateOf(previous)))]
  {
    DetectionMatchesReference([current], Some([previous]));
    assert [current][..0] == [];
  }

  /**
   * Identity is the number alone, and only update time and state are
   * compared: an edit of title, labels, body or anything else that leaves
   * both unchanged reports nothing.
   */
  lemma EditWithoutUpdateIgnored(previous: Issue, current: Issue)
    requires previous.number == current.number
    requires previous.updatedAt == current.updatedAt && previous.state == current.state
    ensures ChangesBetween([current], Some([previous])) == []
  {
    DetectionMatchesReference([current], Some([previous]));
    assert [current][..0] == [];
  }

  /**
   * Why the snapshots must not repeat a number: with a previous snapshot
   * holding issue 1 both open and closed, the identity map keeps the closed
   * one, while the closed pass still acts on the open one, so a change typed
   * closed ends up remembering a closed previous state.
   */
  lemma DuplicatePreviousMislabelsClosed()
    ensures
      var wasOpen := Issue(1, "t", Open, "t0", "c", "u", User("a"), [], None);
      var wasClosed := wasOpen.(state := Closed);
      var now := wasOpen.(state := Closed, updatedAt := "t1");
      ChangesBetween([now], Some([wasOpen, wasClosed])) == [IssueChange(ClosedIssue, now, Some(PreviousStateOf(wasClosed)))]
      && !Justified(ChangesBetween([now], Some([wasOpen, wasClosed]))[0])
  {
    var wasOpen := Issue(1, "t", Open, "t0", "c", "u", User("a"), [], None);
    var wasClosed := wasOpen.(state := Closed);
    var now := wasOpen.(state := Closed, updatedAt := "t1");
    var previous := [wasOpen, wasClosed];
    assert previous[..1] == [wasOpen];
    assert previous[..1][..0] == [];
    assert [now][..0] == [];
    assert IndexByNumber(previous)[1] == wasClosed;
    assert IndexByNumber([now])[1] == now;
    var classified := ClassifyAll([now], IndexByNumber(previous));
    assert ClassifyAll([now][..0], IndexByNumber(previous)) == [];
    assert Classify(now, IndexByNumber(previous)) == [IssueChange(UpdatedIssue, now, Some(PreviousStateOf(wasClosed)))];
    assert classified == [IssueChange(UpdatedIssue, now, Some(PreviousStateOf(wasClosed)))];
    assert FindUpdated(classified, 1) == Some(0);
    var currentMap := IndexByNumber([now]);
    var relabelled := [IssueChange(ClosedIssue, now, Some(PreviousStateOf(wasClosed)))];
    assert RelabelClosed(classified, previous[..1][..0], currentMap) == classified;
    assert RelabelClosed(classified, previous[..1], currentMap) == relabelled;
    assert RelabelClosed(classified, previous, currentMap) == relabelled;
  }

  /**
   * `find` relabels only the first match: with the current snapshot holding
   * issue 1 twice, both closed now and open before, only the first change
   * becomes closed and the second stays updated.
   */
  lemma DuplicateCurrentClosesFirstOnly()
    ensures
      var before := Issue(1, "t", Open, "t0", "c", "u", User("a"), [], None);
      var first := before.(state := Closed, updatedAt := "t1");
      var second := before.(state := Closed, updatedAt := "t2");
      ChangesBetween([first, second], Some([before])) ==
        [IssueChange(ClosedIssue, first, Some(PreviousStateOf(before))),
         IssueChange(UpdatedIssue, second, Some(PreviousStateOf(before)))]
  {
    var before := Issue(1, "t", Open, "t0", "c", "u", User("a"), [], None);
    var first := before.(state := Closed, updatedAt := "t1");
    var second := before.(state := Closed, updatedAt := "t2");
    var current := [first, second];
    var previousMap := IndexByNumber([before]);
    var currentMap := IndexByNumber(current);
    assert [before][..0] == [];
    assert previousMap[1] == before;
    assert current[..1] == [first];
    assert current[..1][..0] == [];
    assert currentMap[1] == second;
    var classified := ClassifyAll(current, previousMap);
    assert ClassifyAll(current[..1][..0], previousMap) == [];
    assert ClassifyAll(current[..1], previousMap) == [IssueChange(UpdatedIssue, first, Some(PreviousStateOf(before)))];
    assert classified == [IssueChange(UpdatedIssue, first, Some(PreviousStateOf(before))),
                          IssueChange(UpdatedIssue, second, Some(PreviousStateOf(before)))];
    assert FindUpdated(classified, 1) == Some(0);
    assert RelabelClosed(classified, [before][..0], currentMap) == classified;
  }
}
