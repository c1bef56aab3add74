/**
 * The records exchanged by the issue monitor: an issue as fetched from the
 * tracker, one detected change, and the result of one monitoring call.
 */
module IssueTypes {
  import opened Wrappers

  datatype IssueState = Open | Closed

  datatype User = User(login: string)

  datatype Label = Label(name: string)

  /** One issue of a snapshot; `number` is its identity within a repository. */
  datatype Issue = Issue(
    number: nat,
    title: string,
    state: IssueState,
    updatedAt: string,
    createdAt: string,
    htmlUrl: string,
    user: User,
    labels: seq<Label>,
    body: Option<string>)

  datatype ChangeType = NewIssue | UpdatedIssue | ClosedIssue

  /** The part of the previous issue a change remembers: its state, update time and title. */
  datatype PreviousState = PreviousState(state: IssueState, updatedAt: string, title: string)

  datatype IssueChange = IssueChange(kind: ChangeType, issue: Issue, previousState: Option<PreviousState>)

  datatype IssueMonitorResult = IssueMonitorResult(
    totalIssues: nat,
    changes: seq<IssueChange>,
    timestamp: string,
    hasChanges: bool)

  function PreviousStateOf(previous: Issue): PreviousState {
    PreviousState(previous.state, previous.updatedAt, previous.title)
  }

  /** No two issues of the snapshot share a number. */
  predicate UniqueNumbers(s: seq<Issue>) {
    forall i, j :: 0 <= i < j < |s| ==> s[i].number != s[j].number
  }

  /** The issues the changes are about, in the order of the changes. */
  function IssuesOf(changes: seq<IssueChange>): seq<Issue> {
    seq(|changes|, k requires 0 <= k < |changes| => changes[k].issue)
  }

  /**
   * A change has the shape the monitor promises: a new issue carries no
   * previous state, an updated or closed one always does.
   */
  predicate WellShaped(change: IssueChange) {
    change.kind.NewIssue? <==> change.previousState.None?
  }

  /** `idx` places every element of `xs` in `ys`, in increasing positions. */
  predicate Embeds(idx: seq<nat>, xs: seq<Issue>, ys: seq<Issue>) {
    && |idx| == |xs|
    && (forall k :: 0 <= k < |idx| ==> idx[k] < |ys| && xs[k] == ys[idx[k]])
    && (forall a, b :: 0 <= a < b < |idx| ==> idx[a] < idx[b])
  }

  /** `xs` is a subsequence of `ys`: the same elements in the same relative order. */
  ghost predicate OrderedSubsequence(xs: seq<Issue>, ys: seq<Issue>) {
    exists idx :: Embeds(idx, xs, ys)
  }
}
