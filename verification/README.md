# GitHub issue monitor: change detection and snapshot cache

This project models the core of a GitHub issue monitor. On each poll the
monitor fetches the issues of one repository. It compares that snapshot
with the one it saw on the previous poll and classifies each issue as
`new`, `updated` or `closed`. It then stores the fresh snapshot in a
process-wide cache keyed by `owner/repo`.

Modules: three model the types, `detectChanges` and the cache step of
`src/mastra/tools/github-monitor-tool.ts`; three hold the proofs.

- `IssueTypes` (`issue_types.dfy`): the `GitHubIssue`, `IssueChange` and
  `IssueMonitorResult` records. It also holds the predicates used to state
  properties: unique numbers, well-shaped changes, and an ordered
  subsequence.
- `ChangeDetection` (`change_detection.dfy`): `detectChanges`.
  - `DetectChanges` is a method with the three loops of `detectChanges`: the
    first-run loop, the pass over the current issues that appends changes,
    and the pass over the previous issues that relabels changes in place.
  - It is proved equal to the specification function `ChangesBetween`.
  - `ChangesBetween` is built from the first pass `ClassifyAll` and the
    closed pass `RelabelClosed`.
  - `IndexByNumber` models the identity `Map` built from an array. On a
    repeated number the later issue wins.
  - `FindUpdated` models `changes.find`, which returns the first hit.
- `DetectionShape` (`detection_shape.dfy`): properties that hold for every
  input, including snapshots that repeat a number:
  - at most one change per current issue;
  - changes follow the order of the current snapshot;
  - new changes have no previous state, and the other kinds always have one;
  - the closed pass only relabels `updated` as `closed`, in place.
- `DetectionReference` (`detection_reference.dfy`): a one-pass reference
  `ExpectedAll`. Each current issue's change is decided by that issue
  alone. The main theorem: when neither snapshot repeats an issue number,
  the two passes compute exactly this reference. The first-run path is
  covered too.
- `DetectionProperties` (`detection_properties.dfy`): results derived from
  the reference:
  - the changes about each issue number;
  - `closed` exactly on an open-to-closed transition;
  - no changes when a snapshot is compared with itself;
  - the concrete scenarios (pure addition, update, close, title edit).
- `IssueMonitorTool` (`issue_monitor.dfy`): the cache step of `execute`.
  - The class `IssueMonitor` holds the cache as a `map<string, seq<Issue>>`
    field.
  - `Execute` reads the entry, detects the changes, overwrites the entry
    and builds the result.
  - `PollTwice` is a client that runs two polls on a fresh monitor.

Issue numbers are unique within one snapshot in well-formed input. The
model does not assume this: `DetectChanges` and `ChangesBetween` have no
precondition and behave as the code does on any input. Uniqueness is a
precondition only of the lemmas that need it.
`DuplicatePreviousMislabelsClosed` shows why it is needed. A previous
snapshot holding issue 1 both open and closed produces a `closed` change
whose remembered state is `closed`.

Well-formed snapshots never repeat a number; the code does not check
this. On a repeated number the code still behaves in a fixed way: the identity map keeps the last issue,
`find` takes the first match, and the closed pass visits every element of
the previous array, duplicates included. The model follows the code.

## Model

| member | source | states |
|---|---|---|
| ChangeDetection.DetectChanges | src/mastra/tools/github-monitor-tool.ts:44-101 | The loops that push new/updated changes and then relabel updated ones as closed in place return exactly `ChangesBetween(current, previous)`, on any input |
| ChangeDetection.ChangesBetween | src/mastra/tools/github-monitor-tool.ts:51-57 | First run: when the previous list is absent or empty, there is one change per current issue, in current order, each `new` with no previous state |
| ChangeDetection.AllNew | src/mastra/tools/github-monitor-tool.ts:53-55 | The first-run loop yields, at every position k, a `new` change for the k-th current issue with no previous state |
| ChangeDetection.IndexByNumber | src/mastra/tools/github-monitor-tool.ts:59-60 | `new Map(issues.map(i => [i.number, i]))`: every stored value is an issue of the snapshot, filed under its own number; its keys and its last-wins rule are given by IndexByNumberKeys and IndexByNumberLastWins |
| ChangeDetection.IndexByNumberKeys | src/mastra/tools/github-monitor-tool.ts:59-60 | The identity map's keys are exactly the numbers occurring in the snapshot |
| ChangeDetection.IndexByNumberLastWins | src/mastra/tools/github-monitor-tool.ts:59-60 | For a number the map holds the last issue of the array carrying it (on duplicates, the later entry wins) |
| ChangeDetection.FindUpdated | src/mastra/tools/github-monitor-tool.ts:91-93 | `find` returns the first position holding an `updated` change for the number; it returns absent exactly when no position does |
| ChangeDetection.Classify | src/mastra/tools/github-monitor-tool.ts:64-83 | One current issue yields at most one change; it is about that issue, is well shaped, and is never `closed` |
| ChangeDetection.ClassifyAll | src/mastra/tools/github-monitor-tool.ts:63-84 | The first pass; no contract of its own: its bound, order and shape are given by DetectionShape.ClassifyAllEmbeds |
| ChangeDetection.MarkClosed | src/mastra/tools/github-monitor-tool.ts:91-96 | Relabelling via `find` keeps the length and changes only the first `updated` change of that number, into `closed`: every position other than that first one is unchanged, and nothing changes exactly when no `updated` change of that number exists |
| ChangeDetection.ClosedTransition | src/mastra/tools/github-monitor-tool.ts:88-89 | The closed-pass guard; no contract of its own: its effect is given by DetectionShape.RelabelClosedPromotes and DetectionReference.RelabelClosedIsPromote |
| ChangeDetection.RelabelClosed | src/mastra/tools/github-monitor-tool.ts:87-98 | The closed pass; no contract of its own: it keeps length and order and only promotes `updated` to `closed` (DetectionShape.RelabelClosedPromotes) |
| DetectionShape.ClassifyAllEmbeds | src/mastra/tools/github-monitor-tool.ts:63-84 | The first pass yields at most one change per current issue, with the issues in current order. Changes are well shaped and never `closed` |
| DetectionShape.RelabelClosedPromotes | src/mastra/tools/github-monitor-tool.ts:87-98 | The closed pass never changes the length or order. Issues and previous states stay. A type changes only from `updated` to `closed`, and only for a number that some previous issue saw go from open to closed |
| DetectionShape.ChangesBetweenShape | src/mastra/tools/github-monitor-tool.ts:44-101 | For any input: `changes.length <= currentIssues.length`, the changed issues form an ordered subsequence of the current ones, and `new` has no previous state while `updated`/`closed` always have one |
| DetectionShape.VanishedIssueYieldsNothing | src/mastra/tools/github-monitor-tool.ts:63-84 | A number absent from the current snapshot (for example present only in the previous one) never appears among the changes |
| DetectionReference.ClassifyAllUnique | src/mastra/tools/github-monitor-tool.ts:63-84 | Over a current snapshot without repeated numbers, the first pass names each issue number at most once |
| DetectionReference.FindByNumber | src/mastra/tools/github-monitor-tool.ts:64 | The reference lookup finds an issue of the snapshot with that number, and finds none exactly when no issue has it |
| DetectionReference.MarkClosedPromote | src/mastra/tools/github-monitor-tool.ts:91-96 | When numbers are unique among the changes, relabelling number n is the same as adding n to the set of numbers to be closed |
| DetectionReference.RelabelClosedIsPromote | src/mastra/tools/github-monitor-tool.ts:87-98 | When numbers are unique among the changes, the closed pass relabels exactly the `updated` changes of issues that went from open to closed |
| DetectionReference.ClassifyMatchesExpected | src/mastra/tools/github-monitor-tool.ts:63-98 | For one issue of well-formed snapshots, the first pass followed by relabelling yields the reference change of that issue |
| DetectionReference.FirstRunIsReference | src/mastra/tools/github-monitor-tool.ts:51-57 | The first-run policy agrees with the reference when it compares against an empty previous snapshot |
| DetectionReference.DetectionMatchesReference | src/mastra/tools/github-monitor-tool.ts:44-101 | On snapshots without repeated numbers, `detectChanges` equals the one-pass reference. Each current issue in order yields: `new` if its number is unseen; nothing if neither `updated_at` nor `state` differs; otherwise one change with `{state, updated_at, title}` of the matched issue, typed `closed` exactly for open to closed |
| DetectionProperties.ChangesPerIssue | src/mastra/tools/github-monitor-tool.ts:63-84 | For well-formed snapshots, the changes about a number are empty if no current issue has it, and otherwise exactly the reference change of that issue (so exactly one `new` change for an unseen number) |
| DetectionProperties.EveryChangeJustified | src/mastra/tools/github-monitor-tool.ts:87-98 | For well-formed snapshots, every change is well shaped and its previous state differs in `updated_at` or `state`. It is `closed` if and only if the issue is closed now and was open before |
| DetectionProperties.NoChangesAgainstItself | src/mastra/tools/github-monitor-tool.ts:63-84 | No-op stability: a snapshot without repeated numbers compared with itself yields no changes (an empty one takes the first-run path and also yields none) |
| DetectionProperties.PureAddition | src/mastra/tools/github-monitor-tool.ts:64-68 | Previous `[a]`, current `[a, b]` with distinct numbers yields exactly one change: `new` for `b`, with no previous state |
| DetectionProperties.UpdateDetected | src/mastra/tools/github-monitor-tool.ts:69-82 | Same number and state with a different `updated_at` yields exactly one `updated` change remembering the previous state, time and title |
| DetectionProperties.CloseReclassified | src/mastra/tools/github-monitor-tool.ts:87-98 | An issue going from open to closed yields exactly one change, typed `closed` (not `updated`), whose previous state is open |
| DetectionProperties.EditWithoutUpdateIgnored | src/mastra/tools/github-monitor-tool.ts:69-72 | Same number, `updated_at` and state yields no change, whatever the title, labels, body or other fields |
| DetectionProperties.DuplicatePreviousMislabelsClosed | src/mastra/tools/github-monitor-tool.ts:59-60 | With issue 1 both open and closed in the previous snapshot, the code reports a `closed` change that remembers a closed state. This is why the properties above assume unique numbers |
| DetectionProperties.DuplicateCurrentClosesFirstOnly | src/mastra/tools/github-monitor-tool.ts:91-95 | With issue 1 twice in the current snapshot, closed in both and open before, only the first change becomes `closed` and the second stays `updated`, because `find` takes the first match |
| IssueMonitorTool.CacheKey | src/mastra/tools/github-monitor-tool.ts:154 | The key is the owner, then `/`, then the repository name, case kept exactly |
| IssueMonitorTool.Cached | src/mastra/tools/github-monitor-tool.ts:184 | `issueCache.get`: absent exactly for a key never stored, never an empty snapshot in its place; otherwise the stored snapshot |
| IssueMonitorTool.Store | src/mastra/tools/github-monitor-tool.ts:190 | `issueCache.set`: the key then reads the stored snapshot, every other key reads as before, and the key set grows by at most that key |
| IssueMonitorTool.IssueMonitor.constructor | src/mastra/tools/github-monitor-tool.ts:39 | The cache starts empty, so every key reads as absent |
| IssueMonitorTool.IssueMonitor.Execute | src/mastra/tools/github-monitor-tool.ts:184-197 | Changes are detected against the cached entry for `owner + "/" + repo`. The entry is overwritten with the current issues whether or not there were changes, and all other keys are unchanged. `totalIssues` is the current count and `hasChanges` equals `changes.length > 0` |
| IssueMonitorTool.PollTwice | src/mastra/tools/github-monitor-tool.ts:184-196 | On a fresh monitor the first poll takes the first-run path, since an unused key reads as absent. The second poll compares against exactly what the first stored, and reports nothing when a well-formed snapshot is unchanged |

## Left out

- Fetching: the Octokit client and `listForRepo` call (pagination, sort, `state` and `since` filters) are a network call. The fetched list is an input of `Execute`.
- Mapping raw API JSON to issues: it works on untyped data. The model starts from typed `Issue` values.
- The zod input/output schemas and the `createTool` wrapper: library plumbing.
- `new Date().toISOString()`: the timestamp is a parameter of `Execute`.
- The catch-and-rethrow error formatting of `execute`: no step of the modelled part throws. A fetch failure happens before the cache is touched.
- The `cacheKey` parameter of `detectChanges`: the function never uses it.
- The LLM agents, the Mastra registration, the HTTP server with its request-format sniffing, the cron service loop, and environment/config loading: these are foreign calls, prompt text and transport code.
- Concurrency: two polls of the same key running at once on the shared cache. The code has no locking. The model covers one sequential get, detect and set step.
- Issue numbers are modelled as unbounded naturals. JavaScript doubles and their precision limit are not modelled.
- `previousState` is a `Partial<GitHubIssue>`. It is modelled as a record of exactly the three fields the code fills: state, `updated_at` and title.
- Timestamps are compared as strings for equality only, as the code does. Their ordering is not modelled.
