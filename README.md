# sigma-gitlab-report: the reconciliation run, modelled in Dafny

sigma-gitlab-report posts the findings of a Sigma static-analysis scan to a GitLab merge
request. Each finding gets one comment thread. When a thread whose first note already
carries the finding's marker exists, the run updates that note. Otherwise it opens a new
discussion at the finding's line. Only findings inside the merge request's diff get a
comment. Push pipelines only log the findings they discover.

This project models `main` in `src/index.ts` after option parsing:

- `run_context.dfy` (module `RunContext`) covers the environment checks and the choice
  between merge-request mode and push mode. An empty variable counts as unset, the same
  as JavaScript's `!x` test.
- `reconcile.dfy` (module `Reconcile`) covers the issue loop as an imperative method
  (`ReconcileBatch`). It has an outer loop over the issues and an inner loop over the
  discussions that stops at the first match (`break`). Beside it are the specification
  functions: `HandleIssue` for one issue, `BatchOutcomes` for the batch and `ActionsOf`
  for the log of GitLab calls. Lemmas prove the loop's promises about these functions.
- `controller.dfy` (module `Controller`) has `Run`. It validates the environment, picks
  the snapshot the loop reads, runs the loop and gives the status `main` returns.
- `text.dfy` (module `Text`) defines substring containment (JavaScript's `includes`).
- `wrappers.dfy` (module `Wrappers`) defines `Option`, which stands for a value that may
  be `undefined`.

The library helpers `sigmaIsInDiff`, `sigmaUuidCommentOf` and `sigmaCreateMessageFromIssue`
are not part of this model. They are the uninterpreted function fields `inDiff`, `marker`
and `format` of `Collaborators`. Nothing is assumed about what they compute, but each is
a total function, so none of them throws (see "## Left out"). The GitLab calls are
modelled in two ways. The results of the fetches (discussions, diff map) are parameters of
`Run`. Each update or create call becomes an `Action` appended to the run's log.

The source's behaviour on a discussion whose `notes` list is empty is kept as written. The
guard `discussion.notes && …` lets an empty array through, reading `notes[0].body` throws,
and the per-issue `catch` swallows the error. So such a discussion, met before any match,
leaves the issue with outcome `Failed` and no action, even when a later discussion carries
the marker (`EmptyNotesFailsIssue`, `EmptyNotesHidesLaterMatch`).

Three facts about the code shape the model:
- The discussion list is scanned in order for each issue (src/index.ts:119-121). There is
  no marker index.
- The snapshot fetched at src/index.ts:90 is never re-read during the run. So two issues of
  one batch in the diff with the same marker both open a discussion when no discussion of
  the snapshot matches that marker and none throws first (`SameMarkerBothCreate`).
- Neither the update call (src/index.ts:128) nor the create call (src/index.ts:139) is
  awaited. So a failure of either remote call is never caught. The per-issue `catch` only
  sees errors thrown synchronously, such as the empty-notes case.

## Model

| member | source | states |
|---|---|---|
| `RunContext.Validate` | src/index.ts:59-76 | A missing or empty token, server URL, namespace, project name or project id rejects the run. Accepted runs are in merge-request mode iff the merge-request iid is present. Given the five values, a merge-request run is accepted iff the base diff SHA is present, and a push run iff the commit branch is present. |
| `Controller.Run` | src/index.ts:59-153 | The status `main` returns is 1 exactly when validation rejects, and then no issue is processed and no action is issued. Otherwise the status is 0 whatever the per-issue outcomes, and the outcomes and log are those of the batch against the snapshot fetched in merge-request mode. |
| `Controller.PushRunIsDiscoveryOnly` | src/index.ts:64-104 | In an accepted push run, every issue has outcome `Inactive` (discovered only) and the log is empty. |
| `Controller.MergeRequestCreatesCarryBaseSha` | src/index.ts:137-141 | In an accepted merge-request run, every create action carries the environment's base SHA, which is non-empty, so the `''` fallback never applies. |
| `Controller.ActionsAnswerInDiffIssues` | src/index.ts:104-141 | Every logged action belongs to a merge-request run with a diff map. It answers some issue of the batch that `inDiff` accepts, with that issue's formatted body. |
| `Reconcile.ReconcileBatch` | src/index.ts:98-151 | The loop gives each issue, in order, the outcome `HandleIssue` specifies. Its log is exactly the actions of those outcomes, in order. |
| `Reconcile.HandleIssue` | src/index.ts:104-148 | An issue is `Inactive` iff the run is not in merge-request mode or has no diff map. It is `Skipped` iff commenting is active and `inDiff` rejects it. Any action it issues carries the formatted body. |
| `Reconcile.FindExistingSpec` | src/index.ts:119-135 | The discussion scan finds a thread iff some discussion is the first match, and then it returns that discussion's id and its first note's id. It finds nothing iff every discussion is passed over. It throws iff it meets an empty notes list before any match. |
| `Reconcile.UpdateTargetsFirstMatch` | src/index.ts:119-135 | For an in-diff issue whose first match is discussion k, the outcome is exactly one update of discussion k's first note with the formatted body, and no create. |
| `Reconcile.UpdateOnlyOnMatch` | src/index.ts:119-135 | An update is issued only in active mode, for an in-diff issue, when some discussion is the first match. |
| `Reconcile.CreateWhenNoMatch` | src/index.ts:137-141 | An in-diff issue gets exactly one create action iff the scan passes over every discussion. A missing list counts as empty. The action carries the issue's line, its filepath, the formatted body, and the base SHA or `""`. |
| `Reconcile.EmptyNotesFailsIssue` | src/index.ts:114-148 | An in-diff issue fails with no action iff the scan reaches a discussion with an empty notes list before any match. |
| `Reconcile.EmptyNotesHidesLaterMatch` | src/index.ts:121 | In a concrete case, an empty-notes discussion placed before a matching one makes the issue fail. |
| `Reconcile.FindInserted` | src/index.ts:119-135 | When a scan finds nothing, it finds a matching discussion inserted at any position among the others. |
| `Reconcile.RerunUpdatesCreatedThread` | src/index.ts:119-141 | Suppose an issue got a create action and its formatted body embeds its marker. Once the created discussion is added to the snapshot at any position, the same issue gets an update of that discussion, never a second create. |
| `Reconcile.SameMarkerBothCreate` | src/index.ts:119-141 | Two in-diff issues with the same marker, in a snapshot where the scan for that marker finds nothing, both get a create action. |
| `Reconcile.BatchOutcomes` | src/index.ts:98-151 | The batch has one outcome per issue: every issue is visited. |
| `Reconcile.ActionsOf` | src/index.ts:98-151 | The log has at most one action per issue. |
| `Reconcile.BatchOutcomesAt` | src/index.ts:114-148 | The outcome of issue k depends on that issue alone, so an error caught on one issue changes nothing for the others. |
| `Reconcile.BatchOutcomesAppend` | src/index.ts:98-151 | The outcomes of a concatenated batch are the outcomes of its parts, concatenated. |
| `Reconcile.ActionsOfAppend` | src/index.ts:98-151 | The log of concatenated outcomes is the concatenation of their logs. |
| `Reconcile.ActionsOfMembers` | src/index.ts:98-151 | An action is in the log iff some issue's outcome issued it. |
| `Reconcile.NothingOutsideMergeRequest` | src/index.ts:98-104 | Without merge-request mode or a diff map, every issue is still visited with outcome `Inactive`, and the log is empty. |
| `Text.ContainsIff` | src/index.ts:121 | The recursive containment test used for `includes` holds iff the marker occurs at some position of the body. |
| `Text.ContainsInfix` | src/index.ts:121 | A body that embeds the marker anywhere contains it. |

## Left out

- Controller.Run: its status is the value `main` returns, not the process exit status. src/index.ts:156 drops the promise `main()` returns, so a rejected run still exits with 0. If one of the awaited fetches (src/index.ts:80, 90, 92) rejects, `main`'s promise rejects and it never returns 0; the model treats the fetches as succeeding. A rejected un-awaited update or create call (src/index.ts:128, 139) becomes an unhandled rejection after `main` has returned, which ends the process with a non-zero status on current Node.js; the model does not capture this.
- Option parsing, the banner, help output and log-level setup (src/index.ts:15-48) are user-interface plumbing. The only logging modelled is that every issue is discovered, which is its outcome in the batch.
- Reading and parsing the results file (src/index.ts:95-96) is file I/O. The issue batch is an input sequence, and a read or parse failure is not modelled.
- The GitLab calls are not modelled. The project fetch (src/index.ts:80) is omitted. The discussions and diff map fetched in merge-request mode are parameters of `Run`. Updates and creates are `Action` values in a log.
- The merge-request iid, server URL, token and project id passed to every GitLab call are not part of `Action`.
- The internals of `sigmaIsInDiff`, `sigmaUuidCommentOf` and `sigmaCreateMessageFromIssue` are not part of this model. They are uninterpreted, so nothing is claimed about line-range membership or marker uniqueness. `sigmaCreateMessageFromIssue` runs outside the `try` and is taken to be total.
- The result of the create call (src/index.ts:139-144) is not modelled. The call is not awaited, so `status` is a promise and the error branch never runs. The same holds for the update call at line 128. Failures of either remote call, and the asynchronous ordering of the calls, are not modelled.
- Collaborators.marker: `sigmaUuidCommentOf` is taken to be total. It runs inside the `try` (src/index.ts:115), so if it threw, the source would give the issue a caught failure with no action. The model has no such path, and `EmptyNotesFailsIssue` names the empty-notes list as the only cause of `Failed`.
- Collaborators.inDiff: `sigmaIsInDiff` is taken to be total. It runs outside the `try` (src/index.ts:105), so if it threw, the whole run would abort with the remaining issues unprocessed. The model has no such path.
- `parseInt` of the merge-request iid and of the discussion id (src/index.ts:89, 123) is not modelled. Ids are opaque values passed through unchanged.
- A note body is always a string. A first note with an undefined body, which would also throw inside the `try`, is not modelled.
