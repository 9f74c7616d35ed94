# Verified model of the GitHub release watcher

A Dafny model of the poll and cursor protocol of the release watcher, of the operator requests and commands that
run beside it, and of the four smaller components it depends on: the tag backstop, the webhook debouncer, the changelog
scanner, and the string codecs and response-body replay. `dafny verify dfyconfig.toml` checks all of it.

## How it is organised

| module | content |
|---|---|
| `Domain`, `Strings`, `Traces` | repositories, cursor entries, upstream replies; Go's split, join and trim; reading a trace |
| `Codecs`, `Allowlist` | key printers and parsers, allowlist normalisation |
| `Changelog` | the line scanner and the declarative reading it refines |
| `Backstop`, `BackstopConvergence`, `BackstopHistories` | tag selection on one page, repeated runs, whole histories |
| `Debounce`, `Webhook` | the rate limiter, push classification, event traces |
| `Non2xxBody` | peek and replay of a response body |
| `Filters`, `Cursor` | the filter chain; the cursor object, its file, the operator handlers |
| `Cycle` | one poll cycle as a function of the cursor file and of everything upstream answers |
| `Watcher` | the imperative cycle: the loop, the cursor updated in place, save or discard |
| `Visits`, `Polls` | what a visit, a poll and a command do, read off their inputs alone |
| `LoopFrame`, `Conservation` | the exact frame of the walk; what becomes of every repository |
| `ForcedCycles`, `ScopedPolls`, `Retries`, `Duplicates`, `CutReleases` | theorems that compare or compose whole cycles |
| `Interleaving`, `InterleavedDuplicates` | overlapping polls, operator requests and crashes over one cursor file |

The imperative classes are tied method by method to the functions of `Cycle`; the theorems are about those functions. `Visits`, `Polls`,
`Webhook` and `Cursor` also say what those functions answer without naming them, in literal terms of the inputs.
Upstream is arbitrary: at every loop position an `Upstream` value says whether the context is cancelled, what the tag page, the head,
the changelog and the configuration answer, and whether the dispatch and the send succeed. Where a property
needs unchanging answers, a `Snapshot` maps each repository key to its `Upstream`. Clock readings are parameters.
The trace of a watcher records, in order, every command, dispatch, skip, drop and cycle label.

## What does not hold as one might expect

- A changelog line that is `## ` followed only by blanks makes the scanner slice out of range; `ParseChangelog` is
  then `None`, exactly on those changelogs (`Changelog.TotalExactly`). A poll crashes exactly when its walk reaches such a changelog:
  everything that visit reads arrives, and no earlier visit stops the walk (`Conservation.PollCrashesExactly`;
  `Conservation.BlankHeadingCrashesPoll` is a failing input).
- The backstop can alternate for ever between two tags of the same greatest epoch. The comment at
  `pkg/backstop.go:154-159` says a tie does not become a steady state; `BackstopConvergence.Convergence` says exactly when it does,
  and `BackstopHistories.UnsettlingHistory` that no save, lost cursor or operator request ends it.
- One repeated publish per forced cycle is not a bound when a listing names an allowed repository twice, because a forced walk
  publishes it at every occurrence; `Duplicates.ForcedCycleBoundExact` is the exact condition under the service's filters, and
  `Duplicates.DuplicateBound` therefore charges a forced cycle for every visit that publishes the head its cursor holds.
- An empty head counts as already seen by an unforced cycle and not by a forced one. The two then leave cursors that read
  alike but differ by a blank entry, under the service's filters too (`ForcedCycles.EmptyHeadDiffers`);
  `ForcedCycles.VisitDiffersExactly` and `ForcedCycles.CursorsDifferExactly` give the exact condition. For the same reason
  the result about lost releases is for non-empty heads (`Interleaving.EmptyHeadIsSkipped`).
- A scoped repository has no fork flag, so a scoped poll can release a fork that the full poll skips;
  `ScopedPolls.ForkFlagMatters` gives the exact condition.
- A key stands for one owner and name only while neither holds a slash (`Codecs.KeyUniqueExactly`), and a branch push can share
  its debounce key with a tag push when an at sign stands inside its repository name (`Webhook.BranchSharesKeyExactly`).
- A host-qualified key is always misread by the short-form parser (`Codecs.RepoFromKeyMisreadsKey`).
- When the clock falls so far back that an arrival is denied which the accepted triggers at or before it would have permitted,
  arrivals can follow on which the debouncer accepts fewer than another choice could (`Debounce.FallingBehindCosts`). Until that
  happens, steps back included, it accepts as many as possible (`Debounce.AcceptedIsMaximal`).
- Setting a cursor entry forgets the backstop's tag (`Cursor.SetCursor`).

Where comments or documents disagree with the code, the model follows the code:

- `pkg/watcher.go:336` and `pkg/watcher.go:166` name a `github_error` abort of the walk; only a rate limit aborts it.
- `README.md:37` says a GitHub 5xx aborts the cycle; outside the listing such an error drops the one repository.
- `pkg/cursor.go:31` shows the cursor keyed by `owner/repo`; the keys are host-qualified.
- `pkg/command/trigger_release_check_executor.go:37-39` calls the scope unread; it is passed to the poll.
- `README.md:100` says there is no `/trigger` endpoint; the server routes one.

## Model

| member | source | states |
|---|---|---|
| Interleaving.NoReleaseIsLost | pkg/watcher.go:101-163 | in every run of overlapping full, scoped and forced polls, operator requests, aborts, failed saves and crashes, a repository skipped as unchanged at a non-empty head had earlier been sent at that head, or an operator had set that head and the set was saved, or the initial file held it |
| Interleaving.NoTagIsLost | pkg/watcher.go:239-257 | in every run, whatever tag a backstop visit takes from its cursor, in particular one that silences it by standing first on the page, had been dispatched successfully for that repository, or the initial file held it |
| Interleaving.StepKeepsInv | pkg/watcher.go:225-231 | every atomic step keeps the invariant over the file, every in-flight cursor and the log: whatever head or tag a cursor holds is justified by the log, an unsaved operator set only by the event its own save will add |
| Interleaving.RunKeepsInv | pkg/watcher.go:101-163 | that invariant holds in every state of every run from a system without processes |
| Interleaving.ReleaseEvents | pkg/filter/sha_unchanged_filter.go:37-42 | a visit logs at most one event; a head enters the cursor only when it was sent, and the unchanged skip happens only at the head the live cursor holds |
| Interleaving.EmptyHeadIsSkipped | pkg/filter/sha_unchanged_filter.go:37-42 | a never-seen repository with an empty head that passes the other filters is skipped as unchanged: why the safety result excludes empty heads |
| Interleaving.SoloWalkIsARun | pkg/watcher.go:172-235 | the steps of one undisturbed poll form a run that reaches exactly the cursor and the events of the sequential walk |
| Interleaving.UninterruptedPollIsARun | pkg/watcher.go:101-163 | every undisturbed poll, whether it completes, is cancelled, is rate limited, panics or never starts its walk, is a run of the interleaved system to the file and the events of the sequential poll |
| Interleaving.ResetIsARun | pkg/cursor_handler.go:33-56 | every undisturbed reset is a run to the file the handler leaves |
| Interleaving.SetIsARun | pkg/cursor_handler.go:75-107 | every undisturbed set is a run to the file the handler leaves, and the history tells the set exactly when it was saved |
| InterleavedDuplicates.InterleavedDuplicateBound | pkg/watcher.go:141-161 | in every run of overlapping processes, publishes that repeat a repository's previous head number at most the charges of its steps: one for each load while another process is in flight, one for each other process a publish of the key overtakes, one for each process that ends without saving and each crash, one for each operator load that changes the key, one for each forced publish of a held head |
| InterleavedDuplicates.StepCost | pkg/watcher.go:208-232 | no step raises repeats plus stale in-flight cursors plus the idle file's debt by more than its charge |
| InterleavedDuplicates.SerialRunIsAlone | main.go:205-209 | when every load finds nobody in flight there is never more than one process, so nothing is charged for overlap |
| Duplicates.DuplicateBound | pkg/watcher.go:141-161 | over any history of non-overlapping polls and operator requests, publishes that repeat a repository's previous head number at most the visits at which a forced cycle publishes the head its cursor holds plus the cycles that walked and did not save plus the operator requests that changed its entry |
| Duplicates.QuietHistoryHasNoDuplicate | pkg/watcher.go:208-232 | with no such forced publish, no unsaved walk and no operator change of the key there is no repeated publish at all, even when listings name a repository twice |
| Duplicates.ForcedCycleBoundExact | pkg/watcher.go:138-149 | with the service's filters a forced cycle adds at most one repeat, for every history, cursor and upstream, if and only if the listing names the repository at most once or the allowlist shuts it out |
| Duplicates.WalkCost | pkg/watcher.go:383-398 | because the gate reads the cursor the loop is updating, an unforced walk never adds to repeats plus debt, and a forced one adds at most one per visit that publishes the head its cursor holds |
| Duplicates.BypassedAreListed | pkg/watcher.go:178-234 | those visits are at most the walk's publishes of the key, which are at most its occurrences in the list |
| Duplicates.RepeatedListingRepeats | pkg/watcher.go:178-234 | a forced walk with the service's filters over an opted-in repository with an unreleased bullet repeats the cursor's head once for every occurrence of the key, so the charge is attained |
| Duplicates.BarredWalk | pkg/watcher.go:208-223 | a walk on which the cycle-invariant filters stop every visit of a repository, forced or not, publishes nothing for it and keeps its recorded head |
| ScopedPolls.FullPollIsScopedPolls | pkg/watcher.go:101-163 | under a snapshot a full poll ends with the same cursor and the same ordered commands, dispatches, skips and drops as scoped polls of the listed repositories run one after another, each with its own load and save |
| ScopedPolls.ScopedRunIsTheWalk | pkg/watcher.go:172-235 | after n scoped polls the file holds the live cursor of the full walk after n repositories, and the accumulated effects are its trace |
| ScopedPolls.ForkFlagMatters | pkg/watcher.go:326-332 | a visit of the scoped repository differs from a visit of the listed one if and only if the repository is a fork stopped by the fork gate alone |
| Retries.RetryIsSafe | pkg/watcher.go:149-154 | a cycle aborted at any repository, whether or not the limit already hit that visit's backstop calls or its dispatch, followed by the full cycle gives the same file, task identifiers and dispatched tags as the full cycle alone |
| Retries.AbortedWalkIsPrefix | pkg/watcher.go:190-195 | a walk that is rate limited at a repository has done a prefix of the effects of the walk that is not, apart from a last dispatch that failed |
| Backstop.FailureOnlySilences | pkg/watcher.go:246-252 | failing calls can turn a backstop run's pick into an error but never into another pick |
| Retries.PassSendsExactly | pkg/command/trigger_release_check_executor.go:64-103 | a sequence of commands under a snapshot sends exactly the identifiers of repositories that pass the filters and are forced or unsettled by the cursor at its start, whichever saves fail, and settles nothing it did not send |
| Retries.ReplayAddsNothing | main.go:170-173 | replaying the whole command sequence adds no task identifier, whichever saves fail in either pass |
| Retries.CommandSendsDue | pkg/command/trigger_release_check_executor.go:79-97 | one command sends exactly what is due to its targets and nothing when its tag's dispatch fails |
| ForcedCycles.CursorsReadAlike | pkg/watcher.go:138-149 | forced and unforced walks from one cursor over the same upstream end alike and leave cursors that read the same at every key, for any heads, even when a repository is listed twice |
| ForcedCycles.VisitDiffersExactly | pkg/watcher.go:225-231 | one visit leaves different cursors if and only if it is reached, gathers an empty head, passes the other filters, sends successfully and finds no entry for the repository |
| ForcedCycles.CursorsDifferExactly | pkg/watcher.go:178-234 | with each repository listed once, the two walks leave the same cursor if and only if no visit they reach is one that creates such a blank entry, read off the loaded cursor and the answers |
| ForcedCycles.SameCursor | pkg/watcher.go:138-149 | with non-empty heads the two cursors are the same even when a repository is listed twice |
| ForcedCycles.SameFile | pkg/watcher.go:149-161 | the forced and the unforced poll always end alike, and leave the same cursor file when the heads of the listed repositories are non-empty |
| ForcedCycles.UnforcedAreFreshForced | pkg/filter/filter.go:59-66 | with each repository listed once, the unforced commands are, in order, exactly the forced ones whose head differs from the cursor, empty heads included |
| ForcedCycles.EmptyHeadDiffers | pkg/filter/sha_unchanged_filter.go:37-42 | under the service's filters a never-seen allowed repository with an unreleased bullet and an empty head makes the two visits leave different cursors |
| LoopFrame.Frame | pkg/watcher.go:172-257 | after any part of the walk each head is the last one successfully published or else the loaded one, each backstop tag the last dispatched or else the loaded one, and a key exists exactly if it was loaded, published or dispatched |
| LoopFrame.UnvisitedUnchanged | pkg/watcher.go:178-234 | a key the walk does not visit keeps its entry or its absence |
| LoopFrame.EffectsAreListed | pkg/watcher.go:178-234 | every effect of the walk is about a repository of its list |
| Conservation.WalkConserves | pkg/watcher.go:178-234 | each repository before the first one that stops the walk ends in exactly one sent command, failed send, filter skip or drop, in list order, and the walk ends for that stopping repository's reason |
| Conservation.PollCrashesExactly | pkg/watcher.go:366-366 | a poll crashes if and only if its cursor loads, it is not deferred and has repositories, and some visit reads everything it asks for with a heading of blanks in the changelog while no earlier visit stops the walk |
| Conservation.BlankHeadingCrashesPoll | pkg/changelog.go:30-31 | from every loadable cursor a scoped poll of a repository whose changelog is the one line of two hashes and a space crashes |
| Conservation.CompletedWalkCounts | pkg/taskpublisher.go:47-70 | creates, errors, skips and drops add up to at most the listed repositories, and to all of them if and only if the walk completed |
| Conservation.CountersAddUp | pkg/watcher.go:192-225 | the four counters of a trace partition its verdicts |
| Conservation.CountersAreCounts | pkg/taskpublisher.go:50-69 | each counter is the number of positions with its effect: sent commands, failed sends, skips, drops |
| Conservation.OneLabelPerCycle | pkg/watcher.go:112-162 | a poll with a loadable cursor emits exactly one of four cycle labels, none for a foreign scope or a panic, and the file changes only under the label success |
| Visits.GatherExactly | pkg/watcher.go:338-379 | the first of the three calls that does not succeed decides between abort and drop; a heading of blanks panics; otherwise head and configuration are those answered, the version is that of the first version line or v0.0.0, and the bullets are those of the unreleased section |
| Visits.ReleaseExactly | pkg/watcher.go:192-232 | the release half of a visit under the service's filters, read off the answers, the fork flag and the cursor entry: abort, drop, panic, one skip with its reason, or one command with owner, name, head and version; only a sent command moves the entry's head, and nothing else |
| Visits.WalkTells | pkg/watcher.go:178-234 | every effect of every walk, for every filter, tells the truth about one of its visits: a dispatch asks for a tag of the page under the short name, a command carries owner, name, head and version, a skip its head, a drop a failed call |
| Visits.DispatchesAreReadable | pkg/backstop.go:77-86 | for slash-free owners and non-empty parts the short-form parser reads back from every dispatch the repository that was visited |
| Polls.WalkEndsExactly | pkg/watcher.go:178-195 | a walk runs to its end if and only if no visit is cancelled, rate limited or panics; otherwise the first that is decides how it ends |
| Polls.UnreadableRefuses | pkg/watcher.go:102-105 | a poll ends in the load error if and only if the cursor file is unreadable, and then does nothing and leaves the file |
| Polls.MissingStartsEmpty | pkg/cursor.go:54-58 | a poll from a missing file is a poll from an empty one |
| Polls.DeferredExactly | pkg/watcher.go:118-130 | a poll is deferred if and only if it is a full one and the known remaining quota is positive and below the threshold |
| Polls.UnresolvedExactly | pkg/watcher.go:291-322 | a foreign scope does nothing, a rate-limited listing counts rate_limited, any other listing failure github_error, and none touches the file |
| Polls.WalkingPollExactly | pkg/watcher.go:132-162 | a poll that walks counts its repositories, does what the walk does, counts success and saves after a completed or cancelled walk, counts the rate limit and saves nothing after an abort |
| Polls.CommandExactly | pkg/command/trigger_release_check_executor.go:79-102 | a tag asks first for one build of the scope at that tag, and a failed request is all the command does; the poll of its scope and force follows; it is retried exactly for a failed request or an unreadable cursor, crashes exactly when its poll meets a heading of blanks, else succeeds |
| Watcher.Watcher.Poll | pkg/watcher.go:101-163 | the file, the trace and the ending of a poll over the mutable cursor object are those of the cycle function the theorems are about |
| Watcher.Watcher.ProcessRepos | pkg/watcher.go:172-235 | the loop that updates cursor entries in place refines the walk over cursor values, including early exits |
| Watcher.Watcher.RunBackstop | pkg/watcher.go:239-257 | the backstop of one visit over the mutable cursor is the cycle function that Visits.WalkTells and BackstopHistories.VisitOnPage pin down: a dispatched tag is recorded without losing the head, a failed or silent backstop changes nothing and creates no entry |
| Watcher.Watcher.ReleaseRepo | pkg/watcher.go:192-232 | one repository is gathered, filtered against the live cursor, published, and remembered only when the send succeeded, without losing the backstop's tag |
| Watcher.Watcher.GatherRelease | pkg/watcher.go:338-379 | the imperative gathering, scanner included, is the cycle function that Visits.GatherExactly pins down |
| Watcher.Watcher.ResolveRepos | pkg/watcher.go:291-332 | a scope gives its one repository or a silent no-op, a failed listing one label |
| Watcher.RunTriggerReleaseCheck | pkg/command/trigger_release_check_executor.go:64-103 | the imperative executor is the function that Polls.CommandExactly pins down, over the watcher's trace and file |
| Cursor.CursorState.StateFor | pkg/watcher.go:260-270 | the entry of a key, created blank when absent, aliases the map's entry, and no other entry changes |
| Cursor.CursorState.RecordHead | pkg/watcher.go:225-231 | the head of one key is replaced; its backstop tag and every other entry stay |
| Cursor.CursorState.RecordTag | pkg/watcher.go:256-256 | the backstop tag of one key is replaced; its head and every other entry stay |
| Cursor.CursorStore.Load | pkg/cursor.go:52-69 | a missing file is an empty cursor, an unreadable one an error, otherwise a fresh unshared copy of what is stored |
| Cursor.CursorStore.Save | pkg/cursor.go:72-84 | the cursor file, the temporary file and every write in between for each fault: the file is replaced as a whole or not at all, whichever of marshal, write or rename fails |
| Cursor.CrashDuringSave | pkg/cursor.go:77-82 | a load after a crash at any point of a save reads the old cursor or the complete new one |
| Cursor.SaveAfterCrash | pkg/cursor.go:77-82 | what an interrupted save left in the temporary file does not disturb the next save |
| Cursor.ResetCursor | pkg/cursor_handler.go:33-56 | the handler over the mutable cursor gives the status and the file that Cursor.ResetExactly pins down |
| Cursor.ResetExactly | pkg/cursor_handler.go:33-56 | which check gives which status, for every file, key and fault; a done reset removes the one entry and keeps every other, anything else leaves the file |
| Cursor.SetCursor | pkg/cursor_handler.go:75-107 | the handler over the mutable cursor gives the status and the file that Cursor.SetExactly pins down |
| Cursor.SetExactly | pkg/cursor_handler.go:75-107 | which check gives which status; a done set makes the key read the new head and no tag and keeps every other entry, anything else leaves the file |
| Filters.CompositeExact | pkg/filter/filter.go:59-66 | the composite passes exactly if every member passes, and otherwise gives the reason of the first member that objects |
| Filters.StaticReason | pkg/factory/factory.go:48-55 | the wired chain answers scope, empty_unreleased, auto_release, fork in that order of precedence |
| Filters.CycleReason | pkg/watcher.go:141-147 | a cycle's chain adds the unchanged skip only for unforced cycles, only after the static reasons, and only when the live cursor holds the head |
| Backstop.NewestUnbuiltTag | pkg/backstop.go:106-197 | the scan's pick for arbitrary replies, failures and cancellations, with its number of epoch lookups: none on the shortcut, one per entry otherwise |
| Backstop.SelectionExact | pkg/backstop.go:167-196 | the pick is the earliest of the newest eligible entries, and the run is silent exactly for an empty page, the cursor first, or no eligible entry |
| Backstop.SelectionOptimal | pkg/backstop.go:147-185 | a picked tag is on the page, is not the cursor, has an epoch at least that of every entry, and is the earliest such entry |
| Backstop.SilentExactly | pkg/backstop.go:115-132 | with non-negative epochs silence means an empty page, the cursor first, or a cursor on the page strictly newer than every other entry |
| Backstop.ScanCostsPage | pkg/backstop.go:140-181 | a completed scan of a page of distinct tags costs exactly one lookup per tag, whether or not the cursor is on it |
| BackstopConvergence.Convergence | pkg/backstop.go:118-196 | repeated runs fall silent for good after at most one dispatch if and only if the page is empty, the cursor is first, the first entry holds the greatest epoch or only one entry does; otherwise every run dispatches |
| BackstopConvergence.Alternates | pkg/backstop.go:154-159 | otherwise the runs dispatch the first two tied newest tags in turn |
| BackstopHistories.VisitOnPage | pkg/watcher.go:239-257 | while GitHub lists the page, whichever calls fail, a visit of the repository dispatches exactly when its calls are answered and the page selects a tag for the live cursor's one, and the cursor moves exactly when that dispatch succeeds |
| BackstopHistories.SettlingHistory | pkg/watcher.go:149-161 | over any history of polls and operator requests on a page that settles, with any page or epoch call failing or rate limited, the dispatches that succeed for a repository are at most one more than the cycles that walked and did not save and the operator changes of its entry |
| BackstopHistories.UnsettlingHistory | pkg/watcher.go:186-190 | over any history on a page that does not settle, from a cursor that is not its first entry, exactly the visits of the repository whose calls are answered dispatch |
| BackstopConvergence.DispatchedEpochsNeverDecrease | pkg/backstop.go:139-185 | while the cursor's tag stays on changing pages, the epochs of recorded dispatches never decrease over repeated runs, whichever dispatches fail |
| BackstopHistories.WalkEpochsNeverDecrease | pkg/watcher.go:239-257 | the same for the live cursor along a walk, whichever lookups and dispatches fail |
| BackstopHistories.HistoryEpochsNeverDecrease | pkg/watcher.go:149-161 | the same for the persisted cursor over any history without an operator change of the entry, whichever lookups, dispatches and saves fail |
| Debounce.Debouncer.Allow | pkg/debounce.go:44-54 | a trigger is denied exactly within the interval after the last accepted one of its key, and only an accepted one is recorded |
| Debounce.KeysAreIndependent | pkg/debounce.go:44-54 | over a trace of all keys, one key's accepted times are the greedy choice over its own arrivals |
| Debounce.AcceptedAreSpaced | pkg/debounce.go:49-52 | the i-th and j-th accepted trigger of a key are (j - i) intervals apart whatever the clock does |
| Debounce.WindowBound | pkg/debounce.go:33-35 | a window of length L holds at most L / interval + 1 accepted triggers of a key |
| Debounce.AcceptedIsMaximal | pkg/debounce.go:44-54 | as long as every denied arrival of a key lies less than the interval after some accepted one, no choice of its arrivals spaced by the interval is larger than the accepted set |
| Debounce.ForwardClockIsCaughtUp | pkg/debounce.go:48-51 | a clock that never steps back meets that guard |
| Debounce.FallingBehindCosts | pkg/debounce.go:48-51 | as soon as an arrival breaks that guard, arrivals can follow on which another spaced choice is larger than the accepted set |
| Debounce.AcceptedIsAChoice | pkg/debounce.go:44-54 | the accepted set is itself such a choice, so the bound is attained |
| Webhook.WebhookHandler.Classify | pkg/handler/webhook_handler.go:181-206 | every push ends as one accept or exactly one skip count, with the verdict that Webhook.TagPushExactly and Webhook.BranchPushExactly pin down |
| Webhook.TagPushExactly | pkg/handler/webhook_handler.go:182-205 | a push of a tag ref is accepted with exactly that tag, or debounced on repository and tag, whatever files it touches |
| Webhook.BranchPushExactly | pkg/handler/webhook_handler.go:184-205 | any other push is skipped exactly when no commit lists CHANGELOG.md or .maintainer.yaml as modified or added, and otherwise accepted without a tag or debounced on the repository; only an accept is recorded |
| Webhook.NonInterference | pkg/handler/webhook_handler.go:193-204 | for repository names without an at sign, the outcomes of one branch or tag subject are those of a debouncer that sees only that subject's relevant pushes |
| Webhook.OtherDeliveriesDoNotMatter | pkg/handler/webhook_handler.go:177-180 | two traces with the same deliveries about a subject give it the same outcomes |
| Webhook.AloneIsGreedy | pkg/handler/webhook_handler.go:197-205 | those outcomes choose exactly the greedy times, so the spacing and optimality results apply to webhook traces |
| Webhook.DebounceKeyInjective | pkg/handler/webhook_handler.go:193-196 | two subjects share a debounce key only if they are the same subject |
| Webhook.BranchSharesKeyExactly | pkg/handler/webhook_handler.go:193-196 | a branch push shares its key with some tag push if and only if an at sign in its repository name has something after it |
| Changelog.ParseChangelog | pkg/changelog.go:53-111 | the flag-driven loop returns the declarative summary: bullets strictly between the first non-version H2 and the next H2, the first version heading, whether the first H2 is not a version |
| Changelog.TotalExactly | pkg/changelog.go:77-81 | the scan succeeds exactly when no line is "## " followed only by blanks |
| Changelog.SummaryExactly | pkg/changelog.go:53-111 | the summary read off the lines: bullets of the unreleased section, whether that section comes first, and the first line that is two hashes, a space, a version and blanks |
| Changelog.MatcherAgrees | pkg/changelog.go:28-36 | reading digit by digit accepts exactly an optional v and three dot-separated digit strings |
| Changelog.VersionHeadingReadsBack | pkg/changelog.go:30-36 | a written version heading is classified as that version |
| Changelog.CutRelease | pkg/changelog.go:65-104 | turning the only non-version H2 into a version heading leaves no unreleased bullet and makes that version the latest unless one stood before it |
| CutReleases.CutReleaseIsSkipped | pkg/filter/empty_unreleased_filter.go:16-23 | a visit that reads the cut changelog, forced or not, leaves the cursor alone and its one release effect is the skip as empty, or as out of scope |
| CutReleases.CutSilencesTheWatcher | pkg/watcher.go:208-223 | no cycle, forced or not, from any cursor, publishes the repository or moves its recorded head while its changelog reads as cut or not at all |
| Codecs.ScopeRepoExact | pkg/watcher.go:326-332 | a scope is accepted if and only if it is the watcher's slash-free owner, one slash and a slash-free non-empty name, and gives that repository |
| Codecs.ShortFormRoundTrip | pkg/buildadapters.go:308-314 | both parsers recover owner and name from the short form |
| Codecs.RepoFromKeyExact | pkg/buildadapters.go:308-314 | a key is read if and only if it is a slash-free non-empty owner, a slash and a non-empty name, and gives those |
| Codecs.RepoFromKeyMisreadsKey | pkg/buildadapters.go:308-314 | for every repository the parser reads the host-qualified key as another repository, with the host as owner |
| Codecs.KeyInjective | pkg/repo.go:19-21 | for slash-free owners keys are equal if and only if owner and name are |
| Codecs.KeyUniqueExactly | pkg/repo.go:19-21 | a key stands for one owner and name only, among all repositories, if and only if neither holds a slash |
| Codecs.TaskKeyInjective | pkg/taskid.go:25-28 | for slash-free owners and heads without an at sign the text hashed into the identifier (section 5.5 of RFC 9562) determines owner, name and head |
| Codecs.TaskKeyReadsBack | pkg/taskid.go:25-28 | cut at its last at sign and read by the short-form parser the text gives back owner, name and head |
| Codecs.ParseTagRefExact | pkg/handler/webhook_handler.go:235-244 | exactly the refs made of the tag prefix and a non-empty tag are tag refs, and they give that tag |
| Non2xxBody.PeekIsInvisible | pkg/non2xx_log.go:45-63 | for every body, ending and chunking on both sides, the caller of the replaced body reads exactly the original bytes and then the original ending, with exactly the first 4096 bytes, or all of a shorter body, read in advance |
| Non2xxBody.LogNon2xxResponse | pkg/non2xx_log.go:45-63 | a 2xx body is untouched; any other is replaced by one that still owes the same bytes and the same ending |
| Non2xxBody.PeekPrefix | pkg/non2xx_log.go:49-52 | the peek holds the next bytes, at most 4096 of them, and stops short only at the body's own ending |
| Non2xxBody.PeekedBody.Read | pkg/non2xx_log.go:65-79 | a read of the replaced body delivers the next owed bytes, reports the ending only after the last one, and makes progress |
| Non2xxBody.Drain | pkg/non2xx_log.go:41-44 | reading to the ending with buffers of any positive size yields all owed bytes and a re-surfaced error |
| Allowlist.ParseRepoAllowlist | pkg/filter/repo_allowlist_filter.go:18-30 | the loop returns the trimmed non-empty pieces in order |
| Allowlist.NormalForm | pkg/filter/repo_allowlist_filter.go:18-30 | joining a parsed list with commas and parsing again gives the same list |
| Allowlist.EntriesAreClean | pkg/filter/repo_allowlist_filter.go:23-28 | every entry is trimmed, non-empty and comma-free |
| Allowlist.SingleEntry | pkg/filter/repo_allowlist_filter.go:23-28 | a text without a comma gives one entry, itself without spaces at its ends, or none exactly when it is all spaces |
| Allowlist.CommaConcatenates | pkg/filter/repo_allowlist_filter.go:23-28 | parsing a + "," + b is parsing a followed by parsing b |

## Left out

- The build dispatcher, its manifests, image checks and credentials: a dispatch is an outcome, success or failure.
- Allowlist matching and the maintainer configuration parser: an arbitrary predicate on the key and two arbitrary booleans.
- GitHub, Kafka, Kubernetes, Prometheus, HTTP, authentication, logging: only success, rate limit or failure of a call is kept.
- JSON, YAML, base64, HMAC and SHA-1: the cursor file is a stored map, the task identifier is the text before hashing.
- Titles, bodies and frontmatter of commands, short SHAs, metric registration, log lines: they would only add easy members.
- Webhook transport (signatures, ping events, malformed or nameless payloads): the model starts at a parsed push.
- Decoding and validating a command payload: the model starts at the typed command.
- Two writers sharing the temporary cursor file at once: a save is atomic among overlapping processes; for one writer every write is a crash point.
- The rate-limit gauge: its argument is evaluated when a poll starts.
- Line splitting: the scanner starts from split lines, below the scanner's token limit.
- Saturation of Go's time arithmetic: clock readings are unbounded integers.
- Null entries in a cursor file: a loaded cursor has none.
- NoopTagBackstop: it behaves as an empty tag page.
- A response without a body, closing a body, and readers that deliver nothing without ending: every body read makes progress.
- Scan, Conclude, VisitRepo, ReleaseRepo, Decode, Put, Add, Delete, ReadPrefix and ReadRest are parts of Poll, processRepos, LoadCursor, the cursor updates and the multi-reader given names of their own; the source writes them inline.
- A panic ends a sequential poll as Crashed; in the interleaved model the process stops at that point and the file stays.
