# git-backup watcher: a Dafny model

`git-backup/watcher.py` is a daemon. It mirrors a source directory into a local git repository with rsync, and after each mirror pass it commits and pushes whatever changed. Filesystem events are debounced: a burst of changes produces a single pass, which starts once the tree has been quiet for the debounce interval.

This project models the decision logic of that daemon. Every external effect is replaced by a parameter.

- `Status` (status.dfy) models `BackupManager.count_updated_files`, which counts the non-blank lines of `git status --porcelain`. It rests on `Text` (text.dfy), a model of Python's `str.splitlines`, `str.strip`, `str.isspace` and the substring test.
- `Backup` (backup.dfy) models `commit_and_push_if_needed` and `sync_once` as pure functions.
  - Input: the rsync outcome (`RsyncOutcome`) and what the repository answers (`GitWorld`: whether it opens, the status text, whether staging, committing and the default push succeed, the remote names, and whether the fallback `repo.remotes.origin.push()` returns without raising).
  - Result: a `Pass`, which is the ordered trace of attempted effects (`Rsync`, `QueryStatus`, `Stage`, `Commit(msg)`, `Push`, `PushOrigin`, `Logged(..)`) plus whether an exception escaped.
  - The commit message `Updated {N} files` is rendered with `Decimal.Show`. `ParseCommitMessage` is its inverse.
- `Debounce` (debounce.dfy) models `DebouncedSyncHandler` as a state machine over integer timestamps. Each lock-protected block is one atomic step.
  - The handler keeps every timer it started. Each timer is `Pending`, `Cancelled` or `Fired`, and the last one is `_timer`.
  - `Run` drives the handler with a time-ordered stream of events, letting each live timer fire at its due time. It is proved equal to an independent reference schedule, `QuietEnds`.
- `Decimal` (decimal.dfy) and `Optional` (optional.dfy) are supporting modules.

Behaviours of the code the model keeps:

- The status lines are counted before this pass's `git add -A`. The listing includes staged and unstaged paths alike, so entries a previous pass left staged, when its commit failed, are counted too.
- The commit message is exactly `Updated {N} files`.
- `sync_once` catches only `CalledProcessError` from rsync. An `OSError`, such as a missing rsync executable, escapes the call (`RsyncNotStarted`, `raised == true`).
- Events are filtered by the substring test `"/.git" in path`, not by path segment. As a result, events on `.gitignore` or under `.github/` are dropped too (`Debounce.GitignoreIsIgnored`).
- `_flush_if_quiet` leaves `_timer` pointing at the spent timer. The model records that timer as `Fired`.

## Model

| member | source | states |
|---|---|---|
| Text.TrimLeft | git-backup/watcher.py:63 | the result is a suffix of the line, the dropped prefix is all whitespace, and the result does not start with whitespace |
| Text.TrimRight | git-backup/watcher.py:63 | the result is a prefix of the line, the dropped suffix is all whitespace, and the result does not end with whitespace |
| Text.Strip | git-backup/watcher.py:63 | `line.strip()` is empty exactly when the line is whitespace-only; otherwise it starts and ends with a non-space character |
| Text.SplitLines | git-backup/watcher.py:61 | `splitlines()` yields no more lines than the text has characters, and no line contains a line break |
| Text.SplitLinesBlank | git-backup/watcher.py:61-63 | every line of the split is blank exactly when the whole text is whitespace-only |
| Text.SplitCons | git-backup/watcher.py:61 | a break-free line followed by `\n` comes out as the first line of the split, followed by the split of the rest |
| Text.SplitJoined | git-backup/watcher.py:59-61 | splitting break-free lines joined by `\n` (last line non-empty) gives back exactly those lines |
| Status.CountNonBlank | git-backup/watcher.py:63 | the number of lines kept by the comprehension never exceeds the number of lines |
| Status.CountZeroIffAllBlank | git-backup/watcher.py:63 | the count is zero exactly when every line is whitespace-only |
| Status.UpdatedCount | git-backup/watcher.py:56-63 | the change count is at most the number of status lines and is 0 exactly when the output is whitespace-only |
| Status.CountUpdatedFiles | git-backup/watcher.py:56-63 | a single scan of the lines that tests `strip()` computes the change count, with the same bound and zero condition |
| Status.PorcelainCount | git-backup/watcher.py:59-63 | porcelain output with one non-blank line per changed path counts exactly the number of paths |
| Status.TwoChangesCounted | git-backup/watcher.py:61-63 | two changed paths separated by a blank line count as 2 |
| Decimal.Show | git-backup/watcher.py:80 | the rendering of `{updated}` is a non-empty digit string without leading zeros |
| Decimal.ValueOfShow | git-backup/watcher.py:80 | reading the rendered digits back gives the number |
| Decimal.ShowOfValue | git-backup/watcher.py:80 | every canonical digit string is the rendering of its value |
| Decimal.ShowInjective | git-backup/watcher.py:80 | different numbers render differently |
| Backup.CommitMessage | git-backup/watcher.py:80 | the message is `Updated `, then the canonical decimal digits of N, then ` files` |
| Backup.ParseCommitMessage | git-backup/watcher.py:80 | any text the parser accepts is exactly the message of the count it returns |
| Backup.MessageRoundTrip | git-backup/watcher.py:80 | parsing the message for N gives back N |
| Backup.MessageInjective | git-backup/watcher.py:80 | two counts give the same message exactly when they are equal |
| Backup.StepsAttempted | git-backup/watcher.py:71-92 | a pass attempts at most five steps |
| Backup.CommitAndPushIfNeeded | git-backup/watcher.py:66-92 | the trace is the prefix of count, stage, commit, push, push-to-origin that the outcomes allow, and the call returns normally exactly when the repository opened, the status was read, and either nothing changed or the commit was made and then either the default push succeeded or the fallback push to `origin` returned without raising |
| Backup.PlanPrefix | git-backup/watcher.py:73-92 | each prefix of the plan starts with the count and holds stage, the single commit, push and the origin push at fixed positions |
| Backup.CommitsAppend | git-backup/watcher.py:80-81 | the commit messages of two trace parts joined are those of each part, in order |
| Backup.CountBeforeStage | git-backup/watcher.py:73-78 | the count is the first effect, and staging happens exactly when the status was read and reports changes |
| Backup.NoChangesNoCommit | git-backup/watcher.py:73-75 | with zero changes the call only counts: no stage, no commit, no push, and no error |
| Backup.SingleCommit | git-backup/watcher.py:80-81 | at most one commit is attempted, exactly when staging succeeded, and its message is `Updated N files` for the counted N |
| Backup.PushFallback | git-backup/watcher.py:84-92 | the push follows a successful commit; a successful push means no origin push and no error; origin is pushed exactly when the push failed and `origin` exists; with no `origin`, the failure propagates |
| Backup.SyncOnce | git-backup/watcher.py:94-108 | the pass starts with rsync and never runs it again; git is touched only after a successful rsync, and then exactly as the git step touches it; a git failure is logged, after the git step and as the last effect, and not raised; only an rsync that could not be started escapes |
| Backup.AfterRsync | git-backup/watcher.py:105-108 | after a successful rsync the pass does not raise, touches git exactly as the git step does, runs rsync only first, and logs a git failure exactly when the step raised, as its last effect |
| Backup.WrapGit | git-backup/watcher.py:105-108 | putting rsync in front of any git trace and the log line after it when the step raised keeps the git effects, never raises, and logs exactly when the step raised |
| Backup.ShapeOfPass | git-backup/watcher.py:99-108 | around a git trace, rsync appears only at the front and the log line only at the end |
| Backup.GitEffectsOfPass | git-backup/watcher.py:105-108 | wrapping the git step's trace with rsync and the failure log leaves the git effects unchanged |
| Backup.LoggedOfPass | git-backup/watcher.py:105-108 | after a successful rsync, the git-failure message is logged exactly when the git step raised, and the rsync-failure message never is |
| Backup.UnchangedPassIsQuiet | git-backup/watcher.py:73-75 | a pass over an unchanged tree consists of rsync and the count only, with no log line |
| Backup.FallbackToOriginSucceeds | git-backup/watcher.py:84-92 | when the default push fails and the fallback push to `origin` returns without raising, the pass pushes to origin and ends cleanly |
| Debounce.Init | git-backup/watcher.py:115-121 | a new handler uses the given interval, has last-event time 0 and no timer, and satisfies the invariant |
| Debounce.Ignored | git-backup/watcher.py:124-126 | the filter is a plain substring test: a path shorter than `/.git`, the empty path included, is accepted |
| Debounce.IgnoredAnywhere | git-backup/watcher.py:124-126 | a path with `/.git` anywhere in it is dropped, whatever surrounds it, so `/.gitignore` and `/.github/` are dropped too |
| Debounce.Cancel | git-backup/watcher.py:130-131 | a pending timer becomes `Cancelled`, so its callback never runs, and keeps its due time; a timer that is no longer pending is left exactly as it was |
| Debounce.CancelCurrent | git-backup/watcher.py:130-131 | only the most recent timer is touched, and it becomes `Cancel` of itself; all older timers are unchanged |
| Debounce.OnAnyEvent | git-backup/watcher.py:123-135 | an ignored event changes nothing; an accepted event sets the last-event time to `now` and leaves exactly one live timer, due at `now + debounce`; the invariant is preserved |
| Debounce.EventCancelsEarlier | git-backup/watcher.py:128-135 | an accepted event leaves the timers before `_timer` exactly as they were and cancels `_timer`; afterwards no earlier timer can fire, each keeps its due time, and a live `_timer` ends `Cancelled` |
| Debounce.NonePending | git-backup/watcher.py:130-135 | a timer list with no pending timer has a pending count of zero |
| Debounce.FlushIfQuiet | git-backup/watcher.py:137-142 | in a valid handler with a live timer, the quiet test passes exactly when the clock has reached that timer's due time |
| Debounce.TimerFires | git-backup/watcher.py:137-145 | a firing spends the timer, touches no other timer and leaves no live timer; in a valid handler the callback starts a sync exactly when it runs at or after the timer's due time |
| Debounce.FlushAfterEvent | git-backup/watcher.py:137-142 | after an accepted event at `at`, the quiet test passes exactly when `now >= at + debounce`, also for a callback of a cancelled timer that was already under way |
| Debounce.StaleTimerNeverSyncs | git-backup/watcher.py:128-142 | a later event cancels the live timer and moves the quiet deadline past that timer's due time |
| Debounce.AtMostOneLive | git-backup/watcher.py:128-135 | in a valid handler at most one timer is pending, and it is the last one |
| Debounce.Run | git-backup/watcher.py:123-145 | at most one sync per event, plus one for a timer live at the start |
| Debounce.RunFrom | git-backup/watcher.py:123-145 | from any valid state, the syncs are the reference schedule of the pending event time followed by the accepted event times |
| Debounce.RestOfEvents | git-backup/watcher.py:124-126 | in a time-ordered stream the accepted times after the first event come no earlier than it, and ignored events add no time |
| Debounce.RunFires | git-backup/watcher.py:137-145 | when the live timer is due before the next event, it syncs first and the schedule continues with the next accepted time |
| Debounce.FireThenAccept | git-backup/watcher.py:128-145 | after the live timer fires, the next event leaves a live timer exactly when it is accepted |
| Debounce.RunWaits | git-backup/watcher.py:128-135 | an event that arrives before the live timer is due replaces it without a sync |
| Debounce.RunMatchesQuietEnds | git-backup/watcher.py:123-145 | from a fresh handler, the sync times of a time-ordered event stream are exactly one interval after each accepted event that is followed by more than an interval of quiet, and after the last one |
| Debounce.AcceptedAtLeast | git-backup/watcher.py:124-126 | ignoring events never introduces an earlier time |
| Debounce.QuietEndsGap | git-backup/watcher.py:137-145 | an event followed by more than an interval of quiet yields a sync one interval later |
| Debounce.QuietEndsNoGap | git-backup/watcher.py:128-142 | an event followed within the interval by another yields no sync of its own |
| Debounce.QuietEndsAbove | git-backup/watcher.py:137-142 | no sync comes earlier than one interval after the first event |
| Debounce.SyncsFollowQuiet | git-backup/watcher.py:137-142 | every sync starts at least one interval after every accepted event at or before it |
| Debounce.SortedAccepted | git-backup/watcher.py:124-126 | dropping `.git` events keeps a time-ordered stream's accepted times in order |
| Debounce.AcceptedMember | git-backup/watcher.py:124-129 | every event that passes the filter contributes its time to the accepted times |
| Debounce.RunSyncsFollowQuiet | git-backup/watcher.py:123-145 | for a time-ordered stream from a fresh handler, every sync starts at least one interval after every accepted event at or before it |
| Debounce.FinalSync | git-backup/watcher.py:133-145 | there are never more syncs than accepted events, and if there was an event, the last sync comes one interval after the last event |
| Debounce.BurstSyncsOnce | git-backup/watcher.py:128-142 | a burst whose gaps never exceed the interval produces exactly one sync, one interval after its last event |
| Debounce.BurstExample | git-backup/watcher.py:123-145 | events at 0, 1 and 2 with a 5-second interval give one sync, at 7 |
| Debounce.SpacedExample | git-backup/watcher.py:123-145 | events at 0 and 10 with a 5-second interval give two syncs, at 5 and 15 |
| Debounce.GitignoreIsIgnored | git-backup/watcher.py:124-126 | an event on `/src/.gitignore` is dropped by the substring test and changes nothing |

## Left out

- `run_rsync` (git-backup/watcher.py:34-54): the subprocess call and its argument list are external process I/O. Only the outcome is modelled: exit 0, non-zero exit, or not started.
- GitPython (`Repo`, `repo.git.status`/`add`/`push`, `index.commit`, `repo.remotes`): a foreign library. Its answers are the fields of `GitWorld`. Listing the remotes is assumed to succeed.
- Backup.CommitAndPushIfNeeded: every failure of the default push is treated as a `GitCommandError`, which takes the fallback path. In the code, any other exception from `repo.git.push()` skips the fallback and propagates.
- Backup.CommitAndPushIfNeeded: a fallback push to `origin` whose ref is rejected counts as success. `Remote.push()` reports a rejected ref as a flag in the push result it returns, and the code never inspects that result. So `originPushOk` only says the call returned without raising. It does not say that any remote holds the commit.
- Backup.SyncOnce: an exception raised while printing the failure message is not modelled.
- `validate_paths` and `main` (argparse, the watchdog `Observer`, the initial sync, the sleep loop, `KeyboardInterrupt`): these are filesystem checks and process lifecycle.
- Real threading: `threading.Lock`, `threading.Timer`, the daemon flag, and the race in which a timer's callback is already running when `cancel()` is called. Each locked block is one atomic step. Such a late callback reads the clock only after the event has released the lock; `FlushAfterEvent` states that it then syncs exactly when the clock reads at least the event time plus the interval.
- Debounce.Run: timers fire exactly at their due time. A timer due at the same instant as the next event is cancelled by that event. The real clock, timer latency, and a sync pass overlapping a later one are not modelled.
- Time is an integer clock, and the debounce interval is a positive integer. The source uses `time.time()` floats and a float interval.
- Event paths are strings. Byte-string paths from the watcher are not modelled.
- Printing to stderr/stdout appears only as the `Logged(..)` marker in the trace.
