/**
 One sync pass of `BackupManager` in git-backup/watcher.py: mirror the source
 tree with rsync, then count the changes, stage, commit and push, falling back
 to the `origin` remote when the default push fails.

 Every external call is replaced by its outcome: `RsyncOutcome` for the rsync
 subprocess and `GitWorld` for what the repository answers. A pass is a `Pass`:
 the effects attempted, in order, and whether an exception left the call.
 */
module Backup {
  import opened Optional
  import opened Text
  import opened Decimal
  import opened Status

  /** Which of the two `[watcher] ... failed` messages was written to stderr. */
  datatype Failure = RsyncFailed | GitFailed

  /** An external effect a pass attempts; an attempt that fails is still recorded. */
  datatype Effect =
    | Rsync
    | QueryStatus
    | Stage
    | Commit(message: string)
    | Push
    | PushOrigin
    | Logged(failure: Failure)

  /**
   How the rsync subprocess ends: exit status 0, a non-zero exit (raised as
   `CalledProcessError`), or no process at all (an `OSError` such as a missing
   executable, which `sync_once` does not catch).
   */
  datatype RsyncOutcome = RsyncOk | RsyncExitNonZero | RsyncNotStarted

  /**
   What the target repository answers when the pass talks to it: whether it
   opens as a repository, the `git status --porcelain` text (None when the
   command fails), whether staging and committing succeed, whether the default
   `git push` succeeds, the names of the configured remotes, and whether
   `repo.remotes.origin.push()` returns without raising (it may do so with a
   rejected ref in its result, which the code never inspects).
   */
  datatype GitWorld = GitWorld(
    isRepo: bool,
    status: Option<string>,
    stageOk: bool,
    commitOk: bool,
    pushOk: bool,
    remotes: seq<string>,
    originPushOk: bool)

  datatype Pass = Pass(trace: seq<Effect>, raised: bool)

  const Origin: string := "origin"

  predicate IsGitEffect(e: Effect) {
    e.QueryStatus? || e.Stage? || e.Commit? || e.Push? || e.PushOrigin?
  }

  /** The git effects of a trace, in order. */
  function GitEffects(trace: seq<Effect>): (g: seq<Effect>)
    ensures |g| <= |trace|
    decreases |trace|
  {
    if trace == [] then []
    else (if IsGitEffect(trace[0]) then [trace[0]] else []) + GitEffects(trace[1..])
  }

  /** The messages of the commits a trace attempts. */
  function Commits(trace: seq<Effect>): (msgs: seq<string>)
    ensures |msgs| <= |trace|
    decreases |trace|
  {
    if trace == [] then []
    else (if trace[0].Commit? then [trace[0].message] else []) + Commits(trace[1..])
  }

  /** The commit message for `n` changed files. */
  function CommitMessage(n: nat): (m: string)
    ensures |m| >= 15 && m[..8] == "Updated " && m[|m| - 6..] == " files"
    ensures Canonical(m[8..|m| - 6]) && Value(m[8..|m| - 6]) == n
  {
    var m := "Updated " + Show(n) + " files";
    assert m[8..|m| - 6] == Show(n);
    ValueOfShow(n);
    m
  }

  /** Reads the file count back out of a commit message; None for any other text. */
  function ParseCommitMessage(m: string): (r: Option<nat>)
    ensures r.Some? ==> CommitMessage(r.value) == m
  {
    if |m| >= 15 && m[..8] == "Updated " && m[|m| - 6..] == " files" && Canonical(m[8..|m| - 6]) then
      var digits := m[8..|m| - 6];
      ShowOfValue(digits);
      assert m == m[..8] + digits + m[|m| - 6..];
      Some(Value(digits))
    else None
  }

  /** Every commit message reads back as the count it was made from. */
  lemma MessageRoundTrip(n: nat)
    ensures ParseCommitMessage(CommitMessage(n)) == Some(n)
  {
  }

  /** Different counts give different messages. */
  lemma MessageInjective(m: nat, n: nat)
    ensures CommitMessage(m) == CommitMessage(n) <==> m == n
  {
    if CommitMessage(m) == CommitMessage(n) {
      MessageRoundTrip(m);
      MessageRoundTrip(n);
    }
  }

  /** The number of changed files the pass sees: 0 when the status cannot be read. */
  function SeenChanges(w: GitWorld): nat {
    if w.isRepo && w.status.Some? then UpdatedCount(w.status.value) else 0
  }

  /** The order a pass follows when every step runs: count, stage, commit, push, push to origin. */
  function Plan(n: nat): seq<Effect> {
    [QueryStatus, Stage, Commit(CommitMessage(n)), Push, PushOrigin]
  }

  /**
   How many steps of the plan a pass attempts: none when the repository
   does not open, only the count when it cannot be read or is zero, then one
   more step for each step that succeeded, the push to `origin` only when
   the default push failed and `origin` exists.
   */
  function StepsAttempted(w: GitWorld): (k: nat)
    // within the five-step plan, as `PlanPrefix` requires
    ensures k <= 5
  {
    if !w.isRepo then 0
    else if w.status.None? || SeenChanges(w) == 0 then 1
    else if !w.stageOk then 2
    else if !w.commitOk then 3
    else if w.pushOk || Origin !in w.remotes then 4
    else 5
  }

  /** `commit_and_push_if_needed`: what one call attempts and whether it raises. */
  function CommitAndPushIfNeeded(w: GitWorld): (r: Pass)
    // the steps happen in the planned order, each at most once, as far as the outcomes allow
    ensures r.trace == Plan(SeenChanges(w))[..StepsAttempted(w)]
    // the call returns normally exactly when nothing needed committing, or the commit was made and
    // either the default push succeeded or the fallback push to `origin` returned without raising
    ensures !r.raised <==>
      w.isRepo && w.status.Some? &&
      (SeenChanges(w) == 0 || (w.stageOk && w.commitOk && (w.pushOk || (Origin in w.remotes && w.originPushOk))))
  {
    if !w.isRepo then Pass([], true)
    else match w.status
      case None => Pass([QueryStatus], true)
      case Some(text) =>
        var n := UpdatedCount(text);
        if n == 0 then Pass([QueryStatus], false)
        else if !w.stageOk then Pass([QueryStatus, Stage], true)
        else
          var msg := CommitMessage(n);
          if !w.commitOk then Pass([QueryStatus, Stage, Commit(msg)], true)
          else if w.pushOk then Pass([QueryStatus, Stage, Commit(msg), Push], false)
          else if Origin in w.remotes then Pass([QueryStatus, Stage, Commit(msg), Push, PushOrigin], !w.originPushOk)
          else Pass([QueryStatus, Stage, Commit(msg), Push], true)
  }

  /** What each prefix of the plan contains. */
  lemma PlanPrefix(n: nat, k: nat)
    requires k <= 5
    ensures var t := Plan(n)[..k];
      && (t != [] ==> t[0] == QueryStatus)
      && (Stage in t <==> k >= 2)
      && Commits(t) == (if k >= 3 then [CommitMessage(n)] else [])
      && (Push in t <==> k >= 4)
      && (PushOrigin in t <==> k == 5)
      && (forall e | e in t :: IsGitEffect(e))
  {
    var m := CommitMessage(n);
    var t := Plan(n)[..k];
    CommitsPlan(m);
    if k == 0 { assert t == []; }
    else if k == 1 { assert t == [QueryStatus]; }
    else if k == 2 { assert t == [QueryStatus, Stage]; }
    else if k == 3 { assert t == [QueryStatus, Stage, Commit(m)]; }
    else if k == 4 { assert t == [QueryStatus, Stage, Commit(m), Push]; }
    else { assert t == [QueryStatus, Stage, Commit(m), Push, PushOrigin]; }
  }

  /** The commits of a trace made of two parts are those of each part, in order. */
  lemma {:induction false} CommitsAppend(a: seq<Effect>, b: seq<Effect>)
    ensures Commits(a + b) == Commits(a) + Commits(b)
    decreases |a|
  {
    if a == [] {
      assert a + b == b;
    } else {
      var rest := a[1..] + b;
      assert (a + b)[0] == a[0] && (a + b)[1..] == rest;
      CommitsAppend(a[1..], b);
      assert Commits(a + b) == (if a[0].Commit? then [a[0].message] else []) + Commits(rest);
    }
  }

  lemma CommitsPlan(m: string)
    ensures Commits([]) == []
    ensures Commits([QueryStatus]) == []
    ensures Commits([QueryStatus, Stage]) == []
    ensures Commits([QueryStatus, Stage, Commit(m)]) == [m]
    ensures Commits([QueryStatus, Stage, Commit(m), Push]) == [m]
    ensures Commits([QueryStatus, Stage, Commit(m), Push, PushOrigin]) == [m]
  {
    var q, qs, qsc := [QueryStatus], [QueryStatus, Stage], [QueryStatus, Stage, Commit(m)];
    assert [Stage][1..] == [] && [Commit(m)][1..] == [] && [Push][1..] == [] && [PushOrigin][1..] == [];
    assert q[1..] == [];
    CommitsAppend(q, [Stage]);
    assert q + [Stage] == qs;
    CommitsAppend(qs, [Commit(m)]);
    assert qs + [Commit(m)] == qsc;
    CommitsAppend(qsc, [Push]);
    assert qsc + [Push] == [QueryStatus, Stage, Commit(m), Push];
    CommitsAppend(qsc + [Push], [PushOrigin]);
    assert qsc + [Push] + [PushOrigin] == [QueryStatus, Stage, Commit(m), Push, PushOrigin];
  }

  /** The count is taken before `add -A`, and nothing is staged unless it found changes. */
  lemma CountBeforeStage(w: GitWorld)
    ensures var t := CommitAndPushIfNeeded(w).trace;
      && (t != [] ==> t[0] == QueryStatus)
      && (Stage in t <==> w.isRepo && w.status.Some? && SeenChanges(w) > 0)
  {
    PlanPrefix(SeenChanges(w), StepsAttempted(w));
  }

  /** With no changes the pass stops after the count: no stage, commit or push, and no error. */
  lemma NoChangesNoCommit(w: GitWorld)
    requires w.isRepo && w.status.Some? && SeenChanges(w) == 0
    ensures CommitAndPushIfNeeded(w) == Pass([QueryStatus], false)
  {
    assert Plan(0)[..1] == [QueryStatus];
  }

  /** At most one commit, made exactly when staging succeeded, with the message naming the count. */
  lemma SingleCommit(w: GitWorld)
    ensures var t := CommitAndPushIfNeeded(w).trace;
      Commits(t) == (if Stage in t && w.stageOk then [CommitMessage(SeenChanges(w))] else [])
  {
    PlanPrefix(SeenChanges(w), StepsAttempted(w));
  }

  /**
   The default push follows a successful commit; the push to `origin` happens
   exactly when the default push failed and `origin` is configured; without
   `origin` the failure propagates.
   */
  lemma PushFallback(w: GitWorld)
    ensures var r := CommitAndPushIfNeeded(w);
      && (Push in r.trace <==> Stage in r.trace && w.stageOk && w.commitOk)
      && (PushOrigin in r.trace <==> Push in r.trace && !w.pushOk && Origin in w.remotes)
      && (Push in r.trace && w.pushOk ==> PushOrigin !in r.trace && !r.raised)
      && (Push in r.trace && !w.pushOk && Origin !in w.remotes ==> r.raised)
  {
    PlanPrefix(SeenChanges(w), StepsAttempted(w));
  }

  /** `sync_once`: rsync, then the git step, with the failures it catches logged. */
  function SyncOnce(rsync: RsyncOutcome, w: GitWorld): (r: Pass)
    ensures r.trace != [] && r.trace[0] == Rsync
    // only an rsync that could not be started raises out of the pass
    ensures r.raised <==> rsync == RsyncNotStarted
    // git is touched exactly as the git step would touch it, and only after a successful rsync
    ensures GitEffects(r.trace) == (if rsync == RsyncOk then CommitAndPushIfNeeded(w).trace else [])
    ensures Logged(RsyncFailed) in r.trace <==> rsync == RsyncExitNonZero
    // a git failure is logged, not raised
    ensures Logged(GitFailed) in r.trace <==> rsync == RsyncOk && CommitAndPushIfNeeded(w).raised
    // rsync runs once, with no retry
    ensures forall i | 1 <= i < |r.trace| :: r.trace[i] != Rsync
    // a failure is logged as the last thing the pass does
    ensures forall i | 0 <= i < |r.trace| - 1 :: !r.trace[i].Logged?
  {
    match rsync
    case RsyncNotStarted => Pass([Rsync], true)
    case RsyncExitNonZero => Pass([Rsync, Logged(RsyncFailed)], false)
    case RsyncOk => AfterRsync(w)
  }

  /** The rest of `sync_once` once rsync succeeded: the git step, with its failure logged after it. */
  function AfterRsync(w: GitWorld): (r: Pass)
    ensures r.trace != [] && r.trace[0] == Rsync && !r.raised
    ensures GitEffects(r.trace) == CommitAndPushIfNeeded(w).trace
    ensures Logged(RsyncFailed) !in r.trace
    ensures Logged(GitFailed) in r.trace <==> CommitAndPushIfNeeded(w).raised
    ensures forall i | 1 <= i < |r.trace| :: r.trace[i] != Rsync
    ensures forall i | 0 <= i < |r.trace| - 1 :: !r.trace[i].Logged?
  {
    PlanPrefix(SeenChanges(w), StepsAttempted(w));
    WrapGit(CommitAndPushIfNeeded(w))
  }

  /** Rsync in front of a git step's trace, and the failure log after it when the step raised. */
  function WrapGit(git: Pass): (r: Pass)
    requires forall e | e in git.trace :: IsGitEffect(e)
    ensures r.trace != [] && r.trace[0] == Rsync && !r.raised
    ensures GitEffects(r.trace) == git.trace
    ensures Logged(RsyncFailed) !in r.trace
    ensures Logged(GitFailed) in r.trace <==> git.raised
    ensures forall i | 1 <= i < |r.trace| :: r.trace[i] != Rsync
    ensures forall i | 0 <= i < |r.trace| - 1 :: !r.trace[i].Logged?
  {
    var log: seq<Effect> := if git.raised then [Logged(GitFailed)] else [];
    GitEffectsOfPass(git.trace, git.raised);
    LoggedOfPass(git.trace, git.raised);
    ShapeOfPass(git.trace, log, [Rsync] + git.trace + log);
    Pass([Rsync] + git.trace + log, false)
  }

  /**
   The pass around a git trace: rsync only at the front, the log line only at
   the end. The finished trace `t` is a parameter, pinned by a requires, so that
   the ensures index `t` itself and match the caller's terms.
   */
  lemma ShapeOfPass(trace: seq<Effect>, log: seq<Effect>, t: seq<Effect>)
    requires forall e | e in trace :: IsGitEffect(e)
    requires log == [] || log == [Logged(GitFailed)]
    requires t == [Rsync] + trace + log
    ensures forall i | 1 <= i < |t| :: t[i] != Rsync
    ensures forall i | 0 <= i < |t| - 1 :: !t[i].Logged?
  {
    forall i | 1 <= i <= |trace| ensures t[i] == trace[i - 1] && IsGitEffect(t[i]) {
      assert trace[i - 1] in trace;
    }
  }

  lemma GitEffectsOfPass(trace: seq<Effect>, raised: bool)
    requires forall e | e in trace :: IsGitEffect(e)
    ensures GitEffects([Rsync] + trace + (if raised then [Logged(GitFailed)] else [])) == trace
  {
    var log: seq<Effect> := if raised then [Logged(GitFailed)] else [];
    GitEffectsAppend([Rsync], trace + log);
    GitEffectsAppend(trace, log);
    assert [Rsync] + trace + log == [Rsync] + (trace + log);
    GitEffectsAll(trace);
  }

  lemma LoggedOfPass(trace: seq<Effect>, raised: bool)
    requires forall e | e in trace :: IsGitEffect(e)
    ensures var t := [Rsync] + trace + (if raised then [Logged(GitFailed)] else []);
      Logged(RsyncFailed) !in t && (Logged(GitFailed) in t <==> raised)
  {
    var t := [Rsync] + trace + (if raised then [Logged(GitFailed)] else []);
    assert forall e | e in t :: e == Rsync || e in trace || e == Logged(GitFailed);
    if raised { assert t[|t| - 1] == Logged(GitFailed); }
  }

  lemma {:induction false} GitEffectsAppend(a: seq<Effect>, b: seq<Effect>)
    ensures GitEffects(a + b) == GitEffects(a) + GitEffects(b)
    decreases |a|
  {
    if a != [] {
      var h := if IsGitEffect(a[0]) then [a[0]] else [];
      assert (a + b)[0] == a[0];
      assert (a + b)[1..] == a[1..] + b;
      GitEffectsAppend(a[1..], b);
      assert GitEffects(a + b) == h + (GitEffects(a[1..]) + GitEffects(b));
      assert GitEffects(a) == h + GitEffects(a[1..]);
    } else {
      assert a + b == b;
    }
  }

  lemma {:induction false} GitEffectsAll(trace: seq<Effect>)
    requires forall e | e in trace :: IsGitEffect(e)
    ensures GitEffects(trace) == trace
    decreases |trace|
  {
    if trace != [] {
      assert forall e | e in trace[1..] :: e in trace;
      GitEffectsAll(trace[1..]);
    }
  }

  /** A pass over an unchanged tree is silent: nothing staged, committed, pushed or logged. */
  lemma UnchangedPassIsQuiet(w: GitWorld)
    requires w.isRepo && w.status.Some? && IsBlank(w.status.value)
    ensures SyncOnce(RsyncOk, w) == Pass([Rsync, QueryStatus], false)
  {
  }

  /** A failed default push with an `origin` remote that accepts the push ends the pass cleanly. */
  lemma FallbackToOriginSucceeds(w: GitWorld)
    requires w.isRepo && w.status.Some? && !IsBlank(w.status.value)
    requires w.stageOk && w.commitOk && !w.pushOk && Origin in w.remotes && w.originPushOk
    ensures var r := SyncOnce(RsyncOk, w);
      PushOrigin in r.trace && !r.raised && Logged(GitFailed) !in r.trace
  {
  }
}
