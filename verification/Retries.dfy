/** Aborted cycles and replayed commands under a fixed upstream snapshot. */
module Retries {
  import opened Domain
  import opened Codecs
  import opened Filters
  import opened Cursor
  import opened Cycle
  import opened Backstop
  import opened ScopedPolls
  import LoopFrame
  import Changelog

  /** The task identifiers (before hashing) of the commands sent. */
  ghost function TaskIds(trace: seq<Effect>): set<string> {
    set e | e in trace && e.Create? && e.ok :: TaskKey(e.owner, e.name, e.head)
  }

  /** The repositories and tags handed to the build dispatcher. */
  ghost function Dispatched(trace: seq<Effect>): set<(string, string)> {
    set e | e in trace && e.Dispatch? && e.ok :: (e.request, e.tag)
  }

  // ---- Retry after an abort ----

  lemma {:induction false} WalkExtends(f: Filter, c: Repos, repos: seq<Repo>, us: nat -> Upstream, m: nat, n: nat)
    requires m <= n <= |repos|
    ensures After(f, c, repos, us, m).trace <= After(f, c, repos, us, n).trace
    decreases n
  {
    hide Repo.Key, VisitStep, BackstopStep, ReleaseStep;
    if m < n {
      WalkExtends(f, c, repos, us, m, n - 1);
      VisitExtends(f, After(f, c, repos, us, n - 1), repos[n - 1], us(n - 1));
    }
  }

  lemma VisitExtends(f: Filter, s: LoopState, repo: Repo, u: Upstream)
    ensures s.trace <= BackstopStep(s, repo, u).trace <= ReleaseStep(f, BackstopStep(s, repo, u), repo, u).trace
    ensures s.trace <= VisitStep(f, s, repo, u).trace
  {
    hide Repo.Key, Gather, Skip, BackstopTag;
  }

  lemma {:induction false} SameReplies(f: Filter, c: Repos, repos: seq<Repo>, us: nat -> Upstream, us': nat -> Upstream,
                                       n: nat)
    requires n <= |repos| && forall i: nat | i < n :: us(i) == us'(i)
    ensures After(f, c, repos, us, n) == After(f, c, repos, us', n)
  {
    hide VisitStep;
    if n > 0 {
      SameReplies(f, c, repos, us, us', n - 1);
    }
  }

  /** The same visit under a rate limit on the head, the changelog or the configuration. The limit may have
      hit the backstop's own calls before, or failed its dispatch. */
  ghost predicate RateLimitedVersion(u: Upstream, limited: Upstream) {
    && !limited.cancelled && Gather(limited).Abort?
    && (FailingVersion(u.tags, limited.tags) || NoPick(limited.tags))
    && (limited.dispatchOk ==> u.dispatchOk)
  }

  /** A prefix, or a prefix followed by a dispatch that failed. */
  ghost predicate PrefixButFailure(short: seq<Effect>, long: seq<Effect>) {
    || short <= long
    || (short != [] && short[..|short| - 1] <= long && short[|short| - 1].Dispatch? && !short[|short| - 1].ok)
  }

  lemma LimitedBackstop(s: LoopState, repo: Repo, u: Upstream, limited: Upstream)
    requires RateLimitedVersion(u, limited)
    ensures BackstopStep(s, repo, limited).outcome == s.outcome
    ensures PrefixButFailure(BackstopStep(s, repo, limited).trace, BackstopStep(s, repo, u).trace)
  {
    hide Repo.Key, Gather, Newest, FailingVersion;
    var last := LastBuilt(s.repos, repo.Key());
    if FailingVersion(u.tags, limited.tags) {
      FailureOnlySilences(last, u.tags, limited.tags);
    } else {
      assert Newest(last, limited.tags) == PickError || Newest(last, limited.tags) == Tag("");
    }
  }

  lemma AbortedVisit(f: Filter, s: LoopState, repo: Repo, u: Upstream, limited: Upstream)
    requires RateLimitedVersion(u, limited) && !u.cancelled
    ensures var s' := VisitStep(f, s, repo, limited);
            s'.outcome.Aborted? && PrefixButFailure(s'.trace, VisitStep(f, s, repo, u).trace)
  {
    hide Gather, Skip, BackstopStep;
    VisitExtends(f, s, repo, u);
    LimitedBackstop(s, repo, u, limited);
  }

  /** A walk aborted at repository n did a prefix of what the unaborted walk does, apart from a last dispatch
      that failed. */
  lemma AbortedWalkIsPrefix(f: Filter, c: Repos, repos: seq<Repo>, us: nat -> Upstream, us': nat -> Upstream, n: nat)
    requires n < |repos| && (forall i: nat | i < n :: us'(i) == us(i)) && RateLimitedVersion(us(n), us'(n))
    requires forall i: nat | i < |repos| :: Steady(us(i))
    ensures Processed(f, c, repos, us').outcome.Aborted?
    ensures PrefixButFailure(Processed(f, c, repos, us').trace, Processed(f, c, repos, us).trace)
  {
    hide VisitStep, RateLimitedVersion;
    SameReplies(f, c, repos, us, us', n);
    SteadyWalkRuns(f, c, repos, us, n);
    assert Steady(us(n));
    AbortedVisit(f, After(f, c, repos, us, n), repos[n], us(n), us'(n));
    LoopStopped(f, c, repos, us', n + 1);
    WalkExtends(f, c, repos, us, n + 1, |repos|);
  }

  lemma PrefixSets(a: seq<Effect>, b: seq<Effect>)
    requires forall e | e in a && (e.Create? || (e.Dispatch? && e.ok)) :: e in b
    ensures TaskIds(a) <= TaskIds(b) && Dispatched(a) <= Dispatched(b)
  {
    forall id | id in TaskIds(a)
      ensures id in TaskIds(b)
    {
      var e :| e in a && e.Create? && e.ok && TaskKey(e.owner, e.name, e.head) == id;
      assert e in b;
    }
  }

  /** Retry safety: a cycle aborted at any repository leaves the file alone, and together with the full
      cycle that follows it has the saved cursor, the task identifiers and the dispatched tags of the full
      cycle alone. */
  lemma RetryIsSafe(cfg: Config, file: FileState, force: bool, scope: string, w: World, us': nat -> Upstream,
                    repos: seq<Repo>, n: nat)
    requires Loaded(file).Some? && !QuotaGate(cfg, scope, w.remaining)
             && Resolve(cfg, scope, w.listing) == Repositories(repos)
    requires forall i: nat | i < |repos| :: Steady(w.us(i))
    requires n < |repos| && (forall i: nat | i < n :: us'(i) == w.us(i)) && RateLimitedVersion(w.us(n), us'(n))
    ensures var aborted := PollSpec(cfg, file, force, scope, w.(us := us'));
            var retried := PollSpec(cfg, aborted.file, force, scope, w);
            var alone := PollSpec(cfg, file, force, scope, w);
            && retried.file == alone.file
            && TaskIds(aborted.trace + retried.trace) == TaskIds(alone.trace)
            && Dispatched(aborted.trace + retried.trace) == Dispatched(alone.trace)
  {
    var f, c := CycleFilter(cfg.filter, force), Loaded(file).value;
    AbortedWalkIsPrefix(f, c, repos, w.us, us', n);
    var aborted := PollSpec(cfg, file, force, scope, w.(us := us'));
    var alone := PollSpec(cfg, file, force, scope, w);
    assert aborted.file == file;
    var short, long := Processed(f, c, repos, us').trace, Processed(f, c, repos, w.us).trace;
    assert forall e | e in short && !(e.Dispatch? && !e.ok) :: e in long;
    PrefixSets(aborted.trace, alone.trace);
    TaskIdsConcat(aborted.trace, alone.trace);
  }

  lemma TaskIdsConcat(a: seq<Effect>, b: seq<Effect>)
    ensures TaskIds(a + b) == TaskIds(a) + TaskIds(b)
    ensures Dispatched(a + b) == Dispatched(a) + Dispatched(b)
  {
    assert forall e :: e in a + b <==> e in a || e in b;
  }

  // ---- Replay of a command sequence ----

  /** Upstream during a replay: everything answers as it did the first time. */
  datatype Env = Env(remaining: int, listing: Reply<seq<Repo>>, snap: Snapshot, dispatchOk: (string, string) -> bool)

  predicate Builds(env: Env, cmd: Command) {
    cmd.tag == "" || env.dispatchOk(cmd.scope, cmd.tag)
  }

  /** The repositories a command visits. */
  function Targets(cfg: Config, env: Env, cmd: Command): seq<Repo> {
    if !Builds(env, cmd) || QuotaGate(cfg, cmd.scope, env.remaining) then []
    else
      match Resolve(cfg, cmd.scope, env.listing)
      case Unresolved(_) => []
      case Repositories(repos) => repos
  }

  ghost function Execute(cfg: Config, env: Env, file: FileState, cmd: Command, fault: SaveFault): ExecResult {
    ExecSpec(cfg, file, cmd, env.dispatchOk(cmd.scope, cmd.tag),
             World(env.remaining, env.listing, Replies(Targets(cfg, env, cmd), env.snap), fault))
  }

  /** The first n commands of a pass; any of its saves may fail. */
  ghost function Pass(cfg: Config, env: Env, file: FileState, cmds: seq<Command>, faults: nat -> SaveFault,
                      n: nat): Progress
    requires n <= |cmds|
  {
    if n == 0 then Progress(file, [])
    else
      var before := Pass(cfg, env, file, cmds, faults, n - 1);
      var r := Execute(cfg, env, before.file, cmds[n - 1], faults(n - 1));
      Progress(r.file, before.work + r.trace)
  }

  /** Every repository is gathered without abort, and its command is sent. */
  ghost predicate Served(repos: seq<Repo>, snap: Snapshot) {
    forall r | r in repos :: Steady(snap(r.Key())) && snap(r.Key()).sendOk
  }

  /** Every repository the commands visit is gathered without abort, and its command is sent. */
  ghost predicate Undisturbed(cfg: Config, env: Env, cmds: seq<Command>) {
    forall cmd | cmd in cmds :: Served(Targets(cfg, env, cmd), env.snap)
  }

  /** The repository passes the cycle-invariant filters. */
  ghost predicate Wanted(base: Filter, snap: Snapshot, r: Repo) {
    var g := Gather(snap(r.Key()));
    g.Release? && Skip(base, InputOf(r, g), map[]) == ""
  }

  ghost function HeadOf(snap: Snapshot, r: Repo): string {
    var g := Gather(snap(r.Key()));
    if g.Release? then g.head else ""
  }

  ghost function IdOf(snap: Snapshot, r: Repo): string {
    TaskKey(r.owner, r.name, HeadOf(snap, r))
  }

  /** The cursor holds the head of a wanted repository. */
  ghost predicate Settled(base: Filter, snap: Snapshot, c: Repos, r: Repo) {
    Wanted(base, snap, r) ==> LastSeen(c, r.Key()) == HeadOf(snap, r)
  }

  /** A command is sent exactly for a wanted repository that is forced or not settled, and the visit
      settles the repository. */
  ghost predicate VisitResult(base: Filter, force: bool, s: LoopState, r: Repo, snap: Snapshot, s': LoopState) {
    var sends := Wanted(base, snap, r) && (force || !Settled(base, snap, s.repos, r));
    && s'.outcome.Running?
    && TaskIds(s'.trace) == TaskIds(s.trace) + (if sends then {IdOf(snap, r)} else {})
    && LastSeen(s'.repos, r.Key()) == (if sends then HeadOf(snap, r) else LastSeen(s.repos, r.Key()))
    && Settled(base, snap, s'.repos, r)
  }

  lemma VisitUnderSnapshot(base: Filter, force: bool, s: LoopState, r: Repo, snap: Snapshot)
    requires CursorFree(base) && s.outcome.Running? && Steady(snap(r.Key())) && snap(r.Key()).sendOk
    ensures VisitResult(base, force, s, r, snap, VisitStep(CycleFilter(base, force), s, r, snap(r.Key())))
  {
    hide Repo.Key, Skip, CycleFilter, BackstopTag, Changelog.Parse, TaskIds, TaskKey;
    var u, key := snap(r.Key()), r.Key();
    var b := BackstopStep(s, r, u);
    TaskIdsAppend(s.trace, Dispatch(key, r.Short(), BackstopTag(s.repos, key, u.tags), u.dispatchOk));
    assert TaskIds(b.trace) == TaskIds(s.trace) && LastSeen(b.repos, key) == LastSeen(s.repos, key);
    match Gather(u)
    case Release(head, version, bullets, config) =>
      var input := InputOf(r, Gather(u));
      CycleReason(base, force, input, b.repos);
      CursorFreeSkip(base, input, b.repos, map[]);
      TaskIdsAppend(b.trace, FilterSkip(key, head, Skip(CycleFilter(base, force), input, b.repos)));
      TaskIdsAppend(b.trace, Create(key, r.owner, r.name, head, version, u.sendOk));
    case _ =>
      TaskIdsAppend(b.trace, Dropped(key));
  }

  lemma TaskIdsAppend(trace: seq<Effect>, e: Effect)
    ensures TaskIds(trace + [e]) ==
            TaskIds(trace) + if e.Create? && e.ok then {TaskKey(e.owner, e.name, e.head)} else {}
  {
    assert forall x :: x in trace + [e] <==> x in trace || x == e;
  }

  /** A visit owed to a repository. */
  datatype Ask = Ask(repo: Repo, force: bool)

  /** The identifier belongs to an asked-for wanted repository that is forced or not settled by the cursor. */
  ghost predicate Due(base: Filter, snap: Snapshot, c: Repos, asks: seq<Ask>, id: string) {
    exists a :: a in asks && Wanted(base, snap, a.repo) && id == IdOf(snap, a.repo)
                && (a.force || !Settled(base, snap, c, a.repo))
  }

  /** Nothing settled becomes unsettled, and what becomes settled was sent. */
  ghost predicate Progresses(base: Filter, snap: Snapshot, c: Repos, c': Repos, ids: set<string>) {
    && (forall r | Settled(base, snap, c, r) :: Settled(base, snap, c', r))
    && (forall r | Settled(base, snap, c', r) :: Settled(base, snap, c, r) || IdOf(snap, r) in ids)
  }

  /** From cursor c exactly the due identifiers are sent, on the way to cursor c'. */
  ghost predicate SendsDue(base: Filter, snap: Snapshot, c: Repos, asks: seq<Ask>, c': Repos, ids: set<string>) {
    Progresses(base, snap, c, c', ids) && forall id :: id in ids <==> Due(base, snap, c, asks, id)
  }

  /** Doing what is due and then what is due after it is doing all of it. */
  lemma SendsDueConcat(base: Filter, snap: Snapshot, c: Repos, asks: seq<Ask>, c': Repos, ids: set<string>,
                       asks': seq<Ask>, c'': Repos, ids': set<string>)
    requires SendsDue(base, snap, c, asks, c', ids) && SendsDue(base, snap, c', asks', c'', ids')
    ensures SendsDue(base, snap, c, asks + asks', c'', ids + ids')
  {
    hide Settled, Wanted, IdOf, Due;
    forall id
      ensures id in ids + ids' <==> Due(base, snap, c, asks + asks', id)
    {
      DueConcat(base, snap, c, asks, c', ids, asks', id);
    }
  }

  lemma DueConcat(base: Filter, snap: Snapshot, c: Repos, asks: seq<Ask>, c': Repos, ids: set<string>, asks': seq<Ask>,
                  id: string)
    requires SendsDue(base, snap, c, asks, c', ids)
    ensures Due(base, snap, c, asks + asks', id) <==> id in ids || Due(base, snap, c', asks', id)
  {
    hide Settled, Wanted, IdOf;
    if Due(base, snap, c, asks, id) {
      var a :| a in asks && Wanted(base, snap, a.repo) && id == IdOf(snap, a.repo)
               && (a.force || !Settled(base, snap, c, a.repo));
      assert a in asks + asks';
    }
    if Due(base, snap, c', asks', id) {
      var a :| a in asks' && Wanted(base, snap, a.repo) && id == IdOf(snap, a.repo)
               && (a.force || !Settled(base, snap, c', a.repo));
      assert a in asks + asks';
    }
    if Due(base, snap, c, asks + asks', id) && id !in ids {
      var a :| a in asks + asks' && Wanted(base, snap, a.repo) && id == IdOf(snap, a.repo)
               && (a.force || !Settled(base, snap, c, a.repo));
      assert a !in asks;
    }
  }

  /** The identifier is determined by the key and the snapshot. */
  lemma SameKeySameId(snap: Snapshot, r: Repo, x: Repo)
    requires r.Key() == x.Key()
    ensures IdOf(snap, r) == IdOf(snap, x) && HeadOf(snap, r) == HeadOf(snap, x)
  {
    hide Gather;
    var host := "github.com/";
    assert r.Key()[|host|..] == r.Short() && x.Key()[|host|..] == x.Short();
    assert IdOf(snap, r) == r.Short() + "@" + HeadOf(snap, r);
    assert IdOf(snap, x) == x.Short() + "@" + HeadOf(snap, x);
  }

  /** The identifiers one visit adds. */
  ghost function VisitIds(base: Filter, force: bool, c: Repos, r: Repo, snap: Snapshot): set<string> {
    if Wanted(base, snap, r) && (force || !Settled(base, snap, c, r)) then {IdOf(snap, r)} else {}
  }

  lemma VisitProgresses(base: Filter, force: bool, s: LoopState, r: Repo, snap: Snapshot, x: Repo)
    requires CursorFree(base) && s.outcome.Running? && Steady(snap(r.Key())) && snap(r.Key()).sendOk
    ensures var s' := VisitStep(CycleFilter(base, force), s, r, snap(r.Key()));
            && (Settled(base, snap, s.repos, x) ==> Settled(base, snap, s'.repos, x))
            && (Settled(base, snap, s'.repos, x) ==>
                  Settled(base, snap, s.repos, x) || IdOf(snap, x) in VisitIds(base, force, s.repos, r, snap))
  {
    hide Repo.Key, VisitStep, Wanted, IdOf, HeadOf, Steady, CycleFilter;
    VisitUnderSnapshot(base, force, s, r, snap);
    if r.Key() == x.Key() {
      SameKeySameId(snap, r, x);
    } else {
      LoopFrame.VisitTouchesOwnKey(CycleFilter(base, force), s, r, snap(r.Key()), x.Key());
    }
  }

  /** A visit sends what is due to its repository. */
  lemma VisitSendsDue(base: Filter, force: bool, s: LoopState, r: Repo, snap: Snapshot)
    requires CursorFree(base) && s.outcome.Running? && Steady(snap(r.Key())) && snap(r.Key()).sendOk
    ensures var s' := VisitStep(CycleFilter(base, force), s, r, snap(r.Key()));
            var ids := VisitIds(base, force, s.repos, r, snap);
            && s'.outcome.Running? && TaskIds(s'.trace) == TaskIds(s.trace) + ids
            && SendsDue(base, snap, s.repos, [Ask(r, force)], s'.repos, ids)
  {
    hide VisitStep, Settled, Wanted, Steady, CycleFilter, CursorFree, IdOf, TaskIds;
    VisitUnderSnapshot(base, force, s, r, snap);
    var s' := VisitStep(CycleFilter(base, force), s, r, snap(r.Key()));
    forall x
      ensures Settled(base, snap, s.repos, x) ==> Settled(base, snap, s'.repos, x)
      ensures Settled(base, snap, s'.repos, x) ==>
                Settled(base, snap, s.repos, x) || IdOf(snap, x) in VisitIds(base, force, s.repos, r, snap)
    {
      VisitProgresses(base, force, s, r, snap, x);
    }
    assert Ask(r, force) in [Ask(r, force)];
  }

  function AsksOf(repos: seq<Repo>, force: bool): seq<Ask> {
    seq(|repos|, i requires 0 <= i < |repos| => Ask(repos[i], force))
  }

  /** A walk under a snapshot sends exactly what is due to its repositories. */
  lemma {:induction false} WalkSendsDue(base: Filter, force: bool, c: Repos, repos: seq<Repo>, snap: Snapshot, n: nat)
    requires n <= |repos| && CursorFree(base) && Served(repos, snap)
    ensures var s := After(CycleFilter(base, force), c, repos, Replies(repos, snap), n);
            && s.outcome.Running?
            && SendsDue(base, snap, c, AsksOf(repos[..n], force), s.repos, TaskIds(s.trace))
  {
    hide VisitStep, VisitIds, SendsDue, Steady, CycleFilter, CursorFree, Served, Repo.Key, TaskIds;
    var f, us := CycleFilter(base, force), Replies(repos, snap);
    if n == 0 {
      NothingDue(base, snap, c);
    } else {
      WalkSendsDue(base, force, c, repos, snap, n - 1);
      var s, r := After(f, c, repos, us, n - 1), repos[n - 1];
      ServedAt(repos, snap, n - 1);
      assert us(n - 1) == snap(r.Key());
      VisitSendsDue(base, force, s, r, snap);
      var s' := VisitStep(f, s, r, snap(r.Key()));
      SendsDueConcat(base, snap, c, AsksOf(repos[..n - 1], force), s.repos, TaskIds(s.trace),
                     [Ask(r, force)], s'.repos, VisitIds(base, force, s.repos, r, snap));
      assert AsksOf(repos[..n], force) == AsksOf(repos[..n - 1], force) + [Ask(r, force)];
    }
  }

  lemma ServedAt(repos: seq<Repo>, snap: Snapshot, i: nat)
    requires i < |repos| && Served(repos, snap)
    ensures Steady(snap(repos[i].Key())) && snap(repos[i].Key()).sendOk
  {
    hide Steady;
    assert repos[i] in repos;
  }

  lemma NothingDue(base: Filter, snap: Snapshot, c: Repos)
    ensures SendsDue(base, snap, c, [], c, TaskIds([]))
    ensures forall force :: AsksOf([], force) == []
  {
    hide Settled, Wanted;
    assert TaskIds([]) == {};
  }

  /** A poll sends what its walk sends, and leaves the walk's cursor or, when the save fails, the old one. */
  lemma PollIsAWalk(cfg: Config, file: FileState, force: bool, scope: string, w: World, targets: seq<Repo>)
    requires Loaded(file).Some?
    requires targets == if QuotaGate(cfg, scope, w.remaining) then []
                        else match Resolve(cfg, scope, w.listing)
                             case Unresolved(_) => []
                             case Repositories(repos) => repos
    requires Processed(CycleFilter(cfg.filter, force), Loaded(file).value, targets, w.us).outcome.Running?
    ensures var s := Processed(CycleFilter(cfg.filter, force), Loaded(file).value, targets, w.us);
            var p := PollSpec(cfg, file, force, scope, w);
            && (Loaded(p.file) == Some(s.repos) || Loaded(p.file) == Loaded(file))
            && TaskIds(p.trace) == TaskIds(s.trace)
  {
    hide VisitStep, CycleFilter, Resolve, QuotaGate;
    var s := Processed(CycleFilter(cfg.filter, force), Loaded(file).value, targets, w.us);
    TaskIdsConcat([Scanned(|targets|)] + s.trace, LabelOf(s.outcome));
    TaskIdsConcat([Scanned(|targets|)], s.trace);
    assert TaskIds([Scanned(|targets|)]) == {} && TaskIds(LabelOf(s.outcome)) == {} && TaskIds([]) == {};
    assert forall result :: TaskIds([CycleLabel(result)]) == {};
  }

  lemma DispatchSendsNothing(e: Effect)
    requires e.Dispatch?
    ensures TaskIds([]) == {} && TaskIds([e]) == {}
  {
    assert [e] == [] + [e];
    TaskIdsAppend([], e);
  }

  /** Losing a cursor after sending what is due keeps the account. */
  lemma LostSave(base: Filter, snap: Snapshot, c: Repos, asks: seq<Ask>, c': Repos, ids: set<string>)
    requires SendsDue(base, snap, c, asks, c', ids)
    ensures SendsDue(base, snap, c, asks, c, ids)
  {
    hide Settled, Wanted, IdOf, Due;
  }

  /** The asks of one command. */
  function CommandAsks(cfg: Config, env: Env, cmd: Command): seq<Ask> {
    AsksOf(Targets(cfg, env, cmd), cmd.force)
  }

  /** A command sends exactly what is due to its targets, whether or not its save succeeds. */
  lemma CommandSendsDue(cfg: Config, env: Env, file: FileState, cmd: Command, fault: SaveFault)
    requires Loaded(file).Some? && CursorFree(cfg.filter) && Served(Targets(cfg, env, cmd), env.snap)
    ensures var r := Execute(cfg, env, file, cmd, fault);
            && Loaded(r.file).Some?
            && SendsDue(cfg.filter, env.snap, Loaded(file).value, CommandAsks(cfg, env, cmd), Loaded(r.file).value,
                        TaskIds(r.trace))
  {
    hide VisitStep, CycleFilter, Resolve, QuotaGate, PollSpec, Served, SendsDue, TaskIds;
    var targets, c := Targets(cfg, env, cmd), Loaded(file).value;
    assert targets[..|targets|] == targets;
    WalkSendsDue(cfg.filter, cmd.force, c, targets, env.snap, |targets|);
    var dispatch := Dispatch("", cmd.scope, cmd.tag, env.dispatchOk(cmd.scope, cmd.tag));
    var dispatched := if cmd.tag == "" then [] else [dispatch];
    DispatchSendsNothing(dispatch);
    if Builds(env, cmd) {
      var w := World(env.remaining, env.listing, Replies(targets, env.snap), fault);
      PollIsAWalk(cfg, file, cmd.force, cmd.scope, w, targets);
      var s := Processed(CycleFilter(cfg.filter, cmd.force), c, targets, w.us);
      LostSave(cfg.filter, env.snap, c, CommandAsks(cfg, env, cmd), s.repos, TaskIds(s.trace));
      TaskIdsConcat(dispatched, PollSpec(cfg, file, cmd.force, cmd.scope, w).trace);
      assert {} + TaskIds(s.trace) == TaskIds(s.trace);
    } else {
      NothingDue(cfg.filter, env.snap, c);
    }
  }

  /** The asks of the first n commands. */
  function PassAsks(cfg: Config, env: Env, cmds: seq<Command>, n: nat): seq<Ask>
    requires n <= |cmds|
  {
    if n == 0 then [] else PassAsks(cfg, env, cmds, n - 1) + CommandAsks(cfg, env, cmds[n - 1])
  }

  /** A pass of commands sends exactly the identifiers due at its start, whichever of its saves fail. */
  lemma {:induction false} PassSendsExactly(cfg: Config, env: Env, file: FileState, cmds: seq<Command>,
                                            faults: nat -> SaveFault, n: nat)
    requires n <= |cmds| && Loaded(file).Some? && CursorFree(cfg.filter) && Undisturbed(cfg, env, cmds)
    ensures var p := Pass(cfg, env, file, cmds, faults, n);
            && Loaded(p.file).Some?
            && SendsDue(cfg.filter, env.snap, Loaded(file).value, PassAsks(cfg, env, cmds, n), Loaded(p.file).value,
                        TaskIds(p.work))
  {
    hide Targets, Execute, CommandAsks, SendsDue, TaskIds, Served, CursorFree;
    if n == 0 {
      NothingDue(cfg.filter, env.snap, Loaded(file).value);
    } else {
      PassSendsExactly(cfg, env, file, cmds, faults, n - 1);
      var before, cmd := Pass(cfg, env, file, cmds, faults, n - 1), cmds[n - 1];
      assert cmd in cmds;
      var r := Execute(cfg, env, before.file, cmd, faults(n - 1));
      CommandSendsDue(cfg, env, before.file, cmd, faults(n - 1));
      SendsDueConcat(cfg.filter, env.snap, Loaded(file).value, PassAsks(cfg, env, cmds, n - 1),
                     Loaded(before.file).value,
                     TaskIds(before.work), CommandAsks(cfg, env, cmd), Loaded(r.file).value, TaskIds(r.trace));
      TaskIdsConcat(before.work, r.trace);
    }
  }

  /** Replay safety: running a command sequence again, with upstream answering as before, adds no task
      identifier, whichever saves fail in either pass. */
  lemma ReplayAddsNothing(cfg: Config, env: Env, file: FileState, cmds: seq<Command>, faults: nat -> SaveFault,
                          faults': nat -> SaveFault)
    requires Loaded(file).Some? && CursorFree(cfg.filter) && Undisturbed(cfg, env, cmds)
    ensures var first := Pass(cfg, env, file, cmds, faults, |cmds|);
            TaskIds(Pass(cfg, env, first.file, cmds, faults', |cmds|).work) <= TaskIds(first.work)
  {
    hide Pass, PassAsks, Settled, Wanted, TaskIds, CursorFree, Undisturbed;
    var first := Pass(cfg, env, file, cmds, faults, |cmds|);
    PassSendsExactly(cfg, env, file, cmds, faults, |cmds|);
    PassSendsExactly(cfg, env, first.file, cmds, faults', |cmds|);
  }
}
