/** One poll cycle as a function of the cursor file and of everything upstream answers. */
module Cycle {
  import opened Domain
  import opened Traces
  import opened Codecs
  import Changelog
  import opened Backstop
  import opened Filters
  import opened Cursor

  /** The trust flags of a repository's maintainer configuration. */
  datatype MaintainerConfig = MaintainerConfig(autoRelease: bool, allowFork: bool)

  /** Everything the outside world answers while one repository is visited. */
  datatype Upstream = Upstream(
    cancelled: bool,
    tags: TagReplies,
    dispatchOk: bool,
    head: Reply<string>,
    changelog: Reply<seq<string>>,
    config: Reply<MaintainerConfig>,
    sendOk: bool)

  /** What a cycle does to the outside world and to its counters, in order.
      Dispatch: a build request handed to the dispatcher. Create: a create-task command, sent or failed.
      FilterSkip and Dropped: the two ways a repository ends without a command. */
  datatype Effect =
    | Scanned(count: nat)
    | Dispatch(key: string, request: string, tag: string, ok: bool)
    | Create(key: string, owner: string, name: string, head: string, version: string, ok: bool)
    | FilterSkip(key: string, head: string, reason: string)
    | Dropped(key: string)
    | CycleLabel(result: string)

  /** The state of the repository loop. */
  datatype Outcome = Running | Cancelled | Aborted(reason: string) | Panicked

  datatype LoopState = LoopState(repos: Repos, trace: seq<Effect>, outcome: Outcome)

  /** The result of gathering one repository's facts. */
  datatype Gathered = Release(head: string, version: string, bullets: nat, config: MaintainerConfig)
                    | Abort(reason: string) | Prune | Panic

  ghost function Gather(u: Upstream): Gathered {
    match (u.head, u.changelog, u.config)
    case (RateLimited, _, _) => Abort("rate_limited")
    case (Failed, _, _) => Prune
    case (Ok(_), RateLimited, _) => Abort("rate_limited")
    case (Ok(_), Failed, _) => Prune
    case (Ok(_), Ok(_), RateLimited) => Abort("rate_limited")
    case (Ok(_), Ok(_), Failed) => Prune
    case (Ok(head), Ok(lines), Ok(config)) =>
      match Changelog.Parse(lines)
      case None => Panic
      case Some(s) =>
        var version := if s.latestVersion == "" then "v0.0.0" else s.latestVersion;
        Release(head, version, s.unreleasedBullets, config)
  }

  /** The tag the backstop picks for a repository, "" when nothing is to be dispatched. */
  function BackstopTag(live: Repos, key: string, tags: TagReplies): string {
    match Newest(LastBuilt(live, key), tags)
    case PickError => ""
    case Tag(name) => name
  }

  /** runBackstop: dispatch the picked tag and remember it when the dispatch succeeds. */
  function BackstopStep(s: LoopState, repo: Repo, u: Upstream): LoopState {
    var tag := BackstopTag(s.repos, repo.Key(), u.tags);
    if tag == "" then s
    else
      var t := s.(trace := s.trace + [Dispatch(repo.Key(), repo.Short(), tag, u.dispatchOk)]);
      if u.dispatchOk then t.(repos := t.repos[repo.Key() := EntryOf(t.repos, repo.Key()).(lastBuilt := tag)]) else t
  }

  ghost function InputOf(repo: Repo, g: Gathered): FilterInput
    requires g.Release?
  {
    FilterInput(repo.Key(), g.head, g.bullets, g.config.autoRelease, repo.fork, g.config.allowFork)
  }

  /** The release half of a visit: gather, filter, publish, remember the head. */
  ghost function ReleaseStep(f: Filter, s: LoopState, repo: Repo, u: Upstream): LoopState {
    var key := repo.Key();
    match Gather(u)
    case Abort(reason) => s.(outcome := Aborted(reason))
    case Panic => s.(outcome := Panicked)
    case Prune => s.(trace := s.trace + [Dropped(key)])
    case Release(head, version, bullets, config) =>
      var reason := Skip(f, InputOf(repo, Gather(u)), s.repos);
      if reason != "" then s.(trace := s.trace + [FilterSkip(key, head, reason)])
      else
        var t := s.(trace := s.trace + [Create(key, repo.owner, repo.name, head, version, u.sendOk)]);
        if u.sendOk then t.(repos := t.repos[key := EntryOf(t.repos, key).(lastSeen := head)]) else t
  }

  ghost function VisitStep(f: Filter, s: LoopState, repo: Repo, u: Upstream): LoopState {
    if u.cancelled then s.(outcome := Cancelled) else ReleaseStep(f, BackstopStep(s, repo, u), repo, u)
  }

  /** The loop state before position n; a loop that left early stays where it left. */
  ghost function After(f: Filter, c: Repos, repos: seq<Repo>, us: nat -> Upstream, n: nat): LoopState
    requires n <= |repos|
  {
    if n == 0 then LoopState(c, [], Running)
    else
      var s := After(f, c, repos, us, n - 1);
      if s.outcome.Running? then VisitStep(f, s, repos[n - 1], us(n - 1)) else s
  }

  ghost function Processed(f: Filter, c: Repos, repos: seq<Repo>, us: nat -> Upstream): LoopState {
    After(f, c, repos, us, |repos|)
  }

  /** The same loop state with an earlier trace in front. */
  function Shift(before: seq<Effect>, s: LoopState): LoopState {
    s.(trace := before + s.trace)
  }

  /** A visit only appends to the trace, whatever came before. */
  lemma ShiftVisit(before: seq<Effect>, f: Filter, s: LoopState, repo: Repo, u: Upstream)
    ensures BackstopStep(Shift(before, s), repo, u) == Shift(before, BackstopStep(s, repo, u))
    ensures VisitStep(f, Shift(before, s), repo, u) == Shift(before, VisitStep(f, s, repo, u))
  {
    ShiftBackstop(before, s, repo, u);
    ShiftRelease(before, f, BackstopStep(s, repo, u), repo, u);
  }

  lemma Append(before: seq<Effect>, trace: seq<Effect>, e: Effect)
    ensures before + (trace + [e]) == before + trace + [e]
  {
  }

  lemma ShiftBackstop(before: seq<Effect>, s: LoopState, repo: Repo, u: Upstream)
    ensures BackstopStep(Shift(before, s), repo, u) == Shift(before, BackstopStep(s, repo, u))
  {
    Append(before, s.trace, Dispatch(repo.Key(), repo.Short(), BackstopTag(s.repos, repo.Key(), u.tags), u.dispatchOk));
  }

  lemma ShiftRelease(before: seq<Effect>, f: Filter, s: LoopState, repo: Repo, u: Upstream)
    ensures ReleaseStep(f, Shift(before, s), repo, u) == Shift(before, ReleaseStep(f, s, repo, u))
  {
    match Gather(u)
    case Release(head, version, bullets, config) =>
      var key := repo.Key();
      var reason := Skip(f, InputOf(repo, Gather(u)), s.repos);
      Append(before, s.trace, FilterSkip(key, head, reason));
      Append(before, s.trace, Create(key, repo.owner, repo.name, head, version, u.sendOk));
    case Prune =>
      Append(before, s.trace, Dropped(repo.Key()));
    case _ =>
  }

  lemma AfterStart(f: Filter, c: Repos, repos: seq<Repo>, us: nat -> Upstream)
    ensures After(f, c, repos, us, 0) == LoopState(c, [], Running)
  {
  }

  lemma AfterStep(f: Filter, c: Repos, repos: seq<Repo>, us: nat -> Upstream, n: nat)
    requires n < |repos|
    ensures var s := After(f, c, repos, us, n);
            After(f, c, repos, us, n + 1) == if s.outcome.Running? then VisitStep(f, s, repos[n], us(n)) else s
  {
    hide VisitStep;
  }

  /** A loop that has left stays where it left. */
  lemma {:induction false} LoopStopped(f: Filter, c: Repos, repos: seq<Repo>, us: nat -> Upstream, n: nat)
    requires n <= |repos| && !After(f, c, repos, us, n).outcome.Running?
    ensures Processed(f, c, repos, us) == After(f, c, repos, us, n)
    decreases |repos| - n
  {
    if n < |repos| {
      LoopStopped(f, c, repos, us, n + 1);
    }
  }

  // ---- The whole cycle ----

  /** The watcher's fixed settings. */
  datatype Config = Config(owner: string, filter: Filter, quotaMinRemaining: int)

  /** Everything the outside world answers during one cycle. */
  datatype World = World(remaining: int, listing: Reply<seq<Repo>>, us: nat -> Upstream, saveFault: SaveFault)

  /** How Poll ends: a nil return, the load error, or the panic of the changelog scanner. */
  datatype PollEnd = Returned | LoadError | Crashed

  datatype PollResult = PollResult(file: FileState, trace: seq<Effect>, end: PollEnd)

  predicate QuotaGate(cfg: Config, scope: string, remaining: int) {
    scope == "" && cfg.quotaMinRemaining > 0 && 0 < remaining < cfg.quotaMinRemaining
  }

  /** The repositories of a cycle, or the label of a listing that failed ("" for a foreign scope). */
  datatype Resolved = Repositories(repos: seq<Repo>) | Unresolved(result: string)

  function Resolve(cfg: Config, scope: string, listing: Reply<seq<Repo>>): Resolved {
    if scope != "" then
      match ScopeRepo(scope, cfg.owner)
      case None => Unresolved("")
      case Some(repo) => Repositories([repo])
    else
      match listing
      case Ok(repos) => Repositories(repos)
      case RateLimited => Unresolved("rate_limited")
      case Failed => Unresolved("github_error")
  }

  ghost function PollSpec(cfg: Config, file: FileState, force: bool, scope: string, w: World): PollResult {
    match Loaded(file)
    case None => PollResult(file, [], LoadError)
    case Some(c) =>
      if QuotaGate(cfg, scope, w.remaining) then PollResult(file, [CycleLabel("quota_low")], Returned)
      else
        match Resolve(cfg, scope, w.listing)
        case Unresolved(result) => PollResult(file, if result == "" then [] else [CycleLabel(result)], Returned)
        case Repositories(repos) => ScanSpec(cfg, file, c, repos, force, w)
  }

  /** The walk over known repositories; the cursor is saved only when the walk was not aborted. */
  ghost function ScanSpec(cfg: Config, file: FileState, c: Repos, repos: seq<Repo>, force: bool, w: World): PollResult {
    var s := Processed(CycleFilter(cfg.filter, force), c, repos, w.us);
    PollResult(
      if Saves(s.outcome) then AfterSave(file, s.repos, w.saveFault) else file,
      [Scanned(|repos|)] + s.trace + LabelOf(s.outcome),
      if s.outcome.Panicked? then Crashed else Returned)
  }

  predicate Saves(outcome: Outcome) {
    outcome.Running? || outcome.Cancelled?
  }

  /** The cycle label a walk ends with. */
  function LabelOf(outcome: Outcome): seq<Effect> {
    match outcome
    case Panicked => []
    case Aborted(reason) => [CycleLabel(reason)]
    case _ => [CycleLabel("success")]
  }

  /** A reading that takes nothing from the counters takes from a scan what it takes from its walk. */
  lemma CountersReadNothing<T>(f: Effect -> seq<T>, n: nat, inner: seq<Effect>, outcome: Outcome)
    requires f(Scanned(n)) == [] && forall result :: f(CycleLabel(result)) == []
    ensures FlatMap(f, [Scanned(n)] + inner + LabelOf(outcome)) == FlatMap(f, inner)
  {
    FlatMapConcat(f, [Scanned(n)] + inner, LabelOf(outcome));
    FlatMapConcat(f, [Scanned(n)], inner);
    FlatMapSingle(f, Scanned(n));
    if LabelOf(outcome) != [] {
      var result := LabelOf(outcome)[0].result;
      assert LabelOf(outcome) == [CycleLabel(result)];
      FlatMapSingle(f, CycleLabel(result));
    }
  }

  // ---- The command executor ----

  /** A trigger-release-check command. */
  datatype Command = Command(scope: string, force: bool, tag: string)

  datatype ExecResult = ExecResult(file: FileState, trace: seq<Effect>, end: ExecEnd)

  /** How the executor ends: success, a retried error, or a panic. */
  datatype ExecEnd = Success | Retried | ExecCrashed

  /** A tag is dispatched first; a failed dispatch keeps the cycle from running. */
  ghost function ExecSpec(cfg: Config, file: FileState, cmd: Command, dispatchOk: bool, w: World): ExecResult {
    var dispatched := if cmd.tag == "" then [] else [Dispatch("", cmd.scope, cmd.tag, dispatchOk)];
    if cmd.tag != "" && !dispatchOk then ExecResult(file, dispatched, Retried)
    else
      var p := PollSpec(cfg, file, cmd.force, cmd.scope, w);
      ExecResult(p.file, dispatched + p.trace,
                 match p.end case Returned => Success case LoadError => Retried case Crashed => ExecCrashed)
  }
}
