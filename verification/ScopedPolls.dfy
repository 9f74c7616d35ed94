/** A full poll against scoped polls of the same repositories, one after another. */
module ScopedPolls {
  import opened Domain
  import opened Traces
  import opened Codecs
  import opened Filters
  import opened Cursor
  import opened Cycle
  import opened LoopFrame

  /** Upstream as a fixed snapshot: what each repository key answers, whenever it is asked. */
  type Snapshot = string -> Upstream

  /** The answers a walk over a list gets from a snapshot. */
  function Replies(repos: seq<Repo>, snap: Snapshot): nat -> Upstream {
    (i: nat) => snap(if i < |repos| then repos[i].Key() else "")
  }

  /** The repository a webhook scope names: nothing but owner and name is known. */
  function Scoped(repo: Repo): Repo {
    Repo(repo.owner, repo.name, "", false)
  }

  /** The visit ends without stopping the walk. */
  ghost predicate Steady(u: Upstream) {
    !u.cancelled && !Gather(u).Abort? && !Gather(u).Panic?
  }

  /** The fork gate cannot tell the listed repository from the scoped one. */
  ghost predicate ForkIrrelevant(repo: Repo, u: Upstream) {
    repo.fork && u.config.Ok? ==> u.config.value.allowFork
  }

  /** A repository as the fleet listing of the watcher's owner gives it. */
  predicate InFleet(cfg: Config, repo: Repo) {
    repo.owner == cfg.owner && '/' !in repo.owner && '/' !in repo.name && repo.name != ""
  }

  function WorkIn(e: Effect): seq<Effect> {
    if e.Scanned? || e.CycleLabel? then [] else [e]
  }

  /** The walk's own effects: everything but the counters of the cycle around it. */
  function Work(trace: seq<Effect>): seq<Effect> {
    FlatMap(WorkIn, trace)
  }

  lemma {:induction false} WorkOfWork(trace: seq<Effect>)
    requires forall e | e in trace :: !e.Scanned? && !e.CycleLabel?
    ensures Work(trace) == trace
  {
    if trace != [] {
      WorkOfWork(trace[..|trace| - 1]);
    }
  }

  lemma ScanWork(n: nat, inner: seq<Effect>, outcome: Outcome)
    requires forall e | e in inner :: !e.Scanned? && !e.CycleLabel?
    ensures Work([Scanned(n)] + inner + LabelOf(outcome)) == inner
  {
    CountersReadNothing(WorkIn, n, inner, outcome);
    WorkOfWork(inner);
  }

  datatype Progress = Progress(file: FileState, work: seq<Effect>)

  /** The world of a scoped poll whose save succeeds: the listing is never asked for. */
  function Unlisted(us: nat -> Upstream): World {
    World(0, Failed, us, NoFault)
  }

  /** n scoped polls, each loading and saving the cursor. */
  ghost function ScopedRun(cfg: Config, file: FileState, force: bool, repos: seq<Repo>, snap: Snapshot,
                           n: nat): Progress
    requires n <= |repos|
  {
    if n == 0 then Progress(file, [])
    else
      var before := ScopedRun(cfg, file, force, repos, snap, n - 1);
      var scoped := Scoped(repos[n - 1]);
      var p := PollSpec(cfg, before.file, force, scoped.Short(), Unlisted(Replies([scoped], snap)));
      Progress(p.file, before.work + Work(p.trace))
  }

  // ---- One visit ----

  /** The fork flag matters to a visit exactly when the fork gate is what skips it. */
  lemma ForkFlagMatters(allowed: string -> bool, force: bool, s: LoopState, repo: Repo, u: Upstream)
    requires Steady(u) && s.outcome.Running?
    ensures VisitStep(CycleFilter(StaticFilters(allowed), force), s, repo, u) ==
            VisitStep(CycleFilter(StaticFilters(allowed), force), s, Scoped(repo), u)
            <==>
            !(&& repo.fork && Gather(u).Release? && allowed(repo.Key()) && Gather(u).bullets > 0
              && Gather(u).config.autoRelease && !Gather(u).config.allowFork)
  {
    var f := CycleFilter(StaticFilters(allowed), force);
    assert Scoped(repo).Key() == repo.Key() && Scoped(repo).Short() == repo.Short();
    var b := BackstopStep(s, repo, u);
    assert BackstopStep(s, Scoped(repo), u) == b;
    if Gather(u).Release? {
      var listed, scoped := InputOf(repo, Gather(u)), InputOf(Scoped(repo), Gather(u));
      CycleReason(StaticFilters(allowed), force, listed, b.repos);
      CycleReason(StaticFilters(allowed), force, scoped, b.repos);
      StaticReason(allowed, listed, b.repos);
      StaticReason(allowed, scoped, b.repos);
      DecidesByReason(f, b, repo, u);
      DecidesByReason(f, b, Scoped(repo), u);
    }
  }

  /** The last effect of a release visit shows the filter's decision. */
  lemma DecidesByReason(f: Filter, b: LoopState, repo: Repo, u: Upstream)
    requires Gather(u).Release?
    ensures var reason := Skip(f, InputOf(repo, Gather(u)), b.repos);
            var trace := ReleaseStep(f, b, repo, u).trace;
            && |trace| == |b.trace| + 1
            && trace[|b.trace|] ==
               if reason != "" then FilterSkip(repo.Key(), Gather(u).head, reason)
               else Create(repo.Key(), repo.owner, repo.name, Gather(u).head, Gather(u).version, u.sendOk)
  {
  }

  lemma ForkIrrelevantVisit(allowed: string -> bool, force: bool, s: LoopState, repo: Repo, u: Upstream)
    requires Steady(u) && s.outcome.Running? && ForkIrrelevant(repo, u)
    ensures VisitStep(CycleFilter(StaticFilters(allowed), force), s, Scoped(repo), u) ==
            VisitStep(CycleFilter(StaticFilters(allowed), force), s, repo, u)
  {
    ForkFlagMatters(allowed, force, s, repo, u);
  }

  // ---- Whole runs ----

  /** The repositories on which the two ways of polling can be compared. */
  ghost predicate Comparable(cfg: Config, repos: seq<Repo>, snap: Snapshot) {
    forall r | r in repos :: InFleet(cfg, r) && Steady(snap(r.Key())) && ForkIrrelevant(r, snap(r.Key()))
  }

  lemma {:induction false} SteadyWalkRuns(f: Filter, c: Repos, repos: seq<Repo>, us: nat -> Upstream, n: nat)
    requires n <= |repos| && forall i: nat | i < n :: Steady(us(i))
    ensures After(f, c, repos, us, n).outcome == Running
  {
    hide VisitStep;
    if n > 0 {
      SteadyWalkRuns(f, c, repos, us, n - 1);
      SteadyVisitRuns(f, After(f, c, repos, us, n - 1), repos[n - 1], us(n - 1));
    }
  }

  lemma SteadyVisitRuns(f: Filter, s: LoopState, repo: Repo, u: Upstream)
    requires Steady(u) && s.outcome.Running?
    ensures VisitStep(f, s, repo, u).outcome.Running?
  {
    hide BackstopTag, Skip;
  }

  /** One scoped poll does to the saved cursor what the full walk's visit does to the live one. */
  lemma ScopedPollIsAVisit(cfg: Config, allowed: string -> bool, file: FileState, force: bool, repo: Repo,
                           snap: Snapshot, s: LoopState)
    requires cfg.filter == StaticFilters(allowed)
    requires Comparable(cfg, [repo], snap)
    requires Loaded(file) == Some(s.repos) && s.outcome.Running?
    ensures var p := PollSpec(cfg, file, force, Scoped(repo).Short(), Unlisted(Replies([Scoped(repo)], snap)));
            var s' := VisitStep(CycleFilter(cfg.filter, force), s, repo, snap(repo.Key()));
            && p.file == Stored(s'.repos)
            && s'.trace == s.trace + Work(p.trace)
            && s'.outcome.Running?
  {
    hide VisitStep, Steady, ForkIrrelevant;
    var scoped, u := Scoped(repo), snap(repo.Key());
    var f := CycleFilter(cfg.filter, force);
    assert repo in [repo];
    ScopedPollScans(cfg, file, force, repo, s.repos, snap);
    var start := LoopState(s.repos, [], Running);
    ForkIrrelevantVisit(allowed, force, start, repo, u);
    ShiftVisit(s.trace, f, start, repo, u);
    assert s == Shift(s.trace, start);
    VisitEffects(f, start, repo, u);
    SteadyVisitRuns(f, start, repo, u);
    var inner := VisitStep(f, start, repo, u);
    ScanWork(1, inner.trace, inner.outcome);
  }

  /** A scoped poll is one visit between its counters. */
  lemma ScopedPollScans(cfg: Config, file: FileState, force: bool, repo: Repo, c: Repos, snap: Snapshot)
    requires InFleet(cfg, repo) && Loaded(file) == Some(c)
    ensures var s := VisitStep(CycleFilter(cfg.filter, force), LoopState(c, [], Running), Scoped(repo),
                               snap(repo.Key()));
            var p := PollSpec(cfg, file, force, Scoped(repo).Short(), Unlisted(Replies([Scoped(repo)], snap)));
            && p.trace == [Scanned(1)] + s.trace + LabelOf(s.outcome)
            && p.file == if Saves(s.outcome) then Stored(s.repos) else file
  {
    hide VisitStep, ScopeRepo;
    var scoped := Scoped(repo);
    ScopeRepoExact(scoped.Short(), cfg.owner, scoped);
    assert scoped.Short() != "";
    var f, us := CycleFilter(cfg.filter, force), Replies([scoped], snap);
    assert scoped.Key() == repo.Key();
    assert After(f, c, [scoped], us, 0) == LoopState(c, [], Running);
    assert Processed(f, c, [scoped], us) == VisitStep(f, LoopState(c, [], Running), scoped, us(0));
  }

  /** Scoped polls in sequence end with the cursor and the effects of the full walk. */
  lemma {:induction false} ScopedRunIsTheWalk(cfg: Config, allowed: string -> bool, file: FileState, force: bool,
                                              repos: seq<Repo>, snap: Snapshot, n: nat)
    requires n <= |repos| && cfg.filter == StaticFilters(allowed)
    requires Loaded(file).Some? && Comparable(cfg, repos, snap)
    ensures var s := After(CycleFilter(cfg.filter, force), Loaded(file).value, repos, Replies(repos, snap), n);
            var r := ScopedRun(cfg, file, force, repos, snap, n);
            Loaded(r.file) == Some(s.repos) && r.work == s.trace && s.outcome.Running?
  {
    hide Repo.Key, VisitStep, PollSpec, Work;
    if n > 0 {
      ScopedRunIsTheWalk(cfg, allowed, file, force, repos, snap, n - 1);
      var s := After(CycleFilter(cfg.filter, force), Loaded(file).value, repos, Replies(repos, snap), n - 1);
      var r := ScopedRun(cfg, file, force, repos, snap, n - 1);
      assert repos[n - 1] in repos;
      ScopedPollIsAVisit(cfg, allowed, r.file, force, repos[n - 1], snap, s);
    }
  }

  /** A full poll equals the scoped polls of the listed repositories, one after another: the same cursor
      for the next cycle, and the same commands, dispatches, skips and drops in the same order. */
  lemma FullPollIsScopedPolls(cfg: Config, allowed: string -> bool, file: FileState, force: bool,
                              repos: seq<Repo>, snap: Snapshot, remaining: int)
    requires cfg.filter == StaticFilters(allowed)
    requires Loaded(file).Some? && Comparable(cfg, repos, snap) && !QuotaGate(cfg, "", remaining)
    ensures var full := PollSpec(cfg, file, force, "", World(remaining, Ok(repos), Replies(repos, snap), NoFault));
            var scoped := ScopedRun(cfg, file, force, repos, snap, |repos|);
            Loaded(full.file) == Loaded(scoped.file) && Work(full.trace) == scoped.work
  {
    var f, c := CycleFilter(cfg.filter, force), Loaded(file).value;
    ScopedRunIsTheWalk(cfg, allowed, file, force, repos, snap, |repos|);
    EffectsAreListed(f, c, repos, Replies(repos, snap), |repos|);
    var s := Processed(f, c, repos, Replies(repos, snap));
    ScanWork(|repos|, s.trace, s.outcome);
  }
}
