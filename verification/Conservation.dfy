/** What becomes of every repository of a cycle, and how many cycle labels a poll emits. */
module Conservation {
  import opened Domain
  import opened Traces
  import opened Codecs
  import opened Filters
  import opened Cursor
  import opened Cycle
  import Changelog

  /** An effect that ends a repository's visit. */
  predicate IsVerdict(e: Effect) {
    e.Create? || e.FilterSkip? || e.Dropped?
  }

  /** The key whose visit an effect ends. */
  function VerdictOf(e: Effect): seq<string> {
    if IsVerdict(e) then [e.key] else []
  }

  /** The keys whose visits ended, in order. */
  function VerdictKeys(trace: seq<Effect>): seq<string> {
    FlatMap(VerdictOf, trace)
  }

  lemma VerdictAppend(trace: seq<Effect>, e: Effect)
    ensures VerdictKeys(trace + [e]) == VerdictKeys(trace) + if IsVerdict(e) then [e.key] else []
  {
    FlatMapAppend(VerdictOf, trace, e);
  }

  /** A visit that does not end: a cancelled context, a rate limit, or the scanner's panic. */
  ghost predicate Stops(u: Upstream) {
    u.cancelled || Gather(u).Abort? || Gather(u).Panic?
  }

  ghost function OutcomeOf(u: Upstream): Outcome {
    if u.cancelled then Cancelled
    else match Gather(u) case Abort(reason) => Aborted(reason) case Panic => Panicked case _ => Running
  }

  lemma VisitVerdict(f: Filter, s: LoopState, repo: Repo, u: Upstream)
    requires s.outcome.Running?
    ensures var s' := VisitStep(f, s, repo, u);
            && s'.outcome == OutcomeOf(u)
            && VerdictKeys(s'.trace) == VerdictKeys(s.trace) + if Stops(u) then [] else [repo.Key()]
  {
    hide Repo.Key, Gather, Skip, BackstopTag, ReleaseStep;
    if !u.cancelled {
      var key := repo.Key();
      var tag := BackstopTag(s.repos, key, u.tags);
      VerdictAppend(s.trace, Dispatch(key, repo.Short(), tag, u.dispatchOk));
      ReleaseVerdict(f, BackstopStep(s, repo, u), repo, u);
    }
  }

  lemma ReleaseVerdict(f: Filter, s: LoopState, repo: Repo, u: Upstream)
    requires !u.cancelled && s.outcome.Running?
    ensures var s' := ReleaseStep(f, s, repo, u);
            && s'.outcome == OutcomeOf(u)
            && VerdictKeys(s'.trace) == VerdictKeys(s.trace) + if Stops(u) then [] else [repo.Key()]
  {
    hide Repo.Key, Skip, Changelog.Parse, VerdictKeys;
    var key := repo.Key();
    match Gather(u)
    case Release(head, version, bullets, config) =>
      VerdictAppend(s.trace, FilterSkip(key, head, Skip(f, InputOf(repo, Gather(u)), s.repos)));
      VerdictAppend(s.trace, Create(key, repo.owner, repo.name, head, version, u.sendOk));
    case Prune =>
      VerdictAppend(s.trace, Dropped(key));
    case _ =>
  }

  /** m is the number of repositories whose visit ends before the first one that stops the walk. */
  ghost predicate StopsAt(us: nat -> Upstream, n: nat, m: nat) {
    m <= n && (forall i: nat | i < m :: !Stops(us(i))) && (m < n ==> Stops(us(m)))
  }

  function KeysOf(repos: seq<Repo>): seq<string> {
    seq(|repos|, i requires 0 <= i < |repos| => repos[i].Key())
  }

  /** The walk over the first n repositories accounts for the first m of them. */
  ghost predicate Accounts(repos: seq<Repo>, us: nat -> Upstream, n: nat, m: nat, s: LoopState)
    requires n <= |repos|
  {
    && StopsAt(us, n, m)
    && VerdictKeys(s.trace) == KeysOf(repos[..m])
    && s.outcome == (if m < n then OutcomeOf(us(m)) else Running)
    && (s.outcome.Running? <==> m == n)
  }

  lemma AccountsStart(repos: seq<Repo>, us: nat -> Upstream, c: Repos)
    ensures Accounts(repos, us, 0, 0, LoopState(c, [], Running))
  {
  }

  lemma AccountsStep(repos: seq<Repo>, us: nat -> Upstream, n: nat, m: nat, s: LoopState, s': LoopState)
    requires n < |repos| && Accounts(repos, us, n, m, s)
    requires m < n ==> s' == s
    requires m == n ==>
               && s'.outcome == OutcomeOf(us(n))
               && VerdictKeys(s'.trace) == VerdictKeys(s.trace) + if Stops(us(n)) then [] else [repos[n].Key()]
    ensures Accounts(repos, us, n + 1, if m == n && !Stops(us(n)) then n + 1 else m, s')
  {
    assert KeysOf(repos[..n + 1]) == KeysOf(repos[..n]) + [repos[n].Key()];
  }

  /** Conservation: each repository before the first stopping one ends in exactly one create, error, skip
      or drop, in list order; the walk covers the whole list exactly when none stops it, and otherwise
      ends for the stopping repository's reason. */
  lemma {:induction false} WalkConserves(f: Filter, c: Repos, repos: seq<Repo>, us: nat -> Upstream, n: nat)
    returns (m: nat)
    requires n <= |repos|
    ensures Accounts(repos, us, n, m, After(f, c, repos, us, n))
  {
    hide Repo.Key, VisitStep, Stops, OutcomeOf, KeysOf, VerdictKeys;
    m := 0;
    if n == 0 {
      AccountsStart(repos, us, c);
    } else {
      m := WalkConserves(f, c, repos, us, n - 1);
      var s := After(f, c, repos, us, n - 1);
      if m == n - 1 {
        VisitVerdict(f, s, repos[n - 1], us(n - 1));
      }
      AccountsStep(repos, us, n - 1, m, s, After(f, c, repos, us, n));
      m := if m == n - 1 && !Stops(us(n - 1)) then n else m;
    }
  }

  // ---- Crashes ----

  /** Everything the visit reads arrives, and the changelog holds a heading of blanks. */
  ghost predicate ReadsBlankHeading(u: Upstream) {
    && !u.cancelled && u.head.Ok? && u.changelog.Ok? && u.config.Ok?
    && exists i :: 0 <= i < |u.changelog.value| && Changelog.IsBlankHeading(u.changelog.value[i])
  }

  lemma PanicsExactly(u: Upstream)
    ensures OutcomeOf(u).Panicked? <==> ReadsBlankHeading(u)
  {
    hide Changelog.Parse, Changelog.IsBlankHeading;
    if u.changelog.Ok? {
      Changelog.TotalExactly(u.changelog.value);
    }
  }

  /** Some visit reads a heading of blanks and no visit before it stops the walk. */
  ghost predicate MeetsBlankHeading(repos: seq<Repo>, us: nat -> Upstream) {
    exists m: nat :: m < |repos| && ReadsBlankHeading(us(m)) && forall i: nat | i < m :: !Stops(us(i))
  }

  lemma WalkPanicsExactly(f: Filter, c: Repos, repos: seq<Repo>, us: nat -> Upstream)
    ensures Processed(f, c, repos, us).outcome.Panicked? <==> MeetsBlankHeading(repos, us)
  {
    hide ReadsBlankHeading, Gather, After, VerdictKeys, KeysOf;
    var m := WalkConserves(f, c, repos, us, |repos|);
    if m < |repos| {
      PanicsExactly(us(m));
    }
    if MeetsBlankHeading(repos, us) {
      var k: nat :| k < |repos| && ReadsBlankHeading(us(k)) && forall i: nat | i < k :: !Stops(us(i));
      PanicsExactly(us(k));
      assert Stops(us(k));
      assert m == k;
    }
  }

  /** A poll crashes exactly when its cursor loads, it is neither deferred nor without repositories to walk,
      and its walk meets a heading of blanks. */
  lemma PollCrashesExactly(cfg: Config, file: FileState, force: bool, scope: string, w: World)
    ensures PollSpec(cfg, file, force, scope, w).end.Crashed? <==>
            && Loaded(file).Some? && !QuotaGate(cfg, scope, w.remaining)
            && Resolve(cfg, scope, w.listing).Repositories?
            && MeetsBlankHeading(Resolve(cfg, scope, w.listing).repos, w.us)
  {
    hide Processed, MeetsBlankHeading;
    if Loaded(file).Some? && Resolve(cfg, scope, w.listing).Repositories? {
      WalkPanicsExactly(CycleFilter(cfg.filter, force), Loaded(file).value, Resolve(cfg, scope, w.listing).repos, w.us);
    }
  }

  /** One line is enough: a scoped poll of a repository whose changelog is "## " crashes. */
  lemma BlankHeadingCrashesPoll(cfg: Config, file: FileState, force: bool, repo: Repo, us: nat -> Upstream,
                                remaining: int)
    requires Loaded(file).Some?
    requires '/' !in cfg.owner && '/' !in repo.name && repo.name != "" && repo.owner == cfg.owner
    requires us(0).head.Ok? && us(0).changelog == Ok(["## "]) && us(0).config.Ok? && !us(0).cancelled
    ensures PollSpec(cfg, file, force, repo.Short(), World(remaining, Failed, us, NoFault)).end.Crashed?
  {
    hide ScopeRepo;
    var scoped := Repo(repo.owner, repo.name, "", false);
    ScopeRepoExact(repo.Short(), cfg.owner, scoped);
    assert Changelog.IsBlankHeading(us(0).changelog.value[0]);
    assert ReadsBlankHeading(us(0));
    PollCrashesExactly(cfg, file, force, repo.Short(), World(remaining, Failed, us, NoFault));
  }

  // ---- Counters ----

  datatype Counters = Counters(creates: nat, errors: nat, skips: nat, drops: nat)

  /** The counters the effects add up to. */
  function CountersOf(trace: seq<Effect>): Counters {
    if trace == [] then Counters(0, 0, 0, 0)
    else
      var k := CountersOf(trace[..|trace| - 1]);
      match trace[|trace| - 1]
      case Create(_, _, _, _, _, ok) => if ok then k.(creates := k.creates + 1) else k.(errors := k.errors + 1)
      case FilterSkip(_, _, _) => k.(skips := k.skips + 1)
      case Dropped(_) => k.(drops := k.drops + 1)
      case _ => k
  }

  lemma {:induction false} CountersAddUp(trace: seq<Effect>)
    ensures var k := CountersOf(trace); k.creates + k.errors + k.skips + k.drops == |VerdictKeys(trace)|
  {
    if trace != [] {
      CountersAddUp(trace[..|trace| - 1]);
    }
  }

  predicate IsSent(e: Effect) { e.Create? && e.ok }

  predicate IsSendError(e: Effect) { e.Create? && !e.ok }

  predicate IsSkip(e: Effect) { e.FilterSkip? }

  predicate IsDrop(e: Effect) { e.Dropped? }

  function Positions(trace: seq<Effect>, p: Effect -> bool): set<nat> {
    set i: nat | i < |trace| && p(trace[i])
  }

  /** At how many positions the trace has such an effect. */
  function Count(trace: seq<Effect>, p: Effect -> bool): nat {
    |Positions(trace, p)|
  }

  /** Each counter is the number of its effects: sent commands, failed sends, filter skips, drops. */
  lemma {:induction false} CountersAreCounts(trace: seq<Effect>)
    ensures CountersOf(trace) ==
            Counters(Count(trace, IsSent), Count(trace, IsSendError), Count(trace, IsSkip), Count(trace, IsDrop))
  {
    if trace != [] {
      hide Count;
      CountersAreCounts(trace[..|trace| - 1]);
      CountStep(trace, IsSent);
      CountStep(trace, IsSendError);
      CountStep(trace, IsSkip);
      CountStep(trace, IsDrop);
    } else {
      CountNothing(IsSent);
      CountNothing(IsSendError);
      CountNothing(IsSkip);
      CountNothing(IsDrop);
    }
  }

  lemma CountNothing(p: Effect -> bool)
    ensures Count([], p) == 0
  {
  }

  lemma PositionsStep(trace: seq<Effect>, p: Effect -> bool)
    requires trace != []
    ensures var n := |trace| - 1;
            n !in Positions(trace[..n], p)
            && Positions(trace, p) == if p(trace[n]) then Positions(trace[..n], p) + {n} else Positions(trace[..n], p)
  {
    var n := |trace| - 1;
    forall i: nat
      ensures i in Positions(trace, p) <==> i in Positions(trace[..n], p) || (i == n && p(trace[n]))
    {
      if i < n {
        assert trace[..n][i] == trace[i];
      }
    }
  }

  lemma CountStep(trace: seq<Effect>, p: Effect -> bool)
    requires trace != []
    ensures var n := |trace| - 1;
            Count(trace, p) == Count(trace[..n], p) + if p(trace[n]) then 1 else 0
  {
    hide Positions;
    PositionsStep(trace, p);
  }

  /** A completed walk accounts for every repository of its list. */
  lemma CompletedWalkCounts(f: Filter, c: Repos, repos: seq<Repo>, us: nat -> Upstream)
    ensures var s := Processed(f, c, repos, us);
            var k := CountersOf(s.trace);
            && k.creates + k.errors + k.skips + k.drops <= |repos|
            && (s.outcome.Running? <==> k.creates + k.errors + k.skips + k.drops == |repos|)
  {
    var m := WalkConserves(f, c, repos, us, |repos|);
    CountersAddUp(Processed(f, c, repos, us).trace);
  }

  // ---- Cycle labels ----

  /** The label an effect counts. */
  function LabelIn(e: Effect): seq<string> {
    if e.CycleLabel? then [e.result] else []
  }

  function Labels(trace: seq<Effect>): seq<string> {
    FlatMap(LabelIn, trace)
  }

  lemma {:induction false} WalkHasNoLabel(f: Filter, c: Repos, repos: seq<Repo>, us: nat -> Upstream, n: nat)
    requires n <= |repos|
    ensures Labels(After(f, c, repos, us, n).trace) == []
  {
    hide Repo.Key, BackstopStep, ReleaseStep, Labels;
    if n == 0 {
      SingleLabel("");
    } else {
      WalkHasNoLabel(f, c, repos, us, n - 1);
      var s := After(f, c, repos, us, n - 1);
      BackstopHasNoLabel(s, repos[n - 1], us(n - 1));
      ReleaseHasNoLabel(f, BackstopStep(s, repos[n - 1], us(n - 1)), repos[n - 1], us(n - 1));
    }
  }

  lemma BackstopHasNoLabel(s: LoopState, repo: Repo, u: Upstream)
    ensures Labels(BackstopStep(s, repo, u).trace) == Labels(s.trace)
  {
    hide Repo.Key;
    var key := repo.Key();
    LabelAppend(s.trace, Dispatch(key, repo.Short(), BackstopTag(s.repos, key, u.tags), u.dispatchOk));
  }

  lemma ReleaseHasNoLabel(f: Filter, s: LoopState, repo: Repo, u: Upstream)
    ensures Labels(ReleaseStep(f, s, repo, u).trace) == Labels(s.trace)
  {
    hide Repo.Key, Skip, Changelog.Parse, Labels;
    var key := repo.Key();
    match Gather(u)
    case Release(head, version, bullets, config) =>
      LabelAppend(s.trace, FilterSkip(key, head, Skip(f, InputOf(repo, Gather(u)), s.repos)));
      LabelAppend(s.trace, Create(key, repo.owner, repo.name, head, version, u.sendOk));
    case Prune =>
      LabelAppend(s.trace, Dropped(key));
    case _ =>
  }

  lemma LabelAppend(trace: seq<Effect>, e: Effect)
    requires !e.CycleLabel?
    ensures Labels(trace + [e]) == Labels(trace)
  {
    FlatMapAppend(LabelIn, trace, e);
  }

  lemma {:induction false} AbortIsRateLimited(f: Filter, c: Repos, repos: seq<Repo>, us: nat -> Upstream, n: nat)
    requires n <= |repos|
    ensures After(f, c, repos, us, n).outcome.Aborted? ==> After(f, c, repos, us, n).outcome.reason == "rate_limited"
  {
    var m := WalkConserves(f, c, repos, us, n);
  }

  /** A poll with a loadable cursor emits exactly one cycle label, unless its scope is foreign or the
      changelog scanner panics, when it emits none. "success" is emitted exactly when a save was tried. */
  lemma OneLabelPerCycle(cfg: Config, file: FileState, force: bool, scope: string, w: World)
    requires Loaded(file).Some?
    ensures var p := PollSpec(cfg, file, force, scope, w);
            if p.end.Crashed? || (scope != "" && ScopeRepo(scope, cfg.owner).None?) then Labels(p.trace) == []
            else
              && |Labels(p.trace)| == 1
              && Labels(p.trace)[0] in {"quota_low", "rate_limited", "github_error", "success"}
    ensures PollSpec(cfg, file, force, scope, w).file != file ==>
              Labels(PollSpec(cfg, file, force, scope, w).trace) == ["success"]
  {
    var p := PollSpec(cfg, file, force, scope, w);
    if QuotaGate(cfg, scope, w.remaining) {
      SingleLabel("quota_low");
    } else {
      match Resolve(cfg, scope, w.listing)
      case Unresolved(result) => SingleLabel(result);
      case Repositories(repos) => ScanLabels(cfg, file, Loaded(file).value, repos, force, w);
    }
  }

  lemma SingleLabel(result: string)
    ensures Labels([CycleLabel(result)]) == [result]
    ensures Labels([]) == []
  {
    FlatMapSingle(LabelIn, CycleLabel(result));
  }

  lemma ScanLabels(cfg: Config, file: FileState, c: Repos, repos: seq<Repo>, force: bool, w: World)
    ensures Labels(ScanSpec(cfg, file, c, repos, force, w).trace) ==
            match Processed(CycleFilter(cfg.filter, force), c, repos, w.us).outcome
            case Panicked => []
            case Aborted(_) => ["rate_limited"]
            case _ => ["success"]
  {
    var f := CycleFilter(cfg.filter, force);
    var s := Processed(f, c, repos, w.us);
    WalkHasNoLabel(f, c, repos, w.us, |repos|);
    AbortIsRateLimited(f, c, repos, w.us, |repos|);
    FlatMapConcat(LabelIn, [Scanned(|repos|)], s.trace);
    FlatMapConcat(LabelIn, [Scanned(|repos|)] + s.trace, LabelOf(s.outcome));
    FlatMapSingle(LabelIn, Scanned(|repos|));
    SingleLabel("success");
    SingleLabel("rate_limited");
  }
}
