/** How often non-overlapping cycles can publish a repository's previous head again. */
module Duplicates {
  import opened Domain
  import opened Traces
  import opened Filters
  import opened Cursor
  import opened Cycle
  import opened Backstop
  import Changelog

  /** The head an effect publishes for a key. */
  function HeadSent(key: string): Effect -> seq<string> {
    (e: Effect) => if e.Create? && e.ok && e.key == key then [e.head] else []
  }

  /** The heads successfully published for a key, in order. */
  function Published(trace: seq<Effect>, key: string): seq<string> {
    FlatMap(HeadSent(key), trace)
  }

  /** How many publishes repeat the one just before. */
  function Repeats(heads: seq<string>): nat {
    if |heads| < 2 then 0
    else
      var n := |heads| - 1;
      Repeats(heads[..n]) + if heads[n] == heads[n - 1] then 1 else 0
  }

  /** 1 when a cursor holding this head would let the last published head through again. */
  function Debt(heads: seq<string>, held: string): nat {
    if heads != [] && heads[|heads| - 1] != held then 1 else 0
  }

  function Occurrences(repos: seq<Repo>, key: string): nat {
    if repos == [] then 0
    else Occurrences(repos[..|repos| - 1], key) + if repos[|repos| - 1].Key() == key then 1 else 0
  }

  lemma PublishedAppend(trace: seq<Effect>, e: Effect, key: string)
    ensures Published(trace + [e], key) ==
            if e.Create? && e.ok && e.key == key then Published(trace, key) + [e.head] else Published(trace, key)
  {
    FlatMapAppend(HeadSent(key), trace, e);
  }

  lemma PublishedConcat(a: seq<Effect>, b: seq<Effect>, key: string)
    ensures Published(a + b, key) == Published(a, key) + Published(b, key)
  {
    FlatMapConcat(HeadSent(key), a, b);
  }

  /** Publishing a head and recording it costs nothing when the cursor did not hold it, and at most one otherwise. */
  lemma PublishCost(heads: seq<string>, held: string, head: string)
    ensures Repeats(heads + [head]) + Debt(heads + [head], head) <=
            Repeats(heads) + Debt(heads, held) + if head == held then 1 else 0
  {
    assert (heads + [head])[..|heads|] == heads;
  }

  /** Repeats and debt after a history and a walk. */
  function Potential(earlier: seq<string>, s: LoopState, key: string): nat {
    var heads := earlier + Published(s.trace, key);
    Repeats(heads) + Debt(heads, LastSeen(s.repos, key))
  }

  /** Between the two states the repository was published at the head the live cursor already held. */
  predicate Bypasses(s: LoopState, s': LoopState, key: string) {
    |Published(s'.trace, key)| > |Published(s.trace, key)| && LastSeen(s'.repos, key) == LastSeen(s.repos, key)
  }

  lemma VisitCost(base: Filter, force: bool, earlier: seq<string>, s: LoopState, repo: Repo, u: Upstream, key: string)
    ensures var s' := VisitStep(CycleFilter(base, force), s, repo, u);
            && Potential(earlier, s', key) <= Potential(earlier, s, key) +
                                              (if force && Bypasses(s, s', key) then 1 else 0)
            && |Published(s'.trace, key)| <= |Published(s.trace, key)| + (if repo.Key() == key then 1 else 0)
  {
    hide Repo.Key, BackstopStep, ReleaseStep, CycleFilter, Potential, Published;
    BackstopCost(earlier, s, repo, u, key);
    ReleaseCost(base, force, earlier, BackstopStep(s, repo, u), repo, u, key);
    CancelCost(earlier, s, key);
  }

  lemma CancelCost(earlier: seq<string>, s: LoopState, key: string)
    ensures Potential(earlier, s.(outcome := Cancelled), key) == Potential(earlier, s, key)
  {
  }

  lemma BackstopCost(earlier: seq<string>, s: LoopState, repo: Repo, u: Upstream, key: string)
    ensures Potential(earlier, BackstopStep(s, repo, u), key) == Potential(earlier, s, key)
    ensures Published(BackstopStep(s, repo, u).trace, key) == Published(s.trace, key)
    ensures LastSeen(BackstopStep(s, repo, u).repos, key) == LastSeen(s.repos, key)
  {
    hide Repo.Key, BackstopTag, Repeats, Debt;
    PublishedAppend(s.trace, Dispatch(repo.Key(), repo.Short(), BackstopTag(s.repos, repo.Key(), u.tags), u.dispatchOk),
                    key);
  }

  lemma ReleaseCost(base: Filter, force: bool, earlier: seq<string>, s: LoopState, repo: Repo, u: Upstream, key: string)
    ensures var s' := ReleaseStep(CycleFilter(base, force), s, repo, u);
            && Potential(earlier, s', key) <= Potential(earlier, s, key) +
                                              (if force && Bypasses(s, s', key) then 1 else 0)
            && |Published(s'.trace, key)| <= |Published(s.trace, key)| + (if repo.Key() == key then 1 else 0)
  {
    hide Repo.Key, Skip, CycleFilter, Repeats, Debt, Published, Changelog.Parse;
    match Gather(u)
    case Release(head, version, bullets, config) =>
      var input := InputOf(repo, Gather(u));
      CycleReason(base, force, input, s.repos);
      var create := Create(repo.Key(), repo.owner, repo.name, head, version, u.sendOk);
      PublishedAppend(s.trace, create, key);
      PublishedAppend(s.trace, FilterSkip(repo.Key(), head, Skip(CycleFilter(base, force), input, s.repos)), key);
      var heads := earlier + Published(s.trace, key);
      PublishCost(heads, LastSeen(s.repos, key), head);
      assert earlier + (Published(s.trace, key) + [head]) == heads + [head];
    case Prune =>
      PublishedAppend(s.trace, Dropped(repo.Key()), key);
    case _ =>
  }

  /** The visits of a walk that publish a repository at the head the live cursor already held. */
  ghost function Bypassed(f: Filter, c: Repos, repos: seq<Repo>, us: nat -> Upstream, n: nat, key: string): nat
    requires n <= |repos|
  {
    if n == 0 then 0
    else
      Bypassed(f, c, repos, us, n - 1, key)
      + if Bypasses(After(f, c, repos, us, n - 1), After(f, c, repos, us, n), key) then 1 else 0
  }

  /** A walk costs one for every visit its missing gate let past, and nothing when it is not forced. */
  lemma {:induction false} WalkCost(base: Filter, force: bool, earlier: seq<string>, c: Repos, repos: seq<Repo>,
                                    us: nat -> Upstream, n: nat, key: string)
    requires n <= |repos|
    ensures Potential(earlier, After(CycleFilter(base, force), c, repos, us, n), key) <=
            Repeats(earlier) + Debt(earlier, LastSeen(c, key))
            + if force then Bypassed(CycleFilter(base, force), c, repos, us, n, key) else 0
  {
    hide Repo.Key, VisitStep, CycleFilter, Bypasses, Potential, Repeats, Debt, After;
    if n == 0 {
      AfterStart(CycleFilter(base, force), c, repos, us);
      StartPotential(earlier, c, key);
    } else {
      AfterStep(CycleFilter(base, force), c, repos, us, n - 1);
      var s := After(CycleFilter(base, force), c, repos, us, n - 1);
      WalkCost(base, force, earlier, c, repos, us, n - 1, key);
      VisitCost(base, force, earlier, s, repos[n - 1], us(n - 1), key);
    }
  }

  lemma StartPotential(earlier: seq<string>, c: Repos, key: string)
    ensures Potential(earlier, LoopState(c, [], Running), key) == Repeats(earlier) + Debt(earlier, LastSeen(c, key))
  {
    hide Repeats, Debt;
    assert earlier + [] == earlier;
  }

  /** Only listed visits publish, so no more visits bypass the gate than the list names the repository. */
  lemma {:induction false} BypassedAreListed(base: Filter, force: bool, c: Repos, repos: seq<Repo>,
                                             us: nat -> Upstream, n: nat, key: string)
    requires n <= |repos|
    ensures var f := CycleFilter(base, force);
            && Bypassed(f, c, repos, us, n, key) <= |Published(After(f, c, repos, us, n).trace, key)|
            && |Published(After(f, c, repos, us, n).trace, key)| <= Occurrences(repos[..n], key)
  {
    hide Repo.Key, VisitStep, CycleFilter, Published, Potential, After;
    NothingPublished(key);
    if n == 0 {
      AfterStart(CycleFilter(base, force), c, repos, us);
    } else {
      AfterStep(CycleFilter(base, force), c, repos, us, n - 1);
      var s := After(CycleFilter(base, force), c, repos, us, n - 1);
      BypassedAreListed(base, force, c, repos, us, n - 1, key);
      VisitCost(base, force, [], s, repos[n - 1], us(n - 1), key);
      PublishedGrows(CycleFilter(base, force), s, repos[n - 1], us(n - 1), key);
      assert repos[..n][..n - 1] == repos[..n - 1];
    }
  }

  lemma PublishedGrows(f: Filter, s: LoopState, repo: Repo, u: Upstream, key: string)
    ensures |Published(s.trace, key)| <= |Published(VisitStep(f, s, repo, u).trace, key)|
  {
    hide Repo.Key, BackstopTag, Skip, Published, Changelog.Parse;
    var b := BackstopStep(s, repo, u);
    PublishedAppend(s.trace, Dispatch(repo.Key(), repo.Short(), BackstopTag(s.repos, repo.Key(), u.tags), u.dispatchOk),
                    key);
    match Gather(u)
    case Release(head, version, bullets, config) =>
      var input := InputOf(repo, Gather(u));
      PublishedAppend(b.trace, FilterSkip(repo.Key(), head, Skip(f, input, b.repos)), key);
      PublishedAppend(b.trace, Create(repo.Key(), repo.owner, repo.name, head, version, u.sendOk), key);
    case Prune =>
      PublishedAppend(b.trace, Dropped(repo.Key()), key);
    case _ =>
  }

  // ---- Histories ----

  /** One step of a history without overlapping cycles. */
  datatype Op =
    | Poll(force: bool, scope: string, w: World)
    | Reset(key: string, fault: SaveFault)
    | Set(key: string, sha: string, fault: SaveFault)

  datatype History = History(file: FileState, trace: seq<Effect>)

  ghost function Run(cfg: Config, file: FileState, ops: seq<Op>): History {
    if ops == [] then History(file, [])
    else
      var h := Run(cfg, file, ops[..|ops| - 1]);
      match ops[|ops| - 1]
      case Poll(force, scope, w) => var p := PollSpec(cfg, h.file, force, scope, w); History(p.file, h.trace + p.trace)
      case Reset(key, fault) => History(AfterReset(h.file, key, fault), h.trace)
      case Set(key, sha, fault) => History(AfterSet(h.file, key, sha, fault), h.trace)
  }

  /** The repositories a poll walks. */
  function Walked(cfg: Config, scope: string, w: World): seq<Repo> {
    if QuotaGate(cfg, scope, w.remaining) then []
    else match Resolve(cfg, scope, w.listing) case Unresolved(_) => [] case Repositories(repos) => repos
  }

  /** The poll walked repositories and threw its cursor away: an abort, a panic, or a failed save. */
  ghost predicate Unsaved(cfg: Config, file: FileState, force: bool, scope: string, w: World) {
    && Loaded(file).Some?
    && !QuotaGate(cfg, scope, w.remaining) && Resolve(cfg, scope, w.listing).Repositories?
    && var s := Processed(CycleFilter(cfg.filter, force), Loaded(file).value, Walked(cfg, scope, w), w.us);
    !Saves(s.outcome) || !w.saveFault.NoFault?
  }

  /** 1 when a step makes the persisted cursor forget a key's latest entry: a poll that did not save what it
      walked, or an operator request that changed the entry. */
  ghost function Lost(cfg: Config, file: FileState, op: Op, key: string): nat {
    match op
    case Poll(force, scope, w) => if Unsaved(cfg, file, force, scope, w) then 1 else 0
    case Reset(k, fault) => if k == key && AfterReset(file, k, fault) != file then 1 else 0
    case Set(k, sha, fault) => if k == key && AfterSet(file, k, sha, fault) != file then 1 else 0
  }

  /** The publishes of a key that a forced poll makes although its live cursor holds the head. */
  ghost function ForcedAgain(cfg: Config, file: FileState, op: Op, key: string): nat {
    match op
    case Poll(force, scope, w) =>
      var repos := Walked(cfg, scope, w);
      if force && Loaded(file).Some? then
        Bypassed(CycleFilter(cfg.filter, force), Loaded(file).value, repos, w.us, |repos|, key)
      else 0
    case _ => 0
  }

  /** What a step may cost a key. */
  ghost function Charge(cfg: Config, file: FileState, op: Op, key: string): nat {
    ForcedAgain(cfg, file, op, key) + Lost(cfg, file, op, key)
  }

  ghost function TotalCharge(cfg: Config, file: FileState, ops: seq<Op>, key: string): nat {
    if ops == [] then 0
    else
      TotalCharge(cfg, file, ops[..|ops| - 1], key)
      + Charge(cfg, Run(cfg, file, ops[..|ops| - 1]).file, ops[|ops| - 1], key)
  }

  /** The head the persisted cursor holds. */
  function Held(file: FileState, key: string): string {
    match Loaded(file) case None => "" case Some(c) => LastSeen(c, key)
  }

  lemma DebtIsAtMostOne(heads: seq<string>, held: string, held': string)
    ensures Debt(heads, held') <= Debt(heads, held) + 1
  {
  }

  lemma NoLabelPublishes(trace: seq<Effect>, n: nat, outcome: Outcome, key: string)
    ensures Published([Scanned(n)] + trace + LabelOf(outcome), key) == Published(trace, key)
    ensures forall result :: Published([CycleLabel(result)], key) == []
  {
    CountersReadNothing(HeadSent(key), n, trace, outcome);
    forall result
      ensures Published([CycleLabel(result)], key) == []
    {
      FlatMapSingle(HeadSent(key), CycleLabel(result));
    }
  }

  lemma ScanCost(cfg: Config, file: FileState, force: bool, repos: seq<Repo>, w: World, key: string,
                 earlier: seq<string>)
    requires Loaded(file).Some?
    ensures var p := ScanSpec(cfg, file, Loaded(file).value, repos, force, w);
            var s := Processed(CycleFilter(cfg.filter, force), Loaded(file).value, repos, w.us);
            var heads := earlier + Published(p.trace, key);
            && Loaded(p.file).Some?
            && Repeats(heads) + Debt(heads, Held(p.file, key)) <=
               Repeats(earlier) + Debt(earlier, Held(file, key))
               + (if force then Bypassed(CycleFilter(cfg.filter, force), Loaded(file).value, repos, w.us, |repos|, key)
                  else 0)
               + (if !Saves(s.outcome) || !w.saveFault.NoFault? then 1 else 0)
  {
    hide Repo.Key, CycleFilter, Repeats, Debt, Published, Bypassed;
    var c := Loaded(file).value;
    var s := Processed(CycleFilter(cfg.filter, force), c, repos, w.us);
    WalkCost(cfg.filter, force, earlier, c, repos, w.us, |repos|, key);
    NoLabelPublishes(s.trace, |repos|, s.outcome, key);
    DebtIsAtMostOne(earlier + Published(s.trace, key), LastSeen(s.repos, key), LastSeen(c, key));
  }

  lemma StepCost(cfg: Config, h: History, op: Op, key: string, h': History)
    requires Loaded(h.file).Some?
    requires h' == match op
                   case Poll(force, scope, w) =>
                     var p := PollSpec(cfg, h.file, force, scope, w);
                     History(p.file, h.trace + p.trace)
                   case Reset(k, fault) => History(AfterReset(h.file, k, fault), h.trace)
                   case Set(k, sha, fault) => History(AfterSet(h.file, k, sha, fault), h.trace)
    ensures Loaded(h'.file).Some?
    ensures var heads, heads' := Published(h.trace, key), Published(h'.trace, key);
            Repeats(heads') + Debt(heads', Held(h'.file, key)) <=
            Repeats(heads) + Debt(heads, Held(h.file, key)) + Charge(cfg, h.file, op, key)
  {
    hide Repo.Key, CycleFilter, Repeats, Debt, Published, Bypassed, ScanSpec, Resolve, Processed;
    var heads := Published(h.trace, key);
    match op
    case Poll(force, scope, w) =>
      var p := PollSpec(cfg, h.file, force, scope, w);
      PublishedConcat(h.trace, p.trace, key);
      NoLabelPublishes([], 0, Running, key);
      assert heads + [] == heads;
      NothingPublished(key);
      if !QuotaGate(cfg, scope, w.remaining) && Resolve(cfg, scope, w.listing).Repositories? {
        ScanCost(cfg, h.file, force, Resolve(cfg, scope, w.listing).repos, w, key, heads);
      }
    case Reset(k, _) =>
      DebtIsAtMostOne(heads, Held(h.file, key), Held(h'.file, key));
    case Set(k, _, _) =>
      DebtIsAtMostOne(heads, Held(h.file, key), Held(h'.file, key));
  }

  lemma NothingPublished(key: string)
    ensures Published([], key) == []
  {
  }

  /** The duplicate bound: over any history of non-overlapping cycles the publishes repeating a
      repository's previous one are at most the visits at which a forced cycle publishes a head its cursor
      holds, the cycles that walked and did not save, and the operator changes of that repository's entry. */
  lemma {:induction false} DuplicateBound(cfg: Config, file: FileState, ops: seq<Op>, key: string)
    requires Loaded(file).Some?
    ensures var h := Run(cfg, file, ops);
            var heads := Published(h.trace, key);
            && Loaded(h.file).Some?
            && Repeats(heads) + Debt(heads, Held(h.file, key)) <= TotalCharge(cfg, file, ops, key)
  {
    hide Published, Repeats, Debt, Charge, Held, PollSpec;
    if ops == [] {
      NoPotential(Held(file, key), key);
    } else {
      var front := ops[..|ops| - 1];
      DuplicateBound(cfg, file, front, key);
      StepCost(cfg, Run(cfg, file, front), ops[|ops| - 1], key, Run(cfg, file, ops));
    }
  }

  lemma NoPotential(held: string, key: string)
    ensures Repeats(Published([], key)) + Debt(Published([], key), held) == 0
  {
  }

  /** Nothing that can be charged happens: no forced publish of a held head, no unsaved cycle, no operator
      change of the key. */
  ghost predicate Quiet(cfg: Config, file: FileState, ops: seq<Op>, key: string) {
    forall i | 0 <= i < |ops| ::
      && ForcedAgain(cfg, Run(cfg, file, ops[..i]).file, ops[i], key) == 0
      && Lost(cfg, Run(cfg, file, ops[..i]).file, ops[i], key) == 0
  }

  lemma {:induction false} QuietCostsNothing(cfg: Config, file: FileState, ops: seq<Op>, key: string)
    requires Quiet(cfg, file, ops, key)
    ensures TotalCharge(cfg, file, ops, key) == 0
  {
    hide Run, Lost, ForcedAgain;
    if ops != [] {
      var front := ops[..|ops| - 1];
      assert forall i | 0 <= i < |front| :: front[i] == ops[i] && front[..i] == ops[..i];
      QuietCostsNothing(cfg, file, front, key);
    }
  }

  /** Without such forced, unsaved or operator steps no head is ever published twice in a row, even when a
      listing names the same repository twice. */
  lemma QuietHistoryHasNoDuplicate(cfg: Config, file: FileState, ops: seq<Op>, key: string)
    requires Loaded(file).Some? && Quiet(cfg, file, ops, key)
    ensures Repeats(Published(Run(cfg, file, ops).trace, key)) == 0
  {
    hide Run, Published, Repeats, Debt, Quiet, TotalCharge;
    DuplicateBound(cfg, file, ops, key);
    QuietCostsNothing(cfg, file, ops, key);
  }

  // ---- One per forced cycle is not enough when a listing repeats a repository ----

  /** No cursor lets this visit past the cycle-invariant filters. */
  ghost predicate Barred(base: Filter, repo: Repo, u: Upstream) {
    Gather(u).Release? ==> forall live :: Skip(base, InputOf(repo, Gather(u)), live) != ""
  }

  lemma BarredVisit(base: Filter, force: bool, s: LoopState, repo: Repo, u: Upstream, key: string)
    requires repo.Key() == key ==> Barred(base, repo, u)
    ensures var s' := VisitStep(CycleFilter(base, force), s, repo, u);
            Published(s'.trace, key) == Published(s.trace, key) && LastSeen(s'.repos, key) == LastSeen(s.repos, key)
  {
    hide Repo.Key, Skip, CycleFilter, BackstopTag, Published, Changelog.Parse;
    PublishedAppend(s.trace, Dispatch(repo.Key(), repo.Short(), BackstopTag(s.repos, repo.Key(), u.tags), u.dispatchOk),
                    key);
    var b := BackstopStep(s, repo, u);
    assert Published(b.trace, key) == Published(s.trace, key) && LastSeen(b.repos, key) == LastSeen(s.repos, key);
    match Gather(u)
    case Release(head, version, bullets, config) =>
      var input := InputOf(repo, Gather(u));
      CycleReason(base, force, input, b.repos);
      PublishedAppend(b.trace, FilterSkip(repo.Key(), head, Skip(CycleFilter(base, force), input, b.repos)), key);
      PublishedAppend(b.trace, Create(repo.Key(), repo.owner, repo.name, head, version, u.sendOk), key);
    case Prune =>
      PublishedAppend(b.trace, Dropped(repo.Key()), key);
    case _ =>
  }

  /** A walk on which every visit of a repository is barred, forced or not, publishes nothing for it and
      keeps its recorded head. */
  lemma {:induction false} BarredWalk(base: Filter, force: bool, c: Repos, repos: seq<Repo>, us: nat -> Upstream,
                                      n: nat, key: string)
    requires n <= |repos| && forall i: nat | i < n && repos[i].Key() == key :: Barred(base, repos[i], us(i))
    ensures var s := After(CycleFilter(base, force), c, repos, us, n);
            Published(s.trace, key) == [] && LastSeen(s.repos, key) == LastSeen(c, key)
  {
    hide Repo.Key, VisitStep, CycleFilter, Barred, Published, After;
    NothingPublished(key);
    if n == 0 {
      AfterStart(CycleFilter(base, force), c, repos, us);
    } else {
      AfterStep(CycleFilter(base, force), c, repos, us, n - 1);
      BarredWalk(base, force, c, repos, us, n - 1, key);
      BarredVisit(base, force, After(CycleFilter(base, force), c, repos, us, n - 1), repos[n - 1], us(n - 1), key);
    }
  }

  lemma DisallowedIsBarred(allowed: string -> bool, repo: Repo, u: Upstream)
    requires !allowed(repo.Key())
    ensures Barred(StaticFilters(allowed), repo, u)
  {
    hide Repo.Key, StaticFilters, Skip, Gather;
    if Gather(u).Release? {
      forall live
        ensures Skip(StaticFilters(allowed), InputOf(repo, Gather(u)), live) != ""
      {
        StaticReason(allowed, InputOf(repo, Gather(u)), live);
      }
    }
  }

  /** Upstream under which every visit finds an unreleased bullet at head "s", opted in. */
  function AlwaysNew(): Upstream {
    Upstream(false, TagReplies(Some([]), _ => LookupFails, _ => LookupFails), true,
             Ok("s"), Ok(Changelog.ONE_BULLET), Ok(MaintainerConfig(true, true)), true)
  }

  function Copies(n: nat): seq<string> {
    seq(n, _ => "s")
  }

  lemma AlwaysNewGathers()
    ensures Gather(AlwaysNew()) == Release("s", "v0.0.0", 1, MaintainerConfig(true, true))
  {
    hide Changelog.Parse;
    Changelog.OneBulletParses();
  }

  lemma ForcedVisitPublishes(allowed: string -> bool, s: LoopState, repo: Repo)
    requires s.outcome.Running? && allowed(repo.Key())
    ensures var s' := VisitStep(CycleFilter(StaticFilters(allowed), true), s, repo, AlwaysNew());
            s' == LoopState(s'.repos, s.trace + [Create(repo.Key(), repo.owner, repo.name, "s", "v0.0.0", true)],
                            Running)
  {
    hide Repo.Key, Gather, Skip, CycleFilter, StaticFilters;
    var u := AlwaysNew();
    AlwaysNewGathers();
    assert BackstopStep(s, repo, u) == s;
    CycleReason(StaticFilters(allowed), true, InputOf(repo, Gather(u)), s.repos);
    StaticReason(allowed, InputOf(repo, Gather(u)), s.repos);
  }

  /** Every visit finds new work where the key is allowed. */
  function NewWhere(repos: seq<Repo>, key: string): nat -> Upstream {
    (i: nat) => if i < |repos| && repos[i].Key() == key then AlwaysNew() else Elsewhere()
  }

  /** Upstream of a repository that is dropped. */
  function Elsewhere(): Upstream {
    AlwaysNew().(head := Failed)
  }

  lemma DroppedVisit(f: Filter, s: LoopState, repo: Repo)
    requires s.outcome.Running?
    ensures VisitStep(f, s, repo, Elsewhere()) == s.(trace := s.trace + [Dropped(repo.Key())])
  {
    hide Repo.Key;
    assert BackstopStep(s, repo, Elsewhere()) == s;
  }

  /** Forced visits add one copy for every occurrence of the key. */
  lemma ForcedVisitAddsCopy(allowed: string -> bool, s: LoopState, repos: seq<Repo>, n: nat, key: string)
    requires n < |repos| && allowed(key)
    requires s.outcome.Running? && Published(s.trace, key) == Copies(Occurrences(repos[..n], key))
    ensures var s' := VisitStep(CycleFilter(StaticFilters(allowed), true), s, repos[n], NewWhere(repos, key)(n));
            s'.outcome.Running? && Published(s'.trace, key) == Copies(Occurrences(repos[..n + 1], key))
  {
    hide Repo.Key, VisitStep, CycleFilter, StaticFilters, Published, AlwaysNew, Elsewhere;
    var repo := repos[n];
    assert repos[..n + 1][..n] == repos[..n];
    if repo.Key() == key {
      ForcedVisitPublishes(allowed, s, repo);
      PublishedAppend(s.trace, Create(repo.Key(), repo.owner, repo.name, "s", "v0.0.0", true), key);
    } else {
      DroppedVisit(CycleFilter(StaticFilters(allowed), true), s, repo);
      PublishedAppend(s.trace, Dropped(repo.Key()), key);
    }
  }

  lemma {:induction false} ForcedWalkPublishes(allowed: string -> bool, c: Repos, repos: seq<Repo>, n: nat, key: string)
    requires n <= |repos| && allowed(key)
    ensures var s := After(CycleFilter(StaticFilters(allowed), true), c, repos, NewWhere(repos, key), n);
            s.outcome.Running? && Published(s.trace, key) == Copies(Occurrences(repos[..n], key))
  {
    hide VisitStep, CycleFilter, StaticFilters, NewWhere;
    if n > 0 {
      hide Published, Occurrences, Copies;
      ForcedWalkPublishes(allowed, c, repos, n - 1, key);
      ForcedVisitAddsCopy(allowed, After(CycleFilter(StaticFilters(allowed), true), c, repos, NewWhere(repos, key),
                                         n - 1),
                          repos, n - 1, key);
    }
  }

  lemma {:induction false} CopiesRepeat(n: nat)
    ensures Repeats(["s"] + Copies(n)) == n
  {
    if n > 0 {
      CopiesRepeat(n - 1);
      assert (["s"] + Copies(n))[..n] == ["s"] + Copies(n - 1);
    }
  }

  /** What a forced cycle adds to a history, against the allowance of one repeat. */
  ghost predicate AddsAtMostOneRepeat(allowed: string -> bool, earlier: seq<string>, c: Repos, repos: seq<Repo>,
                                      us: nat -> Upstream, key: string) {
    Repeats(earlier + Published(Processed(CycleFilter(StaticFilters(allowed), true), c, repos, us).trace, key)) <=
    Repeats(earlier) + Debt(earlier, LastSeen(c, key)) + 1
  }

  /** Whatever upstream answers and whatever was published before, a forced cycle with the service's filters
      adds at most one repeat beyond what the cursor already owes. */
  ghost predicate OneRepeatPerForcedCycle(allowed: string -> bool, repos: seq<Repo>, key: string) {
    forall earlier: seq<string>, c: Repos, us: nat -> Upstream ::
      AddsAtMostOneRepeat(allowed, earlier, c, repos, us, key)
  }

  lemma SingleListingIsBounded(allowed: string -> bool, earlier: seq<string>, c: Repos, repos: seq<Repo>,
                               us: nat -> Upstream, key: string)
    requires Occurrences(repos, key) <= 1
    ensures AddsAtMostOneRepeat(allowed, earlier, c, repos, us, key)
  {
    hide Repo.Key, CycleFilter, StaticFilters, Repeats, Debt, Published, Occurrences, Bypassed, After;
    assert repos[..|repos|] == repos;
    WalkCost(StaticFilters(allowed), true, earlier, c, repos, us, |repos|, key);
    BypassedAreListed(StaticFilters(allowed), true, c, repos, us, |repos|, key);
  }

  lemma DisallowedIsBounded(allowed: string -> bool, earlier: seq<string>, c: Repos, repos: seq<Repo>,
                            us: nat -> Upstream, key: string)
    requires !allowed(key)
    ensures AddsAtMostOneRepeat(allowed, earlier, c, repos, us, key)
  {
    hide Repo.Key, CycleFilter, StaticFilters, Barred, Repeats, Debt, Published, After;
    forall i: nat | i < |repos| && repos[i].Key() == key
      ensures Barred(StaticFilters(allowed), repos[i], us(i))
    {
      DisallowedIsBarred(allowed, repos[i], us(i));
    }
    BarredWalk(StaticFilters(allowed), true, c, repos, us, |repos|, key);
    assert earlier + [] == earlier;
  }

  /** Forced visits of every occurrence of an allowed repository repeat the head the cursor already held. */
  lemma RepeatedListingRepeats(allowed: string -> bool, repos: seq<Repo>, key: string)
    requires allowed(key)
    ensures var c: Repos := map[key := Entry("s", "")];
            var s := Processed(CycleFilter(StaticFilters(allowed), true), c, repos, NewWhere(repos, key));
            Repeats(["s"] + Published(s.trace, key)) == Occurrences(repos, key)
  {
    hide Repo.Key, CycleFilter, StaticFilters, Repeats, Published, Occurrences, Copies, After, NewWhere;
    assert repos[..|repos|] == repos;
    ForcedWalkPublishes(allowed, map[key := Entry("s", "")], repos, |repos|, key);
    CopiesRepeat(Occurrences(repos, key));
  }

  /** With the service's filters a forced cycle is bounded by one repeat exactly when its listing names the
      repository at most once or the allowlist shuts it out. */
  lemma ForcedCycleBoundExact(allowed: string -> bool, repos: seq<Repo>, key: string)
    ensures OneRepeatPerForcedCycle(allowed, repos, key) <==> Occurrences(repos, key) <= 1 || !allowed(key)
  {
    hide AddsAtMostOneRepeat, Occurrences;
    if Occurrences(repos, key) <= 1 || !allowed(key) {
      forall earlier: seq<string>, c: Repos, us: nat -> Upstream
        ensures AddsAtMostOneRepeat(allowed, earlier, c, repos, us, key)
      {
        if !allowed(key) {
          DisallowedIsBounded(allowed, earlier, c, repos, us, key);
        } else {
          SingleListingIsBounded(allowed, earlier, c, repos, us, key);
        }
      }
    } else {
      RepeatedListingExceeds(allowed, repos, key);
    }
  }

  lemma RepeatedListingExceeds(allowed: string -> bool, repos: seq<Repo>, key: string)
    requires allowed(key) && Occurrences(repos, key) > 1
    ensures !AddsAtMostOneRepeat(allowed, ["s"], map[key := Entry("s", "")], repos, NewWhere(repos, key), key)
  {
    hide CycleFilter, StaticFilters, Published, Occurrences, Processed, NewWhere;
    RepeatedListingRepeats(allowed, repos, key);
  }
}
