/** A forced cycle against an unforced one from the same cursor and the same upstream answers. */
module ForcedCycles {
  import opened Domain
  import opened Traces
  import opened Filters
  import opened Cursor
  import opened Cycle
  import opened LoopFrame
  import opened Backstop
  import opened Duplicates
  import Changelog

  function CreateIn(e: Effect): seq<Effect> {
    if e.Create? then [e] else []
  }

  /** The create-task commands of a trace, sent or failed. */
  function Creates(trace: seq<Effect>): seq<Effect> {
    FlatMap(CreateIn, trace)
  }

  function FreshIn(c: Repos): Effect -> seq<Effect> {
    (e: Effect) => if e.Create? && LastSeen(c, e.key) != e.head then [e] else []
  }

  /** The commands whose head the cursor does not hold. */
  function Fresh(es: seq<Effect>, c: Repos): seq<Effect> {
    FlatMap(FreshIn(c), es)
  }

  lemma CreatesAppend(trace: seq<Effect>, e: Effect)
    ensures Creates(trace + [e]) == if e.Create? then Creates(trace) + [e] else Creates(trace)
  {
    FlatMapAppend(CreateIn, trace, e);
  }

  lemma FreshAppend(es: seq<Effect>, e: Effect, c: Repos)
    ensures Fresh(es + [e], c) == if e.Create? && LastSeen(c, e.key) != e.head then Fresh(es, c) + [e] else Fresh(es, c)
  {
    FlatMapAppend(FreshIn(c), es, e);
  }

  // ---- The cursors read alike, whatever the heads ----

  /** A key reads the same in both cursors; a blank entry reads like none. */
  predicate SameReading(a: Repos, b: Repos, k: string) {
    EntryOf(a, k) == EntryOf(b, k)
  }

  ghost predicate ReadAlike(a: Repos, b: Repos) {
    forall k :: SameReading(a, b, k)
  }

  lemma ReadsOf(a: Repos, b: Repos, k: string)
    requires ReadAlike(a, b)
    ensures LastSeen(a, k) == LastSeen(b, k) && LastBuilt(a, k) == LastBuilt(b, k) && EntryOf(a, k) == EntryOf(b, k)
  {
    assert SameReading(a, b, k);
  }

  lemma PutReadsAlike(a: Repos, b: Repos, k: string, e: Entry)
    requires ReadAlike(a, b)
    ensures ReadAlike(a[k := e], b[k := e])
    ensures e == EntryOf(b, k) ==> ReadAlike(a[k := e], b)
  {
    hide SameReading, EntryOf;
    var a', b' := a[k := e], b[k := e];
    forall x
      ensures SameReading(a', b', x)
    {
      PutReadsAlikeAt(a, b, k, e, x);
    }
    if e == EntryOf(b, k) {
      forall x
        ensures SameReading(a', b, x)
      {
        PutReadsAlikeAt(a, b, k, e, x);
      }
    }
  }

  lemma PutReadsAlikeAt(a: Repos, b: Repos, k: string, e: Entry, x: string)
    requires ReadAlike(a, b)
    ensures SameReading(a[k := e], b[k := e], x)
    ensures e == EntryOf(b, k) ==> SameReading(a[k := e], b, x)
  {
    assert SameReading(a, b, x);
  }

  lemma BackstopReadsAlike(s: LoopState, t: LoopState, repo: Repo, u: Upstream)
    requires ReadAlike(s.repos, t.repos)
    ensures ReadAlike(BackstopStep(s, repo, u).repos, BackstopStep(t, repo, u).repos)
  {
    hide Repo.Key, Newest, ReadAlike;
    var key := repo.Key();
    ReadsOf(s.repos, t.repos, key);
    PutReadsAlike(s.repos, t.repos, key, EntryOf(s.repos, key).(lastBuilt := BackstopTag(s.repos, key, u.tags)));
  }

  lemma ReleaseReadsAlike(base: Filter, s: LoopState, t: LoopState, repo: Repo, u: Upstream)
    requires ReadAlike(s.repos, t.repos) && s.outcome == t.outcome
    ensures var s' := ReleaseStep(CycleFilter(base, true), s, repo, u);
            var t' := ReleaseStep(CycleFilter(base, false), t, repo, u);
            ReadAlike(s'.repos, t'.repos) && s'.outcome == t'.outcome
  {
    hide Repo.Key, Skip, CycleFilter, Changelog.Parse, ReadAlike;
    var key := repo.Key();
    ReadsOf(s.repos, t.repos, key);
    if Gather(u).Release? {
      PutReadsAlike(s.repos, t.repos, key, EntryOf(s.repos, key).(lastSeen := Gather(u).head));
      var input := InputOf(repo, Gather(u));
      CycleReason(base, true, input, s.repos);
      CycleReason(base, false, input, t.repos);
      SkipReadsOwnHead(base, input, s.repos, t.repos);
    }
  }

  lemma VisitReadsAlike(base: Filter, s: LoopState, t: LoopState, repo: Repo, u: Upstream)
    requires ReadAlike(s.repos, t.repos) && s.outcome == t.outcome
    ensures var s' := VisitStep(CycleFilter(base, true), s, repo, u);
            var t' := VisitStep(CycleFilter(base, false), t, repo, u);
            ReadAlike(s'.repos, t'.repos) && s'.outcome == t'.outcome
  {
    hide Repo.Key, CycleFilter, BackstopStep, ReleaseStep, ReadAlike;
    BackstopReadsAlike(s, t, repo, u);
    BackstopCreates(s, repo, u);
    BackstopCreates(t, repo, u);
    ReleaseReadsAlike(base, BackstopStep(s, repo, u), BackstopStep(t, repo, u), repo, u);
  }

  /** Both cycles leave cursors that read alike and end alike, for any heads, even when a repository is
      listed twice. */
  lemma {:induction false} CursorsReadAlike(base: Filter, c: Repos, repos: seq<Repo>, us: nat -> Upstream, n: nat)
    requires n <= |repos|
    ensures var s := After(CycleFilter(base, true), c, repos, us, n);
            var t := After(CycleFilter(base, false), c, repos, us, n);
            ReadAlike(s.repos, t.repos) && s.outcome == t.outcome
  {
    hide Repo.Key, VisitStep, CycleFilter;
    if n > 0 {
      hide ReadAlike;
      CursorsReadAlike(base, c, repos, us, n - 1);
      VisitReadsAlike(base, After(CycleFilter(base, true), c, repos, us, n - 1),
                      After(CycleFilter(base, false), c, repos, us, n - 1), repos[n - 1], us(n - 1));
    }
  }

  // ---- When they are the same cursor ----

  /** The visit publishes an empty head for a repository without an entry, when it is forced. */
  ghost predicate CreatesBlank(base: Filter, c: Repos, repo: Repo, u: Upstream) {
    var live := BackstopStep(LoopState(c, [], Running), repo, u).repos;
    && !u.cancelled && Gather(u).Release? && Gather(u).head == "" && u.sendOk
    && Skip(base, InputOf(repo, Gather(u)), live) == ""
    && repo.Key() !in live
  }

  /** One visit, forced and unforced, from the same cursor: it leaves different cursors exactly when it
      creates a blank entry. */
  lemma VisitDiffersExactly(base: Filter, s: LoopState, t: LoopState, repo: Repo, u: Upstream)
    requires s.repos == t.repos && s.outcome == t.outcome
    ensures var s' := VisitStep(CycleFilter(base, true), s, repo, u);
            var t' := VisitStep(CycleFilter(base, false), t, repo, u);
            s'.repos == t'.repos <==> !CreatesBlank(base, s.repos, repo, u)
  {
    hide Repo.Key, Skip, CycleFilter, BackstopTag, Changelog.Parse;
    var b := BackstopStep(s, repo, u);
    if Gather(u).Release? {
      CycleReason(base, true, InputOf(repo, Gather(u)), b.repos);
      CycleReason(base, false, InputOf(repo, Gather(u)), b.repos);
      RewriteChanges(b.repos, repo.Key(), Gather(u).head);
    }
  }

  lemma RewriteChanges(c: Repos, key: string, head: string)
    ensures c[key := EntryOf(c, key).(lastSeen := head)] == c <==> key in c && LastSeen(c, key) == head
  {
    if key in c && LastSeen(c, key) == head {
      assert EntryOf(c, key).(lastSeen := head) == c[key];
    }
  }

  /** A key stands the same in both cursors. */
  predicate SameAt(a: Repos, b: Repos, k: string) {
    (k in a <==> k in b) && (k in a ==> a[k] == b[k])
  }

  lemma BlankReadsOwnKey(base: Filter, c: Repos, c': Repos, repo: Repo, u: Upstream)
    requires SameAt(c, c', repo.Key())
    ensures CreatesBlank(base, c, repo, u) <==> CreatesBlank(base, c', repo, u)
  {
    hide Repo.Key, Skip, Newest, Changelog.Parse;
    var b := BackstopStep(LoopState(c, [], Running), repo, u).repos;
    var b' := BackstopStep(LoopState(c', [], Running), repo, u).repos;
    assert SameAt(b, b', repo.Key());
    if Gather(u).Release? {
      SkipReadsOwnHead(base, InputOf(repo, Gather(u)), b, b');
    }
  }

  ghost predicate DistinctKeys(repos: seq<Repo>) {
    forall i, j | 0 <= i < j < |repos| :: repos[i].Key() != repos[j].Key()
  }

  lemma SameEverywhere(a: Repos, b: Repos)
    requires forall k :: SameAt(a, b, k)
    ensures a == b
  {
    assert forall k :: SameAt(a, b, k) ==> (k in a.Keys <==> k in b.Keys);
    assert a.Keys == b.Keys;
    assert forall k | k in a :: SameAt(a, b, k);
  }

  lemma DifferSomewhere(a: Repos, b: Repos) returns (k: string)
    requires a != b
    ensures !SameAt(a, b, k)
  {
    if forall k :: SameAt(a, b, k) {
      SameEverywhere(a, b);
    }
    k :| !SameAt(a, b, k);
  }

  /** A difference made by earlier visits survives the visit of another repository. */
  lemma DifferenceStays(base: Filter, c: Repos, repos: seq<Repo>, us: nat -> Upstream, n: nat)
    requires n < |repos| && DistinctKeys(repos)
    requires After(CycleFilter(base, true), c, repos, us, n).repos !=
             After(CycleFilter(base, false), c, repos, us, n).repos
    ensures var s := After(CycleFilter(base, true), c, repos, us, n);
            var t := After(CycleFilter(base, false), c, repos, us, n);
            VisitStep(CycleFilter(base, true), s, repos[n], us(n)).repos !=
            VisitStep(CycleFilter(base, false), t, repos[n], us(n)).repos
  {
    hide Repo.Key, VisitStep, CycleFilter, After;
    var f, g := CycleFilter(base, true), CycleFilter(base, false);
    var s, t := After(f, c, repos, us, n), After(g, c, repos, us, n);
    var k := DifferSomewhere(s.repos, t.repos);
    if forall i | 0 <= i < n :: repos[i].Key() != k {
      UnvisitedUnchanged(f, c, repos, us, n, k);
      UnvisitedUnchanged(g, c, repos, us, n, k);
    }
    assert repos[n].Key() != k;
    VisitTouchesOwnKey(f, s, repos[n], us(n), k);
    VisitTouchesOwnKey(g, t, repos[n], us(n), k);
  }

  /** No visit among the first n that the walk reaches creates a blank entry. */
  ghost predicate NoBlanks(base: Filter, c: Repos, repos: seq<Repo>, us: nat -> Upstream, n: nat)
    requires n <= |repos|
  {
    forall i: nat | i < n && After(CycleFilter(base, true), c, repos, us, i).outcome.Running? ::
      !CreatesBlank(base, c, repos[i], us(i))
  }

  lemma NoBlanksYet(base: Filter, c: Repos, repos: seq<Repo>, us: nat -> Upstream)
    ensures NoBlanks(base, c, repos, us, 0)
  {
  }

  lemma NoBlanksStep(base: Filter, c: Repos, repos: seq<Repo>, us: nat -> Upstream, n: nat)
    requires n < |repos|
    ensures NoBlanks(base, c, repos, us, n + 1) <==>
            && NoBlanks(base, c, repos, us, n)
            && (After(CycleFilter(base, true), c, repos, us, n).outcome.Running? ==>
                  !CreatesBlank(base, c, repos[n], us(n)))
  {
    hide After, CreatesBlank, CycleFilter;
  }

  /** With each repository listed once, the two walks leave the same cursor exactly when no visit they reach
      creates a blank entry. */
  lemma {:induction false} CursorsDifferExactly(base: Filter, c: Repos, repos: seq<Repo>, us: nat -> Upstream, n: nat)
    requires n <= |repos| && DistinctKeys(repos)
    ensures After(CycleFilter(base, true), c, repos, us, n).repos ==
            After(CycleFilter(base, false), c, repos, us, n).repos
       <==> NoBlanks(base, c, repos, us, n)
  {
    hide Repo.Key, VisitStep, CycleFilter, CreatesBlank, DistinctKeys, ReadAlike, NoBlanks;
    if n == 0 {
      NoBlanksYet(base, c, repos, us);
    } else {
      NoBlanksStep(base, c, repos, us, n - 1);
      CursorsDifferExactly(base, c, repos, us, n - 1);
      CursorsReadAlike(base, c, repos, us, n - 1);
      if After(CycleFilter(base, true), c, repos, us, n - 1).outcome.Running? {
        DiffersAfterOneMore(base, c, repos, us, n - 1);
      }
    }
  }

  lemma DiffersAfterOneMore(base: Filter, c: Repos, repos: seq<Repo>, us: nat -> Upstream, n: nat)
    requires n < |repos| && DistinctKeys(repos)
    requires var s := After(CycleFilter(base, true), c, repos, us, n);
             var t := After(CycleFilter(base, false), c, repos, us, n);
             s.outcome.Running? && t.outcome.Running?
    ensures var s := After(CycleFilter(base, true), c, repos, us, n);
            var t := After(CycleFilter(base, false), c, repos, us, n);
            VisitStep(CycleFilter(base, true), s, repos[n], us(n)).repos ==
            VisitStep(CycleFilter(base, false), t, repos[n], us(n)).repos
            <==> s.repos == t.repos && !CreatesBlank(base, c, repos[n], us(n))
  {
    hide Repo.Key, VisitStep, CycleFilter, CreatesBlank, After;
    var s, t := After(CycleFilter(base, true), c, repos, us, n), After(CycleFilter(base, false), c, repos, us, n);
    if s.repos == t.repos {
      VisitDiffersExactly(base, s, t, repos[n], us(n));
      UnvisitedUnchanged(CycleFilter(base, true), c, repos, us, n, repos[n].Key());
      BlankReadsOwnKey(base, s.repos, c, repos[n], us(n));
    } else {
      DifferenceStays(base, c, repos, us, n);
    }
  }

  ghost predicate NonEmptyHead(u: Upstream) {
    u.head.Ok? ==> u.head.value != ""
  }

  /** With non-empty heads the cursors are the same even when a repository is listed twice. */
  lemma {:induction false} SameCursor(base: Filter, c: Repos, repos: seq<Repo>, us: nat -> Upstream, n: nat)
    requires n <= |repos| && forall i: nat | i < n :: NonEmptyHead(us(i))
    ensures After(CycleFilter(base, true), c, repos, us, n).repos ==
            After(CycleFilter(base, false), c, repos, us, n).repos
  {
    hide Repo.Key, VisitStep, CycleFilter, NonEmptyHead;
    if n > 0 {
      SameCursor(base, c, repos, us, n - 1);
      CursorsReadAlike(base, c, repos, us, n - 1);
      var s := After(CycleFilter(base, true), c, repos, us, n - 1);
      var t := After(CycleFilter(base, false), c, repos, us, n - 1);
      VisitDiffersExactly(base, s, t, repos[n - 1], us(n - 1));
      NonEmptyIsNotBlank(base, s.repos, repos[n - 1], us(n - 1));
    }
  }

  lemma NonEmptyIsNotBlank(base: Filter, c: Repos, repo: Repo, u: Upstream)
    requires NonEmptyHead(u)
    ensures !CreatesBlank(base, c, repo, u)
  {
    hide BackstopStep, Skip, Changelog.Parse;
  }

  /** A forced and an unforced poll always end alike, and leave the same cursor file when the heads of the
      listed repositories are non-empty. */
  lemma SameFile(cfg: Config, file: FileState, scope: string, w: World)
    ensures PollSpec(cfg, file, true, scope, w).end == PollSpec(cfg, file, false, scope, w).end
    ensures (forall i: nat | i < |Walked(cfg, scope, w)| :: NonEmptyHead(w.us(i))) ==>
              PollSpec(cfg, file, true, scope, w).file == PollSpec(cfg, file, false, scope, w).file
  {
    hide CycleFilter, After, NonEmptyHead;
    if Loaded(file).Some? && Resolve(cfg, scope, w.listing).Repositories? {
      var repos := Resolve(cfg, scope, w.listing).repos;
      CursorsReadAlike(cfg.filter, Loaded(file).value, repos, w.us, |repos|);
      if forall i: nat | i < |Walked(cfg, scope, w)| :: NonEmptyHead(w.us(i)) {
        if !QuotaGate(cfg, scope, w.remaining) {
          SameCursor(cfg.filter, Loaded(file).value, repos, w.us, |repos|);
        }
      }
    }
  }

  /** The service's filters do let an empty head make the difference: a never-seen allowed repository with
      an unreleased bullet. */
  lemma EmptyHeadDiffers(allowed: string -> bool, repo: Repo)
    requires allowed(repo.Key())
    ensures var start, u := LoopState(map[], [], Running), AlwaysNew().(head := Ok(""));
            VisitStep(CycleFilter(StaticFilters(allowed), true), start, repo, u).repos !=
            VisitStep(CycleFilter(StaticFilters(allowed), false), start, repo, u).repos
  {
    hide Repo.Key, CycleFilter, StaticFilters, Skip, VisitStep, Changelog.Parse;
    var start, u := LoopState(map[], [], Running), AlwaysNew().(head := Ok(""));
    Changelog.OneBulletParses();
    assert Gather(u) == Release("", "v0.0.0", 1, MaintainerConfig(true, true));
    assert BackstopStep(start, repo, u) == start;
    StaticReason(allowed, InputOf(repo, Gather(u)), map[]);
    VisitDiffersExactly(StaticFilters(allowed), start, start, repo, u);
  }

  // ---- The commands ----

  lemma BackstopCreates(s: LoopState, repo: Repo, u: Upstream)
    ensures var b := BackstopStep(s, repo, u);
            && Creates(b.trace) == Creates(s.trace)
            && b.outcome == s.outcome
            && LastSeen(b.repos, repo.Key()) == LastSeen(s.repos, repo.Key())
  {
    hide Repo.Key;
    CreatesAppend(s.trace, Dispatch(repo.Key(), repo.Short(), BackstopTag(s.repos, repo.Key(), u.tags), u.dispatchOk));
  }

  lemma VisitCreates(base: Filter, c: Repos, s: LoopState, t: LoopState, repo: Repo, u: Upstream)
    requires ReadAlike(s.repos, t.repos) && LastSeen(s.repos, repo.Key()) == LastSeen(c, repo.Key())
    requires Creates(t.trace) == Fresh(Creates(s.trace), c)
    ensures Creates(VisitStep(CycleFilter(base, false), t, repo, u).trace) ==
            Fresh(Creates(VisitStep(CycleFilter(base, true), s, repo, u).trace), c)
  {
    hide Repo.Key, CycleFilter, BackstopStep, ReleaseStep, Creates, Fresh, ReadAlike;
    if !u.cancelled {
      BackstopCreates(s, repo, u);
      BackstopCreates(t, repo, u);
      BackstopReadsAlike(s, t, repo, u);
      ReleaseCreates(base, c, BackstopStep(s, repo, u), BackstopStep(t, repo, u), repo, u);
    }
  }

  lemma ReleaseCreates(base: Filter, c: Repos, s: LoopState, t: LoopState, repo: Repo, u: Upstream)
    requires ReadAlike(s.repos, t.repos) && LastSeen(s.repos, repo.Key()) == LastSeen(c, repo.Key())
    requires Creates(t.trace) == Fresh(Creates(s.trace), c)
    ensures Creates(ReleaseStep(CycleFilter(base, false), t, repo, u).trace) ==
            Fresh(Creates(ReleaseStep(CycleFilter(base, true), s, repo, u).trace), c)
  {
    hide Repo.Key, Skip, CycleFilter, Changelog.Parse, Creates, Fresh, ReadAlike;
    var key := repo.Key();
    ReadsOf(s.repos, t.repos, key);
    match Gather(u)
    case Release(head, version, bullets, config) =>
      var input := InputOf(repo, Gather(u));
      CycleReason(base, true, input, s.repos);
      CycleReason(base, false, input, t.repos);
      SkipReadsOwnHead(base, input, s.repos, t.repos);
      var create := Create(key, repo.owner, repo.name, head, version, u.sendOk);
      CreatesAppend(s.trace, create);
      CreatesAppend(t.trace, create);
      CreatesAppend(s.trace, FilterSkip(key, head, Skip(CycleFilter(base, true), input, s.repos)));
      CreatesAppend(t.trace, FilterSkip(key, head, Skip(CycleFilter(base, false), input, t.repos)));
      FreshAppend(Creates(s.trace), create, c);
    case Prune =>
      CreatesAppend(s.trace, Dropped(key));
      CreatesAppend(t.trace, Dropped(key));
    case _ =>
  }

  /** With each repository listed once, the unforced commands are exactly the forced ones whose head
      differs from the cursor, empty heads included. */
  lemma {:induction false} UnforcedAreFreshForced(base: Filter, c: Repos, repos: seq<Repo>, us: nat -> Upstream, n: nat)
    requires n <= |repos| && DistinctKeys(repos)
    ensures Creates(After(CycleFilter(base, false), c, repos, us, n).trace) ==
            Fresh(Creates(After(CycleFilter(base, true), c, repos, us, n).trace), c)
  {
    hide Repo.Key, VisitStep, CycleFilter, ReadAlike;
    if n > 0 {
      UnforcedAreFreshForced(base, c, repos, us, n - 1);
      CursorsReadAlike(base, c, repos, us, n - 1);
      UnvisitedUnchanged(CycleFilter(base, true), c, repos, us, n - 1, repos[n - 1].Key());
      VisitCreates(base, c, After(CycleFilter(base, true), c, repos, us, n - 1),
                   After(CycleFilter(base, false), c, repos, us, n - 1), repos[n - 1], us(n - 1));
    }
  }
}
