/** The backstop over whole histories: polls that walk, save, fail to save or abort, and operator requests
    in between, while GitHub keeps listing the same page of tags for one repository. */
module BackstopHistories {
  import opened Domain
  import opened Traces
  import opened Filters
  import opened Cursor
  import opened Cycle
  import opened Backstop
  import opened BackstopConvergence
  import opened Duplicates
  import Changelog

  /** The tag an effect dispatches for a key; only successful dispatches when ok is asked for. */
  function TagSent(key: string, ok: bool): Effect -> seq<string> {
    (e: Effect) => if e.Dispatch? && (ok ==> e.ok) && e.key == key then [e.tag] else []
  }

  /** The backstop dispatches for a key that succeeded. */
  function Built(trace: seq<Effect>, key: string): nat {
    |FlatMap(TagSent(key, true), trace)|
  }

  /** The backstop dispatches for a key, successful or not. */
  function Attempts(trace: seq<Effect>, key: string): nat {
    |FlatMap(TagSent(key, false), trace)|
  }

  lemma CountAppend(trace: seq<Effect>, e: Effect, key: string)
    ensures Built(trace + [e], key) == Built(trace, key) + if e.Dispatch? && e.ok && e.key == key then 1 else 0
    ensures Attempts(trace + [e], key) == Attempts(trace, key) + if e.Dispatch? && e.key == key then 1 else 0
  {
    FlatMapAppend(TagSent(key, true), trace, e);
    FlatMapAppend(TagSent(key, false), trace, e);
  }

  lemma CountConcat(a: seq<Effect>, b: seq<Effect>, key: string)
    ensures Built(a + b, key) == Built(a, key) + Built(b, key)
    ensures Attempts(a + b, key) == Attempts(a, key) + Attempts(b, key)
  {
    FlatMapConcat(TagSent(key, true), a, b);
    FlatMapConcat(TagSent(key, false), a, b);
  }

  lemma CountersCountNothing(n: nat, trace: seq<Effect>, outcome: Outcome, result: string, key: string)
    ensures Built([Scanned(n)] + trace + LabelOf(outcome), key) == Built(trace, key)
    ensures Attempts([Scanned(n)] + trace + LabelOf(outcome), key) == Attempts(trace, key)
    ensures Built([CycleLabel(result)], key) == 0 && Attempts([CycleLabel(result)], key) == 0
    ensures Built([], key) == 0 && Attempts([], key) == 0
  {
    CountersReadNothing(TagSent(key, true), n, trace, outcome);
    CountersReadNothing(TagSent(key, false), n, trace, outcome);
    FlatMapSingle(TagSent(key, true), CycleLabel(result));
    FlatMapSingle(TagSent(key, false), CycleLabel(result));
  }

  /** The visit's backstop run ends in an answer: no call it needed failed. */
  predicate Answered(c: Repos, u: Upstream, key: string) {
    !u.cancelled && !Newest(LastBuilt(c, key), u.tags).PickError?
  }

  /** One visit while GitHub lists the page, any of its calls failing or not: it dispatches exactly when its
      calls are answered and the page selects a tag for the live cursor's one, it dispatches that tag's build,
      and the cursor moves exactly when that dispatch succeeds. */
  lemma VisitOnPage(f: Filter, s: LoopState, repo: Repo, u: Upstream, page: seq<string>, epoch: string -> int,
                    key: string)
    requires repo.Key() == key ==> FailingVersion(Fixed(page, epoch), u.tags)
    ensures var s' := VisitStep(f, s, repo, u);
            var last := LastBuilt(s.repos, key);
            var dispatches := repo.Key() == key && Answered(s.repos, u, key) && Select(page, epoch, last) != "";
            && Attempts(s'.trace, key) == Attempts(s.trace, key) + (if dispatches then 1 else 0)
            && Built(s'.trace, key) == Built(s.trace, key) + (if dispatches && u.dispatchOk then 1 else 0)
            && LastBuilt(s'.repos, key) == (if dispatches && u.dispatchOk then NextCursor(page, epoch, last) else last)
  {
    hide Repo.Key, Newest, Fixed, FailingVersion, ReleaseStep, Built, Attempts;
    if repo.Key() == key {
      FailureOnlySilences(LastBuilt(s.repos, key), Fixed(page, epoch), u.tags);
    }
    if !u.cancelled {
      var tag := BackstopTag(s.repos, repo.Key(), u.tags);
      CountAppend(s.trace, Dispatch(repo.Key(), repo.Short(), tag, u.dispatchOk), key);
      ReleaseBuildsNothing(f, BackstopStep(s, repo, u), repo, u, key);
    }
  }

  lemma ReleaseBuildsNothing(f: Filter, s: LoopState, repo: Repo, u: Upstream, key: string)
    ensures var s' := ReleaseStep(f, s, repo, u);
            && Built(s'.trace, key) == Built(s.trace, key) && Attempts(s'.trace, key) == Attempts(s.trace, key)
            && LastBuilt(s'.repos, key) == LastBuilt(s.repos, key)
  {
    hide Repo.Key, Skip, Changelog.Parse, Built, Attempts;
    match Gather(u)
    case Release(head, version, bullets, config) =>
      CountAppend(s.trace, FilterSkip(repo.Key(), head, Skip(f, InputOf(repo, Gather(u)), s.repos)), key);
      CountAppend(s.trace, Create(repo.Key(), repo.owner, repo.name, head, version, u.sendOk), key);
    case Prune =>
      CountAppend(s.trace, Dropped(repo.Key()), key);
    case _ =>
  }

  /** Every visit of the repository within the first n sees the page, as far as its calls do not fail. */
  ghost predicate SeesPage(repos: seq<Repo>, us: nat -> Upstream, n: nat, page: seq<string>, epoch: string -> int,
                           key: string)
    requires n <= |repos|
  {
    forall i: nat | i < n && repos[i].Key() == key :: FailingVersion(Fixed(page, epoch), us(i).tags)
  }

  /** Every poll of the history sees the page. */
  ghost predicate StaysOnPage(cfg: Config, ops: seq<Op>, page: seq<string>, epoch: string -> int, key: string) {
    forall op | op in ops && op.Poll? ::
      var repos := Walked(cfg, op.scope, op.w);
      SeesPage(repos, op.w.us, |repos|, page, epoch, key)
  }

  /** The tag the persisted cursor holds. */
  function HeldTag(file: FileState, key: string): string {
    match Loaded(file) case None => "" case Some(c) => LastBuilt(c, key)
  }

  // ---- A page that settles ----

  /** The part of Settles that does not depend on the cursor. */
  ghost predicate SettlingPage(page: seq<string>, epoch: string -> int) {
    || page == [] || IsNewest(page, epoch, 0)
    || forall i, j | IsNewest(page, epoch, i) && IsNewest(page, epoch, j) :: i == j
  }

  /** 1 while a run from this cursor would still dispatch. */
  function Owes(page: seq<string>, epoch: string -> int, last: string): nat {
    if Select(page, epoch, last) == "" then 0 else 1
  }

  lemma OwesOnce(page: seq<string>, epoch: string -> int, last: string)
    requires ValidPage(page, epoch) && SettlingPage(page, epoch)
    ensures Owes(page, epoch, NextCursor(page, epoch, last)) == 0
  {
    SilentFromSecond(page, epoch, last);
    assert CursorAt(page, epoch, last, 1) == NextCursor(page, epoch, CursorAt(page, epoch, last, 0));
  }

  /** A walk pays what its cursor owed with each dispatch that succeeds, no more and no less. */
  lemma {:induction false} WalkPays(f: Filter, c: Repos, repos: seq<Repo>, us: nat -> Upstream, n: nat,
                                    page: seq<string>, epoch: string -> int, key: string)
    requires n <= |repos| && SeesPage(repos, us, n, page, epoch, key)
    requires ValidPage(page, epoch) && SettlingPage(page, epoch)
    ensures var s := After(f, c, repos, us, n);
            Built(s.trace, key) + Owes(page, epoch, LastBuilt(s.repos, key)) == Owes(page, epoch, LastBuilt(c, key))
  {
    hide Repo.Key, VisitStep, Select, ValidPage, SettlingPage, Answered, FailingVersion, Built, Attempts, After;
    if n == 0 {
      AfterStart(f, c, repos, us);
      CountersCountNothing(0, [], Running, "", key);
    } else {
      AfterStep(f, c, repos, us, n - 1);
      WalkPays(f, c, repos, us, n - 1, page, epoch, key);
      var s := After(f, c, repos, us, n - 1);
      VisitOnPage(f, s, repos[n - 1], us(n - 1), page, epoch, key);
      OwesOnce(page, epoch, LastBuilt(s.repos, key));
    }
  }

  ghost function TotalLost(cfg: Config, file: FileState, ops: seq<Op>, key: string): nat {
    if ops == [] then 0
    else
      var front := ops[..|ops| - 1];
      TotalLost(cfg, file, front, key) + Lost(cfg, Run(cfg, file, front).file, ops[|ops| - 1], key)
  }

  lemma ScanPays(cfg: Config, file: FileState, force: bool, repos: seq<Repo>, w: World,
                 page: seq<string>, epoch: string -> int, key: string)
    requires Loaded(file).Some? && SeesPage(repos, w.us, |repos|, page, epoch, key)
    requires ValidPage(page, epoch) && SettlingPage(page, epoch)
    ensures var p := ScanSpec(cfg, file, Loaded(file).value, repos, force, w);
            var s := Processed(CycleFilter(cfg.filter, force), Loaded(file).value, repos, w.us);
            && Loaded(p.file).Some?
            && Built(p.trace, key) + Owes(page, epoch, HeldTag(p.file, key)) <=
               Owes(page, epoch, HeldTag(file, key)) + (if !Saves(s.outcome) || !w.saveFault.NoFault? then 1 else 0)
  {
    hide CycleFilter, Built, Attempts, Select, After, ValidPage, SettlingPage, SeesPage;
    var s := Processed(CycleFilter(cfg.filter, force), Loaded(file).value, repos, w.us);
    WalkPays(CycleFilter(cfg.filter, force), Loaded(file).value, repos, w.us, |repos|, page, epoch, key);
    CountersCountNothing(|repos|, s.trace, s.outcome, "", key);
  }

  lemma StepPays(cfg: Config, file: FileState, op: Op, page: seq<string>, epoch: string -> int, key: string)
    requires Loaded(file).Some? && StaysOnPage(cfg, [op], page, epoch, key)
    requires ValidPage(page, epoch) && SettlingPage(page, epoch)
    ensures var h := Run(cfg, file, [op]);
            && Loaded(h.file).Some?
            && Built(h.trace, key) + Owes(page, epoch, HeldTag(h.file, key)) <=
               Owes(page, epoch, HeldTag(file, key)) + Lost(cfg, file, op, key)
  {
    hide CycleFilter, Built, Attempts, Select, Processed, ScanSpec, Resolve, ValidPage, SettlingPage, SeesPage;
    assert op in [op] && [op][..0] == [];
    CountersCountNothing(0, [], Running, "", key);
    match op
    case Poll(force, scope, w) =>
      var p := PollSpec(cfg, file, force, scope, w);
      assert [] + p.trace == p.trace;
      if !QuotaGate(cfg, scope, w.remaining) && Resolve(cfg, scope, w.listing).Repositories? {
        ScanPays(cfg, file, force, Walked(cfg, scope, w), w, page, epoch, key);
      } else if p.trace != [] {
        CountersCountNothing(0, [], Running, p.trace[0].result, key);
      }
    case _ =>
  }

  /** A history is its front and then its last step. */
  lemma RunSplits(cfg: Config, file: FileState, ops: seq<Op>)
    requires ops != []
    ensures var h := Run(cfg, file, ops[..|ops| - 1]);
            var step := Run(cfg, h.file, [ops[|ops| - 1]]);
            Run(cfg, file, ops) == History(step.file, h.trace + step.trace)
  {
    hide PollSpec;
    var h := Run(cfg, file, ops[..|ops| - 1]);
    assert [ops[|ops| - 1]][..0] == [];
    assert forall t: seq<Effect> :: [] + t == t;
    assert h.trace + [] == h.trace;
  }

  /** Over any history on a page that settles, rate limits and failing calls included, the dispatches that
      succeed for a repository are at most one more than the cycles that walked and did not save and the
      operator changes of its entry. */
  lemma {:induction false} SettlingHistory(cfg: Config, file: FileState, ops: seq<Op>,
                                           page: seq<string>, epoch: string -> int, key: string)
    requires Loaded(file).Some? && StaysOnPage(cfg, ops, page, epoch, key)
    requires ValidPage(page, epoch) && SettlingPage(page, epoch)
    ensures var h := Run(cfg, file, ops);
            && Loaded(h.file).Some?
            && Built(h.trace, key) + Owes(page, epoch, HeldTag(h.file, key)) <=
               Owes(page, epoch, HeldTag(file, key)) + TotalLost(cfg, file, ops, key)
            && Built(h.trace, key) <= 1 + TotalLost(cfg, file, ops, key)
  {
    hide Built, Attempts, Select, Lost, HeldTag, ValidPage, SettlingPage, SeesPage, PollSpec;
    if ops == [] {
      CountersCountNothing(0, [], Running, "", key);
    } else {
      hide Run;
      var front, op := ops[..|ops| - 1], ops[|ops| - 1];
      SettlingHistory(cfg, file, front, page, epoch, key);
      var h := Run(cfg, file, front);
      StepPays(cfg, h.file, op, page, epoch, key);
      RunSplits(cfg, file, ops);
      CountConcat(h.trace, Run(cfg, h.file, [op]).trace, key);
    }
  }

  // ---- A page that does not ----

  /** Away from the first entry, a page that does not settle always has something to dispatch, and
      dispatching it leaves the cursor away from the first entry. */
  lemma NeverSettles(page: seq<string>, epoch: string -> int, last: string)
    requires ValidPage(page, epoch) && !SettlingPage(page, epoch) && last != page[0]
    ensures Select(page, epoch, last) != "" && NextCursor(page, epoch, last) != page[0]
  {
    var i := FindFirstNewest(page, epoch);
    var j :| IsNewest(page, epoch, j) && j != i;
    var k := FindNextNewest(page, epoch, i, j);
    Alternates(page, epoch, last, i, k, 0);
    assert CursorAt(page, epoch, last, 0) == last;
  }

  /** The visits of a key whose backstop run is answered. */
  ghost function Visits(f: Filter, c: Repos, repos: seq<Repo>, us: nat -> Upstream, n: nat, key: string): nat
    requires n <= |repos|
  {
    if n == 0 then 0
    else
      Visits(f, c, repos, us, n - 1, key)
      + var s := After(f, c, repos, us, n - 1);
        if repos[n - 1].Key() == key && s.outcome.Running? && Answered(s.repos, us(n - 1), key) then 1 else 0
  }

  lemma {:induction false} WalkNeverSettles(f: Filter, c: Repos, repos: seq<Repo>, us: nat -> Upstream, n: nat,
                                            page: seq<string>, epoch: string -> int, key: string)
    requires n <= |repos| && SeesPage(repos, us, n, page, epoch, key)
    requires ValidPage(page, epoch) && !SettlingPage(page, epoch) && LastBuilt(c, key) != page[0]
    ensures var s := After(f, c, repos, us, n);
            Attempts(s.trace, key) == Visits(f, c, repos, us, n, key) && LastBuilt(s.repos, key) != page[0]
  {
    hide Repo.Key, VisitStep, Select, ValidPage, NextCursor, IsNewest, Answered, FailingVersion, Built, Attempts, After;
    if n == 0 {
      AfterStart(f, c, repos, us);
      CountersCountNothing(0, [], Running, "", key);
    } else {
      AfterStep(f, c, repos, us, n - 1);
      WalkNeverSettles(f, c, repos, us, n - 1, page, epoch, key);
      var s := After(f, c, repos, us, n - 1);
      VisitOnPage(f, s, repos[n - 1], us(n - 1), page, epoch, key);
      NeverSettles(page, epoch, LastBuilt(s.repos, key));
    }
  }

  /** The visits of one step. */
  ghost function StepVisits(cfg: Config, file: FileState, op: Op, key: string): nat {
    match op
    case Poll(force, scope, w) =>
      var repos := Walked(cfg, scope, w);
      if Loaded(file).None? then 0
      else Visits(CycleFilter(cfg.filter, force), Loaded(file).value, repos, w.us, |repos|, key)
    case _ => 0
  }

  ghost function TotalVisits(cfg: Config, file: FileState, ops: seq<Op>, key: string): nat {
    if ops == [] then 0
    else
      var front := ops[..|ops| - 1];
      TotalVisits(cfg, file, front, key) + StepVisits(cfg, Run(cfg, file, front).file, ops[|ops| - 1], key)
  }

  lemma ScanNeverSettles(cfg: Config, file: FileState, force: bool, repos: seq<Repo>, w: World,
                         page: seq<string>, epoch: string -> int, key: string)
    requires Loaded(file).Some? && SeesPage(repos, w.us, |repos|, page, epoch, key)
    requires ValidPage(page, epoch) && !SettlingPage(page, epoch) && HeldTag(file, key) != page[0]
    ensures var p := ScanSpec(cfg, file, Loaded(file).value, repos, force, w);
            && Loaded(p.file).Some? && HeldTag(p.file, key) != page[0]
            && Attempts(p.trace, key) ==
               Visits(CycleFilter(cfg.filter, force), Loaded(file).value, repos, w.us, |repos|, key)
  {
    hide CycleFilter, Built, Attempts, After, Visits, ValidPage, SeesPage, IsNewest;
    var s := Processed(CycleFilter(cfg.filter, force), Loaded(file).value, repos, w.us);
    WalkNeverSettles(CycleFilter(cfg.filter, force), Loaded(file).value, repos, w.us, |repos|, page, epoch, key);
    CountersCountNothing(|repos|, s.trace, s.outcome, "", key);
  }

  lemma StepNeverSettles(cfg: Config, file: FileState, op: Op, page: seq<string>, epoch: string -> int, key: string)
    requires Loaded(file).Some? && StaysOnPage(cfg, [op], page, epoch, key)
    requires ValidPage(page, epoch) && !SettlingPage(page, epoch) && HeldTag(file, key) != page[0]
    ensures var h := Run(cfg, file, [op]);
            && Loaded(h.file).Some? && HeldTag(h.file, key) != page[0]
            && Attempts(h.trace, key) == StepVisits(cfg, file, op, key)
  {
    hide CycleFilter, Built, Attempts, ScanSpec, Resolve, SeesPage, IsNewest;
    assert op in [op] && [op][..0] == [];
    assert page[0] in page;
    CountersCountNothing(0, [], Running, "", key);
    match op
    case Poll(force, scope, w) =>
      var p := PollSpec(cfg, file, force, scope, w);
      assert [] + p.trace == p.trace;
      if !QuotaGate(cfg, scope, w.remaining) && Resolve(cfg, scope, w.listing).Repositories? {
        ScanNeverSettles(cfg, file, force, Walked(cfg, scope, w), w, page, epoch, key);
      } else if p.trace != [] {
        CountersCountNothing(0, [], Running, p.trace[0].result, key);
      }
    case _ =>
  }

  /** Over any history on a page that does not settle, from a cursor that is not its first entry, every visit
      of the repository whose calls are answered dispatches: no save, operator request or number of cycles
      makes the backstop silent. */
  lemma {:induction false} UnsettlingHistory(cfg: Config, file: FileState, ops: seq<Op>,
                                             page: seq<string>, epoch: string -> int, key: string)
    requires Loaded(file).Some? && StaysOnPage(cfg, ops, page, epoch, key)
    requires ValidPage(page, epoch) && !SettlingPage(page, epoch) && HeldTag(file, key) != page[0]
    ensures var h := Run(cfg, file, ops);
            && Loaded(h.file).Some? && HeldTag(h.file, key) != page[0]
            && Attempts(h.trace, key) == TotalVisits(cfg, file, ops, key)
  {
    hide Built, Attempts, HeldTag, ValidPage, SeesPage, StepVisits, PollSpec, IsNewest;
    if ops == [] {
      CountersCountNothing(0, [], Running, "", key);
    } else {
      hide Run;
      var front, op := ops[..|ops| - 1], ops[|ops| - 1];
      UnsettlingHistory(cfg, file, front, page, epoch, key);
      var h := Run(cfg, file, front);
      StepNeverSettles(cfg, h.file, op, page, epoch, key);
      RunSplits(cfg, file, ops);
      CountConcat(h.trace, Run(cfg, h.file, [op]).trace, key);
    }
  }

  // ---- Changing pages ----

  /** The visit sees some valid page with this tag on it, as far as its calls do not fail. */
  ghost predicate StillListed(epoch: string -> int, tag: string, u: Upstream) {
    exists page :: ValidPage(page, epoch) && tag in page && FailingVersion(Fixed(page, epoch), u.tags)
  }

  lemma VisitKeepsEpoch(f: Filter, s: LoopState, repo: Repo, u: Upstream, epoch: string -> int, key: string)
    requires repo.Key() == key && !u.cancelled ==> StillListed(epoch, LastBuilt(s.repos, key), u)
    ensures epoch(LastBuilt(s.repos, key)) <= epoch(LastBuilt(VisitStep(f, s, repo, u).repos, key))
  {
    hide Repo.Key, Attempts, Built, Answered, Select, ReleaseStep, BackstopStep, NextCursor, ValidPage, FailingVersion;
    if !u.cancelled {
      var last := LastBuilt(s.repos, key);
      if repo.Key() == key {
        var page :| ValidPage(page, epoch) && last in page && FailingVersion(Fixed(page, epoch), u.tags);
        VisitOnPage(f, s, repo, u, page, epoch, key);
        StepKeepsEpoch(page, epoch, last);
      } else {
        VisitOnPage(f, s, repo, u, [], epoch, key);
      }
    }
  }

  /** Every visit of the repository that the walk reaches from position m on finds the live cursor's tag still
      listed. */
  ghost predicate WalkStaysListed(f: Filter, c: Repos, repos: seq<Repo>, us: nat -> Upstream, m: nat, n: nat,
                                  epoch: string -> int, key: string)
    requires n <= |repos|
  {
    forall i: nat | m <= i < n && repos[i].Key() == key && !us(i).cancelled ::
      After(f, c, repos, us, i).outcome.Running? ==>
        StillListed(epoch, LastBuilt(After(f, c, repos, us, i).repos, key), us(i))
  }

  /** While the cursor's tag stays on the pages a walk sees, the epochs it records never decrease. */
  lemma {:induction false} WalkEpochsNeverDecrease(f: Filter, c: Repos, repos: seq<Repo>, us: nat -> Upstream,
                                                   m: nat, n: nat, epoch: string -> int, key: string)
    requires m <= n <= |repos| && WalkStaysListed(f, c, repos, us, m, n, epoch, key)
    ensures epoch(LastBuilt(After(f, c, repos, us, m).repos, key)) <=
            epoch(LastBuilt(After(f, c, repos, us, n).repos, key))
    decreases n
  {
    hide Repo.Key, VisitStep, StillListed;
    if m < n {
      WalkEpochsNeverDecrease(f, c, repos, us, m, n - 1, epoch, key);
      var s := After(f, c, repos, us, n - 1);
      if s.outcome.Running? {
        VisitKeepsEpoch(f, s, repos[n - 1], us(n - 1), epoch, key);
      }
    }
  }

  /** The step is a poll whose walk stays listed, or an operator request that does not change the entry. */
  ghost predicate StepStaysListed(cfg: Config, file: FileState, op: Op, epoch: string -> int, key: string) {
    match op
    case Poll(force, scope, w) =>
      var repos := Walked(cfg, scope, w);
      Loaded(file).Some? ==>
        WalkStaysListed(CycleFilter(cfg.filter, force), Loaded(file).value, repos, w.us, 0, |repos|, epoch, key)
    case _ => Lost(cfg, file, op, key) == 0
  }

  lemma StepKeepsEpochs(cfg: Config, file: FileState, op: Op, epoch: string -> int, key: string)
    requires StepStaysListed(cfg, file, op, epoch, key)
    ensures epoch(HeldTag(file, key)) <= epoch(HeldTag(Run(cfg, file, [op]).file, key))
  {
    hide CycleFilter, Resolve, WalkStaysListed, VisitStep;
    assert [op][..0] == [];
    match op
    case Poll(force, scope, w) =>
      if Loaded(file).Some? {
        var repos := Walked(cfg, scope, w);
        var f, c := CycleFilter(cfg.filter, force), Loaded(file).value;
        WalkEpochsNeverDecrease(f, c, repos, w.us, 0, |repos|, epoch, key);
      }
    case _ =>
  }

  /** Over any history, while the cursor's tag stays on the pages its walks see and no operator changes the
      entry, the epoch of the persisted tag never decreases, whichever dispatches, lookups and saves fail. */
  lemma {:induction false} HistoryEpochsNeverDecrease(cfg: Config, file: FileState, ops: seq<Op>, m: nat, n: nat,
                                                      epoch: string -> int, key: string)
    requires m <= n <= |ops|
    requires forall j | m <= j < n :: StepStaysListed(cfg, Run(cfg, file, ops[..j]).file, ops[j], epoch, key)
    ensures epoch(HeldTag(Run(cfg, file, ops[..m]).file, key)) <= epoch(HeldTag(Run(cfg, file, ops[..n]).file, key))
    decreases n
  {
    hide Run, HeldTag, StepStaysListed;
    if m < n {
      HistoryEpochsNeverDecrease(cfg, file, ops, m, n - 1, epoch, key);
      StepKeepsEpochs(cfg, Run(cfg, file, ops[..n - 1]).file, ops[n - 1], epoch, key);
      assert ops[..n][..n - 1] == ops[..n - 1];
      RunSplits(cfg, file, ops[..n]);
    }
  }
}
