/** Overlapping polls, operator requests and crashes over one cursor file. Every poll works on its own
    in-memory copy; loads and saves of the file are atomic. */
module Interleaving {
  import opened Domain
  import opened Traces
  import opened Filters
  import opened Cursor
  import opened Cycle
  import opened Backstop
  import Changelog

  /** A poll between two of its steps, or an operator request between its load and its save together with
      the event it completes. */
  datatype Proc =
    | Poller(force: bool, repos: seq<Repo>, pos: nat, backstopDone: bool, c: Repos)
    | Operator(c: Repos, pending: seq<Event>)

  /** The history the safety properties are about. */
  datatype Event =
    | Sent(key: string, head: string)
    | SkippedUnchanged(key: string, head: string)
    | OperatorSet(key: string, head: string)
    | TagBuilt(key: string, tag: string)

  /** What a successful save of this process adds to the history. */
  function Pending(p: Proc): seq<Event> {
    if p.Operator? then p.pending else []
  }

  datatype Sys = Sys(file: FileState, procs: map<nat, Proc>, log: seq<Event>)

  /** One atomic step, with everything the environment chooses. */
  datatype Step =
    | StartPoll(pid: nat, force: bool, repos: seq<Repo>)
    | BackstopVisit(pid: nat, u: Upstream)
    | ReleaseVisit(pid: nat, u: Upstream)
    | Save(pid: nat, fault: SaveFault)
    | Discard(pid: nat)
    | StartReset(pid: nat, key: string)
    | StartSet(pid: nat, key: string, sha: string)
    | Crash
    | CrashAfterSend(pid: nat, u: Upstream)

  function EventOf(e: Effect): seq<Event> {
    match e
    case Create(key, _, _, head, _, ok) => if ok then [Sent(key, head)] else []
    case FilterSkip(key, head, reason) => if reason == "sha_unchanged" then [SkippedUnchanged(key, head)] else []
    case Dispatch(key, _, tag, ok) => if ok then [TagBuilt(key, tag)] else []
    case _ => []
  }

  function EventsOf(trace: seq<Effect>): seq<Event> {
    FlatMap(EventOf, trace)
  }

  ghost function Released(allowed: string -> bool, p: Proc, u: Upstream): LoopState
    requires p.Poller? && p.pos < |p.repos|
  {
    ReleaseStep(CycleFilter(StaticFilters(allowed), p.force), LoopState(p.c, [], Running), p.repos[p.pos], u)
  }

  predicate Visiting(s: Sys, pid: nat, backstopDone: bool) {
    && pid in s.procs && s.procs[pid].Poller?
    && s.procs[pid].pos < |s.procs[pid].repos|
    && s.procs[pid].backstopDone == backstopDone
  }

  /** The state after a step; None when the step cannot be taken. A poll may save between any two visits
      (the context was cancelled) and may be discarded at any point (an abort); a crash keeps only the file. */
  ghost function Apply(allowed: string -> bool, s: Sys, step: Step): Option<Sys> {
    match step
    case StartPoll(pid, force, repos) =>
      if pid !in s.procs && Loaded(s.file).Some? then
        Some(s.(procs := s.procs[pid := Poller(force, repos, 0, false, Loaded(s.file).value)]))
      else None
    case BackstopVisit(pid, u) =>
      if Visiting(s, pid, false) then
        var p := s.procs[pid];
        var t := BackstopStep(LoopState(p.c, [], Running), p.repos[p.pos], u);
        Some(s.(procs := s.procs[pid := p.(c := t.repos, backstopDone := true)], log := s.log + EventsOf(t.trace)))
      else None
    case ReleaseVisit(pid, u) =>
      if Visiting(s, pid, true) then
        var p := s.procs[pid];
        var t := Released(allowed, p, u);
        if t.outcome.Running? then
          var p' := p.(c := t.repos, pos := p.pos + 1, backstopDone := false);
          Some(s.(procs := s.procs[pid := p'], log := s.log + EventsOf(t.trace)))
        else Some(s.(procs := s.procs - {pid}))
      else None
    case Save(pid, fault) =>
      if pid in s.procs && (s.procs[pid].Poller? ==> !s.procs[pid].backstopDone) then
        Some(Sys(AfterSave(s.file, s.procs[pid].c, fault), s.procs - {pid},
                 s.log + if fault.NoFault? then Pending(s.procs[pid]) else []))
      else None
    case Discard(pid) => Some(s.(procs := s.procs - {pid}))
    case StartReset(pid, key) =>
      if pid !in s.procs && Loaded(s.file).Some? && key != "" && key in Loaded(s.file).value then
        Some(s.(procs := s.procs[pid := Operator(Loaded(s.file).value - {key}, [])]))
      else None
    case StartSet(pid, key, sha) =>
      if pid !in s.procs && Loaded(s.file).Some? && key != "" && sha != "" then
        var p := Operator(Loaded(s.file).value[key := Entry(sha, "")], [OperatorSet(key, sha)]);
        Some(s.(procs := s.procs[pid := p]))
      else None
    case Crash => Some(s.(procs := map[]))
    case CrashAfterSend(pid, u) =>
      if Visiting(s, pid, true) then
        Some(s.(procs := map[], log := s.log + EventsOf(Released(allowed, s.procs[pid], u).trace)))
      else None
  }

  /** A run: each state follows from the one before by the step between them. */
  ghost predicate IsRun(allowed: string -> bool, run: seq<Sys>, steps: seq<Step>) {
    && |run| == |steps| + 1
    && forall i | 0 <= i < |steps| :: Apply(allowed, run[i], steps[i]) == Some(run[i + 1])
  }

  // ---- Safety ----

  /** The head was sent, or set by an operator, or stood in the initial file. */
  ghost predicate Justified(initial: FileState, log: seq<Event>, key: string, head: string) {
    || Sent(key, head) in log
    || OperatorSet(key, head) in log
    || (Loaded(initial).Some? && LastSeen(Loaded(initial).value, key) == head)
  }

  /** The tag was dispatched, or stood in the initial file. */
  ghost predicate TagJustified(initial: FileState, log: seq<Event>, key: string, tag: string) {
    || TagBuilt(key, tag) in log
    || (Loaded(initial).Some? && LastBuilt(Loaded(initial).value, key) == tag)
  }

  /** Every head and every tag a cursor holds is justified. */
  ghost predicate CursorJustified(initial: FileState, log: seq<Event>, c: Repos) {
    && (forall k | LastSeen(c, k) != "" :: Justified(initial, log, k, LastSeen(c, k)))
    && (forall k | LastBuilt(c, k) != "" :: TagJustified(initial, log, k, LastBuilt(c, k)))
  }

  /** Every skip of a non-empty head as unchanged was justified by then. */
  ghost predicate SkipsJustified(initial: FileState, log: seq<Event>) {
    forall i | 0 <= i < |log| && log[i].SkippedUnchanged? && log[i].head != "" ::
      Justified(initial, log[..i], log[i].key, log[i].head)
  }

  /** What a process holds is justified by the history it would leave behind with its save. */
  ghost predicate ProcJustified(initial: FileState, log: seq<Event>, p: Proc) {
    && CursorJustified(initial, log + Pending(p), p.c)
    && forall e | e in Pending(p) :: e.OperatorSet?
  }

  /** The invariant over the file and every cursor in flight. */
  ghost predicate Inv(initial: FileState, s: Sys) {
    && (Loaded(s.file).Some? ==> CursorJustified(initial, s.log, Loaded(s.file).value))
    && (forall pid | pid in s.procs :: ProcJustified(initial, s.log, s.procs[pid]))
    && SkipsJustified(initial, s.log)
  }

  lemma LogGrows(initial: FileState, log: seq<Event>, log': seq<Event>, c: Repos)
    requires CursorJustified(initial, log, c) && forall e | e in log :: e in log'
    ensures CursorJustified(initial, log', c)
  {
    forall k | LastSeen(c, k) != ""
      ensures Justified(initial, log', k, LastSeen(c, k))
    {
      assert Justified(initial, log, k, LastSeen(c, k));
    }
    forall k | LastBuilt(c, k) != ""
      ensures TagJustified(initial, log', k, LastBuilt(c, k))
    {
      assert TagJustified(initial, log, k, LastBuilt(c, k));
    }
  }

  lemma ProcGrows(initial: FileState, log: seq<Event>, more: seq<Event>, p: Proc)
    requires ProcJustified(initial, log, p)
    ensures ProcJustified(initial, log + more, p)
  {
    hide CursorJustified, Pending;
    LogGrows(initial, log + Pending(p), log + more + Pending(p), p.c);
  }

  lemma SkipsGrowBySets(initial: FileState, log: seq<Event>, more: seq<Event>)
    requires SkipsJustified(initial, log) && forall e | e in more :: e.OperatorSet?
    ensures SkipsJustified(initial, log + more)
  {
    hide Justified;
    var longer := log + more;
    assert forall j | |log| <= j < |longer| :: longer[j] in more;
    forall i | 0 <= i < |longer| && longer[i].SkippedUnchanged? && longer[i].head != ""
      ensures Justified(initial, longer[..i], longer[i].key, longer[i].head)
    {
      assert longer[i] == log[i] && longer[..i] == log[..i];
    }
  }

  lemma SkipsGrow(initial: FileState, log: seq<Event>, e: Event)
    requires SkipsJustified(initial, log)
    requires e.SkippedUnchanged? && e.head != "" ==> Justified(initial, log, e.key, e.head)
    ensures SkipsJustified(initial, log + [e])
  {
    hide Justified;
    var longer := log + [e];
    forall i | 0 <= i < |longer| && longer[i].SkippedUnchanged? && longer[i].head != ""
      ensures Justified(initial, longer[..i], longer[i].key, longer[i].head)
    {
      if i < |log| {
        assert longer[i] == log[i] && longer[..i] == log[..i];
      } else {
        assert longer[..i] == log;
      }
    }
  }

  /** What half a visit can do, as seen by the log: at most one event. A head enters the cursor only when it
      was sent, a tag only when it was dispatched, and a repository is skipped as unchanged only when the
      cursor holds its head. */
  ghost predicate VisitEvents(c: Repos, t: LoopState) {
    var events := EventsOf(t.trace);
    && |events| <= 1
    && (forall k | LastSeen(t.repos, k) != LastSeen(c, k) :: events == [Sent(k, LastSeen(t.repos, k))])
    && (forall k | LastBuilt(t.repos, k) != LastBuilt(c, k) :: events == [TagBuilt(k, LastBuilt(t.repos, k))])
    && (events != [] && events[0].Sent? ==> LastSeen(t.repos, events[0].key) == events[0].head)
    && (events != [] && events[0].SkippedUnchanged? ==> LastSeen(c, events[0].key) == events[0].head)
  }

  /** The gate: an unforced visit sends no head its cursor holds. */
  lemma UnforcedSendsAreNew(allowed: string -> bool, c: Repos, repo: Repo, u: Upstream)
    ensures var t := ReleaseStep(CycleFilter(StaticFilters(allowed), false), LoopState(c, [], Running), repo, u);
            var events := EventsOf(t.trace);
            events != [] && events[0].Sent? ==> LastSeen(c, events[0].key) != events[0].head
  {
    hide Repo.Key, Skip, CycleFilter, StaticFilters, Changelog.Parse, EventsOf;
    var key := repo.Key();
    NoEvent();
    match Gather(u)
    case Release(head, version, bullets, config) =>
      var input := InputOf(repo, Gather(u));
      CycleReason(StaticFilters(allowed), false, input, c);
      SingleEvent(FilterSkip(key, head, Skip(CycleFilter(StaticFilters(allowed), false), input, c)));
      SingleEvent(Create(key, repo.owner, repo.name, head, version, u.sendOk));
    case Prune =>
      SingleEvent(Dropped(key));
    case _ =>
  }

  lemma ReleaseEvents(allowed: string -> bool, force: bool, c: Repos, repo: Repo, u: Upstream)
    ensures VisitEvents(c, ReleaseStep(CycleFilter(StaticFilters(allowed), force), LoopState(c, [], Running), repo, u))
  {
    hide Repo.Key, Skip, CycleFilter, StaticFilters, Changelog.Parse, EventsOf;
    var key := repo.Key();
    NoEvent();
    match Gather(u)
    case Release(head, version, bullets, config) =>
      var input := InputOf(repo, Gather(u));
      CycleReason(StaticFilters(allowed), force, input, c);
      StaticReason(allowed, input, c);
      SingleEvent(FilterSkip(key, head, Skip(CycleFilter(StaticFilters(allowed), force), input, c)));
      SingleEvent(Create(key, repo.owner, repo.name, head, version, u.sendOk));
    case Prune =>
      SingleEvent(Dropped(key));
    case _ =>
  }

  lemma BackstopEvents(c: Repos, repo: Repo, u: Upstream)
    ensures VisitEvents(c, BackstopStep(LoopState(c, [], Running), repo, u))
  {
    hide Repo.Key, BackstopTag, EventsOf;
    NoEvent();
    SingleEvent(Dispatch(repo.Key(), repo.Short(), BackstopTag(c, repo.Key(), u.tags), u.dispatchOk));
  }

  lemma NoEvent()
    ensures EventsOf([]) == []
  {
  }

  lemma SingleEvent(e: Effect)
    ensures EventsOf([] + [e]) == EventOf(e)
  {
    FlatMapSingle(EventOf, e);
    assert [] + [e] == [e];
  }

  lemma EventsKeepSkips(initial: FileState, log: seq<Event>, c: Repos, t: LoopState)
    requires CursorJustified(initial, log, c) && SkipsJustified(initial, log) && VisitEvents(c, t)
    ensures SkipsJustified(initial, log + EventsOf(t.trace))
    ensures CursorJustified(initial, log + EventsOf(t.trace), t.repos)
  {
    hide EventsOf;
    var events := EventsOf(t.trace);
    if events == [] {
      assert log + events == log;
    } else {
      assert events == [events[0]];
      if events[0].SkippedUnchanged? && events[0].head != "" {
        assert Justified(initial, log, events[0].key, LastSeen(c, events[0].key));
      }
      SkipsGrow(initial, log, events[0]);
    }
    LogGrows(initial, log, log + events, c);
    forall k | LastSeen(t.repos, k) != ""
      ensures Justified(initial, log + events, k, LastSeen(t.repos, k))
    {
      if LastSeen(t.repos, k) != LastSeen(c, k) {
        assert events[0] in log + events;
      }
    }
    forall k | LastBuilt(t.repos, k) != ""
      ensures TagJustified(initial, log + events, k, LastBuilt(t.repos, k))
    {
      if LastBuilt(t.repos, k) != LastBuilt(c, k) {
        assert events[0] in log + events;
      }
    }
  }

  lemma GrowProcs(initial: FileState, s: Sys, more: seq<Event>)
    requires Inv(initial, s)
    ensures Loaded(s.file).Some? ==> CursorJustified(initial, s.log + more, Loaded(s.file).value)
    ensures forall pid | pid in s.procs :: ProcJustified(initial, s.log + more, s.procs[pid])
  {
    hide CursorJustified, ProcJustified;
    if Loaded(s.file).Some? {
      LogGrows(initial, s.log, s.log + more, Loaded(s.file).value);
    }
    forall pid | pid in s.procs
      ensures ProcJustified(initial, s.log + more, s.procs[pid])
    {
      ProcGrows(initial, s.log, more, s.procs[pid]);
    }
  }

  lemma PollerJustified(initial: FileState, log: seq<Event>, p: Proc)
    requires p.Poller?
    ensures ProcJustified(initial, log, p) <==> CursorJustified(initial, log, p.c)
  {
    assert log + [] == log;
  }

  /** Every step keeps the invariant. */
  lemma StepKeepsInv(allowed: string -> bool, initial: FileState, s: Sys, step: Step, s': Sys)
    requires Inv(initial, s) && Apply(allowed, s, step) == Some(s')
    ensures Inv(initial, s')
  {
    hide CursorJustified, ProcJustified, SkipsJustified, EventsOf, BackstopStep, ReleaseStep;
    match step
    case StartPoll(pid, _, _) =>
      PollerJustified(initial, s.log, s'.procs[pid]);
    case BackstopVisit(pid, u) =>
      var p := s.procs[pid];
      BackstopEvents(p.c, p.repos[p.pos], u);
      VisitKeepsInv(initial, s, pid, BackstopStep(LoopState(p.c, [], Running), p.repos[p.pos], u));
      PollerJustified(initial, s'.log, s'.procs[pid]);
    case ReleaseVisit(pid, u) =>
      ReleaseKeepsInv(allowed, initial, s, pid, u);
      if pid in s'.procs {
        PollerJustified(initial, s'.log, s'.procs[pid]);
      }
    case CrashAfterSend(pid, u) =>
      ReleaseKeepsInv(allowed, initial, s, pid, u);
    case Save(pid, fault) =>
      SaveKeepsInv(initial, s, pid, fault, s');
    case StartReset(pid, key) =>
      ResetJustified(initial, s.log, Loaded(s.file).value, key);
    case StartSet(pid, key, sha) =>
      SetJustified(initial, s.log, Loaded(s.file).value, key, sha);
    case _ =>
  }

  lemma SaveKeepsInv(initial: FileState, s: Sys, pid: nat, fault: SaveFault, s': Sys)
    requires Inv(initial, s) && pid in s.procs
    requires s' == Sys(AfterSave(s.file, s.procs[pid].c, fault), s.procs - {pid},
                       s.log + if fault.NoFault? then Pending(s.procs[pid]) else [])
    ensures Inv(initial, s')
  {
    hide CursorJustified, SkipsJustified, Pending;
    if fault.NoFault? {
      GrowProcs(initial, s, Pending(s.procs[pid]));
      SkipsGrowBySets(initial, s.log, Pending(s.procs[pid]));
    } else {
      assert s.log + [] == s.log;
    }
  }

  lemma ReleaseKeepsInv(allowed: string -> bool, initial: FileState, s: Sys, pid: nat, u: Upstream)
    requires Inv(initial, s) && Visiting(s, pid, true)
    ensures var t := Released(allowed, s.procs[pid], u);
            var log := s.log + EventsOf(t.trace);
            && SkipsJustified(initial, log) && CursorJustified(initial, log, t.repos)
            && (Loaded(s.file).Some? ==> CursorJustified(initial, log, Loaded(s.file).value))
            && (forall other | other in s.procs :: ProcJustified(initial, log, s.procs[other]))
  {
    hide CursorJustified, ProcJustified, SkipsJustified, EventsOf, ReleaseStep, VisitEvents;
    var p := s.procs[pid];
    ReleaseEvents(allowed, p.force, p.c, p.repos[p.pos], u);
    VisitKeepsInv(initial, s, pid, Released(allowed, p, u));
  }

  lemma VisitKeepsInv(initial: FileState, s: Sys, pid: nat, t: LoopState)
    requires Inv(initial, s) && pid in s.procs && s.procs[pid].Poller? && VisitEvents(s.procs[pid].c, t)
    ensures var log := s.log + EventsOf(t.trace);
            && SkipsJustified(initial, log) && CursorJustified(initial, log, t.repos)
            && (Loaded(s.file).Some? ==> CursorJustified(initial, log, Loaded(s.file).value))
            && (forall other | other in s.procs :: ProcJustified(initial, log, s.procs[other]))
  {
    hide CursorJustified, ProcJustified, SkipsJustified, EventsOf, VisitEvents;
    PollerJustified(initial, s.log, s.procs[pid]);
    EventsKeepSkips(initial, s.log, s.procs[pid].c, t);
    GrowProcs(initial, s, EventsOf(t.trace));
  }

  lemma ResetJustified(initial: FileState, log: seq<Event>, c: Repos, key: string)
    requires CursorJustified(initial, log, c)
    ensures ProcJustified(initial, log, Operator(c - {key}, []))
  {
    hide Justified, TagJustified;
    assert log + [] == log;
    assert forall k | LastSeen(c - {key}, k) != "" :: LastSeen(c - {key}, k) == LastSeen(c, k);
    assert forall k | LastBuilt(c - {key}, k) != "" :: LastBuilt(c - {key}, k) == LastBuilt(c, k);
  }

  lemma SetJustified(initial: FileState, log: seq<Event>, c: Repos, key: string, sha: string)
    requires CursorJustified(initial, log, c)
    ensures ProcJustified(initial, log, Operator(c[key := Entry(sha, "")], [OperatorSet(key, sha)]))
  {
    var log', c' := log + [OperatorSet(key, sha)], c[key := Entry(sha, "")];
    LogGrows(initial, log, log', c);
    assert log'[|log|] == OperatorSet(key, sha);
    forall k | LastSeen(c', k) != ""
      ensures Justified(initial, log', k, LastSeen(c', k))
    {
      if k != key {
        assert LastSeen(c', k) == LastSeen(c, k);
      }
    }
    assert forall k | LastBuilt(c', k) != "" :: LastBuilt(c', k) == LastBuilt(c, k);
  }

  lemma {:induction false} RunKeepsInv(allowed: string -> bool, run: seq<Sys>, steps: seq<Step>, n: nat)
    requires IsRun(allowed, run, steps) && n < |run|
    requires run[0].procs == map[] && run[0].log == []
    ensures Inv(run[0].file, run[n])
  {
    hide Apply;
    if n > 0 {
      RunKeepsInv(allowed, run, steps, n - 1);
      StepKeepsInv(allowed, run[0].file, run[n - 1], steps[n - 1], run[n]);
    }
  }

  /** No release is lost: in every run, whenever a repository is skipped as unchanged at a non-empty head,
      a command for it at that head had been sent, or an operator had set that head and saved it, or the
      initial file held it. */
  lemma NoReleaseIsLost(allowed: string -> bool, run: seq<Sys>, steps: seq<Step>, n: nat, i: nat)
    requires IsRun(allowed, run, steps) && n < |run|
    requires run[0].procs == map[] && run[0].log == []
    requires i < |run[n].log| && run[n].log[i].SkippedUnchanged? && run[n].log[i].head != ""
    ensures var e := run[n].log[i];
            || Sent(e.key, e.head) in run[n].log[..i]
            || OperatorSet(e.key, e.head) in run[n].log[..i]
            || (Loaded(run[0].file).Some? && LastSeen(Loaded(run[0].file).value, e.key) == e.head)
  {
    hide Apply, IsRun;
    RunKeepsInv(allowed, run, steps, n);
    var e := run[n].log[i];
    assert Justified(run[0].file, run[n].log[..i], e.key, e.head);
  }

  /** No tag is forgotten unbuilt: in every run, whatever tag a backstop visit takes from its cursor had been
      dispatched successfully for that repository, or the initial file held it. In particular when the visit
      is silent because the page starts with that tag. */
  lemma NoTagIsLost(allowed: string -> bool, run: seq<Sys>, steps: seq<Step>, n: nat, pid: nat, u: Upstream)
    requires IsRun(allowed, run, steps) && n < |run|
    requires run[0].procs == map[] && run[0].log == []
    requires Visiting(run[n], pid, false)
    ensures var p := run[n].procs[pid];
            var key := p.repos[p.pos].Key();
            var tag := LastBuilt(p.c, key);
            && (tag != "" ==>
                  || TagBuilt(key, tag) in run[n].log
                  || (Loaded(run[0].file).Some? && LastBuilt(Loaded(run[0].file).value, key) == tag))
            && (u.tags.page.Some? && u.tags.page.value != [] && u.tags.page.value[0] == tag ==>
                  BackstopTag(p.c, key, u.tags) == "")
  {
    hide Apply, IsRun, Repo.Key;
    RunKeepsInv(allowed, run, steps, n);
    var p := run[n].procs[pid];
    var key := p.repos[p.pos].Key();
    PollerJustified(run[0].file, run[n].log, p);
    if LastBuilt(p.c, key) != "" {
      assert TagJustified(run[0].file, run[n].log, key, LastBuilt(p.c, key));
    }
  }

  /** An empty head is the exception: a repository never seen before is skipped as unchanged. */
  lemma EmptyHeadIsSkipped(allowed: string -> bool, repo: Repo, u: Upstream)
    requires Gather(u).Release? && Gather(u).head == ""
    requires Skip(StaticFilters(allowed), InputOf(repo, Gather(u)), map[]) == ""
    ensures var blank := LoopState(map[], [], Running);
            EventsOf(ReleaseStep(CycleFilter(StaticFilters(allowed), false), blank, repo, u).trace) ==
            [SkippedUnchanged(repo.Key(), "")]
  {
    hide Repo.Key, Skip, CycleFilter, StaticFilters, Gather;
    CycleReason(StaticFilters(allowed), false, InputOf(repo, Gather(u)), map[]);
    SingleEvent(FilterSkip(repo.Key(), "", "sha_unchanged"));
  }

  // ---- A poll that nobody interrupts ----

  lemma EventsConcat(a: seq<Effect>, b: seq<Effect>)
    ensures EventsOf(a + b) == EventsOf(a) + EventsOf(b)
  {
    FlatMapConcat(EventOf, a, b);
  }

  /** The steps of a poll that visits n repositories undisturbed. */
  function SoloSteps(pid: nat, force: bool, repos: seq<Repo>, us: nat -> Upstream, n: nat): seq<Step> {
    if n == 0 then [StartPoll(pid, force, repos)]
    else SoloSteps(pid, force, repos, us, n - 1) + [BackstopVisit(pid, us(n - 1)), ReleaseVisit(pid, us(n - 1))]
  }

  /** The states along those steps. */
  ghost function SoloRun(allowed: string -> bool, start: Sys, pid: nat, force: bool, repos: seq<Repo>,
                         us: nat -> Upstream, n: nat): seq<Sys>
    requires n <= |repos| && Loaded(start.file).Some?
  {
    var f, c := CycleFilter(StaticFilters(allowed), force), Loaded(start.file).value;
    if n == 0 then [start, SoloState(start, pid, force, repos, 0, LoopState(c, [], Running))]
    else
      var s := After(f, c, repos, us, n - 1);
      SoloRun(allowed, start, pid, force, repos, us, n - 1)
      + [SoloMiddle(start, pid, force, repos, n - 1, s, us(n - 1)),
         SoloState(start, pid, force, repos, n, After(f, c, repos, us, n))]
  }

  /** The system while only this poll runs, at a loop state of the walk. */
  ghost function SoloState(start: Sys, pid: nat, force: bool, repos: seq<Repo>, n: nat, s: LoopState): Sys {
    Sys(start.file, start.procs[pid := Poller(force, repos, n, false, s.repos)], start.log + EventsOf(s.trace))
  }

  ghost function SoloMiddle(start: Sys, pid: nat, force: bool, repos: seq<Repo>, n: nat, s: LoopState, u: Upstream): Sys
    requires n < |repos|
  {
    var p := Poller(force, repos, n, true, BackstopStep(s, repos[n], u).repos);
    Sys(start.file, start.procs[pid := p], start.log + EventsOf(BackstopStep(s, repos[n], u).trace))
  }

  lemma SoloBackstop(allowed: string -> bool, start: Sys, pid: nat, force: bool, repos: seq<Repo>, n: nat, s: LoopState,
                     u: Upstream)
    requires n < |repos| && s.outcome.Running?
    ensures Apply(allowed, SoloState(start, pid, force, repos, n, s), BackstopVisit(pid, u)) ==
            Some(SoloMiddle(start, pid, force, repos, n, s, u))
  {
    hide Repo.Key, BackstopStep, EventsOf;
    var blank := LoopState(s.repos, [], Running);
    assert s == Shift(s.trace, blank);
    ShiftBackstop(s.trace, blank, repos[n], u);
    var inner := BackstopStep(blank, repos[n], u).trace;
    EventsConcat(s.trace, inner);
    assert BackstopStep(s, repos[n], u).trace == s.trace + inner;
    assert start.log + EventsOf(s.trace) + EventsOf(inner) == start.log + (EventsOf(s.trace) + EventsOf(inner));
    var p := Poller(force, repos, n, false, s.repos);
    var p' := p.(c := BackstopStep(s, repos[n], u).repos, backstopDone := true);
    assert start.procs[pid := p][pid := p'] == start.procs[pid := p'];
  }

  /** What a release visit from the middle of a turn does, against the turn of the sequential walk. */
  lemma SoloRelease(allowed: string -> bool, start: Sys, pid: nat, force: bool, repos: seq<Repo>, n: nat, s: LoopState,
                    u: Upstream)
    requires n < |repos| && s.outcome.Running? && !u.cancelled
    ensures var f := CycleFilter(StaticFilters(allowed), force);
            var middle := SoloMiddle(start, pid, force, repos, n, s, u);
            var t := Released(allowed, middle.procs[pid], u);
            var s' := VisitStep(f, s, repos[n], u);
            && t.repos == s'.repos && t.outcome == s'.outcome
            && middle.log + EventsOf(t.trace) == start.log + EventsOf(s'.trace)
  {
    hide Repo.Key, BackstopStep, ReleaseStep, CycleFilter, EventsOf;
    var f := CycleFilter(StaticFilters(allowed), force);
    var b := BackstopStep(s, repos[n], u);
    BackstopRuns(s, repos[n], u);
    var blank := LoopState(b.repos, [], Running);
    assert b == Shift(b.trace, blank);
    ShiftRelease(b.trace, f, blank, repos[n], u);
    EventsConcat(b.trace, ReleaseStep(f, blank, repos[n], u).trace);
  }

  lemma SoloVisit(allowed: string -> bool, start: Sys, pid: nat, force: bool, repos: seq<Repo>, n: nat, s: LoopState,
                  u: Upstream)
    requires n < |repos| && s.outcome.Running?
    requires VisitStep(CycleFilter(StaticFilters(allowed), force), s, repos[n], u).outcome.Running?
    ensures var f := CycleFilter(StaticFilters(allowed), force);
            && Apply(allowed, SoloState(start, pid, force, repos, n, s), BackstopVisit(pid, u)) ==
               Some(SoloMiddle(start, pid, force, repos, n, s, u))
            && Apply(allowed, SoloMiddle(start, pid, force, repos, n, s, u), ReleaseVisit(pid, u)) ==
               Some(SoloState(start, pid, force, repos, n + 1, VisitStep(f, s, repos[n], u)))
  {
    hide Repo.Key, BackstopStep, ReleaseStep, CycleFilter, EventsOf, Released;
    SoloBackstop(allowed, start, pid, force, repos, n, s, u);
    SoloRelease(allowed, start, pid, force, repos, n, s, u);
    var p := Poller(force, repos, n, true, BackstopStep(s, repos[n], u).repos);
    var s' := VisitStep(CycleFilter(StaticFilters(allowed), force), s, repos[n], u);
    var p' := Poller(force, repos, n + 1, false, s'.repos);
    assert start.procs[pid := p][pid := p'] == start.procs[pid := p'];
  }

  lemma BackstopRuns(s: LoopState, repo: Repo, u: Upstream)
    ensures BackstopStep(s, repo, u).outcome == s.outcome
  {
  }

  /** The sequential walk is one of the runs: undisturbed, the steps of a poll reach exactly the cursor and
      the events of the walk. */
  lemma {:induction false} SoloWalkIsARun(allowed: string -> bool, start: Sys, pid: nat, force: bool,
                                          repos: seq<Repo>, us: nat -> Upstream, n: nat)
    requires n <= |repos| && pid !in start.procs && Loaded(start.file).Some?
    requires After(CycleFilter(StaticFilters(allowed), force), Loaded(start.file).value, repos, us, n).outcome.Running?
    ensures var run := SoloRun(allowed, start, pid, force, repos, us, n);
            var s := After(CycleFilter(StaticFilters(allowed), force), Loaded(start.file).value, repos, us, n);
            && IsRun(allowed, run, SoloSteps(pid, force, repos, us, n)) && run[0] == start
            && run[|run| - 1] == SoloState(start, pid, force, repos, n, s)
  {
    hide VisitStep, CycleFilter, SoloState, SoloMiddle, Apply;
    var f, c := CycleFilter(StaticFilters(allowed), force), Loaded(start.file).value;
    if n == 0 {
      SoloStart(allowed, start, pid, force, repos);
    } else {
      SoloWalkIsARun(allowed, start, pid, force, repos, us, n - 1);
      var s := After(f, c, repos, us, n - 1);
      SoloVisit(allowed, start, pid, force, repos, n - 1, s, us(n - 1));
      var run := SoloRun(allowed, start, pid, force, repos, us, n - 1);
      ExtendRun(allowed, run, SoloSteps(pid, force, repos, us, n - 1),
                BackstopVisit(pid, us(n - 1)), SoloMiddle(start, pid, force, repos, n - 1, s, us(n - 1)),
                ReleaseVisit(pid, us(n - 1)), SoloState(start, pid, force, repos, n, After(f, c, repos, us, n)));
    }
  }

  lemma SoloStart(allowed: string -> bool, start: Sys, pid: nat, force: bool, repos: seq<Repo>)
    requires pid !in start.procs && Loaded(start.file).Some?
    ensures Apply(allowed, start, StartPoll(pid, force, repos)) ==
            Some(SoloState(start, pid, force, repos, 0, LoopState(Loaded(start.file).value, [], Running)))
  {
    assert start.log + [] == start.log;
  }

  lemma ExtendRun(allowed: string -> bool, run: seq<Sys>, steps: seq<Step>, a: Step, s: Sys, b: Step, t: Sys)
    requires IsRun(allowed, run, steps)
    requires Apply(allowed, run[|run| - 1], a) == Some(s) && Apply(allowed, s, b) == Some(t)
    ensures IsRun(allowed, run + [s, t], steps + [a, b])
  {
    hide Apply, IsRun;
    ExtendByOne(allowed, run, steps, a, s);
    ExtendByOne(allowed, run + [s], steps + [a], b, t);
    assert run + [s] + [t] == run + [s, t] && steps + [a] + [b] == steps + [a, b];
  }

  lemma ExtendByOne(allowed: string -> bool, run: seq<Sys>, steps: seq<Step>, a: Step, s: Sys)
    requires IsRun(allowed, run, steps) && Apply(allowed, run[|run| - 1], a) == Some(s)
    ensures IsRun(allowed, run + [s], steps + [a])
  {
    hide Apply;
    forall i | 0 <= i < |steps + [a]|
      ensures Apply(allowed, (run + [s])[i], (steps + [a])[i]) == Some((run + [s])[i + 1])
    {
      if i < |steps| {
        assert (steps + [a])[i] == steps[i] && (run + [s])[i] == run[i] && (run + [s])[i + 1] == run[i + 1];
      }
    }
  }

  // ---- Every ending of a poll ----

  /** The system after a poll that left this file and these events behind. */
  ghost function Ended(start: Sys, file: FileState, trace: seq<Effect>): Sys {
    Sys(file, start.procs, start.log + EventsOf(trace))
  }

  /** A poll saves where its loop ended, after the last repository or at a cancellation. */
  lemma SoloSave(allowed: string -> bool, start: Sys, pid: nat, force: bool, repos: seq<Repo>, n: nat, s: LoopState,
                 fault: SaveFault)
    requires n <= |repos| && pid !in start.procs
    ensures Apply(allowed, SoloState(start, pid, force, repos, n, s), Save(pid, fault)) ==
            Some(Ended(start, AfterSave(start.file, s.repos, fault), s.trace))
  {
    hide EventsOf;
    assert start.procs[pid := Poller(force, repos, n, false, s.repos)] - {pid} == start.procs;
    assert start.log + EventsOf(s.trace) + [] == start.log + EventsOf(s.trace);
  }

  /** A turn that aborts or panics ends the poll without a save. */
  lemma SoloStop(allowed: string -> bool, start: Sys, pid: nat, force: bool, repos: seq<Repo>, n: nat, s: LoopState,
                 u: Upstream)
    requires n < |repos| && s.outcome.Running? && pid !in start.procs
    requires var o := VisitStep(CycleFilter(StaticFilters(allowed), force), s, repos[n], u).outcome; !Saves(o)
    ensures Apply(allowed, SoloMiddle(start, pid, force, repos, n, s, u), ReleaseVisit(pid, u)) ==
            Some(Ended(start, start.file, VisitStep(CycleFilter(StaticFilters(allowed), force), s, repos[n], u).trace))
  {
    hide Repo.Key, BackstopStep, CycleFilter, EventsOf, Released, Gather;
    SoloRelease(allowed, start, pid, force, repos, n, s, u);
    StoppingVisit(CycleFilter(StaticFilters(allowed), force), s, repos[n], u);
    var p := Poller(force, repos, n, true, BackstopStep(s, repos[n], u).repos);
    assert start.procs[pid := p] - {pid} == start.procs;
  }

  lemma StoppingVisit(f: Filter, s: LoopState, repo: Repo, u: Upstream)
    requires s.outcome.Running? && !VisitStep(f, s, repo, u).outcome.Running?
    ensures !u.cancelled ==> VisitStep(f, s, repo, u).trace == BackstopStep(s, repo, u).trace
    ensures u.cancelled ==> VisitStep(f, s, repo, u) == s.(outcome := Cancelled)
    ensures VisitStep(f, s, repo, u).outcome.Cancelled? <==> u.cancelled
  {
    hide Repo.Key, BackstopStep, Skip, Changelog.Parse;
    BackstopRuns(s, repo, u);
  }

  /** Where a walk that left early left. */
  lemma {:induction false} StoppedAt(f: Filter, c: Repos, repos: seq<Repo>, us: nat -> Upstream, n: nat)
    returns (m: nat)
    requires n <= |repos| && !After(f, c, repos, us, n).outcome.Running?
    ensures m < n && After(f, c, repos, us, m).outcome.Running?
    ensures After(f, c, repos, us, n) == VisitStep(f, After(f, c, repos, us, m), repos[m], us(m))
  {
    hide VisitStep;
    if After(f, c, repos, us, n - 1).outcome.Running? {
      m := n - 1;
    } else {
      m := StoppedAt(f, c, repos, us, n - 1);
    }
  }

  lemma CountersAreSilent(n: nat, trace: seq<Effect>, outcome: Outcome, result: string)
    ensures EventsOf([Scanned(n)] + trace + LabelOf(outcome)) == EventsOf(trace)
    ensures EventsOf([CycleLabel(result)]) == [] && EventsOf([]) == []
  {
    CountersReadNothing(EventOf, n, trace, outcome);
    FlatMapSingle(EventOf, CycleLabel(result));
  }

  /** A walk is a run however it ends, from its load to its save or its discard. */
  lemma ScanIsARun(cfg: Config, allowed: string -> bool, start: Sys, pid: nat, force: bool, w: World, repos: seq<Repo>)
    returns (run: seq<Sys>, steps: seq<Step>)
    requires cfg.filter == StaticFilters(allowed) && pid !in start.procs && Loaded(start.file).Some?
    ensures IsRun(allowed, run, steps) && run[0] == start
    ensures var p := ScanSpec(cfg, start.file, Loaded(start.file).value, repos, force, w);
            run[|run| - 1] == Ended(start, p.file, p.trace)
  {
    hide Apply, VisitStep, SoloState, SoloMiddle, SoloRun, SoloSteps, CycleFilter, EventsOf;
    var f, c := CycleFilter(cfg.filter, force), Loaded(start.file).value;
    var s := Processed(f, c, repos, w.us);
    CountersAreSilent(|repos|, s.trace, s.outcome, "");
    var m := |repos|;
    if !s.outcome.Running? {
      m := StoppedAt(f, c, repos, w.us, |repos|);
      StoppingVisit(f, After(f, c, repos, w.us, m), repos[m], w.us(m));
    }
    var t := After(f, c, repos, w.us, m);
    SoloWalkIsARun(allowed, start, pid, force, repos, w.us, m);
    run, steps := SoloRun(allowed, start, pid, force, repos, w.us, m), SoloSteps(pid, force, repos, w.us, m);
    if Saves(s.outcome) {
      SoloSave(allowed, start, pid, force, repos, m, t, w.saveFault);
      var end := Ended(start, AfterSave(start.file, t.repos, w.saveFault), t.trace);
      ExtendByOne(allowed, run, steps, Save(pid, w.saveFault), end);
      run, steps := run + [end], steps + [Save(pid, w.saveFault)];
    } else {
      SoloBackstop(allowed, start, pid, force, repos, m, t, w.us(m));
      SoloStop(allowed, start, pid, force, repos, m, t, w.us(m));
      var middle, end := SoloMiddle(start, pid, force, repos, m, t, w.us(m)), Ended(start, start.file, s.trace);
      ExtendRun(allowed, run, steps, BackstopVisit(pid, w.us(m)), middle, ReleaseVisit(pid, w.us(m)), end);
      run, steps := run + [middle, end], steps + [BackstopVisit(pid, w.us(m)), ReleaseVisit(pid, w.us(m))];
    }
  }

  /** Every poll nobody interrupts is a run to the file and the events of the sequential cycle, whether it
      completes, is cancelled, is rate limited, panics, or never starts its walk. */
  lemma UninterruptedPollIsARun(cfg: Config, allowed: string -> bool, start: Sys, pid: nat, force: bool, scope: string,
                                w: World)
    returns (run: seq<Sys>, steps: seq<Step>)
    requires cfg.filter == StaticFilters(allowed) && pid !in start.procs
    ensures IsRun(allowed, run, steps) && run[0] == start
    ensures var p := PollSpec(cfg, start.file, force, scope, w);
            run[|run| - 1] == Ended(start, p.file, p.trace)
  {
    hide Apply, ScanSpec, EventsOf;
    var p := PollSpec(cfg, start.file, force, scope, w);
    if Loaded(start.file).Some? && !QuotaGate(cfg, scope, w.remaining) && Resolve(cfg, scope, w.listing).Repositories? {
      run, steps := ScanIsARun(cfg, allowed, start, pid, force, w, Resolve(cfg, scope, w.listing).repos);
    } else {
      run, steps := [start], [];
      CountersAreSilent(0, [], Running, if p.trace == [] then "" else p.trace[0].result);
      assert start.log + [] == start.log;
    }
  }

  /** Every operator reset nobody interrupts is a run to the file the handler leaves. */
  lemma ResetIsARun(allowed: string -> bool, start: Sys, pid: nat, key: string, fault: SaveFault)
    returns (run: seq<Sys>, steps: seq<Step>)
    requires pid !in start.procs
    ensures IsRun(allowed, run, steps) && run[0] == start
    ensures run[|run| - 1] == start.(file := AfterReset(start.file, key, fault))
  {
    if key != "" && Loaded(start.file).Some? && key in Loaded(start.file).value {
      run, steps := OperatorRun(allowed, start, pid, StartReset(pid, key),
                                Operator(Loaded(start.file).value - {key}, []), fault);
      assert start.log + [] == start.log;
    } else {
      run, steps := [start], [];
    }
  }

  /** Every operator set nobody interrupts is a run to the file the handler leaves, and the history tells
      the set exactly when it was saved. */
  lemma SetIsARun(allowed: string -> bool, start: Sys, pid: nat, key: string, sha: string, fault: SaveFault)
    returns (run: seq<Sys>, steps: seq<Step>)
    requires pid !in start.procs
    ensures IsRun(allowed, run, steps) && run[0] == start
    ensures var done := SetStatus(start.file, key, sha, fault).Done?;
            run[|run| - 1] == Sys(AfterSet(start.file, key, sha, fault), start.procs,
                                  start.log + if done then [OperatorSet(key, sha)] else [])
  {
    if key != "" && sha != "" && Loaded(start.file).Some? {
      var p := Operator(Loaded(start.file).value[key := Entry(sha, "")], [OperatorSet(key, sha)]);
      run, steps := OperatorRun(allowed, start, pid, StartSet(pid, key, sha), p, fault);
    } else {
      run, steps := [start], [];
      assert start.log + [] == start.log;
    }
  }

  /** An operator request that passes its checks: load and change, then save. */
  lemma OperatorRun(allowed: string -> bool, start: Sys, pid: nat, first: Step, p: Proc, fault: SaveFault)
    returns (run: seq<Sys>, steps: seq<Step>)
    requires pid !in start.procs && p.Operator?
    requires Apply(allowed, start, first) == Some(start.(procs := start.procs[pid := p]))
    ensures IsRun(allowed, run, steps) && run[0] == start
    ensures run[|run| - 1] == Sys(AfterSave(start.file, p.c, fault), start.procs,
                                  start.log + if fault.NoFault? then p.pending else [])
  {
    var loaded := start.(procs := start.procs[pid := p]);
    var end := Sys(AfterSave(start.file, p.c, fault), start.procs,
                   start.log + if fault.NoFault? then p.pending else []);
    assert loaded.procs - {pid} == start.procs;
    assert IsRun(allowed, [start], []);
    ExtendRun(allowed, [start], [], first, loaded, Save(pid, fault), end);
    run, steps := [start] + [loaded, end], [] + [first, Save(pid, fault)];
  }
}
