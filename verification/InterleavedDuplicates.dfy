/** How often overlapping cycles can publish a repository's previous head again. */
module InterleavedDuplicates {
  import opened Domain
  import opened Traces
  import opened Filters
  import opened Cursor
  import opened Cycle
  import opened Interleaving
  import Duplicates

  /** The head an event publishes for a key. */
  function HeadIn(key: string): Event -> seq<string> {
    (e: Event) => if e.Sent? && e.key == key then [e.head] else []
  }

  /** The heads successfully published for a key, in order. */
  function Heads(log: seq<Event>, key: string): seq<string> {
    FlatMap(HeadIn(key), log)
  }

  lemma HeadsAppend(log: seq<Event>, e: Event, key: string)
    ensures Heads(log + [e], key) == Heads(log, key) + if e.Sent? && e.key == key then [e.head] else []
  {
    FlatMapAppend(HeadIn(key), log, e);
  }

  lemma HeadsKept(log: seq<Event>, more: seq<Event>, key: string)
    requires forall e | e in more :: !(e.Sent? && e.key == key)
    ensures Heads(log + more, key) == Heads(log, key)
  {
    FlatMapConcat(HeadIn(key), log, more);
    FlatMapNothing(HeadIn(key), more);
  }

  // ---- Cursors in flight that lack the last published head ----

  /** The processes whose cursor would let the last published head through again. */
  function Behind(procs: map<nat, Proc>, heads: seq<string>, key: string): set<nat> {
    set pid | pid in procs && Duplicates.Debt(heads, LastSeen(procs[pid].c, key)) == 1
  }

  lemma BehindWithout(procs: map<nat, Proc>, heads: seq<string>, key: string, pid: nat)
    requires pid in procs
    ensures |Behind(procs, heads, key)| ==
            |Behind(procs - {pid}, heads, key)| + Duplicates.Debt(heads, LastSeen(procs[pid].c, key))
  {
    var all, rest := Behind(procs, heads, key), Behind(procs - {pid}, heads, key);
    if pid in all {
      assert all == rest + {pid};
    } else {
      assert all == rest;
    }
  }

  lemma BehindWith(procs: map<nat, Proc>, heads: seq<string>, key: string, pid: nat, p: Proc)
    ensures |Behind(procs[pid := p], heads, key)| ==
            |Behind(procs - {pid}, heads, key)| + Duplicates.Debt(heads, LastSeen(p.c, key))
  {
    BehindWithout(procs[pid := p], heads, key, pid);
    assert procs[pid := p] - {pid} == procs - {pid};
  }

  lemma NewcomerBehind(procs: map<nat, Proc>, heads: seq<string>, key: string, pid: nat, p: Proc)
    requires pid !in procs
    ensures |Behind(procs[pid := p], heads, key)| ==
            |Behind(procs, heads, key)| + Duplicates.Debt(heads, LastSeen(p.c, key))
  {
    BehindWith(procs, heads, key, pid, p);
    assert procs - {pid} == procs;
  }

  lemma BehindAtMostAll(procs: map<nat, Proc>, heads: seq<string>, key: string, pid: nat)
    requires pid in procs
    ensures |Behind(procs - {pid}, heads, key)| <= |procs| - 1
  {
    assert Behind(procs - {pid}, heads, key) <= procs.Keys - {pid};
    SubsetSize(Behind(procs - {pid}, heads, key), procs.Keys - {pid});
  }

  lemma SubsetSize(a: set<nat>, b: set<nat>)
    requires a <= b
    ensures |a| <= |b|
  {
    assert b == a + (b - a);
  }

  /** Repeats so far, cursors in flight that are behind, and the file while nobody is in flight. */
  function Potential(s: Sys, key: string): nat {
    var heads := Heads(s.log, key);
    Duplicates.Repeats(heads) + |Behind(s.procs, heads, key)|
    + if s.procs == map[] then Duplicates.Debt(heads, Duplicates.Held(s.file, key)) else 0
  }

  // ---- Charges ----

  /** The release half of the visit publishes the repository. */
  ghost predicate Sends(allowed: string -> bool, s: Sys, pid: nat, u: Upstream, key: string)
    requires Visiting(s, pid, true)
  {
    exists head :: EventsOf(Released(allowed, s.procs[pid], u).trace) == [Sent(key, head)]
  }

  /** 1 when a forced visit publishes the head its cursor holds. */
  ghost function Again(allowed: string -> bool, s: Sys, pid: nat, u: Upstream, key: string): nat
    requires Visiting(s, pid, true)
  {
    var p := s.procs[pid];
    if p.force && EventsOf(Released(allowed, p, u).trace) == [Sent(key, LastSeen(p.c, key))] then 1 else 0
  }

  /** What a step may cost a key.
      A load costs one while another process is in flight, and an operator's load one when it changes the key.
      A publish of the key costs one for every other process in flight, whose load it came too late for, and
      one more when a forced visit publishes the head its cursor holds.
      A process that ends without saving costs one, and so does a crash. */
  ghost function Charge(allowed: string -> bool, s: Sys, step: Step, key: string): nat {
    match step
    case StartPoll(_, _, _) => if s.procs != map[] then 1 else 0
    case StartReset(_, k) => if s.procs != map[] || k == key then 1 else 0
    case StartSet(_, k, _) => if s.procs != map[] || k == key then 1 else 0
    case BackstopVisit(_, _) => 0
    case ReleaseVisit(pid, u) =>
      if !Visiting(s, pid, true) then 0
      else if !Released(allowed, s.procs[pid], u).outcome.Running? then 1
      else if Sends(allowed, s, pid, u, key) then |s.procs| - 1 + Again(allowed, s, pid, u, key)
      else 0
    case Save(_, fault) => if fault.NoFault? then 0 else 1
    case Discard(pid) => if pid in s.procs then 1 else 0
    case Crash => if s.procs != map[] then 1 else 0
    case CrashAfterSend(pid, u) => if Visiting(s, pid, true) then 1 + Again(allowed, s, pid, u, key) else 0
  }

  ghost function TotalCharge(allowed: string -> bool, run: seq<Sys>, steps: seq<Step>, n: nat, key: string): nat
    requires n <= |steps| && n < |run|
  {
    if n == 0 then 0
    else TotalCharge(allowed, run, steps, n - 1, key) + Charge(allowed, run[n - 1], steps[n - 1], key)
  }

  // ---- What each kind of step costs ----

  lemma DebtIsABit(heads: seq<string>, held: string)
    ensures Duplicates.Debt(heads, held) <= 1
  {
  }

  /** A process joins with a cursor that owes no more than the file, unless it is charged. */
  lemma JoinCost(s: Sys, pid: nat, p: Proc, key: string, charge: nat)
    requires pid !in s.procs
    requires s.procs == map[] && charge == 0 ==> LastSeen(p.c, key) == Duplicates.Held(s.file, key)
    requires s.procs != map[] ==> charge == 1
    ensures Potential(s.(procs := s.procs[pid := p]), key) <= Potential(s, key) + charge
  {
    hide Heads, Duplicates.Repeats, Duplicates.Debt, Duplicates.Held, Behind;
    var heads := Heads(s.log, key);
    NewcomerBehind(s.procs, heads, key, pid, p);
    DebtIsABit(heads, LastSeen(p.c, key));
    assert s.procs[pid := p] != map[] by { assert pid in s.procs[pid := p]; }
  }

  /** A process leaves and the file is what a save by it, or no save, makes it. */
  lemma LeaveCost(s: Sys, pid: nat, file: FileState, log: seq<Event>, key: string, charge: nat)
    requires pid in s.procs && Heads(log, key) == Heads(s.log, key)
    requires charge == 0 ==> Duplicates.Held(file, key) == LastSeen(s.procs[pid].c, key)
    ensures Potential(Sys(file, s.procs - {pid}, log), key) <= Potential(s, key) + charge
  {
    hide Heads, Duplicates.Repeats, Duplicates.Debt, Duplicates.Held, Behind;
    var heads := Heads(s.log, key);
    BehindWithout(s.procs, heads, key, pid);
    DebtIsABit(heads, Duplicates.Held(file, key));
    assert s.procs != map[];
  }

  /** A process keeps what it holds of the key. */
  lemma StayCost(s: Sys, pid: nat, p: Proc, log: seq<Event>, key: string)
    requires pid in s.procs && Heads(log, key) == Heads(s.log, key)
    requires LastSeen(p.c, key) == LastSeen(s.procs[pid].c, key)
    ensures Potential(s.(procs := s.procs[pid := p], log := log), key) <= Potential(s, key)
  {
    hide Heads, Duplicates.Repeats, Duplicates.Debt, Duplicates.Held, Behind;
    var heads := Heads(s.log, key);
    BehindWithout(s.procs, heads, key, pid);
    BehindWith(s.procs, heads, key, pid, p);
    assert s.procs[pid := p] != map[] by { assert pid in s.procs[pid := p]; }
  }

  /** Publishing the last head again leaves every cursor as far behind as it was. */
  lemma SameLastHead(procs: map<nat, Proc>, heads: seq<string>, head: string, key: string)
    requires heads != [] && heads[|heads| - 1] == head
    ensures Behind(procs, heads + [head], key) == Behind(procs, heads, key)
  {
  }

  lemma RepeatsAppend(heads: seq<string>, head: string)
    ensures Duplicates.Repeats(heads + [head]) ==
            Duplicates.Repeats(heads) + if heads != [] && heads[|heads| - 1] == head then 1 else 0
    ensures Duplicates.Debt(heads + [head], head) == 0
  {
    assert (heads + [head])[..|heads|] == heads;
  }

  /** A publish repeats the last head only from a cursor that was behind, or past the gate. */
  lemma PublishPays(heads: seq<string>, held: string, head: string, again: nat)
    requires held == head ==> again == 1
    ensures Duplicates.Repeats(heads + [head]) <= Duplicates.Repeats(heads) + Duplicates.Debt(heads, held) + again
  {
    RepeatsAppend(heads, head);
  }

  lemma SendCost(s: Sys, pid: nat, p: Proc, log: seq<Event>, head: string, key: string, again: nat)
    requires pid in s.procs && Heads(log, key) == Heads(s.log, key) + [head]
    requires LastSeen(p.c, key) == head && (LastSeen(s.procs[pid].c, key) == head ==> again == 1)
    ensures Potential(s.(procs := s.procs[pid := p], log := log), key) <= Potential(s, key) + |s.procs| - 1 + again
  {
    hide Heads, Duplicates.Repeats, Duplicates.Debt, Duplicates.Held, Behind;
    var heads := Heads(s.log, key);
    BehindWithout(s.procs, heads, key, pid);
    BehindWith(s.procs, heads + [head], key, pid, p);
    RepeatsAppend(heads, head);
    PublishPays(heads, LastSeen(s.procs[pid].c, key), head, again);
    if heads != [] && heads[|heads| - 1] == head {
      SameLastHead(s.procs - {pid}, heads, head, key);
      assert |s.procs| >= 1;
    } else {
      BehindAtMostAll(s.procs, heads + [head], key, pid);
    }
    assert s.procs[pid := p] != map[] by { assert pid in s.procs[pid := p]; }
  }

  lemma CrashCost(s: Sys, pid: nat, log: seq<Event>, key: string, again: nat)
    requires pid in s.procs
    requires Heads(log, key) == Heads(s.log, key)
             || exists head :: Heads(log, key) == Heads(s.log, key) + [head]
                               && (LastSeen(s.procs[pid].c, key) == head ==> again == 1)
    ensures Potential(s.(procs := map[], log := log), key) <= Potential(s, key) + 1 + again
  {
    hide Heads, Duplicates.Repeats, Duplicates.Debt, Duplicates.Held, Behind;
    var heads := Heads(s.log, key);
    BehindWithout(s.procs, heads, key, pid);
    NobodyBehind(Heads(log, key), key);
    DebtIsABit(Heads(log, key), Duplicates.Held(s.file, key));
    if Heads(log, key) != heads {
      var head :| Heads(log, key) == heads + [head] && (LastSeen(s.procs[pid].c, key) == head ==> again == 1);
      PublishPays(heads, LastSeen(s.procs[pid].c, key), head, again);
    }
  }

  lemma NobodyBehind(heads: seq<string>, key: string)
    ensures Behind(map[], heads, key) == {}
  {
  }

  // ---- Runs ----

  /** What a release visit does to the published heads of a key and to its cursor. */
  lemma VisitHeads(allowed: string -> bool, s: Sys, pid: nat, u: Upstream, key: string)
    requires Visiting(s, pid, true)
    ensures var p := s.procs[pid];
            var t := Released(allowed, p, u);
            var log := s.log + EventsOf(t.trace);
            && (!Sends(allowed, s, pid, u, key) ==>
                  Heads(log, key) == Heads(s.log, key) && LastSeen(t.repos, key) == LastSeen(p.c, key))
            && (Sends(allowed, s, pid, u, key) ==>
                  && Heads(log, key) == Heads(s.log, key) + [LastSeen(t.repos, key)]
                  && (LastSeen(p.c, key) == LastSeen(t.repos, key) ==> Again(allowed, s, pid, u, key) == 1))
  {
    hide Repo.Key, ReleaseStep, CycleFilter, EventsOf, Heads;
    var p := s.procs[pid];
    var t := Released(allowed, p, u);
    var events := EventsOf(t.trace);
    ReleaseEvents(allowed, p.force, p.c, p.repos[p.pos], u);
    if Sends(allowed, s, pid, u, key) {
      var head :| events == [Sent(key, head)];
      HeadsAppend(s.log, events[0], key);
      if !p.force {
        UnforcedSendsAreNew(allowed, p.c, p.repos[p.pos], u);
      }
    } else {
      assert events != [] ==> events == [events[0]];
      assert events != [] && events[0].Sent? && events[0].key == key ==> events == [Sent(key, events[0].head)];
      HeadsKept(s.log, events, key);
    }
  }

  lemma BackstopSendsNothing(s: Sys, pid: nat, u: Upstream, key: string)
    requires Visiting(s, pid, false)
    ensures var p := s.procs[pid];
            var t := BackstopStep(LoopState(p.c, [], Running), p.repos[p.pos], u);
            Heads(s.log + EventsOf(t.trace), key) == Heads(s.log, key) && LastSeen(t.repos, key) == LastSeen(p.c, key)
  {
    hide Repo.Key, BackstopTag, EventsOf, Heads;
    var p := s.procs[pid];
    var repo := p.repos[p.pos];
    NoEvent();
    SingleEvent(Dispatch(repo.Key(), repo.Short(), BackstopTag(p.c, repo.Key(), u.tags), u.dispatchOk));
    HeadsKept(s.log, EventsOf(BackstopStep(LoopState(p.c, [], Running), repo, u).trace), key);
  }

  lemma LoadedHeld(file: FileState, key: string)
    requires Loaded(file).Some?
    ensures LastSeen(Loaded(file).value, key) == Duplicates.Held(file, key)
  {
  }

  lemma StepCost(allowed: string -> bool, initial: FileState, s: Sys, step: Step, s': Sys, key: string)
    requires Inv(initial, s) && Apply(allowed, s, step) == Some(s')
    ensures Potential(s', key) <= Potential(s, key) + Charge(allowed, s, step, key)
  {
    hide Potential, Heads, EventsOf, BackstopStep, ReleaseStep, CycleFilter, Inv, Released;
    match step
    case StartPoll(pid, force, repos) =>
      LoadedHeld(s.file, key);
      JoinCost(s, pid, s'.procs[pid], key, Charge(allowed, s, step, key));
    case StartReset(pid, k) =>
      LoadedHeld(s.file, key);
      JoinCost(s, pid, s'.procs[pid], key, Charge(allowed, s, step, key));
    case StartSet(pid, k, sha) =>
      LoadedHeld(s.file, key);
      JoinCost(s, pid, s'.procs[pid], key, Charge(allowed, s, step, key));
    case BackstopVisit(pid, u) =>
      BackstopSendsNothing(s, pid, u, key);
      StayCost(s, pid, s'.procs[pid], s'.log, key);
    case ReleaseVisit(pid, u) =>
      ReleaseCost(allowed, s, pid, u, s', key);
    case Save(pid, fault) =>
      SaveCost(initial, s, pid, fault, s', key);
    case Discard(pid) =>
      if pid in s.procs {
        LeaveCost(s, pid, s.file, s.log, key, 1);
      } else {
        assert s.procs - {pid} == s.procs;
      }
    case Crash =>
      if s.procs != map[] {
        var pid :| pid in s.procs;
        CrashCost(s, pid, s.log, key, 0);
      }
    case CrashAfterSend(pid, u) =>
      VisitHeads(allowed, s, pid, u, key);
      CrashCost(s, pid, s'.log, key, Again(allowed, s, pid, u, key));
  }

  lemma ReleaseCost(allowed: string -> bool, s: Sys, pid: nat, u: Upstream, s': Sys, key: string)
    requires Apply(allowed, s, ReleaseVisit(pid, u)) == Some(s')
    ensures Potential(s', key) <= Potential(s, key) + Charge(allowed, s, ReleaseVisit(pid, u), key)
  {
    hide Potential, Heads, EventsOf, Released, Sends, Again;
    VisitHeads(allowed, s, pid, u, key);
    var t := Released(allowed, s.procs[pid], u);
    if !t.outcome.Running? {
      LeaveCost(s, pid, s.file, s.log, key, 1);
    } else if Sends(allowed, s, pid, u, key) {
      SendCost(s, pid, s'.procs[pid], s'.log, LastSeen(t.repos, key), key, Again(allowed, s, pid, u, key));
    } else {
      StayCost(s, pid, s'.procs[pid], s'.log, key);
    }
  }

  lemma SaveCost(initial: FileState, s: Sys, pid: nat, fault: SaveFault, s': Sys, key: string)
    requires Inv(initial, s) && pid in s.procs
    requires s' == Sys(AfterSave(s.file, s.procs[pid].c, fault), s.procs - {pid},
                       s.log + if fault.NoFault? then Pending(s.procs[pid]) else [])
    ensures Potential(s', key) <= Potential(s, key) + if fault.NoFault? then 0 else 1
  {
    hide Potential, Heads;
    assert ProcJustified(initial, s.log, s.procs[pid]);
    HeadsKept(s.log, if fault.NoFault? then Pending(s.procs[pid]) else [], key);
    LeaveCost(s, pid, s'.file, s'.log, key, if fault.NoFault? then 0 else 1);
  }

  /** The duplicate bound for overlapping processes: in every run the publishes repeating a repository's
      previous head are at most what its steps are charged. */
  lemma {:induction false} InterleavedDuplicateBound(allowed: string -> bool, run: seq<Sys>, steps: seq<Step>, n: nat,
                                                     key: string)
    requires IsRun(allowed, run, steps) && n <= |steps|
    requires run[0].procs == map[] && run[0].log == []
    ensures Potential(run[n], key) <= TotalCharge(allowed, run, steps, n, key)
    ensures Duplicates.Repeats(Heads(run[n].log, key)) <= TotalCharge(allowed, run, steps, n, key)
  {
    hide Apply, Charge, Heads, Behind, Inv;
    if n == 0 {
      NothingOwed(run[0], key);
    } else {
      InterleavedDuplicateBound(allowed, run, steps, n - 1, key);
      RunKeepsInv(allowed, run, steps, n - 1);
      StepCost(allowed, run[0].file, run[n - 1], steps[n - 1], run[n], key);
    }
  }

  lemma NothingOwed(s: Sys, key: string)
    requires s.procs == map[] && s.log == []
    ensures Potential(s, key) == 0
  {
    NobodyBehind([], key);
  }

  // ---- Processes that do not overlap ----

  predicate IsLoad(step: Step) {
    step.StartPoll? || step.StartReset? || step.StartSet?
  }

  /** When every load finds nobody in flight there is never more than one process, so neither loads nor
      publishes are charged for others. */
  lemma {:induction false} SerialRunIsAlone(allowed: string -> bool, run: seq<Sys>, steps: seq<Step>, n: nat)
    requires IsRun(allowed, run, steps) && n <= |steps| && run[0].procs == map[]
    requires forall i | 0 <= i < n && IsLoad(steps[i]) :: run[i].procs == map[]
    ensures |run[n].procs| <= 1
  {
    hide Apply;
    if n > 0 {
      SerialRunIsAlone(allowed, run, steps, n - 1);
      StepSize(allowed, run[n - 1], steps[n - 1], run[n]);
    }
  }

  lemma StepSize(allowed: string -> bool, s: Sys, step: Step, s': Sys)
    requires Apply(allowed, s, step) == Some(s')
    ensures |s'.procs| <= |s.procs| + if IsLoad(step) then 1 else 0
  {
    hide BackstopStep, Released, EventsOf;
    if !IsLoad(step) {
      assert s'.procs.Keys <= s.procs.Keys;
      SubsetSize(s'.procs.Keys, s.procs.Keys);
    }
  }
}
