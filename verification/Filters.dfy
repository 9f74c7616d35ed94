/** The task-creation filter chain. A filter answers with the metric label of its skip, "" to pass. */
module Filters {
  import opened Domain

  datatype FilterInput = FilterInput(key: string, head: string, bullets: nat, autoRelease: bool, fork: bool,
                                     allowFork: bool)

  /** A cursor-independent predicate, the cursor-aware gate, or a composite. */
  datatype Filter = Func(reason: FilterInput -> string) | SHAUnchanged | Chain(members: seq<Filter>)

  /** Skip, with the cursor as it stands when the filter is asked. */
  function Skip(f: Filter, r: FilterInput, live: Repos): string
    decreases f, 0
  {
    match f
    case Func(reason) => reason(r)
    case SHAUnchanged => if LastSeen(live, r.key) == r.head then "sha_unchanged" else ""
    case Chain(members) => FirstReason(members, r, live)
  }

  /** The composite: the first non-empty reason. */
  function FirstReason(fs: seq<Filter>, r: FilterInput, live: Repos): string
    decreases fs, 1
  {
    if fs == [] then ""
    else if Skip(fs[0], r, live) != "" then Skip(fs[0], r, live)
    else FirstReason(fs[1..], r, live)
  }

  function RepoAllowlist(allowed: string -> bool): Filter {
    Func((r: FilterInput) => if allowed(r.key) then "" else "scope")
  }

  const EMPTY_UNRELEASED: Filter := Func((r: FilterInput) => if r.bullets == 0 then "empty_unreleased" else "")

  const AUTO_RELEASE: Filter := Func((r: FilterInput) => if r.autoRelease then "" else "auto_release")

  const FORK_GATE: Filter := Func((r: FilterInput) => if !r.fork || r.allowFork then "" else "fork")

  /** The cycle-invariant chain the service is wired with. */
  function StaticFilters(allowed: string -> bool): Filter {
    Chain([RepoAllowlist(allowed), EMPTY_UNRELEASED, AUTO_RELEASE, FORK_GATE])
  }

  /** The chain of one cycle: a forced cycle leaves out the cursor-aware gate. */
  function CycleFilter(base: Filter, force: bool): Filter {
    Chain([base] + if force then [] else [SHAUnchanged])
  }

  /** The composite passes exactly when every member passes, and otherwise gives the reason of the first
      member that objects. */
  lemma {:induction false} CompositeExact(fs: seq<Filter>, r: FilterInput, live: Repos)
    ensures FirstReason(fs, r, live) == "" <==> forall i | 0 <= i < |fs| :: Skip(fs[i], r, live) == ""
    ensures forall i |
              0 <= i < |fs| && Skip(fs[i], r, live) != "" && (forall j | 0 <= j < i :: Skip(fs[j], r, live) == "") ::
              FirstReason(fs, r, live) == Skip(fs[i], r, live)
  {
    if fs != [] {
      var rest := fs[1..];
      CompositeExact(rest, r, live);
      assert forall i | 0 < i < |fs| :: fs[i] == rest[i - 1];
      forall i | 0 <= i < |fs| && Skip(fs[i], r, live) != "" && (forall j | 0 <= j < i :: Skip(fs[j], r, live) == "")
        ensures FirstReason(fs, r, live) == Skip(fs[i], r, live)
      {
        if i > 0 {
          assert Skip(fs[0], r, live) == "";
          assert forall j | 0 <= j < i - 1 :: rest[j] == fs[j + 1];
          assert Skip(rest[i - 1], r, live) != "";
        }
      }
      if FirstReason(fs, r, live) == "" {
        forall i | 0 <= i < |fs|
          ensures Skip(fs[i], r, live) == ""
        {
          if i > 0 {
            assert fs[i] == rest[i - 1];
          }
        }
      }
    }
  }

  lemma FirstReasonCons(f: Filter, fs: seq<Filter>, r: FilterInput, live: Repos)
    ensures FirstReason([f] + fs, r, live) ==
            if Skip(f, r, live) != "" then Skip(f, r, live) else FirstReason(fs, r, live)
  {
    assert ([f] + fs)[1..] == fs;
  }

  /** The static chain objects exactly to repositories out of scope, without bullets, not opted in, or
      forked without leave, in that order. */
  lemma StaticReason(allowed: string -> bool, r: FilterInput, live: Repos)
    ensures Skip(StaticFilters(allowed), r, live) ==
            if !allowed(r.key) then "scope"
            else if r.bullets == 0 then "empty_unreleased"
            else if !r.autoRelease then "auto_release"
            else if r.fork && !r.allowFork then "fork"
            else ""
  {
    FirstReasonCons(FORK_GATE, [], r, live);
    FirstReasonCons(AUTO_RELEASE, [FORK_GATE], r, live);
    FirstReasonCons(EMPTY_UNRELEASED, [AUTO_RELEASE, FORK_GATE], r, live);
    FirstReasonCons(RepoAllowlist(allowed), [EMPTY_UNRELEASED, AUTO_RELEASE, FORK_GATE], r, live);
    assert [FORK_GATE] == [FORK_GATE] + [];
    assert [AUTO_RELEASE, FORK_GATE] == [AUTO_RELEASE] + [FORK_GATE];
    assert [EMPTY_UNRELEASED, AUTO_RELEASE, FORK_GATE] == [EMPTY_UNRELEASED] + [AUTO_RELEASE, FORK_GATE];
    assert StaticFilters(allowed).members == [RepoAllowlist(allowed)] + [EMPTY_UNRELEASED, AUTO_RELEASE, FORK_GATE];
  }

  /** A cycle skips for the static reason first, and as unchanged only when it is not forced and the
      cursor holds the head. */
  lemma CycleReason(base: Filter, force: bool, r: FilterInput, live: Repos)
    ensures Skip(CycleFilter(base, force), r, live) ==
            if Skip(base, r, live) != "" then Skip(base, r, live)
            else if !force && LastSeen(live, r.key) == r.head then "sha_unchanged"
            else ""
  {
    FirstReasonCons(SHAUnchanged, [], r, live);
    assert [SHAUnchanged] == [SHAUnchanged] + [];
    FirstReasonCons(base, if force then [] else [SHAUnchanged], r, live);
  }

  /** A filter asks the cursor for nothing but the head of the repository it is about. */
  lemma {:induction false} SkipReadsOwnHead(f: Filter, r: FilterInput, live: Repos, live': Repos)
    requires LastSeen(live, r.key) == LastSeen(live', r.key)
    ensures Skip(f, r, live) == Skip(f, r, live')
    decreases f, 0
  {
    if f.Chain? {
      FirstReasonReadsOwnHead(f.members, r, live, live');
    }
  }

  lemma {:induction false} FirstReasonReadsOwnHead(fs: seq<Filter>, r: FilterInput, live: Repos, live': Repos)
    requires LastSeen(live, r.key) == LastSeen(live', r.key)
    ensures FirstReason(fs, r, live) == FirstReason(fs, r, live')
    decreases fs, 1
  {
    if fs != [] {
      SkipReadsOwnHead(fs[0], r, live, live');
      FirstReasonReadsOwnHead(fs[1..], r, live, live');
    }
  }

  /** The filter asks the cursor nothing. */
  ghost predicate CursorFree(f: Filter) {
    match f
    case Func(_) => true
    case SHAUnchanged => false
    case Chain(members) => forall m | m in members :: CursorFree(m)
  }

  /** The service's cycle-invariant chain asks the cursor nothing. */
  lemma StaticFiltersAreCursorFree(allowed: string -> bool)
    ensures CursorFree(StaticFilters(allowed))
  {
  }

  lemma {:induction false} CursorFreeSkip(f: Filter, r: FilterInput, live: Repos, live': Repos)
    requires CursorFree(f)
    ensures Skip(f, r, live) == Skip(f, r, live')
    decreases f, 0
  {
    if f.Chain? {
      CursorFreeFirst(f.members, r, live, live');
    }
  }

  lemma {:induction false} CursorFreeFirst(fs: seq<Filter>, r: FilterInput, live: Repos, live': Repos)
    requires forall f | f in fs :: CursorFree(f)
    ensures FirstReason(fs, r, live) == FirstReason(fs, r, live')
    decreases fs, 1
  {
    if fs != [] {
      CursorFreeSkip(fs[0], r, live, live');
      CursorFreeFirst(fs[1..], r, live, live');
    }
  }
}
