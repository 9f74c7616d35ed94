/** What a poll and a command do to the cursor file and to the outside, read off their inputs. */
module Polls {
  import opened Domain
  import opened Codecs
  import opened Filters
  import opened Cursor
  import opened Cycle
  import opened Conservation
  import opened Visits

  // ---- How a walk ends ----

  /** The walk goes on after this visit. */
  ghost predicate GoesOn(u: Upstream) {
    !u.cancelled && !LimitReached(u) && !(ReadsAll(u) && HasBlankHeading(u.changelog.value))
  }

  /** Visit m is the first that stops the walk. */
  ghost predicate StopsFirstAt(us: nat -> Upstream, m: nat) {
    !GoesOn(us(m)) && forall i: nat | i < m :: GoesOn(us(i))
  }

  lemma StopsExactly(u: Upstream)
    ensures Stops(u) <==> !GoesOn(u)
    ensures OutcomeOf(u) == if u.cancelled then Cancelled
                            else if LimitReached(u) then Aborted("rate_limited")
                            else if GoesOn(u) then Running else Panicked
  {
    hide Gather, HasBlankHeading;
    GatherExactly(u);
  }

  /** A walk runs to its end exactly when no visit stops it; otherwise the first that does decides: a
      cancellation, a rate limit, or a heading of blanks. */
  lemma WalkEndsExactly(f: Filter, c: Repos, repos: seq<Repo>, us: nat -> Upstream)
    ensures var o := Processed(f, c, repos, us).outcome;
            && (o == Running <==> forall i: nat | i < |repos| :: GoesOn(us(i)))
            && (forall m: nat | m < |repos| && StopsFirstAt(us, m) ::
                  o == if us(m).cancelled then Cancelled
                  else if LimitReached(us(m)) then Aborted("rate_limited") else Panicked)
  {
    hide GoesOn, Stops, OutcomeOf, After, VerdictKeys, KeysOf;
    var m := WalkConserves(f, c, repos, us, |repos|);
    forall i: nat
      ensures Stops(us(i)) <==> !GoesOn(us(i))
    {
      StopsExactly(us(i));
    }
    StopsExactly(us(m));
    forall k: nat | k < |repos| && StopsFirstAt(us, k)
      ensures k == m
    {
      assert Stops(us(k));
    }
  }

  // ---- A poll ----

  /** A scope names a repository of this owner. */
  predicate InScope(owner: string, scope: string, name: string) {
    '/' !in owner && '/' !in name && name != "" && scope == owner + "/" + name
  }

  /** An unreadable cursor, and nothing else, refuses: the file is left alone and nothing happens. */
  lemma UnreadableRefuses(cfg: Config, file: FileState, force: bool, scope: string, w: World)
    ensures PollSpec(cfg, file, force, scope, w).end == LoadError <==> file.Unreadable?
    ensures file.Unreadable? ==> PollSpec(cfg, file, force, scope, w) == PollResult(file, [], LoadError)
  {
  }

  /** A missing cursor is an empty one. */
  lemma MissingStartsEmpty(cfg: Config, force: bool, scope: string, w: World)
    ensures var missing := PollSpec(cfg, Missing, force, scope, w);
            var empty := PollSpec(cfg, Stored(map[]), force, scope, w);
            && missing.trace == empty.trace && missing.end == empty.end
            && (missing.file == empty.file || (missing.file == Missing && empty.file == Stored(map[])))
  {
  }

  /** The known remaining quota is positive and below the threshold of full polls. */
  predicate Deferred(cfg: Config, scope: string, remaining: int) {
    scope == "" && 0 < remaining < cfg.quotaMinRemaining
  }

  /** A full poll with a readable cursor is deferred exactly when the known remaining quota is positive and
      below a positive threshold; a scoped poll never is. */
  lemma DeferredExactly(cfg: Config, file: FileState, force: bool, scope: string, w: World)
    requires !file.Unreadable?
    ensures PollSpec(cfg, file, force, scope, w) == PollResult(file, [CycleLabel("quota_low")], Returned) <==>
            Deferred(cfg, scope, w.remaining)
  {
    if !QuotaGate(cfg, scope, w.remaining) && Resolve(cfg, scope, w.listing).Repositories? {
      assert PollSpec(cfg, file, force, scope, w).trace[0].Scanned?;
    }
  }

  /** A poll without repositories to walk: a foreign scope does nothing at all, a failed listing counts its
      label, and neither touches the file. */
  lemma UnresolvedExactly(cfg: Config, file: FileState, force: bool, scope: string, w: World)
    requires !file.Unreadable?
    requires !Deferred(cfg, scope, w.remaining)
    ensures var p := PollSpec(cfg, file, force, scope, w);
            && ((scope != "" && forall name :: !InScope(cfg.owner, scope, name)) ==>
                  p == PollResult(file, [], Returned))
            && (scope == "" && w.listing.RateLimited? ==> p == PollResult(file, [CycleLabel("rate_limited")], Returned))
            && (scope == "" && w.listing.Failed? ==> p == PollResult(file, [CycleLabel("github_error")], Returned))
  {
    hide ScopeRepo;
    if scope != "" && ScopeRepo(scope, cfg.owner).Some? {
      var repo := ScopeRepo(scope, cfg.owner).value;
      ScopeRepoExact(scope, cfg.owner, repo);
      assert InScope(cfg.owner, scope, repo.name);
    }
  }

  /** The repositories of a poll: the one its scope names, or the listed ones. */
  predicate Walks(cfg: Config, scope: string, listing: Reply<seq<Repo>>, repos: seq<Repo>) {
    if scope != "" then
      |repos| == 1 && repos[0] == Repo(cfg.owner, repos[0].name, "", false) && InScope(cfg.owner, scope, repos[0].name)
    else listing == Ok(repos)
  }

  lemma WalksExactly(cfg: Config, scope: string, listing: Reply<seq<Repo>>, repos: seq<Repo>)
    ensures Resolve(cfg, scope, listing) == Repositories(repos) <==> Walks(cfg, scope, listing, repos)
  {
    hide ScopeRepo;
    if scope != "" {
      if Walks(cfg, scope, listing, repos) {
        ScopeRepoExact(scope, cfg.owner, repos[0]);
        assert repos == [repos[0]];
      }
      if ScopeRepo(scope, cfg.owner).Some? {
        ScopeRepoExact(scope, cfg.owner, ScopeRepo(scope, cfg.owner).value);
      }
    }
  }

  /** A poll that walks counts its repositories, does what the walk does from the cursor of the file, and then:
      a completed or cancelled walk counts success and saves what it did, if the save works; a rate limit
      counts itself and saves nothing; a panic does neither. */
  lemma WalkingPollExactly(cfg: Config, file: FileState, force: bool, scope: string, w: World, repos: seq<Repo>)
    requires !file.Unreadable? && Walks(cfg, scope, w.listing, repos)
    requires !Deferred(cfg, scope, w.remaining)
    ensures var p := PollSpec(cfg, file, force, scope, w);
            var s := Processed(CycleFilter(cfg.filter, force), if file.Stored? then file.repos else map[], repos, w.us);
            && (s.outcome == Running || s.outcome == Cancelled ==>
                  && p.trace == [Scanned(|repos|)] + s.trace + [CycleLabel("success")] && p.end == Returned
                  && p.file == if w.saveFault == NoFault then Stored(s.repos) else file)
            && (s.outcome.Aborted? ==>
                  && p.trace == [Scanned(|repos|)] + s.trace + [CycleLabel("rate_limited")] && p.end == Returned
                  && p.file == file)
            && (s.outcome.Panicked? ==>
                  && p.trace == [Scanned(|repos|)] + s.trace && p.end == Crashed && p.file == file)
  {
    hide After, CycleFilter, ScopeRepo, InScope;
    WalksExactly(cfg, scope, w.listing, repos);
    var c := if file.Stored? then file.repos else map[];
    AbortIsRateLimited(CycleFilter(cfg.filter, force), c, repos, w.us, |repos|);
  }

  // ---- A command ----

  /** No effect of a poll is a dispatch for a command: those of its backstop carry the visited key. */
  lemma PollDispatchesForVisits(cfg: Config, file: FileState, force: bool, scope: string, w: World, e: Effect)
    requires e in PollSpec(cfg, file, force, scope, w).trace && e.Dispatch?
    ensures e.key != ""
  {
    hide After, CycleFilter, Resolve, Tells;
    var p := PollSpec(cfg, file, force, scope, w);
    if Loaded(file).Some? && Resolve(cfg, scope, w.listing).Repositories? {
      var f, c, repos := CycleFilter(cfg.filter, force), Loaded(file).value, Resolve(cfg, scope, w.listing).repos;
      var s := Processed(f, c, repos, w.us);
      assert p.trace == [Scanned(|repos|)] + s.trace + LabelOf(s.outcome) && e in s.trace;
      WalkTells(f, c, repos, w.us, |repos|, e);
      var i: nat :| i < |repos| && Tells(e, repos[i], w.us(i));
      TellsAKey(e, repos[i], w.us(i));
    }
  }

  lemma TellsAKey(e: Effect, repo: Repo, u: Upstream)
    requires Tells(e, repo, u) && e.Dispatch?
    ensures e.key != ""
  {
    assert e.key[0] == 'g';
  }

  /** A command, exactly. With a tag, the first thing it does is to ask for one build of its scope at its tag;
      when that fails it is all it does. Otherwise the poll of its scope follows, and is all a command
      without a tag does. It is retried for a failed build request or an unreadable cursor, crashes when its
      poll meets a heading of blanks, and succeeds in every other case. */
  lemma CommandExactly(cfg: Config, file: FileState, cmd: Command, dispatchOk: bool, w: World)
    ensures var r := ExecSpec(cfg, file, cmd, dispatchOk, w);
            var p := PollSpec(cfg, file, cmd.force, cmd.scope, w);
            var build := Dispatch("", cmd.scope, cmd.tag, dispatchOk);
            var refused := cmd.tag != "" && !dispatchOk;
            && (refused ==> r == ExecResult(file, [build], Retried))
            && (cmd.tag != "" && dispatchOk ==> r.trace == [build] + p.trace && r.file == p.file)
            && (cmd.tag == "" ==> r.trace == p.trace && r.file == p.file)
            && (forall e | e in p.trace && e.Dispatch? :: e.key != "")
            && (r.end == Retried <==> refused || file.Unreadable?)
            && (r.end == ExecCrashed <==>
                && !refused && !file.Unreadable?
                && !Deferred(cfg, cmd.scope, w.remaining)
                && exists repos :: Walks(cfg, cmd.scope, w.listing, repos) && MeetsBlankHeading(repos, w.us))
  {
    hide ScanSpec, Resolve, Walks, MeetsBlankHeading;
    var r, p := ExecSpec(cfg, file, cmd, dispatchOk, w), PollSpec(cfg, file, cmd.force, cmd.scope, w);
    UnreadableRefuses(cfg, file, cmd.force, cmd.scope, w);
    PollCrashesExactly(cfg, file, cmd.force, cmd.scope, w);
    assert [] + p.trace == p.trace;
    forall e | e in p.trace && e.Dispatch?
      ensures e.key != ""
    {
      PollDispatchesForVisits(cfg, file, cmd.force, cmd.scope, w, e);
    }
    ResolvedWalks(cfg, cmd.scope, w);
  }

  lemma ResolvedWalks(cfg: Config, scope: string, w: World)
    ensures Resolve(cfg, scope, w.listing).Repositories?
            && MeetsBlankHeading(Resolve(cfg, scope, w.listing).repos, w.us) <==>
            exists repos :: Walks(cfg, scope, w.listing, repos) && MeetsBlankHeading(repos, w.us)
  {
    hide Resolve, Walks, MeetsBlankHeading;
    if Resolve(cfg, scope, w.listing).Repositories? {
      WalksExactly(cfg, scope, w.listing, Resolve(cfg, scope, w.listing).repos);
    }
    forall repos
      ensures Resolve(cfg, scope, w.listing) == Repositories(repos) <==> Walks(cfg, scope, w.listing, repos)
    {
      WalksExactly(cfg, scope, w.listing, repos);
    }
  }
}
