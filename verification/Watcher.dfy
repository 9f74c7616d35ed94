/** The watcher: a poll cycle that loads the cursor, walks the repositories, mutates the cursor in place
    and saves or discards it. Every method is tied to its function in Cycle. */
module Watcher {
  import opened Domain
  import opened Codecs
  import Changelog
  import opened Backstop
  import opened Filters
  import opened Cursor
  import opened Cycle

  class Watcher {
    const cfg: Config
    const store: CursorStore
    /** Everything sent and counted so far. */
    var trace: seq<Effect>

    constructor (cfg: Config, store: CursorStore)
      ensures this.cfg == cfg && this.store == store && trace == []
    {
      this.cfg, this.store, trace := cfg, store, [];
    }

    /** Poll: one scan cycle. */
    method Poll(skipSHAUnchanged: bool, scope: string, w: World) returns (end: PollEnd)
      modifies this, store
      ensures var p := PollSpec(cfg, old(store.file), skipSHAUnchanged, scope, w);
              store.file == p.file && trace == old(trace) + p.trace && end == p.end
    {
      hide ScanSpec, Resolve;
      var cursor := store.Load();
      if cursor == null {
        return LoadError;
      }
      if scope == "" && cfg.quotaMinRemaining > 0 && w.remaining > 0 && w.remaining < cfg.quotaMinRemaining {
        trace := trace + [CycleLabel("quota_low")];
        return Returned;
      }
      var repos, ok := ResolveRepos(scope, w.listing);
      if !ok {
        return Returned;
      }
      end := Scan(cursor, repos, skipSHAUnchanged, w);
    }

    /** The part of a cycle after its repositories are known: compose the filter chain, walk, save or discard. */
    method Scan(cursor: CursorState, repos: seq<Repo>, skipSHAUnchanged: bool, w: World) returns (end: PollEnd)
      requires cursor.Valid() && this !in cursor.Footprint() && store !in cursor.Footprint()
      modifies this, store, cursor.Footprint()
      ensures var p := ScanSpec(cfg, old(store.file), old(cursor.View()), repos, skipSHAUnchanged, w);
              store.file == p.file && trace == old(trace) + p.trace && end == p.end
    {
      hide CycleFilter, Processed, AfterSave, LabelOf, Saves;
      trace := trace + [Scanned(|repos|)];
      var outcome := ProcessRepos(cursor, repos, CycleFilter(cfg.filter, skipSHAUnchanged), w.us);
      end := Conclude(cursor, outcome, w.saveFault);
    }

    /** The end of a cycle: nothing is saved after an abort. */
    method Conclude(cursor: CursorState, outcome: Outcome, fault: SaveFault) returns (end: PollEnd)
      modifies this`trace, store
      ensures end == if outcome.Panicked? then Crashed else Returned
      ensures trace == old(trace) + LabelOf(outcome)
      ensures store.file == if Saves(outcome) then AfterSave(old(store.file), cursor.View(), fault) else old(store.file)
    {
      match outcome {
        case Panicked =>
          return Crashed;
        case Aborted(reason) =>
          trace := trace + [CycleLabel(reason)];
          return Returned;
        case _ =>
          var saved := store.Save(cursor, fault);
          trace := trace + [CycleLabel("success")];
          return Returned;
      }
    }

    /** resolveRepos: the fleet, or the one repository of a webhook scope. */
    method ResolveRepos(scope: string, listing: Reply<seq<Repo>>) returns (repos: seq<Repo>, ok: bool)
      modifies this
      ensures var r := Resolve(cfg, scope, listing);
              && (ok ==> r == Repositories(repos) && trace == old(trace))
              && (!ok ==>
                    && r.Unresolved?
                    && trace == old(trace) + (if r.result == "" then [] else [CycleLabel(r.result)]))
    {
      if scope != "" {
        var repo := ScopeRepo(scope, cfg.owner);
        if repo.None? {
          return [], false;
        }
        return [repo.value], true;
      }
      match listing {
        case Ok(all) => return all, true;
        case RateLimited =>
          trace := trace + [CycleLabel("rate_limited")];
          return [], false;
        case Failed =>
          trace := trace + [CycleLabel("github_error")];
          return [], false;
      }
    }

    /** processRepos: the sequential walk. */
    method ProcessRepos(cursor: CursorState, repos: seq<Repo>, cycleFilter: Filter, us: nat -> Upstream)
      returns (outcome: Outcome)
      requires cursor.Valid() && this !in cursor.Footprint() && store !in cursor.Footprint()
      modifies this`trace, cursor.Footprint()
      ensures cursor.Valid() && fresh(cursor.Footprint() - old(cursor.Footprint()))
      ensures LoopState(cursor.View(), trace, outcome) ==
              Shift(old(trace), Processed(cycleFilter, old(cursor.View()), repos, us))
    {
      hide Repo.Key, VisitStep;
      ghost var c := cursor.View();
      for i := 0 to |repos|
        invariant cursor.Valid() && fresh(cursor.Footprint() - old(cursor.Footprint()))
        invariant LoopState(cursor.View(), trace, Running) == Shift(old(trace), After(cycleFilter, c, repos, us, i))
      {
        var repo, u := repos[i], us(i);
        ShiftVisit(old(trace), cycleFilter, After(cycleFilter, c, repos, us, i), repo, u);
        outcome := VisitRepo(repo, cursor, cycleFilter, u);
        if outcome != Running {
          LoopStopped(cycleFilter, c, repos, us, i + 1);
          return;
        }
      }
      return Running;
    }

    /** One turn of the walk. The backstop runs before the release filters. */
    method VisitRepo(repo: Repo, cursor: CursorState, cycleFilter: Filter, u: Upstream) returns (outcome: Outcome)
      requires cursor.Valid() && this !in cursor.Footprint()
      modifies this`trace, cursor.Footprint()
      ensures cursor.Valid() && fresh(cursor.Footprint() - old(cursor.Footprint()))
      ensures LoopState(cursor.View(), trace, outcome) ==
              VisitStep(cycleFilter, LoopState(old(cursor.View()), old(trace), Running), repo, u)
    {
      hide Repo.Key, Gather, Skip, BackstopTag;
      if u.cancelled {
        return Cancelled;
      }
      RunBackstop(repo, cursor, u);
      outcome := ReleaseRepo(repo, cursor, cycleFilter, u);
    }

    /** The release half of one visit: gather, filter against the live cursor, publish, remember the head. */
    method ReleaseRepo(repo: Repo, cursor: CursorState, cycleFilter: Filter, u: Upstream) returns (outcome: Outcome)
      requires cursor.Valid() && this !in cursor.Footprint()
      modifies this`trace, cursor.Footprint()
      ensures cursor.Valid() && fresh(cursor.Footprint() - old(cursor.Footprint()))
      ensures LoopState(cursor.View(), trace, outcome) ==
              ReleaseStep(cycleFilter, LoopState(old(cursor.View()), old(trace), Running), repo, u)
    {
      hide Repo.Key;
      var g := GatherRelease(u);
      match g {
        case Abort(reason) =>
          return Aborted(reason);
        case Panic =>
          return Panicked;
        case Prune =>
          trace := trace + [Dropped(repo.Key())];
          return Running;
        case Release(head, version, bullets, config) =>
          var input := FilterInput(repo.Key(), head, bullets, config.autoRelease, repo.fork, config.allowFork);
          var reason := Skip(cycleFilter, input, cursor.View());
          if reason != "" {
            trace := trace + [FilterSkip(repo.Key(), head, reason)];
            return Running;
          }
          trace := trace + [Create(repo.Key(), repo.owner, repo.name, head, version, u.sendOk)];
          if u.sendOk {
            cursor.RecordHead(repo.Key(), head);
          }
          return Running;
      }
    }

    /** runBackstop: read the handled tag without creating an entry, dispatch, remember. */
    method RunBackstop(repo: Repo, cursor: CursorState, u: Upstream)
      requires cursor.Valid() && this !in cursor.Footprint()
      modifies this`trace, cursor.Footprint()
      ensures cursor.Valid() && fresh(cursor.Footprint() - old(cursor.Footprint()))
      ensures var s := BackstopStep(LoopState(old(cursor.View()), old(trace), Running), repo, u);
              LoopState(cursor.View(), trace, Running) == s
    {
      hide Repo.Key, Newest;
      var lastBuilt := "";
      if repo.Key() in cursor.repos {
        lastBuilt := cursor.repos[repo.Key()].lastBuiltTag;
      }
      assert lastBuilt == LastBuilt(cursor.View(), repo.Key());
      var pick, lookups := NewestUnbuiltTag(lastBuilt, u.tags);
      if pick.PickError? || pick.name == "" {
        return;
      }
      trace := trace + [Dispatch(repo.Key(), repo.Short(), pick.name, u.dispatchOk)];
      if !u.dispatchOk {
        return;
      }
      cursor.RecordTag(repo.Key(), pick.name);
    }

    /** gatherRelease: head, changelog and configuration of one repository. */
    method GatherRelease(u: Upstream) returns (g: Gathered)
      ensures g == Gather(u)
    {
      match u.head {
        case RateLimited => return Abort("rate_limited");
        case Failed => return Prune;
        case Ok(head) =>
          match u.changelog {
            case RateLimited => return Abort("rate_limited");
            case Failed => return Prune;
            case Ok(lines) =>
              match u.config {
                case RateLimited => return Abort("rate_limited");
                case Failed => return Prune;
                case Ok(config) =>
                  var summary := Changelog.ParseChangelog(lines);
                  if summary.None? {
                    return Panic;
                  }
                  var version := summary.value.latestVersion;
                  if version == "" {
                    version := "v0.0.0";
                  }
                  return Release(head, version, summary.value.unreleasedBullets, config);
              }
          }
      }
    }
  }

  /** runTriggerReleaseCheck: the tag's build first, then the cycle. */
  method RunTriggerReleaseCheck(watcher: Watcher, cmd: Command, dispatchOk: bool, w: World) returns (end: ExecEnd)
    modifies watcher, watcher.store
    ensures var r := ExecSpec(watcher.cfg, old(watcher.store.file), cmd, dispatchOk, w);
            && watcher.store.file == r.file
            && watcher.trace == old(watcher.trace) + r.trace
            && end == r.end
  {
    hide PollSpec;
    if cmd.tag != "" {
      watcher.trace := watcher.trace + [Dispatch("", cmd.scope, cmd.tag, dispatchOk)];
      if !dispatchOk {
        return Retried;
      }
    }
    ghost var before := watcher.trace;
    var polled := watcher.Poll(cmd.force, cmd.scope, w);
    match polled {
      case Returned => return Success;
      case LoadError => return Retried;
      case Crashed => return ExecCrashed;
    }
  }
}
