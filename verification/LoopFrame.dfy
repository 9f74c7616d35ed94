/** The walk is a fold with an exact frame: what every cursor field holds afterwards, and which keys exist. */
module LoopFrame {
  import opened Domain
  import opened Filters
  import opened Cycle
  import Changelog

  /** The head of the last command successfully sent for a key. */
  function LastCreated(trace: seq<Effect>, key: string): Option<string> {
    if trace == [] then None
    else
      var e := trace[|trace| - 1];
      if e.Create? && e.ok && e.key == key then Some(e.head) else LastCreated(trace[..|trace| - 1], key)
  }

  /** The tag of the last successful backstop dispatch for a key. */
  function LastDispatched(trace: seq<Effect>, key: string): Option<string> {
    if trace == [] then None
    else
      var e := trace[|trace| - 1];
      if e.Dispatch? && e.ok && e.key == key then Some(e.tag) else LastDispatched(trace[..|trace| - 1], key)
  }

  function Or(o: Option<string>, otherwise: string): string {
    if o.Some? then o.value else otherwise
  }

  /** Each field is its last successful update or else the loaded value, no key is lost, and a key is new
      only when it was published or dispatched. */
  ghost predicate FramedAt(c: Repos, s: LoopState, k: string) {
    && LastSeen(s.repos, k) == Or(LastCreated(s.trace, k), LastSeen(c, k))
    && LastBuilt(s.repos, k) == Or(LastDispatched(s.trace, k), LastBuilt(c, k))
    && (k in s.repos <==> k in c || LastCreated(s.trace, k).Some? || LastDispatched(s.trace, k).Some?)
  }

  lemma AppendKeepsLast(trace: seq<Effect>, e: Effect, k: string)
    ensures LastCreated(trace + [e], k) ==
            if e.Create? && e.ok && e.key == k then Some(e.head) else LastCreated(trace, k)
    ensures LastDispatched(trace + [e], k) ==
            if e.Dispatch? && e.ok && e.key == k then Some(e.tag) else LastDispatched(trace, k)
  {
    assert (trace + [e])[..|trace|] == trace;
  }

  lemma BackstopKeepsFrame(c: Repos, s: LoopState, repo: Repo, u: Upstream, k: string)
    requires FramedAt(c, s, k)
    ensures FramedAt(c, BackstopStep(s, repo, u), k)
  {
    hide Repo.Key, BackstopTag, LastCreated, LastDispatched;
    var tag := BackstopTag(s.repos, repo.Key(), u.tags);
    AppendKeepsLast(s.trace, Dispatch(repo.Key(), repo.Short(), tag, u.dispatchOk), k);
  }

  lemma ReleaseKeepsFrame(f: Filter, c: Repos, s: LoopState, repo: Repo, u: Upstream, k: string)
    requires FramedAt(c, s, k)
    ensures FramedAt(c, ReleaseStep(f, s, repo, u), k)
  {
    hide Repo.Key, Skip, Changelog.Parse, LastCreated, LastDispatched;
    var key := repo.Key();
    match Gather(u)
    case Release(head, version, bullets, config) =>
      var reason := Skip(f, InputOf(repo, Gather(u)), s.repos);
      AppendKeepsLast(s.trace, FilterSkip(key, head, reason), k);
      AppendKeepsLast(s.trace, Create(key, repo.owner, repo.name, head, version, u.sendOk), k);
    case Prune =>
      AppendKeepsLast(s.trace, Dropped(key), k);
    case _ =>
  }

  /** The frame of the walk, after any number of repositories and whatever upstream answers. */
  lemma {:induction false} Frame(f: Filter, c: Repos, repos: seq<Repo>, us: nat -> Upstream, n: nat, k: string)
    requires n <= |repos|
    ensures FramedAt(c, After(f, c, repos, us, n), k)
  {
    hide Repo.Key, BackstopStep, ReleaseStep;
    if n > 0 {
      Frame(f, c, repos, us, n - 1, k);
      var s := After(f, c, repos, us, n - 1);
      BackstopKeepsFrame(c, s, repos[n - 1], us(n - 1), k);
      ReleaseKeepsFrame(f, c, BackstopStep(s, repos[n - 1], us(n - 1)), repos[n - 1], us(n - 1), k);
    }
  }

  /** A repository the walk does not visit keeps its entry. */
  lemma {:induction false} UnvisitedUnchanged(f: Filter, c: Repos, repos: seq<Repo>, us: nat -> Upstream, n: nat,
                                              k: string)
    requires n <= |repos|
    requires forall i | 0 <= i < n :: repos[i].Key() != k
    ensures var s := After(f, c, repos, us, n);
            (k in s.repos <==> k in c) && (k in c ==> s.repos[k] == c[k])
  {
    hide Repo.Key, VisitStep;
    if n > 0 {
      UnvisitedUnchanged(f, c, repos, us, n - 1, k);
      assert repos[n - 1].Key() != k;
      VisitTouchesOwnKey(f, After(f, c, repos, us, n - 1), repos[n - 1], us(n - 1), k);
    }
  }

  lemma VisitTouchesOwnKey(f: Filter, s: LoopState, repo: Repo, u: Upstream, k: string)
    requires repo.Key() != k
    ensures var s' := VisitStep(f, s, repo, u);
            (k in s'.repos <==> k in s.repos) && (k in s.repos ==> s'.repos[k] == s.repos[k])
  {
    hide Repo.Key, Gather, Skip, BackstopTag;
  }

  /** Every effect of the walk is about a repository of the list. */
  lemma {:induction false} EffectsAreListed(f: Filter, c: Repos, repos: seq<Repo>, us: nat -> Upstream, n: nat)
    requires n <= |repos|
    ensures forall e | e in After(f, c, repos, us, n).trace ::
              !e.Scanned? && !e.CycleLabel? && exists i :: 0 <= i < n && e.key == repos[i].Key()
  {
    hide Repo.Key, VisitStep;
    if n > 0 {
      EffectsAreListed(f, c, repos, us, n - 1);
      var s := After(f, c, repos, us, n - 1);
      if s.outcome.Running? {
        VisitEffects(f, s, repos[n - 1], us(n - 1));
      }
    }
  }

  lemma VisitEffects(f: Filter, s: LoopState, repo: Repo, u: Upstream)
    ensures forall e | e in VisitStep(f, s, repo, u).trace ::
              e in s.trace || (!e.Scanned? && !e.CycleLabel? && e.key == repo.Key())
  {
    hide Repo.Key, Gather, Skip, BackstopTag;
    assert forall e | e in BackstopStep(s, repo, u).trace :: e in s.trace || (e.Dispatch? && e.key == repo.Key());
  }
}
