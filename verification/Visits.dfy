/** What a visit does, read off the upstream answers alone: who is asked to build what, which command is
    sent, and which answers end it otherwise. */
module Visits {
  import opened Domain
  import opened Codecs
  import opened Backstop
  import opened Filters
  import opened Cycle
  import Changelog

  // ---- Gathering ----

  /** A rate limit on the first of the three calls that does not succeed. */
  predicate LimitReached(u: Upstream) {
    || u.head.RateLimited?
    || (u.head.Ok? && u.changelog.RateLimited?)
    || (u.head.Ok? && u.changelog.Ok? && u.config.RateLimited?)
  }

  /** Any other error on the first of the three calls that does not succeed. */
  predicate CallFails(u: Upstream) {
    || u.head.Failed?
    || (u.head.Ok? && u.changelog.Failed?)
    || (u.head.Ok? && u.changelog.Ok? && u.config.Failed?)
  }

  predicate ReadsAll(u: Upstream) {
    u.head.Ok? && u.changelog.Ok? && u.config.Ok?
  }

  ghost predicate HasBlankHeading(lines: seq<string>) {
    exists i :: 0 <= i < |lines| && Changelog.IsBlankHeading(lines[i])
  }

  /** The version a command for this changelog carries: that of its first version line, or v0.0.0. */
  ghost predicate CarriesVersion(lines: seq<string>, version: string) {
    && (forall i, v :: Changelog.IsFirstVersionLine(lines, i, v) ==> version == v)
    && (!Changelog.HasVersionLine(lines) ==> version == "v0.0.0")
  }

  /** The bullets of the unreleased section. */
  ghost function Bullets(lines: seq<string>): set<int> {
    set i | 0 <= i < |lines| && Changelog.IsSectionBullet(lines, i)
  }

  lemma FirstVersionLineExists(lines: seq<string>) returns (i: int, version: string)
    requires Changelog.HasVersionLine(lines)
    ensures Changelog.IsFirstVersionLine(lines, i, version)
  {
    hide Changelog.IsVersionLine;
    i := 0;
    var k, v :| 0 <= k < |lines| && Changelog.IsVersionLine(lines[k], v);
    while !exists w :: Changelog.IsVersionLine(lines[i], w)
      invariant 0 <= i <= k
      invariant forall j, w | 0 <= j < i :: !Changelog.IsVersionLine(lines[j], w)
      decreases k - i
    {
      i := i + 1;
    }
    version :| Changelog.IsVersionLine(lines[i], version);
  }

  /** Gathering, exactly: the first call that does not succeed decides between aborting the cycle and dropping
      the repository; a heading of blanks panics; otherwise the head and the configuration are those
      answered, the version is that of the first version line or v0.0.0, and the bullets are counted. */
  lemma GatherExactly(u: Upstream)
    ensures LimitReached(u) <==> Gather(u).Abort?
    ensures LimitReached(u) ==> Gather(u) == Abort("rate_limited")
    ensures CallFails(u) <==> Gather(u).Prune?
    ensures ReadsAll(u) && HasBlankHeading(u.changelog.value) <==> Gather(u).Panic?
    ensures ReadsAll(u) && !HasBlankHeading(u.changelog.value) <==> Gather(u).Release?
    ensures Gather(u).Release? ==>
              && Gather(u).head == u.head.value && Gather(u).config == u.config.value
              && CarriesVersion(u.changelog.value, Gather(u).version)
              && Gather(u).bullets == |Bullets(u.changelog.value)|
  {
    hide Changelog.Parse, Changelog.IsBlankHeading, Changelog.IsFirstVersionLine, Changelog.HasVersionLine,
      Changelog.IsSectionBullet;
    if ReadsAll(u) {
      var lines := u.changelog.value;
      Changelog.TotalExactly(lines);
      if !HasBlankHeading(lines) {
        Changelog.SummaryExactly(lines, Changelog.Parse(lines).value);
        if Changelog.HasVersionLine(lines) {
          var i, v := FirstVersionLineExists(lines);
        } else {
          NoFirstVersionLine(lines);
        }
      }
    }
  }

  lemma NoFirstVersionLine(lines: seq<string>)
    requires !Changelog.HasVersionLine(lines)
    ensures forall i, v :: !Changelog.IsFirstVersionLine(lines, i, v)
  {
    hide Changelog.IsVersionLine;
  }

  // ---- The release half ----

  /** Why the service does not release a repository whose facts arrived, "" when it does. */
  ghost function WhyNot(allowed: string -> bool, force: bool, live: Repos, key: string, fork: bool, u: Upstream): string
    requires ReadsAll(u)
  {
    if !allowed(key) then "scope"
    else if Bullets(u.changelog.value) == {} then "empty_unreleased"
    else if !u.config.value.autoRelease then "auto_release"
    else if fork && !u.config.value.allowFork then "fork"
    else if !force && key in live && live[key].lastSeen == u.head.value then "sha_unchanged"
    else if !force && key !in live && u.head.value == "" then "sha_unchanged"
    else ""
  }

  /** The release half of a visit, exactly. A rate limit aborts and any other failure drops; a heading of
      blanks panics; otherwise there is one filter skip or one command, the command names the repository, its
      head and its version, and only a command that was sent moves the recorded head, and nothing else. */
  lemma ReleaseExactly(allowed: string -> bool, force: bool, s: LoopState, repo: Repo, u: Upstream)
    ensures var s' := ReleaseStep(CycleFilter(StaticFilters(allowed), force), s, repo, u);
            var key := "github.com/" + repo.owner + "/" + repo.name;
            var tag := if key in s.repos then s.repos[key].lastBuilt else "";
            && (LimitReached(u) ==> s' == s.(outcome := Aborted("rate_limited")))
            && (CallFails(u) ==> s' == s.(trace := s.trace + [Dropped(key)]))
            && (ReadsAll(u) && HasBlankHeading(u.changelog.value) ==> s' == s.(outcome := Panicked))
            && (ReadsAll(u) && !HasBlankHeading(u.changelog.value) ==>
                  var reason := WhyNot(allowed, force, s.repos, key, repo.fork, u);
                  && s'.outcome == s.outcome
                  && (reason != "" ==>
                        s'.repos == s.repos && s'.trace == s.trace + [FilterSkip(key, u.head.value, reason)])
                  && (reason == "" ==>
                        exists version | CarriesVersion(u.changelog.value, version) ::
                          && var create := Create(key, repo.owner, repo.name, u.head.value, version, u.sendOk);
                          && s'.trace == s.trace + [create]
                          && s'.repos == if u.sendOk then s.repos[key := Entry(u.head.value, tag)] else s.repos))
  {
    hide Gather, CarriesVersion, HasBlankHeading, Bullets, Skip, CycleFilter, StaticFilters;
    assert repo.Key() == "github.com/" + repo.owner + "/" + repo.name;
    hide Repo.Key;
    GatherExactly(u);
    if Gather(u).Release? {
      var input := InputOf(repo, Gather(u));
      CycleReason(StaticFilters(allowed), force, input, s.repos);
      StaticReason(allowed, input, s.repos);
      NoBullets(Bullets(u.changelog.value));
    }
  }

  lemma NoBullets(bullets: set<int>)
    ensures |bullets| == 0 <==> bullets == {}
  {
  }

  // ---- Every effect of a walk ----

  /** What an effect of this visit says. */
  ghost predicate Tells(e: Effect, repo: Repo, u: Upstream) {
    match e
    case Dispatch(key, request, tag, ok) =>
      && key == "github.com/" + repo.owner + "/" + repo.name && request == repo.owner + "/" + repo.name
      && u.tags.page.Some? && tag in u.tags.page.value && tag != "" && ok == u.dispatchOk
    case Create(key, owner, name, head, version, ok) =>
      && key == "github.com/" + repo.owner + "/" + repo.name && owner == repo.owner && name == repo.name
      && ReadsAll(u) && head == u.head.value && CarriesVersion(u.changelog.value, version) && ok == u.sendOk
    case FilterSkip(key, head, reason) =>
      && key == "github.com/" + repo.owner + "/" + repo.name
      && ReadsAll(u) && head == u.head.value && reason != ""
    case Dropped(key) => key == "github.com/" + repo.owner + "/" + repo.name && CallFails(u)
    case _ => false
  }

  lemma {:induction false} ScanPicksFromPage(page: seq<string>, last: string, floor: int, scan: nat -> ScanReply,
                                             n: nat)
    requires n <= |page|
    ensures var best := ScanBest(page, last, floor, scan, n);
            best.Some? && best.value.0 != "" ==> best.value.0 in page
  {
    if n > 0 {
      ScanPicksFromPage(page, last, floor, scan, n - 1);
    }
  }

  lemma PickIsOnPage(live: Repos, key: string, tags: TagReplies)
    ensures var tag := BackstopTag(live, key, tags);
            tag != "" ==> tags.page.Some? && tag in tags.page.value
  {
    if tags.page.Some? {
      var page, last := tags.page.value, LastBuilt(live, key);
      ScanPicksFromPage(page, last, Floor(last, page, tags.baseline), tags.scan, |page|);
    }
  }

  lemma VisitTells(f: Filter, s: LoopState, repo: Repo, u: Upstream)
    ensures forall e | e in VisitStep(f, s, repo, u).trace :: e in s.trace || Tells(e, repo, u)
  {
    hide Gather, Skip, CarriesVersion, BackstopTag;
    GatherExactly(u);
    PickIsOnPage(s.repos, repo.Key(), u.tags);
  }

  /** Every effect of every walk tells the truth about one of its visits: a dispatch asks for a tag of the
      page under the short name of the visited repository, a command carries its owner, name, head and
      version, a skip its head, a drop a failed call. */
  lemma {:induction false} WalkTells(f: Filter, c: Repos, repos: seq<Repo>, us: nat -> Upstream, n: nat, e: Effect)
    requires n <= |repos| && e in After(f, c, repos, us, n).trace
    ensures exists i: nat :: i < n && Tells(e, repos[i], us(i))
  {
    hide VisitStep, Tells;
    if n > 0 {
      var s := After(f, c, repos, us, n - 1);
      if e in s.trace {
        WalkTells(f, c, repos, us, n - 1, e);
      } else {
        VisitTells(f, s, repos[n - 1], us(n - 1));
      }
    }
  }

  /** The build pipeline reads back from every dispatch of a walk the repository that was visited. */
  lemma DispatchesAreReadable(f: Filter, c: Repos, repos: seq<Repo>, us: nat -> Upstream, n: nat, e: Effect)
    returns (i: nat)
    requires n <= |repos| && e in After(f, c, repos, us, n).trace && e.Dispatch?
    requires forall r | r in repos :: '/' !in r.owner && r.owner != "" && r.name != ""
    ensures i < n && e.key == repos[i].Key()
    ensures RepoFromKey(e.request) == Some(Repo(repos[i].owner, repos[i].name, "", false))
  {
    hide After;
    WalkTells(f, c, repos, us, n, e);
    i :| i < n && Tells(e, repos[i], us(i));
    assert repos[i] in repos;
    RepoFromKeyExact(e.request, Repo(repos[i].owner, repos[i].name, "", false));
  }
}
