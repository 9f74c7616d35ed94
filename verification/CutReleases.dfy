/** What the watcher makes of a changelog whose release was just cut. */
module CutReleases {
  import opened Domain
  import opened Filters
  import opened Cycle
  import opened Duplicates
  import Changelog

  /** The changelog is parsable and h is its only non-version heading, about to become the heading of v. */
  ghost predicate Cuttable(lines: seq<string>, h: nat, v: string) {
    && Changelog.Parse(lines).Some? && Changelog.MatchesVersion(v)
    && h < |lines| && Changelog.Kind(lines[h]).OtherHeading?
    && forall i | 0 <= i < |lines| && i != h :: !Changelog.Kind(lines[i]).OtherHeading?
  }

  function Cut(lines: seq<string>, h: nat, v: string): seq<string>
    requires h < |lines|
  {
    lines[h := Changelog.H2 + v]
  }

  /** A cut release has nothing to release, whatever the rest of upstream answers. */
  lemma CutGathers(lines: seq<string>, h: nat, v: string, u: Upstream)
    requires Cuttable(lines, h, v) && (u.changelog.Ok? ==> u.changelog.value == Cut(lines, h, v))
    ensures !Gather(u).Panic? && (Gather(u).Release? ==> Gather(u).bullets == 0)
  {
    hide Changelog.Parse, Changelog.Kind, Changelog.MatchesVersion;
    Changelog.CutRelease(lines, h, v);
  }

  /** The gate stops the repository, in forced cycles too: the cursor stays and the visit's only effect is
      the skip as empty, or as out of scope when the allowlist already shuts the repository out. */
  lemma CutReleaseIsSkipped(allowed: string -> bool, force: bool, s: LoopState, repo: Repo, u: Upstream,
                            lines: seq<string>, h: nat, v: string)
    requires Cuttable(lines, h, v)
    requires u.head.Ok? && u.changelog == Ok(Cut(lines, h, v)) && u.config.Ok?
    ensures ReleaseStep(CycleFilter(StaticFilters(allowed), force), s, repo, u) ==
            var reason := if allowed(repo.Key()) then "empty_unreleased" else "scope";
            s.(trace := s.trace + [FilterSkip(repo.Key(), u.head.value, reason)])
  {
    hide Repo.Key, CycleFilter, StaticFilters, Skip, Cuttable, Changelog.Parse;
    CutGathers(lines, h, v, u);
    assert Gather(u).Release? && Gather(u).head == u.head.value;
    var input := InputOf(repo, Gather(u));
    CycleReason(StaticFilters(allowed), force, input, s.repos);
    StaticReason(allowed, input, s.repos);
  }

  lemma CutIsBarred(allowed: string -> bool, repo: Repo, u: Upstream, lines: seq<string>, h: nat, v: string)
    requires Cuttable(lines, h, v) && (u.changelog.Ok? ==> u.changelog.value == Cut(lines, h, v))
    ensures Barred(StaticFilters(allowed), repo, u)
  {
    hide Repo.Key, StaticFilters, Skip, Cuttable, Gather;
    CutGathers(lines, h, v, u);
    if Gather(u).Release? {
      forall live
        ensures Skip(StaticFilters(allowed), InputOf(repo, Gather(u)), live) != ""
      {
        StaticReason(allowed, InputOf(repo, Gather(u)), live);
      }
    }
  }

  /** Cutting a release silences the watcher: no cycle, forced or not, from any cursor, publishes the
      repository or moves its recorded head while its changelog reads as cut or not at all. */
  lemma CutSilencesTheWatcher(allowed: string -> bool, force: bool, c: Repos, repos: seq<Repo>, us: nat -> Upstream,
                              key: string, lines: seq<string>, h: nat, v: string)
    requires Cuttable(lines, h, v)
    requires forall i: nat | i < |repos| && repos[i].Key() == key ::
               us(i).changelog.Ok? ==> us(i).changelog.value == Cut(lines, h, v)
    ensures var s := Processed(CycleFilter(StaticFilters(allowed), force), c, repos, us);
            Published(s.trace, key) == [] && LastSeen(s.repos, key) == LastSeen(c, key)
  {
    hide Repo.Key, CycleFilter, StaticFilters, Cuttable, Barred, Published, After;
    forall i: nat | i < |repos| && repos[i].Key() == key
      ensures Barred(StaticFilters(allowed), repos[i], us(i))
    {
      CutIsBarred(allowed, repos[i], us(i), lines, h, v);
    }
    BarredWalk(StaticFilters(allowed), force, c, repos, us, |repos|, key);
  }
}
