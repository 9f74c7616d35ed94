/** Classification of push deliveries and the independence of their debounce keys. */
module Webhook {
  import opened Domain
  import opened Strings
  import opened Codecs
  import opened Debounce

  datatype Commit = Commit(modified: seq<string>, added: seq<string>)

  datatype PushEvent = PushEvent(ref: string, fullName: string, commits: seq<Commit>)

  /** What a delivery is about: a branch push touching release files, or a tag push. */
  datatype Subject = Branch(repo: string) | TagOf(repo: string, tag: string)

  /** How a delivery ends. */
  datatype Verdict = Accepted(tag: string) | NoReleaseFiles | Debounced

  const RELEASE_FILES: set<string> := {"CHANGELOG.md", ".maintainer.yaml"}

  /** Whether any commit of the push touched a release-relevant file. */
  predicate TouchesReleaseFiles(p: PushEvent) {
    exists c | c in p.commits :: exists f | f in c.modified + c.added :: f in RELEASE_FILES
  }

  /** The subject of a relevant delivery; None when it is dropped for want of release files. */
  function SubjectOf(p: PushEvent): Option<Subject> {
    match ParseTagRef(p.ref)
    case Some(tag) => Some(TagOf(p.fullName, tag))
    case None => if TouchesReleaseFiles(p) then Some(Branch(p.fullName)) else None
  }

  function DebounceKey(s: Subject): string {
    match s
    case Branch(repo) => repo
    case TagOf(repo, tag) => repo + "@" + tag
  }

  /** The tag a command carries. */
  function CommandTag(s: Subject): string {
    if s.TagOf? then s.tag else ""
  }

  /** The verdict on one delivery at a clock reading. */
  function VerdictOf(interval: int, last: map<string, int>, p: PushEvent, now: int): Verdict {
    match SubjectOf(p)
    case None => NoReleaseFiles
    case Some(s) => if Permits(interval, last, Arrival(DebounceKey(s), now)) then Accepted(CommandTag(s)) else Debounced
  }

  /** The debouncer's memory after one delivery. */
  function AfterPush(interval: int, last: map<string, int>, p: PushEvent, now: int): map<string, int> {
    match SubjectOf(p)
    case None => last
    case Some(s) => Record(interval, last, Arrival(DebounceKey(s), now))
  }

  /** The ref names this tag. */
  predicate NamesTag(ref: string, tag: string) {
    tag != "" && ref == "refs/tags/" + tag
  }

  /** Some commit lists a release file as modified or added. */
  predicate ListsReleaseFile(p: PushEvent) {
    exists c | c in p.commits ::
      || "CHANGELOG.md" in c.modified || "CHANGELOG.md" in c.added
      || ".maintainer.yaml" in c.modified || ".maintainer.yaml" in c.added
  }

  /** The key accepted less than the interval before now. */
  predicate TooSoon(interval: int, last: map<string, int>, key: string, now: int) {
    key in last && now - last[key] < interval
  }

  lemma TouchesExactly(p: PushEvent)
    ensures TouchesReleaseFiles(p) <==> ListsReleaseFile(p)
  {
    forall c | c in p.commits
      ensures (exists f | f in c.modified + c.added :: f in RELEASE_FILES) <==>
              || "CHANGELOG.md" in c.modified || "CHANGELOG.md" in c.added
              || ".maintainer.yaml" in c.modified || ".maintainer.yaml" in c.added
    {
      assert forall f :: f in c.modified + c.added <==> f in c.modified || f in c.added;
      assert "CHANGELOG.md" in RELEASE_FILES && ".maintainer.yaml" in RELEASE_FILES;
    }
  }

  /** A tag push is accepted with its tag or debounced on repository and tag; it never needs release files. */
  lemma TagPushExactly(interval: int, last: map<string, int>, p: PushEvent, now: int, tag: string)
    requires NamesTag(p.ref, tag)
    ensures var denied := TooSoon(interval, last, p.fullName + "@" + tag, now);
            && VerdictOf(interval, last, p, now) == (if denied then Debounced else Accepted(tag))
            && AfterPush(interval, last, p, now) == if denied then last else last[p.fullName + "@" + tag := now]
  {
    ParseTagRefExact(p.ref, tag);
  }

  /** Any other push is skipped without release files, and otherwise accepted without a tag or debounced on
      the repository. */
  lemma BranchPushExactly(interval: int, last: map<string, int>, p: PushEvent, now: int)
    requires forall tag :: !NamesTag(p.ref, tag)
    ensures var key := p.fullName;
            && VerdictOf(interval, last, p, now) ==
               (if !ListsReleaseFile(p) then NoReleaseFiles
                else if TooSoon(interval, last, key, now) then Debounced
                else Accepted(""))
            && AfterPush(interval, last, p, now) ==
               (if ListsReleaseFile(p) && !TooSoon(interval, last, key, now) then last[key := now] else last)
  {
    TouchesExactly(p);
    if ParseTagRef(p.ref).Some? {
      ParseTagRefExact(p.ref, ParseTagRef(p.ref).value);
      assert NamesTag(p.ref, ParseTagRef(p.ref).value);
    }
  }

  class WebhookHandler {
    const debouncer: Debouncer
    var skippedNoReleaseFiles: nat
    var skippedDebounced: nat

    constructor (debouncer: Debouncer)
      ensures this.debouncer == debouncer && skippedNoReleaseFiles == 0 && skippedDebounced == 0
    {
      this.debouncer := debouncer;
      skippedNoReleaseFiles, skippedDebounced := 0, 0;
    }

    /** classify: every push ends as one accept or as exactly one skip count. */
    method Classify(p: PushEvent, now: int) returns (tag: string, dispatch: bool)
      modifies this, debouncer
      ensures var v := VerdictOf(debouncer.interval, old(debouncer.last), p, now);
              && dispatch == v.Accepted?
              && tag == (if v.Accepted? then v.tag else "")
              && skippedNoReleaseFiles == old(skippedNoReleaseFiles) + (if v.NoReleaseFiles? then 1 else 0)
              && skippedDebounced == old(skippedDebounced) + (if v.Debounced? then 1 else 0)
      ensures debouncer.last == AfterPush(debouncer.interval, old(debouncer.last), p, now)
    {
      var parsed := ParseTagRef(p.ref);
      var isTagPush := parsed.Some?;
      if !isTagPush && !TouchesReleaseFiles(p) {
        skippedNoReleaseFiles := skippedNoReleaseFiles + 1;
        return "", false;
      }
      var debounceKey := p.fullName;
      if isTagPush {
        debounceKey := p.fullName + "@" + parsed.value;
      }
      var ok := debouncer.Allow(debounceKey, now);
      if !ok {
        skippedDebounced := skippedDebounced + 1;
        return "", false;
      }
      return (if isTagPush then parsed.value else ""), true;
    }
  }

  // ---- Whole traces ----

  /** A delivery and the clock reading at which it is classified. */
  datatype Delivery = Delivery(push: PushEvent, at: int)

  /** The accept/deny outcomes of the deliveries about one subject. */
  function OutcomesFor(interval: int, last: map<string, int>, trace: seq<Delivery>, s: Subject): seq<bool>
    decreases |trace|
  {
    if trace == [] then []
    else
      var d := trace[0];
      (if SubjectOf(d.push) == Some(s) then [VerdictOf(interval, last, d.push, d.at).Accepted?] else [])
      + OutcomesFor(interval, AfterPush(interval, last, d.push, d.at), trace[1..], s)
  }

  /** The clock readings of the deliveries about one subject. */
  function TimesFor(trace: seq<Delivery>, s: Subject): seq<int> {
    if trace == [] then []
    else (if SubjectOf(trace[0].push) == Some(s) then [trace[0].at] else []) + TimesFor(trace[1..], s)
  }

  /** A debouncer that has seen nothing but the given times of one key. */
  function Alone(interval: int, prev: Option<int>, times: seq<int>): seq<bool>
    decreases |times|
  {
    if times == [] then []
    else if prev.Some? && times[0] - prev.value < interval then [false] + Alone(interval, prev, times[1..])
    else [true] + Alone(interval, Some(times[0]), times[1..])
  }

  /** The repository names carry no '@'. */
  predicate PlainNames(trace: seq<Delivery>) {
    forall d | d in trace :: '@' !in d.push.fullName
  }

  lemma DebounceKeyInjective(a: Subject, b: Subject)
    requires '@' !in a.repo && '@' !in b.repo
    ensures DebounceKey(a) == DebounceKey(b) <==> a == b
  {
    assert a.TagOf? ==> DebounceKey(a)[|a.repo|] == '@';
    assert b.TagOf? ==> DebounceKey(b)[|b.repo|] == '@';
    if DebounceKey(a) == DebounceKey(b) && a.TagOf? && b.TagOf? {
      CutUnique(a.repo, a.tag, b.repo, b.tag, '@');
    }
  }

  lemma SubjectIsOfRepo(p: PushEvent)
    ensures SubjectOf(p).Some? ==> SubjectOf(p).value.repo == p.fullName
  {
  }

  /** Non-interference: with '@'-free repository names the outcomes of one subject are those of a
      debouncer that sees only that subject's deliveries, whatever else arrives in between. */
  lemma {:induction false} NonInterference(interval: int, last: map<string, int>, trace: seq<Delivery>, s: Subject)
    requires PlainNames(trace) && '@' !in s.repo
    ensures OutcomesFor(interval, last, trace, s) == Alone(interval, LastOf(last, DebounceKey(s)), TimesFor(trace, s))
    decreases |trace|
  {
    hide SubjectOf, DebounceKey;
    if trace != [] {
      var d := trace[0];
      assert d in trace;
      NonInterference(interval, AfterPush(interval, last, d.push, d.at), trace[1..], s);
      SubjectIsOfRepo(d.push);
      if SubjectOf(d.push).Some? {
        DebounceKeyInjective(SubjectOf(d.push).value, s);
      }
      if SubjectOf(d.push) == Some(s) {
        assert TimesFor(trace, s)[1..] == TimesFor(trace[1..], s);
      } else {
        assert TimesFor(trace, s) == TimesFor(trace[1..], s);
      }
    }
  }

  /** Two traces with the same deliveries about a subject give that subject the same outcomes. */
  lemma OtherDeliveriesDoNotMatter(interval: int, trace: seq<Delivery>, trace': seq<Delivery>, s: Subject)
    requires PlainNames(trace) && PlainNames(trace') && '@' !in s.repo
    requires TimesFor(trace, s) == TimesFor(trace', s)
    ensures OutcomesFor(interval, map[], trace, s) == OutcomesFor(interval, map[], trace', s)
  {
    NonInterference(interval, map[], trace, s);
    NonInterference(interval, map[], trace', s);
  }

  /** The accepted outcomes are the greedy ones, so the spacing and optimality results apply. */
  lemma {:induction false} AloneIsGreedy(interval: int, prev: Option<int>, times: seq<int>)
    ensures |Alone(interval, prev, times)| == |times|
    ensures Chosen(times, Alone(interval, prev, times)) == Greedy(interval, prev, times)
    decreases |times|
  {
    if times != [] {
      if prev.Some? && times[0] - prev.value < interval {
        AloneIsGreedy(interval, prev, times[1..]);
        assert Alone(interval, prev, times)[1..] == Alone(interval, prev, times[1..]);
      } else {
        AloneIsGreedy(interval, Some(times[0]), times[1..]);
        assert Alone(interval, prev, times)[1..] == Alone(interval, Some(times[0]), times[1..]);
      }
    }
  }

  /** The times whose flag is set. */
  function Chosen(times: seq<int>, flags: seq<bool>): seq<int>
    requires |flags| == |times|
  {
    if times == [] then [] else (if flags[0] then [times[0]] else []) + Chosen(times[1..], flags[1..])
  }

  /** A branch push shares its key with some tag push exactly when an '@' in its repository name has
      something after it. */
  lemma BranchSharesKeyExactly(repo: string)
    ensures (exists other, tag :: tag != "" && DebounceKey(TagOf(other, tag)) == DebounceKey(Branch(repo))) <==>
            exists i :: 0 <= i < |repo| - 1 && repo[i] == '@'
  {
    if i :| 0 <= i < |repo| - 1 && repo[i] == '@' {
      var other, tag := repo[..i], repo[i + 1..];
      assert DebounceKey(TagOf(other, tag)) == repo;
      assert tag != "";
    }
    if other, tag :| tag != "" && DebounceKey(TagOf(other, tag)) == DebounceKey(Branch(repo)) {
      assert repo[|other|] == '@';
    }
  }
}
