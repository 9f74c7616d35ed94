/** The tag backstop: which tag of an unordered page is dispatched, what the scan costs, and when it is silent. */
module Backstop {
  import opened Domain

  /** The answer at one step of the scan: a commit epoch, a failed lookup, or a context cancelled before it. */
  datatype ScanReply = Epoch(at: int) | LookupFails | ScanCancelled

  /** What GitHub answers to one backstop run: the tag page, the lookup of whichever tag the cursor names,
      and the reply for every page position. */
  datatype TagReplies = TagReplies(page: Option<seq<string>>, baseline: string -> ScanReply, scan: nat -> ScanReply)

  /** Outcome of a backstop step; Tag("") means nothing to do. */
  datatype Pick = PickError | Tag(name: string)

  /** The scan over the first n entries: the chosen tag ("" for none) and its epoch, or None after a failure. */
  function ScanBest(page: seq<string>, last: string, floor: int, scan: nat -> ScanReply, n: nat): Option<(string, int)>
    requires n <= |page|
  {
    if n == 0 then Some(("", 0))
    else
      match ScanBest(page, last, floor, scan, n - 1)
      case None => None
      case Some(best) =>
        if scan(n - 1).ScanCancelled? then None
        else if page[n - 1] == last then Some(best)
        else
          match scan(n - 1)
          case Epoch(e) => if e >= floor && (best.0 == "" || e > best.1) then Some((page[n - 1], e)) else Some(best)
          case _ => None
  }

  /** Positions among the first n that cost a lookup: every entry but the cursor's own tag. */
  function ScanCost(page: seq<string>, last: string, n: nat): nat
    requires n <= |page|
  {
    if n == 0 then 0 else ScanCost(page, last, n - 1) + if page[n - 1] == last then 0 else 1
  }

  predicate HasBaseline(page: seq<string>, last: string) {
    last != "" && last in page
  }

  /** The epoch a candidate must reach: that of the cursor's tag while it is on the page, else -1. */
  function Floor(last: string, page: seq<string>, baseline: string -> ScanReply): int {
    if HasBaseline(page, last) && baseline(last).Epoch? then baseline(last).at else -1
  }

  /** The decision of newestUnbuiltTag as a function of the replies. */
  function Newest(last: string, r: TagReplies): Pick {
    match r.page
    case None => PickError
    case Some(page) =>
      if page == [] || page[0] == last then Tag("")
      else if HasBaseline(page, last) && !r.baseline(last).Epoch? then PickError
      else
        match ScanBest(page, last, Floor(last, page, r.baseline), r.scan, |page|)
        case None => PickError
        case Some(best) => Tag(best.0)
  }

  /** newestUnbuiltTag, with the number of epoch lookups it made. */
  method NewestUnbuiltTag(last: string, r: TagReplies) returns (pick: Pick, lookups: nat)
    ensures pick == Newest(last, r)
    ensures r.page.Some? && (r.page.value == [] || r.page.value[0] == last) ==> lookups == 0
    ensures r.page.Some? && r.page.value != [] && r.page.value[0] != last && pick.Tag? ==>
              lookups == ScanCost(r.page.value, last, |r.page.value|) + if HasBaseline(r.page.value, last) then 1 else 0
  {
    lookups := 0;
    if r.page.None? {
      return PickError, 0;
    }
    var tags := r.page.value;
    if |tags| == 0 {
      return Tag(""), 0;
    }
    var candidate := tags[0];
    if candidate == last {
      return Tag(""), 0;
    }
    var lastEpoch := -1;
    if last != "" && last in tags {
      lookups := lookups + 1;
      if !r.baseline(last).Epoch? {
        return PickError, lookups;
      }
      lastEpoch := r.baseline(last).at;
    }
    var best, bestEpoch := "", 0;
    ghost var start := lookups;
    for i := 0 to |tags|
      invariant ScanBest(tags, last, lastEpoch, r.scan, i) == Some((best, bestEpoch))
      invariant lookups == start + ScanCost(tags, last, i)
    {
      var tag := tags[i];
      if r.scan(i).ScanCancelled? {
        ScanStaysFailed(tags, last, lastEpoch, r.scan, i + 1);
        return PickError, lookups;
      }
      if tag == last {
        continue;
      }
      lookups := lookups + 1;
      var reply := r.scan(i);
      if !reply.Epoch? {
        ScanStaysFailed(tags, last, lastEpoch, r.scan, i + 1);
        return PickError, lookups;
      }
      if reply.at >= lastEpoch && (best == "" || reply.at > bestEpoch) {
        best, bestEpoch := tag, reply.at;
      }
    }
    return Tag(best), lookups;
  }

  lemma ScanStaysFailed(page: seq<string>, last: string, floor: int, scan: nat -> ScanReply, n: nat)
    requires n <= |page| && ScanBest(page, last, floor, scan, n).None?
    ensures ScanBest(page, last, floor, scan, |page|).None?
    decreases |page| - n
  {
    if n < |page| {
      ScanStaysFailed(page, last, floor, scan, n + 1);
    }
  }

  // ---- Calls that fail ----

  /** The same lookup, or one that fails where the other succeeds. */
  predicate SameOrFails(reply: ScanReply, other: ScanReply) {
    other == reply || (reply.Epoch? && !other.Epoch?)
  }

  /** The same answers, except that the page or any of the lookups may fail. */
  ghost predicate FailingVersion(r: TagReplies, other: TagReplies) {
    && (other.page == r.page || other.page.None?)
    && (forall tag :: SameOrFails(r.baseline(tag), other.baseline(tag)))
    && (forall i: nat :: SameOrFails(r.scan(i), other.scan(i)))
  }

  /** Nothing is picked from these answers, whatever the cursor holds. */
  ghost predicate NoPick(r: TagReplies) {
    forall last :: Newest(last, r) == PickError || Newest(last, r) == Tag("")
  }

  lemma {:induction false} ScanFailsOrAgrees(page: seq<string>, last: string, floor: int, r: TagReplies,
                                             other: TagReplies, n: nat)
    requires n <= |page| && FailingVersion(r, other)
    ensures var best := ScanBest(page, last, floor, other.scan, n);
            best == ScanBest(page, last, floor, r.scan, n) || best.None?
  {
    if n > 0 {
      ScanFailsOrAgrees(page, last, floor, r, other, n - 1);
      assert SameOrFails(r.scan(n - 1), other.scan(n - 1));
    }
  }

  /** A failing call can turn a pick into an error but never into another pick. */
  lemma FailureOnlySilences(last: string, r: TagReplies, other: TagReplies)
    requires FailingVersion(r, other)
    ensures Newest(last, other) == Newest(last, r) || Newest(last, other) == PickError
  {
    assert SameOrFails(r.baseline(last), other.baseline(last));
    if other.page.Some? {
      var page := other.page.value;
      ScanFailsOrAgrees(page, last, Floor(last, page, r.baseline), r, other, |page|);
    }
  }

  // ---- Selection on a page with fixed epochs ----

  /** Replies of a page whose epochs do not change and whose lookups all succeed. */
  function Fixed(page: seq<string>, epoch: string -> int): TagReplies {
    TagReplies(
      Some(page),
      tag => Epoch(epoch(tag)),
      (i: nat) => if i < |page| then Epoch(epoch(page[i])) else LookupFails)
  }

  /** The tag a run from cursor last picks, "" when it stays silent. */
  function Select(page: seq<string>, epoch: string -> int, last: string): string {
    match Newest(last, Fixed(page, epoch))
    case PickError => ""
    case Tag(name) => name
  }

  predicate Distinct<T(==)>(s: seq<T>) {
    forall i, j | 0 <= i < j < |s| :: s[i] != s[j]
  }

  ghost predicate Eligible(page: seq<string>, epoch: string -> int, last: string, i: int) {
    0 <= i < |page| && page[i] != last && epoch(page[i]) >= (if HasBaseline(page, last) then epoch(last) else -1)
  }

  /** Entry i is the earliest of the eligible entries with the greatest epoch. */
  ghost predicate IsBest(page: seq<string>, epoch: string -> int, last: string, i: int) {
    && Eligible(page, epoch, last, i)
    && (forall j | Eligible(page, epoch, last, j) :: epoch(page[j]) <= epoch(page[i]))
    && (forall j | Eligible(page, epoch, last, j) && j < i :: epoch(page[j]) < epoch(page[i]))
  }

  /** Entry i is the best of the first n entries. */
  ghost predicate BestBefore(page: seq<string>, epoch: string -> int, last: string, n: nat, i: int) {
    && Eligible(page, epoch, last, i)
    && (forall j | Eligible(page, epoch, last, j) && j < n :: epoch(page[j]) <= epoch(page[i]))
    && (forall j | Eligible(page, epoch, last, j) && j < i :: epoch(page[j]) < epoch(page[i]))
  }

  /** What the scan's running choice means after n entries. */
  ghost predicate ScanChoice(page: seq<string>, epoch: string -> int, last: string, n: nat, best: (string, int)) {
    if best.0 == "" then forall j | j < n :: !Eligible(page, epoch, last, j)
    else
      exists i :: 0 <= i < n && i < |page| && BestBefore(page, epoch, last, n, i) && best == (page[i], epoch(page[i]))
  }

  /** The running choice after one more entry. */
  function Better(page: seq<string>, epoch: string -> int, last: string, n: nat, best: (string, int)): (string, int)
    requires n < |page|
  {
    var floor := if HasBaseline(page, last) then epoch(last) else -1;
    var e := epoch(page[n]);
    if page[n] != last && e >= floor && (best.0 == "" || e > best.1) then (page[n], e) else best
  }

  lemma ScanChoiceStep(page: seq<string>, epoch: string -> int, last: string, n: nat, best: (string, int))
    requires n < |page| && page[n] != "" && ScanChoice(page, epoch, last, n, best)
    ensures ScanChoice(page, epoch, last, n + 1, Better(page, epoch, last, n, best))
  {
    var best' := Better(page, epoch, last, n, best);
    if best' != best {
      assert BestBefore(page, epoch, last, n + 1, n);
    } else if best.0 != "" {
      var i :| 0 <= i < n && BestBefore(page, epoch, last, n, i) && best == (page[i], epoch(page[i]));
      assert BestBefore(page, epoch, last, n + 1, i);
    }
  }

  lemma {:induction false} ScanMeaning(page: seq<string>, epoch: string -> int, last: string, n: nat)
    requires n <= |page| && "" !in page
    ensures var r := Fixed(page, epoch);
            var s := ScanBest(page, last, Floor(last, page, r.baseline), r.scan, n);
            s.Some? && ScanChoice(page, epoch, last, n, s.value)
  {
    hide ScanChoice;
    if n == 0 {
      NothingScanned(page, epoch, last);
    } else {
      ScanMeaning(page, epoch, last, n - 1);
      var r := Fixed(page, epoch);
      var s := ScanBest(page, last, Floor(last, page, r.baseline), r.scan, n - 1);
      assert page[n - 1] in page;
      ScanChoiceStep(page, epoch, last, n - 1, s.value);
    }
  }

  lemma NothingScanned(page: seq<string>, epoch: string -> int, last: string)
    ensures ScanChoice(page, epoch, last, 0, ("", 0))
  {
  }

  /** The picked tag is the earliest of the newest eligible entries, and the run is silent exactly for
      an empty page, the cursor first, or no eligible entry. */
  lemma SelectionExact(page: seq<string>, epoch: string -> int, last: string)
    requires "" !in page
    ensures Select(page, epoch, last) == "" <==>
            page == [] || page[0] == last || forall j :: !Eligible(page, epoch, last, j)
    ensures forall i :: page != [] && page[0] != last && IsBest(page, epoch, last, i) ==>
                          Select(page, epoch, last) == page[i]
  {
    if page != [] && page[0] != last {
      ScanMeaning(page, epoch, last, |page|);
      var r := Fixed(page, epoch);
      assert Newest(last, r) == Tag(ScanBest(page, last, Floor(last, page, r.baseline), r.scan, |page|).value.0);
      if Select(page, epoch, last) != "" {
        var i :| 0 <= i < |page| && BestBefore(page, epoch, last, |page|, i) && Select(page, epoch, last) == page[i];
        assert IsBest(page, epoch, last, i);
        assert forall k :: IsBest(page, epoch, last, k) ==> k == i;
      }
    }
  }

  /** Optimality with non-negative epochs: a picked tag is on the page, is not the cursor, is at least
      as new as every entry, and is the earliest such entry. */
  lemma SelectionOptimal(page: seq<string>, epoch: string -> int, last: string) returns (i: int)
    requires "" !in page && forall t | t in page :: epoch(t) >= 0
    requires Select(page, epoch, last) != ""
    ensures 0 <= i < |page| && Select(page, epoch, last) == page[i] && page[i] != last
    ensures forall t | t in page :: epoch(t) <= epoch(page[i])
    ensures forall j | 0 <= j < i && page[j] != last :: epoch(page[j]) < epoch(page[i])
  {
    ScanMeaning(page, epoch, last, |page|);
    i :| 0 <= i < |page| && BestBefore(page, epoch, last, |page|, i) && Select(page, epoch, last) == page[i];
    forall k | 0 <= k < |page|
      ensures epoch(page[k]) <= epoch(page[i])
    {
      assert page[k] in page && page[i] in page;
      if page[k] != last && !Eligible(page, epoch, last, k) {
        assert HasBaseline(page, last);
      }
    }
    forall j | 0 <= j < i && page[j] != last
      ensures epoch(page[j]) < epoch(page[i])
    {
      assert page[j] in page;
      if !Eligible(page, epoch, last, j) {
        assert HasBaseline(page, last) && epoch(page[j]) < epoch(last) <= epoch(page[i]);
      }
    }
  }

  /** Silence with non-negative epochs: an empty page, the cursor first, or a cursor on the page strictly
      newer than every other entry. */
  lemma SilentExactly(page: seq<string>, epoch: string -> int, last: string)
    requires "" !in page && forall t | t in page :: epoch(t) >= 0
    ensures Select(page, epoch, last) == "" <==>
            || page == [] || page[0] == last
            || (last in page && forall t | t in page && t != last :: epoch(t) < epoch(last))
  {
    SelectionExact(page, epoch, last);
    if page != [] && page[0] != last {
      if Select(page, epoch, last) == "" {
        assert page[0] in page;
        assert !Eligible(page, epoch, last, 0);
        forall t | t in page && t != last
          ensures epoch(t) < epoch(last)
        {
          var k :| 0 <= k < |page| && page[k] == t;
          assert !Eligible(page, epoch, last, k);
        }
      } else {
        var k :| Eligible(page, epoch, last, k);
        assert page[k] in page;
      }
    }
  }

  lemma {:induction false} CostOfDistinct(page: seq<string>, last: string, n: nat)
    requires n <= |page| && Distinct(page)
    ensures ScanCost(page, last, n) + (if last in page[..n] then 1 else 0) == n
  {
    if n > 0 {
      CostOfDistinct(page, last, n - 1);
      assert page[..n] == page[..n - 1] + [page[n - 1]];
      assert page[n - 1] !in page[..n - 1];
    }
  }

  /** A completed scan of n distinct tags costs exactly n epoch lookups. */
  lemma ScanCostsPage(page: seq<string>, last: string)
    requires Distinct(page) && "" !in page
    ensures ScanCost(page, last, |page|) + (if HasBaseline(page, last) then 1 else 0) == |page|
  {
    CostOfDistinct(page, last, |page|);
    assert page[..|page|] == page;
  }
}
