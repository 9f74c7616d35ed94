/** The per-key rate limiter in front of the release-check command, and why it is the best possible one.
    Times are unbounded integers in the clock's unit. */
module Debounce {
  import opened Domain

  /** One arrival: the debounce key and the clock reading. */
  datatype Arrival = Arrival(key: string, at: int)

  /** Whether a trigger is permitted, given the last accepted time of each key. */
  predicate Permits(interval: int, last: map<string, int>, a: Arrival) {
    a.key in last ==> a.at - last[a.key] >= interval
  }

  /** The recorded times after an arrival. */
  function Record(interval: int, last: map<string, int>, a: Arrival): map<string, int> {
    if Permits(interval, last, a) then last[a.key := a.at] else last
  }

  class Debouncer {
    const interval: int
    var last: map<string, int>

    constructor (interval: int)
      ensures this.interval == interval && last == map[]
    {
      this.interval := interval;
      last := map[];
    }

    /** Allow, with the clock reading as a parameter. */
    method Allow(key: string, now: int) returns (ok: bool)
      modifies this
      ensures ok == Permits(interval, old(last), Arrival(key, now))
      ensures last == Record(interval, old(last), Arrival(key, now))
    {
      if key in last && now - last[key] < interval {
        return false;
      }
      last := last[key := now];
      return true;
    }
  }

  // ---- Whole traces ----

  /** The accepted times of one key over a trace of arrivals of all keys. */
  function AcceptedTimes(interval: int, last: map<string, int>, trace: seq<Arrival>, key: string): seq<int>
    decreases |trace|
  {
    if trace == [] then []
    else
      (if trace[0].key == key && Permits(interval, last, trace[0]) then [trace[0].at] else [])
      + AcceptedTimes(interval, Record(interval, last, trace[0]), trace[1..], key)
  }

  /** The arrival times of one key. */
  function TimesOf(trace: seq<Arrival>, key: string): seq<int> {
    if trace == [] then []
    else (if trace[0].key == key then [trace[0].at] else []) + TimesOf(trace[1..], key)
  }

  /** Greedy choice over the arrivals of a single key. */
  function Greedy(interval: int, prev: Option<int>, times: seq<int>): seq<int>
    decreases |times|
  {
    if times == [] then []
    else if prev.Some? && times[0] - prev.value < interval then Greedy(interval, prev, times[1..])
    else [times[0]] + Greedy(interval, Some(times[0]), times[1..])
  }

  function LastOf(last: map<string, int>, key: string): Option<int> {
    if key in last then Some(last[key]) else None
  }

  /** Keys do not interfere: one key's accepted times depend on its own arrivals only. */
  lemma {:induction false} KeysAreIndependent(interval: int, last: map<string, int>, trace: seq<Arrival>, key: string)
    ensures AcceptedTimes(interval, last, trace, key) == Greedy(interval, LastOf(last, key), TimesOf(trace, key))
    decreases |trace|
  {
    if trace != [] {
      KeysAreIndependent(interval, Record(interval, last, trace[0]), trace[1..], key);
      var rest := TimesOf(trace[1..], key);
      if trace[0].key == key {
        assert TimesOf(trace, key)[1..] == rest;
      } else {
        assert TimesOf(trace, key) == rest;
      }
    }
  }

  /** Consecutive times are at least the interval apart. */
  ghost predicate Spaced(interval: int, times: seq<int>) {
    forall i | 0 < i < |times| :: times[i] - times[i - 1] >= interval
  }

  lemma {:induction false} GreedyIsSpaced(interval: int, prev: Option<int>, times: seq<int>)
    ensures Spaced(interval, Greedy(interval, prev, times))
    ensures var g := Greedy(interval, prev, times); prev.Some? && g != [] ==> g[0] - prev.value >= interval
    decreases |times|
  {
    if times != [] {
      if prev.Some? && times[0] - prev.value < interval {
        GreedyIsSpaced(interval, prev, times[1..]);
      } else {
        GreedyIsSpaced(interval, Some(times[0]), times[1..]);
      }
    }
  }

  lemma {:induction false} SpacedPairs(interval: int, times: seq<int>, i: nat, j: nat)
    requires Spaced(interval, times) && i <= j < |times|
    ensures times[j] - times[i] >= (j - i) * interval
    decreases j
  {
    if i < j {
      SpacedPairs(interval, times, i, j - 1);
      assert (j - i) * interval == (j - 1 - i) * interval + interval;
    }
  }

  /** Whatever the clock does, the i-th and j-th accepted trigger of a key are (j - i) intervals apart. */
  lemma AcceptedAreSpaced(interval: int, trace: seq<Arrival>, key: string, i: nat, j: nat)
    requires i <= j < |AcceptedTimes(interval, map[], trace, key)|
    ensures var ts := AcceptedTimes(interval, map[], trace, key); ts[j] - ts[i] >= (j - i) * interval
  {
    KeysAreIndependent(interval, map[], trace, key);
    GreedyIsSpaced(interval, None, TimesOf(trace, key));
    SpacedPairs(interval, AcceptedTimes(interval, map[], trace, key), i, j);
  }

  /** How many times fall into a closed window. */
  function CountIn(times: seq<int>, lo: int, hi: int): nat {
    if times == [] then 0 else (if lo <= times[0] <= hi then 1 else 0) + CountIn(times[1..], lo, hi)
  }

  lemma {:induction false} CountFrom(times: seq<int>, lo: int, lo': int, hi: int)
    requires lo <= lo' && forall i | 0 <= i < |times| :: times[i] >= lo'
    ensures CountIn(times, lo, hi) == CountIn(times, lo', hi)
  {
    if times != [] {
      CountFrom(times[1..], lo, lo', hi);
    }
  }

  lemma SpacedTail(interval: int, times: seq<int>)
    requires interval > 0 && times != [] && Spaced(interval, times)
    ensures Spaced(interval, times[1..])
    ensures forall i | 0 <= i < |times[1..]| :: times[1..][i] >= times[0] + interval
  {
    forall i | 0 <= i < |times[1..]|
      ensures times[1..][i] >= times[0] + interval
    {
      SpacedPairs(interval, times, 0, i + 1);
      MulMonotone(1, i + 1, interval);
    }
  }

  lemma {:induction false} WindowOfSpaced(interval: int, times: seq<int>, lo: int, hi: int)
    requires interval > 0 && Spaced(interval, times)
    ensures lo > hi ==> CountIn(times, lo, hi) == 0
    ensures lo <= hi ==> CountIn(times, lo, hi) * interval <= hi - lo + interval
  {
    if times != [] {
      SpacedTail(interval, times);
      if lo <= times[0] <= hi {
        var next := times[0] + interval;
        CountFrom(times[1..], lo, next, hi);
        WindowOfSpaced(interval, times[1..], next, hi);
        var n := CountIn(times[1..], next, hi);
        assert (n + 1) * interval == n * interval + interval;
      } else {
        WindowOfSpaced(interval, times[1..], lo, hi);
      }
    }
  }

  /** A window of length L holds at most L / interval + 1 accepted triggers of a key. */
  lemma WindowBound(interval: int, trace: seq<Arrival>, key: string, start: int, length: nat)
    requires interval > 0
    ensures CountIn(AcceptedTimes(interval, map[], trace, key), start, start + length) <= length / interval + 1
  {
    KeysAreIndependent(interval, map[], trace, key);
    GreedyIsSpaced(interval, None, TimesOf(trace, key));
    var accepted := AcceptedTimes(interval, map[], trace, key);
    WindowOfSpaced(interval, accepted, start, start + length);
    FewerIntervals(CountIn(accepted, start, start + length), interval, length);
  }

  lemma FewerIntervals(n: nat, interval: int, length: nat)
    requires interval > 0 && n * interval <= length + interval
    ensures n <= length / interval + 1
  {
    assert (n - 1) * interval == n * interval - interval;
    QuotientBound(n - 1, interval, length);
  }

  lemma MulMonotone(a: int, b: int, d: int)
    requires a <= b && d >= 0
    ensures a * d <= b * d
  {
    assert b * d - a * d == (b - a) * d;
  }

  lemma QuotientBound(n: int, d: int, length: nat)
    requires d > 0 && n * d <= length
    ensures n <= length / d
  {
    var q := length / d;
    assert length < q * d + d == (q + 1) * d;
    if n >= q + 1 {
      MulMonotone(q + 1, n, d);
    }
  }

  // ---- Optimality ----

  /** xs picks some of ys, in order. */
  ghost predicate Subsequence(xs: seq<int>, ys: seq<int>) {
    xs == [] ||
    (ys != [] && (Subsequence(xs, ys[1..]) || (xs[0] == ys[0] && Subsequence(xs[1..], ys[1..]))))
  }

  lemma {:induction false} SubsequenceLength(xs: seq<int>, ys: seq<int>)
    requires Subsequence(xs, ys)
    ensures |xs| <= |ys|
    decreases |ys|
  {
    if xs != [] {
      if Subsequence(xs, ys[1..]) {
        SubsequenceLength(xs, ys[1..]);
      } else {
        SubsequenceLength(xs[1..], ys[1..]);
      }
    }
  }

  /** A choice from a longer list leaves its last entry out or ends in it. */
  lemma {:induction false} SubsequenceSnoc(xs: seq<int>, ys: seq<int>, y: int)
    requires Subsequence(xs, ys + [y])
    ensures Subsequence(xs, ys) || (xs != [] && xs[|xs| - 1] == y && Subsequence(xs[..|xs| - 1], ys))
    decreases |ys|
  {
    var all := ys + [y];
    if xs != [] {
      if ys == [] {
        assert all[1..] == [];
        assert xs[1..] == [];
      } else {
        var rest := ys[1..];
        assert all[1..] == rest + [y];
        if Subsequence(xs, all[1..]) {
          SubsequenceSnoc(xs, rest, y);
        } else {
          SubsequenceSnoc(xs[1..], rest, y);
          assert |xs| > 1 ==> xs[1..][..|xs| - 2] == xs[..|xs| - 1][1..];
        }
      }
    }
  }

  lemma {:induction false} SubsequenceConcat(xs: seq<int>, ys: seq<int>, tail: seq<int>)
    requires Subsequence(xs, ys)
    ensures Subsequence(xs + tail, ys + tail)
    decreases |ys|
  {
    if ys == [] {
      assert xs + tail == tail && ys + tail == tail;
      SubsequenceOfItself(tail);
    } else {
      assert (ys + tail)[1..] == ys[1..] + tail;
      if Subsequence(xs, ys[1..]) {
        SubsequenceConcat(xs, ys[1..], tail);
      } else {
        assert (xs + tail)[1..] == xs[1..] + tail;
        SubsequenceConcat(xs[1..], ys[1..], tail);
      }
    }
  }

  lemma {:induction false} SubsequenceOfItself(xs: seq<int>)
    ensures Subsequence(xs, xs)
  {
    if xs != [] {
      SubsequenceOfItself(xs[1..]);
    }
  }

  lemma {:induction false} SubsequencePrefix(xs: seq<int>, ys: seq<int>, n: nat)
    requires n <= |xs| && Subsequence(xs, ys)
    ensures Subsequence(xs[..n], ys)
    decreases |ys|
  {
    if n > 0 {
      if Subsequence(xs, ys[1..]) {
        SubsequencePrefix(xs, ys[1..], n);
      } else {
        SubsequencePrefix(xs[1..], ys[1..], n - 1);
        assert xs[..n][1..] == xs[1..][..n - 1];
      }
    }
  }

  /** The last accepted time lies too close behind y. */
  predicate Denied(interval: int, accepted: seq<int>, y: int) {
    accepted != [] && y - accepted[|accepted| - 1] < interval
  }

  lemma {:induction false} GreedySnoc(interval: int, prev: Option<int>, times: seq<int>, y: int)
    ensures var g := Greedy(interval, prev, times);
            var before := if prev.Some? then [prev.value] + g else g;
            Greedy(interval, prev, times + [y]) == if Denied(interval, before, y) then g else g + [y]
    decreases |times|
  {
    var all := times + [y];
    if times == [] {
      assert all[1..] == [];
    } else {
      assert all[1..] == times[1..] + [y];
      if prev.Some? && times[0] - prev.value < interval {
        GreedySnoc(interval, prev, times[1..], y);
      } else {
        GreedySnoc(interval, Some(times[0]), times[1..], y);
        var later := Greedy(interval, Some(times[0]), times[1..]);
        assert [times[0]] + (later + [y]) == [times[0]] + later + [y];
        assert prev.Some? ==> ([prev.value] + ([times[0]] + later))[|later| + 1] == ([times[0]] + later)[|later|];
      }
    }
  }

  /** The accepted times of a key that has none yet. */
  function Accepted(interval: int, times: seq<int>): seq<int> {
    Greedy(interval, None, times)
  }

  lemma AcceptedSnoc(interval: int, times: seq<int>, y: int)
    ensures var g := Accepted(interval, times);
            Accepted(interval, times + [y]) == if Denied(interval, g, y) then g else g + [y]
  {
    GreedySnoc(interval, None, times, y);
  }

  /** An accepted trigger lies less than the interval before y. */
  ghost predicate Covered(interval: int, accepted: seq<int>, y: int) {
    exists i :: 0 <= i < |accepted| && accepted[i] <= y < accepted[i] + interval
  }

  /** No arrival was denied that the accepted triggers at or before it would have permitted. A clock may step
      back as long as it stays behind some accepted trigger by less than the interval. */
  ghost predicate CaughtUp(interval: int, times: seq<int>) {
    forall k | 0 <= k < |times| && Denied(interval, Accepted(interval, times[..k]), times[k]) ::
      Covered(interval, Accepted(interval, times[..k]), times[k])
  }

  lemma CaughtUpFront(interval: int, times: seq<int>)
    requires times != [] && CaughtUp(interval, times)
    ensures CaughtUp(interval, times[..|times| - 1])
  {
    hide Accepted, Denied, Covered;
    var front := times[..|times| - 1];
    assert forall k | 0 <= k < |front| :: front[..k] == times[..k] && front[k] == times[k];
  }

  /** A clock that never steps back is caught up. */
  lemma ForwardClockIsCaughtUp(interval: int, times: seq<int>)
    requires forall i, j | 0 <= i <= j < |times| :: times[i] <= times[j]
    ensures CaughtUp(interval, times)
  {
    forall k | 0 <= k < |times| && Denied(interval, Accepted(interval, times[..k]), times[k])
      ensures Covered(interval, Accepted(interval, times[..k]), times[k])
    {
      var accepted := Accepted(interval, times[..k]);
      GreedyIsSubsequence(interval, None, times[..k]);
      SubsequenceMembers(accepted, times[..k]);
      var last := accepted[|accepted| - 1];
      assert last in accepted;
    }
  }

  lemma {:induction false} SubsequenceMembers(xs: seq<int>, ys: seq<int>)
    requires Subsequence(xs, ys)
    ensures forall x | x in xs :: x in ys
    decreases |ys|
  {
    if xs != [] {
      if Subsequence(xs, ys[1..]) {
        SubsequenceMembers(xs, ys[1..]);
      } else {
        SubsequenceMembers(xs[1..], ys[1..]);
        assert xs == [xs[0]] + xs[1..];
      }
    }
  }

  lemma SpacedIncreases(interval: int, times: seq<int>, i: nat, j: nat)
    requires interval > 0 && Spaced(interval, times) && i <= j < |times|
    ensures times[i] <= times[j] && (i < j ==> times[i] + interval <= times[j])
  {
    SpacedPairs(interval, times, i, j);
    if i < j {
      MulMonotone(1, j - i, interval);
    }
  }

  /** The n-th accepted trigger exists and comes no later than y. */
  predicate Ahead(accepted: seq<int>, n: nat, y: int) {
    n <= |accepted| && (n > 0 ==> accepted[n - 1] <= y)
  }

  lemma ExtendAhead(interval: int, accepted: seq<int>, n: nat, x: int, y: int)
    requires interval > 0 && Spaced(interval, accepted) && Covered(interval, accepted, y)
    requires Ahead(accepted, n, x) && (n > 0 ==> y - x >= interval)
    ensures Ahead(accepted, n + 1, y)
  {
    var i :| 0 <= i < |accepted| && accepted[i] <= y < accepted[i] + interval;
    if n > 0 && i < n {
      SpacedIncreases(interval, accepted, i, n - 1);
    }
    SpacedIncreases(interval, accepted, n, i);
  }

  /** The last of the chosen times. */
  function LastTime(chosen: seq<int>): int {
    if chosen == [] then 0 else chosen[|chosen| - 1]
  }

  lemma AheadKept(interval: int, front: seq<int>, y: int, n: nat, x: int)
    requires Ahead(Accepted(interval, front), n, x)
    ensures Ahead(Accepted(interval, front + [y]), n, x)
  {
    hide Accepted;
    AcceptedSnoc(interval, front, y);
  }

  /** Choosing the latest arrival keeps greedy ahead. */
  lemma AheadAtLatest(interval: int, front: seq<int>, y: int, earlier: seq<int>)
    requires interval > 0 && CaughtUp(interval, front + [y])
    requires Ahead(Accepted(interval, front), |earlier|, LastTime(earlier))
    requires earlier != [] ==> y - LastTime(earlier) >= interval
    ensures Ahead(Accepted(interval, front + [y]), |earlier| + 1, y)
  {
    hide CaughtUp, Covered;
    AheadKept(interval, front, y, |earlier|, LastTime(earlier));
    GreedyIsSpaced(interval, None, front + [y]);
    LatestIsCovered(interval, front, y);
    ExtendAhead(interval, Accepted(interval, front + [y]), |earlier|, LastTime(earlier), y);
  }

  /** Greedy stays ahead: the n-th accepted trigger comes no later than the n-th of any spaced choice. */
  lemma {:induction false} GreedyStaysAhead(interval: int, times: seq<int>, chosen: seq<int>)
    requires interval > 0 && CaughtUp(interval, times)
    requires Subsequence(chosen, times) && Spaced(interval, chosen)
    ensures Ahead(Accepted(interval, times), |chosen|, LastTime(chosen))
    decreases |times|
  {
    hide Accepted, CaughtUp, Covered, Subsequence, Ahead;
    if chosen == [] {
      NothingIsAhead(Accepted(interval, times));
    } else if times == [] {
      SubsequenceLength(chosen, times);
    } else {
      var front, y := times[..|times| - 1], times[|times| - 1];
      assert times == front + [y];
      CaughtUpFront(interval, times);
      SubsequenceSnoc(chosen, front, y);
      if Subsequence(chosen, front) {
        GreedyStaysAhead(interval, front, chosen);
        AheadKept(interval, front, y, |chosen|, LastTime(chosen));
      } else {
        var earlier := chosen[..|chosen| - 1];
        GreedyStaysAhead(interval, front, earlier);
        AheadAtLatest(interval, front, y, earlier);
      }
    }
  }

  lemma NothingIsAhead(accepted: seq<int>)
    ensures Ahead(accepted, 0, 0)
  {
  }

  lemma LatestIsCovered(interval: int, front: seq<int>, y: int)
    requires interval > 0 && CaughtUp(interval, front + [y])
    ensures Covered(interval, Accepted(interval, front + [y]), y)
  {
    hide Accepted;
    var times := front + [y];
    var k := |front|;
    assert times[..k] == front && times[k] == y;
    AcceptedSnoc(interval, front, y);
    if !Denied(interval, Accepted(interval, front), y) {
      var accepted := Accepted(interval, times);
      assert accepted[|accepted| - 1] == y;
    }
  }

  /** Without a positive interval a caught-up debouncer denies nothing. */
  lemma {:induction false} NothingDenied(interval: int, times: seq<int>)
    requires interval <= 0 && CaughtUp(interval, times)
    ensures Accepted(interval, times) == times
  {
    if times != [] {
      var front, y := times[..|times| - 1], times[|times| - 1];
      assert times == front + [y];
      CaughtUpFront(interval, times);
      NothingDenied(interval, front);
      AcceptedSnoc(interval, front, y);
      assert times[..|front|] == front && times[|front|] == y;
    }
  }

  /** As long as the arrivals of a key are caught up, no choice of them spaced by the interval is larger than
      the accepted set. */
  lemma AcceptedIsMaximal(interval: int, trace: seq<Arrival>, key: string, chosen: seq<int>)
    requires CaughtUp(interval, TimesOf(trace, key))
    requires Subsequence(chosen, TimesOf(trace, key)) && Spaced(interval, chosen)
    ensures |chosen| <= |AcceptedTimes(interval, map[], trace, key)|
  {
    hide CaughtUp;
    KeysAreIndependent(interval, map[], trace, key);
    var times := TimesOf(trace, key);
    if interval > 0 {
      GreedyStaysAhead(interval, times, chosen);
    } else {
      NothingDenied(interval, times);
      SubsequenceLength(chosen, times);
    }
  }

  /** The accepted times are themselves such a choice, so the bound is attained. */
  lemma AcceptedIsAChoice(interval: int, trace: seq<Arrival>, key: string)
    ensures var accepted := AcceptedTimes(interval, map[], trace, key);
            Subsequence(accepted, TimesOf(trace, key)) && Spaced(interval, accepted)
  {
    KeysAreIndependent(interval, map[], trace, key);
    GreedyIsSpaced(interval, None, TimesOf(trace, key));
    GreedyIsSubsequence(interval, None, TimesOf(trace, key));
  }

  lemma {:induction false} GreedyIsSubsequence(interval: int, prev: Option<int>, times: seq<int>)
    ensures Subsequence(Greedy(interval, prev, times), times)
    decreases |times|
  {
    if times != [] {
      if prev.Some? && times[0] - prev.value < interval {
        GreedyIsSubsequence(interval, prev, times[1..]);
      } else {
        GreedyIsSubsequence(interval, Some(times[0]), times[1..]);
        assert Greedy(interval, prev, times)[1..] == Greedy(interval, Some(times[0]), times[1..]);
      }
    }
  }

  // ---- A clock that falls behind ----

  lemma {:induction false} DeniedTail(interval: int, times: seq<int>, tail: seq<int>)
    requires forall e | e in tail :: Denied(interval, Accepted(interval, times), e)
    ensures Accepted(interval, times + tail) == Accepted(interval, times)
    decreases |tail|
  {
    hide Accepted;
    if tail == [] {
      assert times + tail == times;
    } else {
      var front, e := tail[..|tail| - 1], tail[|tail| - 1];
      DeniedTail(interval, times, front);
      assert times + tail == (times + front) + [e];
      AcceptedSnoc(interval, times + front, e);
    }
  }

  /** y, then the steps of one interval each that follow it. */
  function Ladder(y: int, interval: int, n: nat): seq<int> {
    seq(n, i => y + i * interval)
  }

  /** The first accepted trigger that y does not keep its distance from. */
  lemma FirstTooClose(interval: int, accepted: seq<int>, y: int) returns (j: nat)
    requires Denied(interval, accepted, y)
    ensures j < |accepted| && y - accepted[j] < interval
    ensures j > 0 ==> y - accepted[j - 1] >= interval
  {
    j := 0;
    while y - accepted[j] >= interval
      invariant j < |accepted|
      invariant j > 0 ==> y - accepted[j - 1] >= interval
      decreases |accepted| - j
    {
      j := j + 1;
    }
  }

  lemma LadderIsSpaced(y: int, interval: int, n: nat)
    ensures Spaced(interval, Ladder(y, interval, n))
  {
    forall i | 0 < i < n
      ensures Ladder(y, interval, n)[i] - Ladder(y, interval, n)[i - 1] >= interval
    {
      assert i * interval == (i - 1) * interval + interval;
    }
  }

  /** Every rung lies too close to the last accepted trigger. */
  lemma LadderIsDenied(interval: int, accepted: seq<int>, y: int, j: nat)
    requires interval > 0 && Spaced(interval, accepted) && j < |accepted| && y < accepted[j]
    ensures forall e | e in Ladder(y, interval, |accepted| - j + 1) :: Denied(interval, accepted, e)
  {
    var m := |accepted|;
    SpacedPairs(interval, accepted, j, m - 1);
    forall e | e in Ladder(y, interval, m - j + 1)
      ensures Denied(interval, accepted, e)
    {
      var i :| 0 <= i < m - j + 1 && e == y + i * interval;
      MulMonotone(i, m - j, interval);
      assert (m - j) * interval == (m - 1 - j) * interval + interval;
    }
  }

  lemma SpacedConcat(interval: int, a: seq<int>, b: seq<int>)
    requires Spaced(interval, a) && Spaced(interval, b)
    requires a != [] && b != [] ==> b[0] - a[|a| - 1] >= interval
    ensures Spaced(interval, a + b)
  {
  }

  /** A chain through y that leads to a larger choice than the accepted one. */
  lemma LadderOvertakes(interval: int, times: seq<int>, y: int) returns (ladder: seq<int>, kept: seq<int>)
    requires interval > 0
    requires Denied(interval, Accepted(interval, times), y) && !Covered(interval, Accepted(interval, times), y)
    ensures ladder != [] && ladder[0] == y
    ensures forall e | e in ladder :: Denied(interval, Accepted(interval, times), e)
    ensures Subsequence(kept, times) && Spaced(interval, kept + ladder)
    ensures |kept + ladder| > |Accepted(interval, times)|
  {
    var accepted := Accepted(interval, times);
    GreedyIsSpaced(interval, None, times);
    GreedyIsSubsequence(interval, None, times);
    assert Subsequence(accepted, times);
    hide Accepted, Subsequence;
    var j := FirstTooClose(interval, accepted, y);
    ladder, kept := Ladder(y, interval, |accepted| - j + 1), accepted[..j];
    SubsequencePrefix(accepted, times, j);
    LadderIsSpaced(y, interval, |ladder|);
    SpacedConcat(interval, kept, ladder);
    LadderIsDenied(interval, accepted, y, j);
  }

  /** Without a positive interval, repeating y does. */
  lemma RepeatsOvertake(interval: int, times: seq<int>, y: int) returns (ladder: seq<int>)
    requires interval <= 0 && Denied(interval, Accepted(interval, times), y)
    ensures ladder != [] && ladder[0] == y && Spaced(interval, ladder)
    ensures forall e | e in ladder :: Denied(interval, Accepted(interval, times), e)
    ensures |ladder| > |Accepted(interval, times)|
  {
    ladder := seq(|Accepted(interval, times)| + 1, _ => y);
  }

  lemma OvertakingLadder(interval: int, times: seq<int>, y: int) returns (ladder: seq<int>, kept: seq<int>)
    requires Denied(interval, Accepted(interval, times), y) && !Covered(interval, Accepted(interval, times), y)
    ensures ladder != [] && ladder[0] == y
    ensures forall e | e in ladder :: Denied(interval, Accepted(interval, times), e)
    ensures Subsequence(kept, times) && Spaced(interval, kept + ladder)
    ensures |kept + ladder| > |Accepted(interval, times)|
  {
    hide Accepted, Spaced, Covered, Denied;
    if interval > 0 {
      ladder, kept := LadderOvertakes(interval, times, y);
    } else {
      ladder := RepeatsOvertake(interval, times, y);
      kept := [];
      assert kept + ladder == ladder;
    }
  }

  /** The converse: as soon as an arrival is denied that the accepted triggers at or before it would have
      permitted, arrivals can follow on which another choice is larger than the accepted set. */
  lemma FallingBehindCosts(interval: int, times: seq<int>, y: int) returns (tail: seq<int>, chosen: seq<int>)
    requires Denied(interval, Accepted(interval, times), y) && !Covered(interval, Accepted(interval, times), y)
    ensures Subsequence(chosen, times + [y] + tail) && Spaced(interval, chosen)
    ensures |chosen| > |Accepted(interval, times + [y] + tail)|
  {
    hide Accepted, Subsequence, Spaced, Covered, Denied;
    var ladder, kept := OvertakingLadder(interval, times, y);
    tail, chosen := ladder[1..], kept + ladder;
    LadderFollows(times, y, ladder);
    SubsequenceConcat(kept, times, ladder);
    DeniedTail(interval, times, ladder);
  }

  lemma LadderFollows(times: seq<int>, y: int, ladder: seq<int>)
    requires ladder != [] && ladder[0] == y
    ensures times + [y] + ladder[1..] == times + ladder
  {
  }
}
