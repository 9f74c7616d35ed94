/** Repeated backstop runs: when they fall silent on an unchanging page, and how the dispatched
    epochs evolve while pages change. */
module BackstopConvergence {
  import opened Backstop

  /** The cursor after one run whose dispatch, if any, succeeds. */
  function NextCursor(page: seq<string>, epoch: string -> int, c: string): string {
    if Select(page, epoch, c) == "" then c else Select(page, epoch, c)
  }

  /** The cursor before run n, starting from c. */
  function CursorAt(page: seq<string>, epoch: string -> int, c: string, n: nat): string {
    if n == 0 then c else NextCursor(page, epoch, CursorAt(page, epoch, c, n - 1))
  }

  /** What run n dispatches, "" when it is silent. */
  function DispatchAt(page: seq<string>, epoch: string -> int, c: string, n: nat): string {
    Select(page, epoch, CursorAt(page, epoch, c, n))
  }

  /** A page as GitHub lists it: distinct non-empty names, epochs since 1970. */
  ghost predicate ValidPage(page: seq<string>, epoch: string -> int) {
    Distinct(page) && "" !in page && forall t | t in page :: epoch(t) >= 0
  }

  ghost predicate IsNewest(page: seq<string>, epoch: string -> int, i: int) {
    0 <= i < |page| && forall j | 0 <= j < |page| :: epoch(page[j]) <= epoch(page[i])
  }

  ghost predicate IsFirstNewest(page: seq<string>, epoch: string -> int, i: int) {
    IsNewest(page, epoch, i) && forall j | 0 <= j < i :: !IsNewest(page, epoch, j)
  }

  /** i and k are the first two entries holding the greatest epoch. */
  ghost predicate AreFirstTied(page: seq<string>, epoch: string -> int, i: int, k: int) {
    && IsFirstNewest(page, epoch, i)
    && i < k && IsNewest(page, epoch, k)
    && forall j | i < j < k :: !IsNewest(page, epoch, j)
  }

  /** The condition a caller can read off the page and the cursor. */
  ghost predicate Settles(page: seq<string>, epoch: string -> int, c: string) {
    || page == [] || c == page[0] || IsNewest(page, epoch, 0)
    || forall i, j | IsNewest(page, epoch, i) && IsNewest(page, epoch, j) :: i == j
  }

  lemma FindFirstNewest(page: seq<string>, epoch: string -> int) returns (i: int)
    requires page != []
    ensures IsFirstNewest(page, epoch, i)
  {
    i := 0;
    for n := 1 to |page|
      invariant 0 <= i < n
      invariant forall j | 0 <= j < n :: epoch(page[j]) <= epoch(page[i])
      invariant forall j | 0 <= j < i :: epoch(page[j]) < epoch(page[i])
    {
      if epoch(page[n]) > epoch(page[i]) {
        i := n;
      }
    }
  }

  lemma FindNextNewest(page: seq<string>, epoch: string -> int, i: int, j: int) returns (k: int)
    requires IsFirstNewest(page, epoch, i) && IsNewest(page, epoch, j) && i != j
    ensures AreFirstTied(page, epoch, i, k)
  {
    k := i + 1;
    while !IsNewest(page, epoch, k)
      invariant i < k <= j
      invariant forall m | i < m < k :: !IsNewest(page, epoch, m)
      decreases j - k
    {
      k := k + 1;
    }
  }

  /** What one run selects when the cursor is not first: the first newest entry, or the second when the
      cursor is the first newest, or nothing when the cursor is the only newest. */
  lemma SelectNewest(page: seq<string>, epoch: string -> int, c: string, i: int)
    requires ValidPage(page, epoch) && page != [] && page[0] != c
    requires IsNewest(page, epoch, i) && page[i] != c
    requires forall j | 0 <= j < i && page[j] != c :: !IsNewest(page, epoch, j)
    ensures Select(page, epoch, c) == page[i]
  {
    SelectionExact(page, epoch, c);
    assert page[i] in page;
    if HasBaseline(page, c) {
      var k :| 0 <= k < |page| && page[k] == c;
    }
    assert Eligible(page, epoch, c, i);
    forall j | Eligible(page, epoch, c, j) && j < i
      ensures epoch(page[j]) < epoch(page[i])
    {
      assert !IsNewest(page, epoch, j);
    }
    assert IsBest(page, epoch, c, i);
  }

  lemma SilentOnOnlyNewest(page: seq<string>, epoch: string -> int, c: string, i: int)
    requires ValidPage(page, epoch)
    requires IsNewest(page, epoch, i) && page[i] == c
    requires forall j | IsNewest(page, epoch, j) :: j == i
    ensures Select(page, epoch, c) == ""
  {
    forall t | t in page && t != c
      ensures epoch(t) < epoch(c)
    {
      var k :| 0 <= k < |page| && page[k] == t;
      assert !IsNewest(page, epoch, k);
    }
    SilentExactly(page, epoch, c);
  }

  lemma {:induction false} StaysSilent(page: seq<string>, epoch: string -> int, c: string, m: nat, n: nat)
    requires m <= n && DispatchAt(page, epoch, c, m) == ""
    ensures DispatchAt(page, epoch, c, n) == "" && CursorAt(page, epoch, c, n) == CursorAt(page, epoch, c, m)
    decreases n
  {
    if m < n {
      StaysSilent(page, epoch, c, m, n - 1);
    }
  }

  lemma SilentFromSecond(page: seq<string>, epoch: string -> int, c: string)
    requires ValidPage(page, epoch) && Settles(page, epoch, c)
    ensures DispatchAt(page, epoch, c, 1) == ""
  {
    assert CursorAt(page, epoch, c, 0) == c;
    assert CursorAt(page, epoch, c, 1) == NextCursor(page, epoch, c);
    if page == [] || c == page[0] {
      SilentExactly(page, epoch, c);
    } else {
      var i := FindFirstNewest(page, epoch);
      if page[i] == c {
        SilentOnOnlyNewest(page, epoch, c, i);
      } else {
        SelectNewest(page, epoch, c, i);
        assert page[i] in page;
        if i == 0 {
          SilentExactly(page, epoch, page[0]);
        } else {
          SilentOnOnlyNewest(page, epoch, page[i], i);
        }
      }
    }
  }

  /** On a page that does not settle, every run dispatches one of the first two tied newest tags, and
      consecutive runs dispatch different ones. */
  lemma {:induction false} Alternates(page: seq<string>, epoch: string -> int, c: string, i: int, k: int, n: nat)
    requires ValidPage(page, epoch) && !Settles(page, epoch, c)
    requires AreFirstTied(page, epoch, i, k)
    ensures DispatchAt(page, epoch, c, n) ==
            if CursorAt(page, epoch, c, n) == page[i] then page[k] else page[i]
    ensures DispatchAt(page, epoch, c, n) != "" && DispatchAt(page, epoch, c, n) == CursorAt(page, epoch, c, n + 1)
    ensures n > 0 ==> DispatchAt(page, epoch, c, n) != DispatchAt(page, epoch, c, n - 1)
  {
    assert page[i] in page && page[k] in page;
    var cursor := CursorAt(page, epoch, c, n);
    if n > 0 {
      Alternates(page, epoch, c, i, k, n - 1);
    }
    assert i != 0 && page[0] != cursor;
    if cursor == page[i] {
      SelectNewest(page, epoch, cursor, k);
    } else {
      SelectNewest(page, epoch, cursor, i);
    }
  }

  /** Convergence, exactly characterised: the backstop is permanently silent after at most one dispatch
      if and only if the page is empty, the cursor is the first entry, the first entry holds the greatest
      epoch, or only one entry does. */
  lemma Convergence(page: seq<string>, epoch: string -> int, c: string)
    requires ValidPage(page, epoch)
    ensures Settles(page, epoch, c) <==> forall n: nat | n >= 1 :: DispatchAt(page, epoch, c, n) == ""
    ensures !Settles(page, epoch, c) ==> forall n: nat :: DispatchAt(page, epoch, c, n) != ""
  {
    if Settles(page, epoch, c) {
      SilentFromSecond(page, epoch, c);
      forall n: nat | n >= 1
        ensures DispatchAt(page, epoch, c, n) == ""
      {
        StaysSilent(page, epoch, c, 1, n);
      }
    } else {
      var i := FindFirstNewest(page, epoch);
      var j :| IsNewest(page, epoch, j) && j != i;
      var k := FindNextNewest(page, epoch, i, j);
      forall n: nat
        ensures DispatchAt(page, epoch, c, n) != ""
      {
        Alternates(page, epoch, c, i, k, n);
      }
      assert DispatchAt(page, epoch, c, 1) != "";
    }
  }

  // ---- Changing pages ----

  /** The cursor before run n when run m sees pages[m] and its dispatch succeeds as oks says. */
  function CursorOver(pages: seq<seq<string>>, epoch: string -> int, oks: nat -> bool, c: string, n: nat): string
    requires n <= |pages|
  {
    if n == 0 then c
    else
      var before := CursorOver(pages, epoch, oks, c, n - 1);
      if oks(n - 1) then NextCursor(pages[n - 1], epoch, before) else before
  }

  lemma StepKeepsEpoch(page: seq<string>, epoch: string -> int, last: string)
    requires ValidPage(page, epoch) && last in page
    ensures epoch(last) <= epoch(NextCursor(page, epoch, last))
  {
    if Select(page, epoch, last) != "" {
      var i := SelectionOptimal(page, epoch, last);
    }
  }

  /** While the cursor's tag stays on the page, recorded dispatches never go back in epoch, whichever
      dispatches fail. */
  lemma {:induction false} DispatchedEpochsNeverDecrease(pages: seq<seq<string>>, epoch: string -> int,
                                                         oks: nat -> bool, c: string, m: nat, n: nat)
    requires forall p | p in pages :: ValidPage(p, epoch)
    requires m <= n <= |pages|
    requires forall i | m <= i < n :: CursorOver(pages, epoch, oks, c, i) in pages[i]
    ensures epoch(CursorOver(pages, epoch, oks, c, m)) <= epoch(CursorOver(pages, epoch, oks, c, n))
    decreases n
  {
    hide NextCursor, ValidPage;
    if m < n {
      DispatchedEpochsNeverDecrease(pages, epoch, oks, c, m, n - 1);
      assert pages[n - 1] in pages;
      StepKeepsEpoch(pages[n - 1], epoch, CursorOver(pages, epoch, oks, c, n - 1));
    }
  }
}
