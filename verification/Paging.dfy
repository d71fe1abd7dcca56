/** Re-assembling a listing from pages.  Each fetch sees a listing and a total,
    which come from two statements and need not agree, and no two fetches need
    see the same.  Fetches count from 1: the k-th sees `seen(k)`. */
module Paging {
  import opened Ordering

  /** What one fetch sees: the rows, in order, and the count. */
  datatype Seen<T> = Seen(view: seq<T>, total: nat)

  /** How many of the first `k` fetches are hits. */
  ghost function Times(hit: nat -> bool, k: nat): nat {
    if k == 0 then 0 else Times(hit, k - 1) + (if hit(k) then 1 else 0)
  }

  lemma {:induction false} TimesPositive(hit: nat -> bool, k: nat)
    ensures Times(hit, k) > 0 <==> exists j: nat :: 1 <= j <= k && hit(j)
    decreases k
  {
    if k == 0 {
    } else {
      TimesPositive(hit, k - 1);
    }
  }

  lemma {:induction false} TimesGrows(hit: nat -> bool, j: nat, k: nat)
    requires j <= k
    ensures Times(hit, j) <= Times(hit, k)
    decreases k
  {
    if j == k {
    } else {
      TimesGrows(hit, j, k - 1);
    }
  }

  lemma {:induction false} TimesAgree(a: nat -> bool, b: nat -> bool, k: nat)
    requires forall j: nat | 1 <= j <= k :: a(j) == b(j)
    ensures Times(a, k) == Times(b, k)
    decreases k
  {
    if k == 0 {
    } else {
      TimesAgree(a, b, k - 1);
    }
  }

  lemma {:induction false} TimesAddUp(x: nat -> nat, hit: nat -> bool, k: nat)
    requires forall j: nat | 1 <= j <= k :: x(j) == x(j - 1) + (if hit(j) then 1 else 0)
    ensures x(k) == x(0) + Times(hit, k)
    decreases k
  {
    if k == 0 {
    } else {
      TimesAddUp(x, hit, k - 1);
    }
  }

  function ViewAt<T>(seen: nat -> Seen<T>, k: nat): seq<T> {
    seen(k).view
  }

  function Fetched<T>(seen: nat -> Seen<T>, limit: nat, k: nat): seq<T>
    requires k >= 1
  {
    Page(ViewAt(seen, k), limit, (k - 1) * limit)
  }

  /** Everything the first `k` fetches returned, repeats included. */
  function Collected<T>(seen: nat -> Seen<T>, limit: nat, k: nat): seq<T>
  {
    if k == 0 then [] else Collected(seen, limit, k - 1) + Fetched(seen, limit, k)
  }

  /** The test that ends the loop after the k-th fetch. */
  predicate StopsAt<T>(seen: nat -> Seen<T>, limit: nat, k: nat)
    requires k >= 1
  {
    |Collected(seen, limit, k)| >= seen(k).total || |Fetched(seen, limit, k)| == 0
  }

  /** No fetch before the k-th ends the loop. */
  ghost predicate ReachesFetch<T>(seen: nat -> Seen<T>, limit: nat, k: nat)
  {
    forall j | 1 <= j < k :: !StopsAt(seen, limit, j)
  }

  lemma GoesOn<T>(seen: nat -> Seen<T>, limit: nat, k: nat)
    requires k >= 1 && ReachesFetch(seen, limit, k) && !StopsAt(seen, limit, k)
    ensures ReachesFetch(seen, limit, k + 1)
  {
  }

  /** The loop ends after exactly `k` fetches. */
  ghost predicate EndsAfter<T>(seen: nat -> Seen<T>, limit: nat, k: nat) {
    k >= 1 && StopsAt(seen, limit, k) && ReachesFetch(seen, limit, k)
  }

  lemma FetchedLength<T>(seen: nat -> Seen<T>, limit: nat, k: nat)
    requires k >= 1
    ensures 0 <= (k - 1) * limit && (k - 1) * limit + limit == k * limit
    ensures |Fetched(seen, limit, k)| == Min(k * limit, |ViewAt(seen, k)|) - Min((k - 1) * limit, |ViewAt(seen, k)|)
  {
    PageLength(ViewAt(seen, k), limit, k);
  }

  /** In the first `k` fetches the count is that of the very listing the page is taken from. */
  ghost predicate CountsExactly<T>(seen: nat -> Seen<T>, k: nat) {
    forall j: nat | 1 <= j <= k :: seen(j).total == |seen(j).view|
  }

  /** The count of the k-th fetch misses no row of the listing it pages. */
  ghost predicate CountCovers<T>(seen: nat -> Seen<T>, k: nat) {
    seen(k).total >= |ViewAt(seen, k)|
  }

  /** As long as the loop goes on, every page it got was full. */
  lemma {:induction false} EarlierPagesAreFull<T>(seen: nat -> Seen<T>, limit: nat, k: nat)
    requires limit >= 1 && CountsExactly(seen, k)
    requires forall j | 1 <= j <= k :: !StopsAt(seen, limit, j)
    ensures |Collected(seen, limit, k)| == k * limit
    decreases k
  {
    if k == 0 {
    } else {
      EarlierPagesAreFull(seen, limit, k - 1);
      FetchedLength(seen, limit, k);
      assert !StopsAt(seen, limit, k);
    }
  }

  /** All of a listing of `n` rows lies on the first `k` pages. */
  predicate FitsOn(n: nat, limit: nat, k: nat) {
    n <= k * limit
  }

  lemma StopsExactly<T>(seen: nat -> Seen<T>, limit: nat, k: nat)
    requires limit >= 1 && k >= 1 && CountsExactly(seen, k) && ReachesFetch(seen, limit, k)
    ensures StopsAt(seen, limit, k) <==> FitsOn(|ViewAt(seen, k)|, limit, k)
  {
    EarlierPagesAreFull(seen, limit, k - 1);
    FetchedLength(seen, limit, k);
    assert |Collected(seen, limit, k)| == (k - 1) * limit + |Fetched(seen, limit, k)|;
  }

  lemma {:induction false} ReachesExactly<T>(seen: nat -> Seen<T>, limit: nat, k: nat)
    requires limit >= 1 && CountsExactly(seen, k)
    ensures ReachesFetch(seen, limit, k + 1) <==>
              forall j: nat | 1 <= j <= k :: !FitsOn(|ViewAt(seen, j)|, limit, j)
    decreases k
  {
    if k == 0 {
    } else {
      ReachesExactly(seen, limit, k - 1);
      if ReachesFetch(seen, limit, k) {
        StopsExactly(seen, limit, k);
      }
    }
  }

  /** The exact law of the end, when each count is that of the rows it pages:
      whatever happens between fetches, the loop ends with the first fetch whose
      listing lies on the pages asked for by then. */
  lemma EndsExactly<T>(seen: nat -> Seen<T>, limit: nat, k: nat)
    requires limit >= 1 && k >= 1 && CountsExactly(seen, k)
    ensures EndsAfter(seen, limit, k) <==>
              && FitsOn(|ViewAt(seen, k)|, limit, k)
              && forall j: nat | 1 <= j < k :: !FitsOn(|ViewAt(seen, j)|, limit, j)
  {
    ReachesExactly(seen, limit, k - 1);
    if ReachesFetch(seen, limit, k) {
      StopsExactly(seen, limit, k);
    }
  }

  lemma {:induction false} EndsOrReaches<T>(seen: nat -> Seen<T>, limit: nat, k: nat)
    ensures (exists j :: 1 <= j <= k && EndsAfter(seen, limit, j)) || ReachesFetch(seen, limit, k + 1)
    decreases k
  {
    if k == 0 {
    } else {
      EndsOrReaches(seen, limit, k - 1);
      if ReachesFetch(seen, limit, k) && StopsAt(seen, limit, k) {
        assert EndsAfter(seen, limit, k);
      }
    }
  }

  /** So it ends at all, within `k` fetches, if and only if there is such a fetch. */
  lemma EndsWithin<T>(seen: nat -> Seen<T>, limit: nat, k: nat)
    requires limit >= 1 && CountsExactly(seen, k)
    ensures (exists j: nat :: 1 <= j <= k && EndsAfter(seen, limit, j)) <==>
              exists j: nat :: 1 <= j <= k && FitsOn(|ViewAt(seen, j)|, limit, j)
  {
    EndsOrReaches(seen, limit, k);
    ReachesExactly(seen, limit, k);
    if j: nat :| 1 <= j <= k && EndsAfter(seen, limit, j) {
      EndsExactly(seen, limit, j);
    }
  }

  lemma {:induction false} CollectedAtMost<T>(seen: nat -> Seen<T>, limit: nat, k: nat)
    ensures |Collected(seen, limit, k)| <= k * limit
    decreases k
  {
    if k == 0 {
    } else {
      CollectedAtMost(seen, limit, k - 1);
      FetchedLength(seen, limit, k);
    }
  }

  /** When the loop ends, the pages asked for span the rows then present. */
  lemma EndSpansView<T>(seen: nat -> Seen<T>, limit: nat, k: nat)
    requires limit >= 1 && EndsAfter(seen, limit, k) && CountCovers(seen, k)
    ensures |ViewAt(seen, k)| <= k * limit
  {
    CollectedAtMost(seen, limit, k);
    FetchedLength(seen, limit, k);
  }

  // ----- a listing that stands still

  /** From the m-th fetch on, nothing changes. */
  ghost predicate StillFrom<T>(seen: nat -> Seen<T>, m: nat) {
    forall k: nat | k >= m :: seen(k) == seen(m)
  }

  /** Every fetch that does not end the loop gets a row. */
  lemma {:induction false} EachFetchGrows<T>(seen: nat -> Seen<T>, limit: nat, k: nat)
    requires ReachesFetch(seen, limit, k + 1)
    ensures |Collected(seen, limit, k)| >= k
    decreases k
  {
    if k == 0 {
    } else {
      EachFetchGrows(seen, limit, k - 1);
      assert !StopsAt(seen, limit, k);
    }
  }

  /** Once nothing changes any more the loop ends, at the latest after as many
      further fetches as there are rows. */
  lemma EndsOnceStill<T>(seen: nat -> Seen<T>, limit: nat, m: nat)
    requires m >= 1 && StillFrom(seen, m)
    ensures exists k :: 1 <= k <= m + seen(m).total && EndsAfter(seen, limit, k)
  {
    var last := m + seen(m).total;
    EndsOrReaches(seen, limit, last - 1);
    if ReachesFetch(seen, limit, last) {
      EachFetchGrows(seen, limit, last - 1);
      assert seen(last) == seen(m);
      assert EndsAfter(seen, limit, last);
    }
  }

  /** The first `k` fetches see the same listing, counted exactly. */
  ghost predicate Unchanging<T>(seen: nat -> Seen<T>, xs: seq<T>, k: nat) {
    forall j: nat | 1 <= j <= k :: seen(j) == Seen(xs, |xs|)
  }

  lemma {:induction false} CollectedIsConcat<T>(seen: nat -> Seen<T>, xs: seq<T>, limit: nat, k: nat)
    requires Unchanging(seen, xs, k)
    ensures Collected(seen, limit, k) == ConcatPages(xs, limit, k)
    decreases k
  {
    if k == 0 {
    } else {
      CollectedIsConcat(seen, xs, limit, k - 1);
    }
  }

  /** How many pages of size `limit` hold `n` rows; an empty result takes one. */
  function PagesNeeded(n: nat, limit: nat): nat
    requires limit >= 1
  {
    if n == 0 then 1 else (n + limit - 1) / limit
  }

  lemma CeilingIs(n: nat, limit: nat, k: nat)
    requires limit >= 1 && k >= 1 && n <= k * limit && (k == 1 || (k - 1) * limit < n)
    ensures PagesNeeded(n, limit) == k
  {
    if n > 0 {
      var q := (n + limit - 1) / limit;
      assert n + limit - 1 == limit * q + (n + limit - 1) % limit;
      assert (k - 1) * limit + limit == k * limit;
      assert (q + 1) * limit == q * limit + limit;
      assert (k + 1) * limit == k * limit + limit;
      if q < k {
        ProductGrows(q + 1, k, limit);
      } else if k < q {
        ProductGrows(k + 1, q, limit);
      }
    }
  }

  /** Over an unchanging listing the loop ends after exactly as many fetches as
      the rows need, with the listing itself: no gap and no repeat. */
  lemma UnchangingView<T>(seen: nat -> Seen<T>, xs: seq<T>, limit: nat, fetches: nat)
    requires limit >= 1 && EndsAfter(seen, limit, fetches) && Unchanging(seen, xs, fetches)
    ensures Collected(seen, limit, fetches) == xs
    ensures fetches == PagesNeeded(|xs|, limit)
  {
    EndSpansView(seen, limit, fetches);
    CollectedIsConcat(seen, xs, limit, fetches);
    PagesTile(xs, limit, fetches);
    EndsExactly(seen, limit, fetches);
    if fetches > 1 {
      assert !FitsOn(|ViewAt(seen, fetches - 1)|, limit, fetches - 1);
    }
    CeilingIs(|xs|, limit, fetches);
  }

  // ----- a listing that changes between fetches

  ghost predicate SortedViews<T>(less: (T, T) -> bool, seen: nat -> Seen<T>) {
    forall k: nat :: Sorted(less, seen(k).view) && StrictTotal(less, Elements(seen(k).view))
  }

  /** How many rows come before `x` in the listing the k-th fetch sees. */
  ghost function PositionAt<T>(less: (T, T) -> bool, seen: nat -> Seen<T>, k: nat, x: T): nat {
    Rank(less, Elements(ViewAt(seen, k)), x)
  }

  /** `x` is present at each of the first `k` fetches and never moves to an
      earlier position between them. */
  ghost predicate NeverMovesUp<T>(less: (T, T) -> bool, seen: nat -> Seen<T>, k: nat, x: T) {
    && (forall j: nat | 1 <= j <= k :: x in seen(j).view)
    && (forall j: nat | 1 <= j < k :: PositionAt(less, seen, j, x) <= PositionAt(less, seen, j + 1, x))
  }

  lemma IndexIsPosition<T>(less: (T, T) -> bool, xs: seq<T>, x: T) returns (i: nat)
    requires Sorted(less, xs) && StrictTotal(less, Elements(xs)) && x in xs
    ensures i < |xs| && xs[i] == x && i == Rank(less, Elements(xs), x)
  {
    i :| 0 <= i < |xs| && xs[i] == x;
    RankIsIndex(less, xs, i);
  }

  /** `x` is present at the k-th fetch, at a position that fetch asks for. */
  ghost predicate InWindow<T>(less: (T, T) -> bool, seen: nat -> Seen<T>, limit: nat, k: nat, x: T) {
    x in ViewAt(seen, k) && (k - 1) * limit <= PositionAt(less, seen, k, x) < k * limit
  }

  ghost function Windows<T>(less: (T, T) -> bool, seen: nat -> Seen<T>, limit: nat, x: T): nat -> bool {
    (k: nat) => InWindow(less, seen, limit, k, x)
  }

  /** A row is on the page at its position, and on no other. */
  lemma OnPageAtPosition<T>(less: (T, T) -> bool, xs: seq<T>, limit: nat, k: nat, x: T)
    requires Sorted(less, xs) && StrictTotal(less, Elements(xs)) && k >= 1
    ensures 0 <= (k - 1) * limit
    ensures x in Page(xs, limit, (k - 1) * limit) <==>
              x in xs && (k - 1) * limit <= Rank(less, Elements(xs), x) < k * limit
  {
    PageLength(xs, limit, k);
    var page := Page(xs, limit, (k - 1) * limit);
    if x in xs {
      var i := IndexIsPosition(less, xs, x);
      if (k - 1) * limit <= i < k * limit {
        assert page[i - (k - 1) * limit] == xs[i];
      }
    }
    if x in page {
      var j :| 0 <= j < |page| && page[j] == x;
      assert xs[(k - 1) * limit + j] == x;
      RankIsIndex(less, xs, (k - 1) * limit + j);
    }
  }

  lemma {:induction false} DistinctMultiplicity<T>(xs: seq<T>, x: T)
    requires forall i, j | 0 <= i < j < |xs| :: xs[i] != xs[j]
    ensures multiset(xs)[x] == if x in xs then 1 else 0
    decreases |xs|
  {
    if xs == [] {
    } else {
      var front, last := xs[..|xs| - 1], xs[|xs| - 1];
      DistinctMultiplicity(front, x);
      assert xs == front + [last];
    }
  }

  lemma SortedPageDistinct<T>(less: (T, T) -> bool, xs: seq<T>, limit: nat, offset: nat)
    requires Sorted(less, xs) && StrictTotal(less, Elements(xs))
    ensures forall i, j | 0 <= i < j < |Page(xs, limit, offset)| ::
              Page(xs, limit, offset)[i] != Page(xs, limit, offset)[j]
  {
    var lo := Min(offset, |xs|);
    forall i, j | 0 <= i < j < |Page(xs, limit, offset)|
      ensures Page(xs, limit, offset)[i] != Page(xs, limit, offset)[j]
    {
      OrderOfIndices(less, xs, lo + i, lo + j);
      OrderOfIndices(less, xs, lo + j, lo + i);
    }
  }

  lemma FetchedTimes<T>(less: (T, T) -> bool, seen: nat -> Seen<T>, limit: nat, k: nat, x: T)
    requires k >= 1 && SortedViews(less, seen)
    ensures multiset(Fetched(seen, limit, k))[x] == if InWindow(less, seen, limit, k, x) then 1 else 0
  {
    OnPageAtPosition(less, ViewAt(seen, k), limit, k, x);
    SortedPageDistinct(less, ViewAt(seen, k), limit, (k - 1) * limit);
    DistinctMultiplicity(Fetched(seen, limit, k), x);
  }

  lemma {:induction false} FetchesAddUp<T>(seen: nat -> Seen<T>, limit: nat, k: nat, x: T, hit: nat -> bool)
    requires forall j: nat | 1 <= j <= k :: multiset(Fetched(seen, limit, j))[x] == if hit(j) then 1 else 0
    ensures multiset(Collected(seen, limit, k))[x] == Times(hit, k)
    decreases k
  {
    if k == 0 {
    } else {
      FetchesAddUp(seen, limit, k - 1, x, hit);
      var before, page := Collected(seen, limit, k - 1), Fetched(seen, limit, k);
      assert multiset(before + page)[x] == multiset(before)[x] + multiset(page)[x];
    }
  }

  /** The exact law of the loop: whatever happens between fetches, a row is
      collected once for every fetch that had it in its window.  It is missed
      if and only if there was none, and repeated if there were several. */
  lemma CollectedTimes<T>(less: (T, T) -> bool, seen: nat -> Seen<T>, limit: nat, k: nat, x: T)
    requires SortedViews(less, seen)
    ensures multiset(Collected(seen, limit, k))[x] == Times(Windows(less, seen, limit, x), k)
    ensures x in Collected(seen, limit, k) <==> exists j: nat :: 1 <= j <= k && InWindow(less, seen, limit, j, x)
  {
    var hit := Windows(less, seen, limit, x);
    forall j: nat | 1 <= j <= k ensures multiset(Fetched(seen, limit, j))[x] == if hit(j) then 1 else 0 {
      FetchedTimes(less, seen, limit, j, x);
    }
    FetchesAddUp(seen, limit, k, x, hit);
    TimesPositive(hit, k);
    assert x in Collected(seen, limit, k) <==> multiset(Collected(seen, limit, k))[x] > 0;
    assert forall j: nat :: hit(j) <==> InWindow(less, seen, limit, j, x);
  }

  /** A row that stays present and never moves up has been in a window by the
      time the fetches reach its position. */
  lemma {:induction false} WindowReached<T>(less: (T, T) -> bool, seen: nat -> Seen<T>, limit: nat, k: nat, x: T)
    requires k >= 1 && NeverMovesUp(less, seen, k, x) && PositionAt(less, seen, k, x) < k * limit
    ensures exists j: nat :: 1 <= j <= k && InWindow(less, seen, limit, j, x)
    decreases k
  {
    if (k - 1) * limit <= PositionAt(less, seen, k, x) {
      assert InWindow(less, seen, limit, k, x);
    } else {
      assert k > 1;
      assert PositionAt(less, seen, k - 1, x) <= PositionAt(less, seen, k - 1 + 1, x);
      WindowReached(less, seen, limit, k - 1, x);
    }
  }

  /** A row that stays present and never moves up is never missed, whatever
      else is created, changed or deleted between fetches, as long as the count
      of the last fetch covers its rows. */
  lemma NeverMissed<T>(less: (T, T) -> bool, seen: nat -> Seen<T>, limit: nat, fetches: nat, x: T)
    requires limit >= 1 && EndsAfter(seen, limit, fetches)
    requires CountCovers(seen, fetches) && SortedViews(less, seen) && NeverMovesUp(less, seen, fetches, x)
    ensures x in Collected(seen, limit, fetches)
  {
    EndSpansView(seen, limit, fetches);
    var i := IndexIsPosition(less, ViewAt(seen, fetches), x);
    WindowReached(less, seen, limit, fetches, x);
    CollectedTimes(less, seen, limit, fetches, x);
  }

  ghost predicate Growing<T>(seen: nat -> Seen<T>, k: nat) {
    forall j: nat | 1 <= j < k :: Elements(seen(j).view) <= Elements(seen(j + 1).view)
  }

  lemma {:induction false} GrowingKeeps<T>(seen: nat -> Seen<T>, k: nat, j: nat, x: T)
    requires Growing(seen, k) && 1 <= j <= k && x in seen(1).view
    ensures x in seen(j).view
    decreases j
  {
    if j == 1 {
    } else {
      GrowingKeeps(seen, k, j - 1, x);
      assert x in Elements(seen(j - 1).view);
      assert Elements(seen(j - 1).view) <= Elements(seen(j - 1 + 1).view);
    }
  }

  /** When rows are only added between fetches, and the last count covers its
      rows, nothing that was present at the start is missed. */
  lemma AdditionsNeverHide<T>(less: (T, T) -> bool, seen: nat -> Seen<T>, limit: nat, fetches: nat)
    requires limit >= 1 && EndsAfter(seen, limit, fetches)
    requires CountCovers(seen, fetches) && SortedViews(less, seen) && Growing(seen, fetches)
    ensures forall x | x in seen(1).view :: x in Collected(seen, limit, fetches)
  {
    forall x | x in seen(1).view ensures x in Collected(seen, limit, fetches) {
      forall j: nat | 1 <= j <= fetches ensures x in seen(j).view {
        GrowingKeeps(seen, fetches, j, x);
      }
      forall j: nat | 1 <= j < fetches ensures PositionAt(less, seen, j, x) <= PositionAt(less, seen, j + 1, x) {
        RankGrows(less, Elements(seen(j).view), Elements(seen(j + 1).view), x);
      }
      NeverMissed(less, seen, limit, fetches, x);
    }
  }

  ghost predicate EverPresent<T>(seen: nat -> Seen<T>, k: nat, x: T) {
    exists j: nat :: 1 <= j <= k && x in seen(j).view
  }

  /** Everything collected was present at some fetch. */
  lemma {:induction false} NothingInvented<T>(seen: nat -> Seen<T>, limit: nat, k: nat)
    ensures forall x | x in Collected(seen, limit, k) :: EverPresent(seen, k, x)
    decreases k
  {
    if k == 0 {
    } else {
      NothingInvented(seen, limit, k - 1);
      forall x | x in Collected(seen, limit, k) ensures EverPresent(seen, k, x) {
        if x in Collected(seen, limit, k - 1) {
          assert EverPresent(seen, k - 1, x);
        } else {
          assert x in Fetched(seen, limit, k) && x in seen(k).view;
        }
      }
    }
  }
}
