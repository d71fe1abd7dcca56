/** The internal report: the paging loop that re-assembles a date range of one
    hive, over a table that may change between fetches, and its totals. */
module Report {
  import opened Domain
  import opened Calendar
  import opened Ordering
  import opened Query
  import opened Repository
  import opened Paging
  import opened Totals

  /** The rows of one hive harvested in an inclusive range of days. */
  ghost function InRange(t: Table, hive: Uuid, from: CalendarDate, to: CalendarDate): set<Harvest> {
    set id | id in t && t[id].hiveId == hive && DayNumber(from) <= t[id].harvestedAt <= DayNumber(to) :: t[id]
  }

  lemma InRangeDistinct(t: Table, hive: Uuid, from: CalendarDate, to: CalendarDate)
    ensures DistinctIds(InRange(t, hive, from, to))
  {
  }

  /** A report request; `limit` is the page size the loop asks for. */
  datatype Request = Request(hive: Uuid, from: CalendarDate, to: CalendarDate, limit: nat)

  /** The rows of the range, newest harvest first. */
  ghost function ReportRows(t: Table, q: Request): seq<Harvest> {
    InRangeDistinct(t, q.hive, q.from, q.to);
    Listing(HarvestedDesc, InRange(t, q.hive, q.from, q.to))
  }

  lemma ReportRowsSorted(t: Table, q: Request)
    ensures Sorted(Less(HarvestedDesc), ReportRows(t, q))
    ensures Elements(ReportRows(t, q)) == InRange(t, q.hive, q.from, q.to)
    ensures StrictTotal(Less(HarvestedDesc), InRange(t, q.hive, q.from, q.to))
    ensures |ReportRows(t, q)| == |InRange(t, q.hive, q.from, q.to)|
  {
    InRangeDistinct(t, q.hive, q.from, q.to);
    OrderIsTotal(HarvestedDesc, InRange(t, q.hive, q.from, q.to));
    ListingLists(HarvestedDesc, InRange(t, q.hive, q.from, q.to));
  }

  /** The states of the table on which one fetch counts and lists. */
  datatype Moment = Moment(counted: Table, listed: Table)

  ghost function SeenIn(m: Moment, q: Request): Seen<Harvest> {
    Seen(ReportRows(m.listed, q), |InRange(m.counted, q.hive, q.from, q.to)|)
  }

  /** What the successive fetches see: the k-th finds the table as `moments(k)`. */
  ghost function SeenBy(moments: nat -> Moment, q: Request): nat -> Seen<Harvest> {
    (k: nat) => SeenIn(moments(k), q)
  }

  /** The requests the server can answer: neither bound that is sent lies in
      year 0, which its calendar lacks. */
  predicate Answerable(q: Request) {
    q.from.year >= 1 && NextDay(q.to).year >= 1
  }

  /** The half-open query of the loop selects the inclusive range. */
  lemma RangeQueryIsInclusive(t: Table, q: Request, f: Filter)
    requires CanAddDate(q.to, 0, 0, 1)
    requires f == Filter(None, None, None, Some(q.from), Some(AddDate(q.to, 0, 0, 1)), None)
    ensures WellFormed(f) <==> Answerable(q)
    ensures Selected(t, {q.hive}, f) == InRange(t, q.hive, q.from, q.to)
    ensures FullListing(t, {q.hive}, f) == ReportRows(t, q)
  {
    AddOneDay(q.to);
    assert Selected(t, {q.hive}, f) == InRange(t, q.hive, q.from, q.to);
  }

  /** One ListByHive call of the loop. */
  method FetchPage(m: Moment, q: Request, page: nat) returns (r: Listed)
    requires q.limit >= 1 && page >= 1
    ensures r.QueryFailed? <==> !Answerable(q)
    ensures r.Listed? ==> r.items == Page(ReportRows(m.listed, q), q.limit, Offset(Params(page, q.limit)))
    ensures r.Listed? ==> r.total == |InRange(m.counted, q.hive, q.from, q.to)|
  {
    AddOneDay(q.to);
    var toExclusive := AddDate(q.to, 0, 0, 1);
    var filter := Filter(None, None, None, Some(q.from), Some(toExclusive), None);
    RangeQueryIsInclusive(m.counted, q, filter);
    RangeQueryIsInclusive(m.listed, q, filter);
    r := ListByHive(m.counted, m.listed, q.hive, Params(page, q.limit), filter);
  }

  method FetchSeen(moments: nat -> Moment, q: Request, page: nat) returns (r: Listed)
    requires q.limit >= 1 && page >= 1
    ensures r.QueryFailed? <==> !Answerable(q)
    ensures r.Listed? ==> r.items == Fetched(SeenBy(moments, q), q.limit, page)
    ensures r.Listed? ==> r.total == SeenBy(moments, q)(page).total
  {
    r := FetchPage(moments(page), q, page);
  }

  datatype Progress = GoOn | Stop | Fail

  /** The body of the loop: append a page, then test whether it was the last. */
  method AppendPage(moments: nat -> Moment, q: Request, page: nat, all: seq<Harvest>)
    returns (longer: seq<Harvest>, progress: Progress)
    requires q.limit >= 1 && page >= 1
    requires all == Collected(SeenBy(moments, q), q.limit, page - 1)
    ensures progress.Fail? <==> !Answerable(q)
    ensures !progress.Fail? ==> longer == Collected(SeenBy(moments, q), q.limit, page)
    ensures !progress.Fail? ==> (progress.Stop? <==> StopsAt(SeenBy(moments, q), q.limit, page))
    ensures progress.GoOn? ==> |all| < |longer| < SeenBy(moments, q)(page).total
  {
    var r := FetchSeen(moments, q, page);
    if r.QueryFailed? {
      return all, Fail;
    }
    longer := all + r.items;
    progress := if |longer| >= r.total || |r.items| == 0 then Stop else GoOn;
  }

  /** Where the loop stands after some fetches. */
  datatype Gathered = Gathered(all: seq<Harvest>, fetches: nat) | StillFetching(all: seq<Harvest>) | QueryError

  /** The loop, watched for `budget` fetches, over a table that may change at
      every one of them. */
  method CollectPages(moments: nat -> Moment, q: Request, budget: nat) returns (r: Gathered)
    requires q.limit >= 1
    ensures r.QueryError? <==> budget >= 1 && !Answerable(q)
    ensures r.Gathered? ==>
              && r.fetches <= budget && EndsAfter(SeenBy(moments, q), q.limit, r.fetches)
              && r.all == Collected(SeenBy(moments, q), q.limit, r.fetches)
    ensures r.StillFetching? ==>
              && ReachesFetch(SeenBy(moments, q), q.limit, budget + 1)
              && r.all == Collected(SeenBy(moments, q), q.limit, budget)
  {
    ghost var seen := SeenBy(moments, q);
    var all: seq<Harvest> := [];
    for page := 1 to budget + 1
      invariant all == Collected(seen, q.limit, page - 1) && ReachesFetch(seen, q.limit, page)
      invariant page > 1 ==> Answerable(q)
    {
      var progress;
      all, progress := AppendPage(moments, q, page, all);
      if progress.Fail? {
        return QueryError;
      }
      if progress.Stop? {
        return Gathered(all, page);
      }
      GoesOn(seen, q.limit, page);
    }
    r := StillFetching(all);
  }

  datatype ReportData =
    | ReportData(harvests: seq<Harvest>, totals: seq<ReportTotal>, fetches: nat)
    | ReportFailed
    | ReportPending

  method GetInternalReportData(add: (real, real) -> real, moments: nat -> Moment, q: Request, budget: nat)
    returns (data: ReportData)
    requires q.limit >= 1
    ensures data.ReportFailed? <==> budget >= 1 && !Answerable(q)
    ensures data.ReportData? ==>
              && data.fetches <= budget && EndsAfter(SeenBy(moments, q), q.limit, data.fetches)
              && data.harvests == Collected(SeenBy(moments, q), q.limit, data.fetches)
              && AreTotals(add, data.harvests, data.totals)
    ensures data.ReportData? ==> forall r :: r in data.totals <==>
              && (exists h :: h in data.harvests && h.product == r.product && h.unit == r.unit)
              && r.amount == AddedUp(add, AmountsOf(data.harvests, r.product, r.unit))
    ensures data.ReportPending? ==> ReachesFetch(SeenBy(moments, q), q.limit, budget + 1)
  {
    var r := CollectPages(moments, q, budget);
    if r.QueryError? {
      return ReportFailed;
    }
    if r.StillFetching? {
      return ReportPending;
    }
    var totals := ReportTotals(add, r.all);
    data := ReportData(r.all, totals, r.fetches);
  }

  /** In each of the first `k` fetches as many rows are in range at the count as
      at the listing. */
  ghost predicate CountsAgree(moments: nat -> Moment, q: Request, k: nat) {
    forall j: nat | 1 <= j <= k ::
      |InRange(moments(j).counted, q.hive, q.from, q.to)| == |InRange(moments(j).listed, q.hive, q.from, q.to)|
  }

  /** At the k-th fetch the rows in range fit on the pages asked for by then. */
  ghost predicate CatchesUp(moments: nat -> Moment, q: Request, k: nat) {
    FitsOn(|InRange(moments(k).listed, q.hive, q.from, q.to)|, q.limit, k)
  }

  lemma SeenCounts(moments: nat -> Moment, q: Request, k: nat)
    ensures |ViewAt(SeenBy(moments, q), k)| == |InRange(moments(k).listed, q.hive, q.from, q.to)|
    ensures CatchesUp(moments, q, k) <==> FitsOn(|ViewAt(SeenBy(moments, q), k)|, q.limit, k)
  {
    ReportRowsSorted(moments(k).listed, q);
  }

  lemma AgreeingCountsAreExact(moments: nat -> Moment, q: Request, k: nat)
    requires CountsAgree(moments, q, k)
    ensures CountsExactly(SeenBy(moments, q), k)
  {
    forall j: nat | 1 <= j <= k ensures SeenBy(moments, q)(j).total == |SeenBy(moments, q)(j).view| {
      SeenCounts(moments, q, j);
    }
  }

  /** The exact law of the end: when the counts agree, then whatever is created,
      changed and deleted between fetches, the loop ends with the first fetch at
      which the rows in range fit on the pages asked for by then. */
  lemma EndsWhenCaughtUp(moments: nat -> Moment, q: Request, k: nat)
    requires q.limit >= 1 && k >= 1 && CountsAgree(moments, q, k)
    ensures EndsAfter(SeenBy(moments, q), q.limit, k) <==>
              CatchesUp(moments, q, k) && forall j: nat | 1 <= j < k :: !CatchesUp(moments, q, j)
  {
    AgreeingCountsAreExact(moments, q, k);
    EndsExactly(SeenBy(moments, q), q.limit, k);
    forall j: nat | 1 <= j <= k
      ensures CatchesUp(moments, q, j) <==> FitsOn(|ViewAt(SeenBy(moments, q), j)|, q.limit, j)
    {
      SeenCounts(moments, q, j);
    }
  }

  /** And so it ends at all if and only if there is such a fetch. */
  lemma EndsIffCaughtUp(moments: nat -> Moment, q: Request)
    requires q.limit >= 1 && forall k: nat :: CountsAgree(moments, q, k)
    ensures (exists k: nat :: EndsAfter(SeenBy(moments, q), q.limit, k)) <==>
              exists k: nat :: k >= 1 && CatchesUp(moments, q, k)
  {
    var seen := SeenBy(moments, q);
    if k: nat :| EndsAfter(seen, q.limit, k) {
      EndsWhenCaughtUp(moments, q, k);
    }
    if k: nat :| k >= 1 && CatchesUp(moments, q, k) {
      AgreeingCountsAreExact(moments, q, k);
      SeenCounts(moments, q, k);
      EndsWithin(seen, q.limit, k);
    }
  }

  /** Once the table stands still the loop ends, at the latest after as many
      further fetches as there are rows in range. */
  lemma EndsWhenTableStands(moments: nat -> Moment, q: Request, m: nat)
    requires m >= 1 && forall k: nat | k >= m :: moments(k) == moments(m)
    ensures exists k :: 1 <= k <= m + |InRange(moments(m).counted, q.hive, q.from, q.to)| &&
                        EndsAfter(SeenBy(moments, q), q.limit, k)
  {
    EndsOnceStill(SeenBy(moments, q), q.limit, m);
  }

  /** A table that stands still. */
  function Still(t: Table): nat -> Moment {
    (k: nat) => Moment(t, t)
  }

  lemma StillSeen(t: Table, q: Request, k: nat)
    ensures Unchanging(SeenBy(Still(t), q), ReportRows(t, q), k)
  {
    ReportRowsSorted(t, q);
    assert forall j: nat :: SeenBy(Still(t), q)(j) == SeenIn(Moment(t, t), q);
  }

  /** On an unchanging table the report is the range itself, element for
      element, after exactly as many fetches as the rows need. */
  lemma ReportOfUnchangingTable(t: Table, q: Request, fetches: nat)
    requires q.limit >= 1 && EndsAfter(SeenBy(Still(t), q), q.limit, fetches)
    ensures Collected(SeenBy(Still(t), q), q.limit, fetches) == ReportRows(t, q)
    ensures fetches == PagesNeeded(|InRange(t, q.hive, q.from, q.to)|, q.limit)
    ensures Sorted(Less(HarvestedDesc), ReportRows(t, q))
    ensures forall h :: h in ReportRows(t, q) <==>
              h.id in t && t[h.id] == h && h.hiveId == q.hive && DayNumber(q.from) <= h.harvestedAt <= DayNumber(q.to)
  {
    StillSeen(t, q, fetches);
    UnchangingView(SeenBy(Still(t), q), ReportRows(t, q), q.limit, fetches);
    ReportRowsSorted(t, q);
    assert forall h :: h in ReportRows(t, q) <==> h in Elements(ReportRows(t, q));
  }

  lemma ViewOfMoment(moments: nat -> Moment, q: Request, k: nat)
    ensures Sorted(Less(HarvestedDesc), SeenBy(moments, q)(k).view)
    ensures StrictTotal(Less(HarvestedDesc), Elements(SeenBy(moments, q)(k).view))
    ensures Elements(SeenBy(moments, q)(k).view) == InRange(moments(k).listed, q.hive, q.from, q.to)
  {
    ReportRowsSorted(moments(k).listed, q);
  }

  lemma ViewsAreSorted(moments: nat -> Moment, q: Request)
    ensures SortedViews(Less(HarvestedDesc), SeenBy(moments, q))
  {
    forall k: nat
      ensures Sorted(Less(HarvestedDesc), SeenBy(moments, q)(k).view)
      ensures StrictTotal(Less(HarvestedDesc), Elements(SeenBy(moments, q)(k).view))
    {
      ViewOfMoment(moments, q, k);
    }
  }

  /** Rows are only created: `b` has all of `a` unchanged. */
  ghost predicate OnlyCreates(a: Table, b: Table) {
    forall id | id in a :: id in b && b[id] == a[id]
  }

  /** Between the count and the page of the k-th fetch no row of the range was added. */
  ghost predicate CountIsFresh(moments: nat -> Moment, q: Request, k: nat)
  {
    var m := moments(k);
    InRange(m.listed, q.hive, q.from, q.to) <= InRange(m.counted, q.hive, q.from, q.to)
  }

  lemma FreshCountCovers(moments: nat -> Moment, q: Request, k: nat)
    requires CountIsFresh(moments, q, k)
    ensures CountCovers(SeenBy(moments, q), k)
  {
    var m := moments(k);
    ReportRowsSorted(m.listed, q);
    SubsetSize(InRange(m.listed, q.hive, q.from, q.to), InRange(m.counted, q.hive, q.from, q.to));
  }

  lemma CreatesGrowRange(a: Table, b: Table, q: Request)
    requires OnlyCreates(a, b)
    ensures InRange(a, q.hive, q.from, q.to) <= InRange(b, q.hive, q.from, q.to)
  {
  }

  lemma CreatesGrowView(moments: nat -> Moment, q: Request, k: nat)
    requires OnlyCreates(moments(k).listed, moments(k + 1).listed)
    ensures Elements(SeenBy(moments, q)(k).view) <= Elements(SeenBy(moments, q)(k + 1).view)
  {
    ViewOfMoment(moments, q, k);
    ViewOfMoment(moments, q, k + 1);
    CreatesGrowRange(moments(k).listed, moments(k + 1).listed, q);
  }

  /** Between the first `fetches` fetches rows are only created. */
  ghost predicate OnlyCreatesBetween(moments: nat -> Moment, fetches: nat) {
    forall k: nat | 1 <= k < fetches :: OnlyCreates(moments(k).listed, moments(k + 1).listed)
  }

  lemma CreatesGrowViews(moments: nat -> Moment, q: Request, fetches: nat)
    requires OnlyCreatesBetween(moments, fetches)
    ensures Growing(SeenBy(moments, q), fetches)
  {
    forall k: nat | 1 <= k < fetches
      ensures Elements(SeenBy(moments, q)(k).view) <= Elements(SeenBy(moments, q)(k + 1).view)
    {
      CreatesGrowView(moments, q, k);
    }
  }

  /** If rows are only created between fetches, and none between the two
      statements of the last fetch, every row that was in the range at the
      first fetch is in the report. */
  lemma CreatesNeverHide(moments: nat -> Moment, q: Request, fetches: nat)
    requires q.limit >= 1 && EndsAfter(SeenBy(moments, q), q.limit, fetches)
    requires OnlyCreatesBetween(moments, fetches) && CountIsFresh(moments, q, fetches)
    ensures forall h | h in InRange(moments(1).listed, q.hive, q.from, q.to) ::
              h in Collected(SeenBy(moments, q), q.limit, fetches)
  {
    ViewsAreSorted(moments, q);
    CreatesGrowViews(moments, q, fetches);
    FreshCountCovers(moments, q, fetches);
    AdditionsNeverHide(Less(HarvestedDesc), SeenBy(moments, q), q.limit, fetches);
    ViewOfMoment(moments, q, 1);
    assert forall h | h in InRange(moments(1).listed, q.hive, q.from, q.to) ::
        h in Elements(SeenBy(moments, q)(1).view);
  }

  /** Everything collected was in the range in some state that a fetch listed. */
  lemma ReportIsSound(moments: nat -> Moment, q: Request, fetches: nat)
    ensures forall h | h in Collected(SeenBy(moments, q), q.limit, fetches) ::
              exists k: nat :: 1 <= k <= fetches && h in InRange(moments(k).listed, q.hive, q.from, q.to)
  {
    var seen := SeenBy(moments, q);
    NothingInvented(seen, q.limit, fetches);
    forall h | h in Collected(seen, q.limit, fetches)
      ensures exists k: nat :: 1 <= k <= fetches && h in InRange(moments(k).listed, q.hive, q.from, q.to)
    {
      assert EverPresent(seen, fetches, h);
      var k: nat :| 1 <= k <= fetches && h in seen(k).view;
      ViewOfMoment(moments, q, k);
      assert h in Elements(seen(k).view);
    }
  }
}
