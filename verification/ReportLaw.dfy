/** Exactly which records a report over a changing table holds, and how often,
    and the three ways a change shows. */
module ReportLaw {
  import opened Domain
  import opened Calendar
  import opened Ordering
  import opened Query
  import opened Paging
  import opened Report

  /** The rows of `s` that the report lists before `h`. */
  ghost function Preceding(s: set<Harvest>, h: Harvest): set<Harvest> {
    set g | g in s && Before(HarvestedDesc, g, h)
  }

  /** How many rows of the range the report lists before `h`. */
  ghost function PositionIn(t: Table, q: Request, h: Harvest): nat {
    |Preceding(InRange(t, q.hive, q.from, q.to), h)|
  }

  /** When the k-th fetch lists rows, `h` is one of the range, at a position
      that fetch asks for. */
  ghost predicate Catches(moments: nat -> Moment, q: Request, k: nat, h: Harvest) {
    var t := moments(k).listed;
    h in InRange(t, q.hive, q.from, q.to) && (k - 1) * q.limit <= PositionIn(t, q, h) < k * q.limit
  }

  ghost function CatchesOf(moments: nat -> Moment, q: Request, h: Harvest): nat -> bool {
    (k: nat) => Catches(moments, q, k, h)
  }

  lemma CatchesIsWindow(moments: nat -> Moment, q: Request, k: nat, h: Harvest)
    ensures Catches(moments, q, k, h) <==> InWindow(Less(HarvestedDesc), SeenBy(moments, q), q.limit, k, h)
  {
    var t := moments(k).listed;
    assert ViewAt(SeenBy(moments, q), k) == ReportRows(t, q);
    ReportRowsSorted(t, q);
    assert h in ReportRows(t, q) <==> h in Elements(ReportRows(t, q));
    PrecedingIsRank(InRange(t, q.hive, q.from, q.to), h);
  }

  lemma PrecedingIsRank(s: set<Harvest>, h: Harvest)
    ensures |Preceding(s, h)| == Rank(Less(HarvestedDesc), s, h)
  {
    assert Preceding(s, h) == Below(Less(HarvestedDesc), s, h);
  }

  /** The exact law of the report over a changing table: a record is reported
      once for every fetch that catches it.  It is missed if and only if no
      fetch did, and repeated if and only if several did. */
  lemma ReportedTimes(moments: nat -> Moment, q: Request, fetches: nat, h: Harvest)
    ensures var report := Collected(SeenBy(moments, q), q.limit, fetches);
            && multiset(report)[h] == Times(CatchesOf(moments, q, h), fetches)
            && (h in report <==> exists k: nat :: 1 <= k <= fetches && Catches(moments, q, k, h))
  {
    var seen, less := SeenBy(moments, q), Less(HarvestedDesc);
    var hit, window := CatchesOf(moments, q, h), Windows(less, seen, q.limit, h);
    ViewsAreSorted(moments, q);
    CollectedTimes(less, seen, q.limit, fetches, h);
    forall k: nat ensures hit(k) == window(k) == Catches(moments, q, k, h) {
      CatchesIsWindow(moments, q, k, h);
    }
    TimesAgree(hit, window, fetches);
    TimesPositive(hit, fetches);
    assert h in Collected(seen, q.limit, fetches) <==> multiset(Collected(seen, q.limit, fetches))[h] > 0;
  }

  lemma PositionOfRow(t: Table, q: Request, i: nat)
    requires i < |ReportRows(t, q)|
    ensures ReportRows(t, q)[i] in InRange(t, q.hive, q.from, q.to)
    ensures PositionIn(t, q, ReportRows(t, q)[i]) == i
  {
    ReportRowsSorted(t, q);
    RankIsIndex(Less(HarvestedDesc), ReportRows(t, q), i);
    PrecedingIsRank(InRange(t, q.hive, q.from, q.to), ReportRows(t, q)[i]);
    assert ReportRows(t, q)[i] in Elements(ReportRows(t, q));
  }

  // ----- records by id, through edits

  function Occurrences(rows: seq<Harvest>, id: Uuid): nat {
    if rows == [] then 0 else Occurrences(rows[..|rows| - 1], id) + (if rows[|rows| - 1].id == id then 1 else 0)
  }

  /** The fetch catches the record as it is then. */
  ghost predicate CatchesRecord(moments: nat -> Moment, q: Request, k: nat, id: Uuid) {
    var t := moments(k).listed;
    id in t && Catches(moments, q, k, t[id])
  }

  ghost function CatchesOfRecord(moments: nat -> Moment, q: Request, id: Uuid): nat -> bool {
    (k: nat) => CatchesRecord(moments, q, k, id)
  }

  lemma {:induction false} OccurrencesAppend(a: seq<Harvest>, b: seq<Harvest>, id: Uuid)
    ensures Occurrences(a + b, id) == Occurrences(a, id) + Occurrences(b, id)
    decreases |b|
  {
    if b == [] {
      assert a + b == a;
    } else {
      assert (a + b)[..|a + b| - 1] == a + b[..|b| - 1];
      OccurrencesAppend(a, b[..|b| - 1], id);
    }
  }

  lemma {:induction false} OccurrencesOfVersion(rows: seq<Harvest>, h: Harvest)
    requires forall x | x in rows && x.id == h.id :: x == h
    ensures Occurrences(rows, h.id) == multiset(rows)[h]
    decreases |rows|
  {
    if rows == [] {
    } else {
      var front, last := rows[..|rows| - 1], rows[|rows| - 1];
      assert rows == front + [last];
      OccurrencesOfVersion(front, h);
    }
  }

  lemma {:induction false} NoOccurrence(rows: seq<Harvest>, id: Uuid)
    requires forall x | x in rows :: x.id != id
    ensures Occurrences(rows, id) == 0
    decreases |rows|
  {
    if rows == [] {
    } else {
      NoOccurrence(rows[..|rows| - 1], id);
    }
  }

  lemma FetchedRowsAreStored(moments: nat -> Moment, q: Request, k: nat)
    requires k >= 1
    ensures var t := moments(k).listed;
            forall x | x in Fetched(SeenBy(moments, q), q.limit, k) :: x.id in t && t[x.id] == x
  {
    var t := moments(k).listed;
    var seen := SeenBy(moments, q);
    assert ViewAt(seen, k) == ReportRows(t, q);
    ReportRowsSorted(t, q);
    forall x: Harvest | x in Fetched(seen, q.limit, k) ensures x.id in t && t[x.id] == x {
      assert x in Elements(ReportRows(t, q));
    }
  }

  lemma RecordFetchedTimes(moments: nat -> Moment, q: Request, k: nat, id: Uuid)
    requires k >= 1
    ensures Occurrences(Fetched(SeenBy(moments, q), q.limit, k), id) ==
              if CatchesRecord(moments, q, k, id) then 1 else 0
  {
    var t := moments(k).listed;
    var seen := SeenBy(moments, q);
    FetchedRowsAreStored(moments, q, k);
    if id in t {
      OccurrencesOfVersion(Fetched(seen, q.limit, k), t[id]);
      ViewsAreSorted(moments, q);
      FetchedTimes(Less(HarvestedDesc), seen, q.limit, k, t[id]);
      CatchesIsWindow(moments, q, k, t[id]);
    } else {
      NoOccurrence(Fetched(seen, q.limit, k), id);
    }
  }

  lemma {:induction false} OccurrencesAddUp(seen: nat -> Seen<Harvest>, limit: nat, k: nat, id: Uuid, hit: nat -> bool)
    requires forall j: nat | 1 <= j <= k :: Occurrences(Fetched(seen, limit, j), id) == if hit(j) then 1 else 0
    ensures Occurrences(Collected(seen, limit, k), id) == Times(hit, k)
    decreases k
  {
    if k == 0 {
    } else {
      OccurrencesAddUp(seen, limit, k - 1, id, hit);
      OccurrencesAppend(Collected(seen, limit, k - 1), Fetched(seen, limit, k), id);
    }
  }

  /** The same law for a record through all its edits: it is listed once for
      every fetch that catches it as it is then. */
  lemma RecordReportedTimes(moments: nat -> Moment, q: Request, fetches: nat, id: Uuid)
    ensures Occurrences(Collected(SeenBy(moments, q), q.limit, fetches), id) ==
              Times(CatchesOfRecord(moments, q, id), fetches)
  {
    var seen, hit := SeenBy(moments, q), CatchesOfRecord(moments, q, id);
    forall k: nat | 1 <= k <= fetches
      ensures Occurrences(Fetched(seen, q.limit, k), id) == if hit(k) then 1 else 0
    {
      RecordFetchedTimes(moments, q, k, id);
    }
    OccurrencesAddUp(seen, q.limit, fetches, id, hit);
  }

  // ----- the three ways a changing table shows

  /** `c` is a new row of the range that the report would list before `x`. */
  ghost predicate NewInFront(t: Table, q: Request, c: Harvest, x: Harvest) {
    && c.id !in t && c.hiveId == q.hive && DayNumber(q.from) <= c.harvestedAt <= DayNumber(q.to)
    && Before(HarvestedDesc, c, x)
  }

  lemma RangeAfterCreate(t: Table, q: Request, c: Harvest, x: Harvest)
    requires NewInFront(t, q, c, x)
    ensures InRange(t[c.id := c], q.hive, q.from, q.to) == InRange(t, q.hive, q.from, q.to) + {c}
    ensures c !in InRange(t, q.hive, q.from, q.to)
  {
    var t' := t[c.id := c];
    forall h ensures h in InRange(t', q.hive, q.from, q.to) <==> h in InRange(t, q.hive, q.from, q.to) + {c} {
      if h in InRange(t, q.hive, q.from, q.to) {
        assert t'[h.id] == h;
      }
      assert t'[c.id] == c;
    }
  }

  lemma RangeAfterDelete(t: Table, q: Request, d: Harvest)
    requires d in InRange(t, q.hive, q.from, q.to)
    ensures InRange(t - {d.id}, q.hive, q.from, q.to) == InRange(t, q.hive, q.from, q.to) - {d}
  {
    forall h ensures h in InRange(t - {d.id}, q.hive, q.from, q.to) <==> h in InRange(t, q.hive, q.from, q.to) - {d} {
      if h in InRange(t, q.hive, q.from, q.to) - {d} {
        assert h.id in t && h.id != d.id;
      }
    }
  }

  lemma PositionAfterCreate(t: Table, q: Request, c: Harvest, x: Harvest)
    requires NewInFront(t, q, c, x) && x in InRange(t, q.hive, q.from, q.to)
    ensures x in InRange(t[c.id := c], q.hive, q.from, q.to)
    ensures PositionIn(t[c.id := c], q, x) == PositionIn(t, q, x) + 1
  {
    RangeAfterCreate(t, q, c, x);
    var s := InRange(t, q.hive, q.from, q.to);
    assert Preceding(s + {c}, x) == Preceding(s, x) + {c};
  }

  lemma PositionAfterDelete(t: Table, q: Request, d: Harvest, y: Harvest)
    requires d in InRange(t, q.hive, q.from, q.to) && y in InRange(t, q.hive, q.from, q.to)
    requires Before(HarvestedDesc, d, y)
    ensures y in InRange(t - {d.id}, q.hive, q.from, q.to)
    ensures PositionIn(t - {d.id}, q, y) == PositionIn(t, q, y) - 1
  {
    RangeAfterDelete(t, q, d);
    var s := InRange(t, q.hive, q.from, q.to);
    assert Preceding(s - {d}, y) == Preceding(s, y) - {d};
    assert d in Preceding(s, y);
  }

  /** There is a second page, and `c` is new in front of the last row of the first. */
  ghost predicate PushesOver(t: Table, q: Request, c: Harvest) {
    q.limit >= 1 && |ReportRows(t, q)| > q.limit && NewInFront(t, q, c, ReportRows(t, q)[q.limit - 1])
  }

  /** There is a second page, and `d` is in front of its first row. */
  ghost predicate PullsUp(t: Table, q: Request, d: Harvest) {
    && |ReportRows(t, q)| > q.limit && d in InRange(t, q.hive, q.from, q.to)
    && Before(HarvestedDesc, d, ReportRows(t, q)[q.limit])
  }

  /** There is exactly one page, and `c` is new in front of its last row. */
  ghost predicate OverfillsPage(t: Table, q: Request, c: Harvest) {
    q.limit >= 1 && |ReportRows(t, q)| == q.limit && NewInFront(t, q, c, ReportRows(t, q)[q.limit - 1])
  }

  /** Whatever the table and the page size: when there is a second page, a row
      created between the first two fetches in front of the last row of that
      page makes the report list this row at least twice, whatever comes after. */
  lemma CreateRepeats(t: Table, q: Request, c: Harvest, moments: nat -> Moment, fetches: nat)
    requires PushesOver(t, q, c) && moments(1) == Moment(t, t) && moments(2).listed == t[c.id := c]
    requires EndsAfter(SeenBy(moments, q), q.limit, fetches)
    ensures multiset(Collected(SeenBy(moments, q), q.limit, fetches))[ReportRows(t, q)[q.limit - 1]] >= 2
  {
    var x := ReportRows(t, q)[q.limit - 1];
    PositionOfRow(t, q, q.limit - 1);
    PositionAfterCreate(t, q, c, x);
    assert Catches(moments, q, 1, x) && Catches(moments, q, 2, x);
    var hit := CatchesOf(moments, q, x);
    assert hit(1) && hit(2);
    assert Times(hit, 2) == Times(hit, 1) + 1 == Times(hit, 0) + 2;
    FirstPageIsNotLast(moments, q, fetches);
    TimesGrows(hit, 2, fetches);
    ReportedTimes(moments, q, fetches, x);
  }

  lemma FirstPageIsNotLast(moments: nat -> Moment, q: Request, fetches: nat)
    requires q.limit >= 1 && EndsAfter(SeenBy(moments, q), q.limit, fetches)
    requires moments(1).counted == moments(1).listed && |ReportRows(moments(1).listed, q)| > q.limit
    ensures fetches >= 2
  {
    var seen := SeenBy(moments, q);
    ReportRowsSorted(moments(1).listed, q);
    FetchedLength(seen, q.limit, 1);
    assert Collected(seen, q.limit, 1) == Collected(seen, q.limit, 0) + Fetched(seen, q.limit, 1);
    assert !StopsAt(seen, q.limit, 1);
  }

  /** The deletion pulls the first row of the second page up onto the first. */
  lemma PulledUp(t: Table, q: Request, d: Harvest)
    requires PullsUp(t, q, d)
    ensures var y := ReportRows(t, q)[q.limit];
            && y in InRange(t, q.hive, q.from, q.to) && PositionIn(t, q, y) == q.limit
            && y in InRange(t - {d.id}, q.hive, q.from, q.to) && PositionIn(t - {d.id}, q, y) == q.limit - 1
  {
    PositionOfRow(t, q, q.limit);
    PositionAfterDelete(t, q, d, ReportRows(t, q)[q.limit]);
  }

  /** Whatever the table and the page size: a row deleted after the first fetch
      from in front of the first row of the second page makes the report miss
      that row, though it is in the range at every fetch. */
  lemma DeleteHides(t: Table, q: Request, d: Harvest, moments: nat -> Moment, fetches: nat)
    requires PullsUp(t, q, d) && moments(1).listed == t
    requires forall k: nat | k >= 2 :: moments(k).listed == t - {d.id}
    ensures ReportRows(t, q)[q.limit] !in Collected(SeenBy(moments, q), q.limit, fetches)
    ensures forall k: nat | k >= 1 :: ReportRows(t, q)[q.limit] in InRange(moments(k).listed, q.hive, q.from, q.to)
  {
    var y := ReportRows(t, q)[q.limit];
    forall k: nat | k >= 1
      ensures y in InRange(moments(k).listed, q.hive, q.from, q.to) && !Catches(moments, q, k, y)
    {
      assert moments(k).listed == if k == 1 then t else t - {d.id};
      SlipsThrough(t, q, d, moments, k);
    }
    ReportedTimes(moments, q, fetches, y);
  }

  lemma SlipsThrough(t: Table, q: Request, d: Harvest, moments: nat -> Moment, k: nat)
    requires PullsUp(t, q, d) && k >= 1 && moments(1).listed == t
    requires moments(k).listed == if k == 1 then t else t - {d.id}
    ensures ReportRows(t, q)[q.limit] in InRange(moments(k).listed, q.hive, q.from, q.to)
    ensures !Catches(moments, q, k, ReportRows(t, q)[q.limit])
  {
    PulledUp(t, q, d);
    BetweenPages(moments, q, ReportRows(t, q)[q.limit], k);
  }

  /** A row behind the first page at the first fetch, and on it ever after, is
      not caught. */
  lemma BetweenPages(moments: nat -> Moment, q: Request, y: Harvest, k: nat)
    requires PositionIn(moments(1).listed, q, y) >= q.limit
    requires k >= 2 ==> PositionIn(moments(k).listed, q, y) < q.limit
    ensures !Catches(moments, q, k, y)
  {
    if k >= 2 {
      ProductGrows(1, k - 1, q.limit);
    }
  }

  lemma OneFullPageEnds(moments: nat -> Moment, q: Request)
    requires q.limit >= 1 && |ReportRows(moments(1).counted, q)| == q.limit
    requires |InRange(moments(1).listed, q.hive, q.from, q.to)| >= q.limit
    ensures EndsAfter(SeenBy(moments, q), q.limit, 1)
  {
    var seen := SeenBy(moments, q);
    ReportRowsSorted(moments(1).counted, q);
    ReportRowsSorted(moments(1).listed, q);
    FetchedLength(seen, q.limit, 1);
    assert Collected(seen, q.limit, 1) == Collected(seen, q.limit, 0) + Fetched(seen, q.limit, 1);
  }

  /** The created row pushes the last row of the only page off it. */
  lemma PushedOff(t: Table, q: Request, c: Harvest)
    requires OverfillsPage(t, q, c)
    ensures var z := ReportRows(t, q)[q.limit - 1];
            z in InRange(t[c.id := c], q.hive, q.from, q.to) && PositionIn(t[c.id := c], q, z) == q.limit
  {
    PositionOfRow(t, q, q.limit - 1);
    PositionAfterCreate(t, q, c, ReportRows(t, q)[q.limit - 1]);
  }

  lemma PageStaysFull(t: Table, q: Request, c: Harvest)
    requires OverfillsPage(t, q, c)
    ensures |InRange(t[c.id := c], q.hive, q.from, q.to)| >= q.limit
  {
    var before, now := InRange(t, q.hive, q.from, q.to), InRange(t[c.id := c], q.hive, q.from, q.to);
    assert |before| == q.limit by { ReportRowsSorted(t, q); }
    assert before <= now by { RangeAfterCreate(t, q, c, ReportRows(t, q)[q.limit - 1]); }
    SubsetSize(before, now);
  }

  /** Whatever the table and the page size: when the count finds exactly one
      page of rows, a row created before the rows are read, in front of the last
      of them, ends the loop at once and makes the report miss that last row. */
  lemma CreateBehindCountHides(t: Table, q: Request, c: Harvest, moments: nat -> Moment)
    requires OverfillsPage(t, q, c) && moments(1) == Moment(t, t[c.id := c])
    ensures EndsAfter(SeenBy(moments, q), q.limit, 1)
    ensures ReportRows(t, q)[q.limit - 1] !in Collected(SeenBy(moments, q), q.limit, 1)
    ensures ReportRows(t, q)[q.limit - 1] in InRange(t[c.id := c], q.hive, q.from, q.to)
  {
    PushedOff(t, q, c);
    PageStaysFull(t, q, c);
    ReportedTimes(moments, q, 1, ReportRows(t, q)[q.limit - 1]);
    OneFullPageEnds(moments, q);
  }

  /** `n` harvests of one day, with ids 1 to n. */
  function DayRow(q: Request, id: nat): Harvest {
    Harvest(id, q.hive, None, HONEY, 1.0, KILOGRAM, DayNumber(q.from), 0, 0)
  }

  function DayTable(q: Request, n: nat): Table {
    map id: nat | 1 <= id <= n :: DayRow(q, id)
  }

  lemma DayTableRows(q: Request, n: nat)
    requires DayNumber(q.from) <= DayNumber(q.to)
    ensures forall h: Harvest ::
              h in InRange(DayTable(q, n), q.hive, q.from, q.to) <==> 1 <= h.id <= n && h == DayRow(q, h.id)
  {
    var t := DayTable(q, n);
    forall h: Harvest | 1 <= h.id <= n && h == DayRow(q, h.id) ensures h in InRange(t, q.hive, q.from, q.to) {
      assert t[h.id] == h;
    }
  }

  ghost function DayRows(q: Request, n: nat): seq<Harvest> {
    seq(n, i requires 0 <= i < n => DayRow(q, n - i))
  }

  lemma DayRowsAreSorted(q: Request, n: nat)
    ensures Sorted(Less(HarvestedDesc), DayRows(q, n))
  {
    var rows := DayRows(q, n);
    forall i, j | 0 <= i < j < n ensures Less(HarvestedDesc)(rows[i], rows[j]) {
      assert rows[i] == DayRow(q, n - i) && rows[j] == DayRow(q, n - j);
    }
  }

  lemma DayTableListing(q: Request, n: nat)
    requires DayNumber(q.from) <= DayNumber(q.to)
    ensures ReportRows(DayTable(q, n), q) == DayRows(q, n)
  {
    var rows := DayRows(q, n);
    var s := InRange(DayTable(q, n), q.hive, q.from, q.to);
    DayTableRows(q, n);
    DayRowsAreSorted(q, n);
    forall h ensures h in rows <==> h in s {
      if h in s {
        assert rows[n - h.id] == h;
      }
    }
    InRangeDistinct(DayTable(q, n), q.hive, q.from, q.to);
    ListingUnique(HarvestedDesc, s, rows);
  }

  lemma LongTablePushesOver(q: Request)
    requires q.limit >= 1 && DayNumber(q.from) <= DayNumber(q.to)
    ensures PushesOver(DayTable(q, q.limit + 1), q, DayRow(q, q.limit + 2))
  {
    DayTableListing(q, q.limit + 1);
    assert ReportRows(DayTable(q, q.limit + 1), q)[q.limit - 1] == DayRow(q, 2);
  }

  lemma LongTablePullsUp(q: Request)
    requires q.limit >= 1 && DayNumber(q.from) <= DayNumber(q.to)
    ensures PullsUp(DayTable(q, q.limit + 1), q, DayRow(q, q.limit + 1))
  {
    DayTableListing(q, q.limit + 1);
    var d := DayRow(q, q.limit + 1);
    assert d in InRange(DayTable(q, q.limit + 1), q.hive, q.from, q.to) by { DayTableRows(q, q.limit + 1); }
    assert ReportRows(DayTable(q, q.limit + 1), q)[q.limit] == DayRow(q, 1);
    assert Before(HarvestedDesc, d, DayRow(q, 1));
  }

  lemma ShortTable(q: Request)
    requires q.limit >= 1 && DayNumber(q.from) <= DayNumber(q.to)
    ensures OverfillsPage(DayTable(q, q.limit), q, DayRow(q, q.limit + 2))
  {
    DayTableListing(q, q.limit);
    assert ReportRows(DayTable(q, q.limit), q)[q.limit - 1] == DayRow(q, 1);
  }

  /** All three happen for every page size and every range of days. */
  lemma ChangesCanShow(q: Request)
    requires q.limit >= 1 && DayNumber(q.from) <= DayNumber(q.to)
    ensures exists t, c :: PushesOver(t, q, c)
    ensures exists t, d :: PullsUp(t, q, d)
    ensures exists t, c :: OverfillsPage(t, q, c)
  {
    LongTablePushesOver(q);
    LongTablePullsUp(q);
    ShortTable(q);
  }

  // ----- a loop without end

  /** One more page of rows of one day at every fetch. */
  function MoreEachFetch(q: Request): nat -> Moment {
    (k: nat) => Moment(DayTable(q, k * q.limit + 1), DayTable(q, k * q.limit + 1))
  }

  lemma DayTableSize(q: Request, n: nat)
    requires DayNumber(q.from) <= DayNumber(q.to)
    ensures |InRange(DayTable(q, n), q.hive, q.from, q.to)| == n
  {
    DayTableListing(q, n);
    ReportRowsSorted(DayTable(q, n), q);
  }

  lemma NeverCaughtUp(q: Request, k: nat)
    requires DayNumber(q.from) <= DayNumber(q.to)
    ensures !CatchesUp(MoreEachFetch(q), q, k)
  {
    DayTableSize(q, k * q.limit + 1);
    assert MoreEachFetch(q)(k).listed == DayTable(q, k * q.limit + 1);
  }

  /** The loop need not end, for any page size and any range of days: there are
      tables that start with a page and a row and to which records are only
      added, a page of them between any two fetches, so that it never catches up. */
  lemma EndlessCreates(q: Request)
    requires q.limit >= 1 && DayNumber(q.from) <= DayNumber(q.to)
    ensures forall k: nat :: OnlyCreatesBetween(MoreEachFetch(q), k) && CountsAgree(MoreEachFetch(q), q, k)
    ensures forall k: nat :: !EndsAfter(SeenBy(MoreEachFetch(q), q), q.limit, k)
  {
    forall k: nat | k >= 1 ensures OnlyCreates(MoreEachFetch(q)(k).listed, MoreEachFetch(q)(k + 1).listed) {
      assert (k + 1) * q.limit == k * q.limit + q.limit;
    }
    forall k: nat ensures !CatchesUp(MoreEachFetch(q), q, k) {
      NeverCaughtUp(q, k);
    }
    EndsIffCaughtUp(MoreEachFetch(q), q);
  }
}
