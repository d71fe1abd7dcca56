/** The migration of harvested_at from a timestamp to a date, and back.  A
    timestamp counts microseconds from the start of 1970 in UTC. */
module Migration {
  import opened Domain
  import opened Calendar
  import opened Ordering
  import opened Query

  const DAY := 86_400_000_000

  /** `(harvested_at AT TIME ZONE 'UTC')::date`: the UTC day, rounding down
      also before the epoch. */
  function Up(timestamp: int): int { timestamp / DAY }

  /** `harvested_at::timestamp AT TIME ZONE 'UTC'`: midnight of the day. */
  function Down(day: int): int { day * DAY }

  /** The instant of a time of day in UTC, in microseconds since the start of 1970. */
  function Instant(d: CalendarDate, hour: int, minute: int, second: int, micro: int): int {
    (((DayNumber(d) * 24 + hour) * 60 + minute) * 60 + second) * 1_000_000 + micro
  }

  predicate ClockTime(hour: int, minute: int, second: int, micro: int) {
    0 <= hour < 24 && 0 <= minute < 60 && 0 <= second < 60 && 0 <= micro < 1_000_000
  }

  /** Every instant of a calendar date migrates to that date, and the date back
      to its midnight, before the epoch as after it. */
  lemma MigratesByTheClock(d: CalendarDate, hour: int, minute: int, second: int, micro: int)
    requires ClockTime(hour, minute, second, micro)
    ensures Up(Instant(d, hour, minute, second, micro)) == DayNumber(d)
    ensures Down(DayNumber(d)) == Instant(d, 0, 0, 0, 0)
  {
    var sinceMidnight := ((hour * 60 + minute) * 60 + second) * 1_000_000 + micro;
    assert Instant(d, hour, minute, second, micro) == DayNumber(d) * DAY + sinceMidnight;
    assert 0 <= sinceMidnight < DAY;
  }

  /** Up undoes Down; Down after Up truncates to the start of the same day. */
  lemma RoundTrips(day: int, timestamp: int)
    ensures Up(Down(day)) == day
    ensures Down(Up(timestamp)) <= timestamp < Down(Up(timestamp) + 1)
    ensures Up(Down(Up(timestamp))) == Up(timestamp)
  {
    DayBounds(Down(day), day);
    DayBounds(Down(Up(timestamp)), Up(timestamp));
  }

  /** A timestamp falls on a day exactly when it lies between its midnights. */
  lemma DayBounds(timestamp: int, day: int)
    ensures Down(day) <= timestamp <==> day <= Up(timestamp)
    ensures timestamp < Down(day) <==> Up(timestamp) < day
  {
    var r := timestamp % DAY;
    assert timestamp == DAY * Up(timestamp) + r && 0 <= r < DAY;
  }

  /** The filter as it was before: bounds at midnight on a timestamp. */
  ghost predicate WantedBefore(hives: set<Uuid>, f: Filter, h: Harvest) {
    && Wanted(hives, f.(dateFrom := None, dateTo := None), h)
    && (f.dateFrom.Some? ==> Down(DayNumber(f.dateFrom.value)) <= h.harvestedAt)
    && (f.dateTo.Some? ==> h.harvestedAt < Down(DayNumber(f.dateTo.value)))
  }

  ghost function SelectedBefore(t: Table, hives: set<Uuid>, f: Filter): set<Harvest> {
    set id | id in t && WantedBefore(hives, f, t[id]) :: t[id]
  }

  function MigrateRow(h: Harvest): Harvest { h.(harvestedAt := Up(h.harvestedAt)) }

  function MigrateTable(t: Table): Table { map id | id in t :: MigrateRow(t[id]) }

  /** No row comes or goes, no other column changes, and the day is the one whose
      midnights the time lies between. */
  lemma OnlyTheDayChanges(t: Table, id: Uuid, day: int)
    ensures id in MigrateTable(t) <==> id in t
    ensures id in t ==>
              && MigrateTable(t)[id].(harvestedAt := t[id].harvestedAt) == t[id]
              && (MigrateTable(t)[id].harvestedAt == day <==> Down(day) <= t[id].harvestedAt < Down(day + 1))
  {
    if id in t {
      DayBounds(t[id].harvestedAt, day);
      DayBounds(t[id].harvestedAt, day + 1);
    }
  }

  function MigrateRows(s: set<Harvest>): set<Harvest> { set h | h in s :: MigrateRow(h) }

  function MigrateListing(xs: seq<Harvest>): (ys: seq<Harvest>)
    ensures |ys| == |xs| && forall i | 0 <= i < |xs| :: ys[i] == MigrateRow(xs[i])
  {
    seq(|xs|, i requires 0 <= i < |xs| => MigrateRow(xs[i]))
  }

  lemma WantedAcrossMigration(hives: set<Uuid>, f: Filter, h: Harvest)
    ensures Wanted(hives, f, MigrateRow(h)) <==> WantedBefore(hives, f, h)
  {
    if f.dateFrom.Some? { DayBounds(h.harvestedAt, DayNumber(f.dateFrom.value)); }
    if f.dateTo.Some? { DayBounds(h.harvestedAt, DayNumber(f.dateTo.value)); }
  }

  /** The migration changes no answer of any filter: the same rows are selected. */
  lemma SelectionAcrossMigration(t: Table, hives: set<Uuid>, f: Filter)
    ensures Selected(MigrateTable(t), hives, f) == MigrateRows(SelectedBefore(t, hives, f))
  {
    forall id | id in t ensures Wanted(hives, f, MigrateRow(t[id])) <==> WantedBefore(hives, f, t[id]) {
      WantedAcrossMigration(hives, f, t[id]);
    }
    var after, before := Selected(MigrateTable(t), hives, f), SelectedBefore(t, hives, f);
    forall h | h in after ensures h in MigrateRows(before) {
      assert t[h.id] in before;
    }
    forall h | h in MigrateRows(before) ensures h in after {
      var b :| b in before && h == MigrateRow(b);
      assert MigrateTable(t)[b.id] == h;
    }
  }

  lemma MigratedDistinct(s: set<Harvest>)
    requires DistinctIds(s)
    ensures DistinctIds(MigrateRows(s))
  {
  }

  lemma MigratedElements(xs: seq<Harvest>)
    ensures Elements(MigrateListing(xs)) == MigrateRows(Elements(xs))
  {
    forall i | 0 <= i < |xs| ensures MigrateRow(xs[i]) in Elements(MigrateListing(xs)) {
      assert MigrateListing(xs)[i] in MigrateListing(xs);
    }
    forall h | h in Elements(MigrateListing(xs)) ensures h in MigrateRows(Elements(xs)) {
      var i :| 0 <= i < |xs| && MigrateListing(xs)[i] == h;
      assert xs[i] in Elements(xs);
    }
  }

  /** Within every day, larger ids have no earlier times. */
  ghost predicate TimesFollowIds(s: set<Harvest>) {
    forall a, b | a in s && b in s ::
      Up(a.harvestedAt) == Up(b.harvestedAt) && a.id < b.id ==> a.harvestedAt <= b.harvestedAt
  }

  lemma DaysAreMonotone(a: int, b: int)
    requires a <= b
    ensures Up(a) <= Up(b)
  {
    DayBounds(a, Up(a));
    DayBounds(b, Up(a));
  }

  /** What the migration does change is the order within a day: the default
      listing keeps its order if and only if, within every day, later times
      belong to larger ids. */
  lemma DefaultOrderAcrossMigration(s: set<Harvest>)
    requires DistinctIds(s)
    ensures DistinctIds(MigrateRows(s))
    ensures Listing(HarvestedDesc, MigrateRows(s)) == MigrateListing(Listing(HarvestedDesc, s))
            <==> TimesFollowIds(s)
  {
    MigratedDistinct(s);
    if TimesFollowIds(s) {
      OrderSurvives(s);
    } else {
      OrderBreaks(s);
    }
  }

  lemma OrderSurvives(s: set<Harvest>)
    requires DistinctIds(s) && TimesFollowIds(s) && DistinctIds(MigrateRows(s))
    ensures Listing(HarvestedDesc, MigrateRows(s)) == MigrateListing(Listing(HarvestedDesc, s))
  {
    ListingLists(HarvestedDesc, s);
    var xs := Listing(HarvestedDesc, s);
    var ys := MigrateListing(xs);
    forall i, j | 0 <= i < j < |ys| ensures Less(HarvestedDesc)(ys[i], ys[j]) {
      assert xs[i] in Elements(xs) && xs[j] in Elements(xs);
      assert Less(HarvestedDesc)(xs[i], xs[j]);
      OrderKept(s, xs[i], xs[j]);
    }
    MigratedElements(xs);
    ListingUnique(HarvestedDesc, MigrateRows(s), ys);
  }

  lemma OrderBreaks(s: set<Harvest>)
    requires DistinctIds(s) && !TimesFollowIds(s) && DistinctIds(MigrateRows(s))
    ensures Listing(HarvestedDesc, MigrateRows(s)) != MigrateListing(Listing(HarvestedDesc, s))
  {
    var a, b :| a in s && b in s && Up(a.harvestedAt) == Up(b.harvestedAt) &&
                a.id < b.id && a.harvestedAt > b.harvestedAt;
    var i, j := ListingPositions(HarvestedDesc, s, a, b);
    ListingLists(HarvestedDesc, MigrateRows(s));
    assert !Before(HarvestedDesc, MigrateRow(a), MigrateRow(b));
  }

  lemma OrderKept(s: set<Harvest>, a: Harvest, b: Harvest)
    requires DistinctIds(s) && TimesFollowIds(s) && a in s && b in s && Before(HarvestedDesc, a, b)
    ensures Before(HarvestedDesc, MigrateRow(a), MigrateRow(b))
  {
    DaysAreMonotone(b.harvestedAt, a.harvestedAt);
  }

  /** Two harvests of one day listed by time before are listed by id after. */
  lemma DefaultOrderCanChange(a: Harvest, b: Harvest)
    requires a.id < b.id && a.harvestedAt == 7200_000_000 && b.harvestedAt == 3600_000_000
    ensures Before(HarvestedDesc, a, b) && Before(HarvestedDesc, MigrateRow(b), MigrateRow(a))
  {
    DayBounds(a.harvestedAt, 0);
    DayBounds(a.harvestedAt, 1);
    DayBounds(b.harvestedAt, 0);
    DayBounds(b.harvestedAt, 1);
  }

  /** Creation order is untouched. */
  lemma CreatedOrderAcrossMigration(s: set<Harvest>, o: Order)
    requires DistinctIds(s) && o != HarvestedDesc
    ensures DistinctIds(MigrateRows(s))
    ensures Listing(o, MigrateRows(s)) == MigrateListing(Listing(o, s))
  {
    MigratedDistinct(s);
    ListingLists(o, s);
    var xs := Listing(o, s);
    var ys := MigrateListing(xs);
    forall i, j | 0 <= i < j < |ys| ensures Less(o)(ys[i], ys[j]) {
      assert Less(o)(xs[i], xs[j]);
    }
    MigratedElements(xs);
    ListingUnique(o, MigrateRows(s), ys);
  }
}
