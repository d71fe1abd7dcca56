/** A backfill run while the service stays live: calls of the service fall
    between its pages and between its visits. */
module LiveRun {
  import opened Domain
  import opened Ordering
  import opened Repository
  import opened Backfill
  import opened BackfillRuns
  import opened Service
  import opened ServiceRuns
  import opened Interleaving
  import opened LiveBackfill

  // ----- the run as a sequence of steps

  /** What a run meets: its world, and before its n-th step the calls `between(n)`. */
  datatype Setting = Setting(w: World, batch: nat, between: nat -> seq<Call>)

  ghost predicate ValidSetting(g: Setting) {
    g.batch >= 1 && forall n: nat :: ValidCalls(g.between(n))
  }

  /** About to ask for a page, about to visit the first of these rows, or done. */
  datatype Stage = Listing | Visiting(rows: seq<LegacyHarvest>) | Ended(outcome: Outcome)

  /** The tables, the counters, the cursor, the pages got, and what is next. */
  datatype Live = Live(harvests: Table, failures: map<Uuid, Failure>, counters: Counters,
                       after: Uuid, pages: nat, stage: Stage)

  function StartOf(t: Table, f: map<Uuid, Failure>): Live {
    Live(t, f, Counters(0, 0, 0, 0), NIL, 0, Listing)
  }

  /** The first ownerless rows above the cursor, with their hives. */
  ghost function NextPage(t: Table, after: Uuid, batch: nat): seq<LegacyHarvest> {
    var ids: seq<Uuid> := InIdOrder(Ownerless(t, after));
    InIdOrderLists(Ownerless(t, after));
    assert forall i | 0 <= i < |ids| :: ids[i] in Elements(ids);
    seq(Min(batch, |ids|), i requires 0 <= i < Min(batch, |ids|) => LegacyHarvest(ids[i], t[ids[i]].hiveId))
  }

  ghost function ListStep(v: Live, g: Setting): Live {
    if !g.w.listWorks(v.pages) then v.(stage := Ended(ListPanic))
    else
      var rows := NextPage(v.harvests, v.after, g.batch);
      v.(pages := v.pages + 1, stage := if rows == [] then Ended(Finished) else Visiting(rows))
  }

  /** The owner is known, and writing it fails: there the run panics. */
  predicate Panics(w: World, row: LegacyHarvest) {
    Resolves(w.lookup(row.id, row.hiveId)).Some? && !w.setResult(row.id).Written?
  }

  function ToVisit(rest: seq<LegacyHarvest>): Stage {
    if rest == [] then Listing else Visiting(rest)
  }

  ghost function VisitStep(v: Live, g: Setting, row: LegacyHarvest, rest: seq<LegacyHarvest>): Live {
    Live(EventStep(v.harvests, Visit(g.w, row.id, row.hiveId)),
         VisitFailures(v.failures, g.w, row.id, row.hiveId),
         if Panics(g.w, row) then OneMoreScanned(v.counters)
         else VisitCounters(v.counters, g.w.lookup(row.id, row.hiveId)),
         row.id, v.pages,
         if Panics(g.w, row) then Ended(SetPanic(g.w.setResult(row.id).LostAfter?))
         else ToVisit(rest))
  }

  /** Calls fall in, then the run takes its step; a run that has ended is out of
      the picture. */
  ghost function Advance(v: Live, g: Setting, calls: seq<Call>): Live
    requires ValidCalls(calls)
  {
    var now := if v.stage.Ended? then v else v.(harvests := After(v.harvests, calls));
    match v.stage
    case Ended(_) => now
    case Listing => ListStep(now, g)
    case Visiting(rows) => if rows == [] then now else VisitStep(now, g, rows[0], rows[1..])
  }

  ghost function LiveAfter(v: Live, g: Setting, n: nat): Live
    requires ValidSetting(g)
  {
    if n == 0 then v else Advance(LiveAfter(v, g, n - 1), g, g.between(n - 1))
  }

  // ----- the program

  /** The program is where the specification says. */
  ghost predicate Matches(r: HarvestRepository, c: Counters, after: Uuid, v: Live)
    reads r
  {
    v.harvests == r.harvests && v.failures == r.failures && v.counters == c && v.after == after
  }

  lemma PageIsNext(t: Table, after: Uuid, batch: nat, rows: seq<LegacyHarvest>)
    requires var ids := InIdOrder(Ownerless(t, after));
             && |rows| == Min(batch, |ids|)
             && forall i | 0 <= i < |rows| ::
                  rows[i].id == ids[i] && ids[i] in t && rows[i].hiveId == t[ids[i]].hiveId
    ensures rows == NextPage(t, after, batch)
  {
  }

  /** One visit, after the calls that fall before it. */
  method VisitLive(s: Service, g: Setting, rows: seq<LegacyHarvest>, c0: Counters, calls: seq<Call>, ghost v: Live)
    returns (c: Counters, ok: bool, ghost next: Live)
    requires ValidCalls(calls) && rows != [] && v.stage == Visiting(rows) && Matches(s.repo, c0, v.after, v)
    modifies s.repo
    ensures next == Advance(v, g, calls) && Matches(s.repo, c, rows[0].id, next) && next.pages == v.pages
    ensures ok <==> !Panics(g.w, rows[0])
    ensures next.stage == if !ok then Ended(SetPanic(g.w.setResult(rows[0].id).LostAfter?))
                          else ToVisit(rows[1..])
  {
    ServeAll(s, calls);
    c, ok := VisitRow(s.repo, g.w, rows[0], c0);
    next := Advance(v, g, calls);
  }

  lemma RestOfPage(rows: seq<LegacyHarvest>, j: nat)
    requires j < |rows|
    ensures rows[j..] != [] && rows[j..][0] == rows[j] && rows[j..][1..] == rows[j + 1..]
  {
  }

  /** The rows of a page in turn. */
  method PageLive(s: Service, g: Setting, rows: seq<LegacyHarvest>, c0: Counters, after: Uuid, n: nat,
                  ghost start: Live, ghost v: Live)
    returns (c: Counters, cursor: Uuid, panicked: Option<Outcome>, steps: nat, ghost next: Live)
    requires ValidSetting(g) && rows != [] && v == LiveAfter(start, g, n)
    requires Matches(s.repo, c0, after, v) && v.stage == Visiting(rows)
    modifies s.repo
    ensures next == LiveAfter(start, g, steps) && Matches(s.repo, c, cursor, next) && next.pages == v.pages
    ensures next.stage == if panicked.Some? then Ended(panicked.value) else Listing
  {
    c, cursor, panicked, steps, next := c0, after, None, n, v;
    for j := 0 to |rows|
      invariant panicked.None? && next == LiveAfter(start, g, steps)
      invariant Matches(s.repo, c, cursor, next) && next.pages == v.pages
      invariant next.stage == ToVisit(rows[j..])
    {
      RestOfPage(rows, j);
      var ok;
      c, ok, next := VisitLive(s, g, rows[j..], c, g.between(steps), next);
      cursor, steps := rows[j].id, steps + 1;
      if !ok {
        panicked := Some(SetPanic(g.w.setResult(cursor).LostAfter?));
        return;
      }
    }
  }

  /** The next page, after the calls that fall before it. */
  method ListLive(s: Service, g: Setting, c: Counters, after: Uuid, page: nat, calls: seq<Call>, ghost v: Live)
    returns (rows: Option<seq<LegacyHarvest>>, ghost next: Live)
    requires ValidCalls(calls) && v.stage == Listing && v.pages == page && Matches(s.repo, c, after, v)
    modifies s.repo`harvests
    ensures next == Advance(v, g, calls) && Matches(s.repo, c, after, next)
    ensures match rows
            case None => next.stage == Ended(ListPanic) && next.pages == page
            case Some(rs) =>
              next.stage == (if rs == [] then Ended(Finished) else Visiting(rs)) && next.pages == page + 1
  {
    ServeAll(s, calls);
    next := Advance(v, g, calls);
    if !g.w.listWorks(page) {
      return None, next;
    }
    var page' := s.repo.ListLegacy(after, g.batch);
    PageIsNext(s.repo.harvests, after, g.batch, page');
    rows := Some(page');
  }

  /** The run, watched for some pages, with calls let in before every page and
      every visit: step for step the specification. */
  method BackfillAmong(s: Service, g: Setting, pages: nat)
    returns (ended: Option<Outcome>, c: Counters, after: Uuid, steps: nat)
    requires ValidSetting(g)
    modifies s.repo
    ensures var v := LiveAfter(StartOf(old(s.repo.harvests), old(s.repo.failures)), g, steps);
            && Matches(s.repo, c, after, v)
            && if ended.Some? then v.stage == Ended(ended.value) && v.pages <= pages
               else v.stage == Listing && v.pages == pages
  {
    ghost var start := StartOf(s.repo.harvests, s.repo.failures);
    ghost var v := start;
    ended, c, after, steps := None, Counters(0, 0, 0, 0), NIL, 0;
    for page := 0 to pages
      invariant ended.None? && v == LiveAfter(start, g, steps) && Matches(s.repo, c, after, v)
      invariant v.stage == Listing && v.pages == page
    {
      var rows;
      rows, v := ListLive(s, g, c, after, page, g.between(steps), v);
      steps := steps + 1;
      if rows.None? {
        return Some(ListPanic), c, after, steps;
      }
      if |rows.value| == 0 {
        return Some(Finished), c, after, steps;
      }
      c, after, ended, steps, v := PageLive(s, g, rows.value, c, after, steps, start, v);
      if ended.Some? {
        return;
      }
    }
  }

  // ----- what holds at every step

  /** The rows of a page ascend, above the cursor. */
  ghost predicate Ascends(v: Live) {
    v.stage.Visiting? ==>
      && v.stage.rows != [] && v.stage.rows[0].id > v.after
      && forall i, j | 0 <= i < j < |v.stage.rows| :: v.stage.rows[i].id < v.stage.rows[j].id
  }

  lemma PageAscends(t: Table, after: Uuid, batch: nat)
    ensures forall i | 0 <= i < |NextPage(t, after, batch)| ::
              NextPage(t, after, batch)[i].id > after &&
              NextPage(t, after, batch)[i].id in Ownerless(t, after)
    ensures forall i, j | 0 <= i < j < |NextPage(t, after, batch)| ::
              NextPage(t, after, batch)[i].id < NextPage(t, after, batch)[j].id
  {
    var ids: seq<Uuid> := InIdOrder(Ownerless(t, after));
    InIdOrderLists(Ownerless(t, after));
    var rows := NextPage(t, after, batch);
    forall i | 0 <= i < |rows| ensures rows[i].id in Ownerless(t, after) {
      assert ids[i] in Elements(ids);
    }
    forall i, j | 0 <= i < j < |rows| ensures rows[i].id < rows[j].id {
      assert IdLess()(ids[i], ids[j]);
    }
  }

  /** Every page is listed above the cursor, and the cursor only moves up, to
      the row just visited: no row is visited twice. */
  lemma CursorAscends(v: Live, g: Setting, calls: seq<Call>)
    requires ValidCalls(calls) && Ascends(v)
    ensures Ascends(Advance(v, g, calls)) && Advance(v, g, calls).after >= v.after
    ensures v.stage.Visiting? ==> Advance(v, g, calls).after == v.stage.rows[0].id > v.after
  {
    if v.stage.Listing? {
      PageAscends(After(v.harvests, calls), v.after, g.batch);
    }
  }

  lemma {:induction false} AscendsAt(v: Live, g: Setting, n: nat)
    requires ValidSetting(g) && Ascends(v)
    ensures Ascends(LiveAfter(v, g, n))
    decreases n
  {
    if n == 0 {
    } else {
      AscendsAt(v, g, n - 1);
      CursorAscends(LiveAfter(v, g, n - 1), g, g.between(n - 1));
    }
  }

  ghost function Cursors(v: Live, g: Setting): nat -> Uuid
    requires ValidSetting(g)
  {
    (n: nat) => LiveAfter(v, g, n).after
  }

  lemma CursorStep(v: Live, g: Setting, n: nat)
    requires ValidSetting(g) && Ascends(v)
    ensures Cursors(v, g)(n) <= Cursors(v, g)(n + 1)
  {
    AscendsAt(v, g, n);
    CursorAscends(LiveAfter(v, g, n), g, g.between(n));
  }

  lemma CursorGrows(v: Live, g: Setting, m: nat, n: nat)
    requires ValidSetting(g) && Ascends(v) && m <= n
    ensures LiveAfter(v, g, m).after <= LiveAfter(v, g, n).after
  {
    forall k: nat | m <= k < n ensures Cursors(v, g)(k) <= Cursors(v, g)(k + 1) {
      CursorStep(v, g, k);
    }
    Monotone(Cursors(v, g), m, n);
    assert Cursors(v, g)(m) <= Cursors(v, g)(n);
  }

  /** At two different steps the run visits two different rows, in id order. */
  lemma VisitsAscend(v: Live, g: Setting, m: nat, n: nat)
    requires ValidSetting(g) && Ascends(v) && m < n
    requires LiveAfter(v, g, m).stage.Visiting? && LiveAfter(v, g, n).stage.Visiting?
    ensures LiveAfter(v, g, m).stage.rows != [] && LiveAfter(v, g, n).stage.rows != []
    ensures LiveAfter(v, g, m).stage.rows[0].id < LiveAfter(v, g, n).stage.rows[0].id
  {
    AscendsAt(v, g, m);
    AscendsAt(v, g, n);
    CursorAscends(LiveAfter(v, g, m), g, g.between(m));
    CursorGrows(v, g, m + 1, n);
  }

  /** The run is at a page, and would find this row ownerless and under this hive. */
  ghost predicate Finds(v: Live, g: Setting, calls: seq<Call>, row: LegacyHarvest)
    requires ValidCalls(calls)
  {
    && v.stage.Listing? && g.w.listWorks(v.pages)
    && var t := After(v.harvests, calls);
       row.id in Ownerless(t, v.after) && row.hiveId == t[row.id].hiveId
  }

  lemma RowIsFound(v: Live, g: Setting, calls: seq<Call>, row: LegacyHarvest)
    requires ValidCalls(calls) && Advance(v, g, calls).stage.Visiting? && row in Advance(v, g, calls).stage.rows
    ensures Finds(v, g, calls, row) || (v.stage.Visiting? && row in v.stage.rows)
  {
    if v.stage.Listing? {
      PageAscends(After(v.harvests, calls), v.after, g.batch);
    }
  }

  /** At step `m` the run listed a page and found this row. */
  ghost predicate Selects(v: Live, g: Setting, m: nat, row: LegacyHarvest)
    requires ValidSetting(g)
  {
    Finds(LiveAfter(v, g, m), g, g.between(m), row)
  }

  lemma {:induction false} CameFrom(here: nat -> bool, enters: nat -> bool, n: nat)
    requires !here(0) && here(n)
    requires forall k: nat | k < n && here(k + 1) :: here(k) || enters(k)
    ensures exists m: nat :: m < n && enters(m)
    decreases n
  {
    if n == 0 {
    } else if enters(n - 1) {
    } else {
      assert here(n - 1 + 1);
      CameFrom(here, enters, n - 1);
    }
  }

  /** The row is on the page the run is visiting at step `n`. */
  ghost predicate OnPage(v: Live, g: Setting, n: nat, row: LegacyHarvest)
    requires ValidSetting(g)
  {
    LiveAfter(v, g, n).stage.Visiting? && row in LiveAfter(v, g, n).stage.rows
  }

  ghost function OnPages(v: Live, g: Setting, row: LegacyHarvest): nat -> bool
    requires ValidSetting(g)
  {
    (n: nat) => OnPage(v, g, n, row)
  }

  ghost function Selections(v: Live, g: Setting, row: LegacyHarvest): nat -> bool
    requires ValidSetting(g)
  {
    (n: nat) => Selects(v, g, n, row)
  }

  lemma OnPageFrom(v: Live, g: Setting, n: nat, row: LegacyHarvest)
    requires ValidSetting(g) && OnPages(v, g, row)(n + 1)
    ensures OnPages(v, g, row)(n) || Selections(v, g, row)(n)
  {
    RowIsFound(LiveAfter(v, g, n), g, g.between(n), row);
  }

  lemma FirstSelected(v: Live, g: Setting, n: nat, row: LegacyHarvest) returns (m: nat)
    requires ValidSetting(g) && !OnPages(v, g, row)(0) && OnPages(v, g, row)(n)
    ensures m < n && Selections(v, g, row)(m)
  {
    forall k: nat | k < n && OnPages(v, g, row)(k + 1) ensures OnPages(v, g, row)(k) || Selections(v, g, row)(k) {
      OnPageFrom(v, g, k, row);
    }
    CameFrom(OnPages(v, g, row), Selections(v, g, row), n);
    m :| m < n && Selections(v, g, row)(m);
  }

  /** Only rows that some earlier page selected are visited. */
  lemma VisitedWereSelected(v: Live, g: Setting, n: nat, row: LegacyHarvest)
    requires ValidSetting(g) && v.stage.Listing?
    requires LiveAfter(v, g, n).stage.Visiting? && row in LiveAfter(v, g, n).stage.rows
    ensures exists m: nat :: m < n && Selects(v, g, m, row)
  {
    var m := FirstSelected(v, g, n, row);
    assert Selects(v, g, m, row);
  }

  /** The pages so far came; the run panics on the first that does not, and
      ends otherwise only on an empty page or in a visit. */
  ghost predicate PagesKept(v: Live, w: World) {
    && PagesCame(w, v.pages)
    && (v.stage == Ended(ListPanic) ==> !w.listWorks(v.pages))
    && (v.stage.Visiting? || (v.stage.Ended? && !v.stage.outcome.ListPanic?) ==> v.pages >= 1)
  }

  lemma PagesKeptInStep(v: Live, g: Setting, calls: seq<Call>)
    requires ValidCalls(calls) && PagesKept(v, g.w)
    ensures PagesKept(Advance(v, g, calls), g.w)
  {
  }

  lemma {:induction false} PagesOfRun(t: Table, f: map<Uuid, Failure>, g: Setting, n: nat)
    requires ValidSetting(g)
    ensures PagesKept(LiveAfter(StartOf(t, f), g, n), g.w)
    decreases n
  {
    if n == 0 {
    } else {
      PagesOfRun(t, f, g, n - 1);
      PagesKeptInStep(LiveAfter(StartOf(t, f), g, n - 1), g, g.between(n - 1));
    }
  }

  // ----- what becomes of a row

  /** None of the calls creates a row under this id. */
  ghost predicate NotMade(calls: seq<Call>, id: Uuid) {
    forall i | 0 <= i < |calls| && Inserts(calls[i]) :: calls[i].freshId != id
  }

  lemma {:induction false} CallsKeepRow(t: Table, calls: seq<Call>, w: World, id: Uuid)
    requires ValidCalls(calls) && NotMade(calls, id)
    ensures id in After(t, calls) ==> id in t && StaysDue(t[id], After(t, calls)[id], w)
    decreases |calls|
  {
    if calls == [] {
    } else {
      CallKeepsRow(t, calls[0], id);
      assert forall i | 0 <= i < |calls[1..]| :: calls[1..][i] == calls[i + 1];
      CallsKeepRow(Step(t, calls[0]).0, calls[1..], w, id);
    }
  }

  ghost predicate Unsettled(h: Harvest, t: Table, w: World) {
    h.id in t && t[h.id].userId != FinalOwner(h, w)
  }

  /** The run has not got past the row yet, unless it has failed. */
  ghost predicate Ahead(v: Live, id: Uuid) {
    match v.stage
    case Listing => id > v.after
    case Visiting(rows) => (exists j :: 0 <= j < |rows| && rows[j].id == id) || (rows != [] && id > rows[|rows| - 1].id)
    case Ended(outcome) => !outcome.Finished?
  }

  /** What every step keeps of a row `h` of the starting table: it stays due the
      same owner, the run reads its hive right, and as long as it lacks its
      final owner it is still ahead. */
  ghost predicate RowKept(h: Harvest, v: Live, w: World) {
    && (h.id in v.harvests ==> StaysDue(h, v.harvests[h.id], w))
    && (v.stage.Visiting? ==>
          forall j | 0 <= j < |v.stage.rows| && v.stage.rows[j].id == h.id :: v.stage.rows[j].hiveId == h.hiveId)
    && (Unsettled(h, v.harvests, w) ==> Ahead(v, h.id))
  }

  lemma RowKeptInCalls(h: Harvest, v: Live, w: World, calls: seq<Call>)
    requires RowKept(h, v, w) && ValidCalls(calls) && NotMade(calls, h.id)
    ensures RowKept(h, v.(harvests := After(v.harvests, calls)), w)
  {
    CallsKeepRow(v.harvests, calls, w, h.id);
  }

  /** An ownerless row above the cursor is on the next page, or behind it. */
  lemma PageReaches(t: Table, after: Uuid, batch: nat, id: Uuid)
    requires batch >= 1 && id in Ownerless(t, after)
    ensures var rows := NextPage(t, after, batch);
            rows != [] && ((exists j :: 0 <= j < |rows| && rows[j].id == id) || id > rows[|rows| - 1].id)
  {
    var ids: seq<Uuid> := InIdOrder(Ownerless(t, after));
    InIdOrderLists(Ownerless(t, after));
    assert id in Elements(ids);
    var i :| 0 <= i < |ids| && ids[i] == id;
    var rows := NextPage(t, after, batch);
    if i < |rows| {
      assert rows[i].id == id;
    } else {
      assert IdLess()(ids[|rows| - 1], ids[i]);
    }
  }

  lemma RowKeptInListing(h: Harvest, v: Live, g: Setting)
    requires RowKept(h, v, g.w) && v.stage.Listing? && g.batch >= 1
    ensures RowKept(h, ListStep(v, g), g.w)
  {
    PageAscends(v.harvests, v.after, g.batch);
    if Unsettled(h, v.harvests, g.w) {
      assert h.id in Ownerless(v.harvests, v.after);
      PageReaches(v.harvests, v.after, g.batch, h.id);
    }
  }

  lemma RowKeptInVisit(h: Harvest, v: Live, g: Setting)
    requires RowKept(h, v, g.w) && v.stage.Visiting? && Ascends(v)
    ensures RowKept(h, VisitStep(v, g, v.stage.rows[0], v.stage.rows[1..]), g.w)
  {
    var row, rest := v.stage.rows[0], v.stage.rows[1..];
    var e := Visit(g.w, row.id, row.hiveId);
    var now := EventStep(v.harvests, e);
    EventKeepsRow(v.harvests, e, g.w, h.id, h.hiveId);
    if Unsettled(h, now, g.w) {
      if Unsettled(h, v.harvests, g.w) {
        if row.id == h.id {
          LostVisit(v.harvests, g.w, row);
        } else {
          StillAhead(v, g, h.id);
        }
      } else {
        SettledStays(v.harvests[h.id], now[h.id], g.w);
      }
    }
  }

  /** A visit after which its row is unsettled is one in which the run panics. */
  lemma LostVisit(t: Table, w: World, row: LegacyHarvest)
    requires row.id in t && row.id > NIL && row.hiveId == t[row.id].hiveId
    requires var now := EventStep(t, Visit(w, row.id, row.hiveId));
             row.id in now && now[row.id].userId != FinalOwner(t[row.id], w)
    ensures Panics(w, row)
  {
    if !IsLost(w, row.id, row.hiveId) {
      VisitSettles(t, w, row.id);
    }
  }

  lemma StillAhead(v: Live, g: Setting, id: Uuid)
    requires v.stage.Visiting? && Ascends(v) && Ahead(v, id) && v.stage.rows[0].id != id
    ensures Ahead(VisitStep(v, g, v.stage.rows[0], v.stage.rows[1..]), id)
  {
    var rows := v.stage.rows;
    if exists j :: 0 <= j < |rows| && rows[j].id == id {
      var j :| 0 <= j < |rows| && rows[j].id == id;
      assert rows[1..][j - 1].id == id;
    } else if |rows| > 1 {
      assert rows[1..][|rows[1..]| - 1] == rows[|rows| - 1];
    }
  }

  lemma RowKeptInStep(h: Harvest, v: Live, g: Setting, calls: seq<Call>)
    requires ValidCalls(calls) && NotMade(calls, h.id) && g.batch >= 1
    requires RowKept(h, v, g.w) && Ascends(v)
    ensures RowKept(h, Advance(v, g, calls), g.w) && Ascends(Advance(v, g, calls))
  {
    CursorAscends(v, g, calls);
    if !v.stage.Ended? {
      var now := v.(harvests := After(v.harvests, calls));
      RowKeptInCalls(h, v, g.w, calls);
      if v.stage.Listing? {
        RowKeptInListing(h, now, g);
      } else {
        RowKeptInVisit(h, now, g);
      }
    }
  }

  lemma {:induction false} RowKeptInRun(h: Harvest, v: Live, g: Setting, n: nat)
    requires ValidSetting(g) && Ascends(v) && RowKept(h, v, g.w)
    requires forall i: nat | i < n :: NotMade(g.between(i), h.id)
    ensures RowKept(h, LiveAfter(v, g, n), g.w) && Ascends(LiveAfter(v, g, n))
    decreases n
  {
    if n == 0 {
    } else {
      RowKeptInRun(h, v, g, n - 1);
      RowKeptInStep(h, LiveAfter(v, g, n - 1), g, g.between(n - 1));
    }
  }

  /** Whatever calls fall into the run, a row of the starting table that is
      still there stays due the same owner at every step, and has it when the
      run finishes. */
  lemma FinishedRunSettles(t: Table, f: map<Uuid, Failure>, g: Setting, n: nat, id: Uuid)
    requires ValidSetting(g) && id in t
    requires forall i: nat | i < n :: NotMade(g.between(i), id)
    requires id in LiveAfter(StartOf(t, f), g, n).harvests
    ensures var end := LiveAfter(StartOf(t, f), g, n);
            && StaysDue(t[id], end.harvests[id], g.w)
            && (end.stage == Ended(Finished) ==> end.harvests[id].userId == FinalOwner(t[id], g.w))
  {
    RowKeptInRun(t[id], StartOf(t, f), g, n);
  }

  // ----- no calls in between

  /** Where a run stands that nothing disturbs: it has visited this prefix of
      the agenda, and its page holds the next rows. */
  ghost predicate Undisturbed(t: Table, f: map<Uuid, Failure>, w: World, visited: seq<Uuid>, v: Live) {
    match v.stage
    case Ended(outcome) => RunEnds(t, f, w, visited, outcome, v.harvests, v.failures, v.counters)
    case Listing =>
      Reached(t, f, w, visited, v.harvests, v.failures, v.counters) && v.after == CursorAfter(visited)
    case Visiting(rows) =>
      && Reached(t, f, w, visited, v.harvests, v.failures, v.counters) && v.after == CursorAfter(visited)
      && rows != [] && NextRows(t, rows, |visited|)
  }

  lemma PageRows(t: Table, after: Uuid, batch: nat)
    ensures var ids, rows := InIdOrder(Ownerless(t, after)), NextPage(t, after, batch);
            && |rows| == Min(batch, |ids|)
            && forall i | 0 <= i < |rows| ::
                 rows[i].id == ids[i] && ids[i] in t && rows[i].hiveId == t[ids[i]].hiveId
  {
    PageAscends(t, after, batch);
  }

  lemma UndisturbedListing(t: Table, f: map<Uuid, Failure>, g: Setting, visited: seq<Uuid>, v: Live)
    requires Undisturbed(t, f, g.w, visited, v) && v.stage.Listing? && g.batch >= 1
    ensures Undisturbed(t, f, g.w, visited, ListStep(v, g))
  {
    PageRows(v.harvests, v.after, g.batch);
    BatchIsNext(t, g.w, visited, v.harvests, NextPage(v.harvests, v.after, g.batch), v.after, g.batch);
    if ListStep(v, g).stage.Ended? {
      EndsBetweenRows(t, f, g.w, visited, ListStep(v, g).stage.outcome, v.harvests, v.failures, v.counters);
    }
  }

  lemma UndisturbedPanic(t: Table, f: map<Uuid, Failure>, g: Setting, visited: seq<Uuid>, v: Live, row: LegacyHarvest)
    requires Reached(t, f, g.w, visited, v.harvests, v.failures, v.counters) && Panics(g.w, row)
    requires visited < Agenda(t) && row.id == Agenda(t)[|visited|] && row.id in t && row.hiveId == t[row.id].hiveId
    ensures Undisturbed(t, f, g.w, visited + [row.id], VisitStep(v, g, row, []))
  {
    var applied := g.w.setResult(row.id).LostAfter?;
    NextOnAgenda(t, visited);
    AnswersDoNotChange(t, g.w, visited, row.id);
    PanicEndsRun(t, f, g.w, visited, row.id, applied);
    VisitedOneMore(t, f, g.w, visited, row.id);
    assert VisitStep(v, g, row, []).harvests == PanicTable(t, g.w, visited, row.id, applied);
  }

  lemma UndisturbedVisit(t: Table, f: map<Uuid, Failure>, g: Setting, visited: seq<Uuid>, v: Live, row: LegacyHarvest)
    requires Reached(t, f, g.w, visited, v.harvests, v.failures, v.counters) && !Panics(g.w, row)
    requires visited < Agenda(t) && row.id == Agenda(t)[|visited|] && row.id in t && row.hiveId == t[row.id].hiveId
    ensures var next := VisitStep(v, g, row, []);
            && Reached(t, f, g.w, visited + [row.id], next.harvests, next.failures, next.counters)
            && next.after == CursorAfter(visited + [row.id])
  {
    NextOnAgenda(t, visited);
    AnswersDoNotChange(t, g.w, visited, row.id);
    VisitedOneMore(t, f, g.w, visited, row.id);
  }

  /** The rest of a page, for the run that has the table to itself. */
  lemma UndisturbedPage(t: Table, f: map<Uuid, Failure>, g: Setting, visited: seq<Uuid>, v: Live)
    requires Undisturbed(t, f, g.w, visited, v) && v.stage.Visiting?
    ensures var rows := v.stage.rows;
            Undisturbed(t, f, g.w, visited + [rows[0].id], VisitStep(v, g, rows[0], rows[1..]))
  {
    var rows := v.stage.rows;
    var row, rest := rows[0], rows[1..];
    RowIsNext(t, rows, |visited|, 0, visited);
    if Panics(g.w, row) {
      UndisturbedPanic(t, f, g, visited, v, row);
    } else {
      UndisturbedVisit(t, f, g, visited, v, row);
      RestIsNext(t, rows, |visited|);
    }
  }

  lemma RestIsNext(t: Table, rows: seq<LegacyHarvest>, start: nat)
    requires rows != [] && NextRows(t, rows, start)
    ensures NextRows(t, rows[1..], start + 1)
  {
    assert forall j | 0 <= j < |rows[1..]| :: rows[1..][j] == rows[j + 1];
  }

  lemma UndisturbedStep(t: Table, f: map<Uuid, Failure>, g: Setting, visited: seq<Uuid>, v: Live)
    returns (longer: seq<Uuid>)
    requires Undisturbed(t, f, g.w, visited, v) && g.batch >= 1
    ensures Undisturbed(t, f, g.w, longer, Advance(v, g, []))
  {
    longer := visited;
    assert v.(harvests := After(v.harvests, [])) == v;
    if v.stage.Listing? {
      UndisturbedListing(t, f, g, visited, v);
    } else if v.stage.Visiting? {
      UndisturbedPage(t, f, g, visited, v);
      longer := visited + [v.stage.rows[0].id];
    }
  }

  /** A run that nothing disturbs goes through the states of the run that has
      the table to itself. */
  lemma {:induction false} UndisturbedRun(t: Table, f: map<Uuid, Failure>, g: Setting, n: nat)
    returns (visited: seq<Uuid>)
    requires ValidSetting(g) && forall i: nat | i < n :: g.between(i) == []
    ensures Undisturbed(t, f, g.w, visited, LiveAfter(StartOf(t, f), g, n))
    decreases n
  {
    if n == 0 {
      visited := [];
    } else {
      visited := UndisturbedRun(t, f, g, n - 1);
      visited := UndisturbedStep(t, f, g, visited, LiveAfter(StartOf(t, f), g, n - 1));
    }
  }
}
