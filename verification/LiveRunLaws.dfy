/** What a live backfill run counts and records, and when it ends. */
module LiveRunLaws {
  import opened Domain
  import opened Ordering
  import opened Repository
  import opened Backfill
  import opened BackfillRuns
  import opened Service
  import opened ServiceRuns
  import opened LiveBackfill
  import opened LiveRun
  import opened Paging

  // ----- counters

  /** The k-th step is a visit. */
  ghost function VisitSteps(v: Live, g: Setting): nat -> bool
    requires ValidSetting(g)
  {
    (k: nat) => k >= 1 && LiveAfter(v, g, k - 1).stage.Visiting?
  }

  function Uncounted(stage: Stage): nat {
    if stage.Ended? && stage.outcome.SetPanic? then 1 else 0
  }

  ghost predicate AddsUp(v: Live) {
    v.counters.scanned == v.counters.resolved + v.counters.unresolved + v.counters.failed + Uncounted(v.stage)
  }

  lemma StepAddsUp(v: Live, g: Setting, calls: seq<Call>)
    requires ValidCalls(calls) && AddsUp(v)
    ensures AddsUp(Advance(v, g, calls))
  {
  }

  lemma StepScans(v: Live, g: Setting, calls: seq<Call>)
    requires ValidCalls(calls) && Ascends(v)
    ensures Advance(v, g, calls).counters.scanned == v.counters.scanned + (if v.stage.Visiting? then 1 else 0)
  {
  }

  lemma {:induction false} AddsUpAt(v: Live, g: Setting, n: nat)
    requires ValidSetting(g) && AddsUp(v)
    ensures AddsUp(LiveAfter(v, g, n))
    decreases n
  {
    if n == 0 {
    } else {
      AddsUpAt(v, g, n - 1);
      StepAddsUp(LiveAfter(v, g, n - 1), g, g.between(n - 1));
    }
  }

  ghost function Scanned(v: Live, g: Setting): nat -> nat
    requires ValidSetting(g)
  {
    (k: nat) => LiveAfter(v, g, k).counters.scanned
  }

  lemma ScansAt(v: Live, g: Setting, k: nat)
    requires ValidSetting(g) && Ascends(v) && k >= 1
    ensures Scanned(v, g)(k) == Scanned(v, g)(k - 1) + (if VisitSteps(v, g)(k) then 1 else 0)
  {
    AscendsAt(v, g, k - 1);
    StepScans(LiveAfter(v, g, k - 1), g, g.between(k - 1));
  }

  lemma ScannedAreVisits(v: Live, g: Setting, n: nat)
    requires ValidSetting(g) && Ascends(v)
    ensures Scanned(v, g)(n) == Scanned(v, g)(0) + Times(VisitSteps(v, g), n)
  {
    forall k: nat | 1 <= k <= n
      ensures Scanned(v, g)(k) == Scanned(v, g)(k - 1) + (if VisitSteps(v, g)(k) then 1 else 0)
    {
      ScansAt(v, g, k);
    }
    TimesAddUp(Scanned(v, g), VisitSteps(v, g), n);
  }

  /** Whatever calls fall in, the counters add up at every step: every visit is
      scanned and counted once, but for one that panicked. */
  lemma LiveCountersAddUp(t: Table, f: map<Uuid, Failure>, g: Setting, n: nat)
    requires ValidSetting(g)
    ensures var end := LiveAfter(StartOf(t, f), g, n);
            AddsUp(end) && end.counters.scanned == Times(VisitSteps(StartOf(t, f), g), n)
  {
    AddsUpAt(StartOf(t, f), g, n);
    ScannedAreVisits(StartOf(t, f), g, n);
  }

  // ----- failure records

  /** The step is a visit of `id` that does not resolve it, and is recorded. */
  ghost predicate Records(v: Live, w: World, id: Uuid) {
    && v.stage.Visiting? && v.stage.rows != [] && v.stage.rows[0].id == id
    && Resolves(w.lookup(id, v.stage.rows[0].hiveId)).None? && w.upsertWorks(id)
  }

  lemma StepRecords(v: Live, g: Setting, calls: seq<Call>, id: Uuid)
    requires ValidCalls(calls) && Ascends(v)
    ensures var f, f' := v.failures, Advance(v, g, calls).failures;
            && AttemptsOf(f', id) == AttemptsOf(f, id) + (if Records(v, g.w, id) then 1 else 0)
            && (id in f' <==> id in f || Records(v, g.w, id))
  {
    if v.stage.Visiting? {
      AttemptsInVisit(v.failures, g.w, v.stage.rows[0].id, v.stage.rows[0].hiveId, id);
    }
  }

  lemma NotRecordedAgain(v: Live, g: Setting, m: nat, n: nat, id: Uuid)
    requires ValidSetting(g) && Ascends(v) && m < n && Records(LiveAfter(v, g, m), g.w, id)
    ensures !Records(LiveAfter(v, g, n), g.w, id)
  {
    if LiveAfter(v, g, n).stage.Visiting? {
      VisitsAscend(v, g, m, n);
    }
  }

  /** One of the first `n` steps records `id`. */
  ghost predicate HasRecorded(v: Live, g: Setting, n: nat, id: Uuid)
    requires ValidSetting(g)
  {
    exists m: nat :: m < n && Records(LiveAfter(v, g, m), g.w, id)
  }

  lemma RecordsAtMostOnce(v: Live, g: Setting, n: nat, id: Uuid)
    requires ValidSetting(g) && Ascends(v) && HasRecorded(v, g, n, id)
    ensures !Records(LiveAfter(v, g, n), g.w, id)
  {
    var m: nat :| m < n && Records(LiveAfter(v, g, m), g.w, id);
    NotRecordedAgain(v, g, m, n, id);
  }

  lemma HasRecordedGrows(v: Live, g: Setting, n: nat, id: Uuid)
    requires ValidSetting(g)
    ensures HasRecorded(v, g, n + 1, id) <==> HasRecorded(v, g, n, id) || Records(LiveAfter(v, g, n), g.w, id)
  {
    if Records(LiveAfter(v, g, n), g.w, id) {
      assert HasRecorded(v, g, n + 1, id);
    } else if m: nat :| m < n + 1 && Records(LiveAfter(v, g, m), g.w, id) {
      assert m < n;
    }
    if m: nat :| m < n && Records(LiveAfter(v, g, m), g.w, id) {
      assert m < n + 1;
    }
  }

  /** What the failure table has for `id` when a run has `recorded` it, or not. */
  ghost predicate Tracked(f: map<Uuid, Failure>, f': map<Uuid, Failure>, id: Uuid, recorded: bool) {
    && AttemptsOf(f', id) == AttemptsOf(f, id) + (if recorded then 1 else 0)
    && (id in f' <==> id in f || recorded)
  }

  lemma TrackedStep(f: map<Uuid, Failure>, v: Live, g: Setting, n: nat, id: Uuid)
    requires ValidSetting(g) && Ascends(v)
    requires Tracked(f, LiveAfter(v, g, n).failures, id, HasRecorded(v, g, n, id))
    ensures Tracked(f, LiveAfter(v, g, n + 1).failures, id, HasRecorded(v, g, n + 1, id))
  {
    HasRecordedGrows(v, g, n, id);
    if HasRecorded(v, g, n, id) {
      RecordsAtMostOnce(v, g, n, id);
    }
    AscendsAt(v, g, n);
    StepRecords(LiveAfter(v, g, n), g, g.between(n), id);
  }

  /** Whatever calls fall in, a row's attempts grow by one exactly when some
      visit of the run did not resolve it and was recorded, however many steps
      there are, and it has a record exactly when it had one or there was such
      a visit. */
  lemma {:induction false} LiveAttempts(t: Table, f: map<Uuid, Failure>, g: Setting, n: nat, id: Uuid)
    requires ValidSetting(g)
    ensures Tracked(f, LiveAfter(StartOf(t, f), g, n).failures, id, HasRecorded(StartOf(t, f), g, n, id))
    decreases n
  {
    if n == 0 {
    } else {
      LiveAttempts(t, f, g, n - 1, id);
      TrackedStep(f, StartOf(t, f), g, n - 1, id);
    }
  }

  // ----- rows left ownerless

  /** What every step keeps of a starting row when upserts work: as long as it is
      there without an owner it is still ahead, or it has a record. */
  ghost predicate AheadOrRecorded(id: Uuid, v: Live) {
    id in v.harvests && v.harvests[id].userId.None? ==> Ahead(v, id) || id in v.failures
  }

  lemma CallsGiveNoLegacy(t: Table, calls: seq<Call>, w: World, id: Uuid)
    requires ValidCalls(calls) && NotMade(calls, id)
    ensures id in After(t, calls) && After(t, calls)[id].userId.None? ==> id in t && t[id].userId.None?
  {
    CallsKeepRow(t, calls, w, id);
  }

  lemma ListingReaches(v: Live, g: Setting, id: Uuid)
    requires v.stage.Listing? && g.batch >= 1 && AheadOrRecorded(id, v)
    ensures AheadOrRecorded(id, ListStep(v, g))
  {
    if id in v.harvests && v.harvests[id].userId.None? && id !in v.failures {
      assert id in Ownerless(v.harvests, v.after);
      PageReaches(v.harvests, v.after, g.batch, id);
    }
  }

  lemma VisitReaches(v: Live, g: Setting, id: Uuid)
    requires v.stage.Visiting? && Ascends(v) && AheadOrRecorded(id, v) && g.w.upsertWorks(id)
    ensures AheadOrRecorded(id, VisitStep(v, g, v.stage.rows[0], v.stage.rows[1..]))
  {
    var row := v.stage.rows[0];
    AttemptsInVisit(v.failures, g.w, row.id, row.hiveId, id);
    var next := VisitStep(v, g, row, v.stage.rows[1..]);
    if id in next.harvests && next.harvests[id].userId.None? && id !in next.failures && row.id != id {
      StillAhead(v, g, id);
    }
  }

  lemma StepReaches(v: Live, g: Setting, calls: seq<Call>, id: Uuid)
    requires ValidCalls(calls) && NotMade(calls, id) && g.batch >= 1 && g.w.upsertWorks(id)
    requires Ascends(v) && AheadOrRecorded(id, v)
    ensures AheadOrRecorded(id, Advance(v, g, calls))
  {
    if !v.stage.Ended? {
      var now := v.(harvests := After(v.harvests, calls));
      CallsGiveNoLegacy(v.harvests, calls, g.w, id);
      if v.stage.Listing? {
        ListingReaches(now, g, id);
      } else {
        VisitReaches(now, g, id);
      }
    }
  }

  lemma {:induction false} RunReaches(v: Live, g: Setting, n: nat, id: Uuid)
    requires ValidSetting(g) && Ascends(v) && AheadOrRecorded(id, v) && g.w.upsertWorks(id)
    requires forall i: nat | i < n :: NotMade(g.between(i), id)
    ensures AheadOrRecorded(id, LiveAfter(v, g, n))
    decreases n
  {
    if n == 0 {
    } else {
      RunReaches(v, g, n - 1, id);
      AscendsAt(v, g, n - 1);
      StepReaches(LiveAfter(v, g, n - 1), g, g.between(n - 1), id);
    }
  }

  /** When a run finishes, whatever calls fell in, every row above the nil id
      that is then still there without an owner has a failure record, if
      recording it works. */
  lemma FinishedRunRecords(t: Table, f: map<Uuid, Failure>, g: Setting, n: nat, id: Uuid)
    requires ValidSetting(g) && id > NIL && g.w.upsertWorks(id)
    requires forall i: nat | i < n :: NotMade(g.between(i), id)
    requires LiveAfter(StartOf(t, f), g, n).stage == Ended(Finished)
    requires var end := LiveAfter(StartOf(t, f), g, n).harvests; id in end && end[id].userId.None?
    ensures id in LiveAfter(StartOf(t, f), g, n).failures
  {
    RunReaches(StartOf(t, f), g, n, id);
  }

  // ----- the end

  /** Every create carries an owner, as those of the HTTP service do. */
  ghost predicate OwnedCreates(calls: seq<Call>) {
    forall i | 0 <= i < |calls| && calls[i].op.Create? :: calls[i].op.owner.Some?
  }

  lemma CallMakesNoLegacy(t: Table, c: Call, after: Uuid)
    requires ValidCall(c) && (c.op.Create? ==> c.op.owner.Some?)
    ensures Ownerless(Step(t, c).0, after) <= Ownerless(t, after)
  {
  }

  lemma {:induction false} CallsMakeNoLegacy(t: Table, calls: seq<Call>, after: Uuid)
    requires ValidCalls(calls) && OwnedCreates(calls)
    ensures Ownerless(After(t, calls), after) <= Ownerless(t, after)
    decreases |calls|
  {
    if calls == [] {
    } else {
      CallMakesNoLegacy(t, calls[0], after);
      assert forall i | 0 <= i < |calls[1..]| :: calls[1..][i] == calls[i + 1];
      CallsMakeNoLegacy(Step(t, calls[0]).0, calls[1..], after);
    }
  }

  /** The run stays within the rows that were ownerless at its start. */
  ghost predicate WithinStart(t: Table, v: Live) {
    && Ownerless(v.harvests, NIL) <= Ownerless(t, NIL)
    && (v.stage.Visiting? ==> forall j | 0 <= j < |v.stage.rows| :: v.stage.rows[j].id in Ownerless(t, NIL))
  }

  /** What is left to do: a page and a visit for every row above the cursor. */
  ghost function ToDo(t: Table, v: Live): nat {
    match v.stage
    case Ended(_) => 0
    case Listing => 2 * |Ownerless(t, v.after)| + 1
    case Visiting(_) => 2 * |Ownerless(t, v.after)|
  }

  lemma FewerAbove(t: Table, low: Uuid, high: Uuid)
    requires low < high && high in Ownerless(t, NIL)
    ensures |Ownerless(t, high)| < |Ownerless(t, low)|
  {
    assert high in Ownerless(t, low) - Ownerless(t, high);
    SubsetSize(Ownerless(t, high), Ownerless(t, low) - {high});
  }

  lemma ListingProgress(t: Table, v: Live, g: Setting)
    requires v.stage.Listing? && WithinStart(t, v)
    ensures WithinStart(t, ListStep(v, g)) && (ListStep(v, g).stage.Ended? || ToDo(t, ListStep(v, g)) < ToDo(t, v))
  {
    PageAscends(v.harvests, v.after, g.batch);
    assert Ownerless(v.harvests, v.after) <= Ownerless(v.harvests, NIL);
  }

  lemma VisitProgress(t: Table, v: Live, g: Setting)
    requires v.stage.Visiting? && Ascends(v) && WithinStart(t, v)
    ensures var next := VisitStep(v, g, v.stage.rows[0], v.stage.rows[1..]);
            WithinStart(t, next) && (next.stage.Ended? || ToDo(t, next) < ToDo(t, v))
  {
    var next := VisitStep(v, g, v.stage.rows[0], v.stage.rows[1..]);
    FewerAbove(t, v.after, v.stage.rows[0].id);
    assert Ownerless(next.harvests, NIL) <= Ownerless(v.harvests, NIL);
    assert forall j | 0 <= j < |v.stage.rows[1..]| :: v.stage.rows[1..][j] == v.stage.rows[j + 1];
  }

  lemma StepProgress(t: Table, v: Live, g: Setting, calls: seq<Call>)
    requires ValidCalls(calls) && OwnedCreates(calls) && Ascends(v) && WithinStart(t, v)
    ensures var next := Advance(v, g, calls);
            WithinStart(t, next) && (next.stage.Ended? || ToDo(t, next) < ToDo(t, v))
  {
    if !v.stage.Ended? {
      var now := v.(harvests := After(v.harvests, calls));
      CallsMakeNoLegacy(v.harvests, calls, NIL);
      if v.stage.Listing? {
        ListingProgress(t, now, g);
      } else {
        VisitProgress(t, now, g);
      }
    }
  }

  /** After `n` steps the run has ended or has at most this much left to do. */
  ghost predicate OnTime(t: Table, v: Live, n: nat) {
    WithinStart(t, v) && Ascends(v) && (v.stage.Ended? || ToDo(t, v) + n <= 2 * |Ownerless(t, NIL)| + 1)
  }

  lemma StaysOnTime(t: Table, v: Live, g: Setting, calls: seq<Call>, n: nat)
    requires ValidCalls(calls) && OwnedCreates(calls) && OnTime(t, v, n)
    ensures OnTime(t, Advance(v, g, calls), n + 1)
  {
    CursorAscends(v, g, calls);
    StepProgress(t, v, g, calls);
  }

  lemma {:induction false} Progress(t: Table, f: map<Uuid, Failure>, g: Setting, n: nat)
    requires ValidSetting(g) && forall i: nat | i < n :: OwnedCreates(g.between(i))
    ensures OnTime(t, LiveAfter(StartOf(t, f), g, n), n)
    decreases n
  {
    if n == 0 {
    } else {
      Progress(t, f, g, n - 1);
      StaysOnTime(t, LiveAfter(StartOf(t, f), g, n - 1), g, g.between(n - 1), n - 1);
    }
  }

  /** When every create carries an owner, a run ends however many calls fall in,
      after at most two steps for every row ownerless at its start, and one more. */
  lemma LiveRunEnds(t: Table, f: map<Uuid, Failure>, g: Setting)
    requires ValidSetting(g) && forall i: nat :: OwnedCreates(g.between(i))
    ensures LiveAfter(StartOf(t, f), g, 2 * |Ownerless(t, NIL)| + 1).stage.Ended?
  {
    var n := 2 * |Ownerless(t, NIL)| + 1;
    var v := LiveAfter(StartOf(t, f), g, n);
    Progress(t, f, g, n);
    if v.stage.Visiting? {
      FewerAbove(t, v.after, v.stage.rows[0].id);
    }
  }
}
