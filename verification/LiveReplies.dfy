/** What a backfill run among calls of the service makes of the replies it gets,
    on the fields of the replies, the rows and the records. */
module LiveReplies {
  import opened Domain
  import opened Ordering
  import opened Repository
  import opened Backfill
  import opened BackfillRuns
  import opened BackfillReplies
  import opened Service
  import opened ServiceRuns
  import opened LiveBackfill
  import opened LiveRun
  import opened LiveRunLaws
  import opened Paging

  // ----- one visit

  /** A visit sets the owner its reply names on the row as it is by then, if it
      is ownerless and the write is not lost; every other row stays.  A write that
      fails ends the run. */
  lemma VisitOnFields(v: Live, g: Setting, calls: seq<Call>)
    requires ValidCalls(calls) && v.stage.Visiting? && v.stage.rows != []
    ensures var row, now, end := v.stage.rows[0], After(v.harvests, calls), Advance(v, g, calls).harvests;
            var reply := g.w.lookup(row.id, row.hiveId);
            && end.Keys == now.Keys
            && forall id | id in now ::
                 var h := now[id];
                 end[id] ==
                   if id == row.id && h.userId == None && Names(reply) && g.w.setResult(id) != LostBefore
                   then Harvest(h.id, h.hiveId, reply.owner, h.product, h.amount, h.unit, h.harvestedAt, h.createdAt,
                                g.w.clock(id))
                   else h
    ensures var row, next := v.stage.rows[0], Advance(v, g, calls);
            if Names(g.w.lookup(row.id, row.hiveId)) && g.w.setResult(row.id) != Written
            then next.stage == Ended(SetPanic(g.w.setResult(row.id) == LostAfter))
            else !next.stage.Ended?
  {
  }

  // ----- owners

  /** Whatever calls fall into the run: a row ownerless at the start has no owner
      but the one that the reply about it names, and when the run finishes it has
      that one. */
  lemma LiveOwners(t: Table, f: map<Uuid, Failure>, g: Setting, n: nat, id: Uuid, user: Uuid)
    requires ValidSetting(g) && id in t && id != 0 && t[id].userId == None
    requires forall i: nat | i < n :: NotMade(g.between(i), id)
    requires id in LiveAfter(StartOf(t, f), g, n).harvests
    ensures var end := LiveAfter(StartOf(t, f), g, n);
            var named := g.w.lookup(id, t[id].hiveId) == Responded(200, Some(user)) && user != 0;
            && (end.harvests[id].userId == Some(user) ==> named)
            && (end.stage == Ended(Finished) && named ==> end.harvests[id].userId == Some(user))
  {
    FinishedRunSettles(t, f, g, n, id);
    FinalOwnerOnFields(t[id], g.w, user);
  }

  // ----- counters

  /** The k-th step is a visit of a row that `pick` picks. */
  ghost function StepsThat(v: Live, g: Setting, pick: LegacyHarvest -> bool): nat -> bool
    requires ValidSetting(g)
  {
    (k: nat) => k >= 1 && var before := LiveAfter(v, g, k - 1);
                          before.stage.Visiting? && before.stage.rows != [] && pick(before.stage.rows[0])
  }

  function CountersAfter(c: Counters, w: World, row: LegacyHarvest): Counters {
    if Panics(w, row) then OneMoreScanned(c) else VisitCounters(c, w.lookup(row.id, row.hiveId))
  }

  /** This counter counts the visits that `pick` picks. */
  ghost predicate CountsThose(w: World, counter: Counters -> nat, pick: LegacyHarvest -> bool) {
    forall c: Counters, row: LegacyHarvest ::
      counter(CountersAfter(c, w, row)) == counter(c) + (if pick(row) then 1 else 0)
  }

  ghost function CounterAt(v: Live, g: Setting, counter: Counters -> nat): nat -> nat
    requires ValidSetting(g)
  {
    (k: nat) => counter(LiveAfter(v, g, k).counters)
  }

  lemma StepCounts(v: Live, g: Setting, counter: Counters -> nat, pick: LegacyHarvest -> bool, k: nat)
    requires ValidSetting(g) && CountsThose(g.w, counter, pick) && k >= 1
    ensures CounterAt(v, g, counter)(k) ==
              CounterAt(v, g, counter)(k - 1) + (if StepsThat(v, g, pick)(k) then 1 else 0)
  {
    var before := LiveAfter(v, g, k - 1);
    if before.stage.Visiting? && before.stage.rows != [] {
      assert LiveAfter(v, g, k).counters == CountersAfter(before.counters, g.w, before.stage.rows[0]);
    } else {
      assert LiveAfter(v, g, k).counters == before.counters;
    }
  }

  lemma CountsUp(v: Live, g: Setting, counter: Counters -> nat, pick: LegacyHarvest -> bool, n: nat)
    requires ValidSetting(g) && CountsThose(g.w, counter, pick)
    ensures counter(LiveAfter(v, g, n).counters) == counter(v.counters) + Times(StepsThat(v, g, pick), n)
  {
    forall k: nat | 1 <= k <= n
      ensures CounterAt(v, g, counter)(k) ==
                CounterAt(v, g, counter)(k - 1) + (if StepsThat(v, g, pick)(k) then 1 else 0)
    {
      StepCounts(v, g, counter, pick, k);
    }
    TimesAddUp(CounterAt(v, g, counter), StepsThat(v, g, pick), n);
  }

  function ResolvedRow(w: World): LegacyHarvest -> bool {
    (row: LegacyHarvest) => EndsResolved(w, row.id, row.hiveId)
  }

  function UnresolvedRow(w: World): LegacyHarvest -> bool {
    (row: LegacyHarvest) => EndsUnresolved(w, row.id, row.hiveId)
  }

  function FailedRow(w: World): LegacyHarvest -> bool {
    (row: LegacyHarvest) => EndsFailed(w, row.id, row.hiveId)
  }

  function AnyRow(): LegacyHarvest -> bool { (row: LegacyHarvest) => true }

  function ScannedOf(): Counters -> nat { (c: Counters) => c.scanned }

  function ResolvedOf(): Counters -> nat { (c: Counters) => c.resolved }

  function UnresolvedOf(): Counters -> nat { (c: Counters) => c.unresolved }

  function FailedOf(): Counters -> nat { (c: Counters) => c.failed }

  lemma EachCountsItsKind(w: World)
    ensures CountsThose(w, ScannedOf(), AnyRow()) && CountsThose(w, ResolvedOf(), ResolvedRow(w))
    ensures CountsThose(w, UnresolvedOf(), UnresolvedRow(w)) && CountsThose(w, FailedOf(), FailedRow(w))
  {
  }

  /** Whatever calls fall in, at every step each counter counts the visits whose
      reply is of its kind. */
  lemma LiveCountersByReply(t: Table, f: map<Uuid, Failure>, g: Setting, n: nat)
    requires ValidSetting(g)
    ensures var start := StartOf(t, f);
            LiveAfter(start, g, n).counters ==
              Counters(Times(StepsThat(start, g, AnyRow()), n), Times(StepsThat(start, g, ResolvedRow(g.w)), n),
                       Times(StepsThat(start, g, UnresolvedRow(g.w)), n), Times(StepsThat(start, g, FailedRow(g.w)), n))
  {
    EachCountsItsKind(g.w);
    CountsUp(StartOf(t, f), g, ScannedOf(), AnyRow(), n);
    CountsUp(StartOf(t, f), g, ResolvedOf(), ResolvedRow(g.w), n);
    CountsUp(StartOf(t, f), g, UnresolvedOf(), UnresolvedRow(g.w), n);
    CountsUp(StartOf(t, f), g, FailedOf(), FailedRow(g.w), n);
  }

  // ----- records

  /** The step is a visit of `id` whose reply names no owner, and recording works. */
  ghost predicate AnswersNoOwner(v: Live, w: World, id: Uuid) {
    && v.stage.Visiting? && v.stage.rows != [] && v.stage.rows[0].id == id
    && !Names(w.lookup(id, v.stage.rows[0].hiveId)) && w.upsertWorks(id)
  }

  /** The record that step leaves. */
  ghost predicate RecordedAt(f: map<Uuid, Failure>, f': map<Uuid, Failure>, id: Uuid, v: Live, w: World) {
    && v.stage.Visiting? && v.stage.rows != []
    && Recorded(f, f', id, v.stage.rows[0].hiveId, w.lookup(id, v.stage.rows[0].hiveId))
  }

  lemma StepRecord(v: Live, g: Setting, calls: seq<Call>, id: Uuid)
    requires ValidCalls(calls)
    ensures if AnswersNoOwner(v, g.w, id) then RecordedAt(v.failures, Advance(v, g, calls).failures, id, v, g.w)
            else NotRecorded(v.failures, Advance(v, g, calls).failures, id)
  {
    if v.stage.Visiting? && v.stage.rows != [] {
      RecordOfVisit(v.failures, g.w, v.stage.rows[0].id, v.stage.rows[0].hiveId, id);
    }
  }

  lemma AnsweredOnce(v: Live, g: Setting, m: nat, n: nat, id: Uuid)
    requires ValidSetting(g) && Ascends(v) && AnswersNoOwner(LiveAfter(v, g, m), g.w, id)
    requires AnswersNoOwner(LiveAfter(v, g, n), g.w, id)
    ensures m == n
  {
    if m < n {
      VisitsAscend(v, g, m, n);
    } else if n < m {
      VisitsAscend(v, g, n, m);
    }
  }

  lemma NotRecordedTwice(f: map<Uuid, Failure>, before: map<Uuid, Failure>, after: map<Uuid, Failure>, id: Uuid,
                         v: Live, w: World)
    requires NotRecorded(before, after, id)
    ensures RecordedAt(f, before, id, v, w) ==> RecordedAt(f, after, id, v, w)
    ensures NotRecorded(f, before, id) ==> NotRecorded(f, after, id)
  {
  }

  lemma FirstRecord(f: map<Uuid, Failure>, before: map<Uuid, Failure>, after: map<Uuid, Failure>, id: Uuid,
                    v: Live, w: World)
    requires NotRecorded(f, before, id) && RecordedAt(before, after, id, v, w)
    ensures RecordedAt(f, after, id, v, w)
  {
  }

  /** The states of a run, step by step. */
  ghost function StatesOf(v: Live, g: Setting): nat -> Live
    requires ValidSetting(g)
  {
    (k: nat) => LiveAfter(v, g, k)
  }

  /** After `n` steps the record is that of the one visit, if any, that was
      answered with no owner, and else it is as it was. */
  ghost predicate RecordsRight(f: map<Uuid, Failure>, states: nat -> Live, w: World, n: nat, id: Uuid) {
    && (forall m: nat | m < n && AnswersNoOwner(states(m), w, id) ::
          RecordedAt(f, states(n).failures, id, states(m), w))
    && ((forall m: nat | m < n :: !AnswersNoOwner(states(m), w, id)) ==> NotRecorded(f, states(n).failures, id))
  }

  ghost predicate RecordsStep(states: nat -> Live, w: World, n: nat, id: Uuid) {
    if AnswersNoOwner(states(n), w, id) then RecordedAt(states(n).failures, states(n + 1).failures, id, states(n), w)
    else NotRecorded(states(n).failures, states(n + 1).failures, id)
  }

  ghost predicate NotBefore(states: nat -> Live, w: World, n: nat, id: Uuid) {
    AnswersNoOwner(states(n), w, id) ==> forall m: nat | m < n :: !AnswersNoOwner(states(m), w, id)
  }

  lemma RecordsStayRight(f: map<Uuid, Failure>, states: nat -> Live, w: World, n: nat, id: Uuid)
    requires RecordsRight(f, states, w, n, id) && RecordsStep(states, w, n, id) && NotBefore(states, w, n, id)
    ensures RecordsRight(f, states, w, n + 1, id)
  {
    var before, after := states(n).failures, states(n + 1).failures;
    if AnswersNoOwner(states(n), w, id) {
      FirstRecord(f, before, after, id, states(n), w);
    } else {
      forall m: nat | m < n + 1 && AnswersNoOwner(states(m), w, id) ensures RecordedAt(f, after, id, states(m), w) {
        NotRecordedTwice(f, before, after, id, states(m), w);
      }
      NotRecordedTwice(f, before, after, id, states(n), w);
    }
  }

  lemma {:induction false} RecordsRightAt(f: map<Uuid, Failure>, states: nat -> Live, w: World, n: nat, id: Uuid)
    requires states(0).failures == f
    requires forall k: nat | k < n :: RecordsStep(states, w, k, id) && NotBefore(states, w, k, id)
    ensures RecordsRight(f, states, w, n, id)
    decreases n
  {
    if n == 0 {
    } else {
      RecordsRightAt(f, states, w, n - 1, id);
      RecordsStayRight(f, states, w, n - 1, id);
    }
  }

  lemma StatesStep(v: Live, g: Setting, n: nat, id: Uuid)
    requires ValidSetting(g) && Ascends(v)
    ensures RecordsStep(StatesOf(v, g), g.w, n, id) && NotBefore(StatesOf(v, g), g.w, n, id)
  {
    var states := StatesOf(v, g);
    StepRecord(LiveAfter(v, g, n), g, g.between(n), id);
    forall m: nat | m < n && AnswersNoOwner(states(n), g.w, id) ensures !AnswersNoOwner(states(m), g.w, id) {
      if AnswersNoOwner(states(m), g.w, id) {
        AnsweredOnce(v, g, m, n, id);
      }
    }
  }

  /** Whatever calls fall in: if some visit of a row was answered with no owner
      and recorded, the record says so, with the reason and one more attempt, at
      every later step; if none was, the record is as it was. */
  lemma LiveRecords(t: Table, f: map<Uuid, Failure>, g: Setting, n: nat, id: Uuid)
    requires ValidSetting(g)
    ensures RecordsRight(f, StatesOf(StartOf(t, f), g), g.w, n, id)
  {
    forall k: nat | k < n
      ensures RecordsStep(StatesOf(StartOf(t, f), g), g.w, k, id) && NotBefore(StatesOf(StartOf(t, f), g), g.w, k, id)
    {
      StatesStep(StartOf(t, f), g, k, id);
    }
    RecordsRightAt(f, StatesOf(StartOf(t, f), g), g.w, n, id);
  }
}
