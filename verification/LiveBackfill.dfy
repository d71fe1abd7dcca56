/** The backfill while the service stays live: any calls of the service between
    any visits of any runs. */
module LiveBackfill {
  import opened Domain
  import opened Repository
  import opened Backfill
  import opened BackfillRuns
  import opened Service
  import opened ServiceRuns

  /** One visit of a backfill run in its world, with the hive the run has read,
      or one call of the service. */
  datatype Event = Visit(w: World, id: Uuid, hive: Uuid) | Serve(c: Call)

  ghost predicate ValidEvents(events: seq<Event>) {
    forall i | 0 <= i < |events| && events[i].Serve? :: ValidCall(events[i].c)
  }

  /** The owner is known, and writing it fails without effect. */
  predicate IsLost(w: World, id: Uuid, hive: Uuid) {
    Resolves(w.lookup(id, hive)).Some? && w.setResult(id).LostBefore?
  }

  /** A visit acts on the row as it is by then, if it is still there. */
  ghost function EventStep(t: Table, e: Event): Table
    requires e.Serve? ==> ValidCall(e.c)
  {
    match e
    case Visit(w, id, hive) => if IsLost(w, id, hive) then t else VisitRead(t, w, id, hive)
    case Serve(c) => Step(t, c).0
  }

  ghost function AfterEvents(t: Table, events: seq<Event>): Table
    requires ValidEvents(events)
    decreases |events|
  {
    if events == [] then t
    else
      assert forall i | 0 <= i < |events[1..]| :: events[1..][i] == events[i + 1];
      AfterEvents(EventStep(t, events[0]), events[1..])
  }

  lemma TailValid(events: seq<Event>)
    requires events != [] && ValidEvents(events)
    ensures ValidEvents(events[1..])
    ensures forall i | 0 <= i < |events[1..]| :: events[1..][i] == events[i + 1]
  {
    assert forall i | 0 <= i < |events[1..]| :: events[1..][i] == events[i + 1];
  }

  lemma {:induction false} AfterEventsAppend(t: Table, events: seq<Event>, e: Event)
    requires ValidEvents(events) && ValidEvents(events + [e])
    ensures AfterEvents(t, events + [e]) ==
              (assert (events + [e])[|events|] == e; EventStep(AfterEvents(t, events), e))
    decreases |events|
  {
    if events == [] {
    } else {
      TailValid(events);
      TailValid(events + [e]);
      assert (events + [e])[1..] == events[1..] + [e];
      AfterEventsAppend(EventStep(t, events[0]), events[1..], e);
    }
  }

  // ----- runs are visits

  ghost function VisitsOf(t: Table, w: World, ids: seq<Uuid>): seq<Event>
    requires AllIn(ids, t)
  {
    if ids == [] then []
    else VisitsOf(t, w, ids[..|ids| - 1]) + [Visit(w, ids[|ids| - 1], t[ids[|ids| - 1]].hiveId)]
  }

  lemma OneMoreVisit(t: Table, w: World, front: seq<Uuid>, last: Uuid)
    requires AllIn(front, t) && AllIn(front + [last], t) && last in t
    requires ValidEvents(VisitsOf(t, w, front)) && AfterEvents(t, VisitsOf(t, w, front)) == TableAfter(t, w, front)
    ensures ValidEvents(VisitsOf(t, w, front + [last]))
    ensures AfterEvents(t, VisitsOf(t, w, front + [last])) ==
              if IsLost(w, last, t[last].hiveId) then TableAfter(t, w, front)
              else VisitTable(TableAfter(t, w, front), w, last)
  {
    assert (front + [last])[..|front + [last]| - 1] == front;
    AfterEventsAppend(t, VisitsOf(t, w, front), Visit(w, last, t[last].hiveId));
    AnswersDoNotChange(t, w, front, last);
  }

  lemma {:induction false} VisitsAreTableAfter(t: Table, w: World, ids: seq<Uuid>)
    requires AllIn(ids, t) && NoWriteFails(t, w, ids)
    ensures ValidEvents(VisitsOf(t, w, ids)) && AfterEvents(t, VisitsOf(t, w, ids)) == TableAfter(t, w, ids)
    decreases |ids|
  {
    if ids == [] {
    } else {
      var front, last := ids[..|ids| - 1], ids[|ids| - 1];
      assert ids == front + [last];
      VisitsAreTableAfter(t, w, front);
      OneMoreVisit(t, w, front, last);
      assert last in ids;
    }
  }

  /** What a run leaves in the table is what its visits leave, one after another. */
  lemma RunIsItsVisits(t: Table, run: Run)
    requires IsRun(t, run.w, run.visited, run.outcome)
    ensures ValidEvents(VisitsOf(t, run.w, run.visited))
    ensures AfterEvents(t, VisitsOf(t, run.w, run.visited)) == StepTable(t, run)
  {
    if run.outcome.SetPanic? {
      var front, last := run.visited[..|run.visited| - 1], run.visited[|run.visited| - 1];
      assert run.visited == front + [last];
      VisitsAreTableAfter(t, run.w, front);
      OneMoreVisit(t, run.w, front, last);
    } else {
      VisitsAreTableAfter(t, run.w, run.visited);
    }
  }

  // ----- what becomes of a row

  /** No event creates a row under this id. */
  ghost predicate NotRecreated(events: seq<Event>, id: Uuid) {
    forall i | 0 <= i < |events| && events[i].Serve? && Inserts(events[i].c) :: events[i].c.freshId != id
  }

  /** Every visit of `id` has read this hive, and is told the owner that `w`
      names, or none; the scan starts above the nil id. */
  ghost predicate Truthful(events: seq<Event>, w: World, id: Uuid, hive: Uuid) {
    forall i | 0 <= i < |events| && events[i].Visit? && events[i].id == id ::
      && id > NIL && events[i].hive == hive
      && (Resolves(events[i].w.lookup(id, hive)).Some? ==>
            Resolves(events[i].w.lookup(id, hive)) == Resolves(w.lookup(id, hive)))
  }

  ghost predicate About(events: seq<Event>, w: World, id: Uuid, hive: Uuid) {
    ValidEvents(events) && NotRecreated(events, id) && Truthful(events, w, id, hive)
  }

  /** The row kept its identity, lost or changed no owner, and is still due the same. */
  ghost predicate StaysDue(a: Harvest, b: Harvest, w: World) {
    && FinalOwner(b, w) == FinalOwner(a, w)
    && (a.userId.Some? ==> b.userId == a.userId)
    && b.id == a.id && b.hiveId == a.hiveId && b.createdAt == a.createdAt
  }

  lemma CallKeepsRow(t: Table, c: Call, id: Uuid)
    requires ValidCall(c) && (Inserts(c) ==> c.freshId != id)
    ensures id in Step(t, c).0 ==> id in t && SameIdentity(t[id], Step(t, c).0[id])
  {
  }

  lemma EventKeepsRow(t: Table, e: Event, w: World, id: Uuid, hive: Uuid)
    requires About([e], w, id, hive) && (id in t ==> t[id].hiveId == hive)
    ensures e.Serve? ==> ValidCall(e.c)
    ensures id in EventStep(t, e) ==> id in t && StaysDue(t[id], EventStep(t, e)[id], w)
  {
    assert [e][0] == e;
    if e.Serve? {
      CallKeepsRow(t, e.c, id);
    }
  }

  lemma HeadOf(events: seq<Event>, w: World, id: Uuid, hive: Uuid)
    requires events != [] && About(events, w, id, hive)
    ensures About([events[0]], w, id, hive) && About(events[1..], w, id, hive)
  {
    TailValid(events);
  }

  /** A surviving row keeps its id, hive and creation time, never loses or
      changes an owner, and never becomes due another one. */
  lemma {:induction false} RowAmongEvents(t: Table, events: seq<Event>, w: World, id: Uuid, hive: Uuid)
    requires About(events, w, id, hive) && (id in t ==> t[id].hiveId == hive)
    ensures id in AfterEvents(t, events) ==> id in t && StaysDue(t[id], AfterEvents(t, events)[id], w)
    decreases |events|
  {
    if events == [] {
    } else {
      HeadOf(events, w, id, hive);
      EventKeepsRow(t, events[0], w, id, hive);
      RowAmongEvents(EventStep(t, events[0]), events[1..], w, id, hive);
    }
  }

  /** Backfilling is confluent while the service is live: whatever is created,
      edited and deleted between the visits of whatever runs, each cut short
      anywhere, one complete run leaves every surviving row with the owner an
      uninterrupted run at the start would have given it. */
  lemma ConfluentAmongCalls(t: Table, events: seq<Event>, w: World, id: Uuid)
    requires id in t && About(events, w, id, t[id].hiveId)
    requires id in AfterEvents(t, events)
    ensures Complete(AfterEvents(t, events), w)[id].userId == FinalOwner(t[id], w) == Complete(t, w)[id].userId
  {
    RowAmongEvents(t, events, w, id, t[id].hiveId);
    CompleteOwners(t, w, id);
    CompleteOwners(AfterEvents(t, events), w, id);
  }

  /** A row is settled by one visit that gets the right answer and whose write
      is not lost. */
  lemma VisitSettles(t: Table, w: World, id: Uuid)
    requires id in t && id > NIL && !IsLost(w, id, t[id].hiveId)
    ensures id in EventStep(t, Visit(w, id, t[id].hiveId))
    ensures EventStep(t, Visit(w, id, t[id].hiveId))[id].userId == FinalOwner(t[id], w)
  {
  }

  /** A settled row stays so. */
  lemma SettledStays(a: Harvest, b: Harvest, w: World)
    requires StaysDue(a, b, w) && a.userId == FinalOwner(a, w)
    ensures b.userId == FinalOwner(b, w)
  {
  }

  /** Even without a complete run: a row that was visited once in the world `w`,
      and whose write was not lost, has its final owner from then on. */
  lemma OneVisitSuffices(t: Table, before: seq<Event>, after: seq<Event>, w: World, id: Uuid)
    requires id in t && id > NIL && !IsLost(w, id, t[id].hiveId)
    requires About(before, w, id, t[id].hiveId) && About(after, w, id, t[id].hiveId)
    requires id in AfterEvents(EventStep(AfterEvents(t, before), Visit(w, id, t[id].hiveId)), after)
    ensures AfterEvents(EventStep(AfterEvents(t, before), Visit(w, id, t[id].hiveId)), after)[id].userId ==
              FinalOwner(t[id], w)
  {
    var hive := t[id].hiveId;
    var read := AfterEvents(t, before);
    var visited := EventStep(read, Visit(w, id, hive));
    RowAmongEvents(t, before, w, id, hive);
    VisitedRowStays(read, after, w, id, hive);
  }

  lemma VisitedRowStays(read: Table, after: seq<Event>, w: World, id: Uuid, hive: Uuid)
    requires About(after, w, id, hive) && (id in read ==> read[id].hiveId == hive)
    requires id > NIL && !IsLost(w, id, hive)
    requires id in AfterEvents(EventStep(read, Visit(w, id, hive)), after)
    ensures id in read
    ensures AfterEvents(EventStep(read, Visit(w, id, hive)), after)[id].userId == FinalOwner(read[id], w)
  {
    var visited := EventStep(read, Visit(w, id, hive));
    RowAmongEvents(visited, after, w, id, hive);
    VisitSettles(read, w, id);
    SettledStays(visited[id], AfterEvents(visited, after)[id], w);
  }

  /** The read and the write of an update are two statements.  Whatever calls
      and visits fall in between, the update acts as if it ran at the write, and
      answers so but for the owner column, which responses do not carry. */
  lemma UpdateAmongEvents(read: Table, events: seq<Event>, w: World, hive: Uuid, id: Uuid, content: Content, now: int)
    requires id in read && read[id].hiveId == hive && About(events, w, id, hive)
    ensures var write := AfterEvents(read, events);
            var h := Edited(read[id], content, now);
            var (t, r) := UpdateStep(write, Granted(true), hive, id, content, now);
            && (id !in write ==> t == write == WithEdit(write, h) && r == Refusal(HarvestNotFound))
            && (id in write && !Storable(h) ==> t == write && r == Refusal(Internal))
            && (id in write && Storable(h) ==>
                  t == WithEdit(write, h) && r.One? && r.harvest.(userId := None) == h.(userId := None))
  {
    RowAmongEvents(read, events, w, id, hive);
  }
}
