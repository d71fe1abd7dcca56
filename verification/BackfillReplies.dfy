/** What a backfill makes of the replies it gets, on the fields of the replies,
    the rows and the records. */
module BackfillReplies {
  import opened Domain
  import opened Ordering
  import opened Repository
  import opened Backfill
  import opened BackfillRuns

  /** The reply to the lookup names an owner: status 200 and an id other than
      the nil id. */
  predicate Names(reply: Answer) {
    reply.Responded? && reply.status == 200 && reply.owner.Some? && reply.owner.value != 0
  }

  function ReasonText(reply: Answer): string {
    if reply == BadRequest then "invalid hive owner request"
    else if reply == Unavailable then "hive service unavailable"
    else "hive owner unresolved"
  }

  /** The owner a row is due: the one it has, else the one a reply names. */
  lemma FinalOwnerOnFields(h: Harvest, w: World, user: Uuid)
    ensures FinalOwner(h, w) == Some(user) <==>
              || h.userId == Some(user)
              || (h.userId == None && h.id != 0 && user != 0 && w.lookup(h.id, h.hiveId) == Responded(200, Some(user)))
  {
  }

  // ----- one run

  /** The owner of every row after a run, and everything else about it. */
  lemma OwnersOfRun(t: Table, w: World, visited: seq<Uuid>, outcome: Outcome)
    requires IsRun(t, w, visited, outcome)
    ensures var end := RunTable(t, w, visited, outcome);
            && end.Keys == t.Keys
            && forall id | id in t ::
                 var h, reply := t[id], w.lookup(id, t[id].hiveId);
                 end[id] ==
                   if id in visited && Names(reply) && w.setResult(id) != LostBefore
                   then Harvest(h.id, h.hiveId, reply.owner, h.product, h.amount, h.unit, h.harvestedAt, h.createdAt,
                                w.clock(id))
                   else h
  {
    RunVisitsDistinct(t, w, visited, outcome);
    TableAfterRows(t, w, Applied(visited, outcome));
    forall id | id in visited
      ensures id in Applied(visited, outcome) <==> !(Names(AnswerFor(t, w, id)) && w.setResult(id) == LostBefore)
    {
      AppliedUnlessLost(t, w, visited, outcome, id);
    }
  }

  lemma CompletedOrLast(visited: seq<Uuid>, outcome: Outcome, id: Uuid)
    requires id in visited
    ensures id in Completed(visited, outcome) || (outcome.SetPanic? && id == visited[|visited| - 1])
    ensures id in Completed(visited, outcome) ==> id in Applied(visited, outcome)
    ensures outcome != SetPanic(false) ==> id in Applied(visited, outcome)
  {
    assert visited == visited[..|visited| - 1] + [visited[|visited| - 1]];
  }

  lemma LastNotApplied(t: Table, w: World, visited: seq<Uuid>)
    requires IsRun(t, w, visited, SetPanic(false))
    ensures visited != [] && visited[|visited| - 1] !in Applied(visited, SetPanic(false))
  {
    RunVisitsDistinct(t, w, visited, SetPanic(false));
  }

  lemma AppliedUnlessLost(t: Table, w: World, visited: seq<Uuid>, outcome: Outcome, id: Uuid)
    requires IsRun(t, w, visited, outcome) && id in visited
    ensures id in Applied(visited, outcome) <==> !(Names(AnswerFor(t, w, id)) && w.setResult(id) == LostBefore)
  {
    CompletedOrLast(visited, outcome, id);
    if id in Completed(visited, outcome) {
      assert !WriteFails(t, w, id);
    } else if outcome == SetPanic(false) {
      LastNotApplied(t, w, visited);
    }
  }

  /** A run ends with the first owner it cannot write, and so goes past none. */
  lemma PanicOfRun(t: Table, w: World, visited: seq<Uuid>, outcome: Outcome, k: nat)
    requires IsRun(t, w, visited, outcome) && k < |visited|
    ensures visited[k] in t
    ensures Names(w.lookup(visited[k], t[visited[k]].hiveId)) && w.setResult(visited[k]) != Written <==>
              outcome == SetPanic(w.setResult(visited[k]) == LostAfter) && k == |visited| - 1
  {
    assert visited[k] in visited;
    if outcome.SetPanic? && k < |visited| - 1 {
      assert visited[..|visited| - 1][k] == visited[k];
    }
  }

  /** An ownerless row ends a finished run with an owner exactly when the reply
      about it named that one. */
  lemma FinishedRunOwners(t: Table, w: World, visited: seq<Uuid>, id: Uuid, user: Uuid)
    requires IsRun(t, w, visited, Finished) && id in t && id != 0 && t[id].userId == None
    ensures id in RunTable(t, w, visited, Finished)
    ensures RunTable(t, w, visited, Finished)[id].userId == Some(user) <==>
              w.lookup(id, t[id].hiveId) == Responded(200, Some(user)) && user != 0
  {
    AgendaLists(t);
    assert id in Elements(visited);
    OwnersOfRun(t, w, visited, Finished);
    AppliedUnlessLost(t, w, visited, Finished, id);
  }

  /** The record of `id` when `reply` to a question about `hive` is recorded: one
      more attempt, or a first one; and when nothing is. */
  ghost predicate Recorded(f: map<Uuid, Failure>, f': map<Uuid, Failure>, id: Uuid, hive: Uuid, reply: Answer) {
    && id in f'
    && f'[id] == Failure(if id in f then f[id].hiveId else hive, ReasonText(reply),
                         (if id in f then f[id].attempts else 0) + 1)
  }

  ghost predicate NotRecorded(f: map<Uuid, Failure>, f': map<Uuid, Failure>, id: Uuid) {
    (id in f' <==> id in f) && (id in f ==> f'[id] == f[id])
  }

  lemma RecordOfVisit(f: map<Uuid, Failure>, w: World, visited: Uuid, hive: Uuid, id: Uuid)
    ensures var reply := w.lookup(visited, hive);
            if visited == id && !Names(reply) && w.upsertWorks(id)
            then Recorded(f, VisitFailures(f, w, visited, hive), id, hive, reply)
            else NotRecorded(f, VisitFailures(f, w, visited, hive), id)
  {
  }

  /** Exactly the visits whose reply named no owner are recorded, where recording
      works, each with its reason. */
  lemma {:induction false} RecordsOfRun(f: map<Uuid, Failure>, t: Table, w: World, ids: seq<Uuid>, id: Uuid)
    requires AllIn(ids, t) && Distinct(ids)
    ensures if id in ids && !Names(w.lookup(id, t[id].hiveId)) && w.upsertWorks(id)
            then Recorded(f, FailuresAfter(f, t, w, ids), id, t[id].hiveId, w.lookup(id, t[id].hiveId))
            else NotRecorded(f, FailuresAfter(f, t, w, ids), id)
    decreases |ids|
  {
    if ids == [] {
    } else {
      var front, last := ids[..|ids| - 1], ids[|ids| - 1];
      assert ids == front + [last];
      assert last !in front;
      assert id in ids <==> id in front || id == last;
      RecordsOfRun(f, t, w, front, id);
      RecordOfVisit(FailuresAfter(f, t, w, front), w, last, t[last].hiveId, id);
    }
  }

  /** Those of `ids` that `pick` picks. */
  ghost function Picked(ids: seq<Uuid>, pick: Uuid -> bool): set<Uuid> {
    set id | id in ids && pick(id)
  }

  lemma PickedGrows(front: seq<Uuid>, last: Uuid, pick: Uuid -> bool)
    requires last !in front
    ensures |Picked(front + [last], pick)| == |Picked(front, pick)| + (if pick(last) then 1 else 0)
  {
    assert Picked(front + [last], pick) == Picked(front, pick) + (if pick(last) then {last} else {});
  }

  // The kinds of visits: named and written, answered otherwise, not answered.

  predicate EndsResolved(w: World, id: Uuid, hive: Uuid) {
    Names(w.lookup(id, hive)) && w.setResult(id) == Written
  }

  predicate EndsUnresolved(w: World, id: Uuid, hive: Uuid) {
    w.lookup(id, hive).Responded? && !Names(w.lookup(id, hive))
  }

  predicate EndsFailed(w: World, id: Uuid, hive: Uuid) {
    w.lookup(id, hive) == BadRequest || w.lookup(id, hive) == Unavailable
  }

  function Resolved(t: Table, w: World): Uuid -> bool {
    (id: Uuid) => id in t && EndsResolved(w, id, t[id].hiveId)
  }

  function Unresolved(t: Table, w: World): Uuid -> bool {
    (id: Uuid) => id in t && EndsUnresolved(w, id, t[id].hiveId)
  }

  function Failed(t: Table, w: World): Uuid -> bool {
    (id: Uuid) => id in t && EndsFailed(w, id, t[id].hiveId)
  }

  /** The counters of `ids`, by the replies. */
  ghost function CountedByReply(t: Table, w: World, ids: seq<Uuid>): Counters {
    Counters(|ids|, |Picked(ids, Resolved(t, w))|, |Picked(ids, Unresolved(t, w))|, |Picked(ids, Failed(t, w))|)
  }

  lemma CountedOneMore(t: Table, w: World, front: seq<Uuid>, last: Uuid)
    requires last in t && last !in front && !WriteFails(t, w, last)
    ensures CountedByReply(t, w, front + [last]) == VisitCounters(CountedByReply(t, w, front), AnswerFor(t, w, last))
  {
    PickedGrows(front, last, Resolved(t, w));
    PickedGrows(front, last, Unresolved(t, w));
    PickedGrows(front, last, Failed(t, w));
  }

  lemma {:induction false} TallyByReply(t: Table, w: World, ids: seq<Uuid>)
    requires AllIn(ids, t) && Distinct(ids) && NoWriteFails(t, w, ids)
    ensures Tally(t, w, ids) == CountedByReply(t, w, ids)
    decreases |ids|
  {
    if ids == [] {
    } else {
      var front, last := ids[..|ids| - 1], ids[|ids| - 1];
      assert ids == front + [last];
      assert last !in front && last in ids;
      TallyByReply(t, w, front);
      CountedOneMore(t, w, front, last);
    }
  }

  lemma PanicIsOfNoKind(t: Table, w: World, visited: seq<Uuid>, front: seq<Uuid>, last: Uuid)
    requires visited == front + [last] && last !in front && last in t && WriteFails(t, w, last)
    ensures |Picked(visited, Resolved(t, w))| == |Picked(front, Resolved(t, w))|
    ensures |Picked(visited, Unresolved(t, w))| == |Picked(front, Unresolved(t, w))|
    ensures |Picked(visited, Failed(t, w))| == |Picked(front, Failed(t, w))|
  {
    PickedGrows(front, last, Resolved(t, w));
    PickedGrows(front, last, Unresolved(t, w));
    PickedGrows(front, last, Failed(t, w));
  }

  lemma FrontOfPanic(t: Table, w: World, visited: seq<Uuid>, outcome: Outcome)
    requires IsRun(t, w, visited, outcome) && outcome.SetPanic?
    ensures visited != []
    ensures var front, last := visited[..|visited| - 1], visited[|visited| - 1];
            && AllIn(front, t) && Distinct(front) && NoWriteFails(t, w, front)
            && visited == front + [last] && last !in front && last in t && WriteFails(t, w, last)
  {
    RunVisitsDistinct(t, w, visited, outcome);
  }

  /** The counters of a run count its visits by their replies; a visit that
      panics is scanned only. */
  lemma CountersOfRun(t: Table, w: World, visited: seq<Uuid>, outcome: Outcome)
    requires IsRun(t, w, visited, outcome)
    ensures RunCounters(t, w, visited, outcome) == CountedByReply(t, w, visited)
  {
    if outcome.SetPanic? {
      var front, last := visited[..|visited| - 1], visited[|visited| - 1];
      FrontOfPanic(t, w, visited, outcome);
      TallyByReply(t, w, front);
      PanicIsOfNoKind(t, w, visited, front, last);
    } else {
      RunVisitsDistinct(t, w, visited, outcome);
      TallyByReply(t, w, visited);
    }
  }
}
