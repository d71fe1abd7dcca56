/** What holds over whole backfill runs and over any sequence of them. */
module BackfillRuns {
  import opened Domain
  import opened Ordering
  import opened Repository
  import opened Backfill

  // ----- one run

  /** A finished run visits every row that was ownerless exactly once, with a
      strictly increasing cursor. */
  lemma FinishedRunVisitsAll(t: Table, w: World, visited: seq<Uuid>)
    requires IsRun(t, w, visited, Finished) && NIL !in t
    ensures forall id :: id in visited <==> id in t && t[id].userId.None?
    ensures forall i, j | 0 <= i < j < |visited| :: visited[i] < visited[j]
  {
    AgendaLists(t);
    assert forall id :: id in visited <==> id in Elements(visited);
    forall i, j | 0 <= i < j < |visited| ensures visited[i] < visited[j] {
      assert IdLess()(visited[i], visited[j]);
    }
  }

  lemma RunVisitsDistinct(t: Table, w: World, visited: seq<Uuid>, outcome: Outcome)
    requires IsRun(t, w, visited, outcome)
    ensures forall i, j | 0 <= i < j < |visited| :: visited[i] < visited[j]
    ensures forall id | id in visited :: id in t && t[id].userId.None? && id > NIL
  {
    AgendaLists(t);
    forall i, j | 0 <= i < j < |visited| ensures visited[i] < visited[j] {
      assert IdLess()(Agenda(t)[i], Agenda(t)[j]);
    }
    forall id | id in visited ensures id in t && t[id].userId.None? && id > NIL {
      var i :| 0 <= i < |visited| && visited[i] == id;
      assert Agenda(t)[i] in Elements(Agenda(t));
    }
  }

  ghost predicate Distinct(ids: seq<Uuid>) {
    forall i, j | 0 <= i < j < |ids| :: ids[i] != ids[j]
  }

  /** The rows among `ids` whose owner lookup resolves. */
  ghost function Resolvable(t: Table, w: World, ids: seq<Uuid>): set<Uuid>
    requires AllIn(ids, t)
  {
    set id | id in ids && Resolves(AnswerFor(t, w, id)).Some?
  }

  lemma ResolvableGrows(t: Table, w: World, ids: seq<Uuid>, id: Uuid)
    requires AllIn(ids, t) && id in t && id !in ids && AllIn(ids + [id], t)
    ensures |Resolvable(t, w, ids + [id])| ==
              |Resolvable(t, w, ids)| + (if Resolves(AnswerFor(t, w, id)).Some? then 1 else 0)
  {
    var here := if Resolves(AnswerFor(t, w, id)).Some? then {id} else {};
    assert Resolvable(t, w, ids + [id]) == Resolvable(t, w, ids) + here;
    assert id !in Resolvable(t, w, ids);
  }

  /** Every visited row is counted once, and `resolved` counts the resolvable. */
  lemma {:induction false} TallyCounts(t: Table, w: World, ids: seq<Uuid>)
    requires AllIn(ids, t) && Distinct(ids)
    ensures Tally(t, w, ids).scanned == |ids|
    ensures Tally(t, w, ids).scanned ==
              Tally(t, w, ids).resolved + Tally(t, w, ids).unresolved + Tally(t, w, ids).failed
    ensures Tally(t, w, ids).resolved == |Resolvable(t, w, ids)|
    decreases |ids|
  {
    if ids == [] {
    } else {
      var front, last := ids[..|ids| - 1], ids[|ids| - 1];
      assert ids == front + [last];
      assert AllIn(front, t) && last !in front;
      TallyCounts(t, w, front);
      assert Tally(t, w, ids) == VisitCounters(Tally(t, w, front), AnswerFor(t, w, last));
      ResolvableGrows(t, w, front, last);
    }
  }

  /** The rows that gained an owner between two states. */
  ghost function Gained(before: Table, after: Table): set<Uuid> {
    set id | id in before && id in after && before[id].userId.None? && after[id].userId.Some?
  }

  lemma GainedAreResolvable(t: Table, w: World, ids: seq<Uuid>)
    requires AllIn(ids, t) && forall id | id in ids :: t[id].userId.None?
    ensures Gained(t, TableAfter(t, w, ids)) == Resolvable(t, w, ids)
  {
    TableAfterRows(t, w, ids);
  }

  lemma FrontOfRun(t: Table, w: World, visited: seq<Uuid>, outcome: Outcome)
    requires IsRun(t, w, visited, outcome) && outcome.SetPanic?
    ensures AllIn(visited[..|visited| - 1], t) && Distinct(visited[..|visited| - 1])
    ensures |Resolvable(t, w, visited)| == |Resolvable(t, w, visited[..|visited| - 1])| + 1
  {
    var front, last := visited[..|visited| - 1], visited[|visited| - 1];
    RunVisitsDistinct(t, w, visited, outcome);
    AppendedVisit(t, w, visited, front, last);
  }

  lemma AppendedVisit(t: Table, w: World, ids: seq<Uuid>, front: seq<Uuid>, last: Uuid)
    requires ids == front + [last] && Distinct(ids) && AllIn(ids, t) && Resolves(AnswerFor(t, w, last)).Some?
    ensures AllIn(front, t) && Distinct(front)
    ensures |Resolvable(t, w, ids)| == |Resolvable(t, w, front)| + 1
  {
    assert forall i | 0 <= i < |front| :: ids[i] == front[i];
    assert ids[|front|] == last;
    ResolvableGrows(t, w, front, last);
  }

  /** The printed counters add up; a panic in SetUserID leaves one scanned row
      uncounted. */
  lemma CountersAddUp(t: Table, w: World, visited: seq<Uuid>, outcome: Outcome)
    requires IsRun(t, w, visited, outcome)
    ensures var c := RunCounters(t, w, visited, outcome);
            && c.scanned == |visited|
            && c.scanned == c.resolved + c.unresolved + c.failed + (if outcome.SetPanic? then 1 else 0)
  {
    RunVisitsDistinct(t, w, visited, outcome);
    if outcome.SetPanic? {
      FrontOfRun(t, w, visited, outcome);
      TallyCounts(t, w, visited[..|visited| - 1]);
    } else {
      TallyCounts(t, w, visited);
    }
  }

  /** `resolved` is the number of rows that gained an owner, except that a
      panic may hide one write that did reach the table. */
  lemma ResolvedIsGained(t: Table, w: World, visited: seq<Uuid>, outcome: Outcome)
    requires IsRun(t, w, visited, outcome)
    ensures |Gained(t, RunTable(t, w, visited, outcome))| ==
              RunCounters(t, w, visited, outcome).resolved + (if outcome == SetPanic(true) then 1 else 0)
  {
    RunVisitsDistinct(t, w, visited, outcome);
    GainedAreResolvable(t, w, Applied(visited, outcome));
    if outcome.SetPanic? {
      FrontOfRun(t, w, visited, outcome);
      TallyCounts(t, w, visited[..|visited| - 1]);
    } else {
      TallyCounts(t, w, visited);
    }
  }

  // ----- sequences of runs

  datatype Run = Run(w: World, visited: seq<Uuid>, outcome: Outcome)

  /** Each run starts from where the one before it left the tables. */
  ghost predicate Legal(t: Table, runs: seq<Run>) {
    runs == [] ||
    (IsRun(t, runs[0].w, runs[0].visited, runs[0].outcome) && Legal(StepTable(t, runs[0]), runs[1..]))
  }

  ghost function StepTable(t: Table, run: Run): Table
    requires IsRun(t, run.w, run.visited, run.outcome)
  {
    RunTable(t, run.w, run.visited, run.outcome)
  }

  ghost function AfterRuns(t: Table, runs: seq<Run>): Table
    requires Legal(t, runs)
  {
    if runs == [] then t else AfterRuns(StepTable(t, runs[0]), runs[1..])
  }

  ghost function FailuresAfterRuns(f: map<Uuid, Failure>, t: Table, runs: seq<Run>): map<Uuid, Failure>
    requires Legal(t, runs)
    decreases |runs|
  {
    if runs == [] then f
    else FailuresAfterRuns(FailuresAfter(f, t, runs[0].w, runs[0].visited), StepTable(t, runs[0]), runs[1..])
  }

  lemma StepRows(t: Table, run: Run, id: Uuid)
    requires IsRun(t, run.w, run.visited, run.outcome) && id in t
    ensures id in StepTable(t, run)
    ensures StepTable(t, run)[id] == RowAfter(t[id], run.w, id in Applied(run.visited, run.outcome))
  {
    TableAfterRows(t, run.w, Applied(run.visited, run.outcome));
  }

  /** Runs only ever fill in absent owners: no row appears, disappears, changes
      another column but the update time, or loses or changes an owner. */
  lemma {:induction false} OwnersAreWrittenOnce(t: Table, runs: seq<Run>, id: Uuid)
    requires Legal(t, runs)
    ensures id in AfterRuns(t, runs) <==> id in t
    ensures id in t ==>
              var h := AfterRuns(t, runs)[id];
              && h == t[id].(userId := h.userId, updatedAt := h.updatedAt)
              && (t[id].userId.Some? ==> h == t[id])
    decreases |runs|
  {
    if runs == [] {
    } else {
      OwnersAreWrittenOnce(StepTable(t, runs[0]), runs[1..], id);
      if id in t {
        StepRows(t, runs[0], id);
      }
    }
  }

  /** One uninterrupted run. */
  ghost function Complete(t: Table, w: World): (r: Table)
    ensures r.Keys == t.Keys
  {
    AgendaLists(t);
    TableAfter(t, w, Agenda(t))
  }

  /** The owner a row has once some run has got past it. */
  function FinalOwner(h: Harvest, w: World): Option<Uuid> {
    if h.userId.None? && h.id > NIL then Resolves(w.lookup(h.id, h.hiveId)) else h.userId
  }

  lemma CompleteOwners(t: Table, w: World, id: Uuid)
    requires id in t
    ensures Complete(t, w)[id].userId == FinalOwner(t[id], w)
  {
    AgendaLists(t);
    TableAfterRows(t, w, Agenda(t));
    assert id in Agenda(t) <==> id in Elements(Agenda(t));
  }

  /** A world that may fail more often than another but names no other owner. */
  ghost predicate NoOtherOwner(partial: World, w: World) {
    forall id, hive | Resolves(partial.lookup(id, hive)).Some? ::
      Resolves(partial.lookup(id, hive)) == Resolves(w.lookup(id, hive))
  }

  /** Backfilling is confluent: after any number of runs, each cut short
      anywhere, one complete run ends with the owners a single uninterrupted
      run would have set. */
  lemma {:induction false} RunsAreConfluent(t: Table, runs: seq<Run>, w: World, id: Uuid)
    requires Legal(t, runs) && forall i | 0 <= i < |runs| :: NoOtherOwner(runs[i].w, w)
    requires id in t
    ensures id in AfterRuns(t, runs)
    ensures Complete(AfterRuns(t, runs), w)[id].userId == Complete(t, w)[id].userId
    decreases |runs|
  {
    if runs == [] {
    } else {
      var run := runs[0];
      var next := StepTable(t, run);
      StepRows(t, run, id);
      forall i | 0 <= i < |runs[1..]| ensures NoOtherOwner(runs[1..][i].w, w) {
        assert NoOtherOwner(runs[i + 1].w, w);
      }
      RunsAreConfluent(next, runs[1..], w, id);
      CompleteOwners(t, w, id);
      CompleteOwners(next, w, id);
      RunVisitsDistinct(t, run.w, run.visited, run.outcome);
      assert NoOtherOwner(run.w, w);
    }
  }

  /** What the owner column is for: once a complete run is through, deleting an
      account takes exactly the rows that already had that owner and the legacy
      rows whose lookup named it; a legacy row that did not resolve survives
      every account deletion. */
  lemma AccountDeletionAfterBackfill(t: Table, w: World, user: Uuid, id: Uuid)
    ensures id in WithoutUser(Complete(t, w), user) <==> id in t && FinalOwner(t[id], w) != Some(user)
  {
    if id in t {
      CompleteOwners(t, w, id);
    }
  }

  /** Running again after a complete run changes no owner. */
  lemma CompleteRunIsStable(t: Table, w: World, id: Uuid)
    requires id in t
    ensures Complete(Complete(t, w), w)[id].userId == Complete(t, w)[id].userId
  {
    CompleteOwners(t, w, id);
    CompleteOwners(Complete(t, w), w, id);
    AgendaLists(t);
    TableAfterRows(t, w, Agenda(t));
  }

  // ----- failure records

  function AttemptsOf(f: map<Uuid, Failure>, id: Uuid): nat {
    if id in f then f[id].attempts else 0
  }

  /** A visit that leaves its trace in the failure table. */
  ghost predicate Misses(t: Table, w: World, visited: seq<Uuid>, id: Uuid)
    requires AllIn(visited, t)
  {
    id in visited && Resolves(AnswerFor(t, w, id)).None? && w.upsertWorks(id)
  }

  lemma AttemptsInVisit(f: map<Uuid, Failure>, w: World, visited: Uuid, hive: Uuid, id: Uuid)
    ensures var missed := visited == id && Resolves(w.lookup(visited, hive)).None? && w.upsertWorks(visited);
            && AttemptsOf(VisitFailures(f, w, visited, hive), id) == AttemptsOf(f, id) + (if missed then 1 else 0)
            && (id in VisitFailures(f, w, visited, hive) <==> id in f || missed)
  {
  }

  lemma {:induction false} AttemptsInRun(f: map<Uuid, Failure>, t: Table, w: World, ids: seq<Uuid>, id: Uuid)
    requires AllIn(ids, t) && Distinct(ids)
    ensures AttemptsOf(FailuresAfter(f, t, w, ids), id) == AttemptsOf(f, id) + (if Misses(t, w, ids, id) then 1 else 0)
    ensures id in FailuresAfter(f, t, w, ids) <==> id in f || Misses(t, w, ids, id)
    decreases |ids|
  {
    if ids == [] {
    } else {
      var front, last := ids[..|ids| - 1], ids[|ids| - 1];
      assert ids == front + [last];
      assert last !in front;
      assert id in ids <==> id in front || id == last;
      AttemptsInRun(f, t, w, front, id);
      AttemptsInVisit(FailuresAfter(f, t, w, front), w, last, t[last].hiveId, id);
    }
  }

  /** How many runs visited `id` without resolving it. */
  ghost function MissCount(t: Table, runs: seq<Run>, id: Uuid): nat
    requires Legal(t, runs)
  {
    if runs == [] then 0
    else
      var here := if Misses(t, runs[0].w, runs[0].visited, id) then 1 else 0;
      here + MissCount(StepTable(t, runs[0]), runs[1..], id)
  }

  /** How many runs visited `id`. */
  ghost function VisitCount(runs: seq<Run>, id: Uuid): nat {
    if runs == [] then 0 else (if id in runs[0].visited then 1 else 0) + VisitCount(runs[1..], id)
  }

  /** The run finds the owner of `id`, but the write fails before it reaches
      the table. */
  ghost predicate LosesWrite(t: Table, run: Run, id: Uuid)
    requires AllIn(run.visited, t)
  {
    id in run.visited && Resolves(AnswerFor(t, run.w, id)).Some? && run.w.setResult(id).LostBefore?
  }

  /** How many runs lost the owner of `id` that way. */
  ghost function LostCount(t: Table, runs: seq<Run>, id: Uuid): nat
    requires Legal(t, runs)
    decreases |runs|
  {
    if runs == [] then 0
    else
      var here := if LosesWrite(t, runs[0], id) then 1 else 0;
      here + LostCount(StepTable(t, runs[0]), runs[1..], id)
  }

  /** Over any number of runs a row's attempts count the visits that did not
      resolve it, and it has a record exactly when there was one. */
  lemma {:induction false} AttemptsOverRuns(f: map<Uuid, Failure>, t: Table, runs: seq<Run>, id: Uuid)
    requires Legal(t, runs)
    ensures AttemptsOf(FailuresAfterRuns(f, t, runs), id) == AttemptsOf(f, id) + MissCount(t, runs, id)
    ensures id in FailuresAfterRuns(f, t, runs) <==> id in f || MissCount(t, runs, id) > 0
    decreases |runs|
  {
    if runs == [] {
    } else {
      var run := runs[0];
      RunVisitsDistinct(t, run.w, run.visited, run.outcome);
      AttemptsInRun(f, t, run.w, run.visited, id);
      AttemptsOverRuns(FailuresAfter(f, t, run.w, run.visited), StepTable(t, run), runs[1..], id);
    }
  }

  ghost predicate AlwaysRecords(w: World) {
    forall id :: w.upsertWorks(id)
  }

  ghost predicate UpsertsWork(runs: seq<Run>) {
    forall i | 0 <= i < |runs| :: AlwaysRecords(runs[i].w)
  }

  lemma VisitLeavingOwnerless(t: Table, run: Run, id: Uuid)
    requires IsRun(t, run.w, run.visited, run.outcome) && id in t
    requires AlwaysRecords(run.w) && StepTable(t, run)[id].userId.None?
    ensures (if id in run.visited then 1 else 0) ==
              (if Misses(t, run.w, run.visited, id) then 1 else 0) + (if LosesWrite(t, run, id) then 1 else 0)
  {
    StepRows(t, run, id);
    RunVisitsDistinct(t, run.w, run.visited, run.outcome);
    if run.outcome.SetPanic? {
      var front, last := run.visited[..|run.visited| - 1], run.visited[|run.visited| - 1];
      assert run.visited == front + [last];
      assert last !in front;
      assert last in run.visited;
    }
  }

  /** For a row still ownerless at the end, every visit either left its trace
      or was lost in a panic of the write. */
  lemma {:induction false} VisitsOfOwnerlessRow(t: Table, runs: seq<Run>, id: Uuid)
    requires Legal(t, runs) && UpsertsWork(runs) && id in t && id in AfterRuns(t, runs)
    requires AfterRuns(t, runs)[id].userId.None?
    ensures VisitCount(runs, id) == MissCount(t, runs, id) + LostCount(t, runs, id)
    decreases |runs|
  {
    if runs == [] {
    } else {
      var run := runs[0];
      StepRows(t, run, id);
      OwnersAreWrittenOnce(StepTable(t, run), runs[1..], id);
      VisitLeavingOwnerless(t, run, id);
      forall i | 0 <= i < |runs[1..]| ensures AlwaysRecords(runs[1..][i].w) {
        assert AlwaysRecords(runs[i + 1].w);
      }
      VisitsOfOwnerlessRow(StepTable(t, run), runs[1..], id);
    }
  }

  /** So a row still ownerless has a failure record if and only if not all of
      its visits were lost that way. */
  lemma OwnerlessRowRecorded(t: Table, runs: seq<Run>, id: Uuid)
    requires Legal(t, runs) && UpsertsWork(runs) && id in t && id in AfterRuns(t, runs)
    requires AfterRuns(t, runs)[id].userId.None?
    ensures id in FailuresAfterRuns(map[], t, runs) <==> VisitCount(runs, id) > LostCount(t, runs, id)
  {
    VisitsOfOwnerlessRow(t, runs, id);
    AttemptsOverRuns(map[], t, runs, id);
  }

  /** A row can be visited, stay ownerless and have no record: its owner was
      found, but writing it failed and ended the run. */
  lemma LostWriteLeavesNoRecord(t: Table, w: World, id: Uuid, owner: Uuid)
    requires t.Keys == {id} && id > NIL && owner != NIL && t[id].userId.None?
    requires w.lookup(id, t[id].hiveId) == Responded(200, Some(owner)) && w.setResult(id).LostBefore?
    ensures IsRun(t, w, [id], SetPanic(false))
    ensures RunTable(t, w, [id], SetPanic(false)) == t
    ensures FailuresAfter(map[], t, w, [id]) == map[]
  {
    AgendaLists(t);
    assert Ownerless(t, NIL) == {id};
    assert Elements([id]) == {id};
    IdOrder({id});
    SortedIsOrderBy(IdLess(), [id], {id});
    assert [id][..0] == [];
  }
}
