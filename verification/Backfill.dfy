/** The owner backfill: a keyset-cursor scan over the rows it takes out of its
    own selection, cut short by a panic at any failing statement, and run any
    number of times. */
module Backfill {
  import opened Domain
  import opened Ordering
  import opened Repository

  /** The reply to an owner lookup.  `owner` is None when the body does not decode. */
  datatype Answer = BadRequest | Unavailable | Responded(status: int, owner: Option<Uuid>)

  /** What the scan takes for an owner. */
  function Resolves(a: Answer): Option<Uuid> {
    if a.Responded? && a.status == 200 && a.owner.Some? && a.owner.value != NIL then a.owner else None
  }

  function Reason(a: Answer): string {
    match a
    case BadRequest => "invalid hive owner request"
    case Unavailable => "hive service unavailable"
    case Responded(_, _) => "hive owner unresolved"
  }

  /** A failing UPDATE may or may not have reached the table. */
  datatype WriteResult = Written | LostBefore | LostAfter

  /** Everything one run meets outside the program.  A run visits a row at most
      once, so answers may differ from row to row and from run to run. */
  datatype World = World(
    lookup: (Uuid, Uuid) -> Answer,
    upsertWorks: Uuid -> bool,
    setResult: Uuid -> WriteResult,
    listWorks: nat -> bool,
    clock: Uuid -> int)

  datatype Outcome = Finished | ListPanic | SetPanic(applied: bool)

  datatype Counters = Counters(scanned: nat, resolved: nat, unresolved: nat, failed: nat)

  // ----- what visiting rows does

  function AnswerFor(t: Table, w: World, id: Uuid): Answer
    requires id in t
  {
    w.lookup(id, t[id].hiveId)
  }

  function VisitTable(t: Table, w: World, id: Uuid): Table
    requires id in t
  {
    VisitRead(t, w, id, t[id].hiveId)
  }

  /** A visit knows the hive that was read with the row; by now the row may be gone. */
  function VisitRead(t: Table, w: World, id: Uuid, hive: Uuid): Table {
    var owner := Resolves(w.lookup(id, hive));
    if owner.Some? then WithOwner(t, id, owner.value, w.clock(id)) else t
  }

  function VisitFailures(f: map<Uuid, Failure>, w: World, id: Uuid, hive: Uuid): map<Uuid, Failure> {
    var a := w.lookup(id, hive);
    if Resolves(a).None? && w.upsertWorks(id) then WithFailure(f, id, hive, Reason(a)) else f
  }

  function VisitCounters(c: Counters, a: Answer): Counters {
    if !a.Responded? then c.(scanned := c.scanned + 1, failed := c.failed + 1)
    else if Resolves(a).None? then c.(scanned := c.scanned + 1, unresolved := c.unresolved + 1)
    else c.(scanned := c.scanned + 1, resolved := c.resolved + 1)
  }

  ghost predicate AllIn(ids: seq<Uuid>, t: Table) {
    forall id | id in ids :: id in t
  }

  /** The table after visiting `ids` in turn. */
  ghost function TableAfter(t: Table, w: World, ids: seq<Uuid>): (r: Table)
    requires AllIn(ids, t)
    ensures r.Keys == t.Keys
  {
    if ids == [] then t else VisitTable(TableAfter(t, w, ids[..|ids| - 1]), w, ids[|ids| - 1])
  }

  ghost function FailuresAfter(f: map<Uuid, Failure>, t: Table, w: World, ids: seq<Uuid>): map<Uuid, Failure>
    requires AllIn(ids, t)
  {
    if ids == [] then f
    else
      var front, last := ids[..|ids| - 1], ids[|ids| - 1];
      VisitFailures(FailuresAfter(f, t, w, front), w, last, t[last].hiveId)
  }

  ghost function Tally(t: Table, w: World, ids: seq<Uuid>): Counters
    requires AllIn(ids, t)
  {
    if ids == [] then Counters(0, 0, 0, 0)
    else VisitCounters(Tally(t, w, ids[..|ids| - 1]), AnswerFor(t, w, ids[|ids| - 1]))
  }

  /** Row by row: a visit sets an absent owner that resolves, and nothing else. */
  ghost function RowAfter(h: Harvest, w: World, visited: bool): Harvest {
    var owner := Resolves(w.lookup(h.id, h.hiveId));
    if visited && h.userId.None? && owner.Some? then h.(userId := owner, updatedAt := w.clock(h.id)) else h
  }

  lemma {:induction false} TableAfterRow(t: Table, w: World, ids: seq<Uuid>, id: Uuid)
    requires AllIn(ids, t) && id in t
    ensures TableAfter(t, w, ids)[id] == RowAfter(t[id], w, id in ids)
    decreases |ids|
  {
    if ids == [] {
    } else {
      var front, last := ids[..|ids| - 1], ids[|ids| - 1];
      assert ids == front + [last];
      TableAfterRow(t, w, front, id);
    }
  }

  lemma TableAfterRows(t: Table, w: World, ids: seq<Uuid>)
    requires AllIn(ids, t)
    ensures forall id | id in t :: TableAfter(t, w, ids)[id] == RowAfter(t[id], w, id in ids)
  {
    forall id | id in t ensures TableAfter(t, w, ids)[id] == RowAfter(t[id], w, id in ids) {
      TableAfterRow(t, w, ids, id);
    }
  }

  // ----- the order of a run

  /** The rows one complete run has to visit, in the order of their ids. */
  ghost function Agenda(t: Table): seq<Uuid> {
    InIdOrder(Ownerless(t, NIL))
  }

  lemma AgendaLists(t: Table)
    ensures Sorted(IdLess(), Agenda(t)) && Elements(Agenda(t)) == Ownerless(t, NIL) && AllIn(Agenda(t), t)
  {
    InIdOrderLists(Ownerless(t, NIL));
    forall id | id in Agenda(t) ensures id in t {
      assert id in Elements(Agenda(t));
    }
  }

  lemma PrefixIn(t: Table, k: nat)
    requires k <= |Agenda(t)|
    ensures AllIn(Agenda(t)[..k], t)
  {
    AgendaLists(t);
  }

  /** The table after visiting the first `k` rows of the agenda. */
  ghost function TableAt(t: Table, w: World, k: nat): Table
    requires k <= |Agenda(t)|
  {
    PrefixIn(t, k);
    TableAfter(t, w, Agenda(t)[..k])
  }

  ghost function CursorAfter(ids: seq<Uuid>): Uuid {
    if ids == [] then NIL else ids[|ids| - 1]
  }

  /** Visits never take an owner away, and leave other rows alone. */
  lemma OwnersStay(t: Table, w: World, ids: seq<Uuid>, id: Uuid)
    requires AllIn(ids, t) && id in t
    ensures TableAfter(t, w, ids)[id].userId.None? ==> t[id].userId.None?
    ensures id !in ids ==> TableAfter(t, w, ids)[id] == t[id]
  {
    TableAfterRows(t, w, ids);
  }

  lemma RestIsSelected(t: Table, w: World, k: nat, i: nat)
    requires k <= i < |Agenda(t)|
    ensures Agenda(t)[i] in Ownerless(TableAt(t, w, k), CursorAfter(Agenda(t)[..k]))
  {
    PrefixIn(t, k);
    AgendaLists(t);
    assert Agenda(t)[i] in Elements(Agenda(t));
    RestIsAbove(Agenda(t), k, i);
    OwnersStay(t, w, Agenda(t)[..k], Agenda(t)[i]);
  }

  lemma SelectedIsRest(t: Table, w: World, k: nat, id: Uuid)
    requires k <= |Agenda(t)| && id in Ownerless(TableAt(t, w, k), CursorAfter(Agenda(t)[..k]))
    ensures id in Agenda(t)[k..]
  {
    PrefixIn(t, k);
    OwnersStay(t, w, Agenda(t)[..k], id);
    RestOfAgenda(t, k, id);
  }

  lemma RestOfAgenda(t: Table, k: nat, id: Uuid)
    requires k <= |Agenda(t)| && id in Ownerless(t, NIL) && id > CursorAfter(Agenda(t)[..k])
    ensures id in Agenda(t)[k..]
  {
    var order := Agenda(t);
    AgendaLists(t);
    assert id in Elements(order);
    var i :| 0 <= i < |order| && order[i] == id;
    BelowCursor(order, k, i);
    assert order[k..][i - k] == id;
  }

  lemma SelectedIffRest(t: Table, w: World, k: nat, id: Uuid)
    requires k <= |Agenda(t)|
    ensures id in Ownerless(TableAt(t, w, k), CursorAfter(Agenda(t)[..k])) <==> id in Agenda(t)[k..]
  {
    if id in Agenda(t)[k..] {
      var i :| 0 <= i < |Agenda(t)[k..]| && Agenda(t)[k..][i] == id;
      RestIsSelected(t, w, k, k + i);
    } else if id in Ownerless(TableAt(t, w, k), CursorAfter(Agenda(t)[..k])) {
      SelectedIsRest(t, w, k, id);
    }
  }

  lemma SortedIdsAre(rest: seq<Uuid>, ids: set<Uuid>)
    requires Sorted(IdLess(), rest) && forall id :: id in ids <==> id in rest
    ensures InIdOrder(ids) == rest
  {
    IdOrder(ids);
    assert Elements(rest) == ids;
    SortedIsOrderBy(IdLess(), rest, ids);
  }

  /** Although the scan takes rows out of the set it selects from, the rows
      selected above the cursor are always exactly the rest of the agenda. */
  lemma SelectionIsRestOfAgenda(t: Table, w: World, k: nat)
    requires k <= |Agenda(t)|
    ensures InIdOrder(Ownerless(TableAt(t, w, k), CursorAfter(Agenda(t)[..k]))) == Agenda(t)[k..]
  {
    var above := Ownerless(TableAt(t, w, k), CursorAfter(Agenda(t)[..k]));
    forall id ensures id in above <==> id in Agenda(t)[k..] {
      SelectedIffRest(t, w, k, id);
    }
    RestIsSorted(t, k);
    SortedIdsAre(Agenda(t)[k..], above);
  }

  lemma RestIsSorted(t: Table, k: nat)
    requires k <= |Agenda(t)|
    ensures Sorted(IdLess(), Agenda(t)[k..])
  {
    AgendaLists(t);
  }

  lemma RestIsAbove(order: seq<Uuid>, k: nat, i: nat)
    requires Sorted(IdLess(), order) && k <= i < |order| && order[i] > NIL
    ensures order[i] > CursorAfter(order[..k]) && order[i] !in order[..k]
  {
    forall j | 0 <= j < k ensures order[j] < order[i] {
      assert IdLess()(order[j], order[i]);
    }
  }

  lemma BelowCursor(order: seq<Uuid>, k: nat, i: nat)
    requires Sorted(IdLess(), order) && k <= |order| && i < |order|
    ensures order[i] > CursorAfter(order[..k]) ==> i >= k
  {
    if i < k - 1 {
      assert IdLess()(order[i], order[k - 1]);
    }
  }

  // ----- the program

  /** If its upsert works, the row's record has one more attempt and this reason;
      nothing else changes. */
  ghost predicate RecordedIf(w: World, f: map<Uuid, Failure>, f': map<Uuid, Failure>, row: LegacyHarvest,
                             reason: string) {
    if w.upsertWorks(row.id) then
      && row.id in f'
      && f'[row.id] == Failure(if row.id in f then f[row.id].hiveId else row.hiveId, reason,
                               (if row.id in f then f[row.id].attempts else 0) + 1)
      && f'.Keys == f.Keys + {row.id}
      && forall other | other in f && other != row.id :: f'[other] == f[other]
    else f' == f
  }

  /** One iteration of the inner loop.  Returns false when the program panics. */
  method VisitRow(r: HarvestRepository, w: World, row: LegacyHarvest, c: Counters) returns (c': Counters, ok: bool)
    modifies r
    ensures ok <==> !(Resolves(w.lookup(row.id, row.hiveId)).Some? && !w.setResult(row.id).Written?)
    ensures ok ==> c' == VisitCounters(c, w.lookup(row.id, row.hiveId))
    ensures !ok ==> c' == OneMoreScanned(c)
    ensures r.harvests == if !ok && w.setResult(row.id).LostBefore? then old(r.harvests)
                          else VisitRead(old(r.harvests), w, row.id, row.hiveId)
    ensures r.failures == VisitFailures(old(r.failures), w, row.id, row.hiveId)
    // ... which is, reply by reply:
    ensures r.harvests.Keys == old(r.harvests).Keys
    ensures forall id | id in r.harvests ::
              var h, reply := old(r.harvests)[id], w.lookup(row.id, row.hiveId);
              r.harvests[id] ==
                if id == row.id && h.userId == None && w.setResult(id) != LostBefore
                   && reply.Responded? && reply.status == 200 && reply.owner.Some? && reply.owner.value != 0
                then Harvest(h.id, h.hiveId, reply.owner, h.product, h.amount, h.unit, h.harvestedAt, h.createdAt,
                             w.clock(id))
                else h
    ensures match w.lookup(row.id, row.hiveId)
            case BadRequest => ok && c' == Counters(c.scanned + 1, c.resolved, c.unresolved, c.failed + 1)
            case Unavailable => ok && c' == Counters(c.scanned + 1, c.resolved, c.unresolved, c.failed + 1)
            case Responded(status, owner) =>
              if status != 200 || owner == None || owner == Some(0)
              then ok && c' == Counters(c.scanned + 1, c.resolved, c.unresolved + 1, c.failed)
              else if w.setResult(row.id) == Written
              then ok && c' == Counters(c.scanned + 1, c.resolved + 1, c.unresolved, c.failed)
              else !ok && c' == Counters(c.scanned + 1, c.resolved, c.unresolved, c.failed)
    ensures match w.lookup(row.id, row.hiveId)
            case BadRequest => RecordedIf(w, old(r.failures), r.failures, row, "invalid hive owner request")
            case Unavailable => RecordedIf(w, old(r.failures), r.failures, row, "hive service unavailable")
            case Responded(status, owner) =>
              if status != 200 || owner == None || owner == Some(0)
              then RecordedIf(w, old(r.failures), r.failures, row, "hive owner unresolved")
              else r.failures == old(r.failures)
  {
    c' := c.(scanned := c.scanned + 1);
    ok := true;
    var a := w.lookup(row.id, row.hiveId);
    if a.BadRequest? || a.Unavailable? {
      c' := c'.(failed := c'.failed + 1);
      if w.upsertWorks(row.id) {
        r.RecordBackfillFailure(row.id, row.hiveId, Reason(a));
        assert r.failures == WithFailure(old(r.failures), row.id, row.hiveId, Reason(a));
      }
    } else if a.status != 200 || a.owner.None? || a.owner.value == NIL {
      c' := c'.(unresolved := c'.unresolved + 1);
      if w.upsertWorks(row.id) {
        r.RecordBackfillFailure(row.id, row.hiveId, Reason(a));
        assert r.failures == WithFailure(old(r.failures), row.id, row.hiveId, Reason(a));
      }
    } else {
      if !w.setResult(row.id).LostBefore? {
        r.SetUserID(row.id, a.owner.value, w.clock(row.id));
        assert r.harvests == WithOwner(old(r.harvests), row.id, a.owner.value, w.clock(row.id));
      }
      if !w.setResult(row.id).Written? {
        ok := false;
      } else {
        c' := c'.(resolved := c'.resolved + 1);
      }
    }
  }

  /** The visited rows whose effect on the harvests table is there. */
  function Applied(visited: seq<Uuid>, outcome: Outcome): seq<Uuid> {
    if outcome.SetPanic? && !outcome.applied && visited != [] then visited[..|visited| - 1] else visited
  }

  /** The visits that ran to their end: all but the one that panicked. */
  function Completed(visited: seq<Uuid>, outcome: Outcome): seq<Uuid> {
    if outcome.SetPanic? && visited != [] then visited[..|visited| - 1] else visited
  }

  /** The row's owner is known, but writing it fails. */
  ghost predicate WriteFails(t: Table, w: World, id: Uuid)
    requires id in t
  {
    Resolves(AnswerFor(t, w, id)).Some? && !w.setResult(id).Written?
  }

  ghost predicate NoWriteFails(t: Table, w: World, ids: seq<Uuid>) {
    forall id | id in ids && id in t :: !WriteFails(t, w, id)
  }

  /** The shape of every run: a prefix of the agenda, all of it when the run
      finishes.  It panics in SetUserID on the first row whose owner is known
      but not written, and goes past no such row. */
  ghost predicate IsRun(t: Table, w: World, visited: seq<Uuid>, outcome: Outcome) {
    && visited <= Agenda(t)
    && AllIn(visited, t)
    && (outcome.Finished? ==> visited == Agenda(t))
    && NoWriteFails(t, w, Completed(visited, outcome))
    && (outcome.SetPanic? ==>
          && visited != []
          && WriteFails(t, w, visited[|visited| - 1])
          && outcome.applied == w.setResult(visited[|visited| - 1]).LostAfter?)
  }

  ghost function RunTable(t: Table, w: World, visited: seq<Uuid>, outcome: Outcome): Table
    requires AllIn(visited, t)
  {
    TableAfter(t, w, Applied(visited, outcome))
  }

  ghost function RunCounters(t: Table, w: World, visited: seq<Uuid>, outcome: Outcome): Counters
    requires AllIn(visited, t)
  {
    if outcome.SetPanic? && visited != []
    then OneMoreScanned(Tally(t, w, visited[..|visited| - 1]))
    else Tally(t, w, visited)
  }

  lemma AnswersDoNotChange(t: Table, w: World, ids: seq<Uuid>, id: Uuid)
    requires AllIn(ids, t) && id in t
    ensures AnswerFor(TableAfter(t, w, ids), w, id) == AnswerFor(t, w, id)
    ensures TableAfter(t, w, ids)[id].hiveId == t[id].hiveId
  {
    TableAfterRows(t, w, ids);
  }

  /** State of the program after visiting a prefix of the agenda. */
  ghost predicate Reached(t: Table, f: map<Uuid, Failure>, w: World, visited: seq<Uuid>,
                          harvests: Table, failures: map<Uuid, Failure>, c: Counters) {
    && visited <= Agenda(t) && AllIn(visited, t) && NoWriteFails(t, w, visited)
    && harvests == TableAfter(t, w, visited)
    && failures == FailuresAfter(f, t, w, visited)
    && c == Tally(t, w, visited)
  }

  lemma NextOnAgenda(t: Table, visited: seq<Uuid>)
    requires visited < Agenda(t) && AllIn(visited, t)
    ensures var id := Agenda(t)[|visited|];
            id in t && visited + [id] <= Agenda(t) && AllIn(visited + [id], t)
  {
    AgendaLists(t);
    assert Agenda(t)[|visited|] in Agenda(t);
  }

  /** One more row visited. */
  lemma VisitedOneMore(t: Table, f: map<Uuid, Failure>, w: World, visited: seq<Uuid>, id: Uuid)
    requires AllIn(visited, t) && id in t && AllIn(visited + [id], t)
    ensures TableAfter(t, w, visited + [id]) == VisitTable(TableAfter(t, w, visited), w, id)
    ensures FailuresAfter(f, t, w, visited + [id]) ==
              VisitFailures(FailuresAfter(f, t, w, visited), w, id, t[id].hiveId)
    ensures Tally(t, w, visited + [id]) == VisitCounters(Tally(t, w, visited), AnswerFor(t, w, id))
  {
    assert (visited + [id])[..|visited + [id]| - 1] == visited;
  }

  /** How a run that visited `visited` leaves the two tables and the counters. */
  ghost predicate RunEnds(t: Table, f: map<Uuid, Failure>, w: World, visited: seq<Uuid>, outcome: Outcome,
                          harvests: Table, failures: map<Uuid, Failure>, c: Counters) {
    && IsRun(t, w, visited, outcome)
    && harvests == RunTable(t, w, visited, outcome)
    && failures == FailuresAfter(f, t, w, visited)
    && c == RunCounters(t, w, visited, outcome)
  }

  /** The last visit panicked in SetUserID. */
  ghost predicate PanicEnded(t: Table, f: map<Uuid, Failure>, w: World, visited: seq<Uuid>,
                             harvests: Table, failures: map<Uuid, Failure>, c: Counters) {
    && visited != []
    && RunEnds(t, f, w, visited, SetPanic(w.setResult(visited[|visited| - 1]).LostAfter?), harvests, failures, c)
  }

  /** The rows of a batch are the next rows of the agenda. */
  ghost predicate NextRows(t: Table, rows: seq<LegacyHarvest>, start: nat) {
    && start + |rows| <= |Agenda(t)|
    && forall j | 0 <= j < |rows| ::
         rows[j].id == Agenda(t)[start + j] && rows[j].id in t && rows[j].hiveId == t[rows[j].id].hiveId
  }

  /** SetUserID failed on the row after `visited`. */
  lemma PanicEndsRun(t: Table, f: map<Uuid, Failure>, w: World, visited: seq<Uuid>, id: Uuid, applied: bool)
    requires visited + [id] <= Agenda(t) && AllIn(visited, t) && AllIn(visited + [id], t) && id in t
    requires NoWriteFails(t, w, visited) && WriteFails(t, w, id) && applied == w.setResult(id).LostAfter?
    ensures id in TableAfter(t, w, visited)
    ensures RunEnds(t, f, w, visited + [id], SetPanic(applied), PanicTable(t, w, visited, id, applied),
                    FailuresAfter(f, t, w, visited), OneMoreScanned(Tally(t, w, visited)))
  {
    var all, outcome := visited + [id], SetPanic(applied);
    VisitedOneMore(t, f, w, visited, id);
    LastVisited(visited, id, outcome);
    assert IsRun(t, w, all, outcome);
    assert FailuresAfter(f, t, w, all) == FailuresAfter(f, t, w, visited);
    assert RunTable(t, w, all, outcome) == PanicTable(t, w, visited, id, applied);
    assert RunCounters(t, w, all, outcome) == OneMoreScanned(Tally(t, w, visited));
  }

  function OneMoreScanned(c: Counters): Counters { c.(scanned := c.scanned + 1) }

  ghost function PanicTable(t: Table, w: World, visited: seq<Uuid>, id: Uuid, applied: bool): Table
    requires AllIn(visited, t) && id in t
  {
    if applied then VisitTable(TableAfter(t, w, visited), w, id) else TableAfter(t, w, visited)
  }

  lemma LastVisited(visited: seq<Uuid>, id: Uuid, outcome: Outcome)
    ensures (visited + [id])[..|visited + [id]| - 1] == visited && (visited + [id])[|visited + [id]| - 1] == id
    ensures outcome.SetPanic? ==> Completed(visited + [id], outcome) == visited
    ensures Applied(visited + [id], outcome) == if outcome == SetPanic(false) then visited else visited + [id]
  {
  }

  /** Visit the next row of the agenda. */
  method VisitNext(r: HarvestRepository, w: World, row: LegacyHarvest, visited0: seq<Uuid>, c0: Counters,
                   ghost t: Table, ghost f: map<Uuid, Failure>)
    returns (visited: seq<Uuid>, c: Counters, ok: bool)
    requires Reached(t, f, w, visited0, r.harvests, r.failures, c0)
    requires visited0 < Agenda(t) && row.id == Agenda(t)[|visited0|] && row.id in t && row.hiveId == t[row.id].hiveId
    modifies r
    ensures visited == visited0 + [row.id]
    ensures ok ==> Reached(t, f, w, visited, r.harvests, r.failures, c)
    ensures !ok ==> PanicEnded(t, f, w, visited, r.harvests, r.failures, c)
  {
    NextOnAgenda(t, visited0);
    VisitedOneMore(t, f, w, visited0, row.id);
    AnswersDoNotChange(t, w, visited0, row.id);
    c, ok := VisitRow(r, w, row, c0);
    visited := visited0 + [row.id];
    if !ok {
      PanicEndsRun(t, f, w, visited0, row.id, w.setResult(row.id).LostAfter?);
    }
  }

  lemma RowIsNext(t: Table, rows: seq<LegacyHarvest>, start: nat, j: nat, visited: seq<Uuid>)
    requires NextRows(t, rows, start) && j < |rows| && visited <= Agenda(t) && |visited| == start + j
    ensures visited < Agenda(t) && rows[j].id == Agenda(t)[|visited|]
    ensures rows[j].id in t && rows[j].hiveId == t[rows[j].id].hiveId
  {
  }

  /** The inner loop over one batch. */
  method VisitBatch(r: HarvestRepository, w: World, rows: seq<LegacyHarvest>, visited0: seq<Uuid>, c0: Counters,
                    ghost t: Table, ghost f: map<Uuid, Failure>)
    returns (visited: seq<Uuid>, c: Counters, after: Uuid, ok: bool)
    requires Reached(t, f, w, visited0, r.harvests, r.failures, c0)
    requires rows != [] && NextRows(t, rows, |visited0|)
    modifies r
    ensures ok ==> Reached(t, f, w, visited, r.harvests, r.failures, c)
    ensures ok ==> |visited| == |visited0| + |rows| && after == CursorAfter(visited)
    ensures |visited0| < |visited| <= |visited0| + |rows|
    ensures !ok ==> PanicEnded(t, f, w, visited, r.harvests, r.failures, c)
  {
    visited, c, ok, after := visited0, c0, true, NIL;
    for j := 0 to |rows|
      invariant ok && Reached(t, f, w, visited, r.harvests, r.failures, c)
      invariant |visited| == |visited0| + j
      invariant j > 0 ==> after == CursorAfter(visited)
    {
      var row := rows[j];
      RowIsNext(t, rows, |visited0|, j, visited);
      after := row.id;
      visited, c, ok := VisitNext(r, w, row, visited, c, t, f);
      if !ok {
        return;
      }
    }
  }

  lemma EndsBetweenRows(t: Table, f: map<Uuid, Failure>, w: World, visited: seq<Uuid>, outcome: Outcome,
                        harvests: Table, failures: map<Uuid, Failure>, c: Counters)
    requires Reached(t, f, w, visited, harvests, failures, c)
    requires outcome.ListPanic? || (outcome.Finished? && visited == Agenda(t))
    ensures RunEnds(t, f, w, visited, outcome, harvests, failures, c)
  {
  }

  method NextBatch(r: HarvestRepository, after: Uuid, batch: nat, ghost w: World, ghost visited: seq<Uuid>,
                   ghost c: Counters, ghost t: Table, ghost f: map<Uuid, Failure>)
    returns (rows: seq<LegacyHarvest>)
    requires batch >= 1 && Reached(t, f, w, visited, r.harvests, r.failures, c) && after == CursorAfter(visited)
    ensures NextRows(t, rows, |visited|)
    ensures |rows| == Min(batch, |Agenda(t)| - |visited|)
  {
    rows := r.ListLegacy(after, batch);
    BatchIsNext(t, w, visited, r.harvests, rows, after, batch);
  }

  /** The first `calls` pages came. */
  ghost predicate PagesCame(w: World, calls: nat) {
    forall n | 0 <= n < calls :: w.listWorks(n)
  }

  /** How far a run gets with `calls` pages of `batch` rows, out of `todo`. */
  ghost predicate PageLaw(outcome: Outcome, calls: nat, batch: nat, visited: nat, todo: nat) {
    match outcome
    case ListPanic => visited == Min(calls * batch, todo)
    case SetPanic(_) => calls >= 1 && (calls - 1) * batch < visited <= calls * batch
    case Finished =>
      && calls >= 1 && visited <= (calls - 1) * batch
      && (calls >= 2 ==> (calls - 2) * batch < visited)
  }

  /** The whole program.  `calls` counts the pages it got; it panics on the
      first page or owner write that fails, and goes past none.  It finishes
      with the first empty page, after as many pages as the agenda needs. */
  method BackfillOwners(r: HarvestRepository, batch: nat, w: World)
    returns (visited: seq<Uuid>, outcome: Outcome, c: Counters, calls: nat)
    requires batch >= 1
    modifies r
    ensures RunEnds(old(r.harvests), old(r.failures), w, visited, outcome, r.harvests, r.failures, c)
    ensures PagesCame(w, calls)
    ensures outcome.ListPanic? ==> !w.listWorks(calls)
    ensures PageLaw(outcome, calls, batch, |visited|, |Agenda(old(r.harvests))|)
  {
    ghost var t, f := r.harvests, r.failures;
    var after := NIL;
    calls := 0;
    visited, c := [], Counters(0, 0, 0, 0);
    while true
      invariant Reached(t, f, w, visited, r.harvests, r.failures, c)
      invariant after == CursorAfter(visited)
      invariant PagesCame(w, calls) && |visited| == Min(calls * batch, |Agenda(t)|)
      invariant calls >= 1 ==> (calls - 1) * batch < |visited|
      decreases |Agenda(t)| - |visited|
    {
      if !w.listWorks(calls) {
        outcome := ListPanic;
        EndsBetweenRows(t, f, w, visited, outcome, r.harvests, r.failures, c);
        return;
      }
      calls := calls + 1;
      var rows := NextBatch(r, after, batch, w, visited, c, t, f);
      if |rows| == 0 {
        outcome := Finished;
        EndsBetweenRows(t, f, w, visited, outcome, r.harvests, r.failures, c);
        return;
      }
      var ok;
      visited, c, after, ok := VisitBatch(r, w, rows, visited, c, t, f);
      if !ok {
        outcome := SetPanic(w.setResult(visited[|visited| - 1]).LostAfter?);
        return;
      }
    }
  }

  /** A page of the current selection is the next stretch of the agenda, full
      unless the agenda ends in it. */
  lemma BatchIsNext(t: Table, w: World, visited: seq<Uuid>, now: Table,
                    rows: seq<LegacyHarvest>, after: Uuid, batch: nat)
    requires batch >= 1 && visited <= Agenda(t) && AllIn(visited, t) && now == TableAfter(t, w, visited)
    requires after == CursorAfter(visited)
    requires var ids := InIdOrder(Ownerless(now, after));
             && |rows| == Min(batch, |ids|)
             && forall i | 0 <= i < |rows| ::
                  rows[i].id == ids[i] && ids[i] in now && rows[i].hiveId == now[ids[i]].hiveId
    ensures NextRows(t, rows, |visited|)
    ensures |rows| == Min(batch, |Agenda(t)| - |visited|)
  {
    var k := |visited|;
    assert visited == Agenda(t)[..k];
    SelectionIsRestOfAgenda(t, w, k);
    TableAfterRows(t, w, visited);
  }
}
