/** Properties of every run of calls: what callers can learn of each other's
    records, and where each stored record came from. */
module ServiceRuns {
  import opened Domain
  import opened Ordering
  import opened Query
  import opened Repository
  import opened HiveClient
  import opened Service

  ghost predicate ValidCalls(calls: seq<Call>) {
    forall i | 0 <= i < |calls| :: ValidCall(calls[i])
  }

  ghost function After(t: Table, calls: seq<Call>): Table
    requires ValidCalls(calls)
    decreases |calls|
  {
    if calls == [] then t else After(Step(t, calls[0]).0, calls[1..])
  }

  /** The id a call generates, when it is one that inserts. */
  predicate Inserts(c: Call) {
    c.op.Create? && c.verdict.Granted? && c.verdict.writable
  }

  /** Generated ids are new: never stored in `used`, never generated twice. */
  ghost predicate NewIds(used: set<Uuid>, calls: seq<Call>) {
    && (forall i | 0 <= i < |calls| && Inserts(calls[i]) :: calls[i].freshId !in used)
    && (forall i, j | 0 <= i < j < |calls| && Inserts(calls[i]) && Inserts(calls[j]) ::
          calls[i].freshId != calls[j].freshId)
  }

  lemma StepKeys(t: Table, c: Call)
    requires ValidCall(c)
    ensures Step(t, c).0.Keys <= t.Keys + (if Inserts(c) then {c.freshId} else {})
  {
  }

  lemma NewIdsTail(t: Table, calls: seq<Call>)
    requires calls != [] && ValidCalls(calls) && NewIds(t.Keys, calls)
    ensures ValidCalls(calls[1..]) && NewIds(Step(t, calls[0]).0.Keys, calls[1..])
  {
    StepKeys(t, calls[0]);
    forall i | 0 <= i < |calls[1..]| && Inserts(calls[1..][i])
      ensures calls[1..][i].freshId !in Step(t, calls[0]).0.Keys
    {
      assert calls[1..][i] == calls[i + 1];
    }
  }

  // ----- who may see and touch what

  /** The records under a set of hives. */
  ghost function View(t: Table, hives: set<Uuid>): Table {
    map id | id in t && t[id].hiveId in hives :: t[id]
  }

  /** The hives whose records a call may look at: those hive-service granted. */
  ghost function Reads(c: Call): set<Uuid> {
    match c.op
    case DeleteAllByUser(_) => {}
    case ListAll(_, _) => if c.owned.Owned? then Elements(c.owned.ids) else {}
    case _ => if c.verdict.Granted? then {c.op.hive} else {}
  }

  /** The hives under which a call may change records.  Changing needs a
      writable hive, deleting only an owned one. */
  ghost function Writes(c: Call): set<Uuid> {
    match c.op
    case Create(_, _, _) => if c.verdict.Granted? && c.verdict.writable then {c.op.hive} else {}
    case Update(_, _, _) => if c.verdict.Granted? && c.verdict.writable then {c.op.hive} else {}
    case Delete(_, _) => if c.verdict.Granted? then {c.op.hive} else {}
    case DeleteByHive(_) => if c.verdict.Granted? then {c.op.hive} else {}
    case _ => {}
  }

  lemma SelectedOfView(t: Table, hives: set<Uuid>, v: set<Uuid>, f: Filter)
    requires hives <= v
    ensures Selected(View(t, v), hives, f) == Selected(t, hives, f)
  {
    var a, b := Selected(View(t, v), hives, f), Selected(t, hives, f);
    forall h | h in b ensures h in a {
      assert View(t, v)[h.id] == h;
    }
  }

  lemma ListResponseOfView(t1: Table, t2: Table, hives: set<Uuid>, v: set<Uuid>, p: Params, f: Filter)
    requires ValidParams(p) && hives <= v && View(t1, v) == View(t2, v)
    ensures ListResponse(t1, hives, p, f) == ListResponse(t2, hives, p, f)
  {
    SelectedOfView(t1, hives, v, f);
    SelectedOfView(t2, hives, v, f);
  }

  lemma SameUnderHive(t1: Table, t2: Table, v: set<Uuid>, hive: Uuid)
    requires hive in v && View(t1, v) == View(t2, v)
    ensures IdsUnder(t1, hive) == IdsUnder(t2, hive)
    ensures forall id | id in IdsUnder(t1, hive) :: id in t2 && t1[id] == t2[id]
  {
    forall id ensures id in IdsUnder(t1, hive) <==> id in IdsUnder(t2, hive) {
      if id in IdsUnder(t1, hive) { assert id in View(t1, v); }
      if id in IdsUnder(t2, hive) { assert id in View(t2, v); }
    }
    forall id | id in IdsUnder(t1, hive) ensures id in t2 && t1[id] == t2[id] {
      assert View(t1, v)[id] == View(t2, v)[id];
    }
  }

  /** A call answers from, and acts on, the records under granted hives only:
      two tables that agree on those give the same answer and still agree. */
  lemma StepSeesOnlyView(t1: Table, t2: Table, v: set<Uuid>, c: Call)
    requires ValidCall(c) && View(t1, v) == View(t2, v) && Reads(c) <= v
    requires Inserts(c) ==> c.freshId !in t1 && c.freshId !in t2
    ensures Step(t1, c).1 == Step(t2, c).1
    ensures View(Step(t1, c).0, v) == View(Step(t2, c).0, v)
  {
    match c.op
    case List(hive, page, filter) =>
      if c.verdict.Granted? {
        ListResponseOfView(t1, t2, {hive}, v, page, filter);
      }
    case ListAll(page, filter) =>
      if c.owned.Owned? {
        ListResponseOfView(t1, t2, Elements(c.owned.ids), v, page, filter);
      }
    case DeleteAllByUser(user) =>
      ViewWithoutUser(t1, v, user);
      ViewWithoutUser(t2, v, user);
    case Create(hive, owner, content) =>
      if Inserts(c) {
        var h := NewHarvest(c.freshId, hive, owner, content, c.now);
        ViewWithRow(t1, v, h);
        ViewWithRow(t2, v, h);
      }
    case Get(hive, id) =>
      if c.verdict.Granted? { SameUnderHive(t1, t2, v, hive); SameRow(t1, t2, hive, id); }
    case Update(hive, id, content) =>
      if c.verdict.Granted? && c.verdict.writable {
        SameUnderHive(t1, t2, v, hive);
        SameRow(t1, t2, hive, id);
        if id in IdsUnder(t1, hive) {
          ViewWithRow(t1, v, Edited(t1[id], content, c.now));
          ViewWithRow(t2, v, Edited(t1[id], content, c.now));
        }
      }
    case Delete(hive, id) =>
      if c.verdict.Granted? {
        SameUnderHive(t1, t2, v, hive);
        SameRow(t1, t2, hive, id);
        ViewWithoutRows(t1, v, {id});
        ViewWithoutRows(t2, v, {id});
      }
    case DeleteByHive(hive) =>
      if c.verdict.Granted? {
        SameUnderHive(t1, t2, v, hive);
        ViewWithoutHive(t1, v, hive);
        ViewWithoutHive(t2, v, hive);
      }
  }

  lemma SameRow(t1: Table, t2: Table, hive: Uuid, id: Uuid)
    requires IdsUnder(t1, hive) == IdsUnder(t2, hive)
    requires forall x | x in IdsUnder(t1, hive) :: x in t2 && t1[x] == t2[x]
    ensures (id in t1 && t1[id].hiveId == hive) <==> (id in t2 && t2[id].hiveId == hive)
    ensures id in t1 && t1[id].hiveId == hive ==> t1[id] == t2[id]
  {
    assert id in t1 && t1[id].hiveId == hive <==> id in IdsUnder(t1, hive);
    assert id in t2 && t2[id].hiveId == hive <==> id in IdsUnder(t2, hive);
  }

  lemma ViewWithoutUser(t: Table, v: set<Uuid>, user: Uuid)
    ensures View(WithoutUser(t, user), v) == WithoutUser(View(t, v), user)
  {
  }

  lemma ViewWithRow(t: Table, v: set<Uuid>, h: Harvest)
    requires h.id in t ==> t[h.id].hiveId == h.hiveId
    ensures View(t[h.id := h], v) == if h.hiveId in v then View(t, v)[h.id := h] else View(t, v)
  {
  }

  lemma ViewWithoutRows(t: Table, v: set<Uuid>, ids: set<Uuid>)
    ensures View(t - ids, v) == View(t, v) - ids
  {
  }

  lemma ViewWithoutHive(t: Table, v: set<Uuid>, hive: Uuid)
    ensures View(WithoutHive(t, hive), v) == WithoutHive(View(t, v), hive)
  {
  }

  /** A call changes nothing outside the hives it may write under. */
  lemma StepKeepsOthers(t: Table, v: set<Uuid>, c: Call)
    requires ValidCall(c) && !c.op.DeleteAllByUser? && Writes(c) !! v
    ensures View(Step(t, c).0, v) == View(t, v)
  {
    match c.op
    case Create(hive, owner, content) =>
      if c.freshId !in t {
        ViewWithRow(t, v, NewHarvest(c.freshId, hive, owner, content, c.now));
      }
    case Update(hive, id, content) =>
      if id in t && t[id].hiveId == hive {
        ViewWithRow(t, v, Edited(t[id], content, c.now));
      }
    case _ =>
  }

  // ----- non-interference over runs

  /** The calls an observer of the hives `v` makes: they look only there.
      Account deletions belong to every observer's world. */
  ghost predicate Observed(c: Call, v: set<Uuid>) {
    Reads(c) <= v
  }

  /** Every other call leaves `v` alone: who may not even look may not write,
      and looking across hives writes nothing. */
  lemma OthersStayAway(c: Call, v: set<Uuid>)
    requires !Observed(c, v)
    ensures !c.op.DeleteAllByUser? && Writes(c) !! v
  {
    assert c.op.ListAll? || Writes(c) <= Reads(c);
  }

  /** What the observer is told in a run. */
  ghost function Told(t: Table, calls: seq<Call>, v: set<Uuid>): seq<Response>
    requires ValidCalls(calls)
    decreases |calls|
  {
    if calls == [] then []
    else (if Observed(calls[0], v) then [Step(t, calls[0]).1] else []) + Told(Step(t, calls[0]).0, calls[1..], v)
  }

  /** The run with everybody else's calls left out. */
  ghost function Purged(calls: seq<Call>, v: set<Uuid>): seq<Call> {
    if calls == [] then []
    else (if Observed(calls[0], v) then [calls[0]] else []) + Purged(calls[1..], v)
  }

  lemma HeadStaysNew(used: set<Uuid>, calls: seq<Call>, tail: seq<Call>)
    requires calls != [] && NewIds(used, calls) && NewIds(used, tail)
    requires forall c | c in tail :: c in calls[1..]
    ensures NewIds(used, [calls[0]] + tail)
  {
    forall j | 0 <= j < |tail| && Inserts(calls[0]) && Inserts(tail[j]) ensures calls[0].freshId != tail[j].freshId {
      assert tail[j] in calls[1..];
      var k :| 0 <= k < |calls[1..]| && calls[1..][k] == tail[j];
      assert calls[k + 1] == tail[j];
    }
  }

  lemma {:induction false} PurgedKeepsValid(used: set<Uuid>, calls: seq<Call>, v: set<Uuid>)
    requires ValidCalls(calls) && NewIds(used, calls)
    ensures ValidCalls(Purged(calls, v)) && NewIds(used, Purged(calls, v))
    ensures forall c | c in Purged(calls, v) :: c in calls
    decreases |calls|
  {
    if calls == [] {
    } else {
      var rest := calls[1..];
      DropFirst(used, calls);
      assert forall i | 0 <= i < |rest| :: rest[i] == calls[i + 1];
      PurgedKeepsValid(used, rest, v);
      var tail := Purged(rest, v);
      if Observed(calls[0], v) {
        assert Purged(calls, v) == [calls[0]] + tail;
        HeadStaysNew(used, calls, tail);
      } else {
        assert Purged(calls, v) == tail;
      }
    }
  }

  /** Non-interference: whatever other callers do under other hives, and
      whatever records lie there, the observer of `v` is told exactly what it
      would be told alone, over any table that agrees on `v`. */
  lemma {:induction false} NonInterference(t1: Table, t2: Table, calls: seq<Call>, v: set<Uuid>)
    requires ValidCalls(calls)
    requires NewIds(t1.Keys, calls) && NewIds(t2.Keys, calls) && View(t1, v) == View(t2, v)
    ensures ValidCalls(Purged(calls, v))
    ensures Told(t1, calls, v) == Told(t2, Purged(calls, v), v)
    ensures View(After(t1, calls), v) == View(After(t2, Purged(calls, v)), v)
    decreases |calls|
  {
    PurgedKeepsValid(t2.Keys, calls, v);
    if calls == [] {
    } else {
      var c, rest := calls[0], calls[1..];
      var n1 := Step(t1, c).0;
      NewIdsTail(t1, calls);
      if Observed(c, v) {
        StepSeesOnlyView(t1, t2, v, c);
        NewIdsTail(t2, calls);
        NonInterference(n1, Step(t2, c).0, rest, v);
        ToldHead(t2, c, Purged(rest, v), v);
      } else {
        OthersStayAway(c, v);
        StepKeepsOthers(t1, v, c);
        DropFirst(t2.Keys, calls);
        NonInterference(n1, t2, rest, v);
        assert Purged(calls, v) == [] + Purged(rest, v) == Purged(rest, v);
        assert Told(t1, calls, v) == [] + Told(n1, rest, v) == Told(n1, rest, v);
      }
    }
  }

  lemma ToldHead(t: Table, c: Call, rest: seq<Call>, v: set<Uuid>)
    requires ValidCall(c) && ValidCalls(rest) && Observed(c, v)
    ensures ValidCalls([c] + rest)
    ensures Told(t, [c] + rest, v) == [Step(t, c).1] + Told(Step(t, c).0, rest, v)
    ensures After(t, [c] + rest) == After(Step(t, c).0, rest)
  {
    assert ([c] + rest)[1..] == rest;
  }

  lemma DropFirst(used: set<Uuid>, calls: seq<Call>)
    requires calls != [] && NewIds(used, calls)
    ensures NewIds(used, calls[1..])
  {
    assert forall i | 0 <= i < |calls[1..]| :: calls[1..][i] == calls[i + 1];
  }

  // ----- where records come from

  ghost predicate ValidTable(t: Table) {
    forall id | id in t :: ValidContent(t[id].product, t[id].amount, t[id].unit)
  }

  /** The request validator let the content of every create and update through. */
  predicate Validated(c: Call) {
    match c.op
    case Create(_, _, content) => ValidContent(content.product, content.amount, content.unit)
    case Update(_, _, content) => ValidContent(content.product, content.amount, content.unit)
    case _ => true
  }

  /** Every reachable table holds allowed product/unit pairs and no negative amount. */
  lemma {:induction false} RunsKeepContentValid(t: Table, calls: seq<Call>)
    requires ValidCalls(calls) && ValidTable(t) && forall i | 0 <= i < |calls| :: Validated(calls[i])
    ensures ValidTable(After(t, calls))
    decreases |calls|
  {
    if calls == [] {
    } else {
      assert Validated(calls[0]);
      forall i | 0 <= i < |calls[1..]| ensures Validated(calls[1..][i]) {
        assert Validated(calls[i + 1]);
      }
      RunsKeepContentValid(Step(t, calls[0]).0, calls[1..]);
    }
  }

  /** A call that edits this row: an update of it, under its hive, granted and writable. */
  predicate EditsRow(c: Call, h: Harvest) {
    c.op.Update? && c.op.id == h.id && c.op.hive == h.hiveId && c.verdict == Granted(true)
  }

  /** A call that may remove this row: a delete under its hive, granted whether
      writable or not, or the deletion of the account that owns it. */
  predicate RemovesRow(c: Call, h: Harvest) {
    || (c.op.Delete? && c.op.id == h.id && c.op.hive == h.hiveId && c.verdict.Granted?)
    || (c.op.DeleteByHive? && c.op.hive == h.hiveId && c.verdict.Granted?)
    || (c.op.DeleteAllByUser? && h.userId == Some(c.op.user))
  }

  /** A call that inserts this row: its id, hive, owner and creation time. */
  predicate CreatesRow(c: Call, h: Harvest) {
    && c.op.Create? && c.verdict == Granted(true)
    && c.freshId == h.id && c.op.hive == h.hiveId && c.op.owner == h.userId && c.now == h.createdAt
  }

  /** The call's content and time are what the row holds. */
  predicate Wrote(c: Call, h: Harvest) {
    && (c.op.Create? || c.op.Update?)
    && c.op.content == Content(h.product, h.amount, h.unit, h.harvestedAt) && c.now == h.updatedAt
  }

  predicate SameIdentity(a: Harvest, b: Harvest) {
    a.id == b.id && a.hiveId == b.hiveId && a.userId == b.userId && a.createdAt == b.createdAt
  }

  lemma StepProvenance(t: Table, c: Call, id: Uuid)
    requires ValidCall(c) && (Inserts(c) ==> c.freshId !in t)
    ensures id in t && id in Step(t, c).0 ==> SameIdentity(t[id], Step(t, c).0[id])
    ensures id in t && id in Step(t, c).0 && Step(t, c).0[id] != t[id] ==>
              EditsRow(c, t[id]) && Wrote(c, Step(t, c).0[id])
    ensures id in t && id !in Step(t, c).0 ==> RemovesRow(c, t[id])
    ensures id !in t && id in Step(t, c).0 ==> CreatesRow(c, Step(t, c).0[id]) && Wrote(c, Step(t, c).0[id])
  {
  }

  /** Over every run a stored record keeps its id, hive, owner and creation
      time.  It goes only by a delete granted on its hive or with its owner's
      account, comes only from a create granted on its writable hive, and what
      it holds is what it held before or what a call wrote: an update granted on
      its writable hive, or its own create. */
  lemma {:induction false} RunProvenance(t: Table, calls: seq<Call>, id: Uuid)
    requires ValidCalls(calls) && NewIds(t.Keys, calls)
    ensures var end := After(t, calls);
            && (id in t && id in end ==> SameIdentity(t[id], end[id]))
            && (id in t && id in end && end[id] != t[id] ==> SomeEdits(calls, end[id]))
            && (id in t && id !in end ==> SomeRemoves(calls, t[id]))
            && (id !in t && id in end ==> SomeCreates(calls, end[id]) && SomeWrites(calls, end[id]))
    decreases |calls|
  {
    if calls == [] {
    } else {
      var c, rest := calls[0], calls[1..];
      var next, end := Step(t, c).0, After(t, calls);
      NewIdsTail(t, calls);
      StepProvenance(t, c, id);
      RunProvenance(next, rest, id);
      if id in t {
        if id in next {
          SameIdentitySameRemoves(rest, next[id], t[id]);
        } else {
          StaysGone(t, calls, id);
        }
        SomeCallOfRun(calls, t[id]);
      }
      if id in end {
        SomeCallOfRun(calls, end[id]);
      }
    }
  }

  ghost predicate SomeEdits(calls: seq<Call>, h: Harvest) {
    exists i :: 0 <= i < |calls| && EditsRow(calls[i], h) && Wrote(calls[i], h)
  }

  ghost predicate SomeRemoves(calls: seq<Call>, h: Harvest) {
    exists i :: 0 <= i < |calls| && RemovesRow(calls[i], h)
  }

  ghost predicate SomeCreates(calls: seq<Call>, h: Harvest) {
    exists i :: 0 <= i < |calls| && CreatesRow(calls[i], h)
  }

  ghost predicate SomeWrites(calls: seq<Call>, h: Harvest) {
    exists i :: 0 <= i < |calls| && (EditsRow(calls[i], h) || CreatesRow(calls[i], h)) && Wrote(calls[i], h)
  }

  /** What the first call or some later call did, some call did. */
  lemma SomeCallOfRun(calls: seq<Call>, h: Harvest)
    requires calls != []
    ensures (EditsRow(calls[0], h) && Wrote(calls[0], h)) || SomeEdits(calls[1..], h) ==> SomeEdits(calls, h)
    ensures RemovesRow(calls[0], h) || SomeRemoves(calls[1..], h) ==> SomeRemoves(calls, h)
    ensures CreatesRow(calls[0], h) || SomeCreates(calls[1..], h) ==> SomeCreates(calls, h)
    ensures CreatesRow(calls[0], h) && Wrote(calls[0], h) ==> SomeWrites(calls, h)
    ensures SomeWrites(calls[1..], h) || SomeEdits(calls, h) ==> SomeWrites(calls, h)
  {
    assert forall i | 0 <= i < |calls[1..]| :: calls[1..][i] == calls[i + 1];
  }

  lemma SameIdentitySameRemoves(calls: seq<Call>, a: Harvest, b: Harvest)
    requires SameIdentity(a, b)
    ensures SomeRemoves(calls, a) ==> SomeRemoves(calls, b)
  {
    assert forall c :: RemovesRow(c, a) == RemovesRow(c, b);
  }

  /** A removed record never comes back. */
  lemma StaysGone(t: Table, calls: seq<Call>, id: Uuid)
    requires calls != [] && ValidCalls(calls) && NewIds(t.Keys, calls)
    requires id in t && id !in Step(t, calls[0]).0
    ensures ValidCalls(calls[1..]) && id !in After(Step(t, calls[0]).0, calls[1..])
  {
    NewIdsTail(t, calls);
    var next := Step(t, calls[0]).0;
    assert forall i | 0 <= i < |calls[1..]| :: calls[1..][i] == calls[i + 1];
    NeverInserted(next, calls[1..], id);
  }

  lemma {:induction false} NeverInserted(t: Table, calls: seq<Call>, id: Uuid)
    requires ValidCalls(calls) && id !in t
    requires forall i | 0 <= i < |calls| && Inserts(calls[i]) :: calls[i].freshId != id
    ensures id !in After(t, calls)
    decreases |calls|
  {
    if calls == [] {
    } else {
      StepKeys(t, calls[0]);
      assert forall i | 0 <= i < |calls[1..]| :: calls[1..][i] == calls[i + 1];
      NeverInserted(Step(t, calls[0]).0, calls[1..], id);
    }
  }

  /** The read and the write of an update are two statements.  Whatever runs in
      between, the update acts and answers as if it ran at the write. */
  lemma UpdateIsAtomicAtItsWrite(read: Table, between: seq<Call>, hive: Uuid, id: Uuid, content: Content, now: int)
    requires ValidCalls(between) && NewIds(read.Keys, between)
    requires id in read && read[id].hiveId == hive
    ensures var write := After(read, between);
            var h := Edited(read[id], content, now);
            var (t, r) := UpdateStep(write, Granted(true), hive, id, content, now);
            && (id in write && Storable(h) ==> t == WithEdit(write, h) && r == One(h))
            && (id in write && !Storable(h) ==> t == write && r == Refusal(Internal))
            && (id !in write ==> t == write == WithEdit(write, h) && r == Refusal(HarvestNotFound))
  {
    RunProvenance(read, between, id);
  }
}
