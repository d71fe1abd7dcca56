/** The PostgreSQL repository: the harvests and backfill-failure tables, and
    one method a statement. */
module Repository {
  import opened Domain
  import opened Ordering
  import opened Query

  /** `Offset()` is `(page - 1) * limit`. */
  datatype Params = Params(page: nat, limit: nat)

  predicate ValidParams(p: Params) { p.page >= 1 && p.limit >= 1 }

  function Offset(p: Params): nat
    requires ValidParams(p)
  {
    (p.page - 1) * p.limit
  }

  datatype Listed = Listed(items: seq<Harvest>, total: nat) | QueryFailed

  lemma SelectedDistinct(t: Table, hives: set<Uuid>, f: Filter)
    ensures DistinctIds(Selected(t, hives, f))
  {
  }

  /** Every wanted row of the table, in the requested order. */
  ghost function FullListing(t: Table, hives: set<Uuid>, f: Filter): seq<Harvest> {
    SelectedDistinct(t, hives, f);
    Listing(OrderOf(f.sortOrder), Selected(t, hives, f))
  }

  lemma FullListingLists(t: Table, hives: set<Uuid>, f: Filter)
    ensures forall h :: h in FullListing(t, hives, f) <==> h.id in t && t[h.id] == h && Wanted(hives, f, h)
    ensures Sorted(Less(OrderOf(f.sortOrder)), FullListing(t, hives, f))
    ensures |FullListing(t, hives, f)| == |Selected(t, hives, f)|
  {
    SelectedDistinct(t, hives, f);
    ListingLists(OrderOf(f.sortOrder), Selected(t, hives, f));
    assert forall h :: h in FullListing(t, hives, f) <==> h in Elements(FullListing(t, hives, f));
  }

  lemma LeastIsFirst(o: Order, rows: set<Harvest>, m: Harvest)
    requires DistinctIds(rows) && IsLeast(Less(o), rows, m)
    ensures Listing(o, rows) == [m] + Listing(o, rows - {m})
  {
    OrderIsTotal(o, rows);
  }

  lemma SortStep(o: Order, rows: set<Harvest>, xs: seq<Harvest>, rest: set<Harvest>, m: Harvest)
    requires DistinctIds(rows) && DistinctIds(rest) && IsLeast(Less(o), rest, m)
    requires Listing(o, rows) == xs + Listing(o, rest)
    ensures DistinctIds(rest - {m})
    ensures Listing(o, rows) == xs + [m] + Listing(o, rest - {m})
  {
    LeastIsFirst(o, rest, m);
    var tail := Listing(o, rest - {m});
    assert xs + ([m] + tail) == xs + [m] + tail;
  }

  method TakeFirst(rows: set<Harvest>, o: Order) returns (m: Harvest)
    requires DistinctIds(rows) && rows != {}
    ensures IsLeast(Less(o), rows, m)
  {
    OrderIsTotal(o, rows);
    LeastExists(Less(o), rows);
    assert exists m :: m in rows && forall x | x in rows :: x == m || Before(o, m, x) by {
      var least :| IsLeast(Less(o), rows, least);
      assert forall x | x in rows :: x == least || Less(o)(least, x);
    }
    m :| m in rows && forall x | x in rows :: x == m || Before(o, m, x);
    assert forall x | x in rows :: x == m || Less(o)(m, x);
  }

  /** ORDER BY: repeatedly take the row that comes first. */
  method SortRows(rows: set<Harvest>, o: Order) returns (xs: seq<Harvest>)
    requires DistinctIds(rows)
    ensures xs == Listing(o, rows)
  {
    xs := [];
    var rest := rows;
    while rest != {}
      invariant DistinctIds(rest)
      invariant Listing(o, rows) == xs + Listing(o, rest)
      decreases |rest|
    {
      var m := TakeFirst(rest, o);
      SortStep(o, rows, xs, rest, m);
      xs := xs + [m];
      rest := rest - {m};
    }
  }

  /** The rows of `t` under well-bound conditions. */
  method Where(t: Table, cs: seq<Condition>, args: seq<Argument>) returns (rows: set<Harvest>)
    requires AllBind(cs, args)
    ensures rows == Rows(t, cs, args)
  {
    rows := set id | id in t && AllHold(cs, args, t[id]) :: t[id];
  }

  /** The list query: two statements, the count on one state of the table and
      the page on the next. */
  method ListAcross(counted: Table, listed: Table, hiveIds: seq<Uuid>, p: Params, f: Filter) returns (r: Listed)
    requires ValidParams(p)
    ensures r.QueryFailed? <==> !WellFormed(f)
    ensures WellFormed(f) ==>
              r == Listed(Page(FullListing(listed, Elements(hiveIds), f), p.limit, Offset(p)),
                          |Selected(counted, Elements(hiveIds), f)|)
  {
    var count, countArgs, query, rowArgs := BuildList(hiveIds, p.limit, Offset(p), f);
    if !AllBind(count, countArgs) {
      return QueryFailed;
    }
    var total := Where(counted, count, countArgs);
    var rows := Where(listed, query.conditions, rowArgs);
    assert total == Selected(counted, Elements(hiveIds), f);
    assert rows == Selected(listed, Elements(hiveIds), f);
    SelectedDistinct(listed, Elements(hiveIds), f);
    var sorted := SortRows(rows, query.order);
    var limit := rowArgs[query.limitIdx - 1].count;
    var offset := rowArgs[query.offsetIdx - 1].count;
    r := Listed(Page(sorted, limit, offset), |total|);
  }

  /** The list query while nothing else writes the table. */
  method List(t: Table, hiveIds: seq<Uuid>, p: Params, f: Filter) returns (r: Listed)
    requires ValidParams(p)
    ensures r.QueryFailed? <==> !WellFormed(f)
    ensures WellFormed(f) ==>
              var all := FullListing(t, Elements(hiveIds), f);
              r == Listed(Page(all, p.limit, Offset(p)), |all|)
  {
    r := ListAcross(t, t, hiveIds, p, f);
    FullListingLists(t, Elements(hiveIds), f);
  }

  /** One hive's listing goes through the same query. */
  method ListByHive(counted: Table, listed: Table, hiveId: Uuid, p: Params, f: Filter) returns (r: Listed)
    requires ValidParams(p)
    ensures r.QueryFailed? <==> !WellFormed(f)
    ensures WellFormed(f) ==>
              r == Listed(Page(FullListing(listed, {hiveId}, f), p.limit, Offset(p)), |Selected(counted, {hiveId}, f)|)
  {
    assert Elements([hiveId]) == {hiveId};
    r := ListAcross(counted, listed, [hiveId], p, f);
  }

  // ----- the statements that read or write single rows

  /** A row of the backfill failure table; no code ever sets a resolved time. */
  datatype Failure = Failure(hiveId: Uuid, reason: string, attempts: nat)

  /** What a backfill reads of a row without an owner. */
  datatype LegacyHarvest = LegacyHarvest(id: Uuid, hiveId: Uuid)

  ghost function IdsUnder(t: Table, hive: Uuid): set<Uuid> {
    set id | id in t && t[id].hiveId == hive
  }

  /** The CHECK constraints of the table. */
  predicate Storable(h: Harvest) {
    ValidProduct(h.product) && h.amount >= 0.0 && ValidUnit(h.unit)
  }

  datatype Written = Stored | RowMissing | Rejected

  function WithoutHive(t: Table, hive: Uuid): Table {
    map id | id in t && t[id].hiveId != hive :: t[id]
  }

  function WithoutUser(t: Table, user: Uuid): Table {
    map id | id in t && t[id].userId != Some(user) :: t[id]
  }

  function WithoutRow(t: Table, hive: Uuid, id: Uuid): Table {
    if id in t && t[id].hiveId == hive then t - {id} else t
  }

  /** The UPDATE of the five editable columns of one row under its hive. */
  function WithEdit(t: Table, h: Harvest): Table {
    if h.id in t && t[h.id].hiveId == h.hiveId then
      t[h.id := t[h.id].(product := h.product, amount := h.amount, unit := h.unit,
                         harvestedAt := h.harvestedAt, updatedAt := h.updatedAt)]
    else t
  }

  /** The UPDATE that gives a row its owner, once. */
  function WithOwner(t: Table, id: Uuid, user: Uuid, now: int): Table {
    if id in t && t[id].userId.None? then t[id := t[id].(userId := Some(user), updatedAt := now)] else t
  }

  /** The upsert of a failed backfill visit. */
  function WithFailure(f: map<Uuid, Failure>, id: Uuid, hive: Uuid, reason: string): map<Uuid, Failure> {
    if id in f then f[id := f[id].(reason := reason, attempts := f[id].attempts + 1)]
    else f[id := Failure(hive, reason, 1)]
  }

  function IdLess(): (Uuid, Uuid) -> bool { (a: Uuid, b: Uuid) => a < b }

  lemma IdOrder(s: set<Uuid>)
    ensures StrictTotal(IdLess(), s)
  {
  }

  ghost function InIdOrder(s: set<Uuid>): seq<Uuid> {
    IdOrder(s);
    OrderBy(IdLess(), s)
  }

  lemma InIdOrderLists(s: set<Uuid>)
    ensures Sorted(IdLess(), InIdOrder(s)) && Elements(InIdOrder(s)) == s && |InIdOrder(s)| == |s|
  {
    IdOrder(s);
    OrderByLists(IdLess(), s);
  }

  /** The ids of the ownerless rows above a cursor. */
  ghost function Ownerless(t: Table, after: Uuid): set<Uuid> {
    set id | id in t && t[id].userId.None? && id > after
  }

  class HarvestRepository {
    var harvests: Table
    var failures: map<Uuid, Failure>

    constructor ()
      ensures harvests == map[] && failures == map[]
    {
      harvests, failures := map[], map[];
    }

    /** INSERT; a taken id violates the primary key. */
    method Create(h: Harvest) returns (ok: bool)
      modifies this`harvests
      ensures ok <==> h.id !in old(harvests) && Storable(h)
      ensures harvests == if ok then old(harvests)[h.id := h] else old(harvests)
    {
      ok := h.id !in harvests && Storable(h);
      if ok {
        harvests := harvests[h.id := h];
      }
    }

    method GetByID(hive: Uuid, id: Uuid) returns (r: Option<Harvest>)
      ensures r.Some? <==> id in harvests && harvests[id].hiveId == hive
      ensures r.Some? ==> r.value == harvests[id]
    {
      r := if id in harvests && harvests[id].hiveId == hive then Some(harvests[id]) else None;
    }

    method Update(h: Harvest) returns (r: Written)
      modifies this`harvests
      ensures r.RowMissing? <==> !(h.id in old(harvests) && old(harvests)[h.id].hiveId == h.hiveId)
      ensures r.Rejected? <==> !r.RowMissing? && !Storable(h)
      ensures !r.Stored? ==> harvests == old(harvests)
      ensures harvests.Keys == old(harvests).Keys
      ensures forall other | other in harvests && other != h.id :: harvests[other] == old(harvests)[other]
      ensures r.Stored? ==>
                var was := old(harvests)[h.id];
                harvests[h.id] == Harvest(was.id, was.hiveId, was.userId, h.product, h.amount, h.unit, h.harvestedAt,
                                          was.createdAt, h.updatedAt)
    {
      if !(h.id in harvests && harvests[h.id].hiveId == h.hiveId) {
        return RowMissing;
      }
      if !Storable(h) {
        return Rejected;
      }
      harvests := WithEdit(harvests, h);
      r := Stored;
    }

    method Delete(hive: Uuid, id: Uuid) returns (found: bool)
      modifies this`harvests
      ensures found <==> id in old(harvests) && old(harvests)[id].hiveId == hive
      ensures forall other :: other in harvests <==> other in old(harvests) && !(found && other == id)
      ensures forall other | other in harvests :: harvests[other] == old(harvests)[other]
    {
      found := id in harvests && harvests[id].hiveId == hive;
      harvests := WithoutRow(harvests, hive, id);
    }

    /** SELECT id ... WHERE hive_id = $1, in no particular order. */
    method ListIDsByHive(hive: Uuid) returns (ids: seq<Uuid>)
      ensures Elements(ids) == IdsUnder(harvests, hive)
      ensures forall id :: id in ids <==> id in harvests && harvests[id].hiveId == hive
      ensures forall i, j | 0 <= i < j < |ids| :: ids[i] != ids[j]
    {
      ids := [];
      var rest := set id | id in harvests && harvests[id].hiveId == hive;
      while rest != {}
        invariant Elements(ids) !! rest && Elements(ids) + rest == IdsUnder(harvests, hive)
        invariant forall i, j | 0 <= i < j < |ids| :: ids[i] != ids[j]
        decreases |rest|
      {
        var id :| id in rest;
        assert id !in Elements(ids);
        assert Elements(ids + [id]) == Elements(ids) + {id};
        ids := ids + [id];
        rest := rest - {id};
      }
      assert forall id :: id in ids <==> id in Elements(ids);
    }

    method DeleteByHive(hive: Uuid) returns (ids: seq<Uuid>)
      modifies this`harvests
      ensures forall id :: id in ids <==> id in old(harvests) && old(harvests)[id].hiveId == hive
      ensures Elements(ids) == IdsUnder(old(harvests), hive)
      ensures forall id :: id in harvests <==> id in old(harvests) && old(harvests)[id].hiveId != hive
      ensures forall id | id in harvests :: harvests[id] == old(harvests)[id]
    {
      ids := ListIDsByHive(hive);
      harvests := WithoutHive(harvests, hive);
    }

    method DeleteAllByUser(user: Uuid)
      modifies this`harvests
      ensures forall id :: id in harvests <==> id in old(harvests) && old(harvests)[id].userId != Some(user)
      ensures forall id | id in harvests :: harvests[id] == old(harvests)[id]
    {
      harvests := WithoutUser(harvests, user);
    }

    /** Ownerless rows above the cursor, by id, at most `limit` of them. */
    method ListLegacy(after: Uuid, limit: nat) returns (rows: seq<LegacyHarvest>)
      ensures var ids := InIdOrder(Ownerless(harvests, after));
              && |rows| == Min(limit, |ids|)
              && forall i | 0 <= i < |rows| :: rows[i].id == ids[i] && ids[i] in harvests &&
                                               rows[i].hiveId == harvests[ids[i]].hiveId
    {
      var ids := SortedIds(set id | id in harvests && harvests[id].userId.None? && id > after);
      InIdOrderLists(Ownerless(harvests, after));
      rows := [];
      for i := 0 to Min(limit, |ids|)
        invariant |rows| == i
        invariant forall j | 0 <= j < i :: rows[j].id == ids[j] && ids[j] in harvests &&
                                           rows[j].hiveId == harvests[ids[j]].hiveId
      {
        assert ids[i] in Elements(ids);
        rows := rows + [LegacyHarvest(ids[i], harvests[ids[i]].hiveId)];
      }
    }

    /** Every other row and every owned row stay as they are. */
    method SetUserID(id: Uuid, user: Uuid, now: int)
      modifies this`harvests
      ensures harvests.Keys == old(harvests).Keys
      ensures forall other | other in harvests && other != id :: harvests[other] == old(harvests)[other]
      ensures forall other | other in harvests && old(harvests)[other].userId.Some? ::
                harvests[other] == old(harvests)[other]
      ensures id in harvests && old(harvests)[id].userId.None? ==>
                && harvests[id].userId == Some(user) && harvests[id].updatedAt == now
                && harvests[id].(userId := None, updatedAt := 0) == old(harvests)[id].(updatedAt := 0)
    {
      if id in harvests && harvests[id].userId.None? {
        harvests := harvests[id := harvests[id].(userId := Some(user), updatedAt := now)];
      }
    }

    /** One more attempt, or a first one; records of other rows stay. */
    method RecordBackfillFailure(id: Uuid, hive: Uuid, reason: string)
      modifies this`failures
      ensures failures.Keys == old(failures).Keys + {id}
      ensures forall other | other in old(failures) && other != id :: failures[other] == old(failures)[other]
      ensures failures[id].reason == reason
      ensures failures[id].attempts == (if id in old(failures) then old(failures)[id].attempts else 0) + 1
      ensures failures[id].hiveId == if id in old(failures) then old(failures)[id].hiveId else hive
    {
      if id in failures {
        failures := failures[id := failures[id].(reason := reason, attempts := failures[id].attempts + 1)];
      } else {
        failures := failures[id := Failure(hive, reason, 1)];
      }
    }
  }

  lemma IdSortStep(all: set<Uuid>, ids: seq<Uuid>, rest: set<Uuid>, m: Uuid)
    requires InIdOrder(all) == ids + InIdOrder(rest)
    requires m in rest && forall x | x in rest :: m <= x
    ensures InIdOrder(all) == ids + [m] + InIdOrder(rest - {m})
  {
    IdOrder(rest);
    assert IsLeast(IdLess(), rest, m);
    assert InIdOrder(rest) == [m] + InIdOrder(rest - {m});
    assert ids + ([m] + InIdOrder(rest - {m})) == ids + [m] + InIdOrder(rest - {m});
  }

  lemma LeastIdExists(s: set<Uuid>)
    requires s != {}
    ensures exists m :: m in s && forall x | x in s :: m <= x
  {
    IdOrder(s);
    LeastExists(IdLess(), s);
    var m :| IsLeast(IdLess(), s, m);
    forall x | x in s ensures m <= x {
      assert x == m || IdLess()(m, x);
    }
  }

  method LeastId(s: set<Uuid>) returns (m: Uuid)
    requires s != {}
    ensures m in s && forall x | x in s :: m <= x
  {
    LeastIdExists(s);
    m :| m in s && forall x | x in s :: m <= x;
  }

  /** ORDER BY id. */
  method SortedIds(s: set<Uuid>) returns (ids: seq<Uuid>)
    ensures ids == InIdOrder(s)
  {
    ids := [];
    var rest := s;
    while rest != {}
      invariant InIdOrder(s) == ids + InIdOrder(rest)
      decreases |rest|
    {
      var m := LeastId(rest);
      IdSortStep(s, ids, rest, m);
      ids := ids + [m];
      rest := rest - {m};
    }
  }
}
