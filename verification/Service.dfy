/** The harvest use cases: one specification step a call, and the methods that
    perform it.  The ownership verdict of hive-service, the fresh id, the clock
    and the reminder service are inputs that may differ from call to call. */
module Service {
  import opened Domain
  import opened Ordering
  import opened Query
  import opened Repository
  import opened HiveClient

  /** What hive-service answers about a hive and the caller's token. */
  datatype Verdict = Granted(writable: bool) | NotOwned | VerifyFailed

  /** The editable fields of a request. */
  datatype Content = Content(product: string, amount: real, unit: string, harvestedAt: int)

  datatype Op =
    | Create(hive: Uuid, owner: Option<Uuid>, content: Content)
    | Get(hive: Uuid, id: Uuid)
    | List(hive: Uuid, page: Params, filter: Filter)
    | ListAll(page: Params, filter: Filter)
    | Update(hive: Uuid, id: Uuid, content: Content)
    | Delete(hive: Uuid, id: Uuid)
    | DeleteByHive(hive: Uuid)
    | DeleteAllByUser(user: Uuid)

  /** The reminder service, when configured, cleans up or fails id by id. */
  datatype Reminders = NoReminders | Reminders(cleans: Uuid -> bool)

  datatype Call = Call(op: Op, verdict: Verdict, owned: OwnedHives, freshId: Uuid, now: int, reminders: Reminders)

  datatype Error = HiveNotFound | HiveReadOnly | HarvestNotFound | Internal

  datatype Response =
    | One(harvest: Harvest)
    | Many(items: seq<Harvest>, total: nat)
    | DeletedIds(ids: set<Uuid>)
    | Done
    | Refusal(error: Error)

  predicate ValidCall(c: Call) {
    match c.op
    case List(_, page, _) => ValidParams(page)
    case ListAll(page, _) => ValidParams(page)
    case _ => true
  }

  // ----- the specification

  function VerdictError(v: Verdict): Error {
    if v.NotOwned? then HiveNotFound else Internal
  }

  function NewHarvest(id: Uuid, hive: Uuid, user: Option<Uuid>, c: Content, now: int): Harvest {
    Harvest(id, hive, user, c.product, c.amount, c.unit, c.harvestedAt, now, now)
  }

  function Edited(h: Harvest, c: Content, now: int): Harvest {
    h.(product := c.product, amount := c.amount, unit := c.unit, harvestedAt := c.harvestedAt, updatedAt := now)
  }

  function CreateStep(t: Table, v: Verdict, h: Harvest): (Table, Response) {
    if !v.Granted? then (t, Refusal(VerdictError(v)))
    else if !v.writable then (t, Refusal(HiveReadOnly))
    else if h.id in t || !Storable(h) then (t, Refusal(Internal))
    else (t[h.id := h], One(h))
  }

  function GetStep(t: Table, v: Verdict, hive: Uuid, id: Uuid): Response {
    if !v.Granted? then Refusal(VerdictError(v))
    else if id in t && t[id].hiveId == hive then One(t[id])
    else Refusal(HarvestNotFound)
  }

  ghost function ListResponse(t: Table, hives: set<Uuid>, p: Params, f: Filter): Response
    requires ValidParams(p)
  {
    if WellFormed(f)
    then Many(Page(FullListing(t, hives, f), p.limit, Offset(p)), |FullListing(t, hives, f)|)
    else Refusal(Internal)
  }

  function UpdateStep(t: Table, v: Verdict, hive: Uuid, id: Uuid, c: Content, now: int): (Table, Response) {
    if !v.Granted? then (t, Refusal(VerdictError(v)))
    else if !v.writable then (t, Refusal(HiveReadOnly))
    else if !(id in t && t[id].hiveId == hive) then (t, Refusal(HarvestNotFound))
    else
      var h := Edited(t[id], c, now);
      if Storable(h) then (t[id := h], One(h)) else (t, Refusal(Internal))
  }

  function DeleteStep(t: Table, v: Verdict, hive: Uuid, id: Uuid): (Table, Response) {
    if !v.Granted? then (t, Refusal(VerdictError(v)))
    else if id in t && t[id].hiveId == hive then (t - {id}, Done)
    else (t, Refusal(HarvestNotFound))
  }

  ghost predicate AllClean(r: Reminders, ids: set<Uuid>) {
    r.Reminders? ==> forall id | id in ids :: r.cleans(id)
  }

  ghost function DeleteByHiveStep(t: Table, v: Verdict, hive: Uuid, r: Reminders): (Table, Response) {
    if !v.Granted? then (t, Refusal(VerdictError(v)))
    else if AllClean(r, IdsUnder(t, hive)) then (WithoutHive(t, hive), DeletedIds(IdsUnder(t, hive)))
    else (t, Refusal(Internal))
  }

  /** One call: the table it leaves and the answer it gives. */
  ghost function Step(t: Table, c: Call): (Table, Response)
    requires ValidCall(c)
  {
    match c.op
    case Create(hive, user, content) => CreateStep(t, c.verdict, NewHarvest(c.freshId, hive, user, content, c.now))
    case Get(hive, id) => (t, GetStep(t, c.verdict, hive, id))
    case List(hive, page, filter) =>
      (t, if c.verdict.Granted? then ListResponse(t, {hive}, page, filter) else Refusal(VerdictError(c.verdict)))
    case ListAll(page, filter) =>
      (t, if c.owned.Owned? then ListResponse(t, Elements(c.owned.ids), page, filter) else Refusal(Internal))
    case Update(hive, id, content) => UpdateStep(t, c.verdict, hive, id, content, c.now)
    case Delete(hive, id) => DeleteStep(t, c.verdict, hive, id)
    case DeleteByHive(hive) => DeleteByHiveStep(t, c.verdict, hive, c.reminders)
    case DeleteAllByUser(user) => (WithoutUser(t, user), Done)
  }

  // ----- the code

  /** Clean the reminders of `ids` one by one, stopping at the first failure. */
  method CleanAll(r: Reminders, ids: seq<Uuid>) returns (cleaned: seq<Uuid>, ok: bool)
    ensures cleaned <= ids
    ensures r.Reminders? ==> forall id | id in cleaned :: r.cleans(id)
    ensures ok <==> AllClean(r, Elements(ids))
    ensures ok && r.Reminders? ==> cleaned == ids
    ensures !ok ==> r.Reminders? && |cleaned| < |ids| && !r.cleans(ids[|cleaned|])
    ensures r.NoReminders? ==> cleaned == []
  {
    cleaned, ok := [], true;
    if r.NoReminders? {
      return;
    }
    for i := 0 to |ids|
      invariant ok && cleaned == ids[..i]
      invariant forall id | id in cleaned :: r.cleans(id)
    {
      if !r.cleans(ids[i]) {
        ok := false;
        assert ids[i] in Elements(ids);
        return;
      }
      assert ids[..i + 1] == ids[..i] + [ids[i]];
      cleaned := cleaned + [ids[i]];
    }
    assert ids[..|ids|] == ids;
  }

  class Service {
    const repo: HarvestRepository

    constructor (repo: HarvestRepository)
      ensures this.repo == repo
    {
      this.repo := repo;
    }

    method Create(hive: Uuid, user: Option<Uuid>, content: Content, verdict: Verdict, freshId: Uuid, now: int)
      returns (r: Response)
      modifies repo`harvests
      ensures (repo.harvests, r) ==
                CreateStep(old(repo.harvests), verdict, NewHarvest(freshId, hive, user, content, now))
    {
      if !verdict.Granted? {
        return Refusal(VerdictError(verdict));
      }
      if !verdict.writable {
        return Refusal(HiveReadOnly);
      }
      var h := NewHarvest(freshId, hive, None, content, now);
      h := h.(userId := user);
      var ok := repo.Create(h);
      r := if ok then One(h) else Refusal(Internal);
    }

    method Get(hive: Uuid, id: Uuid, verdict: Verdict) returns (r: Response)
      ensures r == GetStep(repo.harvests, verdict, hive, id)
    {
      if !verdict.Granted? {
        return Refusal(VerdictError(verdict));
      }
      var found := repo.GetByID(hive, id);
      r := if found.Some? then One(found.value) else Refusal(HarvestNotFound);
    }

    method List(hive: Uuid, p: Params, f: Filter, verdict: Verdict) returns (r: Response)
      requires ValidParams(p)
      ensures r == if verdict.Granted? then ListResponse(repo.harvests, {hive}, p, f)
                   else Refusal(VerdictError(verdict))
    {
      if !verdict.Granted? {
        return Refusal(VerdictError(verdict));
      }
      var listed := Repository.List(repo.harvests, [hive], p, f);
      assert Elements([hive]) == {hive};
      r := if listed.Listed? then Many(listed.items, listed.total) else Refusal(Internal);
    }

    method ListAll(p: Params, f: Filter, owned: OwnedHives) returns (r: Response)
      requires ValidParams(p)
      ensures r == if owned.Owned? then ListResponse(repo.harvests, Elements(owned.ids), p, f) else Refusal(Internal)
    {
      if !owned.Owned? {
        return Refusal(Internal);
      }
      var listed := Repository.List(repo.harvests, owned.ids, p, f);
      r := if listed.Listed? then Many(listed.items, listed.total) else Refusal(Internal);
    }

    /** Read the row, assign its editable fields, write it back. */
    method Update(hive: Uuid, id: Uuid, content: Content, verdict: Verdict, now: int) returns (r: Response)
      modifies repo`harvests
      ensures (repo.harvests, r) == UpdateStep(old(repo.harvests), verdict, hive, id, content, now)
    {
      if !verdict.Granted? {
        return Refusal(VerdictError(verdict));
      }
      if !verdict.writable {
        return Refusal(HiveReadOnly);
      }
      var found := repo.GetByID(hive, id);
      if found.None? {
        return Refusal(HarvestNotFound);
      }
      var h := found.value;
      h := h.(product := content.product);
      h := h.(amount := content.amount);
      h := h.(unit := content.unit);
      h := h.(harvestedAt := content.harvestedAt);
      h := h.(updatedAt := now);
      var written := repo.Update(h);
      assert written.Stored? ==> repo.harvests == WithEdit(old(repo.harvests), h);
      r := match written
        case Stored => One(h)
        case RowMissing => Refusal(HarvestNotFound)
        case Rejected => Refusal(Internal);
    }

    method Delete(hive: Uuid, id: Uuid, verdict: Verdict) returns (r: Response)
      modifies repo`harvests
      ensures (repo.harvests, r) == DeleteStep(old(repo.harvests), verdict, hive, id)
    {
      if !verdict.Granted? {
        return Refusal(VerdictError(verdict));
      }
      var found := repo.Delete(hive, id);
      assert repo.harvests == WithoutRow(old(repo.harvests), hive, id);
      r := if found then Done else Refusal(HarvestNotFound);
    }

    /** The first half of the cascade: verify, list, and clean one by one. */
    method PrepareDelete(hive: Uuid, verdict: Verdict, reminders: Reminders)
      returns (refusal: Option<Error>, cleaned: seq<Uuid>)
      ensures Elements(cleaned) <= IdsUnder(repo.harvests, hive)
      ensures !verdict.Granted? ==> refusal == Some(VerdictError(verdict)) && cleaned == []
      ensures verdict.Granted? ==>
                refusal == if AllClean(reminders, IdsUnder(repo.harvests, hive)) then None else Some(Internal)
      ensures refusal.None? && reminders.Reminders? ==> Elements(cleaned) == IdsUnder(repo.harvests, hive)
      ensures reminders.Reminders? ==> forall id | id in cleaned :: reminders.cleans(id)
    {
      cleaned := [];
      if !verdict.Granted? {
        return Some(VerdictError(verdict)), cleaned;
      }
      var ids := repo.ListIDsByHive(hive);
      var ok;
      cleaned, ok := CleanAll(reminders, ids);
      assert Elements(cleaned) <= Elements(ids);
      refusal := if ok then None else Some(Internal);
    }

    /** The cascade: nothing is deleted before everything listed is clean. */
    method DeleteByHive(hive: Uuid, verdict: Verdict, reminders: Reminders) returns (r: Response, cleaned: seq<Uuid>)
      modifies repo`harvests
      ensures (repo.harvests, r) == DeleteByHiveStep(old(repo.harvests), verdict, hive, reminders)
      ensures Elements(cleaned) <= IdsUnder(old(repo.harvests), hive)
      ensures r.DeletedIds? && reminders.Reminders? ==> Elements(cleaned) == r.ids
    {
      var refusal;
      refusal, cleaned := PrepareDelete(hive, verdict, reminders);
      if refusal.Some? {
        return Refusal(refusal.value), cleaned;
      }
      var deleted := repo.DeleteByHive(hive);
      assert repo.harvests == WithoutHive(old(repo.harvests), hive);
      r := DeletedIds(set id | id in deleted);
    }

    method DeleteAllByUser(user: Uuid) returns (r: Response)
      modifies repo`harvests
      ensures repo.harvests == WithoutUser(old(repo.harvests), user) && r == Done
    {
      repo.DeleteAllByUser(user);
      r := Done;
    }

    /** Any call, performed: the code refines the specification. */
    method Serve(c: Call) returns (r: Response)
      requires ValidCall(c)
      modifies repo`harvests
      ensures (repo.harvests, r) == Step(old(repo.harvests), c)
    {
      match c.op {
        case Create(hive, owner, content) => r := Create(hive, owner, content, c.verdict, c.freshId, c.now);
        case Get(hive, id) => r := Get(hive, id, c.verdict);
        case List(hive, page, filter) => r := List(hive, page, filter, c.verdict);
        case ListAll(page, filter) => r := ListAll(page, filter, c.owned);
        case Update(hive, id, content) => r := Update(hive, id, content, c.verdict, c.now);
        case Delete(hive, id) => r := Delete(hive, id, c.verdict);
        case DeleteByHive(hive) =>
          var cleaned;
          r, cleaned := DeleteByHive(hive, c.verdict, c.reminders);
        case DeleteAllByUser(user) => r := DeleteAllByUser(user);
      }
    }
  }
}
