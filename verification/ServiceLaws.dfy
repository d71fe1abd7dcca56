/** What a caller may rely on, call by call and over runs, on the fields of the
    records and the texts of the interface. */
module ServiceLaws {
  import opened Domain
  import opened Ordering
  import opened Query
  import opened Repository
  import opened HiveClient
  import opened Service
  import opened ServiceRuns
  import opened Wire

  // ----- one call

  /** Every row but `id` is in both tables, and equal, or in neither. */
  ghost predicate SameBut(t: Table, t': Table, id: Uuid) {
    forall other | other != id :: (other in t <==> other in t') && (other in t ==> t'[other] == t[other])
  }

  predicate NamesHive(c: Call) {
    !c.op.ListAll? && !c.op.DeleteAllByUser?
  }

  /** Without ownership, and without a writable hive for creates and updates, a
      call changes nothing and is told why. */
  lemma RefusedCall(t: Table, c: Call)
    requires ValidCall(c) && NamesHive(c)
    ensures c.verdict == NotOwned ==> Step(t, c) == (t, Refusal(HiveNotFound))
    ensures c.verdict == VerifyFailed ==> Step(t, c) == (t, Refusal(Internal))
    ensures (c.op.Create? || c.op.Update?) && c.verdict == Granted(false) ==> Step(t, c) == (t, Refusal(HiveReadOnly))
  {
  }

  /** What the validated content of a request is. */
  lemma ContentOnText(product: string, amount: real, unit: string)
    ensures ValidContent(product, amount, unit) <==> AllowedPair(product, unit) && amount >= 0.0
  {
  }

  /** A granted create stores exactly the record it is answered with, under a
      free id, when the constraints admit it; else nothing. */
  lemma CreateStores(t: Table, c: Call)
    requires ValidCall(c) && c.op.Create? && c.verdict == Granted(true)
    ensures var (t', r) := Step(t, c);
            var content := c.op.content;
            if c.freshId !in t && Admissible(content.product, content.amount, content.unit) then
              && r == One(Harvest(c.freshId, c.op.hive, c.op.owner, content.product, content.amount, content.unit,
                                  content.harvestedAt, c.now, c.now))
              && c.freshId in t' && t'[c.freshId] == r.harvest && SameBut(t, t', c.freshId)
            else t' == t && r == Refusal(Internal)
  {
  }

  /** A granted read answers the record stored under that hive, and changes nothing. */
  lemma GetReads(t: Table, c: Call)
    requires ValidCall(c) && c.op.Get? && c.verdict.Granted?
    ensures Step(t, c).0 == t
    ensures Step(t, c).1 == if c.op.id in t && t[c.op.id].hiveId == c.op.hive then One(t[c.op.id])
                            else Refusal(HarvestNotFound)
  {
  }

  /** A granted update replaces the five editable fields of the record stored
      under that hive, when the constraints admit them; else nothing. */
  lemma UpdateReplaces(t: Table, c: Call)
    requires ValidCall(c) && c.op.Update? && c.verdict == Granted(true)
    ensures var (t', r) := Step(t, c);
            var id, content := c.op.id, c.op.content;
            if !(id in t && t[id].hiveId == c.op.hive) then t' == t && r == Refusal(HarvestNotFound)
            else if !Admissible(content.product, content.amount, content.unit) then t' == t && r == Refusal(Internal)
            else
              && r == One(Harvest(id, c.op.hive, t[id].userId, content.product, content.amount, content.unit,
                                  content.harvestedAt, t[id].createdAt, c.now))
              && id in t' && t'[id] == r.harvest && SameBut(t, t', id)
  {
  }

  /** A granted delete removes the record stored under that hive and no other. */
  lemma DeleteRemoves(t: Table, c: Call)
    requires ValidCall(c) && c.op.Delete? && c.verdict.Granted?
    ensures var (t', r) := Step(t, c);
            if c.op.id in t && t[c.op.id].hiveId == c.op.hive
            then c.op.id !in t' && SameBut(t, t', c.op.id) && r == Done
            else t' == t && r == Refusal(HarvestNotFound)
  {
  }

  /** A granted cascade removes exactly the hive's records and names them, when
      every one of them can be cleaned; else nothing. */
  lemma DeleteByHiveRemoves(t: Table, c: Call)
    requires ValidCall(c) && c.op.DeleteByHive? && c.verdict.Granted?
    ensures var (t', r) := Step(t, c);
            if c.reminders.Reminders? ==>
                 forall id | id in t && t[id].hiveId == c.op.hive :: c.reminders.cleans(id)
            then
              && r.DeletedIds? && (forall id :: id in r.ids <==> id in t && t[id].hiveId == c.op.hive)
              && (forall id :: id in t' <==> id in t && t[id].hiveId != c.op.hive)
              && (forall id | id in t' :: t'[id] == t[id])
            else t' == t && r == Refusal(Internal)
  {
  }

  /** Account deletion removes exactly the account's records. */
  lemma DeleteAllByUserRemoves(t: Table, c: Call)
    requires ValidCall(c) && c.op.DeleteAllByUser?
    ensures var (t', r) := Step(t, c);
            && r == Done
            && (forall id :: id in t' <==> id in t && t[id].userId != Some(c.op.user))
            && (forall id | id in t' :: t'[id] == t[id])
  {
  }

  /** A granted listing answers rows number (page - 1) * limit + 1 to page * limit
      of the full listing, as far as there are, and the size of it. */
  lemma ListAnswers(t: Table, c: Call)
    requires ValidCall(c)
    requires (c.op.List? && c.verdict.Granted?) || (c.op.ListAll? && c.owned.Owned?)
    requires WellFormed(c.op.filter)
    ensures Step(t, c).0 == t && Step(t, c).1.Many?
    ensures var hives := if c.op.List? then {c.op.hive} else Elements(c.owned.ids);
            var all, r := FullListing(t, hives, c.op.filter), Step(t, c).1;
            r.total == |all| && IsPage(r.items, all, c.op.page.page, c.op.page.limit)
  {
    var hives := if c.op.List? then {c.op.hive} else Elements(c.owned.ids);
    PageLength(FullListing(t, hives, c.op.filter), c.op.page.limit, c.op.page.page);
  }

  lemma ListRefused(t: Table, c: Call)
    requires ValidCall(c) && (c.op.List? || c.op.ListAll?)
    ensures c.op.ListAll? && !c.owned.Owned? ==> Step(t, c) == (t, Refusal(Internal))
    ensures (c.op.List? ==> c.verdict.Granted?) && !WellFormed(c.op.filter) ==> Step(t, c) == (t, Refusal(Internal))
  {
  }

  /** Who is told what: a call is one of the observer of some hives if its grants
      are within them, and the observer is then told its answer. */
  lemma ObserverIsTold(t: Table, c: Call, calls: seq<Call>, v: set<Uuid>)
    requires ValidCall(c) && ValidCalls(calls) && ValidCalls([c] + calls)
    ensures var within := match c.op
                          case DeleteAllByUser(_) => true
                          case ListAll(_, _) => c.owned.Owned? ==> forall id | id in c.owned.ids :: id in v
                          case _ => c.verdict.Granted? ==> c.op.hive in v;
            && Told(t, [c] + calls, v) == (if within then [Step(t, c).1] else []) + Told(Step(t, c).0, calls, v)
            && Purged([c] + calls, v) == (if within then [c] else []) + Purged(calls, v)
  {
    assert ([c] + calls)[0] == c && ([c] + calls)[1..] == calls;
  }

  // ----- over runs

  /** None of the calls creates a record under this id. */
  ghost predicate NotCreated(calls: seq<Call>, id: Uuid) {
    forall i | 0 <= i < |calls| && calls[i].op.Create? :: calls[i].freshId != id
  }

  lemma TailIsAfter(calls: seq<Call>)
    requires calls != []
    ensures forall i | 0 <= i < |calls[1..]| :: calls[1..][i] == calls[i + 1]
  {
  }

  lemma {:induction false} StaysAway(t: Table, calls: seq<Call>, id: Uuid)
    requires ValidCalls(calls) && NotCreated(calls, id) && id !in t
    ensures id !in After(t, calls)
    decreases |calls|
  {
    if calls == [] {
    } else {
      TailIsAfter(calls);
      StaysAway(Step(t, calls[0]).0, calls[1..], id);
    }
  }

  /** A deleted record is gone for good: whatever calls follow, until one creates
      its id again, it is in no table and no granted read finds it. */
  lemma DeletedStaysDeleted(t: Table, delete: Call, calls: seq<Call>, get: Call)
    requires ValidCall(delete) && delete.op.Delete? && delete.verdict.Granted?
    requires delete.op.id in t && t[delete.op.id].hiveId == delete.op.hive
    requires ValidCalls(calls) && NotCreated(calls, delete.op.id)
    requires ValidCall(get) && get.op.Get? && get.op.id == delete.op.id && get.verdict.Granted?
    ensures delete.op.id !in After(Step(t, delete).0, calls)
    ensures Step(After(Step(t, delete).0, calls), get).1 == Refusal(HarvestNotFound)
  {
    DeleteRemoves(t, delete);
    StaysAway(Step(t, delete).0, calls, delete.op.id);
    GetReads(After(Step(t, delete).0, calls), get);
  }

  /** The call may touch this record: it updates or deletes it under its hive, or
      its hive, or its owner's account, or creates its id. */
  predicate Touches(c: Call, h: Harvest) {
    match c.op
    case Create(_, _, _) => c.freshId == h.id
    case Update(hive, id, _) => hive == h.hiveId && id == h.id
    case Delete(hive, id) => hive == h.hiveId && id == h.id
    case DeleteByHive(hive) => hive == h.hiveId
    case DeleteAllByUser(user) => h.userId == Some(user)
    case _ => false
  }

  lemma {:induction false} UntouchedStays(t: Table, calls: seq<Call>, h: Harvest)
    requires ValidCalls(calls) && h.id in t && t[h.id] == h
    requires forall i | 0 <= i < |calls| :: !Touches(calls[i], h)
    ensures h.id in After(t, calls) && After(t, calls)[h.id] == h
    decreases |calls|
  {
    if calls == [] {
    } else {
      TailIsAfter(calls);
      assert !Touches(calls[0], h);
      UntouchedStays(Step(t, calls[0]).0, calls[1..], h);
    }
  }

  /** The content of the call is the record's, as of now. */
  predicate Carries(h: Harvest, hive: Uuid, content: Content, now: int) {
    && h.hiveId == hive && h.updatedAt == now
    && h.product == content.product && h.amount == content.amount && h.unit == content.unit
    && h.harvestedAt == content.harvestedAt
  }

  lemma AnsweredIsStored(t: Table, write: Call)
    requires ValidCall(write) && (write.op.Create? || write.op.Update?) && Step(t, write).1.One?
    ensures var (t', h) := (Step(t, write).0, Step(t, write).1.harvest);
            h.id in t' && t'[h.id] == h && Carries(h, write.op.hive, write.op.content, write.now)
  {
  }

  /** A record that was answered by a create or an update is what every granted
      read under its hive answers, field by field, until a call touches it. */
  lemma WrittenIsReadBack(t: Table, write: Call, calls: seq<Call>, get: Call)
    requires ValidCall(write) && (write.op.Create? || write.op.Update?) && Step(t, write).1.One?
    requires ValidCalls(calls) && forall i | 0 <= i < |calls| :: !Touches(calls[i], Step(t, write).1.harvest)
    requires ValidCall(get) && get.op.Get? && get.verdict.Granted?
    requires get.op.id == Step(t, write).1.harvest.id && get.op.hive == write.op.hive
    ensures Step(After(Step(t, write).0, calls), get).1 == Step(t, write).1
    ensures Carries(Step(t, write).1.harvest, write.op.hive, write.op.content, write.now)
  {
    AnsweredIsStored(t, write);
    UntouchedStays(Step(t, write).0, calls, Step(t, write).1.harvest);
    GetReads(After(Step(t, write).0, calls), get);
  }

  /** A validated create under a granted writable hive and a new id always goes
      through and reads back. */
  lemma ValidatedCreateSucceeds(t: Table, c: Call)
    requires ValidCall(c) && c.op.Create? && c.verdict == Granted(true) && c.freshId !in t
    requires AllowedPair(c.op.content.product, c.op.content.unit) && c.op.content.amount >= 0.0
    ensures Step(t, c).1.One? && c.freshId in Step(t, c).0
  {
    CreateStores(t, c);
  }

  /** So does a validated update of a record stored under its hive. */
  lemma ValidatedUpdateSucceeds(t: Table, c: Call)
    requires ValidCall(c) && c.op.Update? && c.verdict == Granted(true)
    requires c.op.id in t && t[c.op.id].hiveId == c.op.hive
    requires AllowedPair(c.op.content.product, c.op.content.unit) && c.op.content.amount >= 0.0
    ensures Step(t, c).1.One?
  {
    UpdateReplaces(t, c);
  }

  /** Every request through the validator names an allowed pair and an amount
      that is not negative. */
  ghost predicate Requested(c: Call) {
    match c.op
    case Create(_, _, content) => AllowedPair(content.product, content.unit) && content.amount >= 0.0
    case Update(_, _, content) => AllowedPair(content.product, content.unit) && content.amount >= 0.0
    case _ => true
  }

  /** Then so does every record of every reachable table. */
  lemma {:induction false} RecordsStayAllowed(t: Table, calls: seq<Call>)
    requires ValidCalls(calls) && forall i | 0 <= i < |calls| :: Requested(calls[i])
    requires forall id | id in t :: AllowedPair(t[id].product, t[id].unit) && t[id].amount >= 0.0
    ensures forall id | id in After(t, calls) ::
              AllowedPair(After(t, calls)[id].product, After(t, calls)[id].unit) && After(t, calls)[id].amount >= 0.0
    decreases |calls|
  {
    if calls == [] {
    } else {
      TailIsAfter(calls);
      assert Requested(calls[0]);
      RecordsStayAllowed(Step(t, calls[0]).0, calls[1..]);
    }
  }
}
