/** The hive delete cascade among other calls, and its retries. */
module Cascade {
  import opened Domain
  import opened Ordering
  import opened Repository
  import opened Service
  import opened ServiceRuns
  import opened Interleaving

  /** Let the calls of the next step in. */
  method LetIn(s: Service, between: nat -> seq<Call>, n: nat, served: seq<Call>, ghost t: Table)
    returns (longer: seq<Call>)
    requires forall i: nat :: ValidCalls(between(i))
    requires served == CallsUpTo(between, n) && ValidCalls(served) && s.repo.harvests == After(t, served)
    modifies s.repo`harvests
    ensures longer == CallsUpTo(between, n + 1) && ValidCalls(longer) && s.repo.harvests == After(t, longer)
  {
    AfterConcat(t, served, between(n));
    ServeAll(s, between(n));
    longer := served + between(n);
  }

  /** Clean the listed ids one by one, stopping at the first failure, with other
      calls let in before each. */
  method CleanAmong(s: Service, listed: seq<Uuid>, reminders: Reminders, between: nat -> seq<Call>, ghost t: Table)
    returns (cleaned: seq<Uuid>, served: seq<Call>, ok: bool)
    requires (forall i: nat :: ValidCalls(between(i))) && reminders.Reminders? && s.repo.harvests == t
    modifies s.repo`harvests
    ensures cleaned <= listed && ValidCalls(served) && s.repo.harvests == After(t, served)
    ensures served == CallsUpTo(between, if ok then |cleaned| else |cleaned| + 1)
    ensures ok <==> AllClean(reminders, Elements(listed))
    ensures ok ==> cleaned == listed
    ensures !ok ==> |cleaned| < |listed| && !reminders.cleans(listed[|cleaned|])
  {
    cleaned, served, ok := [], [], true;
    for i := 0 to |listed|
      invariant ok && cleaned == listed[..i]
      invariant forall id | id in cleaned :: reminders.cleans(id)
      invariant served == CallsUpTo(between, i) && ValidCalls(served) && s.repo.harvests == After(t, served)
    {
      served := LetIn(s, between, i, served, t);
      if !reminders.cleans(listed[i]) {
        ok := false;
        assert listed[i] in Elements(listed);
        return;
      }
      assert listed[..i + 1] == listed[..i] + [listed[i]];
      cleaned := cleaned + [listed[i]];
    }
    assert cleaned == listed;
  }

  /** What the cascade does when `served` are the calls that fall in between. */
  ghost function CascadeOutcome(t: Table, served: seq<Call>, hive: Uuid, verdict: Verdict, reminders: Reminders):
    (Table, Response)
    requires ValidCalls(served)
  {
    var now := After(t, served);
    if !verdict.Granted? then (now, Refusal(VerdictError(verdict)))
    else if AllClean(reminders, IdsUnder(t, hive)) then (WithoutHive(now, hive), DeletedIds(IdsUnder(now, hive)))
    else (now, Refusal(Internal))
  }

  /** The cascade with other calls let in before each cleaning and before the
      deletion: `between(i)` falls before the i-th of these steps. */
  method DeleteByHiveAmong(s: Service, hive: Uuid, verdict: Verdict, reminders: Reminders, between: nat -> seq<Call>)
    returns (r: Response, listed: seq<Uuid>, cleaned: seq<Uuid>, served: seq<Call>)
    requires forall i: nat :: ValidCalls(between(i))
    modifies s.repo`harvests
    ensures !verdict.Granted? ==> r == Refusal(VerdictError(verdict)) && cleaned == [] && served == []
    ensures verdict.Granted? ==> Elements(listed) == IdsUnder(old(s.repo.harvests), hive)
    ensures verdict.Granted? ==> served == CallsUpTo(between, |cleaned| + 1)
    ensures cleaned <= listed && ValidCalls(served)
    ensures (s.repo.harvests, r) == CascadeOutcome(old(s.repo.harvests), served, hive, verdict, reminders)
    // ... which is, on the tables before and after the calls in between:
    ensures r.DeletedIds? <==>
              && verdict.Granted?
              && (reminders.Reminders? ==>
                    forall id | id in old(s.repo.harvests) && old(s.repo.harvests)[id].hiveId == hive ::
                      reminders.cleans(id))
    ensures var now := After(old(s.repo.harvests), served);
            if r.DeletedIds? then
              && (forall id :: id in r.ids <==> id in now && now[id].hiveId == hive)
              && (forall id :: id in s.repo.harvests <==> id in now && now[id].hiveId != hive)
              && (forall id | id in s.repo.harvests :: s.repo.harvests[id] == now[id])
            else s.repo.harvests == now
    ensures r == Refusal(Internal) && verdict.Granted? ==>
              reminders.Reminders? && |cleaned| < |listed| && !reminders.cleans(listed[|cleaned|])
    ensures r.DeletedIds? && reminders.Reminders? ==> cleaned == listed
    ensures r.DeletedIds? && reminders.Reminders? && NoCreateUnder(old(s.repo.harvests), served, hive) ==>
              r.ids <= Elements(cleaned)
  {
    ghost var t := s.repo.harvests;
    listed, cleaned, served := [], [], [];
    if !verdict.Granted? {
      return Refusal(VerdictError(verdict)), listed, cleaned, served;
    }
    listed := s.repo.ListIDsByHive(hive);
    if reminders.Reminders? {
      var ok;
      cleaned, served, ok := CleanAmong(s, listed, reminders, between, t);
      if !ok {
        return Refusal(Internal), listed, cleaned, served;
      }
    }
    served := LetIn(s, between, |cleaned|, served, t);
    var deleted := s.repo.DeleteByHive(hive);
    assert s.repo.harvests == WithoutHive(After(t, served), hive);
    r := DeletedIds(set id | id in deleted);
    DeletedWereListed(t, served, hive);
  }

  /** Of the ids the cascade deletes, exactly those created since the listing
      were not listed, and so not cleaned. */
  lemma UncleanedWereCreatedSince(listed: Table, between: seq<Call>, hive: Uuid, id: Uuid)
    requires ValidCalls(between) && NewIds(listed.Keys, between)
    requires id in IdsUnder(After(listed, between), hive)
    ensures id !in IdsUnder(listed, hive) <==> SomeCreates(between, After(listed, between)[id])
  {
    RunProvenance(listed, between, id);
    if SomeCreates(between, After(listed, between)[id]) {
      var i :| 0 <= i < |between| && CreatesRow(between[i], After(listed, between)[id]);
      assert Inserts(between[i]);
    }
  }

  predicate CreatesUnder(c: Call, hive: Uuid) {
    Inserts(c) && c.op.hive == hive
  }

  /** Generated ids are new, and none of the calls creates under the hive. */
  ghost predicate NoCreateUnder(listed: Table, between: seq<Call>, hive: Uuid) {
    NewIds(listed.Keys, between) && forall i | 0 <= i < |between| :: !CreatesUnder(between[i], hive)
  }

  /** With reads, updates and deletes in between, and creates under other
      hives, every id the cascade deletes was listed, and so cleaned first. */
  lemma DeletedWereListed(listed: Table, between: seq<Call>, hive: Uuid)
    requires ValidCalls(between)
    ensures NoCreateUnder(listed, between, hive) ==> IdsUnder(After(listed, between), hive) <= IdsUnder(listed, hive)
  {
    if NoCreateUnder(listed, between, hive) {
      forall id | id in IdsUnder(After(listed, between), hive) ensures id in IdsUnder(listed, hive) {
        UncleanedWereCreatedSince(listed, between, hive, id);
        assert forall i | 0 <= i < |between| :: !CreatesRow(between[i], After(listed, between)[id]);
      }
    }
  }

  /** A create under the hive that falls in between is deleted uncleaned. */
  lemma CreateInBetweenIsDeletedUncleaned(listed: Table, c: Call)
    requires ValidCall(c) && Inserts(c) && c.freshId !in listed
    requires Storable(NewHarvest(c.freshId, c.op.hive, c.op.owner, c.op.content, c.now))
    ensures ValidCalls([c]) && c.freshId in IdsUnder(After(listed, [c]), c.op.hive)
    ensures c.freshId !in IdsUnder(listed, c.op.hive)
  {
    assert [c][1..] == [];
    assert After(listed, [c]) == Step(listed, c).0;
  }

  /** With no calls in between, or none that writes under the hive, the cascade
      answers as in one step; with none at all it is that step. */
  lemma UndisturbedCascade(t: Table, served: seq<Call>, hive: Uuid, verdict: Verdict, reminders: Reminders)
    requires ValidCalls(served)
    requires forall i | 0 <= i < |served| :: !served[i].op.DeleteAllByUser? && hive !in Writes(served[i])
    ensures CascadeOutcome(t, served, hive, verdict, reminders).1 == DeleteByHiveStep(t, verdict, hive, reminders).1
    ensures served == [] ==>
              CascadeOutcome(t, served, hive, verdict, reminders) == DeleteByHiveStep(t, verdict, hive, reminders)
  {
    ViewKept(t, served, {hive});
    IdsOfView(t, hive);
    IdsOfView(After(t, served), hive);
  }

  lemma IdsOfView(t: Table, hive: Uuid)
    ensures IdsUnder(t, hive) == View(t, {hive}).Keys
  {
  }

  // ----- retries

  /** Whether an attempt at deleting a hive goes through on a table. */
  ghost predicate Succeeds(t: Table, c: Call, hive: Uuid) {
    c.verdict.Granted? && AllClean(c.reminders, IdsUnder(t, hive))
  }

  predicate IsAttempt(c: Call, hive: Uuid) {
    c.op == Op.DeleteByHive(hive)
  }

  /** The calls that are no attempts at deleting the hive. */
  function Others(calls: seq<Call>, hive: Uuid): seq<Call> {
    if calls == [] then []
    else
      var front, last := Others(calls[..|calls| - 1], hive), calls[|calls| - 1];
      if IsAttempt(last, hive) then front else front + [last]
  }

  /** None of the attempts among the calls of a run goes through. */
  ghost predicate AllFail(t: Table, calls: seq<Call>, hive: Uuid)
    requires ValidCalls(calls)
  {
    forall i | 0 <= i < |calls| && IsAttempt(calls[i], hive) ::
      FrontValid(calls, i); !Succeeds(After(t, calls[..i]), calls[i], hive)
  }

  lemma FrontValid(calls: seq<Call>, i: nat)
    requires ValidCalls(calls) && i <= |calls|
    ensures ValidCalls(calls[..i])
  {
  }

  lemma AllFailFront(t: Table, calls: seq<Call>, hive: Uuid)
    requires calls != [] && ValidCalls(calls) && AllFail(t, calls, hive)
    ensures ValidCalls(calls[..|calls| - 1]) && AllFail(t, calls[..|calls| - 1], hive)
  {
    var front := calls[..|calls| - 1];
    forall i | 0 <= i < |front| && IsAttempt(front[i], hive)
      ensures ValidCalls(front[..i]) && !Succeeds(After(t, front[..i]), front[i], hive)
    {
      FrontValid(calls, i);
      assert front[..i] == calls[..i] && front[i] == calls[i];
    }
  }

  /** Failed attempts leave no trace, however many there are and whatever calls
      fall between them: the table is that of the other calls alone. */
  lemma {:induction false} FailedAttemptsLeaveNoTrace(t: Table, calls: seq<Call>, hive: Uuid)
    requires ValidCalls(calls) && AllFail(t, calls, hive)
    ensures ValidCalls(Others(calls, hive)) && After(t, calls) == After(t, Others(calls, hive))
    decreases |calls|
  {
    if calls == [] {
    } else {
      var front, last := calls[..|calls| - 1], calls[|calls| - 1];
      AllFailFront(t, calls, hive);
      FailedAttemptsLeaveNoTrace(t, front, hive);
      assert calls == front + [last];
      AfterAppend(t, front, last);
      if IsAttempt(last, hive) {
        assert !Succeeds(After(t, front), last, hive);
      } else {
        AfterAppend(t, Others(front, hive), last);
      }
    }
  }

  /** The first attempt that goes through empties the hive, and leaves of every
      other hive what the other calls alone have made of it. */
  lemma Retries(t: Table, calls: seq<Call>, attempt: Call, hive: Uuid)
    requires ValidCalls(calls) && AllFail(t, calls, hive)
    requires ValidCall(attempt) && IsAttempt(attempt, hive) && Succeeds(After(t, calls), attempt, hive)
    ensures ValidCalls(calls + [attempt]) && ValidCalls(Others(calls, hive))
    ensures After(t, calls + [attempt]) == WithoutHive(After(t, Others(calls, hive)), hive)
  {
    FailedAttemptsLeaveNoTrace(t, calls, hive);
    AfterAppend(t, calls, attempt);
  }
}
