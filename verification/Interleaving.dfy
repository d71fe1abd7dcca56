/** Use cases of more than one statement, with other calls let in between. */
module Interleaving {
  import opened Domain
  import opened Ordering
  import opened Query
  import opened Repository
  import opened HiveClient
  import opened Service
  import opened ServiceRuns
  import opened Wire

  /** Perform calls one after another. */
  method ServeAll(s: Service, calls: seq<Call>)
    requires ValidCalls(calls)
    modifies s.repo`harvests
    ensures s.repo.harvests == After(old(s.repo.harvests), calls)
  {
    ghost var t := s.repo.harvests;
    for i := 0 to |calls|
      invariant s.repo.harvests == After(t, calls[..i])
    {
      assert calls[..i + 1] == calls[..i] + [calls[i]];
      AfterAppend(t, calls[..i], calls[i]);
      var _ := s.Serve(calls[i]);
    }
    assert calls[..|calls|] == calls;
  }

  lemma {:induction false} AfterAppend(t: Table, calls: seq<Call>, c: Call)
    requires ValidCalls(calls) && ValidCall(c)
    ensures ValidCalls(calls + [c]) && After(t, calls + [c]) == Step(After(t, calls), c).0
    decreases |calls|
  {
    if calls == [] {
    } else {
      assert (calls + [c])[1..] == calls[1..] + [c];
      AfterAppend(Step(t, calls[0]).0, calls[1..], c);
    }
  }

  lemma {:induction false} AfterConcat(t: Table, a: seq<Call>, b: seq<Call>)
    requires ValidCalls(a) && ValidCalls(b)
    ensures ValidCalls(a + b) && After(t, a + b) == After(After(t, a), b)
    decreases |a|
  {
    if a == [] {
      assert a + b == b;
    } else {
      assert (a + b)[1..] == a[1..] + b;
      AfterConcat(Step(t, a[0]).0, a[1..], b);
    }
  }

  /** The calls that fall before the first `n` of the steps of a use case. */
  function CallsUpTo(between: nat -> seq<Call>, n: nat): seq<Call> {
    if n == 0 then [] else CallsUpTo(between, n - 1) + between(n - 1)
  }

  /** A listing counts and then reads its rows; the answer has the total of the
      earlier table and the page of the later one. */
  method ListAmong(s: Service, hive: Uuid, p: Params, f: Filter, verdict: Verdict, between: seq<Call>)
    returns (r: Response)
    requires ValidParams(p) && ValidCalls(between)
    modifies s.repo`harvests
    ensures s.repo.harvests == After(old(s.repo.harvests), if verdict.Granted? then between else [])
    ensures r == if verdict.Granted? then SplitListResponse(old(s.repo.harvests), s.repo.harvests, {hive}, p, f)
                 else Refusal(VerdictError(verdict))
  {
    if !verdict.Granted? {
      return Refusal(VerdictError(verdict));
    }
    var counted := s.repo.harvests;
    ServeAll(s, between);
    var listed := Repository.ListByHive(counted, s.repo.harvests, hive, p, f);
    r := if listed.Listed? then Many(listed.items, listed.total) else Refusal(Internal);
  }

  method ListAllAmong(s: Service, p: Params, f: Filter, owned: OwnedHives, between: seq<Call>) returns (r: Response)
    requires ValidParams(p) && ValidCalls(between)
    modifies s.repo`harvests
    ensures s.repo.harvests == After(old(s.repo.harvests), if owned.Owned? then between else [])
    ensures r == if owned.Owned?
                 then SplitListResponse(old(s.repo.harvests), s.repo.harvests, Elements(owned.ids), p, f)
                 else Refusal(Internal)
  {
    if !owned.Owned? {
      return Refusal(Internal);
    }
    var counted := s.repo.harvests;
    ServeAll(s, between);
    var listed := Repository.ListAcross(counted, s.repo.harvests, owned.ids, p, f);
    r := if listed.Listed? then Many(listed.items, listed.total) else Refusal(Internal);
  }

  ghost function SplitListResponse(counted: Table, listed: Table, hives: set<Uuid>, p: Params, f: Filter): Response
    requires ValidParams(p)
  {
    if WellFormed(f)
    then Many(Page(FullListing(listed, hives, f), p.limit, Offset(p)), |Selected(counted, hives, f)|)
    else Refusal(Internal)
  }

  /** The total is the size of the listing in the earlier table, the items are
      the page of the listing in the later one. */
  lemma SplitListOnFields(counted: Table, listed: Table, hives: set<Uuid>, p: Params, f: Filter)
    requires ValidParams(p)
    ensures var r := SplitListResponse(counted, listed, hives, p, f);
            if WellFormed(f)
            then r.Many? && r.total == |FullListing(counted, hives, f)| &&
                 IsPage(r.items, FullListing(listed, hives, f), p.page, p.limit)
            else r == Refusal(Internal)
  {
    FullListingLists(counted, hives, f);
    PageLength(FullListing(listed, hives, f), p.limit, p.page);
  }

  /** With calls in between that do not write under the listed hives, the two
      statements answer as one. */
  lemma {:induction false} UndisturbedListing(t: Table, between: seq<Call>, hives: set<Uuid>, p: Params, f: Filter)
    requires ValidParams(p) && ValidCalls(between)
    requires forall i | 0 <= i < |between| :: !between[i].op.DeleteAllByUser? && Writes(between[i]) !! hives
    ensures SplitListResponse(t, After(t, between), hives, p, f) == ListResponse(t, hives, p, f)
  {
    ViewKept(t, between, hives);
    SelectedOfView(t, hives, hives, f);
    SelectedOfView(After(t, between), hives, hives, f);
    FullListingLists(t, hives, f);
  }

  lemma {:induction false} ViewKept(t: Table, calls: seq<Call>, v: set<Uuid>)
    requires ValidCalls(calls)
    requires forall i | 0 <= i < |calls| :: !calls[i].op.DeleteAllByUser? && Writes(calls[i]) !! v
    ensures View(After(t, calls), v) == View(t, v)
    decreases |calls|
  {
    if calls == [] {
    } else {
      StepKeepsOthers(t, v, calls[0]);
      assert forall i | 0 <= i < |calls[1..]| :: calls[1..][i] == calls[i + 1];
      ViewKept(Step(t, calls[0]).0, calls[1..], v);
    }
  }
}
