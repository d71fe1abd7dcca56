/** The hive-service client: collecting the ids of all owned hives page by page. */
module HiveClient {
  import opened Domain
  import opened Ordering
  import opened Paging

  datatype Reply = Unreachable | UnexpectedStatus | Undecodable | HivePage(items: seq<Uuid>, totalPages: int)

  datatype OwnedHives = Owned(ids: seq<Uuid>) | Failed(reply: Reply)

  /** Whether this reply to the request for `page` ends the loop. */
  predicate Final(r: Reply, page: nat) {
    !r.HivePage? || page >= r.totalPages || r.items == []
  }

  /** The items of the first `pages` replies, in order. */
  function ItemsOf(reply: nat -> Reply, pages: nat): seq<Uuid> {
    if pages == 0 then []
    else ItemsOf(reply, pages - 1) + (if reply(pages).HivePage? then reply(pages).items else [])
  }

  /** The first request whose reply is final. */
  ghost predicate LastRequest(reply: nat -> Reply, k: nat) {
    k >= 1 && Final(reply(k), k) && forall j: nat | 1 <= j < k :: !Final(reply(j), j)
  }

  /** Where the loop stands: it has returned, or it is about to ask for the
      page after those it has. */
  datatype Progress = Returned(hives: OwnedHives, requests: nat) | StillAsking(ids: seq<Uuid>)

  /** The loop, watched for `budget` requests.  It returns at the first final
      reply; any failure discards what was collected; and on a server that gives
      no final reply it is still asking, however many requests it has made. */
  method ListOwned(reply: nat -> Reply, budget: nat) returns (p: Progress)
    ensures p.Returned? <==> exists k: nat :: 1 <= k <= budget && Final(reply(k), k)
    ensures p.Returned? ==>
              && LastRequest(reply, p.requests) && p.requests <= budget
              && (match reply(p.requests)
                  case HivePage(items, totalPages) => items == [] || totalPages <= p.requests
                  case _ => true)
              && (forall j: nat | 1 <= j < p.requests ::
                    reply(j).HivePage? && reply(j).items != [] && j < reply(j).totalPages)
              && p.hives == if reply(p.requests).HivePage? then Owned(ItemsOf(reply, p.requests))
                            else Failed(reply(p.requests))
    ensures p.StillAsking? ==> p.ids == ItemsOf(reply, budget)
  {
    var ids: seq<Uuid> := [];
    for page := 1 to budget + 1
      invariant ids == ItemsOf(reply, page - 1)
      invariant forall j: nat | 1 <= j < page :: !Final(reply(j), j)
    {
      var body := reply(page);
      if !body.HivePage? {
        return Returned(Failed(body), page);
      }
      for i := 0 to |body.items|
        invariant ids == ItemsOf(reply, page - 1) + body.items[..i]
      {
        ids := ids + [body.items[i]];
      }
      assert body.items[..|body.items|] == body.items;
      if page >= body.totalPages || |body.items| == 0 {
        return Returned(Owned(ids), page);
      }
    }
    p := StillAsking(ids);
  }

  lemma {:induction false} FirstFinal(reply: nat -> Reply, bound: nat) returns (k: nat)
    requires bound >= 1 && Final(reply(bound), bound)
    ensures LastRequest(reply, k) && k <= bound
    decreases bound
  {
    if j: nat :| 1 <= j < bound && Final(reply(j), j) {
      k := FirstFinal(reply, j);
    } else {
      k := bound;
    }
  }

  /** On a server that always reports `total` pages the client returns, and asks
      at most that often. */
  lemma FixedTotalBoundsRequests(reply: nat -> Reply, total: int) returns (k: nat)
    requires forall p: nat | p >= 1 && reply(p).HivePage? :: reply(p).totalPages == total
    ensures LastRequest(reply, k) && k <= if total > 1 then total else 1
  {
    var bound: nat := if total > 1 then total else 1;
    assert Final(reply(bound), bound);
    k := FirstFinal(reply, bound);
  }

  /** A server that pages a fixed list of hives `size` at a time. */
  ghost predicate Serves(reply: nat -> Reply, hives: seq<Uuid>, size: nat)
    requires size >= 1
  {
    forall p: nat | p >= 1 :: (p - 1) * size >= 0 &&
      reply(p) == HivePage(Page(hives, size, (p - 1) * size), (|hives| + size - 1) / size)
  }

  lemma {:induction false} ItemsAreConcatPages(reply: nat -> Reply, hives: seq<Uuid>, size: nat, pages: nat)
    requires size >= 1 && Serves(reply, hives, size)
    ensures ItemsOf(reply, pages) == ConcatPages(hives, size, pages)
    decreases pages
  {
    if pages == 0 {
    } else {
      ItemsAreConcatPages(reply, hives, size, pages - 1);
    }
  }

  /** On such a server the client returns, with exactly its hives, in order,
      after as many requests as it has pages (one when it has none). */
  lemma ServedListIsComplete(reply: nat -> Reply, hives: seq<Uuid>, size: nat)
    requires size >= 1 && Serves(reply, hives, size)
    ensures var k := PagesNeeded(|hives|, size);
            LastRequest(reply, k) && reply(k).HivePage? && ItemsOf(reply, k) == hives
  {
    var k := FixedTotalBoundsRequests(reply, (|hives| + size - 1) / size);
    LastPageReached(reply, hives, size, k);
    ItemsAreConcatPages(reply, hives, size, k);
    PagesTile(hives, size, k);
    if k > 1 {
      assert !Final(reply(k - 1), k - 1);
      LaterPageNeeded(|hives|, size, k - 1);
    }
    CeilingIs(|hives|, size, k);
  }

  lemma LastPageReached(reply: nat -> Reply, hives: seq<Uuid>, size: nat, k: nat)
    requires size >= 1 && Serves(reply, hives, size) && k >= 1 && Final(reply(k), k)
    ensures reply(k).HivePage? && |hives| <= k * size
  {
    PageLength(hives, size, k);
    EndIsLastPage(|hives|, size, k, |reply(k).items|);
  }

  lemma LaterPageNeeded(n: nat, size: nat, k: nat)
    requires size >= 1 && k < (n + size - 1) / size
    ensures k * size < n
  {
    var q := (n + size - 1) / size;
    assert n + size - 1 == size * q + (n + size - 1) % size;
    ProductGrows(k + 1, q, size);
    assert (k + 1) * size == k * size + size;
  }

  lemma EndIsLastPage(n: nat, size: nat, k: nat, items: nat)
    requires size >= 1 && k >= 1 && 0 <= (k - 1) * size && (k - 1) * size + size == k * size
    requires items == Min(k * size, n) - Min((k - 1) * size, n)
    requires k >= (n + size - 1) / size || items == 0
    ensures n <= k * size
  {
    var q := (n + size - 1) / size;
    if k >= q {
      assert n + size - 1 == size * q + (n + size - 1) % size;
      ProductGrows(q, k, size);
    }
  }
}
