/** Laws of whole listings: creation order both ways, listings across hives,
    and the pages a client walks through. */
module Listings {
  import opened Domain
  import opened Ordering
  import opened Query
  import opened Repository

  const ASC := "asc"
  const DESC := "desc"

  function Ascending(f: Filter): Filter { f.(sortOrder := Some(ASC)) }

  function Descending(f: Filter): Filter { f.(sortOrder := Some(DESC)) }

  lemma SortOrderSelectsNothing(t: Table, hives: set<Uuid>, f: Filter, sortOrder: Option<string>)
    ensures Selected(t, hives, f.(sortOrder := sortOrder)) == Selected(t, hives, f)
  {
    assert forall h :: Wanted(hives, f.(sortOrder := sortOrder), h) <==> Wanted(hives, f, h);
  }

  /** The two creation-order listings are exact mirrors of each other. */
  lemma CreatedListingsMirror(t: Table, hives: set<Uuid>, f: Filter)
    ensures FullListing(t, hives, Descending(f)) == Reverse(FullListing(t, hives, Ascending(f)))
  {
    SortOrderSelectsNothing(t, hives, f, Some(ASC));
    SortOrderSelectsNothing(t, hives, f, Some(DESC));
    SelectedDistinct(t, hives, f);
    CreatedOrdersMirror(Selected(t, hives, f));
  }

  /** So each page of one is the reversed slice at the other end of the other. */
  lemma CreatedPagesMirror(t: Table, hives: set<Uuid>, f: Filter, limit: nat, offset: nat)
    ensures var up := FullListing(t, hives, Ascending(f));
            var hi := |up| - Min(offset, |up|);
            var lo := |up| - Min(offset + limit, |up|);
            Page(FullListing(t, hives, Descending(f)), limit, offset) == Reverse(up[lo..hi])
  {
    CreatedListingsMirror(t, hives, f);
    PageOfReverse(FullListing(t, hives, Ascending(f)), limit, offset);
  }

  /** The order a client sees: newest harvest first by default, creation order
      on request, and in each the id decides between equals. */
  lemma ListingOrder(t: Table, hives: set<Uuid>, f: Filter, i: nat, j: nat)
    requires i < j < |FullListing(t, hives, f)|
    ensures var a, b := FullListing(t, hives, f)[i], FullListing(t, hives, f)[j];
            && (f.sortOrder.None? ==> a.harvestedAt > b.harvestedAt || (a.harvestedAt == b.harvestedAt && a.id > b.id))
            && (f.sortOrder == Some("asc") ==> a.createdAt < b.createdAt || (a.createdAt == b.createdAt && a.id < b.id))
            && (f.sortOrder == Some("desc") ==>
                  a.createdAt > b.createdAt || (a.createdAt == b.createdAt && a.id > b.id))
  {
    FullListingLists(t, hives, f);
    assert Less(OrderOf(f.sortOrder))(FullListing(t, hives, f)[i], FullListing(t, hives, f)[j]);
  }

  // ----- across hives

  lemma SelectedUnion(t: Table, a: set<Uuid>, b: set<Uuid>, f: Filter)
    ensures Selected(t, a + b, f) == Selected(t, a, f) + Selected(t, b, f)
    ensures a !! b ==> Selected(t, a, f) !! Selected(t, b, f)
  {
  }

  /** Listing two groups of hives together is merging their listings. */
  lemma HiveGroupsMerge(t: Table, a: set<Uuid>, b: set<Uuid>, f: Filter)
    requires a !! b
    ensures FullListing(t, a + b, f) ==
              Merge(Less(OrderOf(f.sortOrder)), FullListing(t, a, f), FullListing(t, b, f))
    ensures |FullListing(t, a + b, f)| == |FullListing(t, a, f)| + |FullListing(t, b, f)|
  {
    SelectedUnion(t, a, b, f);
    SelectedDistinct(t, a + b, f);
    SelectedDistinct(t, a, f);
    SelectedDistinct(t, b, f);
    ListingOfUnion(OrderOf(f.sortOrder), Selected(t, a, f), Selected(t, b, f));
  }

  /** The sorted merge of the per-hive listings, each hive taken once. */
  ghost function MergedByHive(t: Table, ids: seq<Uuid>, f: Filter): seq<Harvest> {
    if ids == [] then []
    else if ids[0] in ids[1..] then MergedByHive(t, ids[1..], f)
    else Merge(Less(OrderOf(f.sortOrder)), FullListing(t, {ids[0]}, f), MergedByHive(t, ids[1..], f))
  }

  /** The per-hive totals, each hive counted once. */
  ghost function TotalByHive(t: Table, ids: seq<Uuid>, f: Filter): nat {
    if ids == [] then 0
    else if ids[0] in ids[1..] then TotalByHive(t, ids[1..], f)
    else |FullListing(t, {ids[0]}, f)| + TotalByHive(t, ids[1..], f)
  }

  /** The cross-hive listing is the merge of the per-hive ones and its total
      the sum of theirs, whatever order or repetition the ids come in. */
  lemma {:induction false} CrossHiveListing(t: Table, ids: seq<Uuid>, f: Filter)
    ensures FullListing(t, Elements(ids), f) == MergedByHive(t, ids, f)
    ensures |FullListing(t, Elements(ids), f)| == TotalByHive(t, ids, f)
    decreases |ids|
  {
    if ids == [] {
      assert Selected(t, Elements(ids), f) == {};
      FullListingLists(t, Elements(ids), f);
    } else {
      CrossHiveListing(t, ids[1..], f);
      assert ids == [ids[0]] + ids[1..];
      ConsElements(ids[0], ids[1..]);
      if ids[0] in ids[1..] {
        assert Elements(ids) == Elements(ids[1..]);
      } else {
        HiveGroupsMerge(t, {ids[0]}, Elements(ids[1..]), f);
      }
    }
  }

  lemma CrossHiveOrderIrrelevant(t: Table, a: seq<Uuid>, b: seq<Uuid>, f: Filter)
    requires forall id :: id in a <==> id in b
    ensures MergedByHive(t, a, f) == MergedByHive(t, b, f)
    ensures TotalByHive(t, a, f) == TotalByHive(t, b, f)
  {
    CrossHiveListing(t, a, f);
    CrossHiveListing(t, b, f);
    assert Elements(a) == Elements(b);
  }

  /** Walking all pages of a listing gives every wanted row exactly once. */
  lemma PagesCoverListing(t: Table, hives: set<Uuid>, f: Filter, limit: nat, pages: nat)
    requires |FullListing(t, hives, f)| <= pages * limit
    ensures ConcatPages(FullListing(t, hives, f), limit, pages) == FullListing(t, hives, f)
    ensures var xs := ConcatPages(FullListing(t, hives, f), limit, pages);
            && (forall h :: h in xs <==> h.id in t && t[h.id] == h && Wanted(hives, f, h))
            && (forall i, j | 0 <= i < j < |xs| :: xs[i].id != xs[j].id)
  {
    var xs := FullListing(t, hives, f);
    PagesTile(xs, limit, pages);
    FullListingLists(t, hives, f);
    forall i, j | 0 <= i < j < |xs| ensures xs[i].id != xs[j].id {
      assert Less(OrderOf(f.sortOrder))(xs[i], xs[j]);
      assert xs[i] in xs && xs[j] in xs;
    }
  }
}
