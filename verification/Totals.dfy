/** Report totals: amounts folded per (product, unit) through a map, emitted in
    whatever order the map yields its keys, then sorted. */
module Totals {
  import opened Domain
  import opened Ordering

  datatype ReportTotal = ReportTotal(product: string, unit: string, amount: real)

  type Key = (string, string)

  function KeyOf(h: Harvest): Key { (h.product, h.unit) }

  // ----- the string order of Go

  predicate StringLess(a: string, b: string) {
    if b == "" then false
    else if a == "" then true
    else if a[0] != b[0] then a[0] < b[0]
    else StringLess(a[1..], b[1..])
  }

  /** `a` comes first at the first character in which the texts differ, or is a
      proper beginning of `b`. */
  ghost predicate TextBefore(a: string, b: string) {
    exists k: nat :: k <= |a| && k < |b| && a[..k] == b[..k] && (k == |a| || a[k] < b[k])
  }

  lemma {:induction false} StringLessIsTextBefore(a: string, b: string)
    ensures StringLess(a, b) <==> TextBefore(a, b)
    decreases |a|
  {
    if a == "" || b == "" || a[0] != b[0] {
      if b != "" && StringLess(a, b) {
        assert a[..0] == b[..0];
      }
    } else {
      StringLessIsTextBefore(a[1..], b[1..]);
      if k: nat :| k <= |a[1..]| && k < |b[1..]| && a[1..][..k] == b[1..][..k] &&
                   (k == |a[1..]| || a[1..][k] < b[1..][k])
      {
        assert a[..k + 1] == [a[0]] + a[1..][..k] && b[..k + 1] == [b[0]] + b[1..][..k];
        assert TextBefore(a, b);
      }
      if k: nat :| k <= |a| && k < |b| && a[..k] == b[..k] && (k == |a| || a[k] < b[k]) {
        assert a[1..][..k - 1] == a[..k][1..] && b[1..][..k - 1] == b[..k][1..];
        assert TextBefore(a[1..], b[1..]);
      }
    }
  }

  lemma {:induction false} StringLessIrreflexive(a: string)
    ensures !StringLess(a, a)
  {
    if a == "" {
    } else {
      StringLessIrreflexive(a[1..]);
    }
  }

  lemma {:induction false} StringLessConnected(a: string, b: string)
    requires a != b
    ensures StringLess(a, b) || StringLess(b, a)
  {
    if a == "" || b == "" || a[0] != b[0] {
    } else {
      assert a == [a[0]] + a[1..] && b == [b[0]] + b[1..];
      StringLessConnected(a[1..], b[1..]);
    }
  }

  lemma {:induction false} StringLessTransitive(a: string, b: string, c: string)
    requires StringLess(a, b) && StringLess(b, c)
    ensures StringLess(a, c)
    decreases |a|
  {
    if a == "" || a[0] != b[0] || b[0] != c[0] {
    } else {
      StringLessTransitive(a[1..], b[1..], c[1..]);
    }
  }

  /** The comparison of the sort: product first, then unit. */
  predicate TotalBefore(a: ReportTotal, b: ReportTotal) {
    if a.product != b.product then StringLess(a.product, b.product) else StringLess(a.unit, b.unit)
  }

  function TotalLess(): (ReportTotal, ReportTotal) -> bool {
    (a: ReportTotal, b: ReportTotal) => TotalBefore(a, b)
  }

  ghost predicate DistinctKeys(s: set<ReportTotal>) {
    forall a, b | a in s && b in s :: a.product == b.product && a.unit == b.unit ==> a == b
  }

  lemma TotalOrder(s: set<ReportTotal>)
    requires DistinctKeys(s)
    ensures StrictTotal(TotalLess(), s)
  {
    var less := TotalLess();
    forall x | x in s ensures !less(x, x) {
      StringLessIrreflexive(x.unit);
    }
    forall x, y | x in s && y in s && x != y ensures less(x, y) || less(y, x) {
      if x.product != y.product {
        StringLessConnected(x.product, y.product);
      } else {
        StringLessConnected(x.unit, y.unit);
      }
    }
    forall x, y, z | x in s && y in s && z in s && less(x, y) && less(y, z) ensures less(x, z) {
      TotalBeforeTransitive(x, y, z);
    }
  }

  lemma TotalBeforeTransitive(x: ReportTotal, y: ReportTotal, z: ReportTotal)
    requires TotalBefore(x, y) && TotalBefore(y, z)
    ensures TotalBefore(x, z)
  {
    StringLessIrreflexive(x.product);
    if x.product == y.product && y.product == z.product {
      StringLessTransitive(x.unit, y.unit, z.unit);
    } else if x.product != y.product && y.product != z.product {
      StringLessTransitive(x.product, y.product, z.product);
    }
  }

  // ----- what the totals of a list of items are

  ghost function KeysOf(items: seq<Harvest>): set<Key> {
    set h | h in items :: KeyOf(h)
  }

  /** The left fold of `add`, from zero, over the amounts under one key, in
      list order.  `add` is whatever float addition does. */
  function SumFor(add: (real, real) -> real, items: seq<Harvest>, key: Key): real {
    if items == [] then 0.0
    else
      var n := |items| - 1;
      var before := SumFor(add, items[..n], key);
      if KeyOf(items[n]) == key then add(before, items[n].amount) else before
  }

  /** Strictly increasing keys, exactly the keys present, each with its fold. */
  ghost predicate AreTotals(add: (real, real) -> real, items: seq<Harvest>, totals: seq<ReportTotal>) {
    && Sorted(TotalLess(), totals)
    && (forall r | r in totals ::
          (r.product, r.unit) in KeysOf(items) && r.amount == SumFor(add, items, (r.product, r.unit)))
    && (forall k | k in KeysOf(items) :: ReportTotal(k.0, k.1, SumFor(add, items, k)) in totals)
  }

  /** Any two outputs for the same items are equal. */
  lemma TotalsUnique(add: (real, real) -> real, items: seq<Harvest>, a: seq<ReportTotal>, b: seq<ReportTotal>)
    requires AreTotals(add, items, a) && AreTotals(add, items, b)
    ensures a == b
  {
    assert Elements(a) == Elements(b);
    TotalOrder(Elements(a));
    SortedUnique(TotalLess(), a, b);
  }

  // ----- the code

  /** `totalByKey[key] += item.Amount` over the items; a missing key reads as zero. */
  method FoldByKey(add: (real, real) -> real, items: seq<Harvest>) returns (totalByKey: map<Key, real>)
    ensures totalByKey.Keys == KeysOf(items)
    ensures forall k | k in totalByKey :: totalByKey[k] == SumFor(add, items, k)
  {
    totalByKey := map[];
    for i := 0 to |items|
      invariant totalByKey.Keys == KeysOf(items[..i])
      invariant forall k | k in totalByKey :: totalByKey[k] == SumFor(add, items[..i], k)
    {
      var key := KeyOf(items[i]);
      assert items[..i + 1][..i] == items[..i];
      assert items[..i + 1] == items[..i] + [items[i]];
      assert KeysOf(items[..i + 1]) == KeysOf(items[..i]) + {key};
      if key !in totalByKey {
        AbsentKeySum(add, items[..i], key);
      }
      var soFar := if key in totalByKey then totalByKey[key] else 0.0;
      totalByKey := totalByKey[key := add(soFar, items[i].amount)];
    }
    assert items[..|items|] == items;
  }

  lemma {:induction false} AbsentKeySum(add: (real, real) -> real, items: seq<Harvest>, key: Key)
    requires key !in KeysOf(items)
    ensures SumFor(add, items, key) == 0.0
    decreases |items|
  {
    if items == [] {
    } else {
      var n := |items| - 1;
      assert items[n] in items;
      assert forall h | h in items[..n] :: h in items;
      AbsentKeySum(add, items[..n], key);
    }
  }

  /** Put `x` at its place among sorted totals. */
  method Insert(x: ReportTotal, xs: seq<ReportTotal>) returns (ys: seq<ReportTotal>)
    requires Sorted(TotalLess(), xs) && DistinctKeys({x} + Elements(xs)) && x !in xs
    ensures Sorted(TotalLess(), ys) && Elements(ys) == {x} + Elements(xs)
  {
    TotalOrder({x} + Elements(xs));
    var less := TotalLess();
    var i := 0;
    while i < |xs| && TotalBefore(xs[i], x)
      invariant 0 <= i <= |xs|
      invariant forall j | 0 <= j < i :: less(xs[j], x)
    {
      i := i + 1;
    }
    ys := xs[..i] + [x] + xs[i..];
    InsertedInOrder(x, xs, i);
  }

  lemma InsertedInOrder(x: ReportTotal, xs: seq<ReportTotal>, i: nat)
    requires Sorted(TotalLess(), xs) && StrictTotal(TotalLess(), {x} + Elements(xs)) && i <= |xs|
    requires forall j | 0 <= j < i :: TotalLess()(xs[j], x)
    requires i < |xs| ==> xs[i] != x && !TotalLess()(xs[i], x)
    ensures Sorted(TotalLess(), xs[..i] + [x] + xs[i..])
    ensures Elements(xs[..i] + [x] + xs[i..]) == {x} + Elements(xs)
  {
    forall j | i <= j < |xs| ensures TotalLess()(x, xs[j]) {
      AfterFirst(x, xs, i, j);
    }
    assert xs == xs[..i] + xs[i..];
  }

  lemma AfterFirst(x: ReportTotal, xs: seq<ReportTotal>, i: nat, j: nat)
    requires Sorted(TotalLess(), xs) && StrictTotal(TotalLess(), {x} + Elements(xs)) && i <= j < |xs|
    requires xs[i] != x && !TotalLess()(xs[i], x)
    ensures TotalLess()(x, xs[j])
  {
    assert xs[i] in Elements(xs) && xs[j] in Elements(xs) && x in {x} + Elements(xs);
    assert TotalLess()(x, xs[i]);
    if i < j {
      assert TotalLess()(xs[i], xs[j]);
    }
  }

  /** sort.Slice by (product, unit). */
  method SortTotals(totals: seq<ReportTotal>) returns (sorted: seq<ReportTotal>)
    requires DistinctKeys(Elements(totals)) && forall i, j | 0 <= i < j < |totals| :: totals[i] != totals[j]
    ensures Sorted(TotalLess(), sorted) && Elements(sorted) == Elements(totals)
  {
    sorted := [];
    for i := 0 to |totals|
      invariant Sorted(TotalLess(), sorted) && Elements(sorted) == Elements(totals[..i])
    {
      assert totals[..i + 1] == totals[..i] + [totals[i]];
      assert totals[i] !in Elements(totals[..i]);
      assert Elements(totals[..i]) <= Elements(totals) && totals[i] in Elements(totals);
      sorted := Insert(totals[i], sorted);
      assert Elements(totals[..i + 1]) == {totals[i]} + Elements(totals[..i]);
    }
    assert totals[..|totals|] == totals;
  }

  /** One total a key, in whatever order the map yields its keys. */
  method EmitTotals(totalByKey: map<Key, real>) returns (totals: seq<ReportTotal>)
    ensures forall r | r in totals :: (r.product, r.unit) in totalByKey && r.amount == totalByKey[(r.product, r.unit)]
    ensures forall k | k in totalByKey :: ReportTotal(k.0, k.1, totalByKey[k]) in totals
    ensures forall i, j | 0 <= i < j < |totals| :: totals[i] != totals[j]
  {
    totals := [];
    var rest := totalByKey.Keys;
    while rest != {}
      invariant rest <= totalByKey.Keys
      invariant forall r | r in totals ::
                  (r.product, r.unit) in totalByKey.Keys - rest && r.amount == totalByKey[(r.product, r.unit)]
      invariant forall k | k in totalByKey.Keys - rest :: ReportTotal(k.0, k.1, totalByKey[k]) in totals
      invariant forall i, j | 0 <= i < j < |totals| :: totals[i] != totals[j]
      decreases |rest|
    {
      var key :| key in rest;
      totals := totals + [ReportTotal(key.0, key.1, totalByKey[key])];
      rest := rest - {key};
    }
  }

  // ----- the totals on the fields of the items

  /** The amounts of the items of this product and unit, in list order. */
  function AmountsOf(items: seq<Harvest>, product: string, unit: string): seq<real> {
    if items == [] then []
    else
      var last := items[|items| - 1];
      AmountsOf(items[..|items| - 1], product, unit) +
      (if last.product == product && last.unit == unit then [last.amount] else [])
  }

  /** Added up from the left, starting at zero. */
  function AddedUp(add: (real, real) -> real, amounts: seq<real>): real {
    if amounts == [] then 0.0 else add(AddedUp(add, amounts[..|amounts| - 1]), amounts[|amounts| - 1])
  }

  lemma {:induction false} SumForOnFields(add: (real, real) -> real, items: seq<Harvest>, product: string, unit: string)
    ensures SumFor(add, items, (product, unit)) == AddedUp(add, AmountsOf(items, product, unit))
    decreases |items|
  {
    if items == [] {
    } else {
      SumForOnFields(add, items[..|items| - 1], product, unit);
      var before, last := AmountsOf(items[..|items| - 1], product, unit), items[|items| - 1];
      assert before + [] == before;
      assert (before + [last.amount])[..|before + [last.amount]| - 1] == before;
      assert KeyOf(last) == (last.product, last.unit);
    }
  }

  ghost predicate Totalled(add: (real, real) -> real, items: seq<Harvest>, r: ReportTotal) {
    && (exists h :: h in items && h.product == r.product && h.unit == r.unit)
    && r.amount == AddedUp(add, AmountsOf(items, r.product, r.unit))
  }

  /** Before in the order of product texts, or of unit texts within a product. */
  ghost predicate TotalAhead(a: ReportTotal, b: ReportTotal) {
    if a.product == b.product then TextBefore(a.unit, b.unit) else TextBefore(a.product, b.product)
  }

  lemma TotalsOnFields(add: (real, real) -> real, items: seq<Harvest>, totals: seq<ReportTotal>)
    requires AreTotals(add, items, totals)
    ensures forall r :: r in totals <==> Totalled(add, items, r)
    ensures forall i, j | 0 <= i < j < |totals| :: TotalAhead(totals[i], totals[j])
  {
    forall r: ReportTotal ensures r in totals <==> Totalled(add, items, r) {
      TotalOnFields(add, items, totals, r);
    }
    forall i, j | 0 <= i < j < |totals| ensures TotalAhead(totals[i], totals[j]) {
      assert TotalLess()(totals[i], totals[j]);
      StringLessIsTextBefore(totals[i].product, totals[j].product);
      StringLessIsTextBefore(totals[i].unit, totals[j].unit);
    }
  }

  lemma TotalOnFields(add: (real, real) -> real, items: seq<Harvest>, totals: seq<ReportTotal>, r: ReportTotal)
    requires AreTotals(add, items, totals)
    ensures r in totals <==> Totalled(add, items, r)
  {
    SumForOnFields(add, items, r.product, r.unit);
    assert (r.product, r.unit) in KeysOf(items) <==>
           exists h :: h in items && h.product == r.product && h.unit == r.unit;
  }

  /** The whole aggregation.  The keys leave the map in an arbitrary order,
      and the result does not depend on it (`TotalsUnique`). */
  method ReportTotals(add: (real, real) -> real, items: seq<Harvest>) returns (totals: seq<ReportTotal>)
    ensures AreTotals(add, items, totals)
    ensures forall r :: r in totals <==>
              && (exists h :: h in items && h.product == r.product && h.unit == r.unit)
              && r.amount == AddedUp(add, AmountsOf(items, r.product, r.unit))
    ensures forall i, j | 0 <= i < j < |totals| :: TotalAhead(totals[i], totals[j])
  {
    var totalByKey := FoldByKey(add, items);
    var unsorted := EmitTotals(totalByKey);
    totals := SortTotals(unsorted);
    assert forall r :: r in totals <==> r in unsorted by {
      assert forall r :: r in totals <==> r in Elements(totals);
      assert forall r :: r in unsorted <==> r in Elements(unsorted);
    }
    TotalsOnFields(add, items, totals);
    assert forall r :: r in totals <==> Totalled(add, items, r);
  }

  // ----- over the reals

  function RealAdd(): (real, real) -> real { (a: real, b: real) => a + b }

  function AmountSum(items: seq<Harvest>): real {
    if items == [] then 0.0 else AmountSum(items[..|items| - 1]) + items[|items| - 1].amount
  }

  function TotalSum(totals: seq<ReportTotal>): real {
    if totals == [] then 0.0 else TotalSum(totals[..|totals| - 1]) + totals[|totals| - 1].amount
  }

  /** The amount of every key in `keys` summed, one key at a time. */
  ghost function KeyedSum(items: seq<Harvest>, totals: seq<ReportTotal>): real {
    if totals == [] then 0.0
    else
      var r := totals[|totals| - 1];
      KeyedSum(items, totals[..|totals| - 1]) + SumFor(RealAdd(), items, (r.product, r.unit))
  }

  lemma {:induction false} KeyedSumIsTotalSum(items: seq<Harvest>, totals: seq<ReportTotal>)
    requires forall r | r in totals :: r.amount == SumFor(RealAdd(), items, (r.product, r.unit))
    ensures KeyedSum(items, totals) == TotalSum(totals)
    decreases |totals|
  {
    if totals == [] {
    } else {
      assert forall r | r in totals[..|totals| - 1] :: r in totals;
      assert totals[|totals| - 1] in totals;
      KeyedSumIsTotalSum(items, totals[..|totals| - 1]);
    }
  }

  ghost predicate DistinctKeySeq(totals: seq<ReportTotal>) {
    forall i, j | 0 <= i < j < |totals| ::
      totals[i].product != totals[j].product || totals[i].unit != totals[j].unit
  }

  ghost predicate HasKey(totals: seq<ReportTotal>, k: Key) {
    exists r :: r in totals && (r.product, r.unit) == k
  }

  /** One more item adds its amount to exactly one key. */
  lemma {:induction false} KeyedSumExtends(items: seq<Harvest>, totals: seq<ReportTotal>)
    requires items != [] && DistinctKeySeq(totals)
    ensures var last := items[|items| - 1];
            KeyedSum(items, totals) == KeyedSum(items[..|items| - 1], totals)
              + (if HasKey(totals, KeyOf(last)) then last.amount else 0.0)
    decreases |totals|
  {
    if totals == [] {
    } else {
      var front, r := totals[..|totals| - 1], totals[|totals| - 1];
      KeyedSumExtends(items, front);
      assert totals == front + [r];
      assert r in totals;
    }
  }

  lemma {:induction false} KeyedSumConserves(items: seq<Harvest>, totals: seq<ReportTotal>)
    requires DistinctKeySeq(totals)
    requires forall k | k in KeysOf(items) :: HasKey(totals, k)
    ensures KeyedSum(items, totals) == AmountSum(items)
    decreases |items|
  {
    if items == [] {
      EmptyKeyedSum(totals);
    } else {
      var n := |items| - 1;
      assert items[n] in items && KeyOf(items[n]) in KeysOf(items);
      assert forall h | h in items[..n] :: h in items;
      KeyedSumConserves(items[..n], totals);
      KeyedSumExtends(items, totals);
    }
  }

  lemma {:induction false} EmptyKeyedSum(totals: seq<ReportTotal>)
    ensures KeyedSum([], totals) == 0.0
    decreases |totals|
  {
    if totals == [] {
    } else {
      EmptyKeyedSum(totals[..|totals| - 1]);
    }
  }

  /** Over the reals the totals conserve the amounts: nothing is lost or
      counted twice, however the items fall into keys. */
  lemma TotalsConserve(items: seq<Harvest>, totals: seq<ReportTotal>)
    requires AreTotals(RealAdd(), items, totals)
    ensures TotalSum(totals) == AmountSum(items)
  {
    KeyedSumIsTotalSum(items, totals);
    forall i, j | 0 <= i < j < |totals|
      ensures totals[i].product != totals[j].product || totals[i].unit != totals[j].unit
    {
      assert TotalLess()(totals[i], totals[j]);
      StringLessIrreflexive(totals[i].unit);
    }
    forall k | k in KeysOf(items) ensures HasKey(totals, k) {
      var r := ReportTotal(k.0, k.1, SumFor(RealAdd(), items, k));
      assert r in totals && (r.product, r.unit) == k;
    }
    KeyedSumConserves(items, totals);
  }

  /** Over the reals a fold splits at any point of the list. */
  lemma {:induction false} SumForSplits(a: seq<Harvest>, b: seq<Harvest>, key: Key)
    ensures SumFor(RealAdd(), a + b, key) == SumFor(RealAdd(), a, key) + SumFor(RealAdd(), b, key)
    decreases |b|
  {
    if b == [] {
      assert a + b == a;
    } else {
      var n := |b| - 1;
      assert (a + b)[..|a + b| - 1] == a + b[..n];
      SumForSplits(a, b[..n], key);
    }
  }

  lemma RemoveOne<T>(a: seq<T>, b: seq<T>, i: nat)
    requires a != [] && i < |b| && b[i] == a[|a| - 1] && multiset(a) == multiset(b)
    ensures multiset(a[..|a| - 1]) == multiset(b[..i] + b[i + 1..])
  {
    var x, left, right := b[i], b[..i], b[i + 1..];
    assert a == a[..|a| - 1] + [x];
    assert b == left + [x] + right;
    assert multiset(a[..|a| - 1]) == multiset(a) - multiset{x};
    assert multiset(left + right) == multiset(b) - multiset{x};
  }

  /** Over the reals the fold depends only on which items there are, so a
      report does not depend on the order in which its pages came. */
  lemma {:induction false} SumForPermutes(a: seq<Harvest>, b: seq<Harvest>, key: Key)
    requires multiset(a) == multiset(b)
    ensures SumFor(RealAdd(), a, key) == SumFor(RealAdd(), b, key)
    decreases |a|
  {
    if a == [] {
      assert |multiset(b)| == 0;
    } else {
      var n := |a| - 1;
      assert a[n] in multiset(b);
      var i :| 0 <= i < |b| && b[i] == a[n];
      var left, right := b[..i], b[i + 1..];
      RemoveOne(a, b, i);
      SumForPermutes(a[..n], left + right, key);
      SumForSplits(left, right, key);
      SumForSplits(left + [b[i]], right, key);
      assert b == left + [b[i]] + right;
      assert (left + [b[i]])[..i] == left;
    }
  }
}
