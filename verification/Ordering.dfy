/** Strict orders, the one sequence that lists a set in such an order, ranks,
    and pages of a sequence.  `ORDER BY ... LIMIT ... OFFSET ...` means `Page`
    of `OrderBy`. */
module Ordering {

  ghost predicate StrictTotal<T>(less: (T, T) -> bool, s: set<T>) {
    && (forall x | x in s :: !less(x, x))
    && (forall x, y | x in s && y in s :: x != y ==> less(x, y) || less(y, x))
    && (forall x, y, z | x in s && y in s && z in s :: less(x, y) && less(y, z) ==> less(x, z))
  }

  ghost predicate Sorted<T>(less: (T, T) -> bool, xs: seq<T>) {
    forall i, j | 0 <= i < j < |xs| :: less(xs[i], xs[j])
  }

  ghost function Elements<T>(xs: seq<T>): set<T> {
    set x | x in xs
  }

  lemma ConsElements<T>(x: T, xs: seq<T>)
    ensures Elements([x] + xs) == {x} + Elements(xs)
  {
  }

  ghost predicate IsLeast<T>(less: (T, T) -> bool, s: set<T>, m: T) {
    m in s && forall x | x in s :: x == m || less(m, x)
  }

  lemma {:induction false} LeastExists<T>(less: (T, T) -> bool, s: set<T>)
    requires StrictTotal(less, s) && s != {}
    ensures exists m :: IsLeast(less, s, m)
    decreases |s|
  {
    var x :| x in s;
    if s == {x} {
      assert IsLeast(less, s, x);
    } else {
      LeastExists(less, s - {x});
      var rest :| IsLeast(less, s - {x}, rest);
      assert IsLeast(less, s, if less(x, rest) then x else rest);
    }
  }

  /** The elements of `s` in increasing order of `less`. */
  ghost function OrderBy<T>(less: (T, T) -> bool, s: set<T>): seq<T>
    requires StrictTotal(less, s)
    decreases |s|
  {
    if s == {} then []
    else [LeastOf(less, s)] + OrderBy(less, s - {LeastOf(less, s)})
  }

  lemma {:induction false} OrderByLists<T>(less: (T, T) -> bool, s: set<T>)
    requires StrictTotal(less, s)
    ensures Sorted(less, OrderBy(less, s)) && Elements(OrderBy(less, s)) == s && |OrderBy(less, s)| == |s|
    decreases |s|
  {
    if s == {} {
    } else {
      var m := LeastOf(less, s);
      OrderByLists(less, s - {m});
      ConsElements(m, OrderBy(less, s - {m}));
      PrependSorted(less, m, OrderBy(less, s - {m}), s);
    }
  }

  ghost function LeastOf<T>(less: (T, T) -> bool, s: set<T>): (m: T)
    requires StrictTotal(less, s) && s != {}
    ensures IsLeast(less, s, m)
  {
    LeastExists(less, s);
    var m :| IsLeast(less, s, m);
    m
  }

  /** Two sorted listings of one set are equal: the order leaves no choice. */
  lemma {:induction false} SortedUnique<T>(less: (T, T) -> bool, xs: seq<T>, ys: seq<T>)
    requires Sorted(less, xs) && Sorted(less, ys)
    requires Elements(xs) == Elements(ys)
    requires StrictTotal(less, Elements(xs))
    ensures xs == ys
    decreases |xs|
  {
    if xs == [] {
      NoElements(ys);
    } else {
      assert xs[0] in Elements(ys);
      assert ys[0] in Elements(ys);
      HeadIsLeast(less, xs);
      HeadIsLeast(less, ys);
      assert xs[0] == ys[0];
      assert Elements(xs[1..]) == Elements(xs) - {xs[0]} by { TailElements(less, xs); }
      assert Elements(ys[1..]) == Elements(ys) - {ys[0]} by { TailElements(less, ys); }
      SortedUnique(less, xs[1..], ys[1..]);
    }
  }

  lemma NoElements<T>(xs: seq<T>)
    ensures Elements(xs) == {} <==> xs == []
  {
    if xs != [] {
      assert xs[0] in Elements(xs);
    }
  }

  lemma HeadIsLeast<T>(less: (T, T) -> bool, xs: seq<T>)
    requires xs != [] && Sorted(less, xs)
    ensures IsLeast(less, Elements(xs), xs[0])
  {
    forall x | x in Elements(xs) ensures x == xs[0] || less(xs[0], x) {
      var i :| 0 <= i < |xs| && xs[i] == x;
    }
  }

  lemma TailElements<T>(less: (T, T) -> bool, xs: seq<T>)
    requires xs != [] && Sorted(less, xs) && StrictTotal(less, Elements(xs))
    ensures Elements(xs[1..]) == Elements(xs) - {xs[0]}
  {
    forall x | x in Elements(xs[1..]) ensures x in Elements(xs) - {xs[0]} {
      var i :| 0 <= i < |xs[1..]| && xs[1..][i] == x;
      assert x == xs[i + 1] && x in Elements(xs) && less(xs[0], xs[i + 1]);
    }
    forall x | x in Elements(xs) - {xs[0]} ensures x in Elements(xs[1..]) {
      var i :| 0 <= i < |xs| && xs[i] == x;
      assert xs[1..][i - 1] == x;
    }
  }

  lemma SortedIsOrderBy<T>(less: (T, T) -> bool, xs: seq<T>, s: set<T>)
    requires Sorted(less, xs) && Elements(xs) == s && StrictTotal(less, s)
    ensures xs == OrderBy(less, s)
  {
    OrderByLists(less, s);
    SortedUnique(less, xs, OrderBy(less, s));
  }

  /** The elements of `s` that come before `x`. */
  ghost function Below<T>(less: (T, T) -> bool, s: set<T>, x: T): set<T> {
    set y | y in s && less(y, x)
  }

  /** How many elements of `s` come before `x`. */
  ghost function Rank<T>(less: (T, T) -> bool, s: set<T>, x: T): nat {
    |Below(less, s, x)|
  }

  lemma NotAmongEarlier<T>(less: (T, T) -> bool, xs: seq<T>, k: nat)
    requires Sorted(less, xs) && StrictTotal(less, Elements(xs)) && k < |xs|
    ensures xs[k] !in Elements(xs[..k])
  {
    assert xs[k] in Elements(xs) && !less(xs[k], xs[k]);
    forall i | 0 <= i < k ensures xs[..k][i] != xs[k] {
      assert less(xs[i], xs[k]);
    }
  }

  lemma AppendElements<T>(xs: seq<T>, x: T)
    ensures Elements(xs + [x]) == Elements(xs) + {x}
  {
  }

  lemma {:induction false} PrefixSize<T>(less: (T, T) -> bool, xs: seq<T>, k: nat)
    requires Sorted(less, xs) && StrictTotal(less, Elements(xs)) && k <= |xs|
    ensures |Elements(xs[..k])| == k
    decreases k
  {
    if k == 0 {
    } else {
      PrefixSize(less, xs, k - 1);
      NotAmongEarlier(less, xs, k - 1);
      assert xs[..k] == xs[..k - 1] + [xs[k - 1]];
      AppendElements(xs[..k - 1], xs[k - 1]);
    }
  }

  lemma OrderOfIndices<T>(less: (T, T) -> bool, xs: seq<T>, i: nat, j: nat)
    requires Sorted(less, xs) && StrictTotal(less, Elements(xs)) && i < |xs| && j < |xs|
    ensures less(xs[i], xs[j]) <==> i < j
  {
    assert xs[i] in Elements(xs) && xs[j] in Elements(xs);
    if j < i {
      assert less(xs[j], xs[i]);
    }
  }

  /** In a sorted listing the position of an element is its rank. */
  lemma RankIsIndex<T>(less: (T, T) -> bool, xs: seq<T>, i: nat)
    requires Sorted(less, xs) && StrictTotal(less, Elements(xs)) && i < |xs|
    ensures Rank(less, Elements(xs), xs[i]) == i
  {
    var below := Below(less, Elements(xs), xs[i]);
    assert xs[i] in Elements(xs);
    forall y | y in below ensures y in Elements(xs[..i]) {
      var j :| 0 <= j < |xs| && xs[j] == y;
      OrderOfIndices(less, xs, j, i);
      assert xs[..i][j] == y;
    }
    forall y | y in Elements(xs[..i]) ensures y in below {
      var j :| 0 <= j < |xs[..i]| && xs[..i][j] == y;
      assert xs[j] == y && less(xs[j], xs[i]) && xs[j] in Elements(xs);
    }
    assert below == Elements(xs[..i]);
    PrefixSize(less, xs, i);
  }

  lemma {:induction false} SubsetSize<T>(a: set<T>, b: set<T>)
    requires a <= b
    ensures |a| <= |b|
  {
    assert b == a + (b - a);
  }

  /** Adding elements never moves an element to an earlier position. */
  lemma RankGrows<T>(less: (T, T) -> bool, small: set<T>, large: set<T>, x: T)
    requires small <= large
    ensures Rank(less, small, x) <= Rank(less, large, x)
  {
    SubsetSize(Below(less, small, x), Below(less, large, x));
  }

  // ----- reversal

  function Reverse<T>(xs: seq<T>): (r: seq<T>)
    ensures |r| == |xs|
    ensures forall i | 0 <= i < |xs| :: r[i] == xs[|xs| - 1 - i]
  {
    seq(|xs|, i requires 0 <= i < |xs| => xs[|xs| - 1 - i])
  }

  lemma ReverseElements<T>(xs: seq<T>)
    ensures Elements(Reverse(xs)) == Elements(xs)
  {
    forall x | x in xs ensures x in Reverse(xs) {
      var i :| 0 <= i < |xs| && xs[i] == x;
      assert Reverse(xs)[|xs| - 1 - i] == x;
    }
  }

  /** Listing a set by the opposite order is the reversed listing. */
  lemma OppositeOrderReverses<T>(less: (T, T) -> bool, more: (T, T) -> bool, s: set<T>)
    requires StrictTotal(less, s) && StrictTotal(more, s)
    requires forall x, y | x in s && y in s :: less(x, y) <==> more(y, x)
    ensures OrderBy(more, s) == Reverse(OrderBy(less, s))
  {
    OrderByLists(less, s);
    var up := OrderBy(less, s);
    var down := Reverse(up);
    ReverseElements(up);
    forall i, j | 0 <= i < j < |down| ensures more(down[i], down[j]) {
      assert up[|up| - 1 - j] in Elements(up) && up[|up| - 1 - i] in Elements(up);
    }
    SortedIsOrderBy(more, down, s);
  }

  // ----- pages

  function Min(a: int, b: int): int { if a < b then a else b }

  /** The rows that `LIMIT limit OFFSET offset` keeps. */
  function Page<T>(xs: seq<T>, limit: nat, offset: nat): seq<T> {
    xs[Min(offset, |xs|)..Min(offset + limit, |xs|)]
  }

  /** The k-th page runs from row (k-1)*limit up to row k*limit, as far as there are rows. */
  lemma PageLength<T>(xs: seq<T>, limit: nat, k: nat)
    requires k >= 1
    ensures 0 <= (k - 1) * limit && (k - 1) * limit + limit == k * limit
    ensures |Page(xs, limit, (k - 1) * limit)| == Min(k * limit, |xs|) - Min((k - 1) * limit, |xs|)
  {
    ProductGrows(0, k - 1, limit);
    assert (k - 1) * limit + limit == k * limit;
  }

  lemma ProductGrows(a: int, b: int, factor: nat)
    requires a <= b
    ensures a * factor <= b * factor
  {
    assert (b - a) * factor >= 0;
    assert (b - a) * factor == b * factor - a * factor;
  }

  /** The first `pages` pages of size `limit`, one after the other. */
  function ConcatPages<T>(xs: seq<T>, limit: nat, pages: nat): seq<T> {
    if pages == 0 then [] else ConcatPages(xs, limit, pages - 1) + Page(xs, limit, (pages - 1) * limit)
  }

  /** What grows with every step grows over any number of them. */
  lemma {:induction false} Monotone(x: nat -> nat, m: nat, n: nat)
    requires m <= n && forall k: nat | m <= k < n :: x(k) <= x(k + 1)
    ensures x(m) <= x(n)
    decreases n
  {
    if m == n {
    } else {
      Monotone(x, m, n - 1);
      assert x(n - 1) <= x(n - 1 + 1);
    }
  }

  /** Consecutive pages tile the listing: no gap and no repeat. */
  lemma {:induction false} PagesTile<T>(xs: seq<T>, limit: nat, pages: nat)
    ensures pages * limit >= 0
    ensures ConcatPages(xs, limit, pages) == xs[..Min(pages * limit, |xs|)]
    decreases pages
  {
    if pages == 0 {
    } else {
      PagesTile(xs, limit, pages - 1);
      ProductGrows(0, pages - 1, limit);
      assert pages * limit == (pages - 1) * limit + limit;
      var lo, hi := Min((pages - 1) * limit, |xs|), Min(pages * limit, |xs|);
      assert xs[..lo] + xs[lo..hi] == xs[..hi];
    }
  }

  /** A page of the reversed listing is the reversed slice at the other end. */
  lemma PageOfReverse<T>(xs: seq<T>, limit: nat, offset: nat)
    ensures var hi := |xs| - Min(offset, |xs|);
            var lo := |xs| - Min(offset + limit, |xs|);
            Page(Reverse(xs), limit, offset) == Reverse(xs[lo..hi])
  {
  }

  // ----- merging

  /** The two-way merge of two sorted sequences. */
  function Merge<T>(less: (T, T) -> bool, xs: seq<T>, ys: seq<T>): seq<T>
    decreases |xs| + |ys|
  {
    if xs == [] then ys
    else if ys == [] then xs
    else if less(xs[0], ys[0]) then [xs[0]] + Merge(less, xs[1..], ys)
    else [ys[0]] + Merge(less, xs, ys[1..])
  }

  lemma {:induction false} MergeElements<T>(less: (T, T) -> bool, xs: seq<T>, ys: seq<T>)
    ensures Elements(Merge(less, xs, ys)) == Elements(xs) + Elements(ys)
    decreases |xs| + |ys|
  {
    if xs == [] || ys == [] {
    } else if less(xs[0], ys[0]) {
      MergeElements(less, xs[1..], ys);
      assert xs == [xs[0]] + xs[1..];
      assert forall x :: x in Merge(less, xs, ys) <==> x == xs[0] || x in Elements(Merge(less, xs[1..], ys));
    } else {
      MergeElements(less, xs, ys[1..]);
      assert ys == [ys[0]] + ys[1..];
      assert forall x :: x in Merge(less, xs, ys) <==> x == ys[0] || x in Elements(Merge(less, xs, ys[1..]));
    }
  }

  lemma {:induction false} MergeSorted<T>(less: (T, T) -> bool, xs: seq<T>, ys: seq<T>)
    requires Sorted(less, xs) && Sorted(less, ys)
    requires StrictTotal(less, Elements(xs) + Elements(ys)) && Elements(xs) !! Elements(ys)
    ensures Sorted(less, Merge(less, xs, ys))
    decreases |xs| + |ys|
  {
    if xs == [] || ys == [] {
    } else {
      var all := Elements(xs) + Elements(ys);
      assert xs[0] in Elements(xs) && ys[0] in Elements(ys);
      HeadIsLeast(less, xs);
      HeadIsLeast(less, ys);
      if less(xs[0], ys[0]) {
        TailElements(less, xs);
        MergeSorted(less, xs[1..], ys);
        MergeElements(less, xs[1..], ys);
        PrependSorted(less, xs[0], Merge(less, xs[1..], ys), all);
      } else {
        TailElements(less, ys);
        MergeSorted(less, xs, ys[1..]);
        MergeElements(less, xs, ys[1..]);
        PrependSorted(less, ys[0], Merge(less, xs, ys[1..]), all);
      }
    }
  }

  lemma PrependSorted<T>(less: (T, T) -> bool, x: T, xs: seq<T>, all: set<T>)
    requires Sorted(less, xs) && IsLeast(less, all, x) && Elements(xs) <= all - {x}
    ensures Sorted(less, [x] + xs)
  {
    forall i, j | 0 <= i < j < |xs| + 1 ensures less(([x] + xs)[i], ([x] + xs)[j]) {
      assert xs[j - 1] in Elements(xs);
    }
  }

  /** Listing a disjoint union is merging the two listings. */
  lemma UnionIsMerge<T>(less: (T, T) -> bool, a: set<T>, b: set<T>)
    requires StrictTotal(less, a + b) && a !! b
    ensures OrderBy(less, a + b) == Merge(less, OrderBy(less, a), OrderBy(less, b))
  {
    OrderByLists(less, a);
    OrderByLists(less, b);
    MergeElements(less, OrderBy(less, a), OrderBy(less, b));
    MergeSorted(less, OrderBy(less, a), OrderBy(less, b));
    SortedIsOrderBy(less, Merge(less, OrderBy(less, a), OrderBy(less, b)), a + b);
  }
}
