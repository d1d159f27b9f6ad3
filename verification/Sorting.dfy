/** Stable sorting by a descending natural key, and the first element that passes a test. */
module Sorting {
  import opened Outcomes

  function InsertByKey<T>(sorted: seq<T>, x: T, key: T -> nat): seq<T> {
    if sorted == [] then [x]
    else if key(sorted[0]) >= key(x) then [sorted[0]] + InsertByKey(sorted[1..], x, key)
    else [x] + sorted
  }

  /** Largest key first, ties in their order. */
  function SortByKey<T>(items: seq<T>, key: T -> nat): seq<T>
    decreases |items|
  {
    if items == [] then [] else InsertByKey(SortByKey(items[..|items| - 1], key), items[|items| - 1], key)
  }

  function First<T>(items: seq<T>, test: T -> bool): Option<T> {
    if items == [] then None
    else if test(items[0]) then Some(items[0])
    else First(items[1..], test)
  }

  /** The items with this key, in their order. */
  function WithKey<T>(items: seq<T>, key: T -> nat, k: nat): seq<T> {
    if items == [] then []
    else if key(items[0]) == k then [items[0]] + WithKey(items[1..], key, k)
    else WithKey(items[1..], key, k)
  }

  ghost predicate Descending<T>(items: seq<T>, key: T -> nat) {
    items == [] || ((forall x <- items[1..] :: key(x) <= key(items[0])) && Descending(items[1..], key))
  }

  lemma {:induction false} FirstIn<T>(items: seq<T>, test: T -> bool)
    ensures var found := First(items, test);
            && (found.Some? ==> found.value in items && test(found.value))
            && (found.None? ==> forall x <- items :: !test(x))
  {
    if items != [] {
      assert items == [items[0]] + items[1..];
      FirstIn(items[1..], test);
    }
  }

  lemma {:induction false} InsertedElements<T>(sorted: seq<T>, x: T, key: T -> nat, y: T)
    ensures y in InsertByKey(sorted, x, key) <==> y in sorted || y == x
  {
    if sorted != [] {
      assert sorted == [sorted[0]] + sorted[1..];
      InsertedElements(sorted[1..], x, key, y);
    }
  }

  lemma {:induction false} SortedElements<T>(items: seq<T>, key: T -> nat, y: T)
    ensures y in SortByKey(items, key) <==> y in items
    decreases |items|
  {
    if items != [] {
      var init, last := items[..|items| - 1], items[|items| - 1];
      assert items == init + [last];
      SortedElements(init, key, y);
      InsertedElements(SortByKey(init, key), last, key, y);
    }
  }

  lemma {:induction false} WithKeySnoc<T>(items: seq<T>, x: T, key: T -> nat, k: nat)
    ensures WithKey(items + [x], key, k) == WithKey(items, key, k) + if key(x) == k then [x] else []
  {
    if items == [] {
      assert items + [x] == [x];
    } else {
      assert (items + [x])[1..] == items[1..] + [x];
      WithKeySnoc(items[1..], x, key, k);
    }
  }

  lemma WithKeyCons<T>(x: T, items: seq<T>, key: T -> nat, k: nat)
    ensures WithKey([x] + items, key, k) == (if key(x) == k then [x] else []) + WithKey(items, key, k)
  {
    assert ([x] + items)[1..] == items;
  }

  lemma {:induction false} NoneWithKey<T>(items: seq<T>, key: T -> nat, k: nat)
    requires forall x <- items :: key(x) < k
    ensures WithKey(items, key, k) == []
  {
    if items != [] {
      NoneWithKey(items[1..], key, k);
    }
  }

  lemma {:induction false} InsertedDescending<T>(sorted: seq<T>, x: T, key: T -> nat)
    requires Descending(sorted, key)
    ensures Descending(InsertByKey(sorted, x, key), key)
  {
    if sorted != [] {
      var rest := sorted[1..];
      if key(sorted[0]) >= key(x) {
        InsertedDescending(rest, x, key);
        forall y | y in InsertByKey(rest, x, key)
          ensures key(y) <= key(sorted[0])
        {
          InsertedElements(rest, x, key, y);
        }
        assert ([sorted[0]] + InsertByKey(rest, x, key))[1..] == InsertByKey(rest, x, key);
      } else {
        assert ([x] + sorted)[1..] == sorted;
      }
    }
  }

  lemma {:induction false} InsertedOrder<T>(sorted: seq<T>, x: T, key: T -> nat, k: nat)
    requires Descending(sorted, key)
    ensures WithKey(InsertByKey(sorted, x, key), key, k) == WithKey(sorted, key, k) + if key(x) == k then [x] else []
  {
    if sorted != [] {
      var rest := sorted[1..];
      if key(sorted[0]) >= key(x) {
        InsertedOrder(rest, x, key, k);
        WithKeyCons(sorted[0], InsertByKey(rest, x, key), key, k);
      } else {
        WithKeyCons(x, sorted, key, k);
        if key(x) == k {
          NoneWithKey(sorted, key, k);
        }
      }
    }
  }

  /** The sort is descending and stable. */
  lemma {:induction false} SortStable<T>(items: seq<T>, key: T -> nat, k: nat)
    ensures Descending(SortByKey(items, key), key)
    ensures WithKey(SortByKey(items, key), key, k) == WithKey(items, key, k)
    decreases |items|
  {
    if items != [] {
      var init, last := items[..|items| - 1], items[|items| - 1];
      assert items == init + [last];
      SortStable(init, key, k);
      InsertedDescending(SortByKey(init, key), last, key);
      InsertedOrder(SortByKey(init, key), last, key, k);
      WithKeySnoc(init, last, key, k);
    }
  }

  lemma FirstCons<T>(x: T, items: seq<T>, test: T -> bool)
    ensures First([x] + items, test) == if test(x) then Some(x) else First(items, test)
  {
    assert ([x] + items)[1..] == items;
  }

  lemma {:induction false} FirstWithKey<T>(items: seq<T>, key: T -> nat, test: T -> bool, best: T)
    requires Descending(items, key) && best in items && test(best)
    requires forall x <- items | test(x) :: key(x) <= key(best)
    ensures First(items, test) == First(WithKey(items, key, key(best)), test)
  {
    var rest := items[1..];
    assert items == [items[0]] + rest;
    FirstCons(items[0], WithKey(rest, key, key(best)), test);
    if !test(items[0]) {
      FirstWithKey(rest, key, test, best);
    }
  }

  /** After the sort, the first that passes is the first, in the items' order, of the largest key that passes. */
  lemma FirstIsLargest<T>(items: seq<T>, key: T -> nat, test: T -> bool, best: T)
    requires best in items && test(best)
    requires forall x <- items | test(x) :: key(x) <= key(best)
    ensures First(SortByKey(items, key), test) == First(WithKey(items, key, key(best)), test)
  {
    SortStable(items, key, key(best));
    SortedElements(items, key, best);
    forall y | y in SortByKey(items, key) && test(y)
      ensures key(y) <= key(best)
    {
      SortedElements(items, key, y);
    }
    FirstWithKey(SortByKey(items, key), key, test, best);
  }

  lemma {:induction false} FirstAt<T>(items: seq<T>, key: T -> nat, k: nat, test: T -> bool, first: nat)
    requires first < |items| && test(items[first]) && key(items[first]) == k
    requires forall i | 0 <= i < first :: !(test(items[i]) && key(items[i]) == k)
    ensures First(WithKey(items, key, k), test) == Some(items[first])
  {
    FirstCons(items[0], WithKey(items[1..], key, k), test);
    if first > 0 {
      FirstAt(items[1..], key, k, test, first - 1);
    }
  }
}

/** Sequences in a strict order, and the place each element has in one. */
module Order {
  ghost predicate StrictOrder<T(!new)>(less: (T, T) -> bool) {
    && (forall x :: !less(x, x))
    && (forall x, y, z :: less(x, y) && less(y, z) ==> less(x, z))
    && (forall x, y :: less(x, y) || x == y || less(y, x))
  }

  ghost predicate Ordered<T(!new)>(items: seq<T>, less: (T, T) -> bool) {
    forall i, j | 0 <= i < j < |items| :: less(items[i], items[j])
  }

  ghost predicate Distinct<T>(items: seq<T>) {
    forall i, j | 0 <= i < j < |items| :: items[i] != items[j]
  }

  function Insert<T>(sorted: seq<T>, x: T, less: (T, T) -> bool): seq<T> {
    if sorted == [] || less(x, sorted[0]) then [x] + sorted
    else [sorted[0]] + Insert(sorted[1..], x, less)
  }

  function Sort<T>(items: seq<T>, less: (T, T) -> bool): seq<T> {
    if items == [] then [] else Insert(Sort(items[1..], less), items[0], less)
  }

  lemma OrderedCons<T(!new)>(x: T, items: seq<T>, less: (T, T) -> bool)
    requires Ordered(items, less) && forall y <- items :: less(x, y)
    ensures Ordered([x] + items, less)
  {
    var all := [x] + items;
    forall i, j | 0 <= i < j < |all|
      ensures less(all[i], all[j])
    {
      assert all[j] == items[j - 1];
    }
  }

  lemma {:induction false} InsertElements<T(!new)>(sorted: seq<T>, x: T, less: (T, T) -> bool)
    ensures forall y :: y in Insert(sorted, x, less) <==> y in sorted || y == x
  {
    if sorted != [] && !less(x, sorted[0]) {
      assert sorted == [sorted[0]] + sorted[1..];
      InsertElements(sorted[1..], x, less);
    }
  }

  lemma {:induction false} InsertOrdered<T(!new)>(sorted: seq<T>, x: T, less: (T, T) -> bool)
    requires StrictOrder(less) && Ordered(sorted, less) && x !in sorted
    ensures Ordered(Insert(sorted, x, less), less)
  {
    if sorted == [] {
    } else if less(x, sorted[0]) {
      OrderedCons(x, sorted, less);
    } else {
      InsertOrdered(sorted[1..], x, less);
      InsertElements(sorted[1..], x, less);
      OrderedCons(sorted[0], Insert(sorted[1..], x, less), less);
    }
  }

  lemma {:induction false} SortSpec<T(!new)>(items: seq<T>, less: (T, T) -> bool)
    requires StrictOrder(less) && Distinct(items)
    ensures Ordered(Sort(items, less), less) && forall x :: x in Sort(items, less) <==> x in items
  {
    if items != [] {
      assert items == [items[0]] + items[1..];
      SortSpec(items[1..], less);
      InsertOrdered(Sort(items[1..], less), items[0], less);
      InsertElements(Sort(items[1..], less), items[0], less);
    }
  }

  lemma OrderedDistinct<T(!new)>(items: seq<T>, less: (T, T) -> bool)
    requires StrictOrder(less) && Ordered(items, less)
    ensures Distinct(items)
  {
  }

  lemma {:induction false} DistinctSize<T(!new)>(items: seq<T>, n: nat)
    requires Distinct(items) && n <= |items|
    ensures |set i | 0 <= i < n :: items[i]| == n
  {
    var elements := set i | 0 <= i < n :: items[i];
    if n > 0 {
      DistinctSize(items, n - 1);
      var init := set i | 0 <= i < n - 1 :: items[i];
      assert elements == init + {items[n - 1]};
      assert items[n - 1] !in init;
    } else {
      assert elements == {};
    }
  }

  /** In an ordered sequence, an element's index is the number of elements before it. */
  lemma RankAt<T(!new)>(items: seq<T>, less: (T, T) -> bool, earlier: set<T>, i: nat)
    requires StrictOrder(less) && Ordered(items, less) && i < |items|
    requires forall x :: x in earlier <==> x in items && less(x, items[i])
    ensures |earlier| == i
  {
    OrderedDistinct(items, less);
    DistinctSize(items, i);
    assert earlier == set k | 0 <= k < i :: items[k];
  }

  // ---- Text in byte order ----

  /** Lexicographic order; the order of bytes for ASCII text, and of scalar values for any. */
  predicate Before(a: string, b: string) {
    b != "" && (a == "" || a[0] < b[0] || (a[0] == b[0] && Before(a[1..], b[1..])))
  }

  lemma {:induction false} BeforeIrreflexive(a: string)
    ensures !Before(a, a)
  {
    if a != "" {
      BeforeIrreflexive(a[1..]);
    }
  }

  lemma {:induction false} BeforeTransitive(a: string, b: string, c: string)
    requires Before(a, b) && Before(b, c)
    ensures Before(a, c)
  {
    if a != "" && a[0] == b[0] == c[0] {
      BeforeTransitive(a[1..], b[1..], c[1..]);
    }
  }

  lemma {:induction false} BeforeTotal(a: string, b: string)
    ensures Before(a, b) || a == b || Before(b, a)
  {
    if a != "" && b != "" && a[0] == b[0] {
      BeforeTotal(a[1..], b[1..]);
      assert a == [a[0]] + a[1..] && b == [b[0]] + b[1..];
    }
  }

  const ASCENDING: (string, string) -> bool := (a, b) => Before(a, b)
  const DESCENDING: (string, string) -> bool := (a, b) => Before(b, a)

  lemma TextOrders()
    ensures StrictOrder(ASCENDING) && StrictOrder(DESCENDING)
  {
    forall x: string
      ensures !Before(x, x)
    {
      BeforeIrreflexive(x);
    }
    forall x, y, z | Before(x, y) && Before(y, z)
      ensures Before(x, z)
    {
      BeforeTransitive(x, y, z);
    }
    forall x, y
      ensures Before(x, y) || x == y || Before(y, x)
    {
      BeforeTotal(x, y);
    }
  }
}
