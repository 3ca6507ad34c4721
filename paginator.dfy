/**
 * Fixed-size pagination as `get_page_from_paginator` uses it: a list is cut
 * into pages of `size` items, the last one possibly shorter, and page `k`
 * (counted from 1) is the slice from `(k-1)*size` up to `k*size` or the end
 * of the list. An empty list still has one, empty, first page.
 */
module Paginator {
  import opened Seqs

  /** What the paginator hands to a template (`page_obj`). */
  datatype Page<T> = Page(items: seq<T>, number: nat, numPages: nat, count: nat)
  {
    predicate HasNext() { number < numPages }
    predicate HasPrevious() { number > 1 }
  }

  function Min(a: nat, b: nat): nat { if a <= b then a else b }

  /** Number of pages for `count` items; at least one. */
  function NumPages(count: nat, size: nat): (n: nat)
    requires size > 0
    ensures n >= 1
    ensures count <= n * size
    ensures count == 0 || (n - 1) * size < count
    ensures count <= size ==> n == 1
  {
    if count <= size then 1
    else
      var m := NumPages(count - size, size);
      assert (m + 1) * size == m * size + size;
      m + 1
  }

  /** A page number the paginator can serve as it is. */
  predicate InRange(count: nat, size: nat, k: nat)
  {
    size > 0 && 1 <= k <= NumPages(count, size)
  }

  /**
   * The `page` query parameter as `Paginator.get_page` sees it: missing or
   * not an integer literal, or an integer.
   */
  datatype PageArg = NotAnInteger | Number(n: int)

  /**
   * The page `Paginator.get_page` serves: page 1 for a parameter that is not
   * an integer, the last page for a number out of range (below 1 or past
   * the end), the number itself otherwise. It never raises.
   */
  function PageNumber(count: nat, size: nat, arg: PageArg): (k: nat)
    requires size > 0
    ensures InRange(count, size, k)
    ensures arg.NotAnInteger? ==> k == 1
    ensures arg.Number? && 1 <= arg.n <= NumPages(count, size) ==> k == arg.n
    ensures arg.Number? && !(1 <= arg.n <= NumPages(count, size)) ==> k == NumPages(count, size)
  {
    match arg
    case NotAnInteger => 1
    case Number(n) => if 1 <= n <= NumPages(count, size) then n else NumPages(count, size)
  }

  /** Asking again for the page that was served serves the same page. */
  lemma PageNumberIdempotent(count: nat, size: nat, arg: PageArg)
    requires size > 0
    ensures PageNumber(count, size, Number(PageNumber(count, size, arg))) == PageNumber(count, size, arg)
  {
  }

  /** The items of page `k`. */
  function PageItems<T>(items: seq<T>, size: nat, k: nat): (r: seq<T>)
    requires InRange(|items|, size, k)
    ensures |r| <= size
    decreases k
  {
    if k == 1 then items[..Min(size, |items|)]
    else PageItems(items[size..], size, k - 1)
  }

  function GetPage<T>(items: seq<T>, size: nat, k: nat): (p: Page<T>)
    requires InRange(|items|, size, k)
    ensures p.count == |items| && p.number == k && p.numPages == NumPages(|items|, size)
    ensures p.HasNext() <==> k * size < |items|
    ensures p.HasPrevious() <==> k > 1
  {
    NextPageExists(items, size, k);
    Page(PageItems(items, size, k), k, NumPages(|items|, size), |items|)
  }

  /**
   * `p` is what `get_page` returns for `arg` on `items`: it counts the items
   * and the pages, carries the page number `PageNumber` chooses, and holds
   * the slice `[(k-1)*size, min(k*size, count))` of the list for that
   * number `k`.
   */
  ghost predicate ServesPage<T>(p: Page<T>, items: seq<T>, size: nat, arg: PageArg)
    requires size > 0
  {
    var k := PageNumber(|items|, size, arg);
    && p.count == |items| && p.numPages == NumPages(|items|, size) && p.number == k
    && (k - 1) * size <= Min(k * size, |items|) <= |items|
    && p.items == items[(k - 1) * size .. Min(k * size, |items|)]
  }

  /** `get_page_from_paginator`: the page the `page` parameter selects. */
  function GetPageFromPaginator<T>(items: seq<T>, size: nat, arg: PageArg): (p: Page<T>)
    requires size > 0
    ensures ServesPage(p, items, size, arg)
    ensures 1 <= p.number <= p.numPages
    ensures arg.Number? && 1 <= arg.n <= p.numPages ==> p.number == arg.n
    ensures p.items == PageItems(items, size, p.number)
  {
    PageIsSlice(items, size, PageNumber(|items|, size, arg));
    GetPage(items, size, PageNumber(|items|, size, arg))
  }

  lemma {:induction false} NextPageExists<T>(items: seq<T>, size: nat, k: nat)
    requires InRange(|items|, size, k)
    ensures k < NumPages(|items|, size) <==> k * size < |items|
    decreases k
  {
    if k > 1 {
      NextPageExists(items[size..], size, k - 1);
      MulStep(k, size);
    }
  }

  /**
   * Page `k` is exactly the slice `[(k-1)*size, min(k*size, count))` of the
   * list, as Django's `Paginator.page` computes it.
   */
  lemma {:induction false} PageIsSlice<T>(items: seq<T>, size: nat, k: nat)
    requires InRange(|items|, size, k)
    ensures (k - 1) * size <= Min(k * size, |items|) <= |items|
    ensures PageItems(items, size, k) == items[(k - 1) * size .. Min(k * size, |items|)]
    decreases k
  {
    if k > 1 {
      var rest := items[size..];
      assert InRange(|rest|, size, k - 1);
      assert PageItems(items, size, k) == PageItems(rest, size, k - 1);
      PageIsSlice(rest, size, k - 1);
      SliceOfRest(items, size, k);
    }
  }

  /** Slice `k - 1` of the list after page 1 is slice `k` of the whole list. */
  lemma SliceOfRest<T>(items: seq<T>, size: nat, k: nat)
    requires size > 0 && k >= 2 && |items| > size
    requires (k - 2) * size <= Min((k - 1) * size, |items| - size) <= |items| - size
    ensures (k - 1) * size <= Min(k * size, |items|) <= |items|
    ensures items[size..][(k - 2) * size .. Min((k - 1) * size, |items| - size)]
      == items[(k - 1) * size .. Min(k * size, |items|)]
  {
    var a, b := (k - 2) * size, Min((k - 1) * size, |items| - size);
    SliceBounds(k, size, |items|);
    ShiftSlice(items, size, a, b);
  }

  lemma SliceBounds(k: nat, size: nat, n: nat)
    requires k >= 2 && n > size
    ensures (k - 1) * size == (k - 2) * size + size
    ensures Min(k * size, n) == Min((k - 1) * size, n - size) + size
  {
    MulStep(k - 1, size);
    MulStep(k, size);
  }

  lemma ShiftSlice<T>(items: seq<T>, size: nat, a: nat, b: nat)
    requires size <= |items| && a <= b <= |items| - size
    ensures items[size..][a..b] == items[a + size .. b + size]
  {
  }

  lemma MulStep(k: nat, size: nat)
    requires k >= 1
    ensures k * size == (k - 1) * size + size
  {
  }

  /** Every page but the last holds `size` items; the last holds the rest. */
  lemma {:induction false} PageLength<T>(items: seq<T>, size: nat, k: nat)
    requires InRange(|items|, size, k)
    ensures k < NumPages(|items|, size) ==> |PageItems(items, size, k)| == size
    ensures k == NumPages(|items|, size) ==>
      |PageItems(items, size, k)| == |items| - (k - 1) * size
    ensures 0 < |items| ==> 0 < |PageItems(items, size, k)|
    decreases k
  {
    if k > 1 {
      PageLength(items[size..], size, k - 1);
      MulStep(k - 1, size);
    }
  }

  /** Page 1 of an empty list exists and is empty. */
  lemma EmptyFirstPage<T>(items: seq<T>, size: nat)
    requires size > 0 && items == []
    ensures InRange(|items|, size, 1) && NumPages(|items|, size) == 1
    ensures GetPage(items, size, 1).items == []
  {
  }

  /** The pages, in order. */
  function AllPages<T>(items: seq<T>, size: nat): (r: seq<seq<T>>)
    requires size > 0
    ensures |r| == NumPages(|items|, size)
    ensures forall k :: 1 <= k <= |r| ==> r[k - 1] == PageItems(items, size, k)
    decreases |items|
  {
    if |items| <= size then [items[..Min(size, |items|)]]
    else
      var rest := AllPages(items[size..], size);
      var r := [items[..size]] + rest;
      forall k | 2 <= k <= |r| ensures r[k - 1] == PageItems(items, size, k) {
        assert r[k - 1] == rest[k - 2];
      }
      r
  }

  function Concat<T>(pages: seq<seq<T>>): seq<T>
  {
    if pages == [] then [] else pages[0] + Concat(pages[1..])
  }

  /** Reading the pages one after another gives back the whole list. */
  lemma {:induction false} PagesCoverList<T>(items: seq<T>, size: nat)
    requires size > 0
    ensures Concat(AllPages(items, size)) == items
    decreases |items|
  {
    if |items| > size {
      PagesCoverList(items[size..], size);
      var r := AllPages(items, size);
      assert r[1..] == AllPages(items[size..], size);
      assert items == items[..size] + items[size..];
    }
  }

  /**
   * With `size + 2` items (size at least 2) there are two pages: the first
   * holds the first `size` items, the second the remaining two.
   */
  lemma TwoMoreThanAPage<T>(items: seq<T>, size: nat)
    requires 2 <= size && |items| == size + 2
    ensures NumPages(|items|, size) == 2
    ensures PageItems(items, size, 1) == items[..size]
    ensures PageItems(items, size, 2) == items[size..]
    ensures |PageItems(items, size, 2)| == 2
  {
    assert NumPages(|items| - size, size) == 1;
    assert items[size..][..Min(size, 2)] == items[size..];
  }

  /**
   * On a list ordered by `key`, largest first, every item of page `k` has a
   * key at least that of every item of page `k+1`.
   */
  lemma {:induction false} PagesKeepOrder<T>(items: seq<T>, key: T -> int, size: nat, k: nat)
    requires SortedDesc(items, key)
    requires InRange(|items|, size, k) && k < NumPages(|items|, size)
    ensures forall x, y ::
      x in PageItems(items, size, k) && y in PageItems(items, size, k + 1) ==> key(x) >= key(y)
    decreases k
  {
    var rest := items[size..];
    assert SortedDesc(rest, key) by {
      forall i, j | 0 <= i < j < |rest| ensures key(rest[i]) >= key(rest[j]) {
        assert rest[i] == items[i + size] && rest[j] == items[j + size];
      }
    }
    if k == 1 {
      forall x, y | x in PageItems(items, size, 1) && y in PageItems(items, size, 2)
        ensures key(x) >= key(y)
      {
        var i :| 0 <= i < size && items[..size][i] == x;
        var j :| 0 <= j < |PageItems(rest, size, 1)| && PageItems(rest, size, 1)[j] == y;
        assert rest[..Min(size, |rest|)][j] == y;
        assert items[i] == x && items[j + size] == y;
      }
    } else {
      PagesKeepOrder(rest, key, size, k - 1);
    }
  }

  /** Every item shown on a page comes from the list. */
  lemma {:induction false} PageItemsFromList<T>(items: seq<T>, size: nat, k: nat)
    requires InRange(|items|, size, k)
    ensures forall x :: x in PageItems(items, size, k) ==> x in items
    decreases k
  {
    if k > 1 {
      PageItemsFromList(items[size..], size, k - 1);
      assert forall x :: x in items[size..] ==> x in items;
    }
  }

  /** A page of an ordered list is itself ordered. */
  lemma {:induction false} PageSorted<T>(items: seq<T>, key: T -> int, size: nat, k: nat)
    requires SortedDesc(items, key)
    requires InRange(|items|, size, k)
    ensures SortedDesc(PageItems(items, size, k), key)
    decreases k
  {
    if k == 1 {
      var page := items[..Min(size, |items|)];
      forall i, j | 0 <= i < j < |page| ensures key(page[i]) >= key(page[j]) {
        assert page[i] == items[i] && page[j] == items[j];
      }
    } else {
      var rest := items[size..];
      forall i, j | 0 <= i < j < |rest| ensures key(rest[i]) >= key(rest[j]) {
        assert rest[i] == items[i + size] && rest[j] == items[j + size];
      }
      PageSorted(rest, key, size, k - 1);
    }
  }
}
