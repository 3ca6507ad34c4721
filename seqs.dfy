/**
 * Sequence helpers the store is built from: filtering a table by a row
 * predicate, the stable "newest first" sort behind the models' default
 * orderings, and the single-row lookup behind `get()` / `get_object_or_404`.
 */
module Seqs {

  /** The rows of `s` that satisfy `keep`, in their original order. */
  function Filter<T(!new)>(s: seq<T>, keep: T -> bool): (r: seq<T>)
    ensures |r| <= |s|
    ensures forall x :: x in r <==> x in s && keep(x)
  {
    if s == [] then [] else (if keep(s[0]) then [s[0]] else []) + Filter(s[1..], keep)
  }

  lemma FilterCons<T(!new)>(x: T, s: seq<T>, keep: T -> bool)
    ensures Filter([x] + s, keep) == (if keep(x) then [x] else []) + Filter(s, keep)
  {
    assert ([x] + s)[1..] == s;
  }

  lemma {:induction false} FilterConcat<T(!new)>(a: seq<T>, b: seq<T>, keep: T -> bool)
    ensures Filter(a + b, keep) == Filter(a, keep) + Filter(b, keep)
  {
    if a == [] {
      assert a + b == b;
    } else {
      assert (a + b)[1..] == a[1..] + b;
      FilterConcat(a[1..], b, keep);
    }
  }

  /** Two predicates that agree on every row of `s` select the same rows. */
  lemma {:induction false} FilterAgree<T(!new)>(s: seq<T>, p: T -> bool, q: T -> bool)
    requires forall x :: x in s ==> p(x) == q(x)
    ensures Filter(s, p) == Filter(s, q)
  {
    if s != [] {
      assert forall x :: x in s[1..] ==> x in s;
      FilterAgree(s[1..], p, q);
    }
  }

  /** Filtering with a predicate that holds of every row keeps the sequence. */
  lemma {:induction false} FilterAll<T(!new)>(s: seq<T>, keep: T -> bool)
    requires forall x :: x in s ==> keep(x)
    ensures Filter(s, keep) == s
  {
    if s != [] {
      assert forall x :: x in s[1..] ==> x in s;
      FilterAll(s[1..], keep);
    }
  }

  ghost predicate SortedDesc<T>(s: seq<T>, key: T -> int) {
    forall i, j :: 0 <= i < j < |s| ==> key(s[i]) >= key(s[j])
  }

  /**
   * Puts `x` in front of the first element whose key is not larger than
   * its own: `x` ends up after every strictly larger key and before every
   * element of equal key.
   */
  function Insert<T>(x: T, s: seq<T>, key: T -> int): (r: seq<T>)
    ensures |r| == |s| + 1
    ensures multiset(r) == multiset(s) + multiset{x}
  {
    if s == [] || key(s[0]) <= key(x) then [x] + s
    else
      assert s == [s[0]] + s[1..];
      [s[0]] + Insert(x, s[1..], key)
  }

  /**
   * Stable sort by `key`, largest key first: the order Django gives a
   * query with `ordering = ['-field']`, and what Python's
   * `list.sort(key=..., reverse=True)` produces (it keeps the original order
   * of equal keys).
   */
  function SortDesc<T>(s: seq<T>, key: T -> int): (r: seq<T>)
    ensures |r| == |s|
    ensures multiset(r) == multiset(s)
  {
    if s == [] then []
    else
      assert s == [s[0]] + s[1..];
      Insert(s[0], SortDesc(s[1..], key), key)
  }

  lemma {:induction false} InsertSorted<T>(x: T, s: seq<T>, key: T -> int)
    requires SortedDesc(s, key)
    ensures SortedDesc(Insert(x, s, key), key)
  {
    if s != [] && key(s[0]) > key(x) {
      var t := Insert(x, s[1..], key);
      SortedTail(s, key);
      InsertSorted(x, s[1..], key);
      HeadAboveInsert(x, s, key);
      var r := [s[0]] + t;
      forall i, j | 0 <= i < j < |r| ensures key(r[i]) >= key(r[j]) {
        if i == 0 {
          assert r[j] == t[j - 1];
          assert r[j] in t;
        } else {
          assert r[i] == t[i - 1] && r[j] == t[j - 1];
        }
      }
    }
  }

  lemma SortedTail<T>(s: seq<T>, key: T -> int)
    requires SortedDesc(s, key) && s != []
    ensures SortedDesc(s[1..], key)
  {
    var t := s[1..];
    forall i, j | 0 <= i < j < |t| ensures key(t[i]) >= key(t[j]) {
      assert t[i] == s[i + 1] && t[j] == s[j + 1];
    }
  }

  /** The head of an ordered list is above everything inserted after it. */
  lemma HeadAboveInsert<T>(x: T, s: seq<T>, key: T -> int)
    requires SortedDesc(s, key) && s != [] && key(s[0]) > key(x)
    ensures forall y :: y in Insert(x, s[1..], key) ==> key(s[0]) >= key(y)
  {
    var t := Insert(x, s[1..], key);
    forall y | y in t ensures key(s[0]) >= key(y) {
      assert y in multiset(t);
      if y != x {
        assert y in multiset(s[1..]);
        var j :| 0 <= j < |s[1..]| && s[1..][j] == y;
        assert s[j + 1] == y;
      }
    }
  }

  /** The result of SortDesc is ordered, largest key first. */
  lemma {:induction false} SortDescSorted<T>(s: seq<T>, key: T -> int)
    ensures SortedDesc(SortDesc(s, key), key)
  {
    if s != [] {
      SortDescSorted(s[1..], key);
      InsertSorted(s[0], SortDesc(s[1..], key), key);
    }
  }

  /** Selects the elements whose key is `d`. */
  function HasKey<T>(key: T -> int, d: int): T -> bool {
    x => key(x) == d
  }

  lemma {:induction false} InsertKeepsTies<T(!new)>(x: T, s: seq<T>, key: T -> int, d: int)
    ensures Filter(Insert(x, s, key), HasKey(key, d))
         == (if key(x) == d then [x] else []) + Filter(s, HasKey(key, d))
  {
    if s == [] || key(s[0]) <= key(x) {
      assert ([x] + s)[1..] == s;
    } else {
      InsertKeepsTies(x, s[1..], key, d);
      var t := Insert(x, s[1..], key);
      assert ([s[0]] + t)[1..] == t;
    }
  }

  /**
   * Stability: among elements of equal key, SortDesc keeps the order they
   * had in the input.
   */
  lemma {:induction false} SortDescStable<T(!new)>(s: seq<T>, key: T -> int, d: int)
    ensures Filter(SortDesc(s, key), HasKey(key, d)) == Filter(s, HasKey(key, d))
  {
    if s != [] {
      SortDescStable(s[1..], key, d);
      InsertKeepsTies(s[0], SortDesc(s[1..], key), key, d);
    }
  }

  /** No two elements of `s` share a `key` (a unique column). */
  ghost predicate Distinct<T, K>(s: seq<T>, key: T -> K) {
    forall i, j :: 0 <= i < j < |s| ==> key(s[i]) != key(s[j])
  }

  /** Deleting rows keeps a unique column unique. */
  lemma {:induction false} FilterDistinct<T(!new), K>(s: seq<T>, keep: T -> bool, key: T -> K)
    requires Distinct(s, key)
    ensures Distinct(Filter(s, keep), key)
  {
    if s != [] {
      var t := s[1..];
      assert Distinct(t, key) by {
        forall i, j | 0 <= i < j < |t| ensures key(t[i]) != key(t[j]) {
          assert t[i] == s[i + 1] && t[j] == s[j + 1];
        }
      }
      FilterDistinct(t, keep, key);
      var ft := Filter(t, keep);
      if keep(s[0]) {
        var r := [s[0]] + ft;
        forall i, j | 0 <= i < j < |r| ensures key(r[i]) != key(r[j]) {
          if i == 0 {
            assert r[j] == ft[j - 1] && r[j] in t;
            var m :| 0 <= m < |t| && t[m] == r[j];
            assert s[m + 1] == r[j];
          } else {
            assert r[i] == ft[i - 1] && r[j] == ft[j - 1];
          }
        }
      }
    }
  }

  /** Appending a row whose key is new keeps the column unique. */
  lemma AppendDistinct<T, K>(s: seq<T>, x: T, key: T -> K)
    requires Distinct(s, key)
    requires forall y :: y in s ==> key(y) != key(x)
    ensures Distinct(s + [x], key)
  {
    var r := s + [x];
    forall i, j | 0 <= i < j < |r| ensures key(r[i]) != key(r[j]) {
      if j == |s| {
        assert r[i] == s[i] && r[i] in s;
      } else {
        assert r[i] == s[i] && r[j] == s[j];
      }
    }
  }

  /** On a unique column, a filter that fixes the column's value selects at most one row. */
  lemma {:induction false} AtMostOneMatch<T(!new), K>(s: seq<T>, key: T -> K, matches: T -> bool, k: K)
    requires Distinct(s, key)
    requires forall x :: matches(x) ==> key(x) == k
    ensures |Filter(s, matches)| <= 1
  {
    var m := Filter(s, matches);
    if |m| > 1 {
      assert m[0] in s && m[1] in s;
      var i :| 0 <= i < |s| && s[i] == m[0];
      var j :| 0 <= j < |s| && s[j] == m[1];
      assert key(s[i]) == key(s[j]);
      assert i == j;
      FilterDistinct(s, matches, key);
      assert false;
    }
  }

  /** A predicate and its negation split the rows between them. */
  lemma {:induction false} FilterSplit<T(!new)>(s: seq<T>, p: T -> bool, q: T -> bool)
    requires forall x :: q(x) == !p(x)
    ensures |Filter(s, p)| + |Filter(s, q)| == |s|
  {
    if s != [] {
      FilterSplit(s[1..], p, q);
    }
  }

  /** Outcome of Django's `QuerySet.get()` on the rows matching a filter. */
  datatype Lookup<T> = Found(value: T) | DoesNotExist | MultipleFound

  /** When exactly one row matches, every matching row is that one. */
  lemma OnlyMatch<T(!new)>(s: seq<T>, matches: T -> bool, x: T, y: T)
    requires |Filter(s, matches)| == 1
    requires x in s && matches(x) && y in s && matches(y)
    ensures x == y
  {
    var f := Filter(s, matches);
    assert x in f && y in f;
  }

  /**
   * `get()`: exactly one matching row is returned, none is DoesNotExist,
   * more than one is MultipleObjectsReturned.
   */
  function Get<T(!new)>(s: seq<T>, matches: T -> bool): (r: Lookup<T>)
    ensures r.DoesNotExist? <==> forall x :: x in s ==> !matches(x)
    ensures r.Found? <==> |Filter(s, matches)| == 1
    ensures r.Found? ==> r.value in s && matches(r.value)
  {
    var m := Filter(s, matches);
    if |m| == 0 then DoesNotExist
    else if |m| == 1 then
      assert m[0] in m;
      Found(m[0])
    else
      assert m[0] in m;
      MultipleFound
  }
}
