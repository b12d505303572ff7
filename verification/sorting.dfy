/** `List.sort` under the chained comparator, modelled as an insertion sort:
    each element goes in front of the first element that is not smaller,
    so it stays ahead of the later elements it ties with. */
module Sorting {
  import opened Library
  import opened Ordering

  /** Puts `x` in front of the first element of `r` that does not compare
      below it. */
  function Insert(orders: seq<Order>, x: Book, r: seq<Book>): (s: seq<Book>)
    ensures multiset(s) == multiset(r) + multiset{x}
    ensures |s| == |r| + 1
  {
    if |r| == 0 then [x]
    else if Compare(orders, x, r[0]) <= 0 then [x] + r
    else
      assert r == [r[0]] + r[1..];
      [r[0]] + Insert(orders, x, r[1..])
  }

  /** A sorted list stays sorted when an element that is not above any of
      its elements is put in front. */
  lemma PrependSorted(orders: seq<Order>, y: Book, t: seq<Book>)
    requires Sorted(orders, t)
    requires forall j :: 0 <= j < |t| ==> Compare(orders, y, t[j]) <= 0
    ensures Sorted(orders, [y] + t)
  {
    var s := [y] + t;
    forall i, j | 0 <= i < j < |s|
      ensures Compare(orders, s[i], s[j]) <= 0
    {
      assert s[j] == t[j - 1];
      if i > 0 {
        assert s[i] == t[i - 1];
      }
    }
  }

  /** Every element of `t` that is not `x` is an element of `rest`, so the
      head `h` that is below all of `rest` and below `x` is below all of `t`. */
  lemma HeadBelowInsert(orders: seq<Order>, h: Book, x: Book, rest: seq<Book>)
    requires forall k :: 0 <= k < |rest| ==> Compare(orders, h, rest[k]) <= 0
    requires Compare(orders, h, x) <= 0
    ensures forall j :: 0 <= j < |Insert(orders, x, rest)| ==>
              Compare(orders, h, Insert(orders, x, rest)[j]) <= 0
  {
    var t := Insert(orders, x, rest);
    forall j | 0 <= j < |t|
      ensures Compare(orders, h, t[j]) <= 0
    {
      assert t[j] in multiset(t);
      if t[j] != x {
        assert t[j] in multiset(rest);
        var k :| 0 <= k < |rest| && rest[k] == t[j];
      }
    }
  }

  lemma {:induction false} InsertSorted(orders: seq<Order>, x: Book, r: seq<Book>)
    requires Sorted(orders, r)
    ensures Sorted(orders, Insert(orders, x, r))
  {
    if |r| == 0 {
    } else if Compare(orders, x, r[0]) <= 0 {
      forall j | 0 <= j < |r|
        ensures Compare(orders, x, r[j]) <= 0
      {
        if j > 0 {
          CompareTransitive(orders, x, r[0], r[j]);
        }
      }
      PrependSorted(orders, x, r);
    } else {
      var rest := r[1..];
      assert Sorted(orders, rest);
      InsertSorted(orders, x, rest);
      CompareAntisymmetric(orders, x, r[0]);
      forall k | 0 <= k < |rest|
        ensures Compare(orders, r[0], rest[k]) <= 0
      {
        assert rest[k] == r[k + 1];
      }
      HeadBelowInsert(orders, r[0], x, rest);
      PrependSorted(orders, r[0], Insert(orders, x, rest));
    }
  }

  /** The sorted list is a permutation of its input, in order. */
  function Sort(orders: seq<Order>, s: seq<Book>): (r: seq<Book>)
    ensures multiset(r) == multiset(s)
    ensures |r| == |s|
    ensures Sorted(orders, r)
  {
    if |s| == 0 then []
    else
      assert s == [s[0]] + s[1..];
      var rest := Sort(orders, s[1..]);
      InsertSorted(orders, s[0], rest);
      Insert(orders, s[0], rest)
  }

  /** When all elements tie, sorting leaves the list exactly as it was: the
      sort never reorders equal elements among themselves in this case. */
  lemma {:induction false} SortKeepsAllTies(orders: seq<Order>, s: seq<Book>)
    requires forall i, j :: 0 <= i < |s| && 0 <= j < |s| ==> Compare(orders, s[i], s[j]) == 0
    ensures Sort(orders, s) == s
  {
    if |s| > 0 {
      SortKeepsAllTies(orders, s[1..]);
      if |s| > 1 {
        assert Compare(orders, s[0], s[1]) == 0;
      }
    }
  }
}
