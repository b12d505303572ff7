/** The slicing arithmetic of a page: page `page` of size `size` starts at
    `page * size` and holds at most `size` elements. */
module Paging {

  function Min(a: int, b: int): int {
    if a <= b then a else b
  }

  /** The `subList` a page takes out of the whole list; an empty list when
      the start index lies past the end. */
  function PageSlice<T>(list: seq<T>, page: nat, size: nat): (r: seq<T>)
    ensures |r| <= size
    ensures page * size >= |list| ==> |r| == 0
    ensures page * size < |list| ==> |r| == Min(size, |list| - page * size)
    ensures forall i :: 0 <= i < |r| ==> r[i] == list[page * size + i]
  {
    var start := page * size;
    if |list| < start then [] else list[start..Min(start + size, |list|)]
  }

  /** Every element of a page is an element of the list. */
  lemma SliceHoldsListed<T>(list: seq<T>, page: nat, size: nat, x: T)
    requires x in multiset(PageSlice(list, page, size))
    ensures x in list
  {
    var slice := PageSlice(list, page, size);
    var i :| 0 <= i < |slice| && slice[i] == x;
    assert list[page * size + i] == x;
  }

  /** Pages 0, 1, ..., n-1 laid end to end. */
  function Pages<T>(list: seq<T>, size: nat, n: nat): seq<T> {
    if n == 0 then [] else Pages(list, size, n - 1) + PageSlice(list, n - 1, size)
  }

  lemma PagesStep<T>(list: seq<T>, size: nat, m: nat)
    ensures Pages(list, size, m + 1) == Pages(list, size, m) + PageSlice(list, m, size)
  {
  }

  /** The first `n` pages, laid end to end, are exactly the first `n * size`
      elements of the list: no element is repeated or skipped. */
  lemma {:induction false} PagesArePrefix<T>(list: seq<T>, size: nat, n: nat)
    ensures Pages(list, size, n) == list[..Min(n * size, |list|)]
  {
    if n > 0 {
      PagesArePrefix(list, size, n - 1);
      var start := (n - 1) * size;
      var stop := n * size;
      assert stop == start + size by {
        assert n * size == (n - 1) * size + size;
      }
      var slice := PageSlice(list, n - 1, size);
      if start < |list| {
        var prev := list[..start];
        assert Pages(list, size, n - 1) == prev;
        assert slice == list[start..Min(stop, |list|)];
        assert prev + slice == list[..Min(stop, |list|)];
      } else {
        assert |slice| == 0;
        assert Pages(list, size, n) == Pages(list, size, n - 1);
      }
    }
  }

  /** Reading pages until the start index passes the end reproduces the
      whole list. */
  lemma PagesReproduceList<T>(list: seq<T>, size: nat)
    requires size >= 1
    ensures Pages(list, size, |list|) == list
  {
    PagesArePrefix(list, size, |list|);
    assert |list| * size == |list| * (size - 1) + |list|;
    assert |list| * (size - 1) >= 0;
  }
}
