/** The composite book comparator built by `applySorting`: one comparator per
    requested sort order, each possibly reversed, chained with
    `thenComparing`. A comparator is modelled by the sign of its result. */
module Ordering {
  import opened Text
  import opened Library

  datatype Direction = Asc | Desc

  /** One `Sort.Order`: a property name as the caller spelled it and a
      direction. */
  datatype Order = Order(property: string, direction: Direction)

  /** The four comparators the switch can choose. */
  datatype SortKey = ByTitle | ByAuthor | ByYear | ById

  /** The switch on the lower-cased property name; every name other than
      title, author and year falls back to the id. */
  function KeyOf(property: string): (r: SortKey)
    ensures r == ById <==> ToLower(property) !in {"title", "author", "year"}
  {
    match ToLower(property)
    case "title" => ByTitle
    case "author" => ByAuthor
    case "year" => ByYear
    case _ => ById
  }

  /** The switch ignores letter case: property names that differ only in
      case select the same comparator. */
  lemma KeyOfIgnoresCase(p: string, q: string)
    requires ToLower(p) == ToLower(q)
    ensures KeyOf(p) == KeyOf(q)
  {
  }

  /** How callers' spellings resolve: any capitalisation of a known name
      selects its comparator, and an unknown name such as "price" sorts by
      id. */
  lemma KeyOfSpellings()
    ensures KeyOf("Title") == ByTitle && KeyOf("AUTHOR") == ByAuthor && KeyOf("yEaR") == ByYear
    ensures KeyOf("price") == ById && KeyOf("id") == ById && KeyOf("titles") == ById
  {
    assert ToLower("Title") == "title";
    assert ToLower("AUTHOR") == "author";
    assert ToLower("yEaR") == "year";
    assert ToLower("price") == "price";
    assert ToLower("id") == "id";
    assert ToLower("titles") == "titles";
  }

  /** The comparator a single key selects: case-insensitive text order for
      title and author, numeric order for year and id. */
  function KeyCompare(k: SortKey, a: Book, b: Book): (r: int)
    ensures r in {-1, 0, 1}
  {
    match k
    case ByTitle => CompareIgnoreCase(a.title, b.title)
    case ByAuthor => CompareIgnoreCase(a.author, b.author)
    case ByYear => IntCompare(a.year, b.year)
    case ById => IntCompare(a.id, b.id)
  }

  /** The comparator of one order; `reversed()` swaps the arguments. */
  function OrderCompare(o: Order, a: Book, b: Book): (r: int)
    ensures r in {-1, 0, 1}
  {
    var k := KeyOf(o.property);
    if o.direction == Desc then KeyCompare(k, b, a) else KeyCompare(k, a, b)
  }

  /** The chained comparator: the first order decides unless it ties, and
      then the remaining orders decide. No orders at all compare every pair
      as equal. */
  function Compare(orders: seq<Order>, a: Book, b: Book): (r: int)
    ensures r in {-1, 0, 1}
  {
    if |orders| == 0 then 0
    else
      var c := OrderCompare(orders[0], a, b);
      if c != 0 then c else Compare(orders[1..], a, b)
  }

  /** `s` is in non-decreasing order under the chained comparator. */
  ghost predicate Sorted(orders: seq<Order>, s: seq<Book>) {
    forall i, j :: 0 <= i < j < |s| ==> Compare(orders, s[i], s[j]) <= 0
  }

  // ------------------------------------------------ what each key compares

  /** Title and author compare case-insensitively ("alpha" ties with
      "Alpha"); year and id compare numerically. */
  lemma KeyCompareMeaning(a: Book, b: Book)
    ensures KeyCompare(ByTitle, a, b) == 0 <==> ToLower(a.title) == ToLower(b.title)
    ensures KeyCompare(ByAuthor, a, b) == 0 <==> ToLower(a.author) == ToLower(b.author)
    ensures KeyCompare(ByTitle, a, b) < 0 <==> LexCompare(ToLower(a.title), ToLower(b.title)) < 0
    ensures KeyCompare(ByAuthor, a, b) < 0 <==> LexCompare(ToLower(a.author), ToLower(b.author)) < 0
    ensures KeyCompare(ByYear, a, b) < 0 <==> a.year < b.year
    ensures KeyCompare(ByYear, a, b) == 0 <==> a.year == b.year
    ensures KeyCompare(ById, a, b) < 0 <==> a.id < b.id
    ensures KeyCompare(ById, a, b) == 0 <==> a.id == b.id
  {
    CompareIgnoreCaseZeroIff(a.title, b.title);
    CompareIgnoreCaseZeroIff(a.author, b.author);
    CompareIgnoreCaseIsLexOfLower(a.title, b.title);
    CompareIgnoreCaseIsLexOfLower(a.author, b.author);
  }

  /** A descending order is its ascending order reversed, key by key. */
  lemma DescendingReverses(property: string, a: Book, b: Book)
    ensures OrderCompare(Order(property, Desc), a, b) == -OrderCompare(Order(property, Asc), a, b)
  {
    KeyCompareAntisymmetric(KeyOf(property), a, b);
  }

  /** Chaining is lexicographic: the orders of `first` decide, and `second`
      only breaks the ties `first` leaves. */
  lemma {:induction false} CompareChains(first: seq<Order>, second: seq<Order>, a: Book, b: Book)
    ensures Compare(first + second, a, b) ==
            if Compare(first, a, b) != 0 then Compare(first, a, b) else Compare(second, a, b)
  {
    if |first| == 0 {
      assert first + second == second;
    } else {
      assert (first + second)[0] == first[0];
      assert (first + second)[1..] == first[1..] + second;
      CompareChains(first[1..], second, a, b);
    }
  }

  // --------------------------------------- the comparator is a total preorder

  lemma KeyCompareAntisymmetric(k: SortKey, a: Book, b: Book)
    ensures KeyCompare(k, a, b) == -KeyCompare(k, b, a)
  {
    match k
    case ByTitle => CompareIgnoreCaseAntisymmetric(a.title, b.title);
    case ByAuthor => CompareIgnoreCaseAntisymmetric(a.author, b.author);
    case ByYear =>
    case ById =>
  }

  lemma KeyCompareTransitive(k: SortKey, a: Book, b: Book, c: Book)
    requires KeyCompare(k, a, b) <= 0 && KeyCompare(k, b, c) <= 0
    ensures KeyCompare(k, a, c) <= 0
  {
    match k
    case ByTitle => CompareIgnoreCaseTransitive(a.title, b.title, c.title);
    case ByAuthor => CompareIgnoreCaseTransitive(a.author, b.author, c.author);
    case ByYear =>
    case ById =>
  }

  /** Books that tie on a key are interchangeable in every comparison on
      that key. */
  lemma KeyCompareTiesSubstitute(k: SortKey, a: Book, b: Book, c: Book)
    requires KeyCompare(k, a, b) == 0
    ensures KeyCompare(k, a, c) == KeyCompare(k, b, c)
  {
    match k
    case ByTitle =>
      CompareIgnoreCaseZeroIff(a.title, b.title);
      CompareIgnoreCaseIsLexOfLower(a.title, c.title);
      CompareIgnoreCaseIsLexOfLower(b.title, c.title);
    case ByAuthor =>
      CompareIgnoreCaseZeroIff(a.author, b.author);
      CompareIgnoreCaseIsLexOfLower(a.author, c.author);
      CompareIgnoreCaseIsLexOfLower(b.author, c.author);
    case ByYear =>
    case ById =>
  }

  lemma OrderCompareAntisymmetric(o: Order, a: Book, b: Book)
    ensures OrderCompare(o, a, b) == -OrderCompare(o, b, a)
  {
    KeyCompareAntisymmetric(KeyOf(o.property), a, b);
  }

  lemma OrderCompareTransitive(o: Order, a: Book, b: Book, c: Book)
    requires OrderCompare(o, a, b) <= 0 && OrderCompare(o, b, c) <= 0
    ensures OrderCompare(o, a, c) <= 0
  {
    var k := KeyOf(o.property);
    if o.direction == Desc {
      KeyCompareTransitive(k, c, b, a);
    } else {
      KeyCompareTransitive(k, a, b, c);
    }
  }

  lemma OrderCompareTiesSubstitute(o: Order, a: Book, b: Book, c: Book)
    requires OrderCompare(o, a, b) == 0
    ensures OrderCompare(o, a, c) == OrderCompare(o, b, c)
  {
    var k := KeyOf(o.property);
    if o.direction == Desc {
      KeyCompareAntisymmetric(k, b, a);
      KeyCompareTiesSubstitute(k, a, b, c);
      KeyCompareAntisymmetric(k, c, a);
      KeyCompareAntisymmetric(k, c, b);
    } else {
      KeyCompareTiesSubstitute(k, a, b, c);
    }
  }

  /** Swapping the arguments of the chained comparator negates it. */
  lemma {:induction false} CompareAntisymmetric(orders: seq<Order>, a: Book, b: Book)
    ensures Compare(orders, a, b) == -Compare(orders, b, a)
  {
    if |orders| > 0 {
      OrderCompareAntisymmetric(orders[0], a, b);
      CompareAntisymmetric(orders[1..], a, b);
    }
  }

  /** The chained comparator orders transitively, so sorting by it is well
      defined. */
  lemma {:induction false} CompareTransitive(orders: seq<Order>, a: Book, b: Book, c: Book)
    requires Compare(orders, a, b) <= 0 && Compare(orders, b, c) <= 0
    ensures Compare(orders, a, c) <= 0
  {
    if |orders| > 0 {
      var o := orders[0];
      var ab, bc := OrderCompare(o, a, b), OrderCompare(o, b, c);
      assert ab <= 0 && bc <= 0;
      if ab == 0 {
        OrderCompareTiesSubstitute(o, a, b, c);
        if bc == 0 {
          CompareTransitive(orders[1..], a, b, c);
        }
      } else if bc == 0 {
        OrderCompareAntisymmetric(o, c, b);
        OrderCompareTiesSubstitute(o, c, b, a);
        OrderCompareAntisymmetric(o, a, c);
        OrderCompareAntisymmetric(o, a, b);
      } else {
        OrderCompareTransitive(o, a, b, c);
        if OrderCompare(o, a, c) == 0 {
          OrderCompareTiesSubstitute(o, a, c, b);
          OrderCompareAntisymmetric(o, c, b);
          assert false;
        }
      }
    }
  }
}
