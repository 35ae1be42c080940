/**
 The worked examples of the repository: five books of one series at 8.00
 each, and one book outside the series, priced in the scenarios the
 module's own demonstration walks through.
 */
module Demo {
  import opened Wrappers
  import opened Lists
  import opened Books
  import opened Pricing
  import opened ShoppingCart
  import opened CartProperties
  import opened DemoShapes

  const I1: Isbn := "ISBN-111"
  const I2: Isbn := "ISBN-222"
  const I3: Isbn := "ISBN-333"
  const I4: Isbn := "ISBN-444"
  const I5: Isbn := "ISBN-555"
  const IU: Isbn := "ISBN-UNKNOWN"

  const Book1 := Book(I1, "Young Wizard - Series 1", 8.0)
  const Book2 := Book(I2, "Young Wizard - Series 2", 8.0)
  const Book3 := Book(I3, "Young Wizard - Series 3", 8.0)
  const Book4 := Book(I4, "Young Wizard - Series 4", 8.0)
  const Book5 := Book(I5, "Young Wizard - Series 5", 8.0)
  const Book9 := Book(IU, "XXXXXXXXX", 0.0)

  const FullSeries := [Book1, Book2, Book3, Book4, Book5]
  const SeriesKeys := [I1, I2, I3, I4, I5]

  /** The first scenario's cart: books 1, 2 and 3. */
  const SmallCart := [Book1, Book2, Book3]
  /** The second and fourth scenarios' cart: the whole series, then books 1, 3 and 5 again. */
  const LargeCart := [Book1, Book2, Book3, Book4, Book5, Book1, Book3, Book5]
  /** The third scenario's cart: the second one, then books 1, 2, 3 and 1 again and the unknown book. */
  const MixedCart := [Book1, Book2, Book3, Book4, Book5, Book1, Book3, Book5, Book1, Book2, Book3, Book1, Book9]

  lemma IsbnsApart()
    ensures Apart(I1, I2, I3, I4, I5)
    ensures IU != I1 && IU != I2 && IU != I3 && IU != I4 && IU != I5
  {
    assert I1[5] != I2[5] && I1[5] != I3[5] && I1[5] != I4[5] && I1[5] != I5[5];
    assert I2[5] != I3[5] && I2[5] != I4[5] && I2[5] != I5[5];
    assert I3[5] != I4[5] && I3[5] != I5[5] && I4[5] != I5[5];
    assert IU[5] != I1[5] && IU[5] != I2[5] && IU[5] != I3[5] && IU[5] != I4[5] && IU[5] != I5[5];
  }

  lemma UnknownOutsideSeries()
    ensures IU !in SeriesKeys
    ensures IU !in [I1, I2, I3] && IU !in [I1, I3, I5] && IU !in [I1, I2, I3, I5]
    ensures IU !in [I1, I3] && IU !in [I1]
  {
    IsbnsApart();
  }

  /** The price of a grouping of `n` books at 8.00 each, less the table discount. */
  function AtEight(n: nat): real
  {
    n as real * 8.0 * (100 - DiscountPercentage(n)) as real / 100.0
  }

  lemma EightEach()
    ensures AtEight(5) == 30.0 && AtEight(4) == 25.6 && AtEight(3) == 21.6
    ensures AtEight(2) == 15.2 && AtEight(1) == 8.0
  {
    assert DiscountPercentage(5) == 25 && DiscountPercentage(4) == 20 && DiscountPercentage(3) == 10;
  }

  lemma SeriesOrder()
    ensures Isbns(FullSeries) == SeriesKeys
  {
  }

  /** The cart built from `books` by the constructor, with `series` attached. */
  function WithSeries(books: seq<Book>, series: seq<Book>): (c: Cart)
    requires books != []
    ensures Valid(c) && c.books == books && c.series == Some(series)
    ensures forall k :: k in c.index ==> c.index[k] in books
  {
    SetSeries(NewCart(books).value, SeriesList(series))
  }

  /** A cart with the given books and the series attached, its index left abstract. */
  predicate Holds(c: Cart, books: seq<Book>)
  {
    && Valid(c) && c.books == books && c.series == Some(FullSeries)
    && forall k :: k in c.index ==> c.index[k] in c.books
  }

  /**
   In a cart whose books cost 8.00 each except those with ISBN `other`,
   a grouping without `other` costs 8.00 per book less its discount.
   */
  lemma GroupingAtEight(c: Cart, g: seq<Isbn>, other: Isbn)
    requires Valid(c) && forall k :: k in c.index ==> c.index[k] in c.books
    requires forall b :: b in c.books ==> b.price == 8.0 || b.isbn == other
    requires forall x :: x in g ==> x in Isbns(c.books)
    requires other !in g
    ensures forall x :: x in g ==> x in c.index
    ensures GroupingPrice(c, g) == AtEight(|g|)
  {
    forall x | x in g ensures x in c.index && c.index[x].price == 8.0 {
      IsbnIndexed(c, x);
      assert c.index[x] in c.books;
    }
    UniformGroupingPrice(c, g, 8.0);
  }

  /** The total over two groupings, written out. */
  lemma PriceOfTwo(c: Cart, g0: seq<Isbn>, g1: seq<Isbn>)
    requires Valid(c)
    requires forall x :: x in g0 ==> x in c.index
    requires forall x :: x in g1 ==> x in c.index
    ensures Indexed(c, [g0, g1])
    ensures PriceGroupings(c, [g0, g1]) == GroupingPrice(c, g0) + GroupingPrice(c, g1)
  {
    assert [g0, g1][1..] == [g1];
    assert [g1][1..] == [];
    assert PriceGroupings(c, [g1]) == GroupingPrice(c, g1);
  }

  /** The total over four groupings, written out. */
  lemma PriceOfFour(c: Cart, g0: seq<Isbn>, g1: seq<Isbn>, g2: seq<Isbn>, g3: seq<Isbn>)
    requires Valid(c)
    requires forall x :: x in g0 ==> x in c.index
    requires forall x :: x in g1 ==> x in c.index
    requires forall x :: x in g2 ==> x in c.index
    requires forall x :: x in g3 ==> x in c.index
    ensures Indexed(c, [g0, g1, g2, g3])
    ensures PriceGroupings(c, [g0, g1, g2, g3])
            == GroupingPrice(c, g0) + (GroupingPrice(c, g1) + (GroupingPrice(c, g2) + GroupingPrice(c, g3)))
  {
    assert [g0, g1, g2, g3][1..] == [g1, g2, g3];
    assert [g1, g2, g3][1..] == [g2, g3];
    PriceOfTwo(c, g2, g3);
    assert PriceGroupings(c, [g1, g2, g3]) == GroupingPrice(c, g1) + PriceGroupings(c, [g2, g3]);
  }

  // Scenario one: three different series books.

  lemma SmallCartKeys()
    ensures Isbns(SmallCart) == [I1, I2, I3]
  {
  }

  lemma SmallCartPrices()
    ensures forall b :: b in SmallCart ==> b.price == 8.0 || b.isbn == IU
  {
  }

  lemma SmallCartGroupings(c: Cart)
    requires Holds(c, SmallCart)
    ensures Groupings(c) == [[I1, I2, I3]]
  {
    GroupingsUnfold(c);
    SeriesOrder();
    SmallCartKeys();
    SmallCartPrices();
    IsbnsApart();
    SmallRounds(I1, I2, I3);
    SmallShape(I1, I2, I3, I4, I5);
  }

  lemma SmallCartTotal(c: Cart)
    requires Holds(c, SmallCart)
    ensures CalculateTotalPrice(c).total == 21.6
  {
    SmallCartGroupings(c);
    SmallCartKeys();
    SmallCartPrices();
    UnknownOutsideSeries();
    EightEach();
    GroupingAtEight(c, [I1, I2, I3], IU);
    assert [[I1, I2, I3]][1..] == [];
    assert PriceGroupings(c, [[I1, I2, I3]]) == GroupingPrice(c, [I1, I2, I3]);
  }

  /**
   Scenario one: books 1, 2 and 3 with the series attached form one grouping
   of three, 24.00 less 10%, so the total is 21.60.
   */
  lemma ScenarioSmallCart()
    ensures NewCart(SmallCart).Success?
    ensures CalculateTotalPrice(SetSeries(NewCart(SmallCart).value, SeriesList(FullSeries))).total == 21.6
  {
    SmallCartTotal(WithSeries(SmallCart, FullSeries));
  }

  // Scenario two: the full series plus a second copy of books 1, 3 and 5.

  lemma LargeCartKeys()
    ensures Isbns(LargeCart) == [I1, I2, I3, I4, I5, I1, I3, I5]
  {
  }

  lemma LargeCartPrices()
    ensures forall b :: b in LargeCart ==> b.price == 8.0 || b.isbn == IU
  {
  }

  lemma LargeCartGroupings(c: Cart)
    requires Holds(c, LargeCart)
    ensures Groupings(c) == [SeriesKeys, [I1, I3, I5]]
  {
    GroupingsUnfold(c);
    SeriesOrder();
    LargeCartKeys();
    LargeCartPrices();
    IsbnsApart();
    LargeRounds(I1, I2, I3, I4, I5);
    LargeShape(I1, I2, I3, I4, I5);
  }

  lemma LargeCartGroupingPrices(c: Cart)
    requires Holds(c, LargeCart)
    ensures forall x :: x in SeriesKeys ==> x in c.index
    ensures forall x :: x in [I1, I3, I5] ==> x in c.index
    ensures GroupingPrice(c, SeriesKeys) == 30.0
    ensures GroupingPrice(c, [I1, I3, I5]) == 21.6
  {
    LargeCartKeys();
    LargeCartPrices();
    UnknownOutsideSeries();
    EightEach();
    GroupingAtEight(c, SeriesKeys, IU);
    GroupingAtEight(c, [I1, I3, I5], IU);
  }

  lemma LargeCartTotal(c: Cart)
    requires Holds(c, LargeCart)
    ensures CalculateTotalPrice(c).total == 51.6
  {
    LargeCartGroupings(c);
    LargeCartGroupingPrices(c);
    PriceOfTwo(c, SeriesKeys, [I1, I3, I5]);
  }

  /**
   Scenario two: eight books split into a grouping of five (40.00 less 25%)
   and a grouping of three (24.00 less 10%), so the total is 51.60.
   */
  lemma ScenarioLargeCart()
    ensures NewCart(LargeCart).Success?
    ensures CalculateTotalPrice(SetSeries(NewCart(LargeCart).value, SeriesList(FullSeries))).total == 51.6
  {
    LargeCartTotal(WithSeries(LargeCart, FullSeries));
  }

  // Scenario three: thirteen books, one of which is not part of the series.

  lemma MixedCartKeys()
    ensures Isbns(MixedCart) == [I1, I2, I3, I4, I5, I1, I3, I5, I1, I2, I3, I1, IU]
  {
  }

  lemma MixedCartPrices()
    ensures forall b :: b in MixedCart ==> b.price == 8.0 || b.isbn == IU
  {
  }

  lemma MixedCartUnknownBook()
    ensures forall b :: b in MixedCart && b.isbn == IU ==> b == Book9
  {
    IsbnsApart();
  }

  lemma MixedCartGroupings(c: Cart)
    requires Holds(c, MixedCart)
    ensures Groupings(c) == [SeriesKeys, [I1, I2, I3, I5], [I1, I3], [I1]]
  {
    GroupingsUnfold(c);
    SeriesOrder();
    MixedCartKeys();
    MixedCartPrices();
    IsbnsApart();
    MixedRounds(I1, I2, I3, I4, I5, IU);
    MixedShape(I1, I2, I3, I4, I5, IU);
  }

  lemma MixedCartLargerPrices(c: Cart)
    requires Holds(c, MixedCart)
    ensures forall x :: x in SeriesKeys ==> x in c.index
    ensures forall x :: x in [I1, I2, I3, I5] ==> x in c.index
    ensures GroupingPrice(c, SeriesKeys) == 30.0
    ensures GroupingPrice(c, [I1, I2, I3, I5]) == 25.6
  {
    MixedCartKeys();
    MixedCartPrices();
    UnknownOutsideSeries();
    EightEach();
    GroupingAtEight(c, SeriesKeys, IU);
    GroupingAtEight(c, [I1, I2, I3, I5], IU);
  }

  lemma MixedCartSmallerPrices(c: Cart)
    requires Holds(c, MixedCart)
    ensures forall x :: x in [I1, I3] ==> x in c.index
    ensures forall x :: x in [I1] ==> x in c.index
    ensures GroupingPrice(c, [I1, I3]) == 15.2
    ensures GroupingPrice(c, [I1]) == 8.0
  {
    MixedCartKeys();
    MixedCartPrices();
    UnknownOutsideSeries();
    EightEach();
    GroupingAtEight(c, [I1, I3], IU);
    GroupingAtEight(c, [I1], IU);
  }

  lemma MixedCartTotal(c: Cart)
    requires Holds(c, MixedCart)
    ensures CalculateTotalPrice(c).total == 78.8
  {
    MixedCartGroupings(c);
    MixedCartLargerPrices(c);
    MixedCartSmallerPrices(c);
    PriceOfFour(c, SeriesKeys, [I1, I2, I3, I5], [I1, I3], [I1]);
  }

  /** A sequence in which exactly one value occurs, once, is that value alone. */
  lemma OnlyElement<T>(s: seq<T>, y: T)
    requires forall x :: Count(s, x) == if x == y then 1 else 0
    ensures s == [y]
  {
    assert multiset(s) == multiset{y} by {
      forall x ensures multiset(s)[x] == multiset{y}[x] {
        assert Count(s, x) == multiset(s)[x];
      }
    }
    assert |s| == 1 by {
      assert |multiset(s)| == |s|;
    }
    assert s[0] in multiset(s);
  }

  /**
   When every series ISBN is in the cart and exactly one cart ISBN `y` lies
   outside the series, the pricing removes one book, with ISBN `y`.
   */
  lemma OneUnknownCounted(c: Cart, y: Isbn)
    requires Valid(c) && c.series.Some? && c.series.value != []
    requires Elems(Isbns(c.series.value)) <= Elems(Isbns(c.books))
    requires forall x :: x in Isbns(c.books) && x !in Isbns(c.series.value) <==> x == y
    ensures forall x :: Count(Isbns(CalculateTotalPrice(c).removed), x) == if x == y then 1 else 0
  {
    var r := CalculateTotalPrice(c);
    var cartIsbns := Isbns(c.books);
    var seriesIsbns := Isbns(c.series.value);
    forall x ensures Count(Isbns(r.removed), x) == if x == y then 1 else 0 {
      assert Count(Isbns(r.removed), x) == if x in cartIsbns && x !in seriesIsbns then 1 else 0;
    }
  }

  lemma OneUnknownIsbnRemoved(c: Cart, y: Isbn)
    requires Valid(c) && c.series.Some? && c.series.value != []
    requires Elems(Isbns(c.series.value)) <= Elems(Isbns(c.books))
    requires forall x :: x in Isbns(c.books) && x !in Isbns(c.series.value) <==> x == y
    ensures Isbns(CalculateTotalPrice(c).removed) == [y]
  {
    OneUnknownCounted(c, y);
    OnlyElement(Isbns(CalculateTotalPrice(c).removed), y);
  }

  /**
   When the removed books are indexed representatives carrying the single
   ISBN `y`, and one book of the cart carries it, that book is what is removed.
   */
  lemma OneUnknownRemoved(c: Cart, removed: seq<Book>, y: Isbn, book: Book)
    requires forall k :: k in c.index ==> c.index[k] in c.books
    requires forall b :: b in removed ==> b.isbn in c.index && c.index[b.isbn] == b
    requires forall b :: b in c.books && b.isbn == y ==> b == book
    requires Isbns(removed) == [y]
    ensures removed == [book]
  {
    assert removed[0] in removed && removed[0].isbn == y;
  }

  lemma MixedCartOutside()
    ensures Elems(SeriesKeys) <= Elems(Isbns(MixedCart))
    ensures forall x :: x in Isbns(MixedCart) && x !in SeriesKeys <==> x == IU
  {
    MixedCartKeys();
    IsbnsApart();
  }

  lemma MixedCartRemoval(c: Cart)
    requires Holds(c, MixedCart)
    ensures CalculateTotalPrice(c).removed == [Book9]
  {
    SeriesOrder();
    MixedCartOutside();
    OneUnknownIsbnRemoved(c, IU);
    MixedCartUnknownBook();
    OneUnknownRemoved(c, CalculateTotalPrice(c).removed, IU, Book9);
  }

  /**
   Scenario three: the book outside the series is taken out of the cart and
   reported; the twelve series books form groupings of five, four, two and
   one, so the total is 30.00 + 25.60 + 15.20 + 8.00 = 78.80.
   */
  lemma ScenarioUnknownBook()
    ensures NewCart(MixedCart).Success?
    ensures var r := CalculateTotalPrice(SetSeries(NewCart(MixedCart).value, SeriesList(FullSeries)));
            r.total == 78.8 && r.removed == [Book9]
  {
    MixedCartTotal(WithSeries(MixedCart, FullSeries));
    MixedCartRemoval(WithSeries(MixedCart, FullSeries));
  }

  // Scenario four: the eight books with an empty series.

  lemma NoSeriesTotal(c: Cart)
    requires Valid(c) && c.books == LargeCart && c.series == Some([])
    ensures CalculateTotalPrice(c).total == 64.0
  {
    SumPricesUniform(LargeCart, 8.0);
  }

  /** Scenario four: with an empty series nothing is discounted, 8 × 8.00 = 64.00. */
  lemma ScenarioNoSeries()
    ensures NewCart(LargeCart).Success?
    ensures CalculateTotalPrice(SetSeries(NewCart(LargeCart).value, SeriesList([]))).total == 64.0
  {
    NoSeriesTotal(WithSeries(LargeCart, []));
  }

  /** Scenario five: a cart cannot be built from no books. */
  lemma ScenarioEmptyCart()
    ensures NewCart([]) == Failure(EmptyCart)
  {
  }
}
