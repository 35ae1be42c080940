/** Properties of cart pricing that relate several operations or calls. */
module CartProperties {
  import opened Lists
  import opened Books
  import opened Pricing
  import opened Grouping
  import opened ShoppingCart

  /**
   The shape of the series-path groupings of a cart: there are as many
   rounds as the largest number of copies of any ISBN in the cart (series or
   not); round `i` holds each series ISBN with more than `i` copies, once;
   rounds never grow; and together the rounds hold exactly the cart's
   entries whose ISBN is in the series.
   */
  lemma GroupingsShape(c: Cart)
    requires Valid(c) && c.series.Some?
    ensures |Groupings(c)| == MaxCount(Isbns(c.books))
    ensures forall x :: Count(Isbns(c.books), x) <= |Groupings(c)|
    ensures forall i, x :: 0 <= i < |Groupings(c)| ==>
              (x in Groupings(c)[i] <==> x in Isbns(c.series.value) && Count(Isbns(c.books), x) > i)
    ensures forall i :: 0 <= i < |Groupings(c)| ==> NoDup(Groupings(c)[i])
    ensures forall i, j :: 0 <= i <= j < |Groupings(c)| ==> |Groupings(c)[j]| <= |Groupings(c)[i]|
    ensures multiset(Flatten(Groupings(c)))
            == multiset(KeepIn(Isbns(c.books), Elems(Isbns(c.series.value))))
    ensures TotalLength(Groupings(c)) == |KeepIn(Isbns(c.books), Elems(Isbns(c.series.value)))|
  {
    var series := Isbns(c.series.value);
    var cart := Isbns(c.books);
    PartitionShape(series, cart, MaxCount(cart));
    Drainage(series, cart, MaxCount(cart));
  }

  /**
   With non-negative prices, the discounted total of the series path is
   between 75% and 100% of the undiscounted price of its groupings.
   */
  lemma SeriesTotalBounds(c: Cart)
    requires Valid(c) && NonNegativeIndex(c) && c.series.Some? && c.series.value != []
    ensures 0.75 * Undiscounted(c, Groupings(c)) <= CalculateTotalPrice(c).total
    ensures CalculateTotalPrice(c).total <= Undiscounted(c, Groupings(c))
  {
  }

  /** Empty rounds at the end of the partition add nothing to the total. */
  lemma {:induction false} EmptyRoundsAddNothing(c: Cart, gs: seq<seq<Isbn>>, k: nat)
    requires Valid(c) && Indexed(c, gs) && k <= |gs|
    requires forall i :: k <= i < |gs| ==> gs[i] == []
    ensures PriceGroupings(c, gs) == PriceGroupings(c, gs[..k])
  {
    if gs != [] {
      assert forall i :: 1 <= i < |gs| ==> gs[1..][i - 1] == gs[i];
      if k == 0 {
        assert gs[0] == [];
        EmptyRoundsAddNothing(c, gs[1..], 0);
      } else {
        EmptyRoundsAddNothing(c, gs[1..], k - 1);
        assert gs[..k][1..] == gs[1..][..k - 1];
      }
    }
  }

  /**
   Two carts with the same series whose counts agree on every series ISBN
   have the same groupings up to the shorter run; the longer run's further
   rounds are empty.
   */
  lemma GroupingsAgree(c1: Cart, c2: Cart, k: nat)
    requires Valid(c1) && Valid(c2)
    requires c1.series.Some? && c2.series == c1.series
    requires forall x :: x in Isbns(c1.series.value) ==> Count(Isbns(c1.books), x) == Count(Isbns(c2.books), x)
    requires k == if |Groupings(c1)| < |Groupings(c2)| then |Groupings(c1)| else |Groupings(c2)|
    ensures Groupings(c1)[..k] == Groupings(c2)[..k]
    ensures forall i :: k <= i < |Groupings(c1)| ==> Groupings(c1)[i] == []
    ensures forall i :: k <= i < |Groupings(c2)| ==> Groupings(c2)[i] == []
  {
    GroupingsUnfold(c1);
    GroupingsUnfold(c2);
    CountedPartitionsAgree(Isbns(c1.series.value), Isbns(c1.books), Isbns(c2.books), k);
  }

  /** Both carts index `x`, to the same book. */
  predicate SameBookFor(c1: Cart, c2: Cart, x: Isbn)
  {
    x in c1.index && x in c2.index && c1.index[x] == c2.index[x]
  }

  /**
   On the series path the total depends only on the series books: two carts
   with the same series whose counts agree on every series ISBN, and whose
   indexes agree on the series ISBNs in the carts, cost the same, whatever
   non-series books each holds.
   */
  lemma TotalIgnoresNonSeriesBooks(c1: Cart, c2: Cart)
    requires Valid(c1) && Valid(c2)
    requires c1.series.Some? && c1.series.value != [] && c2.series == c1.series
    requires forall x :: x in Isbns(c1.series.value) ==> Count(Isbns(c1.books), x) == Count(Isbns(c2.books), x)
    requires forall x :: x in Isbns(c1.series.value) && x in Isbns(c1.books) ==>
               SameBookFor(c1, c2, x)
    ensures CalculateTotalPrice(c1).total == CalculateTotalPrice(c2).total
  {
    var g1 := Groupings(c1);
    var g2 := Groupings(c2);
    var k := if |g1| < |g2| then |g1| else |g2|;
    GroupingsAgree(c1, c2, k);
    GroupingsIndexAgree(c1, c2);
    PricesAgree(c1, c2, g1, g2, k);
  }

  /** Every grouped ISBN is read from the same book in both indexes when they agree on the cart's series ISBNs. */
  lemma GroupingsIndexAgree(c1: Cart, c2: Cart)
    requires Valid(c1) && c1.series.Some?
    requires forall x :: x in Isbns(c1.series.value) && x in Isbns(c1.books) ==>
               SameBookFor(c1, c2, x)
    ensures forall i, x :: 0 <= i < |Groupings(c1)| && x in Groupings(c1)[i] ==>
              SameBookFor(c1, c2, x)
  {
    var gs := Groupings(c1);
    forall i, x | 0 <= i < |gs| && x in gs[i] ensures SameBookFor(c1, c2, x) {
      GroupedIsbnAgrees(c1, c2, i, x);
    }
  }

  /** A grouped ISBN is a series ISBN of a cart entry, so both indexes read the same book for it. */
  lemma GroupedIsbnAgrees(c1: Cart, c2: Cart, i: nat, x: Isbn)
    requires Valid(c1) && c1.series.Some?
    requires forall x :: x in Isbns(c1.series.value) && x in Isbns(c1.books) ==>
               SameBookFor(c1, c2, x)
    requires i < |Groupings(c1)| && x in Groupings(c1)[i]
    ensures SameBookFor(c1, c2, x)
  {
    GroupedIsbnMember(c1, i, x);
  }

  /**
   Groupings that agree up to `k` and are empty beyond it price alike when
   the indexes agree on the ISBNs of the first `k` groupings.
   */
  lemma PricesAgree(c1: Cart, c2: Cart, g1: seq<seq<Isbn>>, g2: seq<seq<Isbn>>, k: nat)
    requires Valid(c1) && Valid(c2)
    requires Indexed(c1, g1) && Indexed(c2, g2)
    requires k <= |g1| && k <= |g2| && g1[..k] == g2[..k]
    requires forall i :: k <= i < |g1| ==> g1[i] == []
    requires forall i :: k <= i < |g2| ==> g2[i] == []
    requires forall i, x :: 0 <= i < k && x in g1[i] ==> SameBookFor(c1, c2, x)
    ensures PriceGroupings(c1, g1) == PriceGroupings(c2, g2)
  {
    EmptyRoundsAddNothing(c1, g1, k);
    EmptyRoundsAddNothing(c2, g2, k);
    assert forall i :: 0 <= i < k ==> g1[..k][i] == g1[i];
    PriceGroupingsAgreeOn(c1, c2, g1[..k]);
  }

  /** Pricing groupings reads the index only at the ISBNs the groupings hold. */
  lemma {:induction false} PriceGroupingsAgreeOn(c1: Cart, c2: Cart, gs: seq<seq<Isbn>>)
    requires Valid(c1) && Valid(c2) && Indexed(c1, gs)
    requires forall i, x :: 0 <= i < |gs| && x in gs[i] ==> SameBookFor(c1, c2, x)
    ensures Indexed(c2, gs)
    ensures PriceGroupings(c1, gs) == PriceGroupings(c2, gs)
  {
    if gs != [] {
      assert forall i :: 1 <= i < |gs| ==> gs[1..][i - 1] == gs[i];
      forall j | 0 <= j < |gs[0]| ensures SameBookFor(c1, c2, gs[0][j]) {
        assert gs[0][j] in gs[0];
      }
      assert Representatives(c1, gs[0]) == Representatives(c2, gs[0]);
      PriceGroupingsAgreeOn(c1, c2, gs[1..]);
    }
  }

  /**
   Pricing the same cart twice gives the same total, although the first call
   removes unknown books from the cart's book list.
   */
  lemma RepeatedCallSameTotal(c: Cart)
    requires Valid(c) && c.series.Some?
    ensures CalculateTotalPrice(CalculateTotalPrice(c).after).total == CalculateTotalPrice(c).total
  {
    var first := CalculateTotalPrice(c);
    if c.series.value != [] {
      forall x | x in Isbns(c.series.value)
        ensures Count(Isbns(c.books), x) == Count(Isbns(first.after.books), x)
      {
      }
      TotalIgnoresNonSeriesBooks(c, first.after);
    }
  }

  /**
   Without discounting, whether the series was set to an empty list or to
   something that is not a list, the total is the plain sum of the prices
   of every book in the cart.
   */
  lemma NoSeriesIsPlainSum(c: Cart, arg: SeriesArgument)
    requires Valid(c)
    requires arg.NotAList? || arg.items == []
    ensures CalculateTotalPrice(SetSeries(c, arg)).total == SumPrices(c.books)
  {
  }

  /**
   When every book of a grouping costs `p`, the grouping adds its size times
   `p`, less the table percentage for that size.
   */
  lemma UniformGroupingPrice(c: Cart, g: seq<Isbn>, p: real)
    requires Valid(c)
    requires forall x :: x in g ==> x in c.index && c.index[x].price == p
    ensures GroupingPrice(c, g)
            == |g| as real * p * (100 - DiscountPercentage(|g|)) as real / 100.0
  {
    var books := Representatives(c, g);
    assert forall i :: 0 <= i < |books| ==> books[i].price == p by {
      forall i | 0 <= i < |books| ensures books[i].price == p {
        assert books[i] == c.index[g[i]];
      }
    }
    SumPricesUniform(books, p);
  }
}
