/**
 The customer shopping cart: construction with its ISBN index, attaching a
 series, reconciling books that are not part of the series, and computing
 the total price with tiered series discounts.
 */
module ShoppingCart {
  import opened Wrappers
  import opened Lists
  import opened Books
  import opened Pricing
  import opened Grouping

  /**
   A cart: the books in it, the ISBN index built at construction, and the
   series attached by `SetSeries` (`None` until then).
   */
  datatype Cart = Cart(books: seq<Book>, index: map<Isbn, Book>, series: Option<seq<Book>>)

  /** The constructor's only failure. */
  datatype CartError = EmptyCart

  /** What `set_series_of_books` is handed: a list of books, or something else. */
  datatype SeriesArgument = SeriesList(items: seq<Book>) | NotAList

  /**
   The outcome of pricing: the total, the cart as left behind (unknown books
   are removed from its book list), and the books reported as unknown.
   */
  datatype Priced = Priced(total: real, after: Cart, removed: seq<Book>)

  /** The unknown-book reconciliation's outcome: the remaining books and the books reported as unknown. */
  datatype Reconciled = Reconciled(books: seq<Book>, removed: seq<Book>)

  /** Entry `i` is the last entry of `books` with its ISBN. */
  predicate IsLastOfIsbn(books: seq<Book>, i: int)
  {
    0 <= i < |books| && forall j :: i < j < |books| ==> books[j].isbn != books[i].isbn
  }

  /**
   The ISBN index built by the constructor's loop `d[book.isbn] = book`:
   every ISBN in the list is a key, and it maps to the last book in the list
   with that ISBN.
   */
  function BuildIndex(books: seq<Book>): (index: map<Isbn, Book>)
    ensures forall i :: 0 <= i < |books| ==> books[i].isbn in index
    ensures forall k :: k in index ==> index[k].isbn == k && index[k] in books
    ensures forall i :: IsLastOfIsbn(books, i) ==> index[books[i].isbn] == books[i]
  {
    if books == [] then map[]
    else
      var init := books[..|books| - 1];
      var last := books[|books| - 1];
      assert books == init + [last];
      assert forall i :: 0 <= i < |init| ==> init[i] == books[i];
      BuildIndex(init)[last.isbn := last]
  }

  /**
   The cart invariant the constructor establishes and pricing relies on:
   every book's ISBN is indexed, and every key maps to a book with that ISBN.
   */
  predicate Valid(c: Cart)
  {
    && (forall i :: 0 <= i < |c.books| ==> c.books[i].isbn in c.index)
    && (forall k :: k in c.index ==> c.index[k].isbn == k)
  }

  /**
   The constructor: an empty list is refused; otherwise the cart keeps the
   list, indexes it by ISBN with the last copy winning, and has no series yet.
   */
  function NewCart(books: seq<Book>): (r: Result<Cart, CartError>)
    ensures r.Failure? <==> books == []
    ensures r.Success? ==> r.value.books == books && r.value.series == None && Valid(r.value)
    ensures r.Success? ==>
              forall i :: IsLastOfIsbn(books, i) ==> r.value.index[books[i].isbn] == books[i]
    ensures r.Success? ==> forall k :: k in r.value.index ==> r.value.index[k] in books
  {
    if books == [] then Failure(EmptyCart)
    else Success(Cart(books, BuildIndex(books), None))
  }

  /**
   `set_series_of_books`: replaces the series; an argument that is not a list
   gives an empty series, which switches discounting off.
   */
  function SetSeries(c: Cart, arg: SeriesArgument): (r: Cart)
    ensures r.books == c.books && r.index == c.index
    ensures r.series.Some?
    ensures arg.NotAList? ==> r.series.value == []
    ensures arg.SeriesList? ==> r.series.value == arg.items
  {
    var items := if arg.SeriesList? then arg.items else [];
    c.(series := Some(items))
  }

  /** `get_object_for_isbn`: the indexed representative of an ISBN. */
  function GetObjectForIsbn(c: Cart, isbn: Isbn): (b: Book)
    requires Valid(c) && isbn in c.index
    ensures b.isbn == isbn
  {
    c.index[isbn]
  }

  /** The representatives of a list of ISBNs, one per entry. */
  function Representatives(c: Cart, g: seq<Isbn>): (r: seq<Book>)
    requires Valid(c)
    requires forall x :: x in g ==> x in c.index
    ensures |r| == |g|
    ensures forall i :: 0 <= i < |g| ==> r[i] == c.index[g[i]] && r[i].isbn == g[i]
  {
    if g == [] then [] else [GetObjectForIsbn(c, g[0])] + Representatives(c, g[1..])
  }

  /**
   `calculate_discount`: the discount in currency and the percentage for a
   list of books. With non-negative prices the discount never exceeds a
   quarter of the subtotal, and a list of one book, or of six or more,
   earns no discount at all.
   */
  function CalculateDiscount(books: seq<Book>): (r: (real, nat))
    ensures r.1 == DiscountPercentage(|books|) && r.1 <= 25
    ensures r.1 == 0 <==> |books| < 2 || 5 < |books|
    ensures r.1 == 0 ==> r.0 == 0.0
    ensures NonNegativePrices(books) ==> 0.0 <= r.0 <= SumPrices(books) / 4.0
  {
    var pct := DiscountPercentage(|books|);
    SumPricesNonNegativeIf(books);
    (SumPrices(books) * pct as real / 100.0, pct)
  }

  /** Prices read from the index are never negative. */
  predicate NonNegativeIndex(c: Cart)
  {
    forall k :: k in c.index ==> c.index[k].price >= 0.0
  }

  /**
   What one grouping adds to the total: its subtotal less its discount. A
   grouping of one book, or of six or more, costs its subtotal; with
   non-negative prices any grouping costs between 75% and 100% of it.
   */
  function GroupingPrice(c: Cart, g: seq<Isbn>): (r: real)
    requires Valid(c)
    requires forall x :: x in g ==> x in c.index
    ensures |g| < 2 || 5 < |g| ==> r == SumPrices(Representatives(c, g))
    ensures NonNegativeIndex(c) ==>
              0.75 * SumPrices(Representatives(c, g)) <= r <= SumPrices(Representatives(c, g))
  {
    var books := Representatives(c, g);
    SumPrices(books) - CalculateDiscount(books).0
  }

  /** Groupings whose ISBNs are all indexed. */
  predicate Indexed(c: Cart, gs: seq<seq<Isbn>>)
  {
    forall i, x :: 0 <= i < |gs| && x in gs[i] ==> x in c.index
  }

  /**
   The running total over the groupings: with non-negative prices, between
   75% and 100% of the groupings' undiscounted subtotals.
   */
  function PriceGroupings(c: Cart, gs: seq<seq<Isbn>>): (r: real)
    requires Valid(c) && Indexed(c, gs)
    ensures NonNegativeIndex(c) ==> 0.75 * Undiscounted(c, gs) <= r <= Undiscounted(c, gs)
  {
    if gs == [] then 0.0
    else
      assert forall i :: 1 <= i < |gs| ==> gs[1..][i - 1] == gs[i];
      GroupingPrice(c, gs[0]) + PriceGroupings(c, gs[1..])
  }

  /** The undiscounted subtotals of the groupings, added up. */
  function Undiscounted(c: Cart, gs: seq<seq<Isbn>>): real
    requires Valid(c) && Indexed(c, gs)
  {
    if gs == [] then 0.0
    else
      assert forall i :: 1 <= i < |gs| ==> gs[1..][i - 1] == gs[i];
      SumPrices(Representatives(c, gs[0])) + Undiscounted(c, gs[1..])
  }

  /** Python's `set_a.symmetric_difference(set_b)`. */
  function SymmetricDifference(a: set<Isbn>, b: set<Isbn>): (r: set<Isbn>)
    ensures forall x :: x in r <==> (x in a <==> x !in b)
  {
    (a - b) + (b - a)
  }

  /** Entry `i` is the first entry of `books` with ISBN `x`. */
  predicate FirstWithIsbn(books: seq<Book>, x: Isbn, i: int)
  {
    0 <= i < |books| && books[i].isbn == x && forall j :: 0 <= j < i ==> books[j].isbn != x
  }

  /**
   Removal of the first entry with ISBN `x`, which must be present: the other
   entries stay, in order.
   */
  function RemoveFirst(books: seq<Book>, x: Isbn): (r: seq<Book>)
    requires x in Isbns(books)
    ensures exists i :: FirstWithIsbn(books, x, i) && r == books[..i] + books[i + 1..]
    ensures multiset(Isbns(r)) == multiset(Isbns(books)) - multiset{x}
    ensures multiset(r) <= multiset(books)
  {
    IsbnsCons(books);
    if books[0].isbn == x then
      assert FirstWithIsbn(books, x, 0) && books[1..] == books[..0] + books[1..];
      books[1..]
    else
      var rest := RemoveFirst(books[1..], x);
      RemoveFirstStep(books, x, rest);
      RemoveFirstShift(books, x, rest);
      [books[0]] + rest
  }

  /** The ISBNs of a non-empty list: its head's ISBN, then the rest. */
  lemma IsbnsCons(books: seq<Book>)
    requires books != []
    ensures Isbns(books) == [books[0].isbn] + Isbns(books[1..])
    ensures multiset(books) == multiset{books[0]} + multiset(books[1..])
  {
    assert books == [books[0]] + books[1..];
  }

  /** Keeping the head in front of a list with one entry for `x` removed from the tail. */
  lemma RemoveFirstStep(books: seq<Book>, x: Isbn, rest: seq<Book>)
    requires books != [] && books[0].isbn != x
    requires multiset(Isbns(rest)) == multiset(Isbns(books[1..])) - multiset{x}
    requires multiset(rest) <= multiset(books[1..])
    ensures multiset(Isbns([books[0]] + rest)) == multiset(Isbns(books)) - multiset{x}
    ensures multiset([books[0]] + rest) <= multiset(books)
  {
    var h := books[0];
    IsbnsCons(books);
    IsbnsCons([h] + rest);
    assert ([h] + rest)[1..] == rest;
    assert multiset(Isbns([h] + rest)) == multiset{h.isbn} + multiset(Isbns(rest));
    AddThenTake(h.isbn, multiset(Isbns(books[1..])), x);
  }

  /** The first entry for `x` in the tail is the first in the whole list when the head has another ISBN. */
  lemma RemoveFirstShift(books: seq<Book>, x: Isbn, rest: seq<Book>)
    requires books != [] && books[0].isbn != x
    requires exists i :: FirstWithIsbn(books[1..], x, i) && rest == books[1..][..i] + books[1..][i + 1..]
    ensures exists i :: FirstWithIsbn(books, x, i) && [books[0]] + rest == books[..i] + books[i + 1..]
  {
    var i :| FirstWithIsbn(books[1..], x, i) && rest == books[1..][..i] + books[1..][i + 1..];
    assert FirstWithIsbn(books, x, i + 1) by {
      forall j | 0 <= j < i + 1 ensures books[j].isbn != x {
        if j > 0 {
          assert books[j] == books[1..][j - 1];
        }
      }
    }
    assert books[..i + 1] == [books[0]] + books[1..][..i];
    assert books[i + 2..] == books[1..][i + 1..];
  }

  /** The loop that removes one entry for each ISBN of `xs`, in order. */
  function RemoveEach(books: seq<Book>, xs: seq<Isbn>): (r: seq<Book>)
    requires multiset(xs) <= multiset(Isbns(books))
    ensures multiset(Isbns(r)) == multiset(Isbns(books)) - multiset(xs)
    ensures multiset(r) <= multiset(books)
    decreases |xs|
  {
    if xs == [] then books
    else
      var m := multiset(Isbns(books));
      assert multiset(xs) == multiset{xs[0]} + multiset(xs[1..]) by {
        assert xs == [xs[0]] + xs[1..];
      }
      assert xs[0] in Isbns(books) by {
        assert xs[0] in m;
      }
      SubtractInTurn(m, xs[0], multiset(xs[1..]));
      var once := RemoveFirst(books, xs[0]);
      RemoveEach(once, xs[1..])
  }

  /**
   The reconciliation guard: the symmetric difference of the cart's and the
   series' ISBNs lies inside the cart exactly when every series ISBN is in
   the cart, and then it is the set of cart ISBNs outside the series.
   */
  lemma UnknownGuard(cartIsbns: set<Isbn>, seriesIsbns: set<Isbn>)
    ensures SymmetricDifference(cartIsbns, seriesIsbns) <= cartIsbns <==> seriesIsbns <= cartIsbns
    ensures seriesIsbns <= cartIsbns ==> SymmetricDifference(cartIsbns, seriesIsbns) == cartIsbns - seriesIsbns
  {
    forall x | x in seriesIsbns
      ensures x in cartIsbns || x in SymmetricDifference(cartIsbns, seriesIsbns)
    {
    }
  }

  /**
   The ISBNs the reconciliation reports, in the cart's first-occurrence
   order: each cart ISBN outside the series, once, and nothing else.
   */
  function UnknownIsbns(cartIsbns: seq<Isbn>, seriesIsbns: seq<Isbn>): (r: seq<Isbn>)
    ensures forall x :: Count(r, x) == if x in cartIsbns && x !in seriesIsbns then 1 else 0
  {
    var keys := Dedup(cartIsbns);
    assert forall x :: Count(keys, x) == if x in cartIsbns then 1 else 0 by {
      forall x ensures Count(keys, x) == if x in cartIsbns then 1 else 0 {
        NoDupCount(keys, x);
      }
    }
    KeepIn(keys, SymmetricDifference(Elems(cartIsbns), Elems(seriesIsbns)))
  }

  lemma UnknownIsbnsInCart(c: Cart, seriesIsbns: seq<Isbn>)
    requires Valid(c)
    requires Elems(seriesIsbns) <= Elems(Isbns(c.books))
    ensures multiset(UnknownIsbns(Isbns(c.books), seriesIsbns)) <= multiset(Isbns(c.books))
    ensures forall x :: x in UnknownIsbns(Isbns(c.books), seriesIsbns) ==> x in c.index
  {
    var cartIsbns := Isbns(c.books);
    var order := UnknownIsbns(cartIsbns, seriesIsbns);
    forall x ensures multiset(order)[x] <= multiset(cartIsbns)[x] {
      CountIn(cartIsbns, x);
    }
    forall x | x in order ensures x in c.index {
      CountIn(order, x);
      var i :| 0 <= i < |cartIsbns| && cartIsbns[i] == x;
    }
  }

  /** Each representative is the indexed book for its own ISBN. */
  lemma RepresentativesIndexed(c: Cart, g: seq<Isbn>)
    requires Valid(c)
    requires forall x :: x in g ==> x in c.index
    ensures forall b :: b in Representatives(c, g) ==> b.isbn in c.index && c.index[b.isbn] == b
  {
    var r := Representatives(c, g);
    forall b | b in r ensures b.isbn in c.index && c.index[b.isbn] == b {
      var i :| 0 <= i < |r| && r[i] == b;
    }
  }

  lemma RepresentativeIsbns(c: Cart, g: seq<Isbn>)
    requires Valid(c)
    requires forall x :: x in g ==> x in c.index
    ensures Isbns(Representatives(c, g)) == g
  {
  }

  /**
   The unknown-book reconciliation. The symmetric difference of the cart's
   and the series' ISBNs is computed; only when it lies inside the cart are
   its ISBNs reported, and for each of them one entry is removed from the
   book list.
   */
  function Reconcile(c: Cart, seriesIsbns: seq<Isbn>): (r: Reconciled)
    requires Valid(c)
    ensures !(Elems(seriesIsbns) <= Elems(Isbns(c.books))) ==> r == Reconciled(c.books, [])
    ensures forall x :: Count(Isbns(r.removed), x)
              == if Elems(seriesIsbns) <= Elems(Isbns(c.books)) && x in Isbns(c.books) && x !in seriesIsbns
                 then 1 else 0
    ensures forall x :: Count(Isbns(r.books), x) == Count(Isbns(c.books), x) - Count(Isbns(r.removed), x)
    ensures multiset(r.books) <= multiset(c.books)
    ensures forall b :: b in r.removed ==> b.isbn in c.index && c.index[b.isbn] == b
  {
    var cartIsbns := Isbns(c.books);
    var unknown := SymmetricDifference(Elems(cartIsbns), Elems(seriesIsbns));
    UnknownGuard(Elems(cartIsbns), Elems(seriesIsbns));
    if unknown <= Elems(cartIsbns) then
      var order := UnknownIsbns(cartIsbns, seriesIsbns);
      UnknownIsbnsInCart(c, seriesIsbns);
      RepresentativeIsbns(c, order);
      var r := Reconciled(RemoveEach(c.books, order), Representatives(c, order));
      assert forall x :: Count(Isbns(r.removed), x)
               == if x in cartIsbns && x !in seriesIsbns then 1 else 0 by {
        assert forall x :: Count(order, x) == if x in cartIsbns && x !in seriesIsbns then 1 else 0;
      }
      assert forall x :: Count(Isbns(r.books), x) == Count(cartIsbns, x) - Count(order, x) by {
        forall x ensures Count(Isbns(r.books), x) == Count(cartIsbns, x) - Count(order, x) {
          assert multiset(order)[x] <= multiset(cartIsbns)[x];
        }
      }
      assert forall b :: b in r.removed ==> b.isbn in c.index && c.index[b.isbn] == b by {
        RepresentativesIndexed(c, order);
      }
      r
    else
      Reconciled(c.books, [])
  }

  lemma IsbnIndexed(c: Cart, x: Isbn)
    requires Valid(c) && x in Isbns(c.books)
    ensures x in c.index
  {
    var i :| 0 <= i < |c.books| && Isbns(c.books)[i] == x;
  }

  /**
   The groupings of the series path: `max_count_of_a_book` rounds over the
   ISBNs of every cart entry, taken before any unknown book is removed.
   */
  function Groupings(c: Cart): (gs: seq<seq<Isbn>>)
    requires Valid(c) && c.series.Some?
    ensures Indexed(c, gs)
  {
    var cartIsbns := Isbns(c.books);
    var gs := Partition(Isbns(c.series.value), cartIsbns, MaxCount(cartIsbns));
    assert Indexed(c, gs) by {
      PartitionMembers(Isbns(c.series.value), cartIsbns, MaxCount(cartIsbns));
      forall i, x | 0 <= i < |gs| && x in gs[i] ensures x in c.index {
        IsbnIndexed(c, x);
      }
    }
    gs
  }

  /** The groupings unfolded: the rounds are counted over the cart's ISBNs. */
  lemma GroupingsUnfold(c: Cart)
    requires Valid(c) && c.series.Some?
    ensures Groupings(c) == Partition(Isbns(c.series.value), Isbns(c.books), MaxCount(Isbns(c.books)))
  {
  }

  /** A grouped ISBN is a series ISBN of a cart entry. */
  lemma GroupedIsbnMember(c: Cart, i: nat, x: Isbn)
    requires Valid(c) && c.series.Some?
    requires i < |Groupings(c)| && x in Groupings(c)[i]
    ensures x in Isbns(c.series.value) && x in Isbns(c.books)
  {
    GroupingsUnfold(c);
    PartitionMember(Isbns(c.series.value), Isbns(c.books), MaxCount(Isbns(c.books)), i, x);
  }

  /** A cart that keeps a sub-multiset of a valid cart's books, with the same index, is valid. */
  lemma FewerBooksStayValid(c: Cart, books: seq<Book>)
    requires Valid(c) && multiset(books) <= multiset(c.books)
    ensures Valid(c.(books := books))
  {
    forall i | 0 <= i < |books| ensures books[i].isbn in c.index {
      assert books[i] in multiset(c.books);
      var j :| 0 <= j < |c.books| && c.books[j] == books[i];
    }
  }

  /**
   `calculate_total_price`. With an empty series the total is the plain sum
   of every book in the cart and nothing changes. Otherwise the total is the
   discounted price of the groupings, and the reconciliation's removals are
   left behind in the cart's book list.
   */
  function CalculateTotalPrice(c: Cart): (r: Priced)
    requires Valid(c) && c.series.Some?
    ensures r.after.index == c.index && r.after.series == c.series && Valid(r.after)
    ensures c.series.value == [] ==> r == Priced(SumPrices(c.books), c, [])
    ensures c.series.value != [] ==> r.total == PriceGroupings(c, Groupings(c))
    ensures forall x :: Count(Isbns(r.removed), x)
              == if c.series.value != [] && Elems(Isbns(c.series.value)) <= Elems(Isbns(c.books))
                    && x in Isbns(c.books) && x !in Isbns(c.series.value)
                 then 1 else 0
    ensures forall x :: Count(Isbns(r.after.books), x) == Count(Isbns(c.books), x) - Count(Isbns(r.removed), x)
    ensures multiset(r.after.books) <= multiset(c.books)
    ensures forall b :: b in r.removed ==> b.isbn in c.index && c.index[b.isbn] == b
  {
    var series := c.series.value;
    if series != [] then
      var rec := Reconcile(c, Isbns(series));
      FewerBooksStayValid(c, rec.books);
      Priced(PriceGroupings(c, Groupings(c)), c.(books := rec.books), rec.removed)
    else
      Priced(SumPrices(c.books), c, [])
  }
}
