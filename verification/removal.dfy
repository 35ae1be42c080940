/**
 The unknown-book removal as the program writes it: for each unknown ISBN
 the indexed book is looked up and `list.remove` is applied to it. Python
 compares the books by identity (the class defines no equality), and
 `list.remove` raises `ValueError` when the book is not in the list. The
 model compares books by value, which agrees with identity whenever
 distinct copies in a cart differ in some field.

 The pricing model in `ShoppingCart` uses the corrected removal instead:
 one entry per unknown ISBN, which never fails.
 */
module RemovalAsWritten {
  import opened Wrappers
  import opened Lists
  import opened Books
  import opened ShoppingCart

  /** `ValueError` from `list.remove`: the book is not in the list. */
  datatype RemoveError = NotInList

  /** The first entry of `books` equal to `b` is entry `i`. */
  predicate FirstEqual(books: seq<Book>, b: Book, i: int)
  {
    0 <= i < |books| && books[i] == b && b !in books[..i]
  }

  /**
   `list.remove(b)`: the first entry equal to `b` is taken out and the
   others keep their order; a book that is not in the list is an error.
   */
  function RemoveBook(books: seq<Book>, b: Book): (r: Result<seq<Book>, RemoveError>)
    ensures r.Failure? <==> b !in books
    ensures r.Success? ==> exists i :: FirstEqual(books, b, i) && r.value == books[..i] + books[i + 1..]
    ensures r.Success? ==> multiset(r.value) == multiset(books) - multiset{b}
    ensures r.Success? ==> multiset(Isbns(r.value)) == multiset(Isbns(books)) - multiset{b.isbn}
  {
    if books == [] then Failure(NotInList)
    else if books[0] == b then
      assert FirstEqual(books, b, 0) && books[1..] == books[..0] + books[1..];
      IsbnsCons(books);
      Success(books[1..])
    else
      IsbnsCons(books);
      match RemoveBook(books[1..], b)
      case Failure(e) => Failure(e)
      case Success(rest) =>
        RemoveBookShift(books, b, rest);
        AddThenTake(books[0], multiset(books[1..]), b);
        RemoveBookIsbns(books, b, rest);
        Success([books[0]] + rest)
  }

  /** Keeping the head in front of the tail with `b` removed takes one copy of `b`'s ISBN from the whole list. */
  lemma RemoveBookIsbns(books: seq<Book>, b: Book, rest: seq<Book>)
    requires books != [] && b in books[1..]
    requires multiset(Isbns(rest)) == multiset(Isbns(books[1..])) - multiset{b.isbn}
    ensures multiset(Isbns([books[0]] + rest)) == multiset(Isbns(books)) - multiset{b.isbn}
  {
    IsbnsCons(books);
    IsbnsCons([books[0]] + rest);
    assert ([books[0]] + rest)[1..] == rest;
    var i :| 0 <= i < |books[1..]| && books[1..][i] == b;
    assert Isbns(books[1..])[i] == b.isbn;
    AddThenTakePresent(books[0].isbn, multiset(Isbns(books[1..])), b.isbn);
  }

  /** The first entry equal to `b` in the tail is the first in the whole list when the head differs. */
  lemma RemoveBookShift(books: seq<Book>, b: Book, rest: seq<Book>)
    requires books != [] && books[0] != b
    requires exists i :: FirstEqual(books[1..], b, i) && rest == books[1..][..i] + books[1..][i + 1..]
    ensures exists i :: FirstEqual(books, b, i) && [books[0]] + rest == books[..i] + books[i + 1..]
  {
    var i :| FirstEqual(books[1..], b, i) && rest == books[1..][..i] + books[1..][i + 1..];
    assert books[..i + 1] == [books[0]] + books[1..][..i];
    assert books[i + 2..] == books[1..][i + 1..];
    assert FirstEqual(books, b, i + 1);
  }

  /**
   The removal loop: `list.remove` of each book of `bs` in turn. It
   succeeds exactly when `bs` is a sub-multiset of the list, and then it
   leaves the list minus `bs`.
   */
  function RemoveBooks(books: seq<Book>, bs: seq<Book>): (r: Result<seq<Book>, RemoveError>)
    ensures r.Success? <==> multiset(bs) <= multiset(books)
    ensures r.Success? ==> multiset(r.value) == multiset(books) - multiset(bs)
    ensures r.Success? ==> multiset(Isbns(r.value)) == multiset(Isbns(books)) - multiset(Isbns(bs))
    decreases |bs|
  {
    if bs == [] then Success(books)
    else
      IsbnsCons(bs);
      match RemoveBook(books, bs[0])
      case Failure(e) => Failure(e)
      case Success(once) =>
        TakeOneThenRest(multiset(books), bs[0], multiset(bs[1..]));
        BookIsbnIn(books, bs[0]);
        TakeOneThenRest(multiset(Isbns(books)), bs[0].isbn, multiset(Isbns(bs[1..])));
        RemoveBooks(once, bs[1..])
  }

  /** A book in a list has its ISBN among the list's ISBNs. */
  lemma BookIsbnIn(books: seq<Book>, b: Book)
    requires b in books
    ensures b.isbn in multiset(Isbns(books))
  {
    var i :| 0 <= i < |books| && books[i] == b;
    assert Isbns(books)[i] == b.isbn;
  }

  /**
   The reconciliation as written: the same guard and the same reported
   books as the corrected `Reconcile`, but each reported book is removed
   with `list.remove`, which raises when it is no longer in the list.
   */
  function ReconcileAsWritten(c: Cart, seriesIsbns: seq<Isbn>): (r: Result<Reconciled, RemoveError>)
    requires Valid(c)
    ensures !(Elems(seriesIsbns) <= Elems(Isbns(c.books))) ==> r == Success(Reconciled(c.books, []))
    ensures r.Failure? <==> !(multiset(Reconcile(c, seriesIsbns).removed) <= multiset(c.books))
    ensures r.Success? ==> r.value.removed == Reconcile(c, seriesIsbns).removed
    ensures r.Success? ==> multiset(r.value.books) == multiset(c.books) - multiset(r.value.removed)
    ensures r.Success? ==> multiset(Isbns(r.value.books)) == multiset(Isbns(c.books)) - multiset(Isbns(r.value.removed))
    ensures r.Success? ==> Valid(c.(books := r.value.books))
  {
    var cartIsbns := Isbns(c.books);
    UnknownGuard(Elems(cartIsbns), Elems(seriesIsbns));
    if SymmetricDifference(Elems(cartIsbns), Elems(seriesIsbns)) <= Elems(cartIsbns) then
      UnknownIsbnsInCart(c, seriesIsbns);
      var reported := Representatives(c, UnknownIsbns(cartIsbns, seriesIsbns));
      match RemoveBooks(c.books, reported)
      case Failure(e) => Failure(e)
      case Success(rest) =>
        FewerBooksStayValid(c, rest);
        Success(Reconciled(rest, reported))
    else
      Success(Reconciled(c.books, []))
  }

  /**
   `calculate_total_price` as written: the same total as the corrected
   model when every removal succeeds, and `ValueError` when a reported
   book is no longer in the cart's list.
   */
  function CalculateTotalPriceAsWritten(c: Cart): (r: Result<Priced, RemoveError>)
    requires Valid(c) && c.series.Some?
    ensures r.Failure? <==> c.series.value != [] && !(multiset(CalculateTotalPrice(c).removed) <= multiset(c.books))
    ensures r.Success? ==> Valid(r.value.after) && r.value.after.index == c.index && r.value.after.series == c.series
    ensures r.Success? ==> r.value.total == CalculateTotalPrice(c).total && r.value.removed == CalculateTotalPrice(c).removed
    ensures r.Success? ==> multiset(r.value.after.books) == multiset(c.books) - multiset(r.value.removed)
    ensures r.Success? ==> multiset(Isbns(r.value.after.books)) == multiset(Isbns(c.books)) - multiset(Isbns(r.value.removed))
  {
    var series := c.series.value;
    if series != [] then
      match ReconcileAsWritten(c, Isbns(series))
      case Failure(e) => Failure(e)
      case Success(rec) =>
        FewerBooksStayValid(c, rec.books);
        Success(Priced(PriceGroupings(c, Groupings(c)), c.(books := rec.books), rec.removed))
    else
      Success(Priced(SumPrices(c.books), c, []))
  }

  /** A list holds a book at most as often as it holds the book's ISBN. */
  lemma {:induction false} BookCountAtMostIsbnCount(books: seq<Book>, b: Book)
    ensures Count(books, b) <= Count(Isbns(books), b.isbn)
  {
    if books != [] {
      IsbnsCons(books);
      BookCountAtMostIsbnCount(books[1..], b);
    }
  }

  /** A reported book is reported once and, with the index pointing into the list, is in the list. */
  lemma ReportedBookInCart(c: Cart, seriesIsbns: seq<Isbn>, b: Book)
    requires Valid(c)
    requires forall k :: k in c.index ==> c.index[k] in c.books
    requires b in Reconcile(c, seriesIsbns).removed
    ensures Count(Reconcile(c, seriesIsbns).removed, b) <= Count(c.books, b)
  {
    var removed := Reconcile(c, seriesIsbns).removed;
    BookCountAtMostIsbnCount(removed, b);
    assert Count(Isbns(removed), b.isbn) <= 1;
    assert c.index[b.isbn] == b;
    CountIn(c.books, b);
  }

  /**
   On a cart whose index points into its own book list, as the constructor
   leaves it, the removal as written succeeds: the reported books have
   distinct ISBNs and each is still in the list when its turn comes.
   */
  lemma FirstRemovalSucceeds(c: Cart, seriesIsbns: seq<Isbn>)
    requires Valid(c)
    requires forall k :: k in c.index ==> c.index[k] in c.books
    ensures ReconcileAsWritten(c, seriesIsbns).Success?
  {
    var removed := Reconcile(c, seriesIsbns).removed;
    forall b ensures multiset(removed)[b] <= multiset(c.books)[b] {
      if b in removed {
        ReportedBookInCart(c, seriesIsbns, b);
      }
    }
  }

  /** Pricing as written succeeds on such a cart too. */
  lemma FirstCallSucceeds(c: Cart)
    requires Valid(c) && c.series.Some?
    requires forall k :: k in c.index ==> c.index[k] in c.books
    ensures CalculateTotalPriceAsWritten(c).Success?
  {
    if c.series.value != [] {
      FirstRemovalSucceeds(c, Isbns(c.series.value));
    }
  }

  /**
   Removing twice fails whenever the one unknown ISBN has another copy
   besides its indexed book and no other entry equals that book: the first
   removal takes the indexed book, the ISBN stays in the cart, and the
   second removal reports the same book again and cannot find it.
   */
  lemma RepeatedRemovalRaises(c: Cart, seriesIsbns: seq<Isbn>, x: Isbn)
    requires Valid(c)
    requires forall k :: k in c.index ==> c.index[k] in c.books
    requires Elems(seriesIsbns) <= Elems(Isbns(c.books))
    requires forall y :: y in Isbns(c.books) && y !in seriesIsbns <==> y == x
    requires x in c.index && Count(c.books, c.index[x]) == 1 && Count(Isbns(c.books), x) >= 2
    ensures ReconcileAsWritten(c, seriesIsbns).Success?
    ensures ReconcileAsWritten(c.(books := ReconcileAsWritten(c, seriesIsbns).value.books), seriesIsbns).Failure?
  {
    RemovalKeepsUnknownIsbn(c, seriesIsbns, x);
    MissingIndexedBookRaises(c.(books := ReconcileAsWritten(c, seriesIsbns).value.books), seriesIsbns, x);
  }

  /**
   The first removal takes the indexed book of the one unknown ISBN and
   nothing else, so the ISBNs in the cart stay the same while the indexed
   book is gone.
   */
  lemma RemovalKeepsUnknownIsbn(c: Cart, seriesIsbns: seq<Isbn>, x: Isbn)
    requires Valid(c)
    requires forall k :: k in c.index ==> c.index[k] in c.books
    requires Elems(seriesIsbns) <= Elems(Isbns(c.books))
    requires forall y :: y in Isbns(c.books) && y !in seriesIsbns <==> y == x
    requires x in c.index && Count(c.books, c.index[x]) == 1 && Count(Isbns(c.books), x) >= 2
    ensures ReconcileAsWritten(c, seriesIsbns).Success?
    ensures var c2 := c.(books := ReconcileAsWritten(c, seriesIsbns).value.books);
            && Valid(c2)
            && (forall y :: y in Isbns(c2.books) <==> y in Isbns(c.books))
            && c.index[x] !in c2.books
  {
    FirstRemovalSucceeds(c, seriesIsbns);
    var first := ReconcileAsWritten(c, seriesIsbns).value;
    SingleUnknownReported(c, seriesIsbns, x);
    IsbnsOfOne(first.removed, c.index[x]);
    OneCopyLess(Isbns(c.books), Isbns(first.books), x);
    assert multiset(first.books)[c.index[x]] == 0;
  }

  /** Taking one copy of `x` out of a list that holds two or more leaves the same elements. */
  lemma OneCopyLess(a: seq<Isbn>, b: seq<Isbn>, x: Isbn)
    requires multiset(b) == multiset(a) - multiset{x} && Count(a, x) >= 2
    ensures forall y :: y in b <==> y in a
  {
    forall y ensures y in b <==> y in a {
      CountIn(a, y);
      CountIn(b, y);
    }
  }

  /**
   When the indexed book of the one unknown ISBN is missing from the list,
   the removal as written raises: that book is reported and cannot be
   found.
   */
  lemma MissingIndexedBookRaises(c: Cart, seriesIsbns: seq<Isbn>, x: Isbn)
    requires Valid(c)
    requires Elems(seriesIsbns) <= Elems(Isbns(c.books))
    requires forall y :: y in Isbns(c.books) && y !in seriesIsbns <==> y == x
    requires x in c.index && c.index[x] !in c.books
    ensures ReconcileAsWritten(c, seriesIsbns).Failure?
  {
    SingleUnknownReported(c, seriesIsbns, x);
    assert c.index[x] in multiset(Reconcile(c, seriesIsbns).removed);
  }

  /** A list holding exactly one book has exactly that book's ISBN. */
  lemma IsbnsOfOne(books: seq<Book>, b: Book)
    requires multiset(books) == multiset{b}
    ensures multiset(Isbns(books)) == multiset{b.isbn}
  {
    assert |books| == 1 by {
      assert |multiset(books)| == 1;
    }
    assert books == [b] by {
      assert books[0] in multiset(books);
    }
    assert Isbns(books) == [b.isbn];
  }

  /**
   The concrete case: two distinct books `a` and `b` share an ISBN outside
   the series `[s]`, and the cart is `[s, a, b]`. The index maps that ISBN
   to `b`, the last copy, so the first removal succeeds, and the second one
   looks up `b` again, finds it gone and raises.
   */
  lemma SecondCallRaises(s: Book, a: Book, b: Book)
    requires a.isbn == b.isbn && a != b && s.isbn != a.isbn
    ensures var c := SetSeries(NewCart([s, a, b]).value, SeriesList([s]));
            && ReconcileAsWritten(c, [s.isbn]).Success?
            && ReconcileAsWritten(c.(books := ReconcileAsWritten(c, [s.isbn]).value.books), [s.isbn]).Failure?
  {
    IndexOfThree(s, a, b);
    IsbnsOfThree(s, a, b);
    CountsOfThree(s, a, b);
    RepeatedRemovalRaises(SetSeries(NewCart([s, a, b]).value, SeriesList([s])), [s.isbn], a.isbn);
  }

  /**
   The same case seen through pricing: the cart `[s, a, b]` with series
   `[s]` is priced once, and pricing the cart it leaves behind raises.
   */
  lemma SecondPriceCallRaises(s: Book, a: Book, b: Book)
    requires a.isbn == b.isbn && a != b && s.isbn != a.isbn
    ensures var c := SetSeries(NewCart([s, a, b]).value, SeriesList([s]));
            && CalculateTotalPriceAsWritten(c).Success?
            && CalculateTotalPriceAsWritten(CalculateTotalPriceAsWritten(c).value.after).Failure?
  {
    var c := SetSeries(NewCart([s, a, b]).value, SeriesList([s]));
    IndexOfThree(s, a, b);
    assert Isbns([s]) == [s.isbn];
    var first := ReconcileAsWritten(c, [s.isbn]);
    assert first.Success? && ReconcileAsWritten(c.(books := first.value.books), [s.isbn]).Failure? by {
      SecondCallRaises(s, a, b);
    }
    assert CalculateTotalPriceAsWritten(c).Success?
        && CalculateTotalPriceAsWritten(c).value.after == c.(books := first.value.books) by {
      PriceFollowsRemoval(c);
    }
    PriceFollowsRemoval(c.(books := first.value.books));
  }

  /** Pricing as written fails exactly when its removal fails, and leaves the books the removal leaves. */
  lemma PriceFollowsRemoval(c: Cart)
    requires Valid(c) && c.series.Some? && c.series.value != []
    ensures CalculateTotalPriceAsWritten(c).Success? <==> ReconcileAsWritten(c, Isbns(c.series.value)).Success?
    ensures CalculateTotalPriceAsWritten(c).Success? ==>
              CalculateTotalPriceAsWritten(c).value.after
              == c.(books := ReconcileAsWritten(c, Isbns(c.series.value)).value.books)
  {
  }

  /** In the same case the first removal takes `b`, the last copy, and leaves `s` and `a`. */
  lemma FirstCallLeavesTwo(s: Book, a: Book, b: Book)
    requires a.isbn == b.isbn && a != b && s.isbn != a.isbn
    ensures var c := SetSeries(NewCart([s, a, b]).value, SeriesList([s]));
            && ReconcileAsWritten(c, [s.isbn]).Success?
            && multiset(ReconcileAsWritten(c, [s.isbn]).value.removed) == multiset{b}
            && multiset(ReconcileAsWritten(c, [s.isbn]).value.books) == multiset{s, a}
  {
    var c := SetSeries(NewCart([s, a, b]).value, SeriesList([s]));
    IndexOfThree(s, a, b);
    assert ReconcileAsWritten(c, [s.isbn]).Success?
        && multiset(ReconcileAsWritten(c, [s.isbn]).value.removed) == multiset{b} by {
      IsbnsOfThree(s, a, b);
      FirstRemovalSucceeds(c, [s.isbn]);
      SingleUnknownReported(c, [s.isbn], a.isbn);
    }
    TakeLastOfThree(s, a, b);
  }

  /** The index of `[s, a, b]` maps the shared ISBN to `b` and points into the list. */
  lemma IndexOfThree(s: Book, a: Book, b: Book)
    requires a.isbn == b.isbn
    ensures var c := SetSeries(NewCart([s, a, b]).value, SeriesList([s]));
            && Valid(c) && c.books == [s, a, b]
            && a.isbn in c.index && c.index[a.isbn] == b
            && forall k :: k in c.index ==> c.index[k] in c.books
  {
    var books := [s, a, b];
    assert IsLastOfIsbn(books, 2);
  }

  /** In `[s, a, b]` the series ISBN `s.isbn` is present and `a`'s ISBN is the only other. */
  lemma IsbnsOfThree(s: Book, a: Book, b: Book)
    requires a.isbn == b.isbn && a != b && s.isbn != a.isbn
    ensures Elems([s.isbn]) <= Elems(Isbns([s, a, b]))
    ensures forall y :: y in Isbns([s, a, b]) && y !in [s.isbn] <==> y == a.isbn
  {
    assert Isbns([s, a, b]) == [s.isbn, a.isbn, a.isbn];
  }

  /** `[s, a, b]` holds `b` once and the shared ISBN twice. */
  lemma CountsOfThree(s: Book, a: Book, b: Book)
    requires a.isbn == b.isbn && a != b && s.isbn != a.isbn
    ensures Count([s, a, b], b) == 1 && Count(Isbns([s, a, b]), a.isbn) == 2
  {
    assert Isbns([s, a, b]) == [s.isbn, a.isbn, a.isbn];
  }

  /**
   Reported books are the indexed books of their ISBNs; when exactly one
   ISBN is reported, once, the report is exactly that ISBN's indexed book.
   */
  lemma OneReportedIsbn(removed: seq<Book>, x: Isbn, index: map<Isbn, Book>)
    requires forall y :: Count(Isbns(removed), y) == if y == x then 1 else 0
    requires forall r :: r in removed ==> r.isbn in index && index[r.isbn] == r
    requires x in index
    ensures multiset(removed) == multiset{index[x]}
  {
    forall r | r in removed ensures r == index[x] {
      var i :| 0 <= i < |removed| && removed[i] == r;
      assert Isbns(removed)[i] == r.isbn;
      CountIn(Isbns(removed), r.isbn);
    }
    BookCountAtMostIsbnCount(removed, index[x]);
    CountIn(Isbns(removed), x);
    var i :| 0 <= i < |removed| && Isbns(removed)[i] == x;
    assert removed[i] == index[x];
  }

  /**
   When every series ISBN is in the cart and exactly one cart ISBN lies
   outside the series, the reconciliation reports exactly that ISBN's
   indexed book.
   */
  lemma SingleUnknownReported(c: Cart, seriesIsbns: seq<Isbn>, x: Isbn)
    requires Valid(c)
    requires Elems(seriesIsbns) <= Elems(Isbns(c.books))
    requires forall y :: y in Isbns(c.books) && y !in seriesIsbns <==> y == x
    ensures x in c.index
    ensures multiset(Reconcile(c, seriesIsbns).removed) == multiset{c.index[x]}
  {
    var removed := Reconcile(c, seriesIsbns).removed;
    IsbnIndexed(c, x);
    OneReportedIsbn(removed, x, c.index);
  }
}
