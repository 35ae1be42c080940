/** Books as the pricing code sees them: an ISBN, a title and a price. */
module Books {

  /** ISBNs are opaque strings; no ISBN check digits are validated. */
  type Isbn = string

  /** One physical copy of a book. Copies are identified by ISBN only. */
  datatype Book = Book(isbn: Isbn, title: string, price: real)

  /** The ISBN of every entry, in list order. */
  function Isbns(books: seq<Book>): (r: seq<Isbn>)
    ensures |r| == |books|
    ensures forall i :: 0 <= i < |books| ==> r[i] == books[i].isbn
  {
    if books == [] then [] else [books[0].isbn] + Isbns(books[1..])
  }

  /** The undiscounted price of a list of books. */
  function SumPrices(books: seq<Book>): real
  {
    if books == [] then 0.0 else books[0].price + SumPrices(books[1..])
  }

  /** Every book in the list has a non-negative price. */
  predicate NonNegativePrices(books: seq<Book>)
  {
    forall i :: 0 <= i < |books| ==> books[i].price >= 0.0
  }

  lemma {:induction false} SumPricesNonNegative(books: seq<Book>)
    requires NonNegativePrices(books)
    ensures SumPrices(books) >= 0.0
  {
    if books != [] {
      assert NonNegativePrices(books[1..]) by {
        forall i | 0 <= i < |books[1..]| ensures books[1..][i].price >= 0.0 {
          assert books[1..][i] == books[i + 1];
        }
      }
      SumPricesNonNegative(books[1..]);
    }
  }

  lemma SumPricesNonNegativeIf(books: seq<Book>)
    ensures NonNegativePrices(books) ==> SumPrices(books) >= 0.0
  {
    if NonNegativePrices(books) {
      SumPricesNonNegative(books);
    }
  }

  /** Books that all cost `p` cost `p` times their number. */
  lemma {:induction false} SumPricesUniform(books: seq<Book>, p: real)
    requires forall i :: 0 <= i < |books| ==> books[i].price == p
    ensures SumPrices(books) == |books| as real * p
  {
    if books != [] {
      assert forall i :: 0 <= i < |books| - 1 ==> books[1..][i] == books[i + 1];
      SumPricesUniform(books[1..], p);
    }
  }
}
