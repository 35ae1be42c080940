# Book-series discount pricing, in Dafny

A model of the pricing core of `discounting_book_series.py`. The model covers:

- the discount table of `Pricing`;
- the `CustomerShoppingCart` operations: the constructor with its ISBN index, `set_series_of_books`, `subtract_list`, `get_object_for_isbn`, `calculate_discount` and `calculate_total_price`.

`calculate_total_price` works in these steps:

1. It converts the series and the cart into ISBN lists.
2. It counts the rounds: the largest number of copies of any ISBN in the cart.
3. It reports and removes books whose ISBN is not in the series.
4. It splits the cart ISBNs into groupings, one round at a time. Each grouping holds each series ISBN still present exactly once.
5. It prices each grouping at its subtotal less the table discount for its size. Groupings of 2, 3, 4 and 5 books get 5, 10, 20 and 25 percent off; any other size gets nothing.

Without a series, or with an empty one, the total is the plain sum of the cart.

Modules, in dependency order:

- `Wrappers` holds `Option` and `Result`.
- `Lists` models `list.count`, `Counter` subtraction followed by `elements()`, first-occurrence order and the running maximum count.
- `Books` holds the `Book` record.
- `Pricing` holds the discount table.
- `Grouping` holds the round-by-round partition and its closed form. Round `i` is the series ISBNs with more than `i` copies.
- `ShoppingCart` holds the cart and its operations.
- `CartProperties` holds properties that relate several calls or carts.
- `RemovalAsWritten` holds the unknown-book removal as the program writes it, with `list.remove` of the indexed book and its `ValueError`, and the input on which a second pricing call raises.
- `DemoShapes` and `Demo` hold the worked scenarios of the file's `__main__` block. They are proved for every cart the constructor builds from those book lists.

How the program removes unknown books:

- **How many entries are removed.** The loop at line 256 calls `list.remove` once per reported ISBN, so it removes one entry per unknown ISBN, however many copies the cart holds.
- **When removal happens.** Line 248 reports and removes only when the symmetric difference of the two ISBN sets is a subset of the cart's ISBNs; the module docstring (line 6) describes that subset test. It holds exactly when every series ISBN is in the cart. Otherwise nothing is reported or removed.
- **What removal affects.** Removal never changes the total of the same call. The ISBN list and the index were taken before it, and non-series ISBNs are never grouped. Removal shows only in the cart left behind.
- **Which entry is removed.** `list.remove` is handed the indexed book, the last copy of its ISBN, and compares books by identity. When that indexed book occurs once in the list and another entry with its ISBN remains, the first call removes it and a second call reports it again and raises `ValueError` (see Findings). When the same book object occurs twice, a second call removes the other occurrence instead. `RemovalAsWritten` models that removal; the pricing model in `ShoppingCart` uses a corrected one that removes the first entry with the ISBN.

## Model

| member | source | states |
|---|---|---|
| Pricing.DiscountPercentage | discounting_book_series.py:94-108 | Each length maps to its table entry in both directions: 5→25, 4→20, 3→10, 2→5. Zero exactly for lengths below 2 or above 5. Never more than 25. |
| Books.Isbns | discounting_book_series.py:232-236 | The ISBN list has one entry per book, in order. Entry `i` is book `i`'s ISBN. |
| Lists.SubtractList | discounting_book_series.py:159-162 | Counter subtraction: each element's count is the larger list's count minus the smaller's, floored at zero. The result is a sub-multiset of the larger list. |
| Lists.CounterElementsCount | discounting_book_series.py:159-162 | `elements()` over distinct keys gives each key exactly its floored count difference, and nothing else. |
| Lists.Dedup | discounting_book_series.py:159-162 | The Counter's keys: no duplicates, and exactly the elements of the input. |
| Lists.Count | discounting_book_series.py:239-240 | `list.count` is positive exactly when the element is in the list, and never exceeds the list's length. |
| Lists.MaxCountOver | discounting_book_series.py:238-240 | The running-maximum loop gives a bound on every count over the keys, and it is attained by some key unless it is 0. |
| Lists.MaxCount | discounting_book_series.py:238-240 | `max_count_of_a_book` bounds every element's count and is the count of some entry. It is 0 exactly for an empty list. |
| ShoppingCart.BuildIndex | discounting_book_series.py:130-132 | Every cart ISBN is a key. Every key maps to a cart book with that ISBN. The book stored is the last entry with that ISBN. |
| ShoppingCart.NewCart | discounting_book_series.py:120-132 | Fails exactly on an empty list. Otherwise the cart keeps the list, has no series yet, and is indexed with the last copy of each ISBN winning. |
| ShoppingCart.SetSeries | discounting_book_series.py:142-147 | A list becomes the series. A non-list gives the empty series. The books and the index are untouched. |
| ShoppingCart.GetObjectForIsbn | discounting_book_series.py:172 | The dictionary lookup returns a book with the requested ISBN. |
| ShoppingCart.Representatives | discounting_book_series.py:279-280 | One indexed book per ISBN of a grouping, in order, each carrying that ISBN. |
| Books.SumPricesNonNegative | discounting_book_series.py:208-209 | The subtotal loop over a list of books never gives a negative sum when no price is negative. |
| Books.SumPricesUniform | discounting_book_series.py:281-283 | Books that all cost `p` add up to their number times `p`. |
| ShoppingCart.CalculateDiscount | discounting_book_series.py:201-214 | The percentage is the table entry for the list's length, never above 25. It is zero exactly for fewer than 2 or more than 5 books, and then the discount is zero. With non-negative prices the discount lies between zero and a quarter of the subtotal. |
| ShoppingCart.GroupingPrice | discounting_book_series.py:277-285 | A grouping of one book, or of six or more, adds exactly its subtotal. With non-negative indexed prices any grouping adds between 75% and 100% of its subtotal. |
| ShoppingCart.PriceGroupings | discounting_book_series.py:276-285 | With non-negative indexed prices the running total lies between 75% and 100% of the groupings' undiscounted subtotals. |
| ShoppingCart.SymmetricDifference | discounting_book_series.py:245 | An ISBN is in the result exactly when it is in one of the two sets but not both. |
| ShoppingCart.UnknownGuard | discounting_book_series.py:245-248 | The subset guard holds exactly when every series ISBN is in the cart. The symmetric difference is then the set of cart ISBNs outside the series. |
| ShoppingCart.UnknownIsbns | discounting_book_series.py:245-251 | The reported ISBNs: each cart ISBN outside the series exactly once, and nothing else. Under the guard this is the symmetric difference of line 245. |
| ShoppingCart.RemoveFirst | discounting_book_series.py:256 | The corrected removal: the first entry with the ISBN is taken out and the other entries keep their order. Exactly one copy of the ISBN goes. |
| ShoppingCart.RemoveEach | discounting_book_series.py:249-256 | Removing in turn takes away one entry per reported ISBN. The result is a sub-multiset of the original. |
| ShoppingCart.Reconcile | discounting_book_series.py:243-261 | When a series ISBN is missing from the cart, nothing is removed. Otherwise each cart ISBN outside the series is reported exactly once, and the book reported for it is the indexed book of that ISBN. The cart loses exactly one entry per reported ISBN, the first entry with that ISBN (which need not be the reported book), and gains nothing. |
| ShoppingCart.Groupings | discounting_book_series.py:264-271 | Every ISBN in every grouping is in the index, so the lookups at line 280 succeed. |
| ShoppingCart.CalculateTotalPrice | discounting_book_series.py:216-295 | With an empty series: the plain sum, and the cart is unchanged. Otherwise: the priced groupings, with removals exactly as in the reconciliation. The cart left behind stays valid. |
| Grouping.CommonIsbns | discounting_book_series.py:267 | The intersection lists each ISBN in both the series and the remaining cart exactly once. |
| Grouping.Layer | discounting_book_series.py:264-271 | Reference definition: the keys, in order, with more than `depth` copies in the cart. Duplicate-free when the keys are. |
| Grouping.Partition | discounting_book_series.py:266-268 | The loop appends exactly one grouping per round; what each grouping holds is stated by `PartitionIsLayers` and `PartitionShape`. |
| Grouping.RoundCount | discounting_book_series.py:267-271 | One round takes away exactly one copy of each series ISBN still present and leaves other counts alone. |
| Grouping.PartitionRoundIsLayer | discounting_book_series.py:266-271 | Round `i` of the loop equals the closed-form layer `i`: the series ISBNs with more than `i` copies in the cart. |
| Grouping.PartitionIsLayers | discounting_book_series.py:264-271 | The loop equals its closed form: round `i` is the series ISBNs with more than `i` copies, in series order. |
| Grouping.PartitionShape | discounting_book_series.py:264-271 | Round `i` holds `x` exactly when `x` is a series ISBN with more than `i` copies. No round repeats an ISBN, and later rounds are never longer. |
| Grouping.PartitionMembers | discounting_book_series.py:264-271 | Every grouped ISBN is a series ISBN taken from the cart. |
| ShoppingCart.GroupedIsbnMember | discounting_book_series.py:264-280 | Every ISBN of a cart's grouping is a series ISBN of some cart entry. |
| Grouping.PartitionCounts | discounting_book_series.py:264-271 | Across all rounds, a series ISBN appears as many times as its count, capped at the number of rounds. A non-series ISBN never appears. |
| Grouping.Drainage | discounting_book_series.py:238-271 | With enough rounds, the groupings together hold exactly the cart's series entries, as a multiset, and their sizes add up to that many entries. |
| Grouping.PartitionsAgree | discounting_book_series.py:264-271 | Two carts with equal series counts get the same groupings up to the shorter run, and the extra rounds are empty. |
| Grouping.CountedPartitionsAgree | discounting_book_series.py:238-271 | The same holds when each cart runs for its own largest count. |
| CartProperties.GroupingsShape | discounting_book_series.py:238-271 | The cart's groupings: one round per copy of its most frequent ISBN, series or not. Each round is a duplicate-free layer, and rounds never grow. Together they hold exactly the cart's series entries. |
| CartProperties.SeriesTotalBounds | discounting_book_series.py:216-285 | The series-path total lies between 75% and 100% of the undiscounted price of the groupings. |
| CartProperties.EmptyRoundsAddNothing | discounting_book_series.py:276-285 | Empty trailing rounds add nothing to the total. |
| CartProperties.PriceGroupingsAgreeOn | discounting_book_series.py:276-285 | Pricing groupings reads the index only at the grouped ISBNs. Two carts whose indexes hold the same book there price the groupings alike. |
| CartProperties.GroupingsAgree | discounting_book_series.py:232-271 | Carts with the same series and equal series counts get the same groupings up to the shorter run. The extra rounds are empty. |
| CartProperties.PricesAgree | discounting_book_series.py:276-285 | Groupings that agree up to `k` and are empty beyond it cost the same when the indexes agree on the grouped ISBNs. |
| CartProperties.TotalIgnoresNonSeriesBooks | discounting_book_series.py:224-285 | On the series path, two carts cost the same when they have the same series, the same count of every series ISBN, and index the same book for each series ISBN they hold. Non-series books and their index entries never change the total. |
| CartProperties.RepeatedCallSameTotal | discounting_book_series.py:243-285 | Pricing the cart left behind by a call gives the same total again. |
| CartProperties.NoSeriesIsPlainSum | discounting_book_series.py:290-294 | With an empty series, or with a non-list given to `set_series_of_books`, the total is the plain sum of every cart book. |
| CartProperties.UniformGroupingPrice | discounting_book_series.py:276-285 | A grouping of `n` books at price `p` costs `n * p` less the table percentage for `n`. |
| DemoShapes.SmallShape | discounting_book_series.py:264-271 | Three distinct series ISBNs, once each, make one grouping of three. |
| DemoShapes.LargeShape | discounting_book_series.py:264-271 | The cart 1,2,3,4,5,1,3,5 splits into groupings {1..5} and {1,3,5}. |
| DemoShapes.MixedShape | discounting_book_series.py:264-271 | The 13-entry cart with one non-series entry splits into groupings {1..5}, {1,2,3,5}, {1,3} and {1}. |
| Demo.SmallCartGroupings | discounting_book_series.py:319-322 | For the first demo cart, the groupings are exactly [[111, 222, 333]]. |
| Demo.ScenarioSmallCart | discounting_book_series.py:319-322 | The first demo cart costs 21.60. |
| Demo.LargeCartGroupings | discounting_book_series.py:324-327 | For the second demo cart, the groupings are the full series, then [111, 333, 555]. |
| Demo.ScenarioLargeCart | discounting_book_series.py:324-327 | The second demo cart costs 51.60. |
| Demo.MixedCartGroupings | discounting_book_series.py:329-333 | The cart with the unknown book groups into rounds of 5, 4, 2 and 1 books. |
| Demo.MixedCartRemoval | discounting_book_series.py:329-333 | Pricing that cart removes exactly the unknown book. |
| Demo.ScenarioUnknownBook | discounting_book_series.py:329-333 | That cart costs 78.80, and the only book removed is the unknown one. |
| Demo.ScenarioNoSeries | discounting_book_series.py:335-338 | The second demo cart with an empty series costs the plain 64.00. |
| Demo.ScenarioEmptyCart | discounting_book_series.py:340-342 | Constructing a cart from an empty list fails. |
| RemovalAsWritten.RemoveBook | discounting_book_series.py:256 | `list.remove` takes out the first entry equal to the book, and the others keep their order. It raises exactly when the book is not in the list. |
| RemovalAsWritten.RemoveBooks | discounting_book_series.py:253-256 | Removing the reported books in turn succeeds exactly when they form a sub-multiset of the list, and leaves the list minus those books. |
| RemovalAsWritten.ReconcileAsWritten | discounting_book_series.py:243-261 | Same guard and same reported books as `Reconcile`. It raises exactly when the reported books are not all in the list; otherwise the list loses exactly them and the cart stays valid. |
| RemovalAsWritten.CalculateTotalPriceAsWritten | discounting_book_series.py:216-295 | Pricing with the removal as written raises exactly when a reported book is missing from the list. Otherwise it gives the corrected model's total and report, and the list loses exactly the reported books. |
| RemovalAsWritten.FirstRemovalSucceeds | discounting_book_series.py:130-261 | On a cart whose index points into its own list, as the constructor leaves it, the removal as written never raises. |
| RemovalAsWritten.FirstCallSucceeds | discounting_book_series.py:130-295 | A first pricing call on such a cart never raises. |
| RemovalAsWritten.SingleUnknownReported | discounting_book_series.py:245-251 | With every series ISBN in the cart and one other cart ISBN, the report is exactly that ISBN's indexed book. |
| RemovalAsWritten.RemovalKeepsUnknownIsbn | discounting_book_series.py:251-256 | When that ISBN has another copy, the first removal takes the indexed book away but the ISBN stays in the cart. |
| RemovalAsWritten.MissingIndexedBookRaises | discounting_book_series.py:251-256 | When the indexed book of the one unknown ISBN is missing from the list, the removal raises. |
| RemovalAsWritten.RepeatedRemovalRaises | discounting_book_series.py:243-261 | When the one unknown ISBN has a second copy and its indexed book occurs once, the first removal succeeds and the second raises. |
| RemovalAsWritten.SecondCallRaises | discounting_book_series.py:120-261 | For the cart `[s, a, b]` with series `[s]`, where distinct `a` and `b` share an ISBN outside the series, the first removal succeeds and the second raises. |
| RemovalAsWritten.FirstCallLeavesTwo | discounting_book_series.py:130-256 | In that cart the first removal takes `b`, the last copy, and leaves `s` and `a`. |
| RemovalAsWritten.PriceFollowsRemoval | discounting_book_series.py:216-261 | Pricing as written raises exactly when its removal raises, and leaves the books the removal leaves. |
| RemovalAsWritten.SecondPriceCallRaises | discounting_book_series.py:216-261 | For that cart, the first pricing call succeeds and pricing the cart it leaves behind raises. |

## Left out

- Logging and console output, including the `print` method at lines 174-189, are not modelled. They do not affect any result.
- The `__main__` block is not modelled as a program. Its scenarios are stated as lemmas about the same inputs.
- Prices are exact reals. Python floats round; the demo totals 21.60, 51.60, 78.80 and 64.00 are stated exactly.
- Python set iteration order is unspecified. The model lists each grouping in series order and the reported unknown ISBNs in cart order. No total depends on that order.
- `list.remove` compares books by object identity. `RemovalAsWritten` compares them by value, which agrees with identity whenever distinct copies in a cart differ in some field. `ShoppingCart` removes the first entry with the reported ISBN rather than the indexed (last) copy.
- ShoppingCart.Reconcile: the corrected removal takes the first entry with each reported ISBN, where line 256 takes the indexed (last) copy. The two leave different books behind when copies of one ISBN differ, so a later plain-sum total of the cart left behind can differ from the program's. The contract fixes the ISBN counts left behind, not which copy leaves.
- RemovalAsWritten.ReconcileAsWritten: when `list.remove` raises part-way through the loop at lines 253-256, the removals already made stay in the program's list (and in the caller's). The model's failure carries no list, so that partial state is not modelled.
- The constructor keeps the caller's list itself (line 124), so the removals at line 256 also change the caller's list. The model has no shared lists: the list left behind is returned as the priced cart's `after`.
- ShoppingCart.GetObjectForIsbn: the dictionary lookup at line 172 raises `KeyError` for an ISBN that is not indexed. The model makes the key a precondition instead. The program's calls at lines 251 and 280 only pass cart ISBNs, which are always indexed, so the error is unreachable from pricing.
- Dynamic type checks are not modelled, except the one the program acts on: a non-list series becomes empty. The book arguments and the grouping arguments are always lists here. So the unbound-variable error in `get_discount_percentage` for a non-list argument is unreachable and left out.
- ShoppingCart.CalculateTotalPrice: pricing a cart whose series was never set raises an attribute error in the program. The model makes a set series (`series.Some?`) a precondition instead of modelling the error.
- The test `i != max_count_of_a_book` at line 270 is always true inside the loop. The model subtracts on every round.
- Book's getters (lines 43-65) are plain field reads of the `Book` datatype. `Pricing.__init__` (lines 73-78) is folded into `SetSeries`, since pricing uses only the discount table.

## Findings

| source | as written | input that shows it | evidently intended | confidence | as-written member | corrected member |
|---|---|---|---|---|---|---|
| discounting_book_series.py:130-256 | The index keeps the last copy of each ISBN, and each reported ISBN is removed with `list.remove` on that indexed book. The first call removes it; a second `calculate_total_price` on the same cart reports the same book again and raises `ValueError`, because it is no longer in the list. | Series `[s]`, cart `[s, a, b]`, where `a` and `b` are distinct books with the same ISBN, not in the series. Price the cart twice. | Remove one entry per unknown ISBN, so that pricing a cart again gives the same total instead of raising. | not executed | RemovalAsWritten.SecondPriceCallRaises | CartProperties.RepeatedCallSameTotal |
