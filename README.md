# Bookstore API: the server core in Dafny

This project models the server side of a small bookstore REST API, which stores authors, books and
orders in a document database. The model covers:

- the three document schemas with their validators and virtual fields (`inStock` on books,
  `totalItems` on orders, `age` on authors);
- the handlers that change the stored documents:
  - creating, updating and deleting books behind the author-existence check;
  - setting a book's stock;
  - creating authors, and deleting them behind the books-count check;
  - creating orders with their stock check, price snapshot, totals and stock decrement;
  - changing an order's status;
  - deleting an order, which gives a pending order's stock back;
- the three listing endpoints: filters, sort order and pagination summary.

The database is a class `Database.Store` whose fields are one map per collection plus the counter
that hands out identifiers. The model takes identifier order as its stand-in for the `createdAt`
order the listings sort by: a larger identifier means a later creation, so "newest first" means
"identifier descending", and identifiers settle any tie.

Each handler that changes data is a module-level method that takes the store as a parameter
(`db: Store`) and modifies it. It returns either its result or the API error it answers with
(`Common.Error`; `Common.HttpStatus` gives the status code):

- the creation handlers return the new document's identifier;
- the update and delete handlers return the document as updated or removed.

The listings and `getAuthorById` are functions of the stored maps. `Store.Valid()` holds between
the modelled requests:

- identifiers come from the counter;
- every book names a stored author;
- ISBNs are unique;
- every stored order's totals are the ones derived from its lines.

Every modelled handler keeps `Store.Valid()`. `updateOrder`, which is not modelled, does not (see "## Left out").

Stock is deliberately not part of that invariant. Order creation checks each line against the stock
as it was before the order, then decrements every line's book with no lower bound. An order that
names the same book twice can therefore drive that book's stock below zero
(`OrderController.DuplicateLinesOversell`).

Modules:

- `Common`, `Text`, `Dates` and `Email`: shared definitions.
- `BookModel`, `OrderModel` and `AuthorModel`: the schemas.
- `Listing`: newest-first order and pagination.
- `Database`: the store.
- `BookController`, `OrderController` and `AuthorController`: the handlers.

## Model

| member | source | states |
|---|---|---|
| Text.StripKeeps | src/models/Book.js:28 | removing separator characters keeps exactly the characters that are not separators and never lengthens the text |
| Text.StripAppend | src/models/Order.js:34 | removing separators works piecewise: stripping `a + b` is stripping `a`, then `b` |
| Text.StripIgnoresDropped | src/models/Order.js:34 | inserting a separator anywhere does not change the stripped text |
| Text.ContainsIgnoreCase | src/controllers/bookController.js:82-87 | the case-insensitive regular-expression filter on a literal pattern is true iff the pattern occurs at some offset of the text, letters compared without case |
| Text.StrLeReflexive | src/controllers/authorController.js:71 | the database's string order relates every name to itself |
| Text.StrLeTotal | src/controllers/authorController.js:71 | any two names are comparable in the sort order |
| Text.StrLeAntisymmetric | src/controllers/authorController.js:71 | two names each not after the other are equal |
| Text.StrLeTransitive | src/controllers/authorController.js:71 | the sort order on names is transitive |
| Email.ValidEmailIsRule | src/models/Order.js:19-25 | the e-mail pattern accepts exactly the addresses without whitespace that have one '@' (not first) followed by a '.' that is neither first nor last after the '@' |
| Email.ValidEmailMeansRule | src/models/Order.js:22 | an address the pattern accepts has no whitespace, exactly one '@' (not first), and a '.' after it that is neither first nor last after the '@' |
| Email.RuleMeansValidEmail | src/models/Order.js:22 | every address of that shape is accepted by the pattern |
| Email.AcceptedEmail | src/models/Author.js:17-22 | an ordinary address is accepted |
| Email.AcceptedDottedEmail | src/models/Author.js:17-22 | an address with a dotted local part and a dotted domain is accepted |
| Email.RejectedWithoutDot | src/models/Order.js:22 | an address with no '.' after the '@' is refused |
| Email.RejectedWithEmptyLocalPart | src/models/Order.js:22 | an address starting with '@' is refused |
| Email.RejectedWithTwoAts | src/models/Order.js:22 | an address with two '@' is refused |
| Email.RejectedWithSpace | src/models/Order.js:22 | an address containing a space is refused |
| Email.RejectedWithTrailingDot | src/models/Order.js:22 | an address whose domain ends in '.' is refused |
| BookModel.ParseGenre | src/models/Book.js:34-42 | a genre text is accepted iff it is the name of one of the ten genres, and parsing gives back the genre with that name |
| BookModel.ValidIsbnIffDigitCount | src/models/Book.js:25-31 | an ISBN is accepted iff it consists only of digits, '-' and whitespace, and holds exactly 10 or exactly 13 digits |
| BookModel.IsbnIgnoresSeparator | src/models/Book.js:28 | inserting '-' or whitespace anywhere in an ISBN does not change whether it is accepted |
| BookModel.ShortIsbnRejected | src/models/Book.js:28 | a five-digit ISBN is refused |
| BookModel.CentsTextRoundTrip | src/models/Book.js:48-54 | the decimal text of any whole number of cents passes the price pattern and reads back as the same amount |
| BookModel.ValidPriceIsCentsText | src/models/Book.js:44-55 | a non-negative price with at most two decimals renders to a text the pattern accepts and that denotes the price |
| BookModel.CentsAreValidPrices | src/models/Book.js:44-55 | every non-negative whole number of cents passes both price checks |
| BookModel.NewBook | src/controllers/bookController.js:33-46 | building and saving a book fails with a validation error iff some field fails its validator; otherwise every submitted field is kept, the genre is the named one, the stock defaults to 0, and the record is valid |
| BookModel.Patched | src/controllers/bookController.js:171-175 | an update sets the supplied genre by name and keeps the stored genre otherwise |
| BookModel.PatchKeepsValid | src/controllers/bookController.js:171-175 | validating only the supplied fields keeps a valid book valid |
| BookModel.StockPatchChangesOnlyStock | src/controllers/bookController.js:259-263 | an update that supplies only a stock changes the stock and nothing else |
| OrderModel.ParseStatus | src/models/Order.js:95-103 | a status text is accepted iff it names one of the six statuses, and parsing gives back that status |
| OrderModel.ParsePaymentMethod | src/models/Order.js:106-113 | a payment-method text is accepted iff it names one of the four methods, and parsing gives back that method |
| OrderModel.PhoneIgnoresSeparator | src/models/Order.js:31-37 | inserting whitespace, '-', '(' or ')' into a non-empty phone number does not change whether it is accepted |
| OrderModel.StripSpacedPhone | src/models/Order.js:34 | removing the separators from "+1 55" leaves "+155" |
| OrderModel.PhoneAccepted | src/models/Order.js:34 | "+1 55" is accepted |
| OrderModel.PhoneRejectedLeadingZero | src/models/Order.js:34 | a number starting with 0 is refused |
| OrderModel.PhoneRejectedOnlySeparators | src/models/Order.js:34 | a number that is only a '+' once the separators are removed is refused |
| OrderModel.PhoneRejectedInnerPlus | src/models/Order.js:34 | a '+' anywhere but first is refused |
| OrderModel.TotalItemsAppend | src/models/Order.js:182-184 | the `totalItems` count of two runs of lines is the sum of their counts |
| OrderModel.TotalItemsAtLeastLines | src/models/Order.js:82-86 | with every quantity at least 1, `totalItems` is at least the number of lines, and 0 iff the order has no lines |
| OrderModel.SubtotalNonNegative | src/models/Order.js:126-130 | lines with non-negative prices and positive quantities give a non-negative subtotal |
| OrderModel.ComputeTotals | src/controllers/orderController.js:64-67 | the tax is 8% of the subtotal; shipping is 0 above 50 and 9.99 otherwise; the total is subtotal plus tax plus shipping; all are non-negative for a non-negative subtotal |
| OrderModel.AddressOf | src/models/Order.js:41-72 | the stored shipping address keeps every submitted field, with the country defaulting to "USA" |
| OrderModel.NewOrder | src/controllers/orderController.js:69-84 | the order is saved iff the payment method, customer, address, notes, lines and subtotal pass their validators; a saved order is valid, carries the submitted customer name, e-mail, phone, shipping address and notes, holds the priced lines, starts pending with payment pending, and carries the totals derived from the subtotal |
| OrderModel.ThreeCopiesAtTen | src/controllers/orderController.js:53-67 | three copies at 10.00 cost 30.00, with 2.40 tax, 9.99 shipping and 42.39 in total |
| AuthorModel.WebsiteShape | src/models/Author.js:53-58 | a non-empty accepted website is "http://" or "https://" followed by at least one character, and any such text whose first character after the scheme is not a line terminator is accepted |
| AuthorModel.WebsitesAccepted | src/models/Author.js:53-58 | an empty website, and http and https addresses with something after the scheme, are accepted |
| AuthorModel.WebsitesRejected | src/models/Author.js:56 | a bare scheme, another scheme, and a line break right after the scheme are refused |
| AuthorModel.Age | src/models/Author.js:99-112 | the age is the number of completed years: this year's anniversary of the birth date has been reached and the next one has not |
| AuthorModel.AgeOf | src/models/Author.js:99-100 | the `age` virtual is absent exactly when there is no birth date |
| AuthorModel.AgeUnique | src/models/Author.js:104-109 | the completed-years characterisation determines the age |
| AuthorModel.ValidAuthorAgeNonNegative | src/models/Author.js:32-41 | an author whose birth date passed the not-in-the-future check has a non-negative age |
| AuthorModel.AgeOnBirthday | src/models/Author.js:104-109 | on the birthday itself the age is the difference of the years |
| Listing.NewestFirst | src/controllers/orderController.js:131-135 | the listing holds exactly the stored records the filter keeps, in strictly decreasing creation order |
| Listing.NewestFirstCount | src/controllers/orderController.js:138 | the count of matching records equals the length of the listing they are drawn from |
| Listing.CeilDiv | src/controllers/orderController.js:139 | `totalPages` is the least number of pages of `limit` records that hold all records |
| Listing.Window | src/controllers/orderController.js:128-135 | skipping and limiting returns at most `limit` records, each the record at its offset after the skip |
| Listing.Paginate | src/controllers/orderController.js:127-150 | the page fails iff the page or limit is below 1; otherwise it holds the window after `(page - 1) * limit` records, reports the page and the total count, and has a previous page iff the page is above 1 |
| Listing.PageWithin | src/controllers/orderController.js:128-135 | a page holds only records of the list it is cut from, and keeps a decreasing list decreasing |
| Listing.NextPageMeansMoreRecords | src/controllers/orderController.js:139-148 | `hasNextPage` holds iff records remain after this page, and `totalPages` pages hold every record with the last page non-empty |
| Listing.EveryRecordOnItsPage | src/controllers/orderController.js:128-139 | record `i` is item `i % limit` of page `i / limit + 1`, which is within `totalPages` |
| Listing.SelectedOnSomePage | src/controllers/orderController.js:128-135 | every record the filter keeps is listed on some page |
| Listing.PagesBeyondTheEndAreEmpty | src/controllers/orderController.js:128-135 | pages after the last one are empty |
| OrderController.PriceLinesOk | src/controllers/orderController.js:36-62 | the line check passes iff every line's book exists and holds at least that line's quantity, each line compared on its own; line `i` then records its book's current price |
| OrderController.PriceLinesFirstFailure | src/controllers/orderController.js:36-51 | a failed check reports the error of the first line that does not pass |
| OrderController.AdjustStockEffect | src/controllers/orderController.js:87-92 | the stock update moves each stored book's stock down (taking) or up (giving back) by the total its lines request, and changes nothing else |
| OrderController.RestoreUndoesDecrement | src/controllers/orderController.js:290-297 | adding back the quantities an order took restores every stock |
| OrderController.DuplicateLinesOversell | src/controllers/orderController.js:46-51 | two lines of one copy each for a book with one copy both pass the check, and the decrement leaves its stock at -1 |
| OrderController.NoOversellWhenTotalsFit | src/controllers/orderController.js:87-92 | when no book is asked for more than it holds in total over all lines, no stock goes below zero |
| OrderController.PlanOrderContents | src/controllers/orderController.js:20-84 | a created order is valid and has consistent totals; it carries the submitted customer details, address and notes; it starts pending; it has one line per requested line, each within its book's stock and at its book's price at order time |
| OrderController.PlanOrderRejectsBadLine | src/controllers/orderController.js:36-51 | a line whose book is missing or short of stock makes creation fail with a book-not-found or insufficient-stock error |
| OrderController.OutOfStockBookRejected | src/models/Book.js:109-111 | a line for a book whose `inStock` is false makes creation fail, whatever its quantity: a positive one exceeds the stock, and one below 1 fails the line's minimum on save |
| OrderController.CreateThenDeleteConservesStock | src/controllers/orderController.js:289-297 | creating an order and then deleting it while pending gives back every copy it took |
| OrderController.PriceItems | src/controllers/orderController.js:33-62 | the checking loop returns the checked lines or the first line's error, and its running subtotal is the sum of price times quantity over the lines |
| OrderController.MoveStock | src/controllers/orderController.js:87-92 | the `$inc` loop leaves the books as the stock update specifies and the other collections unchanged |
| OrderController.CreateOrder | src/controllers/orderController.js:20-101 | on a line or validation error nothing changes; otherwise the order is stored under a fresh id and each line's book loses that line's quantity |
| OrderController.DeleteOrder | src/controllers/orderController.js:270-299 | an unknown order is not found; an order neither pending nor cancelled is refused; a pending order gives its quantities back; the order is removed |
| OrderController.UpdateOrderStatus | src/controllers/orderController.js:228-250 | a missing status is refused, a status outside the enumeration fails validation, and an unknown order is not found; otherwise only the status changes, with no check of the transition |
| OrderController.ListOrders | src/controllers/orderController.js:115-150 | the page fails iff page or limit is below 1; otherwise it holds at most `limit` stored orders, all with the requested status, newest first |
| OrderController.ListOrdersComplete | src/controllers/orderController.js:137-139 | the reported total counts every order with the requested status, and each of them is on some page |
| BookController.ListBooks | src/controllers/bookController.js:69-113 | the page fails iff page or limit is below 1; otherwise it holds at most `limit` stored books, newest first, each of the requested genre and with the search text in its title or description |
| BookController.ListBooksComplete | src/controllers/bookController.js:99-101 | the reported total counts every matching book, and each of them is on some page |
| BookController.CreateBook | src/controllers/bookController.js:20-46 | an unknown author is refused first; then a field failing validation; then an ISBN already stored; otherwise the book is stored under a fresh id and nothing else changes |
| BookController.UpdateBook | src/controllers/bookController.js:156-182 | (PUT and PATCH alike) a supplied unknown author is refused; then a supplied field failing validation; then an unknown book; then an ISBN of another book; otherwise the supplied fields are set and the rest kept |
| BookController.UpdateBookStock | src/controllers/bookController.js:248-270 | a missing or negative stock is refused before the lookup; an unknown book is not found; otherwise only that book's stock changes |
| BookController.DeleteBook | src/controllers/bookController.js:290-299 | an unknown book is not found; otherwise the book is removed and nothing else changes |
| AuthorController.KeyLeTotal | src/controllers/authorController.js:71 | any two authors' sort keys are comparable |
| AuthorController.KeyLeTransitive | src/controllers/authorController.js:71 | the author sort order is transitive |
| AuthorController.SortedCons | src/controllers/authorController.js:71 | a list with a first key is sorted iff its rest is sorted and every key of the rest follows the first |
| AuthorController.InsertBelow | src/controllers/authorController.js:71 | inserting a key that follows a bound keeps every key following that bound |
| AuthorController.InsertCount | src/controllers/authorController.js:71 | inserting adds exactly the one key |
| AuthorController.InsertSorted | src/controllers/authorController.js:71 | inserting into a name-sorted list keeps it sorted |
| AuthorController.SortByNameSorted | src/controllers/authorController.js:71 | sorting by name gives a sorted permutation of the keys |
| AuthorController.AuthorsByNameMembers | src/controllers/authorController.js:62-73 | the name-ordered listing holds exactly the stored authors whose nationality contains the filter text, each once |
| AuthorController.AuthorsByNameOrdered | src/controllers/authorController.js:71 | the name-ordered listing has names ascending |
| AuthorController.AuthorPage | src/controllers/authorController.js:62-73 | every author on a page of the name-ordered listing is stored and matches the filter, and the page has names ascending |
| AuthorController.ListAuthors | src/controllers/authorController.js:54-89 | the page fails iff page or limit is below 1; otherwise it holds at most `limit` stored authors matching the nationality filter, with names ascending |
| AuthorController.ListAuthorsTotal | src/controllers/authorController.js:75-77 | the reported total counts every author matching the nationality filter |
| AuthorController.AuthorOnSomePage | src/controllers/authorController.js:66-73 | every author matching the filter is on some page |
| AuthorController.GetAuthorById | src/controllers/authorController.js:103-122 | an unknown author is not found; otherwise the author comes with exactly the books that name it |
| AuthorController.BooksListedUnderOneAuthor | src/controllers/authorController.js:114-116 | when every book names a stored author, each book is listed under exactly one author |
| AuthorController.CreateAuthor | src/controllers/authorController.js:19-48 | an author failing a validator is refused and nothing changes; otherwise it is stored under a fresh id |
| AuthorController.UnknownAuthorHasNoBooks | src/controllers/authorController.js:176-193 | when every book names a stored author, an unknown author has no books, so its deletion is answered with not found |
| AuthorController.DeleteAuthor | src/controllers/authorController.js:174-193 | deletion is refused with the number of the author's books while it has any; otherwise an unknown author is not found and a known one is removed, with books and orders unchanged |

## Left out

- Input normalisation: the schemas trim strings and lower-case e-mail addresses before validating. The model takes every text as already normalised.
- Numbers: prices and totals are exact reals, so the model has no floating-point rounding. `BookModel.CentsText` renders amounts the way `toString` does only below 10^15 cents. Such an amount has at most 15 significant digits, so its double prints as written. Above that, neighbouring cent amounts can share a double, and `toString` drops digits.
- Query texts: `q` and `nationality` are treated as literal text, so regular-expression metacharacters in them are not modelled. Case folding covers ASCII letters only.
- Text lengths: `maxlength` counts UTF-16 code units, while the model's `|s|` counts characters, so the two differ for characters outside the Basic Multilingual Plane.
- BookModel.ValidBook, BookModel.NewBook, OrderModel.ValidLine, OrderController.CreateOrder, AuthorModel.ValidAward: stock, pages, quantities and award years are integers in the model. The schemas declare them only as `Number`, so fractional values such as a quantity of 1.5 pass validation and are added to the stock as they are.
- BookModel.Patched, BookController.UpdateBook, Listing.NewestFirst: an update cannot change a book's `createdAt` in the model, so creation order stays identifier order. In the code, the update is a `$set` of the request body and `createdAt` is a schema path, so a PUT or PATCH can move a book in the newest-first listing.
- Listing.Paginate, OrderController.ListOrders, BookController.ListBooks, AuthorController.ListAuthors: a `limit` below 1 is answered with an error. The real endpoints then return all records, or an odd window, with a meaningless `totalPages`.
- Listing.Paginate, OrderController.ListOrders, BookController.ListBooks, AuthorController.ListAuthors: non-numeric `page` and `limit` (where `parseInt` gives NaN) are not modelled. Page and limit are integers, and an absent one takes its default.
- Dates are calendar days. Time of day and time zones are not modelled. "Now" is a parameter, and so is the year in which the author schema was loaded (`startYear`, the upper bound on award years).
- Concurrency and partial failure are not modelled. Two requests never interleave, and a crash between saving an order and decrementing its books cannot happen in the model.
- Some operations are left out:
  - `getBookById` and `getOrderById` are a plain lookup plus `populate`.
  - `updateOrder` and `updateAuthor` are a `$set` of the request body, checked only by the schema validators. The totals computed by `createOrder` are not recomputed.
- Database.Store.Valid, OrderController.DeleteOrder, OrderController.CreateThenDeleteConservesStock: `updateOrder` can overwrite an order's lines and totals with any values the schema accepts. In the program, the totals invariant can therefore break, and deleting a pending order can give back quantities other than the ones its creation took.
- Population of referenced documents is left out. Listings return identifiers, and `getAuthorById` returns the set of the author's book identifiers.
- Malformed identifiers, which raise cast errors and so answer 400 or 500, are not modelled. Identifiers are natural numbers.
- AuthorController.ListAuthors, AuthorController.AuthorOnSomePage: authors with equal names are ordered by identifier. The database leaves their order unspecified and may order them differently from one skip/limit query to the next, so in the program an author can be skipped or repeated across pages.
- Listing.NewestFirst, BookController.ListBooksComplete, OrderController.ListOrdersComplete: `createdAt` is the wall-clock time in milliseconds (`Date.now`). Records created in the same millisecond tie, and a clock stepped back can make a later record look older. The database returns tied records in an unspecified order that can change between skip/limit queries, so in the program a record can be skipped or repeated across pages. The model's strictly decreasing identifier order rules this out.
- BookController.UpdateBook: PUT and PATCH both run the same code, a `$set` of the supplied fields, so a PUT does not replace the whole document.
- OrderController.CreateOrder: a missing book is answered with 400, as the code does, not with 404.
- OrderController.UpdateOrderStatus: the update validators run before the lookup, so an invalid status for an unknown order is answered with a validation error.
- BookController.UpdateBook: likewise, a failing validator takes precedence over an unknown book.
