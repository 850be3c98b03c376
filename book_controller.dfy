/** The book handlers: creation behind the author check, the filtered and paginated listing,
    updates behind the author check, the stock-only update and deletion. */
module BookController {
  import opened Common
  import opened Text
  import opened Dates
  import opened BookModel
  import opened Listing
  import opened Database

  // ---------------------------------------------------------------------------------------------
  // Listing books

  /** The `genre` filter is an exact match on the genre's name; the `q` filter keeps a book
      whose title or description contains `q`, ignoring case. An empty filter keeps every book. */
  predicate BookMatches(b: Book, genre: string, q: string)
  {
    && (genre == "" || GenreName(b.genre) == genre)
    && (q == "" || ContainsIgnoreCase(b.title, q) || ContainsIgnoreCase(b.description, q))
  }

  function BookFilter(genre: string, q: string): Book -> bool
  {
    b => BookMatches(b, genre, q)
  }

  /** `getAllBooks`: the matching books newest first, one page of them, with the pagination
      summary. `n` bounds the identifiers handed out so far. */
  function ListBooks(books: map<Id, Book>, n: nat, genre: string, q: string, page: Option<int>, limit: Option<int>)
    : (r: Result<Page<Id>>)
    ensures r.Err? <==> OrDefault(page, DEFAULT_PAGE) < 1 || OrDefault(limit, DEFAULT_LIMIT) < 1
    ensures r.Ok? ==> |r.value.items| <= OrDefault(limit, DEFAULT_LIMIT)
    ensures r.Ok? ==> forall k :: 0 <= k < |r.value.items| ==>
      r.value.items[k] in books && BookMatches(books[r.value.items[k]], genre, q)
    ensures r.Ok? ==> forall k, l :: 0 <= k < l < |r.value.items| ==> r.value.items[k] > r.value.items[l]
  {
    var all := NewestFirst(books, BookFilter(genre, q), n);
    var p, l := OrDefault(page, DEFAULT_PAGE), OrDefault(limit, DEFAULT_LIMIT);
    var r := Paginate(all, p, l);
    if r.Ok? then PageWithin(all, p, l); r else r
  }

  /** The reported total counts every book the filters keep, and every such book is listed on
      some page. */
  lemma ListBooksComplete(books: map<Id, Book>, n: nat, genre: string, q: string, limit: int)
    requires forall id :: id in books ==> id < n
    requires limit >= 1
    ensures ListBooks(books, n, genre, q, None, Some(limit)).value.info.totalCount
      == |set id | id in books && BookMatches(books[id], genre, q)|
    ensures forall id :: id in books && BookMatches(books[id], genre, q) ==>
      exists page :: page >= 1 && id in ListBooks(books, n, genre, q, Some(page), Some(limit)).value.items
  {
    var keep := BookFilter(genre, q);
    NewestFirstCount(books, keep, n);
    assert Selected(books, keep) == set id | id in books && BookMatches(books[id], genre, q);
    forall id | id in books && BookMatches(books[id], genre, q)
      ensures exists page :: page >= 1 && id in ListBooks(books, n, genre, q, Some(page), Some(limit)).value.items
    {
      SelectedOnSomePage(books, keep, n, limit, id);
      var page :| page >= 1 && id in Paginate(NewestFirst(books, keep, n), page, limit).value.items;
      assert id in ListBooks(books, n, genre, q, Some(page), Some(limit)).value.items;
    }
  }

  // ---------------------------------------------------------------------------------------------
  // Creating, updating and deleting books

  /** `createBook`: the referenced author must exist; then the record must pass validation and
      its ISBN must be free; only then is the book stored under a fresh identifier. */
  method CreateBook(db: Store, author: Option<Id>, input: BookInput, now: Date) returns (r: Result<Id>)
    requires db.Valid()
    modifies db
    ensures db.Valid()
    ensures author.None? || author.value !in old(db.authors) ==> r == Err(AuthorNotFound) && unchanged(db)
    ensures author.Some? && author.value in old(db.authors) && NewBook(input, author.value, now).Err? ==>
      r == Err(ValidationFailed) && unchanged(db)
    ensures (author.Some? && author.value in old(db.authors) && NewBook(input, author.value, now).Ok?
             && IsbnTaken(old(db.books), input.isbn, None)) ==>
      r == Err(DuplicateIsbn) && unchanged(db)
    ensures (author.Some? && author.value in old(db.authors) && NewBook(input, author.value, now).Ok?
             && !IsbnTaken(old(db.books), input.isbn, None)) ==>
      && r == Ok(old(db.nextId))
      && db.books == old(db.books)[old(db.nextId) := NewBook(input, author.value, now).value]
      && db.authors == old(db.authors) && db.orders == old(db.orders)
      && db.nextId == old(db.nextId) + 1
  {
    if author.None? || author.value !in db.authors {
      return Err(AuthorNotFound);
    }
    var book := NewBook(input, author.value, now);
    if book.Err? {
      return Err(ValidationFailed);
    }
    if IsbnTaken(db.books, input.isbn, None) {
      return Err(DuplicateIsbn);
    }
    var id := db.nextId;
    db.books := db.books[id := book.value];
    db.nextId := id + 1;
    r := Ok(id);
  }

  /** `updateBook` and `patchBook` (the same code): a supplied author must exist; the supplied
      fields must pass their validators; the book must exist; a supplied ISBN must not belong
      to another book. Then the supplied fields are set and the others kept. */
  method UpdateBook(db: Store, id: Id, p: BookPatch, now: Date) returns (r: Result<Book>)
    requires db.Valid()
    modifies db
    ensures db.Valid()
    ensures p.author.Some? && p.author.value !in old(db.authors) ==> r == Err(AuthorNotFound) && unchanged(db)
    ensures (p.author.None? || p.author.value in old(db.authors)) && !PatchValid(p, now) ==>
      r == Err(ValidationFailed) && unchanged(db)
    ensures (p.author.None? || p.author.value in old(db.authors)) && PatchValid(p, now) ==>
      && (id !in old(db.books) ==> r == Err(NotFound) && unchanged(db))
      && (id in old(db.books) && p.isbn.Some? && IsbnTaken(old(db.books), p.isbn.value, Some(id)) ==>
            r == Err(DuplicateIsbn) && unchanged(db))
      && (id in old(db.books) && (p.isbn.None? || !IsbnTaken(old(db.books), p.isbn.value, Some(id))) ==>
            && r == Ok(Patched(old(db.books[id]), p))
            && db.books == old(db.books)[id := r.value]
            && db.authors == old(db.authors) && db.orders == old(db.orders)
            && db.nextId == old(db.nextId))
  {
    if p.author.Some? && p.author.value !in db.authors {
      return Err(AuthorNotFound);
    }
    if !PatchValid(p, now) {
      return Err(ValidationFailed);
    }
    if id !in db.books {
      return Err(NotFound);
    }
    if p.isbn.Some? && IsbnTaken(db.books, p.isbn.value, Some(id)) {
      return Err(DuplicateIsbn);
    }
    var updated := Patched(db.books[id], p);
    db.books := db.books[id := updated];
    r := Ok(updated);
  }

  /** `updateBookStock`: a missing or negative stock is refused before the lookup; an unknown
      book is not found; otherwise that book's stock is set and nothing else changes. */
  method UpdateBookStock(db: Store, id: Id, stock: Option<int>) returns (r: Result<Book>)
    requires db.Valid()
    modifies db
    ensures db.Valid()
    ensures stock.None? || stock.value < 0 ==> r == Err(InvalidStock) && unchanged(db)
    ensures stock.Some? && stock.value >= 0 && id !in old(db.books) ==> r == Err(NotFound) && unchanged(db)
    ensures stock.Some? && stock.value >= 0 && id in old(db.books) ==>
      && r == Ok(old(db.books[id]).(stock := stock.value))
      && db.books == old(db.books)[id := r.value]
      && db.authors == old(db.authors) && db.orders == old(db.orders) && db.nextId == old(db.nextId)
  {
    if stock.None? || stock.value < 0 {
      return Err(InvalidStock);
    }
    if id !in db.books {
      return Err(NotFound);
    }
    var updated := db.books[id].(stock := stock.value);
    db.books := db.books[id := updated];
    r := Ok(updated);
  }

  /** `deleteBook`: removes the book whether or not orders name it; an unknown book is not
      found. */
  method DeleteBook(db: Store, id: Id) returns (r: Result<Book>)
    requires db.Valid()
    modifies db
    ensures db.Valid()
    ensures id !in old(db.books) ==> r == Err(NotFound) && unchanged(db)
    ensures id in old(db.books) ==>
      && r == Ok(old(db.books[id]))
      && db.books == old(db.books) - {id}
      && db.authors == old(db.authors) && db.orders == old(db.orders) && db.nextId == old(db.nextId)
  {
    if id !in db.books {
      return Err(NotFound);
    }
    r := Ok(db.books[id]);
    db.books := db.books - {id};
  }
}
