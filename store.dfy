/** The database the handlers work on: one collection per entity, keyed by identifier. */
module Database {
  import opened Common
  import opened BookModel
  import opened OrderModel
  import opened AuthorModel

  /** No two books share an ISBN (the unique index on `isbn`). */
  predicate IsbnUnique(books: map<Id, Book>)
  {
    forall a, b :: a in books && b in books && a != b ==> books[a].isbn != books[b].isbn
  }

  /** Some book other than `except` already carries `isbn`. */
  predicate IsbnTaken(books: map<Id, Book>, isbn: string, except: Option<Id>)
  {
    exists id :: id in books && Some(id) != except && books[id].isbn == isbn
  }

  /** The identifiers of the books whose `author` field is `author`. */
  function BooksOf(books: map<Id, Book>, author: Id): set<Id>
  {
    set id | id in books && books[id].author == author
  }

  class Store {
    var authors: map<Id, Author>
    var books: map<Id, Book>
    var orders: map<Id, Order>
    /** The next identifier to hand out; identifiers grow with creation time. */
    var nextId: nat

    /** What the handlers keep true between requests: identifiers come from the counter, every
        book names a stored author, ISBNs are unique, and every order's stored totals are the
        ones derived from its lines. Stock is not kept non-negative: order creation can drive
        it below zero. */
    predicate Valid()
      reads this
    {
      && (forall id :: id in authors ==> id < nextId)
      && (forall id :: id in books ==> id < nextId)
      && (forall id :: id in orders ==> id < nextId)
      && (forall id :: id in books ==> books[id].author in authors)
      && IsbnUnique(books)
      && (forall id :: id in orders ==> TotalsConsistent(orders[id]))
    }

    constructor()
      ensures Valid()
      ensures authors == map[] && books == map[] && orders == map[] && nextId == 0
    {
      authors := map[];
      books := map[];
      orders := map[];
      nextId := 0;
    }
  }
}
