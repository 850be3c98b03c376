/** The order handlers: creation with its stock check, price snapshot, totals and stock
    decrement; status updates; deletion with stock restoration; and the order listing. */
module OrderController {
  import opened Common
  import opened BookModel
  import opened OrderModel
  import opened Listing
  import opened Database

  // ---------------------------------------------------------------------------------------------
  // Checking and pricing the requested lines

  /** One requested line checked against the stored books: its book must exist and hold at
      least the requested quantity; the line then records the book's current price. */
  function CheckLine(item: Item, books: map<Id, Book>): Result<Line>
  {
    if item.book !in books then Err(BookNotFound(item.book))
    else if books[item.book].stock < item.quantity then
      Err(InsufficientStock(books[item.book].title, books[item.book].stock, item.quantity))
    else Ok(Line(item.book, item.quantity, books[item.book].price))
  }

  /** The lines checked in request order, stopping at the first that fails. Every check reads
      the stock as it was before the order: nothing is decremented while checking. */
  function PriceLines(items: seq<Item>, books: map<Id, Book>): Result<seq<Line>>
  {
    if items == [] then Ok([])
    else
      match PriceLines(items[..|items| - 1], books)
      case Err(e) => Err(e)
      case Ok(lines) =>
        match CheckLine(items[|items| - 1], books)
        case Err(e) => Err(e)
        case Ok(l) => Ok(lines + [l])
  }

  /** Pricing succeeds exactly when every line's book is stored with at least that line's
      quantity in stock, each line compared on its own; line `i` then snapshots the price of
      its book. */
  lemma {:induction false} PriceLinesOk(items: seq<Item>, books: map<Id, Book>)
    ensures PriceLines(items, books).Ok? <==>
      forall i :: 0 <= i < |items| ==> items[i].book in books && items[i].quantity <= books[items[i].book].stock
    ensures PriceLines(items, books).Ok? ==>
      var lines := PriceLines(items, books).value;
      && |lines| == |items|
      && forall i :: 0 <= i < |items| ==>
           lines[i] == Line(items[i].book, items[i].quantity, books[items[i].book].price)
  {
    if items != [] {
      var init := items[..|items| - 1];
      PriceLinesOk(init, books);
      assert forall i :: 0 <= i < |init| ==> init[i] == items[i];
    }
  }

  /** A failure is the failure of the first line that does not check. */
  lemma {:induction false} PriceLinesFirstFailure(items: seq<Item>, books: map<Id, Book>)
    requires PriceLines(items, books).Err?
    ensures exists i :: (0 <= i < |items|
      && CheckLine(items[i], books) == Err(PriceLines(items, books).error)
      && forall k :: 0 <= k < i ==> CheckLine(items[k], books).Ok?)
  {
    var init := items[..|items| - 1];
    assert forall k :: 0 <= k < |init| ==> init[k] == items[k];
    if PriceLines(init, books).Err? {
      PriceLinesFirstFailure(init, books);
      var i :| 0 <= i < |init|
        && CheckLine(init[i], books) == Err(PriceLines(init, books).error)
        && forall k :: 0 <= k < i ==> CheckLine(init[k], books).Ok?;
      assert CheckLine(items[i], books) == Err(PriceLines(items, books).error);
    } else {
      PriceLinesOk(init, books);
      var i := |items| - 1;
      assert forall k :: 0 <= k < i ==> CheckLine(items[k], books).Ok?;
    }
  }

  /** Once a prefix of the lines fails, the whole request fails with the same error. */
  lemma {:induction false} PriceLinesPrefixErr(items: seq<Item>, i: nat, books: map<Id, Book>, e: Error)
    requires i <= |items| && PriceLines(items[..i], books) == Err(e)
    ensures PriceLines(items, books) == Err(e)
    decreases |items| - i
  {
    if i == |items| {
      assert items[..i] == items;
    } else {
      assert items[..i + 1][..i] == items[..i];
      PriceLinesPrefixErr(items, i + 1, books, e);
    }
  }

  // ---------------------------------------------------------------------------------------------
  // Stock movements (`$inc`, with no lower bound; an increment of a missing book does nothing)

  /** The total quantity the lines request of `book`. */
  function QuantityFor(lines: seq<Line>, book: Id): int
  {
    if lines == [] then 0
    else
      QuantityFor(lines[..|lines| - 1], book)
      + (if lines[|lines| - 1].book == book then lines[|lines| - 1].quantity else 0)
  }

  /** Order creation takes copies out of stock; deleting a pending order gives them back. */
  datatype Direction = Take | Give

  function Signed(dir: Direction, q: int): int
  {
    if dir == Take then -q else q
  }

  function AddStock(books: map<Id, Book>, id: Id, delta: int): (r: map<Id, Book>)
    ensures r.Keys == books.Keys
  {
    if id in books then books[id := books[id].(stock := books[id].stock + delta)] else books
  }

  /** Each line's quantity taken from or given back to its book's stock, in line order. */
  function AdjustStock(books: map<Id, Book>, lines: seq<Line>, dir: Direction): (r: map<Id, Book>)
    ensures r.Keys == books.Keys
  {
    if lines == [] then books
    else
      var last := lines[|lines| - 1];
      AddStock(AdjustStock(books, lines[..|lines| - 1], dir), last.book, Signed(dir, last.quantity))
  }

  /** Adjusting stock moves every stored book's stock by the total its lines
      request, and changes no other field. A book no line names keeps its stock. */
  lemma {:induction false} AdjustStockEffect(books: map<Id, Book>, lines: seq<Line>, dir: Direction)
    ensures forall id :: id in books ==>
      AdjustStock(books, lines, dir)[id] == books[id].(stock := books[id].stock + Signed(dir, QuantityFor(lines, id)))
  {
    if lines != [] {
      var init, last := lines[..|lines| - 1], lines[|lines| - 1];
      AdjustStockEffect(books, init, dir);
      var prev := AdjustStock(books, init, dir);
      assert AdjustStock(books, lines, dir) == AddStock(prev, last.book, Signed(dir, last.quantity));
      forall id | id in books
        ensures AdjustStock(books, lines, dir)[id]
          == books[id].(stock := books[id].stock + Signed(dir, QuantityFor(lines, id)))
      {
        var before := QuantityFor(init, id);
        assert prev[id] == books[id].(stock := books[id].stock + Signed(dir, before));
        if last.book == id {
          assert QuantityFor(lines, id) == before + last.quantity;
        } else {
          assert QuantityFor(lines, id) == before;
        }
      }
    }
  }

  /** Giving back what was taken restores every stock: the conservation that deleting a
      pending order relies on. */
  lemma RestoreUndoesDecrement(books: map<Id, Book>, lines: seq<Line>)
    ensures AdjustStock(AdjustStock(books, lines, Take), lines, Give) == books
  {
    var taken := AdjustStock(books, lines, Take);
    AdjustStockEffect(books, lines, Take);
    AdjustStockEffect(taken, lines, Give);
    assert forall id :: id in books ==> AdjustStock(taken, lines, Give)[id] == books[id];
  }

  /** Two lines for one book with a single copy in stock each pass the check, and the
      decrement leaves the stock at -1. */
  lemma DuplicateLinesOversell(id: Id, b: Book)
    requires b.stock == 1
    ensures var books := map[id := b];
      var items := [Item(id, 1), Item(id, 1)];
      && PriceLines(items, books).Ok?
      && AdjustStock(books, PriceLines(items, books).value, Take)[id].stock == -1
  {
    var books := map[id := b];
    var items := [Item(id, 1), Item(id, 1)];
    PriceLinesOk(items, books);
    var lines := PriceLines(items, books).value;
    AdjustStockEffect(books, lines, Take);
    assert lines[..1][..0] == [];
    assert QuantityFor(lines[..1], id) == 1;
  }

  /** When no book is asked for more than it holds in total, no stock goes below zero. */
  lemma NoOversellWhenTotalsFit(books: map<Id, Book>, lines: seq<Line>)
    requires forall id :: id in books ==> QuantityFor(lines, id) <= books[id].stock
    ensures forall id :: id in books ==> AdjustStock(books, lines, Take)[id].stock >= 0
  {
    AdjustStockEffect(books, lines, Take);
  }

  // ---------------------------------------------------------------------------------------------
  // Creating an order

  /** The order `createOrder` saves for `input` against the stored `books`, or the error it
      answers with: the first failing line, else a validation failure on save. */
  function PlanOrder(books: map<Id, Book>, input: OrderInput): Result<Order>
  {
    match PriceLines(input.items, books)
    case Err(e) => Err(e)
    case Ok(lines) => NewOrder(input, lines, Subtotal(lines))
  }

  /** What a saved order holds: one line per requested line, each at the book's price at
      order time; totals derived from those lines; status and payment status pending. */
  lemma PlanOrderContents(books: map<Id, Book>, input: OrderInput)
    requires PlanOrder(books, input).Ok?
    ensures var o := PlanOrder(books, input).value;
      && ValidOrder(o) && TotalsConsistent(o)
      && o.customerName == input.customerName && o.customerEmail == input.customerEmail
      && o.customerPhone == input.customerPhone && o.notes == input.notes
      && o.shippingAddress == AddressOf(input.shippingAddress)
      && o.status == Pending && o.paymentStatus == PaymentPending
      && |o.items| == |input.items|
      && forall i :: 0 <= i < |input.items| ==>
           var item := input.items[i];
           item.book in books && item.quantity <= books[item.book].stock
           && o.items[i] == Line(item.book, item.quantity, books[item.book].price)
  {
    PriceLinesOk(input.items, books);
  }

  /** A line whose book is missing, or whose book holds fewer copies than it asks for, makes
      creation fail with a book or stock error. */
  lemma PlanOrderRejectsBadLine(books: map<Id, Book>, input: OrderInput, i: int)
    requires 0 <= i < |input.items|
    requires input.items[i].book !in books || input.items[i].quantity > books[input.items[i].book].stock
    ensures PlanOrder(books, input).Err?
    ensures PlanOrder(books, input).error.BookNotFound? || PlanOrder(books, input).error.InsufficientStock?
  {
    PriceLinesOk(input.items, books);
    PriceLinesFirstFailure(input.items, books);
  }

  /** A book that is not in stock (the `inStock` virtual is false) cannot be ordered: any line
      naming it makes creation fail. */
  lemma OutOfStockBookRejected(books: map<Id, Book>, input: OrderInput, i: int)
    requires 0 <= i < |input.items|
    requires input.items[i].book in books && !InStock(books[input.items[i].book])
    ensures PlanOrder(books, input).Err?
  {
    if input.items[i].quantity >= 1 {
      PlanOrderRejectsBadLine(books, input, i);
    } else {
      // A quantity below one passes the stock check but fails the line's `min: 1` on save.
      PriceLinesOk(input.items, books);
      if PriceLines(input.items, books).Ok? {
        assert !ValidLine(PriceLines(input.items, books).value[i]);
      }
    }
  }

  /** Creating an order and then deleting it while it is still pending gives back every copy
      it took. */
  lemma CreateThenDeleteConservesStock(books: map<Id, Book>, input: OrderInput)
    requires PlanOrder(books, input).Ok?
    ensures var o := PlanOrder(books, input).value;
      AdjustStock(AdjustStock(books, o.items, Take), o.items, Give) == books
  {
    RestoreUndoesDecrement(books, PlanOrder(books, input).value.items);
  }

  /** The checking loop of `createOrder`: each line in turn is looked up, compared with the
      stock and priced, and its total added to the subtotal; the first failing line ends it. */
  method PriceItems(items: seq<Item>, books: map<Id, Book>) returns (r: Result<seq<Line>>, subtotal: real)
    ensures r == PriceLines(items, books)
    ensures r.Ok? ==> subtotal == Subtotal(r.value)
  {
    subtotal := 0.0;
    var lines: seq<Line> := [];
    var i := 0;
    while i < |items|
      invariant 0 <= i <= |items|
      invariant PriceLines(items[..i], books) == Ok(lines)
      invariant subtotal == Subtotal(lines)
    {
      var item := items[i];
      assert items[..i + 1][..i] == items[..i];
      if item.book !in books {
        PriceLinesPrefixErr(items, i + 1, books, BookNotFound(item.book));
        return Err(BookNotFound(item.book)), subtotal;
      }
      var book := books[item.book];
      if book.stock < item.quantity {
        var e := InsufficientStock(book.title, book.stock, item.quantity);
        PriceLinesPrefixErr(items, i + 1, books, e);
        return Err(e), subtotal;
      }
      var line := Line(item.book, item.quantity, book.price);
      assert (lines + [line])[..|lines|] == lines;
      subtotal := subtotal + book.price * (item.quantity as real);
      lines := lines + [line];
      i := i + 1;
    }
    assert items[..i] == items;
    r := Ok(lines);
  }

  /** The `$inc` loop over an order's lines: each line's quantity is taken from or given back to its
      book's stock. Only stock moves. */
  method MoveStock(db: Store, lines: seq<Line>, dir: Direction)
    requires db.Valid()
    modifies db
    ensures db.Valid()
    ensures db.books == AdjustStock(old(db.books), lines, dir)
    ensures db.orders == old(db.orders) && db.authors == old(db.authors) && db.nextId == old(db.nextId)
  {
    var j := 0;
    while j < |lines|
      invariant 0 <= j <= |lines|
      invariant db.books == AdjustStock(old(db.books), lines[..j], dir)
      invariant db.orders == old(db.orders) && db.authors == old(db.authors)
      invariant db.nextId == old(db.nextId)
    {
      assert lines[..j + 1][..j] == lines[..j];
      db.books := AddStock(db.books, lines[j].book, Signed(dir, lines[j].quantity));
      j := j + 1;
    }
    assert lines[..j] == lines;
    AdjustStockEffect(old(db.books), lines, dir);
  }

  /** `createOrder`: check and price every line (stopping at the first failure), compute the
      totals, save the order, then decrement the stock of each line's book. Nothing changes
      unless the order is saved. */
  method CreateOrder(db: Store, input: OrderInput) returns (r: Result<Id>)
    requires db.Valid()
    modifies db
    ensures db.Valid()
    ensures PlanOrder(old(db.books), input).Err? ==>
      r == Err(PlanOrder(old(db.books), input).error) && unchanged(db)
    ensures PlanOrder(old(db.books), input).Ok? ==>
      && r == Ok(old(db.nextId))
      && db.orders == old(db.orders)[old(db.nextId) := PlanOrder(old(db.books), input).value]
      && db.books == AdjustStock(old(db.books), PlanOrder(old(db.books), input).value.items, Take)
      && db.authors == old(db.authors)
      && db.nextId == old(db.nextId) + 1
  {
    var priced, subtotal := PriceItems(input.items, db.books);
    if priced.Err? {
      return Err(priced.error);
    }
    var saved := NewOrder(input, priced.value, subtotal);
    if saved.Err? {
      return Err(saved.error);
    }
    var id := db.nextId;
    db.orders := db.orders[id := saved.value];
    db.nextId := id + 1;
    MoveStock(db, priced.value, Take);
    r := Ok(id);
  }

  // ---------------------------------------------------------------------------------------------
  // Deleting an order and updating its status

  /** Only pending and cancelled orders may be deleted. */
  predicate Deletable(s: Status)
  {
    s == Pending || s == Cancelled
  }

  /** `deleteOrder`: an unknown id is not found; an order past `pending` that is not cancelled
      is refused; a pending order gives its quantities back to its books; then the order is
      removed. */
  method DeleteOrder(db: Store, id: Id) returns (r: Result<Order>)
    requires db.Valid()
    modifies db
    ensures db.Valid()
    ensures id !in old(db.orders) ==> r == Err(NotFound) && unchanged(db)
    ensures id in old(db.orders) && !Deletable(old(db.orders[id].status)) ==>
      r == Err(NotDeletable) && unchanged(db)
    ensures id in old(db.orders) && Deletable(old(db.orders[id].status)) ==>
      && r == Ok(old(db.orders[id]))
      && db.orders == old(db.orders) - {id}
      && db.books == (if old(db.orders[id].status) == Pending
                      then AdjustStock(old(db.books), old(db.orders[id].items), Give)
                      else old(db.books))
      && db.authors == old(db.authors)
      && db.nextId == old(db.nextId)
  {
    if id !in db.orders {
      return Err(NotFound);
    }
    var order := db.orders[id];
    if !Deletable(order.status) {
      return Err(NotDeletable);
    }
    if order.status == Pending {
      MoveStock(db, order.items, Give);
    }
    db.orders := db.orders - {id};
    r := Ok(order);
  }

  /** `updateOrderStatus`: a missing status is refused, a status outside the enumeration fails
      validation, an unknown id is not found; otherwise the status is overwritten with no
      check of the transition, and nothing else changes. */
  method UpdateOrderStatus(db: Store, id: Id, status: string) returns (r: Result<Order>)
    requires db.Valid()
    modifies db
    ensures db.Valid()
    ensures status == "" ==> r == Err(StatusRequired) && unchanged(db)
    ensures status != "" && ParseStatus(status).None? ==> r == Err(ValidationFailed) && unchanged(db)
    ensures ParseStatus(status).Some? && id !in old(db.orders) ==> r == Err(NotFound) && unchanged(db)
    ensures ParseStatus(status).Some? && id in old(db.orders) ==>
      && r == Ok(old(db.orders[id]).(status := ParseStatus(status).value))
      && db.orders == old(db.orders)[id := r.value]
      && db.books == old(db.books) && db.authors == old(db.authors) && db.nextId == old(db.nextId)
  {
    if status == "" {
      return Err(StatusRequired);
    }
    var s := ParseStatus(status);
    if s.None? {
      return Err(ValidationFailed);
    }
    if id !in db.orders {
      return Err(NotFound);
    }
    var updated := db.orders[id].(status := s.value);
    db.orders := db.orders[id := updated];
    r := Ok(updated);
  }

  // ---------------------------------------------------------------------------------------------
  // Listing orders

  /** The optional status filter is an exact match on the status text. */
  predicate OrderMatches(o: Order, status: string)
  {
    status == "" || StatusName(o.status) == status
  }

  function StatusFilter(status: string): Order -> bool
  {
    o => OrderMatches(o, status)
  }

  /** `getAllOrders`: the matching orders newest first, one page of them, with the pagination
      summary. `n` bounds the identifiers handed out so far. */
  function ListOrders(orders: map<Id, Order>, n: nat, status: string, page: Option<int>, limit: Option<int>)
    : (r: Result<Page<Id>>)
    ensures r.Err? <==> OrDefault(page, DEFAULT_PAGE) < 1 || OrDefault(limit, DEFAULT_LIMIT) < 1
    ensures r.Ok? ==> |r.value.items| <= OrDefault(limit, DEFAULT_LIMIT)
    ensures r.Ok? ==> forall k :: 0 <= k < |r.value.items| ==>
      r.value.items[k] in orders && OrderMatches(orders[r.value.items[k]], status)
    ensures r.Ok? ==> forall k, l :: 0 <= k < l < |r.value.items| ==> r.value.items[k] > r.value.items[l]
  {
    var all := NewestFirst(orders, StatusFilter(status), n);
    var p, l := OrDefault(page, DEFAULT_PAGE), OrDefault(limit, DEFAULT_LIMIT);
    var r := Paginate(all, p, l);
    if r.Ok? then PageWithin(all, p, l); r else r
  }

  /** The reported total counts every order the filter keeps, and every such order is listed
      on some page. */
  lemma ListOrdersComplete(orders: map<Id, Order>, n: nat, status: string, limit: int)
    requires forall id :: id in orders ==> id < n
    requires limit >= 1
    ensures ListOrders(orders, n, status, None, Some(limit)).value.info.totalCount
      == |set id | id in orders && OrderMatches(orders[id], status)|
    ensures forall id :: id in orders && OrderMatches(orders[id], status) ==>
      exists page :: page >= 1 && id in ListOrders(orders, n, status, Some(page), Some(limit)).value.items
  {
    var keep := StatusFilter(status);
    NewestFirstCount(orders, keep, n);
    assert Selected(orders, keep) == set id | id in orders && OrderMatches(orders[id], status);
    forall id | id in orders && OrderMatches(orders[id], status)
      ensures exists page :: page >= 1 && id in ListOrders(orders, n, status, Some(page), Some(limit)).value.items
    {
      SelectedOnSomePage(orders, keep, n, limit, id);
      var page :| page >= 1 && id in Paginate(NewestFirst(orders, keep, n), page, limit).value.items;
      assert id in ListOrders(orders, n, status, Some(page), Some(limit)).value.items;
    }
  }
}
