/** The order schema: its enumerations, the customer and address validators, the line items, the
    derived totals the order workflow stores with every order, and the `totalItems` virtual
    field. */
module OrderModel {
  import opened Common
  import opened Text
  import opened Email

  // ---------------------------------------------------------------------------------------------
  // Enumerations

  datatype Status = Pending | Confirmed | Processing | Shipped | Delivered | Cancelled

  function StatusName(s: Status): string
  {
    match s
    case Pending => "pending"
    case Confirmed => "confirmed"
    case Processing => "processing"
    case Shipped => "shipped"
    case Delivered => "delivered"
    case Cancelled => "cancelled"
  }

  /** The status enum check: accepted iff the text names one of the six statuses. */
  function ParseStatus(s: string): (r: Option<Status>)
    ensures r.Some? ==> StatusName(r.value) == s
    ensures forall st :: StatusName(st) == s ==> r == Some(st)
  {
    if s == "pending" then Some(Pending)
    else if s == "confirmed" then Some(Confirmed)
    else if s == "processing" then Some(Processing)
    else if s == "shipped" then Some(Shipped)
    else if s == "delivered" then Some(Delivered)
    else if s == "cancelled" then Some(Cancelled)
    else None
  }

  datatype PaymentMethod = CreditCard | DebitCard | PayPal | CashOnDelivery

  function PaymentMethodName(m: PaymentMethod): string
  {
    match m
    case CreditCard => "credit_card"
    case DebitCard => "debit_card"
    case PayPal => "paypal"
    case CashOnDelivery => "cash_on_delivery"
  }

  /** The payment method enum check. */
  function ParsePaymentMethod(s: string): (r: Option<PaymentMethod>)
    ensures r.Some? ==> PaymentMethodName(r.value) == s
    ensures forall m :: PaymentMethodName(m) == s ==> r == Some(m)
  {
    if s == "credit_card" then Some(CreditCard)
    else if s == "debit_card" then Some(DebitCard)
    else if s == "paypal" then Some(PayPal)
    else if s == "cash_on_delivery" then Some(CashOnDelivery)
    else None
  }

  /** Payment status; a new order starts at `PaymentPending`. */
  datatype PaymentStatus = PaymentPending | Paid | Failed | Refunded

  // ---------------------------------------------------------------------------------------------
  // Phone: optional; `/^[\+]?[1-9][\d]{0,15}$/` after removing whitespace, '-', '(' and ')'

  predicate IsPhoneSeparator(c: char)
  {
    IsWhitespace(c) || c == '-' || c == '(' || c == ')'
  }

  predicate PhonePattern(t: string)
  {
    var d := if |t| > 0 && t[0] == '+' then t[1..] else t;
    1 <= |d| <= 16 && '1' <= d[0] <= '9' && AllDigits(d)
  }

  predicate ValidPhone(v: string)
  {
    v == "" || PhonePattern(Strip(v, IsPhoneSeparator))
  }

  /** Separators may be inserted anywhere in a non-empty phone number without changing the
      verdict. */
  lemma PhoneIgnoresSeparator(a: string, c: char, b: string)
    requires IsPhoneSeparator(c) && a + b != []
    ensures ValidPhone(a + [c] + b) == ValidPhone(a + b)
  {
    StripIgnoresDropped(a, c, b, IsPhoneSeparator);
  }

  lemma StripSpacedPhone()
    ensures Strip("+1 55", IsPhoneSeparator) == "+155"
  {
    assert Strip("+155", IsPhoneSeparator) == "+155";
    assert "+1 55" == "+1" + [' '] + "55";
    assert "+155" == "+1" + "55";
    StripIgnoresDropped("+1", ' ', "55", IsPhoneSeparator);
  }

  lemma PhoneAccepted()
    ensures ValidPhone("+1 55")
  {
    StripSpacedPhone();
    assert PhonePattern("+155");
  }

  lemma PhoneRejectedLeadingZero()
    ensures !ValidPhone("05")
  {
    assert Strip("5", IsPhoneSeparator) == "5";
    assert Strip("05", IsPhoneSeparator) == "05";
  }

  lemma PhoneRejectedOnlySeparators()
    ensures !ValidPhone("+-")
  {
    assert Strip("+-", IsPhoneSeparator) == "+";
  }

  lemma PhoneRejectedInnerPlus()
    ensures !ValidPhone("1+5")
  {
    assert Strip("1+5", IsPhoneSeparator) == "1+5";
    assert !IsDigit("1+5"[1]);
  }

  // ---------------------------------------------------------------------------------------------
  // Address, lines and the order record

  const DEFAULT_COUNTRY := "USA"

  datatype Address = Address(street: string, city: string, state: string, zipCode: string, country: string)

  /** Every address field is required, each with its maximum length. */
  predicate ValidAddress(a: Address)
  {
    && 1 <= |a.street| <= 200
    && 1 <= |a.city| <= 100
    && 1 <= |a.state| <= 100
    && 1 <= |a.zipCode| <= 20
    && 1 <= |a.country| <= 100
  }

  /** A line item: the book, how many copies, and the unit price captured at order time. */
  datatype Line = Line(book: Id, quantity: int, price: real)

  predicate ValidLine(l: Line)
  {
    l.quantity >= 1 && l.price >= 0.0
  }

  datatype Order = Order(
    customerName: string,
    customerEmail: string,
    customerPhone: string,       // "" when absent
    shippingAddress: Address,
    items: seq<Line>,
    status: Status,
    paymentMethod: PaymentMethod,
    paymentStatus: PaymentStatus,
    subtotal: real,
    tax: real,
    shipping: real,
    total: real,
    notes: string)               // "" when absent

  predicate ValidCustomer(name: string, email: string, phone: string)
  {
    1 <= |name| <= 100 && ValidEmail(email) && ValidPhone(phone)
  }

  /** Everything the schema checks when an order is saved. */
  predicate ValidOrder(o: Order)
  {
    && ValidCustomer(o.customerName, o.customerEmail, o.customerPhone)
    && ValidAddress(o.shippingAddress)
    && (forall i :: 0 <= i < |o.items| ==> ValidLine(o.items[i]))
    && o.subtotal >= 0.0 && o.tax >= 0.0 && o.shipping >= 0.0 && o.total >= 0.0
    && |o.notes| <= 500
  }

  // ---------------------------------------------------------------------------------------------
  // The `totalItems` virtual field: `items.reduce((total, item) => total + item.quantity, 0)`

  function TotalItems(items: seq<Line>): int
  {
    if items == [] then 0 else TotalItems(items[..|items| - 1]) + items[|items| - 1].quantity
  }

  lemma {:induction false} TotalItemsAppend(a: seq<Line>, b: seq<Line>)
    ensures TotalItems(a + b) == TotalItems(a) + TotalItems(b)
    decreases |b|
  {
    if b == [] {
      assert a + b == a;
    } else {
      assert (a + b)[..|a + b| - 1] == a + b[..|b| - 1];
      TotalItemsAppend(a, b[..|b| - 1]);
    }
  }

  /** Every line of a valid order holds at least one copy, so the item count is at least the
      number of lines (and 0 only for an order without lines). */
  lemma {:induction false} TotalItemsAtLeastLines(items: seq<Line>)
    requires forall i :: 0 <= i < |items| ==> ValidLine(items[i])
    ensures TotalItems(items) >= |items|
    ensures TotalItems(items) == 0 <==> items == []
  {
    if items != [] {
      TotalItemsAtLeastLines(items[..|items| - 1]);
    }
  }

  // ---------------------------------------------------------------------------------------------
  // Derived totals

  const TAX_RATE: real := 0.08
  const FREE_SHIPPING_OVER: real := 50.0
  const SHIPPING_FEE: real := 9.99

  /** Sum of price times quantity over the lines, accumulated front to back. */
  function Subtotal(lines: seq<Line>): real
  {
    if lines == [] then 0.0
    else Subtotal(lines[..|lines| - 1]) + lines[|lines| - 1].price * (lines[|lines| - 1].quantity as real)
  }

  lemma {:induction false} SubtotalNonNegative(lines: seq<Line>)
    requires forall i :: 0 <= i < |lines| ==> ValidLine(lines[i])
    ensures Subtotal(lines) >= 0.0
  {
    if lines != [] {
      SubtotalNonNegative(lines[..|lines| - 1]);
      var l := lines[|lines| - 1];
      assert ValidLine(l);
      assert l.price * (l.quantity as real) >= 0.0;
    }
  }

  datatype Totals = Totals(subtotal: real, tax: real, shipping: real, total: real)

  /** Tax at 8%, free shipping strictly above 50, otherwise a flat 9.99. */
  function ComputeTotals(subtotal: real): (t: Totals)
    ensures t.subtotal == subtotal
    ensures t.tax == subtotal * TAX_RATE
    ensures subtotal > FREE_SHIPPING_OVER ==> t.shipping == 0.0
    ensures subtotal <= FREE_SHIPPING_OVER ==> t.shipping == SHIPPING_FEE
    ensures t.total == t.subtotal + t.tax + t.shipping
    ensures t.total == subtotal * (1.0 + TAX_RATE) + t.shipping
    ensures subtotal >= 0.0 ==> t.tax >= 0.0 && t.shipping >= 0.0 && t.total >= subtotal
  {
    var tax := subtotal * TAX_RATE;
    var shipping := if subtotal > FREE_SHIPPING_OVER then 0.0 else SHIPPING_FEE;
    Totals(subtotal, tax, shipping, subtotal + tax + shipping)
  }

  /** The stored totals are the ones derived from the stored lines. */
  predicate TotalsConsistent(o: Order)
  {
    ComputeTotals(Subtotal(o.items)) == Totals(o.subtotal, o.tax, o.shipping, o.total)
  }

  // ---------------------------------------------------------------------------------------------
  // Creating a record

  datatype AddressInput = AddressInput(
    street: string, city: string, state: string, zipCode: string, country: Option<string>)

  /** A requested line: which book and how many copies. */
  datatype Item = Item(book: Id, quantity: int)

  /** The fields a client submits for a new order. */
  datatype OrderInput = OrderInput(
    customerName: string,
    customerEmail: string,
    customerPhone: string,
    shippingAddress: AddressInput,
    items: seq<Item>,
    paymentMethod: string,
    notes: string)

  /** The submitted address as stored: every field kept, the country defaulting to "USA". */
  function AddressOf(a: AddressInput): (r: Address)
    ensures r.street == a.street && r.city == a.city && r.state == a.state && r.zipCode == a.zipCode
    ensures a.country.Some? ==> r.country == a.country.value
    ensures a.country.None? ==> r.country == DEFAULT_COUNTRY
  {
    Address(a.street, a.city, a.state, a.zipCode,
            if a.country.Some? then a.country.value else DEFAULT_COUNTRY)
  }

  /** The record `new Order({...})` builds, with the enumerations' defaults. */
  function Draft(input: OrderInput, lines: seq<Line>, subtotal: real, pm: PaymentMethod): Order
  {
    var t := ComputeTotals(subtotal);
    Order(input.customerName, input.customerEmail, input.customerPhone,
          AddressOf(input.shippingAddress), lines, Pending, pm, PaymentPending,
          t.subtotal, t.tax, t.shipping, t.total, input.notes)
  }

  /** Building the order and validating it on save. It is saved exactly when the payment method
      is one of the four, the customer, address and notes pass their validators, every line
      holds at least one copy at a non-negative price and the subtotal is not negative. */
  function NewOrder(input: OrderInput, lines: seq<Line>, subtotal: real): (r: Result<Order>)
    ensures r.Ok? <==>
      && ParsePaymentMethod(input.paymentMethod).Some?
      && ValidCustomer(input.customerName, input.customerEmail, input.customerPhone)
      && ValidAddress(AddressOf(input.shippingAddress))
      && |input.notes| <= 500
      && (forall i :: 0 <= i < |lines| ==> ValidLine(lines[i]))
      && subtotal >= 0.0
    ensures r.Err? ==> r.error == ValidationFailed
    ensures r.Ok? ==>
      && ValidOrder(r.value)
      && r.value.customerName == input.customerName
      && r.value.customerEmail == input.customerEmail
      && r.value.customerPhone == input.customerPhone
      && r.value.shippingAddress == AddressOf(input.shippingAddress)
      && r.value.notes == input.notes
      && r.value.items == lines
      && r.value.status == Pending && r.value.paymentStatus == PaymentPending
      && PaymentMethodName(r.value.paymentMethod) == input.paymentMethod
      && Totals(r.value.subtotal, r.value.tax, r.value.shipping, r.value.total) == ComputeTotals(subtotal)
  {
    var pm := ParsePaymentMethod(input.paymentMethod);
    if pm.None? then Err(ValidationFailed)
    else
      var o := Draft(input, lines, subtotal, pm.value);
      if ValidOrder(o) then Ok(o) else Err(ValidationFailed)
  }

  /** The worked example: three copies at 10.00 cost 30.00, 2.40 tax and 9.99 shipping. */
  lemma ThreeCopiesAtTen(book: Id)
    ensures Subtotal([Line(book, 3, 10.0)]) == 30.0
    ensures ComputeTotals(30.0) == Totals(30.0, 2.4, 9.99, 42.39)
  {
    assert [Line(book, 3, 10.0)][..0] == [];
  }
}
