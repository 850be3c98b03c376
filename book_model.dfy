/** The book schema: its fields, the validators the document library runs before every write,
    and the `inStock` virtual field. */
module BookModel {
  import opened Common
  import opened Text
  import opened Dates

  // ---------------------------------------------------------------------------------------------
  // Genre enumeration

  datatype Genre =
    | Fiction | NonFiction | Mystery | Romance | SciFi
    | Fantasy | Biography | History | SelfHelp | Technical

  function GenreName(g: Genre): string
  {
    match g
    case Fiction => "Fiction"
    case NonFiction => "Non-Fiction"
    case Mystery => "Mystery"
    case Romance => "Romance"
    case SciFi => "Sci-Fi"
    case Fantasy => "Fantasy"
    case Biography => "Biography"
    case History => "History"
    case SelfHelp => "Self-Help"
    case Technical => "Technical"
  }

  /** The enum check: a string is accepted iff it is the name of one of the ten genres. */
  function ParseGenre(s: string): (r: Option<Genre>)
    ensures r.Some? ==> GenreName(r.value) == s
    ensures forall g :: GenreName(g) == s ==> r == Some(g)
  {
    if s == "Fiction" then Some(Fiction)
    else if s == "Non-Fiction" then Some(NonFiction)
    else if s == "Mystery" then Some(Mystery)
    else if s == "Romance" then Some(Romance)
    else if s == "Sci-Fi" then Some(SciFi)
    else if s == "Fantasy" then Some(Fantasy)
    else if s == "Biography" then Some(Biography)
    else if s == "History" then Some(History)
    else if s == "Self-Help" then Some(SelfHelp)
    else if s == "Technical" then Some(Technical)
    else None
  }

  // ---------------------------------------------------------------------------------------------
  // ISBN: `/^(?:\d{10}|\d{13})$/` applied after removing every '-' and whitespace character

  predicate IsIsbnSeparator(c: char)
  {
    c == '-' || IsWhitespace(c)
  }

  predicate ValidIsbn(s: string)
  {
    var t := Strip(s, IsIsbnSeparator);
    (|t| == 10 || |t| == 13) && AllDigits(t)
  }

  function DigitCount(s: string): nat
  {
    if s == [] then 0 else (if IsDigit(s[0]) then 1 else 0) + DigitCount(s[1..])
  }

  lemma {:induction false} StripIsbnSeparators(s: string)
    requires forall k :: 0 <= k < |s| ==> IsDigit(s[k]) || IsIsbnSeparator(s[k])
    ensures AllDigits(Strip(s, IsIsbnSeparator))
    ensures |Strip(s, IsIsbnSeparator)| == DigitCount(s)
  {
    if s != [] {
      StripIsbnSeparators(s[1..]);
    }
  }

  /** An ISBN is accepted iff it consists of digits and separators only, with exactly 10 or
      exactly 13 digits. */
  lemma ValidIsbnIffDigitCount(s: string)
    ensures ValidIsbn(s) <==>
      && (forall k :: 0 <= k < |s| ==> IsDigit(s[k]) || IsIsbnSeparator(s[k]))
      && (DigitCount(s) == 10 || DigitCount(s) == 13)
  {
    var t := Strip(s, IsIsbnSeparator);
    StripKeeps(s, IsIsbnSeparator);
    if forall k :: 0 <= k < |s| ==> IsDigit(s[k]) || IsIsbnSeparator(s[k]) {
      StripIsbnSeparators(s);
    } else {
      var k :| 0 <= k < |s| && !IsDigit(s[k]) && !IsIsbnSeparator(s[k]);
      assert s[k] in s;
      assert s[k] in t;
      var j :| 0 <= j < |t| && t[j] == s[k];
    }
  }

  /** Separators may be inserted anywhere in an ISBN without changing the verdict. */
  lemma IsbnIgnoresSeparator(a: string, c: char, b: string)
    requires IsIsbnSeparator(c)
    ensures ValidIsbn(a + [c] + b) == ValidIsbn(a + b)
  {
    StripIgnoresDropped(a, c, b, IsIsbnSeparator);
  }

  lemma ShortIsbnRejected()
    ensures !ValidIsbn("12345")
  {
    assert Strip("12345", IsIsbnSeparator) == "12345";
  }

  // ---------------------------------------------------------------------------------------------
  // Price: `/^\d+(\.\d{1,2})?$/` applied to the decimal text of the number, and `min: 0`

  function DigitChar(d: nat): (c: char)
    requires d < 10
    ensures IsDigit(c)
  {
    ('0' as int + d) as char
  }

  function DigitValue(c: char): nat
    requires IsDigit(c)
  {
    c as int - '0' as int
  }

  /** Decimal text of a natural number, without leading zeros. */
  function NatText(n: nat): (r: string)
    ensures |r| >= 1 && AllDigits(r)
  {
    if n < 10 then [DigitChar(n)] else NatText(n / 10) + [DigitChar(n % 10)]
  }

  /** The number a string of decimal digits denotes. */
  function DigitsValue(t: string): nat
    requires AllDigits(t)
  {
    if t == [] then 0 else DigitsValue(t[..|t| - 1]) * 10 + DigitValue(t[|t| - 1])
  }

  lemma {:induction false} DigitsValueOfNatText(n: nat)
    ensures DigitsValue(NatText(n)) == n
  {
    if n >= 10 {
      DigitsValueOfNatText(n / 10);
      var t := NatText(n);
      assert t[..|t| - 1] == NatText(n / 10);
    }
  }

  /** The text JavaScript's `toString` gives an amount of `c` cents below 10^15: the integer
      part, then, unless the amount is whole, a point and the cents without a trailing zero.
      Above that bound the double nearest the amount can print with fewer digits. */
  function CentsText(c: nat): string
  {
    var f := c % 100;
    NatText(c / 100)
      + (if f == 0 then "" else if f % 10 == 0 then ['.', DigitChar(f / 10)]
         else ['.', DigitChar(f / 10), DigitChar(f % 10)])
  }

  /** Index of the first '.' in `t`, or `|t|` when there is none. */
  function DotIndex(t: string): (k: nat)
    ensures k <= |t|
    ensures k < |t| ==> t[k] == '.'
    ensures forall i :: 0 <= i < k ==> t[i] != '.'
  {
    if t == [] then 0 else if t[0] == '.' then 0 else 1 + DotIndex(t[1..])
  }

  /** The price pattern: digits, optionally followed by '.' and one or two digits. */
  predicate PriceText(t: string)
  {
    var k := DotIndex(t);
    if k == |t| then |t| >= 1 && AllDigits(t)
    else 1 <= k && AllDigits(t[..k]) && 1 <= |t| - k - 1 <= 2 && AllDigits(t[k + 1..])
  }

  /** The amount, in cents, that a text of the price pattern denotes. */
  function PriceCents(t: string): nat
    requires PriceText(t)
  {
    var k := DotIndex(t);
    if k == |t| then DigitsValue(t) * 100
    else
      var frac := DigitsValue(t[k + 1..]);
      DigitsValue(t[..k]) * 100 + (if |t| - k - 1 == 1 then frac * 10 else frac)
  }

  lemma NoDotInDigits(t: string)
    requires AllDigits(t)
    ensures DotIndex(t) == |t|
  {
  }

  /** Every whole number of cents renders to a text the price pattern accepts, and that text
      reads back as the same amount. */
  lemma CentsTextRoundTrip(c: nat)
    ensures PriceText(CentsText(c))
    ensures PriceCents(CentsText(c)) == c
  {
    var whole := NatText(c / 100);
    var f := c % 100;
    var t := CentsText(c);
    NoDotInDigits(whole);
    DigitsValueOfNatText(c / 100);
    if f == 0 {
      assert t == whole;
    } else {
      var frac := if f % 10 == 0 then [DigitChar(f / 10)] else [DigitChar(f / 10), DigitChar(f % 10)];
      assert t == whole + ['.'] + frac;
      assert DotIndex(t) == |whole| by {
        forall i | 0 <= i < |whole| ensures t[i] != '.' {
          assert t[i] == whole[i];
        }
        DotIndexAt(t, |whole|);
      }
      assert t[..|whole|] == whole;
      assert t[|whole| + 1..] == frac;
      if f % 10 == 0 {
        assert DigitsValue(frac) == f / 10 by {
          assert frac[..0] == [];
        }
      } else {
        assert DigitsValue(frac) == f by {
          assert frac[..1] == [DigitChar(f / 10)];
          assert frac[..1][..0] == [];
          assert DigitValue(frac[0]) == f / 10 && DigitValue(frac[1]) == f % 10;
          assert DigitsValue(frac[..1]) == f / 10;
        }
      }
    }
  }

  lemma {:induction false} DotIndexAt(t: string, k: nat)
    requires k < |t| && t[k] == '.'
    requires forall i :: 0 <= i < k ==> t[i] != '.'
    ensures DotIndex(t) == k
  {
    if k > 0 {
      DotIndexAt(t[1..], k - 1);
    }
  }

  /** An amount with at most two decimals: a whole number of cents. */
  predicate HasCents(p: real)
  {
    (p * 100.0).Floor as real == p * 100.0
  }

  /** The price validators on the number itself: `min: 0` and at most two decimals. */
  predicate ValidPrice(p: real)
  {
    p >= 0.0 && HasCents(p)
  }

  /** A price passes both checks exactly when it is a whole number of cents whose text
      passes the pattern and reads back as the price. */
  lemma ValidPriceIsCentsText(p: real)
    requires ValidPrice(p)
    ensures (p * 100.0).Floor >= 0
    ensures PriceText(CentsText((p * 100.0).Floor))
    ensures PriceCents(CentsText((p * 100.0).Floor)) as real / 100.0 == p
  {
    var c := (p * 100.0).Floor;
    assert c as real == p * 100.0;
    CentsTextRoundTrip(c);
  }

  lemma CentsAreValidPrices(c: nat)
    ensures ValidPrice(c as real / 100.0)
  {
    var p := c as real / 100.0;
    assert p * 100.0 == c as real;
  }

  // ---------------------------------------------------------------------------------------------
  // The book record and its validators

  const MAX_TITLE := 200
  const MAX_DESCRIPTION := 1000
  const DEFAULT_STOCK := 0

  datatype Book = Book(
    title: string,
    author: Id,
    isbn: string,
    genre: Genre,
    price: real,
    stock: int,
    description: string,        // "" when absent
    publishedDate: Option<Date>,
    pages: Option<int>)

  /** `required` and `maxlength: 200`. */
  predicate ValidTitle(t: string)
  {
    1 <= |t| <= MAX_TITLE
  }

  predicate ValidDescription(d: string)
  {
    |d| <= MAX_DESCRIPTION
  }

  /** A published date, when present, is not in the future. */
  predicate ValidPublished(d: Option<Date>, now: Date)
  {
    d.None? || NotAfter(d.value, now)
  }

  /** A page count, when present, is at least 1. */
  predicate ValidPages(p: Option<int>)
  {
    p.None? || p.value >= 1
  }

  predicate ValidStock(s: int)
  {
    s >= 0
  }

  /** Everything the schema checks when a book is saved. */
  predicate ValidBook(b: Book, now: Date)
  {
    && ValidTitle(b.title)
    && ValidIsbn(b.isbn)
    && ValidPrice(b.price)
    && ValidStock(b.stock)
    && ValidDescription(b.description)
    && ValidPublished(b.publishedDate, now)
    && ValidPages(b.pages)
  }

  /** The `inStock` virtual field. */
  predicate InStock(b: Book)
  {
    b.stock > 0
  }

  // ---------------------------------------------------------------------------------------------
  // Creating a record from submitted fields

  /** The fields a client submits for a new book (the author reference is checked separately). */
  datatype BookInput = BookInput(
    title: string,
    isbn: string,
    genre: string,
    price: Option<real>,
    stock: Option<int>,
    description: string,
    publishedDate: Option<Date>,
    pages: Option<int>)

  predicate InputValid(input: BookInput, now: Date)
  {
    && ValidTitle(input.title)
    && ValidIsbn(input.isbn)
    && ParseGenre(input.genre).Some?
    && input.price.Some? && ValidPrice(input.price.value)
    && (input.stock.None? || ValidStock(input.stock.value))
    && ValidDescription(input.description)
    && ValidPublished(input.publishedDate, now)
    && ValidPages(input.pages)
  }

  /** `new Book({...})` followed by validation on save: a stock left out defaults to 0. */
  function NewBook(input: BookInput, author: Id, now: Date): (r: Result<Book>)
    ensures r.Err? <==> !InputValid(input, now)
    ensures r.Err? ==> r.error == ValidationFailed
    ensures r.Ok? ==> ValidBook(r.value, now)
    ensures r.Ok? ==>
      && r.value.title == input.title && r.value.author == author && r.value.isbn == input.isbn
      && GenreName(r.value.genre) == input.genre && Some(r.value.price) == input.price
      && r.value.stock == (if input.stock.Some? then input.stock.value else DEFAULT_STOCK)
      && r.value.description == input.description
      && r.value.publishedDate == input.publishedDate && r.value.pages == input.pages
  {
    if !InputValid(input, now) then Err(ValidationFailed)
    else
      var stock := if input.stock.Some? then input.stock.value else DEFAULT_STOCK;
      Ok(Book(input.title, author, input.isbn, ParseGenre(input.genre).value, input.price.value,
              stock, input.description, input.publishedDate, input.pages))
  }

  // ---------------------------------------------------------------------------------------------
  // Updating a record with the fields a request supplies

  /** The fields an update request may carry; `None` means "not supplied". */
  datatype BookPatch = BookPatch(
    title: Option<string>,
    author: Option<Id>,
    isbn: Option<string>,
    genre: Option<string>,
    price: Option<real>,
    stock: Option<int>,
    description: Option<string>,
    publishedDate: Option<Date>,
    pages: Option<int>)

  /** The update validators: each supplied field is checked, the others are not. */
  predicate PatchValid(p: BookPatch, now: Date)
  {
    && (p.title.Some? ==> ValidTitle(p.title.value))
    && (p.isbn.Some? ==> ValidIsbn(p.isbn.value))
    && (p.genre.Some? ==> ParseGenre(p.genre.value).Some?)
    && (p.price.Some? ==> ValidPrice(p.price.value))
    && (p.stock.Some? ==> ValidStock(p.stock.value))
    && (p.description.Some? ==> ValidDescription(p.description.value))
    && (p.publishedDate.Some? ==> NotAfter(p.publishedDate.value, now))
    && (p.pages.Some? ==> p.pages.value >= 1)
  }

  function Update<T>(old_: T, supplied: Option<T>): T
  {
    if supplied.Some? then supplied.value else old_
  }

  /** The record after `$set` of the supplied fields. */
  function Patched(b: Book, p: BookPatch): (r: Book)
    requires p.genre.Some? ==> ParseGenre(p.genre.value).Some?
    ensures p.genre.Some? ==> GenreName(r.genre) == p.genre.value
    ensures p.genre.None? ==> r.genre == b.genre
  {
    Book(Update(b.title, p.title), Update(b.author, p.author), Update(b.isbn, p.isbn),
         if p.genre.Some? then ParseGenre(p.genre.value).value else b.genre,
         Update(b.price, p.price), Update(b.stock, p.stock),
         Update(b.description, p.description),
         if p.publishedDate.Some? then p.publishedDate else b.publishedDate,
         if p.pages.Some? then p.pages else b.pages)
  }

  /** Checking only the supplied fields is enough to keep a valid record valid. */
  lemma PatchKeepsValid(b: Book, p: BookPatch, now: Date)
    requires ValidBook(b, now) && PatchValid(p, now)
    ensures ValidBook(Patched(b, p), now)
  {
  }

  /** A patch that supplies only a stock changes the stock and nothing else. */
  lemma StockPatchChangesOnlyStock(b: Book, s: int)
    ensures Patched(b, BookPatch(None, None, None, None, None, Some(s), None, None, None))
      == b.(stock := s)
  {
  }
}
