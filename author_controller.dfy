/** The author handlers: creation, the filtered listing in name order, lookup together with the
    author's books, and deletion behind the check that no book still names the author. */
module AuthorController {
  import opened Common
  import opened Text
  import opened Dates
  import opened BookModel
  import opened AuthorModel
  import opened Listing
  import opened Database

  // ---------------------------------------------------------------------------------------------
  // Name order

  /** An author's sort key: the name, then the identifier to place authors of the same name. */
  datatype Keyed = Keyed(name: string, id: Id)

  predicate KeyLe(a: Keyed, b: Keyed)
  {
    if a.name == b.name then a.id <= b.id else StrLe(a.name, b.name)
  }

  lemma KeyLeTotal(a: Keyed, b: Keyed)
    ensures KeyLe(a, b) || KeyLe(b, a)
  {
    StrLeTotal(a.name, b.name);
  }

  lemma KeyLeTransitive(a: Keyed, b: Keyed, c: Keyed)
    requires KeyLe(a, b) && KeyLe(b, c)
    ensures KeyLe(a, c)
  {
    if a.name != b.name && b.name != c.name {
      StrLeTransitive(a.name, b.name, c.name);
      if a.name == c.name {
        StrLeAntisymmetric(a.name, b.name);
      }
    }
  }

  predicate SortedByName(s: seq<Keyed>)
  {
    forall i, j :: 0 <= i < j < |s| ==> KeyLe(s[i], s[j])
  }

  /** `x` placed before the first key it does not follow. */
  function Insert(x: Keyed, s: seq<Keyed>): seq<Keyed>
  {
    if s == [] then [x]
    else if KeyLe(x, s[0]) then [x] + s
    else [s[0]] + Insert(x, s[1..])
  }

  function SortByName(s: seq<Keyed>): seq<Keyed>
  {
    if s == [] then [] else Insert(s[0], SortByName(s[1..]))
  }

  /** Every key of `s` follows `h`. */
  predicate Below(h: Keyed, s: seq<Keyed>)
  {
    forall j :: 0 <= j < |s| ==> KeyLe(h, s[j])
  }

  lemma SortedCons(h: Keyed, t: seq<Keyed>)
    ensures SortedByName([h] + t) <==> Below(h, t) && SortedByName(t)
  {
    var s := [h] + t;
    if Below(h, t) && SortedByName(t) {
      forall i, j | 0 <= i < j < |s|
        ensures KeyLe(s[i], s[j])
      {
        assert s[j] == t[j - 1];
        if i > 0 {
          assert s[i] == t[i - 1];
          assert KeyLe(t[i - 1], t[j - 1]);
        } else {
          assert s[i] == h;
          assert KeyLe(h, t[j - 1]);
        }
      }
    }
    if SortedByName(s) {
      forall i, j | 0 <= i < j < |t|
        ensures KeyLe(t[i], t[j])
      {
        assert t[i] == s[i + 1] && t[j] == s[j + 1];
      }
      forall j | 0 <= j < |t|
        ensures KeyLe(h, t[j])
      {
        assert t[j] == s[j + 1] && s[0] == h;
        assert KeyLe(s[0], s[j + 1]);
      }
    }
  }

  /** Inserting a key that follows `h` keeps every key following `h`. */
  lemma {:induction false} InsertBelow(h: Keyed, x: Keyed, s: seq<Keyed>)
    requires Below(h, s) && KeyLe(h, x)
    ensures Below(h, Insert(x, s))
  {
    if s != [] && !KeyLe(x, s[0]) {
      assert Below(h, s[1..]) by {
        forall j | 0 <= j < |s[1..]|
          ensures KeyLe(h, s[1..][j])
        {
          assert s[1..][j] == s[j + 1];
        }
      }
      InsertBelow(h, x, s[1..]);
      var r := [s[0]] + Insert(x, s[1..]);
      forall j | 0 <= j < |r|
        ensures KeyLe(h, r[j])
      {
        if j > 0 {
          assert r[j] == Insert(x, s[1..])[j - 1];
        }
      }
    }
  }

  /** Inserting adds exactly the one key. */
  lemma {:induction false} InsertCount(x: Keyed, s: seq<Keyed>)
    ensures multiset(Insert(x, s)) == multiset(s) + multiset{x}
  {
    if s != [] {
      assert s == [s[0]] + s[1..];
      if !KeyLe(x, s[0]) {
        InsertCount(x, s[1..]);
      }
    }
  }

  /** Inserting into a name-sorted list keeps it sorted. */
  lemma {:induction false} InsertSorted(x: Keyed, s: seq<Keyed>)
    requires SortedByName(s)
    ensures SortedByName(Insert(x, s))
  {
    if s == [] {
    } else if KeyLe(x, s[0]) {
      forall j | 0 <= j < |s|
        ensures KeyLe(x, s[j])
      {
        if j > 0 {
          KeyLeTransitive(x, s[0], s[j]);
        }
      }
      SortedCons(x, s);
    } else {
      KeyLeTotal(x, s[0]);
      assert s == [s[0]] + s[1..];
      SortedCons(s[0], s[1..]);
      InsertSorted(x, s[1..]);
      InsertBelow(s[0], x, s[1..]);
      SortedCons(s[0], Insert(x, s[1..]));
    }
  }

  /** Sorting yields the same keys in name order. */
  lemma {:induction false} SortByNameSorted(s: seq<Keyed>)
    ensures SortedByName(SortByName(s))
    ensures multiset(SortByName(s)) == multiset(s)
  {
    if s != [] {
      SortByNameSorted(s[1..]);
      InsertSorted(s[0], SortByName(s[1..]));
      InsertCount(s[0], SortByName(s[1..]));
      assert s == [s[0]] + s[1..];
    }
  }

  // ---------------------------------------------------------------------------------------------
  // Listing authors

  /** The optional nationality filter keeps an author whose nationality contains the text,
      ignoring case. */
  predicate AuthorMatches(a: Author, nationality: string)
  {
    nationality == "" || ContainsIgnoreCase(a.nationality, nationality)
  }

  function NationalityFilter(nationality: string): Author -> bool
  {
    a => AuthorMatches(a, nationality)
  }

  function KeysOf(authors: map<Id, Author>, ids: seq<Id>): (r: seq<Keyed>)
    requires forall k :: 0 <= k < |ids| ==> ids[k] in authors
    ensures |r| == |ids|
    ensures forall k :: 0 <= k < |ids| ==> r[k] == Keyed(authors[ids[k]].name, ids[k])
  {
    seq(|ids|, k requires 0 <= k < |ids| => Keyed(authors[ids[k]].name, ids[k]))
  }

  function IdsOf(keys: seq<Keyed>): (r: seq<Id>)
    ensures |r| == |keys|
    ensures forall k :: 0 <= k < |keys| ==> r[k] == keys[k].id
  {
    seq(|keys|, k requires 0 <= k < |keys| => keys[k].id)
  }

  /** Two sequences holding the same keys as multisets have the same length and elements. */
  lemma SameKeys(a: seq<Keyed>, b: seq<Keyed>)
    requires multiset(a) == multiset(b)
    ensures |a| == |b|
    ensures forall x :: x in a <==> x in b
  {
    assert |multiset(a)| == |multiset(b)|;
    forall x
      ensures x in a <==> x in b
    {
      assert x in a <==> x in multiset(a);
      assert x in b <==> x in multiset(b);
    }
  }

  /** The keys of `ids`, sorted, carry the stored names of exactly the authors of `ids`. */
  lemma {:induction false} SortedKeysOf(authors: map<Id, Author>, ids: seq<Id>)
    requires forall k :: 0 <= k < |ids| ==> ids[k] in authors
    ensures var sorted := SortByName(KeysOf(authors, ids));
      && |sorted| == |ids|
      && SortedByName(sorted)
      && (forall k :: 0 <= k < |sorted| ==>
            sorted[k].id in authors && sorted[k].name == authors[sorted[k].id].name)
      && (forall id :: id in IdsOf(sorted) <==> id in ids)
  {
    var keys := KeysOf(authors, ids);
    var sorted := SortByName(keys);
    SortByNameSorted(keys);
    SameKeys(sorted, keys);
    var r := IdsOf(sorted);
    forall id | id in r
      ensures id in ids
    {
      var k :| 0 <= k < |r| && r[k] == id;
      assert sorted[k] in keys;
    }
    forall id | id in ids
      ensures id in r
    {
      var j :| 0 <= j < |ids| && ids[j] == id;
      assert keys[j] in sorted;
      var k :| 0 <= k < |sorted| && sorted[k] == keys[j];
      assert r[k] == id;
    }
    forall k | 0 <= k < |sorted|
      ensures sorted[k].id in authors && sorted[k].name == authors[sorted[k].id].name
    {
      assert sorted[k] in keys;
    }
  }

  /** Every author the filter keeps, in name order. */
  function AuthorsByName(authors: map<Id, Author>, n: nat, nationality: string): seq<Id>
  {
    IdsOf(SortByName(KeysOf(authors, NewestFirst(authors, NationalityFilter(nationality), n))))
  }

  /** The name-ordered list holds each author the filter keeps exactly once. */
  lemma AuthorsByNameMembers(authors: map<Id, Author>, n: nat, nationality: string)
    ensures var r := AuthorsByName(authors, n, nationality);
      && (forall id :: id in r <==> id < n && id in authors && AuthorMatches(authors[id], nationality))
      && |r| == |NewestFirst(authors, NationalityFilter(nationality), n)|
  {
    SortedKeysOf(authors, NewestFirst(authors, NationalityFilter(nationality), n));
  }

  /** Both identifiers name stored authors, and the first name is not after the second. */
  predicate NameLe(authors: map<Id, Author>, a: Id, b: Id)
  {
    a in authors && b in authors && StrLe(authors[a].name, authors[b].name)
  }

  /** The identifiers name stored authors, with names ascending. */
  predicate NameOrdered(authors: map<Id, Author>, s: seq<Id>)
  {
    forall k, l :: 0 <= k < l < |s| ==> NameLe(authors, s[k], s[l])
  }

  lemma NameOrderedWindow(authors: map<Id, Author>, s: seq<Id>, skip: nat, limit: nat)
    requires NameOrdered(authors, s)
    ensures NameOrdered(authors, Window(s, skip, limit))
  {
    var w := Window(s, skip, limit);
    forall k, l | 0 <= k < l < |w|
      ensures NameLe(authors, w[k], w[l])
    {
      assert w[k] == s[skip + k] && w[l] == s[skip + l];
    }
  }

  /** The name-ordered list has ascending names. */
  lemma AuthorsByNameOrdered(authors: map<Id, Author>, n: nat, nationality: string)
    ensures NameOrdered(authors, AuthorsByName(authors, n, nationality))
  {
    var ids := NewestFirst(authors, NationalityFilter(nationality), n);
    SortedKeysOf(authors, ids);
    var sorted := SortByName(KeysOf(authors, ids));
    var r := IdsOf(sorted);
    forall k, l | 0 <= k < l < |r|
      ensures NameLe(authors, r[k], r[l])
    {
      assert KeyLe(sorted[k], sorted[l]);
      if sorted[k].name == sorted[l].name {
        StrLeReflexive(sorted[k].name);
      }
    }
  }

  /** `getAllAuthors`: the matching authors in name order, one page of them, with the
      pagination summary. */
  function ListAuthors(authors: map<Id, Author>, n: nat, nationality: string, page: Option<int>, limit: Option<int>)
    : (r: Result<Page<Id>>)
    ensures r.Err? <==> OrDefault(page, DEFAULT_PAGE) < 1 || OrDefault(limit, DEFAULT_LIMIT) < 1
    ensures r.Ok? ==> |r.value.items| <= OrDefault(limit, DEFAULT_LIMIT)
    ensures r.Ok? ==> forall k :: 0 <= k < |r.value.items| ==>
      r.value.items[k] in authors && AuthorMatches(authors[r.value.items[k]], nationality)
    ensures r.Ok? ==> NameOrdered(authors, r.value.items)
  {
    var p, l := OrDefault(page, DEFAULT_PAGE), OrDefault(limit, DEFAULT_LIMIT);
    var r := Paginate(AuthorsByName(authors, n, nationality), p, l);
    if r.Ok? then AuthorPage(authors, n, nationality, p, l); r else r
  }

  /** The records of one page of the name-ordered listing. */
  lemma AuthorPage(authors: map<Id, Author>, n: nat, nationality: string, page: int, limit: int)
    requires Paginate(AuthorsByName(authors, n, nationality), page, limit).Ok?
    ensures var items := Paginate(AuthorsByName(authors, n, nationality), page, limit).value.items;
      && (forall k :: 0 <= k < |items| ==> items[k] in authors && AuthorMatches(authors[items[k]], nationality))
      && NameOrdered(authors, items)
  {
    var all := AuthorsByName(authors, n, nationality);
    AuthorsByNameMembers(authors, n, nationality);
    PageWithin(all, page, limit);
    AuthorsByNameOrdered(authors, n, nationality);
    NameOrderedPage(authors, all, page, limit);
  }

  lemma NameOrderedPage(authors: map<Id, Author>, all: seq<Id>, page: int, limit: int)
    requires NameOrdered(authors, all) && Paginate(all, page, limit).Ok?
    ensures NameOrdered(authors, Paginate(all, page, limit).value.items)
  {
    NameOrderedWindow(authors, all, (page - 1) * limit, limit);
  }

  lemma ListAuthorsPage(authors: map<Id, Author>, n: nat, nationality: string, page: int, limit: int)
    ensures ListAuthors(authors, n, nationality, Some(page), Some(limit))
      == Paginate(AuthorsByName(authors, n, nationality), page, limit)
  {
  }

  /** The reported total counts every author the filter keeps. */
  lemma ListAuthorsTotal(authors: map<Id, Author>, n: nat, nationality: string, page: Option<int>, limit: Option<int>)
    requires forall id :: id in authors ==> id < n
    requires ListAuthors(authors, n, nationality, page, limit).Ok?
    ensures ListAuthors(authors, n, nationality, page, limit).value.info.totalCount
      == |set id | id in authors && AuthorMatches(authors[id], nationality)|
  {
    var keep := NationalityFilter(nationality);
    AuthorsByNameMembers(authors, n, nationality);
    NewestFirstCount(authors, keep, n);
    assert Selected(authors, keep) == set id | id in authors && AuthorMatches(authors[id], nationality);
  }

  /** Every author the filter keeps is listed on some page. */
  lemma AuthorOnSomePage(authors: map<Id, Author>, n: nat, nationality: string, limit: int, id: Id)
    requires id in authors && id < n && AuthorMatches(authors[id], nationality)
    requires limit >= 1
    ensures exists page :: page >= 1 && id in ListAuthors(authors, n, nationality, Some(page), Some(limit)).value.items
  {
    var all := AuthorsByName(authors, n, nationality);
    AuthorsByNameMembers(authors, n, nationality);
    var i :| 0 <= i < |all| && all[i] == id;
    EveryRecordOnItsPage(all, limit, i);
    var page := i / limit + 1;
    assert Paginate(all, page, limit).value.items[i % limit] == id;
    ListAuthorsPage(authors, n, nationality, page, limit);
  }

  // ---------------------------------------------------------------------------------------------
  // Looking up an author with its books

  datatype AuthorWithBooks = AuthorWithBooks(author: Author, books: set<Id>)

  /** `getAuthorById`: the author and the books whose `author` field is this author, or not
      found. */
  function GetAuthorById(authors: map<Id, Author>, books: map<Id, Book>, id: Id): (r: Result<AuthorWithBooks>)
    ensures r.Err? <==> id !in authors
    ensures r.Err? ==> r.error == NotFound
    ensures r.Ok? ==> (r.value.author == authors[id]
      && forall b :: b in r.value.books <==> b in books && books[b].author == id)
  {
    if id !in authors then Err(NotFound) else Ok(AuthorWithBooks(authors[id], BooksOf(books, id)))
  }

  /** When every book names a stored author, the lookups list every book under exactly one
      author. */
  lemma BooksListedUnderOneAuthor(authors: map<Id, Author>, books: map<Id, Book>, b: Id)
    requires forall id :: id in books ==> books[id].author in authors
    requires b in books
    ensures exists a :: a in authors && b in GetAuthorById(authors, books, a).value.books
    ensures forall a, a' :: (a in authors && a' in authors
      && b in GetAuthorById(authors, books, a).value.books
      && b in GetAuthorById(authors, books, a').value.books) ==> a == a'
  {
    var a := books[b].author;
    assert b in GetAuthorById(authors, books, a).value.books;
  }

  // ---------------------------------------------------------------------------------------------
  // Creating and deleting authors

  /** `createAuthor`: the record is stored under a fresh identifier when it passes the
      validators on day `today`. */
  method CreateAuthor(db: Store, a: Author, today: Date, startYear: int) returns (r: Result<Id>)
    requires db.Valid()
    modifies db
    ensures db.Valid()
    ensures !ValidAuthor(a, today, startYear) ==> r == Err(ValidationFailed) && unchanged(db)
    ensures ValidAuthor(a, today, startYear) ==>
      && r == Ok(old(db.nextId))
      && db.authors == old(db.authors)[old(db.nextId) := a]
      && db.books == old(db.books) && db.orders == old(db.orders)
      && db.nextId == old(db.nextId) + 1
  {
    if !ValidAuthor(a, today, startYear) {
      return Err(ValidationFailed);
    }
    var id := db.nextId;
    db.authors := db.authors[id := a];
    db.nextId := id + 1;
    r := Ok(id);
  }

  /** With every book naming a stored author, an unknown author has no books, so deleting it
      answers "not found" rather than the books error. */
  lemma UnknownAuthorHasNoBooks(authors: map<Id, Author>, books: map<Id, Book>, id: Id)
    requires forall b :: b in books ==> books[b].author in authors
    requires id !in authors
    ensures BooksOf(books, id) == {}
  {
  }

  /** `deleteAuthor`: refused, reporting the count, while any book names the author; otherwise
      an unknown author is not found and a known one is removed. Books and orders never
      change. */
  method DeleteAuthor(db: Store, id: Id) returns (r: Result<Author>)
    requires db.Valid()
    modifies db
    ensures db.Valid()
    ensures BooksOf(old(db.books), id) != {} ==>
      r == Err(AuthorHasBooks(|BooksOf(old(db.books), id)|)) && unchanged(db)
    ensures BooksOf(old(db.books), id) == {} && id !in old(db.authors) ==> r == Err(NotFound) && unchanged(db)
    ensures BooksOf(old(db.books), id) == {} && id in old(db.authors) ==>
      && r == Ok(old(db.authors[id]))
      && db.authors == old(db.authors) - {id}
      && db.books == old(db.books) && db.orders == old(db.orders) && db.nextId == old(db.nextId)
  {
    var count := |BooksOf(db.books, id)|;
    if count > 0 {
      return Err(AuthorHasBooks(count));
    }
    var books := db.books;
    forall b | b in books
      ensures books[b].author != id
    {
      assert books[b].author == id ==> b in BooksOf(books, id);
    }
    if id !in db.authors {
      return Err(NotFound);
    }
    r := Ok(db.authors[id]);
    db.authors := db.authors - {id};
  }
}
