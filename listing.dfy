/** What the three list endpoints share: records in newest-first order, and the page a `page`
    and `limit` query selects together with its pagination summary. */
module Listing {
  import opened Common

  const DEFAULT_PAGE := 1
  const DEFAULT_LIMIT := 10

  // ---------------------------------------------------------------------------------------------
  // Newest first

  /** The ids below `n` of the records that `keep` selects, largest first. Ids are handed out in
      creation order, so this is the order of `sort({ createdAt: -1 })`. */
  function NewestFirst<T>(m: map<Id, T>, keep: T -> bool, n: nat): (r: seq<Id>)
    ensures forall i, j :: 0 <= i < j < |r| ==> r[i] > r[j]
    ensures forall id :: id in r <==> id < n && id in m && keep(m[id])
  {
    if n == 0 then []
    else
      var rest := NewestFirst(m, keep, n - 1);
      assert forall k :: 0 <= k < |rest| ==> rest[k] < n - 1 by {
        forall k | 0 <= k < |rest| ensures rest[k] < n - 1 {
          assert rest[k] in rest;
        }
      }
      if n - 1 in m && keep(m[n - 1]) then [n - 1] + rest else rest
  }

  /** The records `keep` selects, as a set. */
  function Selected<T>(m: map<Id, T>, keep: T -> bool): set<Id>
  {
    set id | id in m && keep(m[id])
  }

  /** The ids a sequence holds. */
  function Elems(s: seq<Id>): set<Id>
  {
    set x | x in s
  }

  lemma SetOfCons(s: seq<Id>)
    requires s != []
    ensures Elems(s) == {s[0]} + Elems(s[1..])
  {
    assert s == [s[0]] + s[1..];
  }

  lemma CardAddFresh(h: Id, st: set<Id>)
    requires h !in st
    ensures |{h} + st| == |st| + 1
  {
  }

  /** A sequence of distinct ids has as many elements as its set. */
  lemma {:induction false} DecreasingCard(s: seq<Id>)
    requires forall i, j :: 0 <= i < j < |s| ==> s[i] > s[j]
    ensures |Elems(s)| == |s|
  {
    if s != [] {
      var h, t := s[0], s[1..];
      assert forall i, j :: 0 <= i < j < |t| ==> t[i] > t[j] by {
        forall i, j | 0 <= i < j < |t| ensures t[i] > t[j] {
          assert t[i] == s[i + 1] && t[j] == s[j + 1];
        }
      }
      DecreasingCard(t);
      assert h !in t by {
        forall k | 0 <= k < |t| ensures t[k] != h {
          assert t[k] == s[k + 1];
        }
      }
      SetOfCons(s);
      CardAddFresh(h, Elems(t));
    }
  }

  /** When every key lies below `n`, the newest-first list holds each selected record once, so
      its length is the count `countDocuments` reports. */
  lemma NewestFirstCount<T>(m: map<Id, T>, keep: T -> bool, n: nat)
    requires forall id :: id in m ==> id < n
    ensures |NewestFirst(m, keep, n)| == |Selected(m, keep)|
  {
    var r := NewestFirst(m, keep, n);
    DecreasingCard(r);
    assert Elems(r) == Selected(m, keep);
  }

  // ---------------------------------------------------------------------------------------------
  // Pagination

  datatype PageInfo = PageInfo(
    currentPage: int, totalPages: nat, totalCount: nat, hasNextPage: bool, hasPrevPage: bool)

  datatype Page<T> = Page(items: seq<T>, info: PageInfo)

  function OrDefault(o: Option<int>, d: int): int
  {
    if o.Some? then o.value else d
  }

  /** `Math.ceil(n / d)`: the least number of pages of `d` items that hold `n` items. */
  function CeilDiv(n: nat, d: int): (q: nat)
    requires d >= 1
    ensures q * d >= n
    ensures q == 0 || (q - 1) * d < n
  {
    var q := (n + d - 1) / d;
    assert q * d + (n + d - 1) % d == n + d - 1;
    q
  }

  /** The at most `limit` records that follow the first `skip`. */
  function Window<T>(all: seq<T>, skip: nat, limit: nat): (w: seq<T>)
    ensures |w| <= limit
    ensures |w| == if skip >= |all| then 0 else if skip + limit <= |all| then limit else |all| - skip
    ensures forall k :: 0 <= k < |w| ==> skip + k < |all| && w[k] == all[skip + k]
  {
    if skip >= |all| then [] else all[skip..if skip + limit <= |all| then skip + limit else |all|]
  }

  /** Multiplying by a positive number keeps the order. */
  lemma MulMonotone(a: int, b: int, c: int)
    requires c >= 1
    ensures a <= b <==> a * c <= b * c
  {
    if a <= b {
      var d := b - a;
      assert d * c >= 0;
      assert b * c == a * c + d * c;
    } else {
      var d := a - b - 1;
      assert d * c >= 0;
      assert a * c == b * c + d * c + c;
    }
  }

  /** Skip `(page - 1) * limit` records and return at most `limit` of the rest. A page below 1
      makes the skip negative, which the database refuses; a limit below 1 is not modelled. */
  function Paginate<T>(all: seq<T>, page: int, limit: int): (r: Result<Page<T>>)
    ensures r.Err? <==> page < 1 || limit < 1
    ensures r.Err? ==> r.error == BadPaging
    ensures r.Ok? ==>
      && r.value.items == Window(all, (page - 1) * limit, limit)
      && r.value.info.currentPage == page
      && r.value.info.totalCount == |all|
      && (r.value.info.hasPrevPage <==> page > 1)
  {
    if page < 1 || limit < 1 then Err(BadPaging)
    else
      var skip := (page - 1) * limit;
      var totalPages := CeilDiv(|all|, limit);
      Ok(Page(Window(all, skip, limit), PageInfo(page, totalPages, |all|, page < totalPages, page > 1)))
  }

  /** A page holds records of the list it is cut from, in the list's order. */
  lemma PageWithin(all: seq<Id>, page: int, limit: int)
    requires Paginate(all, page, limit).Ok?
    ensures var items := Paginate(all, page, limit).value.items;
      && (forall k :: 0 <= k < |items| ==> items[k] in all)
      && ((forall i, j :: 0 <= i < j < |all| ==> all[i] > all[j]) ==>
            forall k, l :: 0 <= k < l < |items| ==> items[k] > items[l])
  {
    var skip := (page - 1) * limit;
    var items := Window(all, skip, limit);
    forall k | 0 <= k < |items|
      ensures items[k] in all
    {
      assert items[k] == all[skip + k];
    }
  }

  /** `hasNextPage` says exactly that records remain after this page, and `totalPages` pages
      of `limit` records hold the whole list with the last page non-empty. */
  lemma {:induction false} NextPageMeansMoreRecords<T>(all: seq<T>, page: int, limit: int)
    requires page >= 1 && limit >= 1
    ensures var p := Paginate(all, page, limit).value;
      && (p.info.hasNextPage <==> page * limit < |all|)
      && p.info.totalPages * limit >= |all|
      && (p.info.totalPages == 0 || (p.info.totalPages - 1) * limit < |all|)
  {
    var t: int := CeilDiv(|all|, limit);
    MulMonotone(page, t - 1, limit);
    MulMonotone(t, page, limit);
  }

  /** Every record appears on exactly one page: record `i` is item `i % limit` of page
      `i / limit + 1`, and that page is within `totalPages`. */
  lemma {:induction false} EveryRecordOnItsPage<T>(all: seq<T>, limit: int, i: int)
    requires limit >= 1 && 0 <= i < |all|
    ensures var page := i / limit + 1;
      var p := Paginate(all, page, limit).value;
      && i % limit < |p.items| && p.items[i % limit] == all[i]
      && page <= p.info.totalPages
  {
    var page := i / limit + 1;
    var t := CeilDiv(|all|, limit);
    assert (page - 1) * limit + i % limit == i;
    MulMonotone(t, page - 1, limit);
  }

  /** Every selected record is listed on some page. */
  lemma SelectedOnSomePage<T>(m: map<Id, T>, keep: T -> bool, n: nat, limit: int, id: Id)
    requires id in m && keep(m[id]) && id < n && limit >= 1
    ensures exists page :: page >= 1 && id in Paginate(NewestFirst(m, keep, n), page, limit).value.items
  {
    var all := NewestFirst(m, keep, n);
    var i :| 0 <= i < |all| && all[i] == id;
    EveryRecordOnItsPage(all, limit, i);
    var page := i / limit + 1;
    assert Paginate(all, page, limit).value.items[i % limit] == id;
  }

  /** Pages after the last one are empty. */
  lemma {:induction false} PagesBeyondTheEndAreEmpty<T>(all: seq<T>, page: int, limit: int)
    requires limit >= 1 && page > CeilDiv(|all|, limit)
    ensures Paginate(all, page, limit).value.items == []
  {
    MulMonotone(CeilDiv(|all|, limit), page - 1, limit);
  }
}
