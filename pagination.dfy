/** Listing by pages (core/utilities/pagination.py and the `*_paginated` service
    methods). A listing fetches `page_size + 1` rows from offset
    `(page - 1) * page_size`, reports a next page when more than `page_size` rows came
    back, and returns the first `page_size` of them. */
module Pagination {
  import opened Outcomes
  import opened Tables

  /** A page of a listing: the page number asked for, whether another page follows,
      and the rows of this page. */
  datatype Page<T> = Page(page: int, nextPage: bool, items: seq<T>)

  function Min(a: int, b: int): int {
    if a <= b then a else b
  }

  function Max(a: int, b: int): int {
    if a <= b then b else a
  }

  /** Python's `s[:n]`: the first `n` elements, or, for a negative `n`, all but the
      last `-n`. */
  function Prefix<T>(s: seq<T>, n: int): (r: seq<T>)
    ensures 0 <= n ==> |r| == Min(n, |s|)
    ensures n < 0 ==> |r| == Max(|s| + n, 0)
    ensures r == s[..|r|]
  {
    if n >= |s| then s
    else if n >= 0 then s[..n]
    else if |s| + n <= 0 then []
    else s[..|s| + n]
  }

  /** `paginate(items, page, page_size)`. */
  function Paginate<T>(items: seq<T>, page: int, pageSize: int): Page<T> {
    Page(page, |items| > pageSize, Prefix(items, pageSize))
  }

  /** What `paginate` promises: the page number is echoed, a next page is reported
      exactly when more than `page_size` items were given, and the items are the
      leading `page_size` of the input, in order. */
  lemma PaginateSpec<T>(items: seq<T>, page: int, pageSize: int)
    requires 0 <= pageSize
    ensures Paginate(items, page, pageSize).page == page
    ensures Paginate(items, page, pageSize).nextPage <==> |items| > pageSize
    ensures |Paginate(items, page, pageSize).items| == Min(|items|, pageSize)
    ensures forall i :: 0 <= i < |Paginate(items, page, pageSize).items| ==>
              Paginate(items, page, pageSize).items[i] == items[i]
  {
  }

  /** Exactly `page_size` items: no next page, and all of them are returned. */
  lemma PaginateExact<T>(items: seq<T>, page: int)
    ensures Paginate(items, page, |items|) == Page(page, false, items)
  {
  }

  /** One item more than `page_size`: a next page, and the last item is held back. */
  lemma PaginateOneExtra<T>(items: seq<T>, x: T, page: int)
    ensures Paginate(items + [x], page, |items|) == Page(page, true, items)
  {
    assert (items + [x])[..|items|] == items;
  }

  /** `.offset(offset).limit(limit)` on rows `all` in their listing order. PostgreSQL
      rejects a negative OFFSET or LIMIT; the error escapes as a server error. */
  function Window<T>(all: seq<T>, offset: int, limit: int): (r: Result<seq<T>>)
    ensures r.Err? <==> offset < 0 || limit < 0
    ensures r.Err? ==> r.error == InternalError
    ensures r.Ok? ==> |r.value| == Min(limit, Max(|all| - offset, 0))
    ensures r.Ok? ==> forall i :: 0 <= i < |r.value| ==> r.value[i] == all[offset + i]
  {
    if offset < 0 || limit < 0 then Err(InternalError)
    else if offset >= |all| then Ok([])
    else Ok(all[offset..Min(offset + limit, |all|)])
  }

  /** The over-fetch listing of rows `all` from `offset`: at most `page_size + 1`
      rows fetched from there, paginated, reported as page `page`. */
  function FetchAt<T>(all: seq<T>, offset: int, page: int, pageSize: int): Result<Page<T>> {
    match Window(all, offset, pageSize + 1)
    case Err(e) => Err(e)
    case Ok(fetched) => Ok(Paginate(fetched, page, pageSize))
  }

  /** The offset of page `page`: `(page - 1) * page_size`; for a valid page it is
      not negative and the next page starts `page_size` rows further. */
  function PageStart(page: int, pageSize: int): (offset: int)
    ensures offset == (page - 1) * pageSize
    ensures 1 <= page && 0 <= pageSize ==> 0 <= offset && offset + pageSize == page * pageSize
  {
    assert (page - 1) * pageSize + pageSize == page * pageSize;
    if 1 <= page && 0 <= pageSize then
      assert 0 <= (page - 1) * pageSize by {
        assert 0 <= page - 1;
      }
      (page - 1) * pageSize
    else (page - 1) * pageSize
  }

  /** The rows of page `page` when rows are `all`: those from the page's offset up
      to the next page's, cut off at the end of the listing. */
  function PageRows<T>(all: seq<T>, page: int, pageSize: int): seq<T>
    requires 1 <= page && 0 <= pageSize
  {
    all[Min(PageStart(page, pageSize), |all|)..Min(PageStart(page, pageSize) + pageSize, |all|)]
  }

  /** The listing of page `page`: the over-fetch from offset `(page - 1) * page_size`. */
  function FetchPage<T>(all: seq<T>, page: int, pageSize: int): Result<Page<T>> {
    FetchAt(all, (page - 1) * pageSize, page, pageSize)
  }

  /** The over-fetch rule at a given offset: a next page is reported exactly when rows
      remain past this page, and the items are the `page_size` rows from the offset on
      (fewer at the end of the listing). */
  lemma OverFetchAt<T>(all: seq<T>, offset: int, page: int, pageSize: int)
    requires 0 <= offset && 0 <= pageSize
    ensures FetchAt(all, offset, page, pageSize).Ok?
    ensures FetchAt(all, offset, page, pageSize).value.page == page
    ensures FetchAt(all, offset, page, pageSize).value.nextPage <==> |all| > offset + pageSize
    ensures |FetchAt(all, offset, page, pageSize).value.items| == Min(pageSize, Max(|all| - offset, 0))
    ensures forall i :: 0 <= i < |FetchAt(all, offset, page, pageSize).value.items| ==>
              FetchAt(all, offset, page, pageSize).value.items[i] == all[offset + i]
  {
    var fetched := Window(all, offset, pageSize + 1).value;
    PaginateSpec(fetched, page, pageSize);
  }

  /** The listing of a valid page: it succeeds, echoes the page number, reports a next
      page exactly when rows remain past `page * page_size`, and returns the rows of
      positions `(page - 1) * page_size` onward, at most `page_size` of them. */
  lemma FetchPageSpec<T>(all: seq<T>, page: int, pageSize: int)
    requires 1 <= page && 0 <= pageSize
    ensures FetchPage(all, page, pageSize).Ok?
    ensures FetchPage(all, page, pageSize).value.page == page
    ensures FetchPage(all, page, pageSize).value.nextPage <==> |all| > page * pageSize
    ensures |FetchPage(all, page, pageSize).value.items| == Min(pageSize, Max(|all| - (page - 1) * pageSize, 0))
    ensures forall i :: 0 <= i < |FetchPage(all, page, pageSize).value.items| ==>
              FetchPage(all, page, pageSize).value.items[i] == all[(page - 1) * pageSize + i]
    ensures FetchPage(all, page, pageSize).value.items == PageRows(all, page, pageSize)
  {
    var offset := PageStart(page, pageSize);
    OverFetchAt(all, offset, page, pageSize);
    var items := FetchPage(all, page, pageSize).value.items;
    assert |items| == |PageRows(all, page, pageSize)|;
    assert forall i :: 0 <= i < |items| ==> items[i] == PageRows(all, page, pageSize)[i];
  }

  /** The last page holds every remaining row: when no next page is reported, the
      rows of this page reach the end of the listing. */
  lemma LastPageReachesEnd<T>(all: seq<T>, page: int, pageSize: int)
    requires 1 <= page && 0 <= pageSize
    requires (page - 1) * pageSize <= |all|
    requires FetchPage(all, page, pageSize).Ok? && !FetchPage(all, page, pageSize).value.nextPage
    ensures (page - 1) * pageSize + |FetchPage(all, page, pageSize).value.items| == |all|
  {
    FetchPageSpec(all, page, pageSize);
  }

  /** Consecutive pages tile the listing: page `page + 1` starts where page `page` ends
      whenever page `page` reports a next page. */
  lemma ConsecutivePages<T>(all: seq<T>, page: int, pageSize: int)
    requires 1 <= page && 0 < pageSize
    requires FetchPage(all, page, pageSize).Ok? && FetchPage(all, page, pageSize).value.nextPage
    ensures |FetchPage(all, page, pageSize).value.items| == pageSize
    ensures FetchPage(all, page + 1, pageSize).Ok?
    ensures |FetchPage(all, page + 1, pageSize).value.items| > 0
    ensures FetchPage(all, page + 1, pageSize).value.items[0] == all[page * pageSize]
  {
    FetchPageSpec(all, page, pageSize);
    FetchPageSpec(all, page + 1, pageSize);
    assert (page + 1 - 1) * pageSize == page * pageSize;
  }

  /** The error of a listing asked for a page below 1. */
  const PageTooLow := HttpException(BadRequest, "Page number must be 1 or higher")

  /** A listing with the page-number guard of the applicant, specialty, exam, comment
      and audit listings: a page below 1 is refused with a 400 before anything is
      fetched; otherwise the rows `all`, in listing order, are fetched with the
      over-fetch rule. */
  function GuardedPage<T>(all: seq<T>, page: int, pageSize: int): (r: Result<Page<T>>)
    ensures page < 1 ==> r == Err(PageTooLow)
    ensures 1 <= page && 0 <= pageSize ==> r.Ok? && r.value.page == page
    ensures 1 <= page && 0 <= pageSize ==> (r.value.nextPage <==> |all| > page * pageSize)
    ensures 1 <= page && 0 <= pageSize ==> |r.value.items| == Min(pageSize, Max(|all| - (page - 1) * pageSize, 0))
    ensures 1 <= page && 0 <= pageSize ==> forall i :: 0 <= i < |r.value.items| ==> r.value.items[i] == all[(page - 1) * pageSize + i]
    ensures 1 <= page && 0 <= pageSize ==> r.value.items == PageRows(all, page, pageSize)
    ensures 1 <= page && pageSize < -1 ==> r == Err(InternalError)
  {
    if page < 1 then Err(PageTooLow)
    else
      if 0 <= pageSize then FetchPageSpec(all, page, pageSize); FetchPage(all, page, pageSize)
      else FetchPage(all, page, pageSize)
  }

  /** The users listing's own trimming of an over-fetched result: a next page is
      reported when more than `page_size` rows came back, and then the last row is
      dropped. For any result of a `page_size + 1` fetch this is `paginate`. */
  method TrimOverFetch<T>(fetched: seq<T>, page: int, pageSize: int) returns (p: Page<T>)
    ensures p.page == page
    ensures p.nextPage <==> |fetched| > pageSize
    ensures p.nextPage && |fetched| > 0 ==> p.items == fetched[..|fetched| - 1]
    ensures p.nextPage && |fetched| == 0 ==> p.items == []
    ensures !p.nextPage ==> p.items == fetched
    ensures |fetched| <= pageSize + 1 ==> p == Paginate(fetched, page, pageSize)
  {
    var nextPage := false;
    var users := fetched;
    if |users| > pageSize {
      nextPage := true;
      users := Prefix(users, -1);
    }
    p := Page(page, nextPage, users);
  }

  /** A guarded page of a table's listing holds rows stored in the table, in key
      order, and reports a next page exactly when the table holds rows past it. */
  lemma {:induction false} TablePage<T>(t: Table<T>, page: int, pageSize: int)
    requires t.Valid() && 1 <= page && 0 <= pageSize
    ensures var r := GuardedPage(t.Listing(), page, pageSize);
      && r.Ok? && r.value.page == page
      && (r.value.nextPage <==> |t.Listing()| > page * pageSize)
      && (forall i :: 0 <= i < |r.value.items| ==> t.Get(r.value.items[i].id) == Some(r.value.items[i]))
      && KeyOrdered(r.value.items)
  {
    var all := t.Listing();
    var items := GuardedPage(all, page, pageSize).value.items;
    var offset := (page - 1) * pageSize;
    assert 0 <= offset by {
      assert 0 <= page - 1;
    }
    forall i, j | 0 <= i < j < |items|
      ensures items[i].id < items[j].id
    {
      assert items[i] == all[offset + i] && items[j] == all[offset + j];
    }
  }

  /** The listing of a table without a filter or an order, as the applicant,
      specialty and exam listings do it: a page below 1 is refused (400); otherwise
      the over-fetch listing of the table's rows in key order, which holds only
      stored rows, in key order, and reports a next page exactly when the table
      holds rows past this page. */
  function TableListing<T>(t: Table<T>, page: int, pageSize: int): (r: Result<Page<Row<T>>>)
    requires t.Valid()
    ensures page < 1 ==> r == Err(PageTooLow)
    ensures 1 <= page && 0 <= pageSize ==> r.Ok? && r.value.page == page
    ensures 1 <= page && 0 <= pageSize ==> (r.value.nextPage <==> |t.Listing()| > page * pageSize)
    ensures 1 <= page && 0 <= pageSize ==>
              forall i :: 0 <= i < |r.value.items| ==> t.Get(r.value.items[i].id) == Some(r.value.items[i])
    ensures 1 <= page && 0 <= pageSize ==> KeyOrdered(r.value.items)
    ensures 1 <= page && 0 <= pageSize ==> r.value.items == PageRows(t.Listing(), page, pageSize)
  {
    if 1 <= page && 0 <= pageSize then TablePage(t, page, pageSize); GuardedPage(t.Listing(), page, pageSize)
    else GuardedPage(t.Listing(), page, pageSize)
  }
}
