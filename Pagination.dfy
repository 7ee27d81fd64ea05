/**
 * `get_data`: the half-open slice `[(page - 1) * per_page, page * per_page)`
 * of the stored table's rows, clipped to the row count, and the page count
 * `(n + per_page - 1) // per_page`.
 */
module Pagination {
  import opened Wrappers
  import opened Tables
  import opened Errors

  const DefaultPage: int := 1
  const DefaultPerPage: int := 50

  datatype PageResponse = PageResponse(
    data: seq<Record>,
    totalRows: nat,
    page: int,
    perPage: int,
    totalPages: int,
    columns: seq<string>,
    filename: Option<string>)

  /** Python's `//` for a non-negative dividend and a positive divisor, which is Dafny's `/`. */
  function TotalPages(n: nat, perPage: int): (tp: int)
    requires perPage >= 1
    ensures tp >= 0
  {
    (n + perPage - 1) / perPage
  }

  /** `TotalPages` is the ceiling of n / perPage: the fewest pages that hold n rows. */
  lemma TotalPagesIsCeiling(n: nat, perPage: int)
    requires perPage >= 1
    ensures TotalPages(n, perPage) >= 0
    ensures TotalPages(n, perPage) * perPage >= n
    ensures (TotalPages(n, perPage) - 1) * perPage < n
    ensures n == 0 <==> TotalPages(n, perPage) == 0
  {
  }

  /** The index of the first row of a page. */
  function PageStart(page: int, perPage: int): int
  {
    (page - 1) * perPage
  }

  /** `iloc[start:end]` with `start = (page - 1) * perPage` and `end = start + perPage`. */
  function Page<T>(rows: seq<T>, page: int, perPage: int): (r: seq<T>)
    requires page >= 1 && perPage >= 1
    ensures |r| <= perPage
    ensures |r| <= |rows|
  {
    var start := PageStart(page, perPage);
    var end := start + perPage;
    if start >= |rows| then [] else rows[start..if end < |rows| then end else |rows|]
  }

  /**
   * Entry k of a page is row `(page - 1) * perPage + k`. Every page before
   * the last is full, the last holds the remainder, and pages after it are
   * empty.
   */
  lemma PageShape<T>(rows: seq<T>, page: int, perPage: int)
    requires page >= 1 && perPage >= 1
    ensures var n, tp := |rows|, TotalPages(|rows|, perPage);
      |Page(rows, page, perPage)| ==
        (if page < tp then perPage else if page == tp then n - (tp - 1) * perPage else 0)
    ensures forall k :: 0 <= k < |Page(rows, page, perPage)| ==>
      PageStart(page, perPage) + k < |rows| && Page(rows, page, perPage)[k] == rows[PageStart(page, perPage) + k]
  {
    var n, tp := |rows|, TotalPages(|rows|, perPage);
    TotalPagesIsCeiling(n, perPage);
    if page < tp {
      MulMonotone(page, tp - 1, perPage);
    } else if page == tp {
    } else {
      MulMonotone(tp, page - 1, perPage);
    }
  }

  lemma MulMonotone(a: int, b: int, c: int)
    requires a <= b && c >= 0
    ensures a * c <= b * c
  {
  }

  /** A page is non-empty exactly when its number is at most the page count. */
  lemma PageNonEmptyIff<T>(rows: seq<T>, page: int, perPage: int)
    requires page >= 1 && perPage >= 1
    ensures Page(rows, page, perPage) != [] <==> page <= TotalPages(|rows|, perPage)
  {
    PageShape(rows, page, perPage);
    TotalPagesIsCeiling(|rows|, perPage);
  }

  /** Pages 1 to k, one after another. */
  function PagesUpTo<T>(rows: seq<T>, k: nat, perPage: int): seq<T>
    requires perPage >= 1
  {
    if k == 0 then [] else PagesUpTo(rows, k - 1, perPage) + Page(rows, k, perPage)
  }

  /** Pages 1 to k are the first k * perPage rows (or all of them). */
  lemma {:induction false} PagesUpToIsPrefix<T>(rows: seq<T>, k: nat, perPage: int)
    requires perPage >= 1
    ensures PagesUpTo(rows, k, perPage) == rows[..if k * perPage < |rows| then k * perPage else |rows|]
  {
    if k > 0 {
      PagesUpToIsPrefix(rows, k - 1, perPage);
      assert (k - 1) * perPage + perPage == k * perPage;
    }
  }

  /** Paging through all pages lists every row once, in order. */
  lemma PagesCoverRows<T>(rows: seq<T>, perPage: int)
    requires perPage >= 1
    ensures PagesUpTo(rows, TotalPages(|rows|, perPage), perPage) == rows
  {
    TotalPagesIsCeiling(|rows|, perPage);
    PagesUpToIsPrefix(rows, TotalPages(|rows|, perPage), perPage);
  }

  /** 105 rows at 50 a page: 3 pages, the third holding 5 rows and the fourth none. */
  lemma PageExample<T>(rows: seq<T>)
    requires |rows| == 105
    ensures TotalPages(105, 50) == 3
    ensures |Page(rows, 1, 50)| == 50
    ensures |Page(rows, 3, 50)| == 5 && Page(rows, 3, 50) == rows[100..]
    ensures Page(rows, 4, 50) == []
  {
  }

  /**
   * The records of one page of the table: as many as `PageShape` says, and
   * entry k is the record of row `(page - 1) * perPage + k`.
   */
  function PageRecords(t: Table, page: int, perPage: int): (rs: seq<Record>)
    requires page >= 1 && perPage >= 1
    ensures var n, tp := |t.rows|, TotalPages(|t.rows|, perPage);
      |rs| == (if page < tp then perPage else if page == tp then n - (tp - 1) * perPage else 0)
    ensures forall k :: 0 <= k < |rs| ==>
      PageStart(page, perPage) + k < |t.rows| && rs[k] == RecordOf(t.columns, t.rows[PageStart(page, perPage) + k])
  {
    var rows := Page(t.rows, page, perPage);
    PageShape(t.rows, page, perPage);
    assert forall k :: 0 <= k < |rows| ==> |rows[k]| == |t.columns|;
    RecordsOf(t, rows)
  }

  /** The page number or page size of the request, or its default when absent. */
  function OrDefault(value: Option<int>, default: int): int
  {
    if value.Some? then value.value else default
  }

  /**
   * The `get_data` handler over the session slot. Pages are 1-based and the
   * page size is at least 1; neither has an upper bound.
   */
  function GetData(df: Option<Table>, filename: Option<string>, page: Option<int>, perPage: Option<int>): (r: Result<PageResponse, Error>)
    requires df.Some? ==> OrDefault(page, DefaultPage) >= 1 && OrDefault(perPage, DefaultPerPage) >= 1
    ensures r.Err? <==> df.None?
    ensures r.Err? ==> r.error == NoFileUploaded
    ensures r.Ok? ==>
      var t, p, pp := df.value, OrDefault(page, DefaultPage), OrDefault(perPage, DefaultPerPage);
      && r.value.page == p && r.value.perPage == pp
      && r.value.totalRows == |t.rows|
      && r.value.totalPages == TotalPages(|t.rows|, pp)
      && r.value.columns == t.columns
      && r.value.filename == filename
      && r.value.data == PageRecords(t, p, pp)
  {
    match df
    case None => Err(NoFileUploaded)
    case Some(t) =>
      var p, pp := OrDefault(page, DefaultPage), OrDefault(perPage, DefaultPerPage);
      Ok(PageResponse(PageRecords(t, p, pp), |t.rows|, p, pp, TotalPages(|t.rows|, pp), t.columns, filename))
  }
}
