/** The page arithmetic of the two list endpoints: ten records a page, the
    requested page forced to at least 1 and then capped at the last page. */
module Paging {
  import opened Common

  const PageSize: nat := 10

  /** `Math.ceil(total / 10)`. */
  function TotalPages(total: nat): (pages: nat)
    ensures total == 0 <==> pages == 0
    ensures total > 0 ==> (pages - 1) * PageSize < total <= pages * PageSize
  {
    (total + PageSize - 1) / PageSize
  }

  /** The page metadata of a list response, and the number of records the
      query skips. */
  datatype PageInfo = PageInfo(totalPages: nat, currentPage: int, perPage: nat, skip: int)

  /** The page a list request lands on: `parseInt(page) || 1`, raised to 1
      when not positive, lowered to the page count when beyond it.
      `requested` is what `parseInt` gives, `None` standing for NaN (a missing
      or non-numeric query). An empty collection has no pages, so the page
      drops to 0. */
  function ClampedPage(requested: Option<int>, total: nat): (page: int)
    ensures total > 0 ==> 1 <= page <= TotalPages(total)
    ensures total == 0 ==> page == 0
    ensures requested.Some? && 1 <= requested.value <= TotalPages(total) ==> page == requested.value
    ensures total > 0 && (requested.None? || requested.value < 1) ==> page == 1
    ensures requested.Some? && requested.value > TotalPages(total) ==> page == TotalPages(total)
  {
    var asked := if requested.None? || requested.value == 0 then 1 else requested.value;
    var raised := if asked <= 0 then 1 else asked;
    if raised > TotalPages(total) then TotalPages(total) else raised
  }

  /** The clamp as the handler runs it, step by step, and the skip
      `(page - 1) * 10`; with no records the skip is -10. */
  method ClampPage(requested: Option<int>, total: nat) returns (page: int, skip: int)
    ensures page == ClampedPage(requested, total)
    ensures skip == (page - 1) * PageSize
    ensures total > 0 ==> 1 <= page <= TotalPages(total) && 0 <= skip < total
    ensures total == 0 ==> page == 0 && skip == -10
    ensures requested.Some? && 1 <= requested.value <= TotalPages(total) ==> page == requested.value
    ensures total > 0 && (requested.None? || requested.value < 1) ==> page == 1
    ensures requested.Some? && requested.value > TotalPages(total) ==> page == TotalPages(total)
  {
    page := if requested.None? || requested.value == 0 then 1 else requested.value;
    if page <= 0 {
      page := 1;
    }
    var totalPages := TotalPages(total);
    if page > totalPages {
      page := totalPages;
    }
    skip := (page - 1) * PageSize;
  }

  /** The metadata of a list request over a collection of `total` records. */
  method ListPage(requested: Option<int>, total: nat) returns (info: PageInfo)
    ensures info == PageInfo(TotalPages(total), ClampedPage(requested, total), PageSize, (ClampedPage(requested, total) - 1) * PageSize)
    ensures total > 0 ==> 0 <= info.skip < total
    ensures total == 0 ==> info.skip == -10
  {
    var page, skip := ClampPage(requested, total);
    info := PageInfo(TotalPages(total), page, PageSize, skip);
  }
}
