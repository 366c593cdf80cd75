/**
 * The `onChange` handler of the work-list and review-list paginators: a new page size is
 * requested only if it differs, and `goTo` is called only if the page differs.
 */
module Pagination {
  import opened Wrappers

  datatype PageState = PageState(pageSize: nat, page: nat)

  /** The React state updates one `onChange` call asks for. */
  datatype Effects = Effects(setPageSize: Option<nat>, goTo: Option<nat>)

  function OnChange(pageSize: nat, page: nat, currentPageSize: nat, currentPage: nat): (e: Effects)
    ensures (e.setPageSize.Some? <==> pageSize != currentPageSize) && (e.setPageSize.Some? ==> e.setPageSize.value == pageSize)
    ensures (e.goTo.Some? <==> page != currentPage) && (e.goTo.Some? ==> e.goTo.value == page)
  {
    Effects(if pageSize != currentPageSize then Some(pageSize) else None,
            if page != currentPage then Some(page) else None)
  }

  /** The state after the requested updates have been applied. */
  function Apply(e: Effects, currentPageSize: nat, currentPage: nat): PageState {
    PageState(e.setPageSize.GetOr(currentPageSize), e.goTo.GetOr(currentPage))
  }

  /** The handler always ends in the requested state, and a request for the current state changes nothing. */
  lemma OnChangeReachesRequest(pageSize: nat, page: nat, currentPageSize: nat, currentPage: nat)
    ensures Apply(OnChange(pageSize, page, currentPageSize, currentPage), currentPageSize, currentPage) == PageState(pageSize, page)
    ensures OnChange(currentPageSize, currentPage, currentPageSize, currentPage) == Effects(None, None)
  {
  }
}
