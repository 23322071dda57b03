/**
 * The customer list page: the filter, page and limit state, the handlers
 * that move between pages or reset the filters, the fetches React's effects
 * then start, and the step that merges a fetched page into the shown list.
 * The request itself and the toasts are not part of this model; a fetch is
 * described by the `Fetch` value the page hands to the network, and its
 * outcome is given back to `Receive`.
 */

module HomePage {
  import opened Wrappers
  import opened Schema

  /** Every value the list request sends besides the page and the limit. */
  datatype Filters = Filters(
    search: string,
    gender: string,
    status: string,
    sort: string,
    city: string,
    state: string,
    pincode: string,
    addressType: string,
    isSingleAddress: string,
    sortBy: string,
    sortOrder: string)

  /** The filters the page opens with and `clearAllFilters` restores. */
  const DefaultFilters := Filters("", "All", "All", "new", "", "", "", "All", "", "datecreated", "desc")

  /** One call of `userGet`: what it asks for, and whether the reply replaces the list or is appended to it. */
  datatype Fetch = Fetch(filters: Filters, page: int, limit: int, reset: bool)

  /** A 200 reply: the page's customers and the pagination figures (0 where the reply has none). */
  datatype PageReply = PageReply(users: seq<Customer>, totalPages: nat, totalItems: nat)

  /** `handlePrevious`: page 1 stays, any other page goes back by one. */
  function PreviousPage(page: int): (r: int)
    ensures page >= 1 ==> r >= 1
    ensures r <= page && (r == page <==> page == 1)
  {
    if page == 1 then page else page - 1
  }

  /**
   * `handleNext`: the page stays when it equals the page count, and goes on
   * by one otherwise. Only equality stops it, so a page inside the range
   * stays inside it, but a page at or past an empty count still moves on.
   */
  function NextPage(page: int, pageCount: int): (r: int)
    ensures r >= page && (r == page <==> page == pageCount)
    ensures 1 <= page <= pageCount ==> r <= pageCount
  {
    if page == pageCount then page else page + 1
  }

  /** Going on and then back returns to the page, unless it was the last one. */
  lemma PreviousUndoesNext(page: int, pageCount: int)
    requires page >= 1 && page != pageCount
    ensures PreviousPage(NextPage(page, pageCount)) == page
  {
  }

  /** Going back and then on returns to the page, unless it was the first one. */
  lemma NextUndoesPrevious(page: int, pageCount: int)
    requires page > 1 && page - 1 != pageCount
    ensures NextPage(PreviousPage(page), pageCount) == page
  {
  }

  /** The list after a successful fetch: the reply alone on a reset, the reply after the shown list otherwise. */
  function Merged(shown: seq<Customer>, newUsers: seq<Customer>, reset: bool): (r: seq<Customer>)
    ensures |r| == (if reset then 0 else |shown|) + |newUsers|
    ensures reset ==> r == newUsers
    ensures !reset ==> r[..|shown|] == shown && r[|shown|..] == newUsers
  {
    if reset then newUsers else shown + newUsers
  }

  /** The list after a reset fetch of `pages[0]` followed by appending fetches of the other pages. */
  function Loaded(pages: seq<seq<Customer>>): seq<Customer>
    requires |pages| >= 1
  {
    if |pages| == 1 then Merged([], pages[0], true)
    else Merged(Loaded(pages[..|pages| - 1]), pages[|pages| - 1], false)
  }

  /** All the pages, one after the other. */
  function Concat(pages: seq<seq<Customer>>): seq<Customer> {
    if pages == [] then [] else Concat(pages[..|pages| - 1]) + pages[|pages| - 1]
  }

  /** Infinite scroll shows the fetched pages in the order they arrived, none dropped and none repeated. */
  lemma {:induction false} LoadedIsConcatenation(pages: seq<seq<Customer>>)
    requires |pages| >= 1
    ensures Loaded(pages) == Concat(pages)
  {
    if |pages| == 1 {
      assert pages[..0] == [];
    } else {
      LoadedIsConcatenation(pages[..|pages| - 1]);
    }
  }

  /**
   * The fetches React's effects start after a render in which the page went
   * from `oldPage` to `page`, and the filters and limit from `oldFilters` and
   * `oldLimit` to `filters` and `limit`: first the page effect (a new page
   * above 1 is fetched and appended), then the filter effect (any change
   * refetches the current page and replaces the list).
   */
  function Effects(oldFilters: Filters, oldLimit: int, oldPage: int, filters: Filters, limit: int, page: int): (r: seq<Fetch>)
    ensures |r| <= 2
    ensures forall i :: 0 <= i < |r| ==> r[i].filters == filters && r[i].limit == limit && r[i].page == page
    ensures forall i :: 0 <= i < |r| && !r[i].reset ==> page > 1 && page != oldPage
    ensures forall i :: 0 <= i < |r| && r[i].reset ==> filters != oldFilters || limit != oldLimit
  {
    (if page != oldPage && page > 1 then [Fetch(filters, page, limit, false)] else [])
    + (if filters != oldFilters || limit != oldLimit then [Fetch(filters, page, limit, true)] else [])
  }

  /**
   * A page above 1 that differs from the last one is fetched and appended,
   * and a change of filters or limit is refetched and replaces the list,
   * each exactly once.
   */
  lemma EffectsFire(oldFilters: Filters, oldLimit: int, oldPage: int, filters: Filters, limit: int, page: int)
    ensures var r := Effects(oldFilters, oldLimit, oldPage, filters, limit, page);
      && ((exists i :: 0 <= i < |r| && !r[i].reset) <==> page > 1 && page != oldPage)
      && ((exists i :: 0 <= i < |r| && r[i].reset) <==> filters != oldFilters || limit != oldLimit)
      && |r| == (if page > 1 && page != oldPage then 1 else 0) + (if filters != oldFilters || limit != oldLimit then 1 else 0)
  {
    var r := Effects(oldFilters, oldLimit, oldPage, filters, limit, page);
    if page > 1 && page != oldPage {
      assert !r[0].reset;
    }
    if filters != oldFilters || limit != oldLimit {
      assert r[|r| - 1].reset;
    }
  }

  /** A render that changes nothing starts no fetch. */
  lemma QuietRender(filters: Filters, limit: int, page: int)
    ensures Effects(filters, limit, page, filters, limit, page) == []
  {
  }

  /**
   * `handleLocationSearch` AS WRITTEN: with some location given, `userGet(true)`
   * runs at once, inside the handler, so it still sees the page from before
   * `setPage(1)`.
   */
  function LocationSearchAsWritten(filters: Filters, limit: int, page: int): (r: Option<Fetch>)
    ensures r.None? <==> filters.city == "" && filters.state == "" && filters.pincode == ""
    ensures r.Some? ==> r.value == Fetch(filters, page, limit, true)
  {
    if filters.city == "" && filters.state == "" && filters.pincode == "" then None
    else Some(Fetch(filters, page, limit, true))
  }

  /**
   * From page 3 a search by city replaces the list with the third page of the
   * results, while the page indicator moves to 1.
   */
  lemma LocationSearchFetchesStalePage(filters: Filters, limit: int)
    requires filters.city != ""
    ensures LocationSearchAsWritten(filters, limit, 3) == Some(Fetch(filters, 3, limit, true))
    ensures LocationSearchAsWritten(filters, limit, 3).value.page != 1
  {
  }

  /** `handleLocationSearch` as intended: the reset fetch asks for page 1, the page it moves to. */
  function LocationSearch(filters: Filters, limit: int): (r: Option<Fetch>)
    ensures r.None? <==> filters.city == "" && filters.state == "" && filters.pincode == ""
    ensures r.Some? ==> r.value.page == 1 && r.value.reset && r.value.filters == filters && r.value.limit == limit
  {
    if filters.city == "" && filters.state == "" && filters.pincode == "" then None
    else Some(Fetch(filters, 1, limit, true))
  }

  /** The two agree exactly when the search starts from page 1. */
  lemma LocationSearchAgreesOnFirstPage(filters: Filters, limit: int, page: int)
    ensures LocationSearchAsWritten(filters, limit, page) == LocationSearch(filters, limit)
            <==> page == 1 || (filters.city == "" && filters.state == "" && filters.pincode == "")
  {
  }

  /** The list page's state. */
  class ListPage {
    var userdata: seq<Customer>
    var filters: Filters
    var page: int
    var pageCount: nat
    var totalItems: nat
    var limit: int
    var loading: bool
    var hasMore: bool
    var showAdvancedFilters: bool

    /** The page is never below 1. */
    predicate Valid()
      reads this
    {
      page >= 1
    }

    /** The state on opening the page: nothing shown, default filters, page 1 of 0, ten a page. */
    constructor ()
      ensures Valid()
      ensures userdata == [] && filters == DefaultFilters && page == 1 && pageCount == 0 && totalItems == 0
      ensures limit == 10 && !loading && hasMore && !showAdvancedFilters
    {
      userdata := [];
      filters := DefaultFilters;
      page := 1;
      pageCount := 0;
      totalItems := 0;
      limit := 10;
      loading := false;
      hasMore := true;
      showAdvancedFilters := false;
    }

    /** The fetch the filter effect starts on opening: the current page, replacing the list. */
    method Opened() returns (fetches: seq<Fetch>)
      ensures fetches == [Fetch(filters, page, limit, true)]
    {
      fetches := [Fetch(filters, page, limit, true)];
    }

    /** The start of `userGet`. */
    method Begin()
      modifies this
      ensures loading
      ensures userdata == old(userdata) && filters == old(filters) && page == old(page) && pageCount == old(pageCount)
      ensures totalItems == old(totalItems) && limit == old(limit) && hasMore == old(hasMore)
      ensures showAdvancedFilters == old(showAdvancedFilters)
    {
      loading := true;
    }

    /**
     * The end of `userGet` for `fetch`: on a 200 reply the list is merged,
     * the page count and total are taken over and there is more exactly when
     * the fetched page is before the last; on anything else only `loading`
     * is cleared.
     */
    method Receive(fetch: Fetch, reply: Option<PageReply>)
      modifies this
      ensures !loading
      ensures reply.Some? ==> userdata == Merged(old(userdata), reply.value.users, fetch.reset)
      ensures reply.Some? ==> pageCount == reply.value.totalPages && totalItems == reply.value.totalItems
      ensures reply.Some? ==> (hasMore <==> fetch.page < reply.value.totalPages)
      ensures reply.None? ==> userdata == old(userdata) && pageCount == old(pageCount)
      ensures reply.None? ==> totalItems == old(totalItems) && hasMore == old(hasMore)
      ensures filters == old(filters) && page == old(page) && limit == old(limit)
      ensures showAdvancedFilters == old(showAdvancedFilters)
    {
      if reply.Some? {
        userdata := Merged(userdata, reply.value.users, fetch.reset);
        pageCount := reply.value.totalPages;
        totalItems := reply.value.totalItems;
        hasMore := fetch.page < reply.value.totalPages;
      }
      loading := false;
    }

    /** `handlePrevious`, and the fetch the page effect then starts. */
    method HandlePrevious() returns (fetches: seq<Fetch>)
      requires Valid()
      modifies this
      ensures Valid()
      ensures page == PreviousPage(old(page))
      ensures fetches == Effects(filters, limit, old(page), filters, limit, page)
      ensures userdata == old(userdata) && filters == old(filters) && pageCount == old(pageCount)
      ensures totalItems == old(totalItems) && limit == old(limit) && loading == old(loading)
      ensures hasMore == old(hasMore) && showAdvancedFilters == old(showAdvancedFilters)
    {
      var before := page;
      page := PreviousPage(page);
      fetches := Effects(filters, limit, before, filters, limit, page);
    }

    /** `handleNext`, and the fetch the page effect then starts. */
    method HandleNext() returns (fetches: seq<Fetch>)
      requires Valid()
      modifies this
      ensures Valid()
      ensures page == NextPage(old(page), pageCount)
      ensures fetches == Effects(filters, limit, old(page), filters, limit, page)
      ensures userdata == old(userdata) && filters == old(filters) && pageCount == old(pageCount)
      ensures totalItems == old(totalItems) && limit == old(limit) && loading == old(loading)
      ensures hasMore == old(hasMore) && showAdvancedFilters == old(showAdvancedFilters)
    {
      var before := page;
      page := NextPage(page, pageCount);
      fetches := Effects(filters, limit, before, filters, limit, page);
    }

    /** `handleLimitChange`: the new limit from page 1; the filter effect refetches when the limit changed. */
    method HandleLimitChange(newLimit: int) returns (fetches: seq<Fetch>)
      modifies this
      ensures Valid()
      ensures limit == newLimit && page == 1
      ensures fetches == Effects(filters, old(limit), old(page), filters, limit, page)
      ensures userdata == old(userdata) && filters == old(filters) && pageCount == old(pageCount)
      ensures totalItems == old(totalItems) && loading == old(loading)
      ensures hasMore == old(hasMore) && showAdvancedFilters == old(showAdvancedFilters)
    {
      var beforeLimit, beforePage := limit, page;
      limit := newLimit;
      page := 1;
      fetches := Effects(filters, beforeLimit, beforePage, filters, limit, page);
    }

    /** `clearAllFilters`: every filter back to its default, page 1, advanced filters hidden. */
    method ClearAllFilters() returns (fetches: seq<Fetch>)
      modifies this
      ensures Valid()
      ensures filters == DefaultFilters && page == 1 && !showAdvancedFilters
      ensures fetches == Effects(old(filters), limit, old(page), filters, limit, page)
      ensures userdata == old(userdata) && pageCount == old(pageCount) && totalItems == old(totalItems)
      ensures limit == old(limit) && loading == old(loading) && hasMore == old(hasMore)
    {
      var beforeFilters, beforePage := filters, page;
      filters := DefaultFilters;
      page := 1;
      showAdvancedFilters := false;
      fetches := Effects(beforeFilters, limit, beforePage, filters, limit, page);
    }

    /** A change of the search box, a dropdown or a location field: the filter effect refetches the current page. */
    method ChangeFilters(newFilters: Filters) returns (fetches: seq<Fetch>)
      modifies this
      ensures filters == newFilters
      ensures fetches == Effects(old(filters), limit, page, filters, limit, page)
      ensures userdata == old(userdata) && page == old(page) && pageCount == old(pageCount)
      ensures totalItems == old(totalItems) && limit == old(limit) && loading == old(loading)
      ensures hasMore == old(hasMore) && showAdvancedFilters == old(showAdvancedFilters)
    {
      var before := filters;
      filters := newFilters;
      fetches := Effects(before, limit, page, filters, limit, page);
    }

    /**
     * `handleLocationSearch`: with no location given nothing changes; otherwise
     * page 1, fetched at once and replacing the list. The page effect adds
     * nothing, since the page is not above 1.
     */
    method HandleLocationSearch() returns (fetches: seq<Fetch>)
      requires Valid()
      modifies this
      ensures Valid()
      ensures LocationSearch(filters, limit).None? ==> page == old(page) && fetches == []
      ensures LocationSearch(filters, limit).Some? ==> page == 1 && fetches == [LocationSearch(filters, limit).value]
      ensures userdata == old(userdata) && filters == old(filters) && pageCount == old(pageCount)
      ensures totalItems == old(totalItems) && limit == old(limit) && loading == old(loading)
      ensures hasMore == old(hasMore) && showAdvancedFilters == old(showAdvancedFilters)
    {
      var search := LocationSearch(filters, limit);
      if search.None? {
        fetches := [];
      } else {
        var before := page;
        page := 1;
        fetches := [search.value] + Effects(filters, limit, before, filters, limit, page);
      }
    }

    /**
     * `loadMore`: the next page, only when no fetch is running and there is
     * more; the page effect then fetches it and appends it.
     */
    method LoadMore() returns (fetches: seq<Fetch>)
      requires Valid()
      modifies this
      ensures Valid()
      ensures page == if !old(loading) && old(hasMore) then old(page) + 1 else old(page)
      ensures !old(loading) && old(hasMore) ==> fetches == [Fetch(filters, page, limit, false)]
      ensures old(loading) || !old(hasMore) ==> fetches == []
      ensures userdata == old(userdata) && filters == old(filters) && pageCount == old(pageCount)
      ensures totalItems == old(totalItems) && limit == old(limit) && loading == old(loading)
      ensures hasMore == old(hasMore) && showAdvancedFilters == old(showAdvancedFilters)
    {
      var before := page;
      if !loading && hasMore {
        page := page + 1;
      }
      fetches := Effects(filters, limit, before, filters, limit, page);
    }
  }
}
