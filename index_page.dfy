/**
 * The state of the explorer page in src/pages/Index.tsx and the handlers
 * that change it: a search, a filter change, and the page buttons.
 */
module Index {
  import opened Wrappers
  import opened GitHubTypes
  import opened Usernames
  import opened GitHubApi
  import opened RepoView
  import Sorting

  /** `Partial<FilterState>`: the fields one filter control supplies. */
  datatype FilterUpdate = FilterUpdate(
    search: Option<string>,
    language: Option<string>,
    sortBy: Option<SortOption>,
    sortDirection: Option<SortDirection>)

  function Pick<T>(supplied: Option<T>, prior: T): T {
    if supplied.Some? then supplied.value else prior
  }

  /** `{ ...prev, ...newFilters }`. */
  function Merge(prev: FilterState, update: FilterUpdate): FilterState {
    FilterState(
      Pick(update.search, prev.search),
      Pick(update.language, prev.language),
      Pick(update.sortBy, prev.sortBy),
      Pick(update.sortDirection, prev.sortDirection))
  }

  /** A merge overwrites the supplied fields and leaves every other field as it was. */
  lemma MergeOverwritesOnlySupplied(prev: FilterState, update: FilterUpdate)
    ensures var m := Merge(prev, update);
            && (if update.search.Some? then m.search == update.search.value else m.search == prev.search)
            && (if update.language.Some? then m.language == update.language.value else m.language == prev.language)
            && (if update.sortBy.Some? then m.sortBy == update.sortBy.value else m.sortBy == prev.sortBy)
            && (if update.sortDirection.Some? then m.sortDirection == update.sortDirection.value
                else m.sortDirection == prev.sortDirection)
  {
  }

  /** Applying the same update twice changes nothing more, and an empty update changes nothing. */
  lemma MergeIdempotent(prev: FilterState, update: FilterUpdate)
    ensures Merge(Merge(prev, update), update) == Merge(prev, update)
    ensures Merge(prev, FilterUpdate(None, None, None, None)) == prev
  {
  }

  function Max(a: int, b: int): int {
    if a < b then b else a
  }

  /** A page that Valid allows shows some repository whenever the list has one. */
  lemma ValidPageIsNotEmpty<T>(list: seq<T>, page: int)
    requires 1 <= page && (page == 1 || page <= TotalPages(|list|))
    requires list != []
    ensures PageOf(list, page) != []
    ensures |PageOf(list, page)| <= ReposPerPage
  {
    PageBounds(list, page);
    TotalPagesIsCeiling(|list|);
  }

  class Page {
    var user: Option<User>
    var repositories: seq<Repository>
    var currentPage: int
    var filters: FilterState
    /** The hook that fetches from the API and holds loading, error and rate limit. */
    const api: GitHubHook
    /** The platform's `localeCompare`, which the sort by name uses. */
    const collate: (string, string) -> int

    /** The page number always names a page that exists, or is 1. */
    ghost predicate Valid()
      reads this
    {
      && Sorting.Consistent(collate)
      && 1 <= currentPage
      && (currentPage == 1 || currentPage <= PageCount())
    }

    /** `filteredAndSortedRepos`. */
    function Shown(): seq<Repository>
      reads this
    {
      FilteredAndSorted(repositories, filters, collate)
    }

    /** `totalPages`. */
    function PageCount(): nat
      reads this
    {
      TotalPages(|Shown()|)
    }

    /** `paginatedRepos`. */
    function Paginated(): seq<Repository>
      reads this
    {
      PageOf(Shown(), currentPage)
    }

    constructor (api: GitHubHook, collate: (string, string) -> int)
      requires Sorting.Consistent(collate)
      ensures Valid()
      ensures this.api == api && this.collate == collate
      ensures user == None && repositories == [] && currentPage == 1 && filters == DefaultFilters
    {
      this.api := api;
      this.collate := collate;
      user := None;
      repositories := [];
      currentPage := 1;
      filters := DefaultFilters;
    }

    /** `handleFilterChange`: merge the supplied fields, back to the first page. */
    method HandleFilterChange(update: FilterUpdate)
      requires Valid()
      modifies this`filters, this`currentPage
      ensures filters == Merge(old(filters), update)
      ensures currentPage == 1
      ensures Valid()
    {
      filters := Merge(filters, update);
      currentPage := 1;
    }

    /** The Previous button. */
    method Previous()
      requires Valid()
      modifies this`currentPage
      ensures currentPage == Max(1, old(currentPage) - 1)
      ensures Valid()
    {
      currentPage := Max(1, currentPage - 1);
    }

    /** The Next button, which is only there when there is more than one page. */
    method Next()
      requires Valid() && PageCount() > 1
      modifies this`currentPage
      ensures currentPage == Min(PageCount(), old(currentPage) + 1)
      ensures Valid()
    {
      currentPage := Min(PageCount(), currentPage + 1);
    }

    /** A numbered button of the page window. */
    method SelectPage(pageNum: int)
      requires Valid() && PageCount() > 1
      requires pageNum in PageWindow(currentPage, PageCount())
      modifies this`currentPage
      ensures currentPage == pageNum
      ensures Valid()
    {
      PageWindowSpec(currentPage, PageCount());
      currentPage := pageNum;
    }

    /**
     * `handleSearch`: input that names no user changes nothing; otherwise the
     * page is reset, the user and all repository pages are fetched, and both
     * are shown only when both fetches succeed.
     */
    method HandleSearch(input: string, userServer: Request -> Exchange<User>, repoServer: RepoServer)
      requires Valid()
      modifies this, api
      ensures Valid()
      ensures ExtractUsername(input).None? ==> unchanged(this) && unchanged(api)
      ensures ExtractUsername(input).Some? ==>
                var name := ExtractUsername(input).value;
                var found := ClassifyUser(userServer(UserRequest(name)));
                var all := CollectAll(repoServer, name);
                var last := LastPage(repoServer, name);
                && currentPage == 1
                && filters == DefaultFilters
                && (if found.Ok? && all.Ok? then user == Some(found.value) && repositories == all.value
                    else user == None && repositories == [])
                && api.requests == old(api.requests) + [UserRequest(name)] + PageRequests(name, last)
                && api.rateLimit == RateLimitThrough(ObserveExchange(old(api.rateLimit), userServer(UserRequest(name))),
                                                     repoServer, name, last)
                && api.error == (if all.Err? then Some(all.error) else None)
                && !api.loading
    {
      var username := ExtractUsername(input);
      if username.None? {
        return;
      }
      var name := username.value;
      api.error := None;
      user := None;
      repositories := [];
      currentPage := 1;
      filters := DefaultFilters;
      var userData := api.FetchUser(name, userServer);
      var repos := api.FetchAllRepositories(name, repoServer);
      if userData.Ok? && repos.Ok? {
        user := Some(userData.value);
        repositories := repos.value;
      }
    }
  }
}
