# GitHub repository explorer: the core, in Dafny

The explorer is a single page. A visitor types a GitHub user name, a profile
URL or an `@mention`. The page resolves it to a handle and fetches that
user's profile. It then fetches up to ten pages of a hundred public
repositories each, and it tracks the API's rate-limit headers along the way.
The visitor can then search, filter by language, sort and page through the
repositories, twelve at a time.

This project models the logic behind that page and proves what it
guarantees:

- `wrappers.dfy` (`Wrappers`): `Option` and `Result`.
- `types.dfy` (`GitHubTypes`): the records of `src/types/github.ts`.
  Repository timestamps are held as the instants `new Date(..)` yields.
- `text.dfy` (`Text`): the JavaScript string built-ins the core relies on.
  - `trim`, with ECMAScript's whitespace and line terminators.
  - `toLowerCase` on ASCII letters.
  - `includes`.
  - `parseInt(s, 10)`: skip leading whitespace, read an optional sign and the longest run of digits, and give NaN when there are no digits.
  - The character-by-character order that `sort()` uses when given no comparator.
- `usernames.dfy` (`Usernames`): `extractUsername`. The three regular expressions are written as recognisers.
  - The bare handle is tested against the whole trimmed input.
  - The URL pattern matches leftmost and captures greedily.
  - The `@handle` form must match the whole trimmed input.
- `github_api.dfy` (`GitHubApi`): the `useGitHubApi` hook.
  - It is a class, `GitHubHook`, whose fields are `loading`, `error` and `rateLimit`.
  - The network is a parameter: a function from request to exchange. A ghost field records the requests in the order they are made.
  - `fetchAllRepositories` keeps its `while` loop. The loop is proved against a reference definition of the page walk (`LastPage`, `ItemsThrough`, `CollectAll`).
- `sorting.dfy` (`Sorting`): `Array.prototype.sort` with a comparator.
  - It is modelled as a stable insertion sort.
  - The proofs show the result is sorted, is a permutation, and keeps ties in input order.
  - They also show these three facts determine the result, so any stable engine returns the same list.
- `repo_view.dfy` (`RepoView`): the values `src/pages/Index.tsx` derives:
  - the language list, built by a loop into an insertion-ordered set and then sorted;
  - the search and language filters;
  - the sort comparator;
  - `slice`-based pagination;
  - `Math.ceil` page count;
  - the window of at most five page numbers.
- `index_page.dfy` (`Index`): the page's state as a class, `Page`, and the handlers that change it.
  - The handlers are `handleSearch`, `handleFilterChange`, Previous, Next and the numbered buttons.
  - `Valid()` states that the current page is 1 or names a page that exists.

## Model

| member | source | states |
|---|---|---|
| Text.Trim | src/hooks/useGitHubApi.ts:12 | definition of `trim`: leading and trailing ECMAScript whitespace removed; `TrimSpec` characterises its result |
| Text.TrimSpec | src/hooks/useGitHubApi.ts:12 | the trimmed text occurs in the input with only whitespace before and after it, and neither of its ends is whitespace |
| Text.TrimKeepsTrimmed | src/hooks/useGitHubApi.ts:12 | trimming a text that neither starts nor ends with whitespace returns it unchanged |
| Text.Lower | src/pages/Index.tsx:88-94 | definition of `toLowerCase` on ASCII letters: the same length, each character mapped on its own; its properties are in the two rows below |
| Text.LowerHasNoCapital | src/pages/Index.tsx:88-94 | lowercased text contains no ASCII capital letter |
| Text.LowerIdempotent | src/pages/Index.tsx:88-94 | lowercasing text that is already lowercased changes nothing |
| Text.Includes | src/hooks/useGitHubApi.ts:103 | definition of `includes`, comparing the needle at each position in turn; `IncludesSpec` characterises it |
| Text.IncludesSpec | src/hooks/useGitHubApi.ts:103 | `includes` holds exactly when the needle occurs at some index of the text |
| Text.ParseInt | src/hooks/useGitHubApi.ts:40-42 | definition of `parseInt(_, 10)`: skip leading whitespace, read an optional sign, then the longest run of digits, with NaN when there are no digits; `ParseIntOfDecimalText` is its round trip |
| Text.ParseIntOfDecimalText | src/hooks/useGitHubApi.ts:40-42 | `parseInt` reads back any integer from its decimal text, whatever non-digit text follows it |
| Text.NatTextValue | src/hooks/useGitHubApi.ts:40-42 | reading the digits of a natural number's decimal text gives the number back |
| Text.StringLessIrreflexive | src/pages/Index.tsx:80 | no text sorts before itself in the default order |
| Text.StringLessTransitive | src/pages/Index.tsx:80 | the default text order is transitive |
| Text.StringLessTotal | src/pages/Index.tsx:80 | of two different texts, one sorts before the other |
| Text.StringLessAsymmetric | src/pages/Index.tsx:80 | two texts never sort before each other |
| Usernames.IsHandleIffHyphenRule | src/hooks/useGitHubApi.ts:15 | the bare-handle pattern accepts exactly 1 to 39 letters, digits and hyphens with no leading, trailing or doubled hyphen |
| Usernames.ExtractUsernameAsWritten | src/hooks/useGitHubApi.ts:11-31 | definition of `extractUsername` as written: trim the input, then try the bare handle, the URL pattern and the mention in turn, with null when none matches; `CorrectionOnlyShortensTruncatedCapture` relates it to the corrected resolver |
| Usernames.ExtractUsernameSpec | src/hooks/useGitHubApi.ts:11-30 | a trimmed bare handle is returned unchanged; every result is a handle; there is no result exactly when none of the three patterns matches the trimmed input |
| Usernames.FindUrl | src/hooks/useGitHubApi.ts:21 | the URL pattern's match is the leftmost index where `github.com/` is followed by a letter or digit |
| Usernames.RunEnd | src/hooks/useGitHubApi.ts:21 | the capture extends over every character that continues a handle, up to 39 characters |
| Usernames.UrlCaptureAsWritten | src/hooks/useGitHubApi.ts:21 | definition of the URL pattern's `match(..)[1]` as written; `UrlCaptureAsWrittenSpec` characterises it |
| Usernames.UrlCaptureAsWrittenSpec | src/hooks/useGitHubApi.ts:21 | the URL pattern captures exactly when it matches somewhere, and its capture is the greedy run at the leftmost match |
| Usernames.CaptureIsNearlyHandle | src/hooks/useGitHubApi.ts:21 | a greedy capture is a handle once a trailing hyphen is dropped, and can end in a hyphen only at 39 characters |
| Usernames.UrlCaptureSpec | src/hooks/useGitHubApi.ts:21 | the corrected URL capture exists exactly when the pattern matches, and is always a handle |
| Usernames.PatternsAreExclusive | src/hooks/useGitHubApi.ts:15-22 | a bare handle and an `@handle` contain no URL match, and no text is both |
| Usernames.HandleHasNoUrl | src/hooks/useGitHubApi.ts:21 | a URL match cannot start its capture inside a handle-shaped suffix |
| Usernames.MentionResolves | src/hooks/useGitHubApi.ts:22 | `@` followed by a handle resolves to that handle |
| Usernames.UrlHandleResolves | src/hooks/useGitHubApi.ts:21 | a handle after the leftmost `github.com/` resolves to that handle, whatever path or query follows |
| Usernames.UrlHandleResolvesAt | src/hooks/useGitHubApi.ts:21 | a handle at the leftmost URL match that no handle character follows is what both versions return |
| Usernames.NothingMatches | src/hooks/useGitHubApi.ts:30 | trimmed text that is no handle, has no slash and does not start with `@` resolves to nothing |
| Usernames.InvalidInputExample | src/hooks/useGitHubApi.ts:30 | "not a valid handle!!" resolves to nothing |
| Usernames.AsWrittenCaptureEndsInHyphen | src/hooks/useGitHubApi.ts:21 | as written, `github.com/` + 38 letters + `-b` yields a 39-character result that ends in a hyphen, which is no handle |
| Usernames.CorrectedCaptureDropsHyphen | src/hooks/useGitHubApi.ts:21 | the corrected capture of the same text is the 38-character handle |
| Usernames.CorrectionOnlyShortensTruncatedCapture | src/hooks/useGitHubApi.ts:21 | the correction changes a result only when it is 39 characters ending in a hyphen, and then only drops that hyphen |
| GitHubApi.ObserveRateLimit | src/hooks/useGitHubApi.ts:33-45 | definition of `updateRateLimit` as a value of the old snapshot and the headers; `RateLimitRule` characterises it |
| GitHubApi.RateLimitRule | src/hooks/useGitHubApi.ts:33-45 | the snapshot is replaced by the three parsed headers exactly when all three are present and non-empty, and is otherwise left as it was |
| GitHubApi.RateLimitReadsDecimalHeaders | src/hooks/useGitHubApi.ts:38-43 | headers holding decimal numbers give a snapshot of exactly those numbers |
| GitHubApi.GitHubHook.UpdateRateLimit | src/hooks/useGitHubApi.ts:33-45 | the new snapshot is the observation of the headers on the old one, and nothing else changes |
| GitHubApi.StatusPolicy | src/hooks/useGitHubApi.ts:47-109 | both fetchers map 404 to not-found, 403 to rate-limited (with a reset time exactly when the header has one) and other non-2xx statuses to a failure; a 2xx response yields its body, and `hasMore` holds exactly when a `link` header contains `rel="next"` |
| GitHubApi.GitHubHook.FetchUser | src/hooks/useGitHubApi.ts:47-72 | one request; the rate limit is observed from its response before the status is examined; the result is that response's classification |
| GitHubApi.GitHubHook.FetchRepositories | src/hooks/useGitHubApi.ts:74-109 | the same for one page of repositories, together with whether another page follows |
| GitHubApi.CheckStatus | src/hooks/useGitHubApi.ts:52-66 | definition of the status checks both fetchers make: 404, then 403 with the reset header, then any other non-2xx status; `StatusPolicy` characterises it |
| GitHubApi.ClassifyUser | src/hooks/useGitHubApi.ts:47-72 | definition of `fetchUser`'s outcome for one exchange; `StatusPolicy` characterises it |
| GitHubApi.HasNextLink | src/hooks/useGitHubApi.ts:102-103 | definition of `hasMore`: the `link` header is present and includes `rel="next"`; `StatusPolicy` states it through `IncludesSpec` |
| GitHubApi.ClassifyRepos | src/hooks/useGitHubApi.ts:85-105 | definition of `fetchRepositories`' outcome for one exchange; `StatusPolicy` characterises it |
| GitHubApi.LastPage | src/hooks/useGitHubApi.ts:120-128 | definition of the last page the walk requests; `LastPageFacts` and `LastPageIsFirstStop` characterise it |
| GitHubApi.CollectAll | src/hooks/useGitHubApi.ts:115-130 | reference definition of the whole walk's outcome; `CollectPages` is proved against it |
| GitHubApi.StopFrom | src/hooks/useGitHubApi.ts:120-128 | a walk that has reached a page stops at or after it, and never after page 10 |
| GitHubApi.LastPageFacts | src/hooks/useGitHubApi.ts:120-128 | the last page requested is between 1 and 10; every earlier page arrived and announced a successor; the last page did not, unless it is page 10 |
| GitHubApi.LastPageIsFirstStop | src/hooks/useGitHubApi.ts:120-128 | the walk stops at the first page that fails or has no successor, or at page 10 |
| GitHubApi.FirstFailureWins | src/hooks/useGitHubApi.ts:131-134 | when a page fails after only continuing pages, the whole fetch fails with that page's error |
| GitHubApi.CollectedPagesSucceeded | src/hooks/useGitHubApi.ts:115-130 | a successful fetch had every requested page succeed |
| GitHubApi.TruncatesAfterTenPages | src/hooks/useGitHubApi.ts:126-127 | when every page announces a successor, the fetch stops quietly after page 10 with the repositories of pages 1 to 10 |
| GitHubApi.WalkStep | src/hooks/useGitHubApi.ts:120-128 | a page before the last arrived and announced a successor; the outcome at the last page decides the result |
| GitHubApi.PageRequestsInOrder | src/hooks/useGitHubApi.ts:121 | the i-th request is for page i + 1 with `per_page` 100 |
| GitHubApi.AtMostTenRequests | src/hooks/useGitHubApi.ts:124-127 | at most ten pages are requested |
| GitHubApi.GitHubHook.constructor | src/hooks/useGitHubApi.ts:7-9 | the hook starts idle, with no error and no snapshot |
| GitHubApi.GitHubHook.FetchPage | src/hooks/useGitHubApi.ts:121 | fetching page p after pages 1 to p - 1 gives that page's reference outcome and extends the request log and snapshot by one page |
| GitHubApi.GitHubHook.CollectPages | src/hooks/useGitHubApi.ts:115-130 | the loop returns the reference outcome and requests exactly pages 1 to the last page, in order |
| GitHubApi.GitHubHook.FetchAllRepositories | src/hooks/useGitHubApi.ts:111-138 | the result is the reference outcome: the concatenated pages or the first failure; `error` holds that failure or nothing; `loading` is false on exit |
| Sorting.Sort | src/pages/Index.tsx:103 | definition of a stable insertion sort; `SortPermutation`, `SortSorted` and `SortStable` characterise it, and `AnyStableSortAgrees` shows any stable sort gives the same list |
| Sorting.InsertPermutation | src/pages/Index.tsx:103 | inserting adds exactly one element to the multiset |
| Sorting.SortPermutation | src/pages/Index.tsx:103 | the sort returns a permutation of its input |
| Sorting.InsertSorted | src/pages/Index.tsx:103 | inserting into a sorted list keeps it sorted |
| Sorting.SortSorted | src/pages/Index.tsx:103 | with a consistent comparator the result is sorted |
| Sorting.InsertEquivalents | src/pages/Index.tsx:103 | inserting places an element before the elements already equivalent to it, so the earlier input element stays first among its ties |
| Sorting.SortStable | src/pages/Index.tsx:103 | elements that compare equal keep their input order |
| Sorting.SortedUnique | src/pages/Index.tsx:103 | two sorted lists with the same equivalents, in the same order, are equal |
| Sorting.AnyStableSortAgrees | src/pages/Index.tsx:103 | any sorted list that keeps every group of ties in input order is this sort's result |
| RepoView.Filter | src/pages/Index.tsx:89-99 | definition of `Array.prototype.filter`: the accepted elements in their order; `FilterSpec` and `FilterEquivalents` characterise it |
| RepoView.FilterSpec | src/pages/Index.tsx:89-99 | filtering keeps each accepted element as often as it occurs and drops every other |
| RepoView.FilterIdempotent | src/pages/Index.tsx:89-99 | filtering twice by the same test equals filtering once |
| RepoView.FilterCommutes | src/pages/Index.tsx:87-100 | the search and language filters can be applied in either order |
| RepoView.PassingSpec | src/pages/Index.tsx:87-100 | a repository survives the filters exactly when it matches the lowercased search term (name, description or a topic; every repository when the term is empty) and has the selected language (every repository for "" and "all") |
| RepoView.PassingIdempotent | src/pages/Index.tsx:87-100 | applying the same filters to their own output changes nothing |
| RepoView.SearchIgnoresCaseExample | src/pages/Index.tsx:87-95 | the search is case-insensitive: the term "REACT" finds a repository described as "a react app" and drops one that mentions it nowhere |
| RepoView.SearchIgnoresTermCase | src/pages/Index.tsx:87-95 | two non-empty search terms that lowercase alike filter alike |
| RepoView.FilterEquivalents | src/pages/Index.tsx:89-99 | filtering keeps order: the ties of an element in a filtered list are the filtered ties |
| RepoView.PassingEquivalents | src/pages/Index.tsx:87-100 | the ties of a repository among those passing the filters are its passing ties, in fetched order |
| RepoView.KeyCompare | src/pages/Index.tsx:103-117 | definition of the comparison of one key: stars, update time and creation time by subtraction, names by `localeCompare` |
| RepoView.Comparator | src/pages/Index.tsx:103-120 | definition of the comparator given to `sort`: the key comparison, negated when descending |
| RepoView.FilteredAndSorted | src/pages/Index.tsx:83-123 | definition of `filteredAndSortedRepos`; the permutation, order and tie rows below characterise it |
| RepoView.ComparatorConsistent | src/pages/Index.tsx:103-120 | every sort key and both directions give a consistent comparator |
| RepoView.FilteredAndSortedIsPermutation | src/pages/Index.tsx:83-123 | the list shown is a permutation of the repositories that pass both filters |
| RepoView.FilteredAndSortedIsOrdered | src/pages/Index.tsx:103-120 | the list shown is non-decreasing in the chosen key when ascending and non-increasing when descending |
| RepoView.FilteredAndSortedKeepsTies | src/pages/Index.tsx:83-123 | the repositories shown with a key equal to x's are those fetched with a key equal to x's, in fetched order, less those the filters drop |
| RepoView.TiesIgnoreDirection | src/pages/Index.tsx:119 | negating the comparison leaves the same ties |
| RepoView.DescendingIsNotReversedAscending | src/pages/Index.tsx:119 | two repositories with equal stars come out in fetched order in both directions |
| RepoView.RelativeIndex | src/pages/Index.tsx:127 | a `slice` index always lands between 0 and the length; the rule that counts negative indices from the end is the definition, and `PageBounds` fixes every page's slice |
| RepoView.PageOf | src/pages/Index.tsx:125-128 | definition of `paginatedRepos` as a `slice`; `PageBounds` characterises it |
| RepoView.PageBounds | src/pages/Index.tsx:125-128 | page p holds the items from (p-1)*12 to p*12, cut at the end; at most 12; empty exactly past the end |
| RepoView.TotalPages | src/pages/Index.tsx:130 | definition of `totalPages` with integer arithmetic; `TotalPagesIsCeiling` shows it is the ceiling |
| RepoView.TotalPagesIsCeiling | src/pages/Index.tsx:130 | the page count is the fewest pages of 12 that hold the list, so 0 for an empty list |
| RepoView.PagesThroughPrefix | src/pages/Index.tsx:125-130 | pages 1 to n, concatenated, are the first n*12 items |
| RepoView.PagesCoverList | src/pages/Index.tsx:125-130 | pages 1 to the page count, concatenated, are the whole list |
| RepoView.PageWindow | src/pages/Index.tsx:230-240 | definition of the window of page numbers, one case for each branch of the source; `PageWindowSpec` characterises it |
| RepoView.PageWindowSpec | src/pages/Index.tsx:230-240 | the window holds min(5, pages) consecutive increasing page numbers between 1 and the page count, including the current page whenever it exists |
| RepoView.CompareTextConsistent | src/pages/Index.tsx:80 | `sort()` without a comparator orders texts consistently |
| RepoView.Languages | src/pages/Index.tsx:75-81 | the language list holds every non-empty language of the repositories, each once, in increasing order |
| RepoView.SortedLanguages | src/pages/Index.tsx:80 | sorting the duplicate-free set of languages gives a strictly increasing list of the same languages |
| RepoView.IncreasingListsAgree | src/pages/Index.tsx:80 | two strictly increasing lists with the same members are equal, so the language list depends only on the set of languages |
| Index.Merge | src/pages/Index.tsx:133 | definition of `{ ...prev, ...newFilters }`; the two rows below characterise it |
| Index.MergeOverwritesOnlySupplied | src/pages/Index.tsx:133 | a filter change overwrites the supplied fields and leaves the others as they were |
| Index.MergeIdempotent | src/pages/Index.tsx:133 | the same change applied twice equals applying it once, and an empty change changes nothing |
| Index.ValidPageIsNotEmpty | src/pages/Index.tsx:125-130 | a page that `Valid` allows shows between 1 and 12 repositories whenever the list is not empty |
| Index.Page.constructor | src/pages/Index.tsx:18-28 | the page starts with no user, no repositories, page 1 and the default filters |
| Index.Page.HandleFilterChange | src/pages/Index.tsx:132-135 | the filters become the merge of the old ones and the change, and the page returns to 1 |
| Index.Page.Previous | src/pages/Index.tsx:223 | the page becomes max(1, page - 1) and stays valid |
| Index.Page.Next | src/pages/Index.tsx:257 | the page becomes min(page count, page + 1) and stays valid |
| Index.Page.SelectPage | src/pages/Index.tsx:244 | a numbered button sets the page to its number, which always names a page that exists |
| Index.Page.HandleSearch | src/pages/Index.tsx:40-73 | input that names no user changes nothing. Otherwise it resets the page to 1 and the filters to their defaults, requests the user and then pages 1 to the last page, and shows the user and repositories only when both fetches succeed |

## Left out

- Networking is not modelled. `fetch`, `response.json()` and the HTTP transport become a server function passed in. Its exchange is a response (status, headers, optional parsed body) or a network failure. A body that fails to parse is the absent body, so 2xx responses become `InvalidJson`.
- Thrown errors are values. An `Error`'s message becomes a `FetchError` constructor. The not-found and failure messages are kept as constants.
- The rate-limit message's `new Date(reset * 1000).toLocaleTimeString()` is left out. The error keeps the parsed reset value instead, because formatting a date depends on the locale and clock.
- Index.Page.HandleSearch: runs `fetchUser` to completion and then `fetchAllRepositories`. `Promise.all` starts both at once and their responses may interleave, so the order of the rate-limit snapshots and of the request log is fixed here and not in the source.
- Index.Page.HandleSearch: resolves the input with the corrected `ExtractUsername`, not with `extractUsername` as written (`ExtractUsernameAsWritten`). The two differ only on the input of the finding below, where the source requests a name ending in a hyphen and the model requests the name without it. `CorrectionOnlyShortensTruncatedCapture` shows they agree on whether there is a name at all.
- Index.Page.HandleSearch: the toasts (invalid input, success count, caught error) are user-interface side effects and are left out.
- `localeCompare` is a parameter, `collate`, required to be a consistent comparator. The ordering lemmas assume this.
- Text.Lower: covers ASCII letters only. Unicode case mapping needs the platform's tables.
- Text.StringLess: compares Unicode scalar values. JavaScript compares UTF-16 code units, and the two orders differ only for characters outside the Basic Multilingual Plane.
- Timestamps are integers. `new Date(..).getTime()` of a malformed date is NaN, which makes the comparator inconsistent; that case is not modelled.
- Number width: counts and timestamps are unbounded integers. JavaScript numbers are doubles, exact up to 2^53, which every count and millisecond instant the API returns stays within.
- `topics` and `description` may be missing in the API payload. The model has a sequence of topics (missing is the empty sequence) and an optional description.
- Presentational components (`RepoCard`, `RepoDetailModal`, `UserProfile`, `RepoFilters`, `ProfileInput`, `LoadingSkeleton`, `EmptyState`, `RateLimitBanner`) are rendering and are not modelled.
- `handleExport` and the summary edge function are not modelled. They serialise data or call an external service.
- The constant `sort=updated` query parameter of the repository request (src/hooks/useGitHubApi.ts:81) is not part of `ReposRequest`. It is the same on every request, and the model leaves the order of the server's answers to the server function.
- `fetchRepositories`' default `perPage` of 30 (src/hooks/useGitHubApi.ts:77) is not used by the core: `fetchAllRepositories` always passes 100.
- Three behaviours of the code differ from what one might expect; the model follows the code.
  - An empty list has no pages: `Math.ceil(0 / 12)` is 0.
  - An out-of-range page is never clamped. `Valid` shows that the handlers keep the page in range anyway.
  - The language list drops the empty string as well as a missing language.

## Findings

| source | as written | input that shows it | evidently intended | confidence | as-written member | corrected member |
|---|---|---|---|---|---|---|
| src/hooks/useGitHubApi.ts:21 | the URL pattern has no end anchor and at most 38 repetitions after the first character, so its 39th captured character may be a hyphen whose look-ahead sees the next, uncaptured character | `github.com/` + 38 letters + `-b` gives the 39-character handle ending in `-`, which GitHub never issues and the bare-handle rule rejects | every resolved name satisfies the handle rule of line 15 | not executed | Usernames.AsWrittenCaptureEndsInHyphen | Usernames.CorrectedCaptureDropsHyphen |

`ExtractUsernameAsWritten` is the source's function and `ExtractUsername` is
the corrected one, which `HandleSearch` uses. They differ only in dropping
that trailing hyphen (`CorrectionOnlyShortensTruncatedCapture`).
