/** The records of src/types/github.ts. */
module GitHubTypes {
  import opened Wrappers

  /** The outcome of JavaScript's parseInt: an integer or NaN. */
  datatype ParsedInt = Int(value: int) | NaN

  datatype License = License(name: string, spdxId: string)

  /**
   * One repository record. Timestamps (created_at, updated_at, pushed_at)
   * are held as the instants, in milliseconds, that `new Date(..)` yields.
   */
  datatype Repository = Repository(
    id: int,
    name: string,
    fullName: string,
    description: Option<string>,
    htmlUrl: string,
    language: Option<string>,
    stars: int,
    forks: int,
    watchers: int,
    openIssues: int,
    createdAt: int,
    updatedAt: int,
    pushedAt: int,
    size: int,
    defaultBranch: string,
    topics: seq<string>,
    fork: bool,
    archived: bool,
    visibility: string,
    license: Option<License>)

  datatype User = User(
    login: string,
    id: int,
    avatarUrl: string,
    htmlUrl: string,
    name: Option<string>,
    bio: Option<string>,
    publicRepos: int,
    followers: int,
    following: int,
    createdAt: string)

  datatype SortOption = Stars | Updated | Name | Created

  datatype SortDirection = Asc | Desc

  datatype FilterState = FilterState(
    search: string,
    language: string,
    sortBy: SortOption,
    sortDirection: SortDirection)

  /** The filter state the page starts with and returns to on every search. */
  const DefaultFilters := FilterState("", "all", Stars, Desc)

  /** The quota snapshot; each field is what parseInt made of its header. */
  datatype RateLimitInfo = RateLimitInfo(limit: ParsedInt, remaining: ParsedInt, reset: ParsedInt)
}
