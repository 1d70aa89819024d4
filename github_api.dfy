/**
 * The `useGitHubApi` hook (src/hooks/useGitHubApi.ts): the rate-limit
 * snapshot, the classification of single responses, and the bounded
 * sequential walk over the pages of a user's repositories.
 *
 * The network is an oracle `server` from request to exchange; every request
 * the hook issues is recorded in the ghost field `requests`.
 */
module GitHubApi {
  import opened Wrappers
  import opened GitHubTypes
  import opened Text

  /** Response headers by lower-case name (`Headers.get` ignores case). */
  type Headers = map<string, string>

  /** A response; `body` is None when `response.json()` rejects the text. */
  datatype Response<B> = Response(status: int, headers: Headers, body: Option<B>)

  /** What `fetch` resolves to, or its rejection when the network fails. */
  datatype Exchange<B> = Received(response: Response<B>) | NetworkFailure

  datatype Request =
    | UserRequest(username: string)
    | ReposRequest(username: string, page: int, perPage: int)

  /** The errors the hook throws; the rate-limit one carries the parsed reset time when the header has one. */
  datatype FetchError =
    | NotFound(message: string)
    | RateLimitExceeded(resetAt: Option<ParsedInt>)
    | RequestFailed(message: string)
    | InvalidJson
    | NetworkError

  /** One page of repositories and whether the `link` header announces another. */
  datatype RepoPage = RepoPage(repos: seq<Repository>, hasMore: bool)

  const UserNotFoundMessage := "User not found. Please check the username and try again."
  const UserFailedMessage := "Failed to fetch user data. Please try again."
  const ReposNotFoundMessage := "User not found."
  const ReposFailedMessage := "Failed to fetch repositories."

  /** The page size fetchAllRepositories asks for, and its safety limit on pages. */
  const PerPage := 100
  const MaxPages := 10

  function HeaderValue(headers: Headers, name: string): Option<string> {
    if name in headers then Some(headers[name]) else None
  }

  /** A header value JavaScript treats as true: present and not empty. */
  predicate Truthy(v: Option<string>) {
    v.Some? && v.value != ""
  }

  predicate HasRateLimitHeaders(headers: Headers) {
    && Truthy(HeaderValue(headers, "x-ratelimit-limit"))
    && Truthy(HeaderValue(headers, "x-ratelimit-remaining"))
    && Truthy(HeaderValue(headers, "x-ratelimit-reset"))
  }

  /** The snapshot after `updateRateLimit(headers)`. */
  function ObserveRateLimit(prior: Option<RateLimitInfo>, headers: Headers): Option<RateLimitInfo> {
    var limit := HeaderValue(headers, "x-ratelimit-limit");
    var remaining := HeaderValue(headers, "x-ratelimit-remaining");
    var reset := HeaderValue(headers, "x-ratelimit-reset");
    if Truthy(limit) && Truthy(remaining) && Truthy(reset) then
      Some(RateLimitInfo(ParseInt(limit.value), ParseInt(remaining.value), ParseInt(reset.value)))
    else prior
  }

  /** The snapshot after an exchange: only a received response carries headers. */
  function ObserveExchange<B>(prior: Option<RateLimitInfo>, x: Exchange<B>): Option<RateLimitInfo> {
    match x
    case Received(response) => ObserveRateLimit(prior, response.headers)
    case NetworkFailure => prior
  }

  /** The status checks that fetchUser and fetchRepositories share, in their order. */
  function CheckStatus<B>(response: Response<B>, notFound: string, failed: string): Result<B, FetchError> {
    if response.status == 404 then Err(NotFound(notFound))
    else if response.status == 403 then
      var reset := HeaderValue(response.headers, "x-ratelimit-reset");
      Err(RateLimitExceeded(if Truthy(reset) then Some(ParseInt(reset.value)) else None))
    else if !(200 <= response.status <= 299) then Err(RequestFailed(failed))
    else match response.body
      case None => Err(InvalidJson)
      case Some(body) => Ok(body)
  }

  /** `linkHeader?.includes('rel="next"') ?? false`. */
  predicate HasNextLink(headers: Headers) {
    var link := HeaderValue(headers, "link");
    link.Some? && Includes(link.value, "rel=\"next\"")
  }

  /** What fetchUser returns or throws for one exchange. */
  function ClassifyUser(x: Exchange<User>): Result<User, FetchError> {
    match x
    case NetworkFailure => Err(NetworkError)
    case Received(response) => CheckStatus(response, UserNotFoundMessage, UserFailedMessage)
  }

  /** What fetchRepositories returns or throws for one exchange. */
  function ClassifyRepos(x: Exchange<seq<Repository>>): Result<RepoPage, FetchError> {
    match x
    case NetworkFailure => Err(NetworkError)
    case Received(response) =>
      match CheckStatus(response, ReposNotFoundMessage, ReposFailedMessage)
      case Err(e) => Err(e)
      case Ok(repos) => Ok(RepoPage(repos, HasNextLink(response.headers)))
  }

  /**
   * The snapshot is replaced, by the three headers read as decimal
   * integers, exactly when all three are present and non-empty; otherwise
   * the previous one stays.
   */
  lemma RateLimitRule(prior: Option<RateLimitInfo>, headers: Headers)
    ensures HasRateLimitHeaders(headers) ==>
              ObserveRateLimit(prior, headers)
              == Some(RateLimitInfo(ParseInt(headers["x-ratelimit-limit"]),
                                    ParseInt(headers["x-ratelimit-remaining"]),
                                    ParseInt(headers["x-ratelimit-reset"])))
    ensures !HasRateLimitHeaders(headers) ==> ObserveRateLimit(prior, headers) == prior
  {
  }

  /** The snapshot keeps the numbers the server sent: decimal header values read back exactly. */
  lemma RateLimitReadsDecimalHeaders(prior: Option<RateLimitInfo>, headers: Headers, limit: nat, remaining: nat, reset: nat)
    requires "x-ratelimit-limit" in headers && headers["x-ratelimit-limit"] == DecimalText(limit)
    requires "x-ratelimit-remaining" in headers && headers["x-ratelimit-remaining"] == DecimalText(remaining)
    requires "x-ratelimit-reset" in headers && headers["x-ratelimit-reset"] == DecimalText(reset)
    ensures ObserveRateLimit(prior, headers) == Some(RateLimitInfo(Int(limit), Int(remaining), Int(reset)))
  {
    ParseIntOfDecimalText(limit, "");
    ParseIntOfDecimalText(remaining, "");
    ParseIntOfDecimalText(reset, "");
    NatTextDigits(limit);
    NatTextDigits(remaining);
    NatTextDigits(reset);
    assert DecimalText(limit) + "" == DecimalText(limit);
    assert DecimalText(remaining) + "" == DecimalText(remaining);
    assert DecimalText(reset) + "" == DecimalText(reset);
  }

  // ------------------------------------------------ the status policy

  /** The error taxonomy of a status code, independent of either fetcher. */
  datatype StatusClass = Missing | Throttled | Failing | Successful

  function ClassOf(status: int): StatusClass {
    if status == 404 then Missing
    else if status == 403 then Throttled
    else if 200 <= status <= 299 then Successful
    else Failing
  }

  /** The class of error a result falls in, if any. */
  function ResultClass<T>(r: Result<T, FetchError>): Option<StatusClass> {
    match r
    case Ok(_) => None
    case Err(NotFound(_)) => Some(Missing)
    case Err(RateLimitExceeded(_)) => Some(Throttled)
    case Err(RequestFailed(_)) => Some(Failing)
    case Err(_) => Some(Successful)
  }

  /**
   * Both fetchers map a status to the same kind of error: 404 to not-found,
   * 403 to rate-limited (with a reset time exactly when the header has one),
   * any other status outside 200-299 to a generic failure; a 2xx response
   * yields its body, and for a page `hasMore` exactly when the `link` header
   * contains `rel="next"`.
   */
  lemma StatusPolicy(u: Response<User>, p: Response<seq<Repository>>)
    ensures var r := ClassifyUser(Received(u));
            && (r.Ok? <==> ClassOf(u.status) == Successful && u.body.Some?)
            && (r.Err? ==> ResultClass(r) == Some(ClassOf(u.status)))
            && (r.Ok? ==> r.value == u.body.value)
            && (u.status == 403 ==> (r.error.resetAt.Some? <==> Truthy(HeaderValue(u.headers, "x-ratelimit-reset"))))
    ensures var r := ClassifyRepos(Received(p));
            && (r.Ok? <==> ClassOf(p.status) == Successful && p.body.Some?)
            && (r.Err? ==> ResultClass(r) == Some(ClassOf(p.status)))
            && (r.Ok? ==> r.value.repos == p.body.value)
            && (r.Ok? ==> (r.value.hasMore <==> "link" in p.headers && exists i :: OccursAt(p.headers["link"], "rel=\"next\"", i)))
            && (p.status == 403 ==> (r.error.resetAt.Some? <==> Truthy(HeaderValue(p.headers, "x-ratelimit-reset"))))
  {
    if "link" in p.headers {
      IncludesSpec(p.headers["link"], "rel=\"next\"");
    }
  }

  // ------------------------------------------- the walk over the pages

  /** The server as the hook sees it for repository pages. */
  type RepoServer = Request -> Exchange<seq<Repository>>

  function PageRequest(username: string, page: int): Request {
    ReposRequest(username, page, PerPage)
  }

  function PageResult(server: RepoServer, username: string, page: int): Result<RepoPage, FetchError> {
    ClassifyRepos(server(PageRequest(username, page)))
  }

  /** Page `page` arrives and announces a successor. */
  predicate Continues(server: RepoServer, username: string, page: int) {
    var r := PageResult(server, username, page);
    r.Ok? && r.value.hasMore
  }

  /** Where a walk that has reached `page` stops: at the first page that fails or has no successor, or at the last page allowed. */
  function StopFrom(server: RepoServer, username: string, page: int): (k: int)
    requires 1 <= page <= MaxPages
    ensures page <= k <= MaxPages
    decreases MaxPages - page
  {
    if page == MaxPages || !Continues(server, username, page) then page
    else StopFrom(server, username, page + 1)
  }

  /** The last page fetchAllRepositories requests. */
  function LastPage(server: RepoServer, username: string): int {
    StopFrom(server, username, 1)
  }

  /** The requests for pages 1 to n, in order. */
  function PageRequests(username: string, n: nat): seq<Request> {
    if n == 0 then [] else PageRequests(username, n - 1) + [PageRequest(username, n)]
  }

  /** The repositories of pages 1 to n, page after page. */
  function ItemsThrough(server: RepoServer, username: string, n: nat): seq<Repository> {
    if n == 0 then []
    else
      var r := PageResult(server, username, n);
      ItemsThrough(server, username, n - 1) + (if r.Ok? then r.value.repos else [])
  }

  /** The rate-limit snapshot after the responses to pages 1 to n. */
  function RateLimitThrough(prior: Option<RateLimitInfo>, server: RepoServer, username: string, n: nat): Option<RateLimitInfo> {
    if n == 0 then prior
    else ObserveExchange(RateLimitThrough(prior, server, username, n - 1), server(PageRequest(username, n)))
  }

  /** The reference outcome of fetchAllRepositories: the error of the last page requested, or every repository up to it. */
  function CollectAll(server: RepoServer, username: string): Result<seq<Repository>, FetchError> {
    var last := PageResult(server, username, LastPage(server, username));
    if last.Err? then Err(last.error) else Ok(ItemsThrough(server, username, LastPage(server, username)))
  }

  lemma {:induction false} StopFromFacts(server: RepoServer, username: string, page: int)
    requires 1 <= page <= MaxPages
    ensures var k := StopFrom(server, username, page);
            && (forall p :: page <= p < k ==> Continues(server, username, p))
            && (k == MaxPages || !Continues(server, username, k))
    decreases MaxPages - page
  {
    if page < MaxPages && Continues(server, username, page) {
      StopFromFacts(server, username, page + 1);
    }
  }

  /**
   * The walk stops at the first page that fails or announces no successor,
   * and never goes beyond the tenth: every page before the last one
   * requested arrived with a successor.
   */
  lemma LastPageFacts(server: RepoServer, username: string)
    ensures var k := LastPage(server, username);
            && 1 <= k <= MaxPages
            && (forall p :: 1 <= p < k ==> Continues(server, username, p))
            && (k == MaxPages || !Continues(server, username, k))
  {
    StopFromFacts(server, username, 1);
  }

  /** Conversely, the first page that stops the walk is the last one requested. */
  lemma LastPageIsFirstStop(server: RepoServer, username: string, q: int)
    requires 1 <= q <= MaxPages
    requires forall p :: 1 <= p < q ==> Continues(server, username, p)
    requires q == MaxPages || !Continues(server, username, q)
    ensures LastPage(server, username) == q
  {
    LastPageFacts(server, username);
    var k := LastPage(server, username);
    assert k < q ==> Continues(server, username, k);
    assert q < k ==> Continues(server, username, q);
  }

  /** The first failing page decides the outcome: the repositories already collected are dropped. */
  lemma FirstFailureWins(server: RepoServer, username: string, q: int)
    requires 1 <= q <= MaxPages
    requires forall p :: 1 <= p < q ==> Continues(server, username, p)
    requires PageResult(server, username, q).Err?
    ensures CollectAll(server, username) == Err(PageResult(server, username, q).error)
  {
    LastPageIsFirstStop(server, username, q);
  }

  /** A successful walk got every page it asked for. */
  lemma CollectedPagesSucceeded(server: RepoServer, username: string)
    requires CollectAll(server, username).Ok?
    ensures forall p :: 1 <= p <= LastPage(server, username) ==> PageResult(server, username, p).Ok?
  {
    LastPageFacts(server, username);
    var k := LastPage(server, username);
    forall p | 1 <= p <= k
      ensures PageResult(server, username, p).Ok?
    {
      assert p < k ==> Continues(server, username, p);
    }
  }

  /** When every one of the first ten pages announces a successor, the walk stops after the tenth and the rest are silently dropped. */
  lemma TruncatesAfterTenPages(server: RepoServer, username: string)
    requires forall p :: 1 <= p <= MaxPages ==> Continues(server, username, p)
    ensures LastPage(server, username) == MaxPages
    ensures CollectAll(server, username) == Ok(ItemsThrough(server, username, MaxPages))
  {
    LastPageIsFirstStop(server, username, MaxPages);
    assert Continues(server, username, MaxPages);
  }

  /** What the walk learns from the answer to page `page`, up to and including the last page. */
  lemma WalkStep(server: RepoServer, username: string, page: int)
    requires 1 <= page <= LastPage(server, username)
    ensures var r := PageResult(server, username, page);
            var k := LastPage(server, username);
            && (page < k ==> r.Ok? && r.value.hasMore && page < MaxPages)
            && (page == k && r.Err? ==> CollectAll(server, username) == Err(r.error))
            && (page == k && r.Ok? ==> CollectAll(server, username) == Ok(ItemsThrough(server, username, k)))
            && (page == k && r.Ok? && r.value.hasMore ==> page == MaxPages)
  {
    LastPageFacts(server, username);
  }

  /** The pages are requested one by one from the first, a hundred repositories at a time, at most ten of them. */
  lemma {:induction false} PageRequestsInOrder(username: string, n: nat)
    ensures |PageRequests(username, n)| == n
    ensures forall i :: 0 <= i < n ==> PageRequests(username, n)[i] == ReposRequest(username, i + 1, PerPage)
  {
    if n > 0 {
      PageRequestsInOrder(username, n - 1);
    }
  }

  lemma AtMostTenRequests(server: RepoServer, username: string)
    ensures |PageRequests(username, LastPage(server, username))| <= MaxPages
  {
    LastPageFacts(server, username);
    PageRequestsInOrder(username, LastPage(server, username));
  }

  // ------------------------------------------------------ the hook's state

  class GitHubHook {
    var loading: bool
    var error: Option<FetchError>
    var rateLimit: Option<RateLimitInfo>
    /** Every request issued so far, oldest first. */
    ghost var requests: seq<Request>

    constructor()
      ensures !loading && error == None && rateLimit == None && requests == []
    {
      loading := false;
      error := None;
      rateLimit := None;
      requests := [];
    }

    /** `updateRateLimit`: replaces the snapshot only when all three headers are non-empty. */
    method UpdateRateLimit(headers: Headers)
      modifies this`rateLimit
      ensures rateLimit == ObserveRateLimit(old(rateLimit), headers)
    {
      var limit := HeaderValue(headers, "x-ratelimit-limit");
      var remaining := HeaderValue(headers, "x-ratelimit-remaining");
      var reset := HeaderValue(headers, "x-ratelimit-reset");
      if Truthy(limit) && Truthy(remaining) && Truthy(reset) {
        rateLimit := Some(RateLimitInfo(ParseInt(limit.value), ParseInt(remaining.value), ParseInt(reset.value)));
      }
    }

    /** `fetchUser`: one request; the rate limit is observed before the status is examined. */
    method FetchUser(username: string, server: Request -> Exchange<User>) returns (r: Result<User, FetchError>)
      modifies this`rateLimit, this`requests
      ensures requests == old(requests) + [UserRequest(username)]
      ensures rateLimit == ObserveExchange(old(rateLimit), server(UserRequest(username)))
      ensures r == ClassifyUser(server(UserRequest(username)))
    {
      var request := UserRequest(username);
      requests := requests + [request];
      var exchange := server(request);
      match exchange {
        case NetworkFailure =>
          r := Err(NetworkError);
        case Received(response) =>
          UpdateRateLimit(response.headers);
          r := CheckStatus(response, UserNotFoundMessage, UserFailedMessage);
      }
    }

    /** `fetchRepositories`: one page of repositories and whether another follows. */
    method FetchRepositories(username: string, page: int, perPage: int, server: RepoServer)
      returns (r: Result<RepoPage, FetchError>)
      modifies this`rateLimit, this`requests
      ensures requests == old(requests) + [ReposRequest(username, page, perPage)]
      ensures rateLimit == ObserveExchange(old(rateLimit), server(ReposRequest(username, page, perPage)))
      ensures r == ClassifyRepos(server(ReposRequest(username, page, perPage)))
    {
      var request := ReposRequest(username, page, perPage);
      requests := requests + [request];
      var exchange := server(request);
      match exchange {
        case NetworkFailure =>
          r := Err(NetworkError);
        case Received(response) =>
          UpdateRateLimit(response.headers);
          var checked := CheckStatus(response, ReposNotFoundMessage, ReposFailedMessage);
          match checked {
            case Err(e) => r := Err(e);
            case Ok(repos) => r := Ok(RepoPage(repos, HasNextLink(response.headers)));
          }
      }
    }

    /**
     * `fetchAllRepositories`: requests pages 1, 2, ... of a hundred until one
     * has no successor or ten have been fetched; the first failure is
     * recorded in `error` and returned instead of the repositories.
     */
    method FetchAllRepositories(username: string, server: RepoServer) returns (r: Result<seq<Repository>, FetchError>)
      modifies this
      ensures r == CollectAll(server, username)
      ensures requests == old(requests) + PageRequests(username, LastPage(server, username))
      ensures rateLimit == RateLimitThrough(old(rateLimit), server, username, LastPage(server, username))
      ensures !loading
      ensures error == (if r.Err? then Some(r.error) else None)
    {
      loading := true;
      error := None;
      r := CollectPages(username, server);
      if r.Err? {
        error := Some(r.error);
      }
      loading := false;
    }

    /** One turn of the loop in fetchAllRepositories: page `page` is fetched after pages 1 to page - 1. */
    method FetchPage(username: string, page: nat, server: RepoServer, ghost prior: Option<RateLimitInfo>, ghost before: seq<Request>)
      returns (r: Result<RepoPage, FetchError>)
      requires 1 <= page
      requires requests == before + PageRequests(username, page - 1)
      requires rateLimit == RateLimitThrough(prior, server, username, page - 1)
      modifies this`rateLimit, this`requests
      ensures r == PageResult(server, username, page)
      ensures requests == before + PageRequests(username, page)
      ensures rateLimit == RateLimitThrough(prior, server, username, page)
    {
      r := FetchRepositories(username, page, PerPage, server);
    }

    /** The body of fetchAllRepositories' `try`: the loop over the pages. */
    method CollectPages(username: string, server: RepoServer) returns (r: Result<seq<Repository>, FetchError>)
      modifies this`rateLimit, this`requests
      ensures r == CollectAll(server, username)
      ensures requests == old(requests) + PageRequests(username, LastPage(server, username))
      ensures rateLimit == RateLimitThrough(old(rateLimit), server, username, LastPage(server, username))
    {
      ghost var k := LastPage(server, username);
      LastPageFacts(server, username);
      var all: seq<Repository> := [];
      var page := 1;
      var hasMore := true;
      while hasMore
        invariant 1 <= page <= k + 1
        invariant hasMore ==> page <= k
        invariant !hasMore ==> page == k + 1
        invariant all == ItemsThrough(server, username, page - 1)
        invariant requests == old(requests) + PageRequests(username, page - 1)
        invariant rateLimit == RateLimitThrough(old(rateLimit), server, username, page - 1)
        invariant page == k + 1 ==> PageResult(server, username, k).Ok?
        decreases k + 1 - page
      {
        var result := FetchPage(username, page, server, old(rateLimit), old(requests));
        WalkStep(server, username, page);
        if result.Err? {
          return Err(result.error);
        }
        assert all + result.value.repos == ItemsThrough(server, username, page);
        all := all + result.value.repos;
        hasMore := result.value.hasMore;
        page := page + 1;
        if page > MaxPages {
          break;
        }
      }
      r := Ok(all);
    }
  }
}
