/**
 * The values src/pages/Index.tsx derives from the fetched repositories: the
 * language list, the filtered and sorted list, the page of twelve shown, the
 * page count and the window of page numbers.
 */
module RepoView {
  import opened Wrappers
  import opened GitHubTypes
  import opened Text
  import Sorting

  const ReposPerPage := 12

  // ------------------------------------------------------------ the filters

  /** `Array.prototype.filter`: the elements `keep` accepts, in their order. */
  function Filter<T>(s: seq<T>, keep: T -> bool): seq<T> {
    if s == [] then [] else (if keep(s[0]) then [s[0]] else []) + Filter(s[1..], keep)
  }

  /** Filtering keeps every accepted element as often as it occurs, and nothing else. */
  lemma {:induction false} FilterSpec<T>(s: seq<T>, keep: T -> bool)
    ensures forall x :: multiset(Filter(s, keep))[x] == if keep(x) then multiset(s)[x] else 0
  {
    if s != [] {
      FilterSpec(s[1..], keep);
      assert s == [s[0]] + s[1..];
      var head := if keep(s[0]) then [s[0]] else [];
      assert multiset(Filter(s, keep)) == multiset(head) + multiset(Filter(s[1..], keep));
    }
  }

  /** The search test of one repository against the lowercased term. */
  predicate MatchesSearch(repo: Repository, term: string) {
    || Includes(Lower(repo.name), term)
    || (repo.description.Some? && Includes(Lower(repo.description.value), term))
    || exists k :: 0 <= k < |repo.topics| && Includes(Lower(repo.topics[k]), term)
  }

  /** The search filter, which an empty search term switches off. */
  function SearchFiltered(repos: seq<Repository>, search: string): seq<Repository> {
    if search == [] then repos
    else
      var term := Lower(search);
      Filter(repos, repo => MatchesSearch(repo, term))
  }

  /** The language filter, which an empty selection and "all" switch off. */
  function LanguageFiltered(repos: seq<Repository>, language: string): seq<Repository> {
    if language == [] || language == "all" then repos
    else Filter(repos, (repo: Repository) => repo.language == Some(language))
  }

  /** Both filters, as one predicate on a repository. */
  predicate PassesFilters(repo: Repository, filters: FilterState) {
    && (filters.search == [] || MatchesSearch(repo, Lower(filters.search)))
    && (filters.language == [] || filters.language == "all" || repo.language == Some(filters.language))
  }

  /** The repositories that pass both filters, in their fetched order. */
  function Passing(repos: seq<Repository>, filters: FilterState): seq<Repository> {
    LanguageFiltered(SearchFiltered(repos, filters.search), filters.language)
  }

  lemma PassingSpec(repos: seq<Repository>, filters: FilterState)
    ensures forall x :: multiset(Passing(repos, filters))[x] == if PassesFilters(x, filters) then multiset(repos)[x] else 0
  {
    var searched := SearchFiltered(repos, filters.search);
    if filters.search != [] {
      var term := Lower(filters.search);
      FilterSpec(repos, repo => MatchesSearch(repo, term));
    }
    if !(filters.language == [] || filters.language == "all") {
      FilterSpec(searched, (repo: Repository) => repo.language == Some(filters.language));
    }
  }

  /** Filtering a filtered list again changes nothing. */
  lemma {:induction false} FilterIdempotent<T>(s: seq<T>, keep: T -> bool)
    ensures Filter(Filter(s, keep), keep) == Filter(s, keep)
  {
    if s != [] {
      var t := s[1..];
      FilterIdempotent(t, keep);
      if keep(s[0]) {
        assert Filter(s, keep) == [s[0]] + Filter(t, keep);
        FilterCons(s[0], Filter(t, keep), keep);
      } else {
        assert Filter(s, keep) == Filter(t, keep);
      }
    }
  }

  /** Two filters give the same list in either order. */
  lemma {:induction false} FilterCommutes<T>(s: seq<T>, a: T -> bool, b: T -> bool)
    ensures Filter(Filter(s, a), b) == Filter(Filter(s, b), a)
  {
    if s != [] {
      var x, t := s[0], s[1..];
      assert s == [x] + t;
      FilterCommutes(t, a, b);
      FilterThen(x, t, a, b);
      FilterThen(x, t, b, a);
    }
  }

  /** Filtering by `a`, then by `b`, a list that starts with `x`. */
  lemma FilterThen<T>(x: T, t: seq<T>, a: T -> bool, b: T -> bool)
    ensures Filter(Filter([x] + t, a), b)
            == (if a(x) && b(x) then [x] else []) + Filter(Filter(t, a), b)
  {
    FilterCons(x, t, a);
    if a(x) {
      FilterCons(x, Filter(t, a), b);
    } else {
      assert Filter([x] + t, a) == Filter(t, a);
    }
  }

  lemma FilterCons<T>(x: T, s: seq<T>, keep: T -> bool)
    ensures Filter([x] + s, keep) == (if keep(x) then [x] else []) + Filter(s, keep)
  {
    assert ([x] + s)[1..] == s;
  }

  /** Filtering keeps order: the ties of `x` in a filtered list are the filtered ties of `x`. */
  lemma {:induction false} FilterEquivalents<T>(s: seq<T>, keep: T -> bool, x: T, cmp: (T, T) -> int)
    ensures Sorting.Equivalents(Filter(s, keep), x, cmp) == Filter(Sorting.Equivalents(s, x, cmp), keep)
  {
    if s != [] {
      var h, t := s[0], s[1..];
      FilterEquivalents(t, keep, x, cmp);
      if keep(h) {
        assert Filter(s, keep) == [h] + Filter(t, keep);
        Sorting.EquivalentsCons(h, Filter(t, keep), x, cmp);
      } else {
        assert Filter(s, keep) == Filter(t, keep);
      }
      if cmp(x, h) == 0 {
        assert Sorting.Equivalents(s, x, cmp) == [h] + Sorting.Equivalents(t, x, cmp);
        FilterCons(h, Sorting.Equivalents(t, x, cmp), keep);
      } else {
        assert Sorting.Equivalents(s, x, cmp) == Sorting.Equivalents(t, x, cmp);
      }
    }
  }

  /** The ties of `x` among the passing repositories are the passing ties of `x`, in fetched order. */
  lemma PassingEquivalents(repos: seq<Repository>, filters: FilterState, x: Repository, cmp: (Repository, Repository) -> int)
    ensures Sorting.Equivalents(Passing(repos, filters), x, cmp) == Passing(Sorting.Equivalents(repos, x, cmp), filters)
  {
    var searched := SearchFiltered(repos, filters.search);
    if filters.search != [] {
      var term := Lower(filters.search);
      FilterEquivalents(repos, repo => MatchesSearch(repo, term), x, cmp);
    }
    if !(filters.language == [] || filters.language == "all") {
      FilterEquivalents(searched, (repo: Repository) => repo.language == Some(filters.language), x, cmp);
    }
  }

  /** Applying the same filters to their own output yields it unchanged. */
  lemma PassingIdempotent(repos: seq<Repository>, filters: FilterState)
    ensures Passing(Passing(repos, filters), filters) == Passing(repos, filters)
  {
    var search := filters.search;
    var language := filters.language;
    var searched := SearchFiltered(repos, search);
    if search != [] {
      var term := Lower(search);
      var bySearch := repo => MatchesSearch(repo, term);
      FilterIdempotent(repos, bySearch);
      if !(language == [] || language == "all") {
        var byLanguage := (repo: Repository) => repo.language == Some(language);
        FilterCommutes(Filter(searched, byLanguage), bySearch, byLanguage);
        FilterCommutes(searched, bySearch, byLanguage);
        FilterIdempotent(searched, byLanguage);
      }
    } else if !(language == [] || language == "all") {
      FilterIdempotent(repos, (repo: Repository) => repo.language == Some(language));
    }
  }

  // ---------------------------------------------------------------- sorting

  /**
   * The comparison of one sort key: stars and the two instants are
   * subtracted, names go to `collate` (the platform's `localeCompare`).
   */
  function KeyCompare(sortBy: SortOption, a: Repository, b: Repository, collate: (string, string) -> int): int {
    match sortBy
    case Stars => a.stars - b.stars
    case Updated => a.updatedAt - b.updatedAt
    case Created => a.createdAt - b.createdAt
    case Name => collate(a.name, b.name)
  }

  /** The comparator handed to `sort`; descending only negates the key comparison. */
  function Comparator(filters: FilterState, collate: (string, string) -> int): (Repository, Repository) -> int {
    (a, b) =>
      var c := KeyCompare(filters.sortBy, a, b, collate);
      if filters.sortDirection == Desc then -c else c
  }

  /** `filteredAndSortedRepos`: a copy of the repositories, filtered, then sorted stably. */
  function FilteredAndSorted(repos: seq<Repository>, filters: FilterState, collate: (string, string) -> int): seq<Repository> {
    Sorting.Sort(Passing(repos, filters), Comparator(filters, collate))
  }

  /** With a consistent `collate`, every sort key and both directions give a consistent comparator. */
  lemma ComparatorConsistent(filters: FilterState, collate: (string, string) -> int)
    requires Sorting.Consistent(collate)
    ensures Sorting.Consistent(Comparator(filters, collate))
  {
    var cmp := Comparator(filters, collate);
    forall a, b
      ensures KeyCompare(filters.sortBy, a, b, collate) < 0 <==> KeyCompare(filters.sortBy, b, a, collate) > 0
    {
    }
    forall a, b
      ensures cmp(a, b) < 0 <==> cmp(b, a) > 0
    {
    }
    forall a, b, c | cmp(a, b) <= 0 && cmp(b, c) <= 0
      ensures cmp(a, c) <= 0
    {
      if filters.sortDirection == Desc {
        assert KeyCompare(filters.sortBy, c, b, collate) <= 0;
        assert KeyCompare(filters.sortBy, b, a, collate) <= 0;
        assert KeyCompare(filters.sortBy, c, a, collate) <= 0;
      }
    }
  }

  /**
   * The list shown holds exactly the repositories that pass both filters,
   * each as often as it was fetched.
   */
  lemma FilteredAndSortedIsPermutation(repos: seq<Repository>, filters: FilterState, collate: (string, string) -> int)
    ensures forall x :: multiset(FilteredAndSorted(repos, filters, collate))[x]
                        == if PassesFilters(x, filters) then multiset(repos)[x] else 0
  {
    Sorting.SortPermutation(Passing(repos, filters), Comparator(filters, collate));
    PassingSpec(repos, filters);
  }

  /**
   * The list shown is non-decreasing in the chosen key when ascending and
   * non-increasing when descending.
   */
  lemma FilteredAndSortedIsOrdered(repos: seq<Repository>, filters: FilterState, collate: (string, string) -> int)
    requires Sorting.Consistent(collate)
    ensures var r := FilteredAndSorted(repos, filters, collate);
            forall i, j :: 0 <= i < j < |r| ==>
              if filters.sortDirection == Asc then KeyCompare(filters.sortBy, r[i], r[j], collate) <= 0
              else KeyCompare(filters.sortBy, r[i], r[j], collate) >= 0
  {
    ComparatorConsistent(filters, collate);
    Sorting.SortSorted(Passing(repos, filters), Comparator(filters, collate));
  }

  /**
   * Repositories with equal keys keep their fetched order: the ties of `x`
   * shown are the ties of `x` among the fetched repositories, in fetched
   * order, less those the filters drop.
   */
  lemma FilteredAndSortedKeepsTies(repos: seq<Repository>, filters: FilterState, collate: (string, string) -> int, x: Repository)
    requires Sorting.Consistent(collate)
    ensures var cmp := Comparator(filters, collate);
            Sorting.Equivalents(FilteredAndSorted(repos, filters, collate), x, cmp)
            == Passing(Sorting.Equivalents(repos, x, cmp), filters)
  {
    ComparatorConsistent(filters, collate);
    Sorting.SortStable(Passing(repos, filters), x, Comparator(filters, collate));
    PassingEquivalents(repos, filters, x, Comparator(filters, collate));
  }

  /** The ties of a sort key are the same in both directions. */
  lemma {:induction false} TiesIgnoreDirection(s: seq<Repository>, x: Repository, filters: FilterState, collate: (string, string) -> int)
    ensures Sorting.Equivalents(s, x, Comparator(filters.(sortDirection := Asc), collate))
            == Sorting.Equivalents(s, x, Comparator(filters.(sortDirection := Desc), collate))
  {
    if s != [] {
      TiesIgnoreDirection(s[1..], x, filters, collate);
    }
  }

  /** Two repositories that differ only in their id. */
  const TieA := Repository(1, "a", "o/a", None, "", None, 5, 0, 0, 0, 0, 0, 0, 0, "main", [], false, false, "public", None)
  const TieB := TieA.(id := 2)

  /**
   * Descending is not the reverse of ascending: two repositories with the
   * same number of stars come out in their fetched order either way.
   */
  lemma DescendingIsNotReversedAscending(collate: (string, string) -> int)
    ensures FilteredAndSorted([TieA, TieB], DefaultFilters, collate) == [TieA, TieB]
    ensures FilteredAndSorted([TieA, TieB], DefaultFilters.(sortDirection := Asc), collate) == [TieA, TieB]
  {
    var s := [TieA, TieB];
    assert s[1..] == [TieB];
    forall filters | filters == DefaultFilters || filters == DefaultFilters.(sortDirection := Asc)
      ensures FilteredAndSorted(s, filters, collate) == s
    {
      var cmp := Comparator(filters, collate);
      assert Passing(s, filters) == s;
      assert Sorting.Sort([TieB], cmp) == [TieB];
      assert cmp(TieA, TieB) == 0;
    }
  }

  /** A repository whose description mentions React in lowercase. */
  const ReactApp := TieA.(name := "app", description := Some("a react app"))

  /** The search is case-insensitive: the term "REACT" finds the description "a react app". */
  lemma SearchIgnoresCaseExample()
    ensures PassesFilters(ReactApp, DefaultFilters.(search := "REACT"))
    ensures Passing([ReactApp, TieA], DefaultFilters.(search := "REACT")) == [ReactApp]
  {
    assert Lower("REACT") == "react";
    assert Lower("a react app") == "a react app";
    assert OccursAt("a react app", "react", 2);
    IncludesSpec("a react app", "react");
    assert !Includes(Lower("a"), "react");
    assert !Includes(Lower("app"), "react");
    var keep := repo => MatchesSearch(repo, Lower("REACT"));
    assert MatchesSearch(ReactApp, "react") && !MatchesSearch(TieA, "react");
    FilterCons(ReactApp, [TieA], keep);
    FilterCons(TieA, [], keep);
  }

  /** Only the lowercased search term matters: "REACT", "React" and "react" filter alike. */
  lemma SearchIgnoresTermCase(repos: seq<Repository>, filters: FilterState, search: string)
    requires search != [] && filters.search != [] && Lower(search) == Lower(filters.search)
    ensures Passing(repos, filters.(search := search)) == Passing(repos, filters)
  {
  }

  // ------------------------------------------------------------- the pages

  /** An index argument of `Array.prototype.slice`: negative counts from the end, then clamped to the length. */
  function RelativeIndex(k: int, n: nat): (r: nat)
    ensures r <= n
  {
    if k < 0 then (if n + k < 0 then 0 else n + k)
    else if k > n then n else k
  }

  /** `s.slice(start, end)`. */
  function Slice<T>(s: seq<T>, start: int, end: int): seq<T> {
    var from := RelativeIndex(start, |s|);
    var to := RelativeIndex(end, |s|);
    if from < to then s[from..to] else []
  }

  function Min(a: int, b: int): int {
    if a < b then a else b
  }

  /** `paginatedRepos`: the twelve repositories of page `page`. */
  function PageOf<T>(list: seq<T>, page: int): seq<T> {
    var start := (page - 1) * ReposPerPage;
    Slice(list, start, start + ReposPerPage)
  }

  /** `totalPages`: `Math.ceil(n / 12)`. */
  function TotalPages(n: nat): nat {
    (n + ReposPerPage - 1) / ReposPerPage
  }

  /** TotalPages is the ceiling of n / 12: the fewest pages of twelve that hold n items, so 0 for none. */
  lemma TotalPagesIsCeiling(n: nat)
    ensures var t := TotalPages(n);
            && n <= t * ReposPerPage
            && (t == 0 || (t - 1) * ReposPerPage < n)
            && (t == 0 <==> n == 0)
  {
  }

  /** Page p (from 1) holds the items from (p - 1) * 12 up to p * 12, cut at the end of the list. */
  lemma PageBounds<T>(list: seq<T>, page: int)
    requires 1 <= page
    ensures var start := (page - 1) * ReposPerPage;
            && PageOf(list, page) == list[Min(start, |list|)..Min(start + ReposPerPage, |list|)]
            && |PageOf(list, page)| <= ReposPerPage
            && (PageOf(list, page) == [] <==> |list| <= start)
  {
  }

  /** Pages 1 to n, one after the other. */
  function PagesThrough<T>(list: seq<T>, n: nat): seq<T> {
    if n == 0 then [] else PagesThrough(list, n - 1) + PageOf(list, n)
  }

  lemma {:induction false} PagesThroughPrefix<T>(list: seq<T>, n: nat)
    ensures PagesThrough(list, n) == list[..Min(n * ReposPerPage, |list|)]
  {
    if n > 0 {
      PagesThroughPrefix(list, n - 1);
      PageBounds(list, n);
      var a := Min((n - 1) * ReposPerPage, |list|);
      var b := Min(n * ReposPerPage, |list|);
      assert list[..a] + list[a..b] == list[..b];
    }
  }

  /** Pages 1 to totalPages, concatenated, give back the whole list. */
  lemma PagesCoverList<T>(list: seq<T>)
    ensures PagesThrough(list, TotalPages(|list|)) == list
  {
    PagesThroughPrefix(list, TotalPages(|list|));
    TotalPagesIsCeiling(|list|);
  }

  /** The page numbers offered: at most five consecutive ones around the current page. */
  function PageWindow(current: int, total: nat): seq<int> {
    seq(Min(5, total), i =>
      if total <= 5 then i + 1
      else if current <= 3 then i + 1
      else if current >= total - 2 then total - 4 + i
      else current - 2 + i)
  }

  /**
   * The window holds min(5, totalPages) consecutive increasing page numbers,
   * all of them pages that exist, and the current page whenever it exists.
   */
  lemma PageWindowSpec(current: int, total: nat)
    ensures var w := PageWindow(current, total);
            && |w| == Min(5, total)
            && (forall i :: 0 <= i < |w| ==> 1 <= w[i] <= total)
            && (forall i :: 0 < i < |w| ==> w[i] == w[i - 1] + 1)
            && (1 <= current <= total ==> current in w)
  {
    var w := PageWindow(current, total);
    if 1 <= current <= total {
      var i := if total <= 5 || current <= 3 then current - 1
               else if current >= total - 2 then current - total + 4
               else 2;
      assert w[i] == current;
    }
  }

  // ---------------------------------------------------------- the languages

  /** The comparison of `sort()` without a comparator: character by character. */
  function CompareText(a: string, b: string): int {
    if StringLess(a, b) then -1 else if a == b then 0 else 1
  }

  lemma CompareTextConsistent()
    ensures Sorting.Consistent(CompareText)
  {
    forall a, b
      ensures CompareText(a, b) < 0 <==> CompareText(b, a) > 0
    {
      if a != b {
        StringLessTotal(a, b);
      }
      if StringLess(a, b) {
        StringLessAsymmetric(a, b);
      }
    }
    forall a, b, c | CompareText(a, b) <= 0 && CompareText(b, c) <= 0
      ensures CompareText(a, c) <= 0
    {
      if a != b && b != c {
        StringLessTransitive(a, b, c);
      }
    }
  }

  /** The languages a repository contributes: a non-empty one, if it has any. */
  predicate HasLanguage(repo: Repository) {
    repo.language.Some? && repo.language.value != []
  }

  /** Every non-empty language among the repositories. */
  function LanguageSet(repos: seq<Repository>): set<string> {
    set repo | repo in repos && HasLanguage(repo) :: repo.language.value
  }

  predicate Distinct<T(==)>(s: seq<T>) {
    forall i, j :: 0 <= i < j < |s| ==> s[i] != s[j]
  }

  predicate StrictlyIncreasing(s: seq<string>) {
    forall i, j :: 0 <= i < j < |s| ==> StringLess(s[i], s[j])
  }

  /**
   * `languages`: each repository's language goes into a set, which is then
   * sorted. The result lists every language once, in increasing order.
   */
  method Languages(repos: seq<Repository>) returns (r: seq<string>)
    ensures forall x :: x in r <==> x in LanguageSet(repos)
    ensures StrictlyIncreasing(r)
  {
    var langSet: seq<string> := [];
    for i := 0 to |repos|
      invariant forall x :: x in langSet <==> x in LanguageSet(repos[..i])
      invariant Distinct(langSet)
    {
      var repo := repos[i];
      LanguageSetStep(repos, i);
      if HasLanguage(repo) && repo.language.value !in langSet {
        langSet := langSet + [repo.language.value];
      }
    }
    assert repos[..|repos|] == repos;
    r := Sorting.Sort(langSet, CompareText);
    SortedLanguages(langSet);
  }

  /** Sorting a duplicate-free list of languages gives a strictly increasing list of the same languages. */
  lemma SortedLanguages(langSet: seq<string>)
    requires Distinct(langSet)
    ensures var r := Sorting.Sort(langSet, CompareText);
            && (forall x :: x in r <==> x in langSet)
            && StrictlyIncreasing(r)
  {
    var r := Sorting.Sort(langSet, CompareText);
    Sorting.SortPermutation(langSet, CompareText);
    SameMembers(langSet, r);
    PermutationKeepsDistinct(langSet, r);
    SortedDistinctIncreases(langSet);
  }

  lemma SameMembers<T>(a: seq<T>, b: seq<T>)
    requires multiset(a) == multiset(b)
    ensures forall x :: x in a <==> x in b
  {
    forall x
      ensures x in a <==> x in b
    {
      assert x in a <==> x in multiset(a);
      assert x in b <==> x in multiset(b);
    }
  }

  lemma PermutationKeepsDistinct<T>(a: seq<T>, b: seq<T>)
    requires multiset(a) == multiset(b) && Distinct(a)
    ensures Distinct(b)
  {
    DistinctByCount(a);
    DistinctByCount(b);
  }

  lemma SortedDistinctIncreases(langSet: seq<string>)
    requires Distinct(Sorting.Sort(langSet, CompareText))
    ensures StrictlyIncreasing(Sorting.Sort(langSet, CompareText))
  {
    var r := Sorting.Sort(langSet, CompareText);
    CompareTextConsistent();
    Sorting.SortSorted(langSet, CompareText);
    forall i, j | 0 <= i < j < |r|
      ensures StringLess(r[i], r[j])
    {
      assert CompareText(r[i], r[j]) <= 0;
    }
  }

  lemma LanguageSetStep(repos: seq<Repository>, i: int)
    requires 0 <= i < |repos|
    ensures LanguageSet(repos[..i + 1])
            == LanguageSet(repos[..i]) + (if HasLanguage(repos[i]) then {repos[i].language.value} else {})
  {
    assert repos[..i + 1] == repos[..i] + [repos[i]];
  }

  /** A sequence is duplicate-free exactly when no element occurs twice in it. */
  lemma DistinctByCount<T>(s: seq<T>)
    ensures Distinct(s) <==> forall x :: multiset(s)[x] <= 1
  {
    if Distinct(s) {
      DistinctCounts(s);
    } else {
      var i, j :| 0 <= i < j < |s| && s[i] == s[j];
      assert s == s[..j] + s[j..];
      assert s[i] in s[..j];
      assert s[j] in s[j..];
      assert multiset(s)[s[i]] == multiset(s[..j])[s[i]] + multiset(s[j..])[s[i]];
    }
  }

  lemma {:induction false} DistinctCounts<T>(s: seq<T>)
    requires Distinct(s)
    ensures forall x :: multiset(s)[x] <= 1
  {
    if s != [] {
      var t := s[1..];
      assert Distinct(t) by {
        forall i, j | 0 <= i < j < |t|
          ensures t[i] != t[j]
        {
          assert t[i] == s[i + 1] && t[j] == s[j + 1];
        }
      }
      DistinctCounts(t);
      assert s == [s[0]] + t;
      assert s[0] !in t by {
        forall k | 0 <= k < |t|
          ensures t[k] != s[0]
        {
          assert t[k] == s[k + 1];
        }
      }
    }
  }

  /** The sorted language list is determined by the set of languages alone. */
  lemma {:induction false} IncreasingListsAgree(a: seq<string>, b: seq<string>)
    requires StrictlyIncreasing(a) && StrictlyIncreasing(b)
    requires forall x :: x in a <==> x in b
    ensures a == b
  {
    if a != [] && b != [] {
      HeadNotAfter(a, b[0]);
      HeadNotAfter(b, a[0]);
      StringLessTotalOrEqual(a[0], b[0]);
      forall x
        ensures x in a[1..] <==> x in b[1..]
      {
        MemberOfTail(a, x);
        MemberOfTail(b, x);
      }
      IncreasingListsAgree(a[1..], b[1..]);
      assert a == [a[0]] + a[1..] && b == [b[0]] + b[1..];
    } else {
      BothEmpty(a, b);
    }
  }

  lemma BothEmpty(a: seq<string>, b: seq<string>)
    requires forall x :: x in a <==> x in b
    ensures a == [] <==> b == []
  {
    if a != [] {
      assert a[0] in b;
    }
    if b != [] {
      assert b[0] in a;
    }
  }

  /** No member of a strictly increasing list comes before its head. */
  lemma HeadNotAfter(s: seq<string>, x: string)
    requires StrictlyIncreasing(s) && x in s
    ensures !StringLess(x, s[0])
  {
    var k :| 0 <= k < |s| && s[k] == x;
    if k == 0 {
      StringLessIrreflexive(x);
    } else {
      StringLessAsymmetric(s[0], x);
    }
  }

  lemma StringLessTotalOrEqual(a: string, b: string)
    requires !StringLess(a, b) && !StringLess(b, a)
    ensures a == b
  {
    if a != b {
      StringLessTotal(a, b);
    }
  }

  /** In a strictly increasing list, the members after the head are the members other than it. */
  lemma MemberOfTail(s: seq<string>, x: string)
    requires StrictlyIncreasing(s) && s != []
    ensures x in s[1..] <==> x in s && x != s[0]
  {
    if x in s[1..] {
      var k :| 0 <= k < |s| - 1 && s[1..][k] == x;
      assert StringLess(s[0], s[k + 1]);
      StringLessIrreflexive(x);
    }
    if x in s && x != s[0] {
      var k :| 0 <= k < |s| && s[k] == x;
      assert s[1..][k - 1] == x;
    }
  }
}
