/**
 * `Array.prototype.sort` with a comparator, which ECMAScript 2019 and later
 * require to be stable. The model is a stable insertion sort; the lemmas
 * show that its result is sorted, a permutation of the input that keeps the
 * order of equivalent elements, and that these three properties determine it,
 * so any stable sort returns the same sequence.
 */
module Sorting {

  /**
   * A consistent comparator: its sign flips with its arguments and "not
   * after" is transitive (the conditions ECMAScript places on `comparefn`).
   */
  ghost predicate Consistent<T(!new)>(cmp: (T, T) -> int) {
    && (forall a, b :: cmp(a, b) < 0 <==> cmp(b, a) > 0)
    && (forall a, b, c :: cmp(a, b) <= 0 && cmp(b, c) <= 0 ==> cmp(a, c) <= 0)
  }

  /** Each element is ordered not after every later one. */
  ghost predicate SortedBy<T>(s: seq<T>, cmp: (T, T) -> int) {
    forall i, j :: 0 <= i < j < |s| ==> cmp(s[i], s[j]) <= 0
  }

  /** The elements of `s` that compare equal to `x`, in their order in `s`. */
  function Equivalents<T>(s: seq<T>, x: T, cmp: (T, T) -> int): (r: seq<T>)
    ensures |r| <= |s|
  {
    if s == [] then []
    else (if cmp(x, s[0]) == 0 then [s[0]] else []) + Equivalents(s[1..], x, cmp)
  }

  /** `x` placed before the first element that it is not ordered after. */
  function Insert<T>(x: T, s: seq<T>, cmp: (T, T) -> int): (r: seq<T>)
    ensures |r| == |s| + 1
  {
    if s == [] || cmp(x, s[0]) <= 0 then [x] + s
    else [s[0]] + Insert(x, s[1..], cmp)
  }

  /** The stable sort of `s` by `cmp`. */
  function Sort<T>(s: seq<T>, cmp: (T, T) -> int): (r: seq<T>)
    ensures |r| == |s|
  {
    if s == [] then [] else Insert(s[0], Sort(s[1..], cmp), cmp)
  }

  lemma {:induction false} InsertPermutation<T>(x: T, s: seq<T>, cmp: (T, T) -> int)
    ensures multiset(Insert(x, s, cmp)) == multiset(s) + multiset{x}
  {
    if s != [] && cmp(x, s[0]) > 0 {
      InsertPermutation(x, s[1..], cmp);
      assert s == [s[0]] + s[1..];
    }
  }

  /** The sort returns a permutation of its input. */
  lemma {:induction false} SortPermutation<T>(s: seq<T>, cmp: (T, T) -> int)
    ensures multiset(Sort(s, cmp)) == multiset(s)
  {
    if s != [] {
      SortPermutation(s[1..], cmp);
      InsertPermutation(s[0], Sort(s[1..], cmp), cmp);
      assert s == [s[0]] + s[1..];
    }
  }

  lemma Reflexive<T(!new)>(cmp: (T, T) -> int, a: T)
    requires Consistent(cmp)
    ensures cmp(a, a) == 0
  {
  }

  /** Comparing equal is an equivalence relation. */
  lemma EquivalenceTransitive<T(!new)>(cmp: (T, T) -> int, a: T, b: T, c: T)
    requires Consistent(cmp)
    requires cmp(a, b) == 0 && cmp(b, c) == 0
    ensures cmp(a, c) == 0 && cmp(c, a) == 0
  {
    assert cmp(c, b) == 0 && cmp(b, a) == 0;
  }

  lemma SortedCons<T>(h: T, t: seq<T>, cmp: (T, T) -> int)
    requires SortedBy(t, cmp)
    requires forall k :: 0 <= k < |t| ==> cmp(h, t[k]) <= 0
    ensures SortedBy([h] + t, cmp)
  {
    var r := [h] + t;
    forall i, j | 0 <= i < j < |r|
      ensures cmp(r[i], r[j]) <= 0
    {
      assert r[j] == t[j - 1];
      if i > 0 {
        assert r[i] == t[i - 1];
      }
    }
  }

  /** A lower bound of `x` and of every element of `s` bounds every element after inserting `x`. */
  lemma {:induction false} LowerBoundInsert<T>(h: T, x: T, s: seq<T>, cmp: (T, T) -> int)
    requires cmp(h, x) <= 0
    requires forall k :: 0 <= k < |s| ==> cmp(h, s[k]) <= 0
    ensures forall k :: 0 <= k < |Insert(x, s, cmp)| ==> cmp(h, Insert(x, s, cmp)[k]) <= 0
  {
    if s != [] && cmp(x, s[0]) > 0 {
      LowerBoundInsert(h, x, s[1..], cmp);
    }
  }

  lemma {:induction false} InsertSorted<T(!new)>(x: T, s: seq<T>, cmp: (T, T) -> int)
    requires Consistent(cmp) && SortedBy(s, cmp)
    ensures SortedBy(Insert(x, s, cmp), cmp)
  {
    if s == [] || cmp(x, s[0]) <= 0 {
      SortedCons(x, s, cmp);
    } else {
      InsertSorted(x, s[1..], cmp);
      assert cmp(s[0], x) < 0;
      LowerBoundInsert(s[0], x, s[1..], cmp);
      SortedCons(s[0], Insert(x, s[1..], cmp), cmp);
    }
  }

  /** The sort orders its result. */
  lemma {:induction false} SortSorted<T(!new)>(s: seq<T>, cmp: (T, T) -> int)
    requires Consistent(cmp)
    ensures SortedBy(Sort(s, cmp), cmp)
  {
    if s != [] {
      SortSorted(s[1..], cmp);
      InsertSorted(s[0], Sort(s[1..], cmp), cmp);
    }
  }

  lemma EquivalentsCons<T>(h: T, t: seq<T>, x: T, cmp: (T, T) -> int)
    ensures Equivalents([h] + t, x, cmp) == (if cmp(x, h) == 0 then [h] else []) + Equivalents(t, x, cmp)
  {
    assert ([h] + t)[1..] == t;
  }

  lemma {:induction false} InsertEquivalents<T(!new)>(y: T, s: seq<T>, x: T, cmp: (T, T) -> int)
    requires Consistent(cmp)
    ensures Equivalents(Insert(y, s, cmp), x, cmp)
            == (if cmp(x, y) == 0 then [y] else []) + Equivalents(s, x, cmp)
  {
    if s == [] || cmp(y, s[0]) <= 0 {
      EquivalentsCons(y, s, x, cmp);
    } else {
      InsertEquivalents(y, s[1..], x, cmp);
      EquivalentsCons(s[0], Insert(y, s[1..], cmp), x, cmp);
      EquivalentsCons(s[0], s[1..], x, cmp);
      assert s == [s[0]] + s[1..];
      SkippedHeadIsNoEquivalent(y, s[0], x, cmp);
      var h := if cmp(x, s[0]) == 0 then [s[0]] else [];
      var z := if cmp(x, y) == 0 then [y] else [];
      var rest := Equivalents(s[1..], x, cmp);
      assert Equivalents(Insert(y, s, cmp), x, cmp) == h + (z + rest);
      assert Equivalents(s, x, cmp) == h + rest;
      if h == [] {
        assert h + (z + rest) == z + (h + rest);
      } else {
        assert z == [];
        assert h + (z + rest) == z + (h + rest);
      }
    }
  }

  /** An element inserted after `h` compares differently from `h`, so `h` and it are never both equivalent to `x`. */
  lemma SkippedHeadIsNoEquivalent<T(!new)>(y: T, h: T, x: T, cmp: (T, T) -> int)
    requires Consistent(cmp) && cmp(y, h) > 0
    ensures !(cmp(x, y) == 0 && cmp(x, h) == 0)
  {
    if cmp(x, y) == 0 && cmp(x, h) == 0 {
      assert cmp(y, x) == 0;
      EquivalenceTransitive(cmp, y, x, h);
    }
  }

  /** Stability: equivalent elements keep their relative order. */
  lemma {:induction false} SortStable<T(!new)>(s: seq<T>, x: T, cmp: (T, T) -> int)
    requires Consistent(cmp)
    ensures Equivalents(Sort(s, cmp), x, cmp) == Equivalents(s, x, cmp)
  {
    if s != [] {
      SortStable(s[1..], x, cmp);
      InsertEquivalents(s[0], Sort(s[1..], cmp), x, cmp);
    }
  }

  lemma EquivalentsOfHead<T(!new)>(s: seq<T>, cmp: (T, T) -> int)
    requires Consistent(cmp) && s != []
    ensures Equivalents(s, s[0], cmp) == [s[0]] + Equivalents(s[1..], s[0], cmp)
  {
    Reflexive(cmp, s[0]);
  }

  /** Every element of `s` is among its own equivalents there. */
  lemma {:induction false} EquivalentsContain<T(!new)>(s: seq<T>, j: int, cmp: (T, T) -> int)
    requires Consistent(cmp) && 0 <= j < |s|
    ensures s[j] in Equivalents(s, s[j], cmp)
  {
    if j == 0 {
      EquivalentsOfHead(s, cmp);
    } else {
      EquivalentsContain(s[1..], j - 1, cmp);
      assert s[1..][j - 1] == s[j];
    }
  }

  /** Every member of an equivalents sequence occurs in the sequence. */
  lemma {:induction false} EquivalentsMembers<T>(s: seq<T>, x: T, cmp: (T, T) -> int, y: T)
    requires y in Equivalents(s, x, cmp)
    ensures y in s && cmp(x, y) == 0
  {
    if s[0] != y || cmp(x, s[0]) != 0 {
      EquivalentsMembers(s[1..], x, cmp, y);
    }
  }

  /** The first element of a sorted sequence is ordered not after any element of it. */
  lemma HeadIsLeast<T(!new)>(a: seq<T>, y: T, cmp: (T, T) -> int)
    requires Consistent(cmp) && SortedBy(a, cmp) && y in a
    ensures cmp(a[0], y) <= 0
  {
    var i :| 0 <= i < |a| && a[i] == y;
    if i == 0 {
      Reflexive(cmp, y);
    }
  }

  /** Two sorted sequences with the same equivalents start with the same element. */
  lemma HeadsAgree<T(!new)>(a: seq<T>, b: seq<T>, cmp: (T, T) -> int)
    requires Consistent(cmp) && SortedBy(a, cmp) && SortedBy(b, cmp) && a != [] && b != []
    requires forall x :: Equivalents(a, x, cmp) == Equivalents(b, x, cmp)
    ensures a[0] == b[0]
  {
    EquivalentsContain(a, 0, cmp);
    EquivalentsContain(b, 0, cmp);
    assert Equivalents(a, a[0], cmp) == Equivalents(b, a[0], cmp);
    assert Equivalents(a, b[0], cmp) == Equivalents(b, b[0], cmp);
    EquivalentsMembers(b, a[0], cmp, a[0]);
    EquivalentsMembers(a, b[0], cmp, b[0]);
    HeadIsLeast(a, b[0], cmp);
    HeadIsLeast(b, a[0], cmp);
    EquivalentsOfHead(a, cmp);
    EquivalentsOfHead(b, cmp);
    assert cmp(a[0], b[0]) == 0;
  }

  /** Dropping the same head from both keeps the equivalents equal. */
  lemma TailsAgree<T(!new)>(a: seq<T>, b: seq<T>, cmp: (T, T) -> int)
    requires a != [] && b != [] && a[0] == b[0]
    requires forall x :: Equivalents(a, x, cmp) == Equivalents(b, x, cmp)
    ensures forall x :: Equivalents(a[1..], x, cmp) == Equivalents(b[1..], x, cmp)
  {
    forall x
      ensures Equivalents(a[1..], x, cmp) == Equivalents(b[1..], x, cmp)
    {
      var head := if cmp(x, a[0]) == 0 then [a[0]] else [];
      var ea := Equivalents(a[1..], x, cmp);
      var eb := Equivalents(b[1..], x, cmp);
      assert Equivalents(a, x, cmp) == head + ea;
      assert Equivalents(b, x, cmp) == head + eb;
      assert ea == (head + ea)[|head|..];
      assert eb == (head + eb)[|head|..];
    }
  }

  /** An empty sequence has no equivalents, a non-empty one has its head's. */
  lemma EmptyIffNoEquivalents<T(!new)>(a: seq<T>, b: seq<T>, cmp: (T, T) -> int)
    requires Consistent(cmp)
    requires forall x :: Equivalents(a, x, cmp) == Equivalents(b, x, cmp)
    ensures a == [] <==> b == []
  {
    if a != [] {
      EquivalentsContain(a, 0, cmp);
      assert Equivalents(b, a[0], cmp) != [];
    }
    if b != [] {
      EquivalentsContain(b, 0, cmp);
      assert Equivalents(a, b[0], cmp) != [];
    }
  }

  /**
   * A sorted sequence is determined by its equivalence classes: two sorted
   * sequences whose equivalents agree for every element are equal.
   */
  lemma {:induction false} SortedUnique<T(!new)>(a: seq<T>, b: seq<T>, cmp: (T, T) -> int)
    requires Consistent(cmp) && SortedBy(a, cmp) && SortedBy(b, cmp)
    requires forall x :: Equivalents(a, x, cmp) == Equivalents(b, x, cmp)
    ensures a == b
    decreases |a|
  {
    EmptyIffNoEquivalents(a, b, cmp);
    if a != [] {
      HeadsAgree(a, b, cmp);
      TailsAgree(a, b, cmp);
      SortedUnique(a[1..], b[1..], cmp);
      assert a == [a[0]] + a[1..] && b == [b[0]] + b[1..];
    }
  }

  /** Whatever stable sort an engine uses, it returns this sort's result. */
  lemma AnyStableSortAgrees<T(!new)>(s: seq<T>, r: seq<T>, cmp: (T, T) -> int)
    requires Consistent(cmp) && SortedBy(r, cmp)
    requires forall x :: Equivalents(r, x, cmp) == Equivalents(s, x, cmp)
    ensures r == Sort(s, cmp)
  {
    SortSorted(s, cmp);
    forall x
      ensures Equivalents(r, x, cmp) == Equivalents(Sort(s, cmp), x, cmp)
    {
      SortStable(s, x, cmp);
    }
    SortedUnique(r, Sort(s, cmp), cmp);
  }
}
