/**
 * `extractUsername` (src/hooks/useGitHubApi.ts): turning free-form input into
 * a GitHub handle. The three regular expressions of the source are written
 * out as recognisers: the bare-handle rule, the `github.com/<handle>` URL
 * pattern and the anchored `@handle` mention.
 */
module Usernames {
  import opened Wrappers
  import opened Text

  const MaxHandleLength := 39
  const UrlPrefix := "github.com/"

  /**
   * Index `k` of `s` may extend a handle: a letter or digit, or a hyphen
   * directly followed by a letter or digit (the `-(?=[a-zA-Z0-9])` lookahead).
   */
  predicate ContinuesHandle(s: string, k: int)
    requires 0 <= k < |s|
  {
    IsAsciiLetterOrDigit(s[k]) || (s[k] == '-' && k + 1 < |s| && IsAsciiLetterOrDigit(s[k + 1]))
  }

  /** The anchored bare-handle pattern: 1 to 39 characters, a letter or digit first. */
  predicate IsHandle(h: string) {
    && 1 <= |h| <= MaxHandleLength
    && IsAsciiLetterOrDigit(h[0])
    && forall k :: 1 <= k < |h| ==> ContinuesHandle(h, k)
  }

  /** GitHub's rule for names, stated through hyphens. */
  predicate HyphenRule(h: string) {
    && 1 <= |h| <= MaxHandleLength
    && (forall k :: 0 <= k < |h| ==> IsAsciiLetterOrDigit(h[k]) || h[k] == '-')
    && h[0] != '-'
    && h[|h| - 1] != '-'
    && forall k :: 0 <= k < |h| - 1 ==> !(h[k] == '-' && h[k + 1] == '-')
  }

  /** The bare-handle pattern accepts exactly the names without leading, trailing or doubled hyphens. */
  lemma IsHandleIffHyphenRule(h: string)
    ensures IsHandle(h) <==> HyphenRule(h)
  {
    if IsHandle(h) {
      forall k | 0 <= k < |h| - 1
        ensures !(h[k] == '-' && h[k + 1] == '-')
      {
        if k > 0 {
          assert ContinuesHandle(h, k);
        }
      }
      if |h| > 1 {
        assert ContinuesHandle(h, |h| - 1);
      }
      forall k | 0 <= k < |h|
        ensures IsAsciiLetterOrDigit(h[k]) || h[k] == '-'
      {
        if k > 0 {
          assert ContinuesHandle(h, k);
        }
      }
    }
    if HyphenRule(h) {
      forall k | 1 <= k < |h|
        ensures ContinuesHandle(h, k)
      {
        if h[k] == '-' {
          assert k != |h| - 1;
          assert h[k + 1] != '-';
        }
      }
    }
  }

  /** The mention pattern: `@` followed by a handle, and nothing else. */
  predicate IsMention(t: string) {
    |t| >= 1 && t[0] == '@' && IsHandle(t[1..])
  }

  /** The unanchored URL pattern can start matching at index `i` of `t`. */
  predicate UrlMatchAt(t: string, i: int) {
    OccursAt(t, UrlPrefix, i) && i + |UrlPrefix| < |t| && IsAsciiLetterOrDigit(t[i + |UrlPrefix|])
  }

  /** `p` is where the regular expression engine finds the URL pattern: the leftmost match. */
  predicate LeftmostUrlMatch(t: string, p: int) {
    UrlMatchAt(t, p) && forall q :: 0 <= q < p ==> !UrlMatchAt(t, q)
  }

  /**
   * The capture group, read greedily from the match at `p`, ends at `e`: it
   * takes every index that extends a handle, up to 39 characters in all.
   */
  predicate GreedyCapture(t: string, p: int, e: int) {
    var start := p + |UrlPrefix|;
    && 0 <= p
    && start < e <= |t|
    && e - start <= MaxHandleLength
    && (forall m :: start < m < e ==> ContinuesHandle(t, m))
    && (e == |t| || e - start == MaxHandleLength || !ContinuesHandle(t, e))
  }

  /** The leftmost index at or after `from` where the URL pattern matches. */
  function FindUrl(t: string, from: nat): (r: Option<nat>)
    requires from <= |t|
    ensures r.Some? ==> from <= r.value && UrlMatchAt(t, r.value)
    ensures forall q :: from <= q && (r.None? || q < r.value) ==> !UrlMatchAt(t, q)
    decreases |t| - from
  {
    if from == |t| then None
    else if UrlMatchAt(t, from) then Some(from)
    else FindUrl(t, from + 1)
  }

  /** Where the greedy repetition `{0,38}` stops, having reached index `k`. */
  function RunEnd(t: string, start: nat, k: nat): (e: nat)
    requires start < k <= |t| && k <= start + MaxHandleLength
    ensures k <= e <= |t| && e <= start + MaxHandleLength
    ensures forall m :: k <= m < e ==> ContinuesHandle(t, m)
    ensures e == |t| || e == start + MaxHandleLength || !ContinuesHandle(t, e)
    decreases |t| - k
  {
    if k == |t| || k == start + MaxHandleLength || !ContinuesHandle(t, k) then k
    else RunEnd(t, start, k + 1)
  }

  /** `trimmed.match(/github\.com\/(...)/)[1]`, as the source has it. */
  function UrlCaptureAsWritten(t: string): Option<string> {
    match FindUrl(t, 0)
    case None => None
    case Some(p) =>
      var start := p + |UrlPrefix|;
      Some(t[start..RunEnd(t, start, start + 1)])
  }

  /** The URL pattern captures exactly when it matches somewhere, and then greedily from its leftmost match. */
  lemma UrlCaptureAsWrittenSpec(t: string)
    ensures UrlCaptureAsWritten(t).None? <==> forall p :: !UrlMatchAt(t, p)
    ensures UrlCaptureAsWritten(t).Some? ==>
              exists p, e :: LeftmostUrlMatch(t, p) && GreedyCapture(t, p, e)
                             && UrlCaptureAsWritten(t).value == t[p + |UrlPrefix|..e]
  {
    match FindUrl(t, 0)
    case None =>
    case Some(p) =>
      var start := p + |UrlPrefix|;
      var e := RunEnd(t, start, start + 1);
      assert LeftmostUrlMatch(t, p) && GreedyCapture(t, p, e);
  }

  /**
   * The URL capture as intended: the greedy capture with a hyphen that the
   * 39-character limit left at its end taken off again.
   */
  function UrlCapture(t: string): Option<string> {
    match UrlCaptureAsWritten(t)
    case None => None
    case Some(h) => Some(DropTrailingHyphen(h))
  }

  function DropTrailingHyphen(h: string): string {
    if h != [] && h[|h| - 1] == '-' then h[..|h| - 1] else h
  }

  /** A greedy capture is a handle once a trailing hyphen is dropped, and it can end in one only at 39 characters. */
  lemma CaptureIsNearlyHandle(t: string, h: string)
    requires exists p, e :: LeftmostUrlMatch(t, p) && GreedyCapture(t, p, e) && h == t[p + |UrlPrefix|..e]
    ensures IsHandle(DropTrailingHyphen(h))
    ensures h[|h| - 1] == '-' ==> |h| == MaxHandleLength
  {
    var p, e :| LeftmostUrlMatch(t, p) && GreedyCapture(t, p, e) && h == t[p + |UrlPrefix|..e];
    var start := p + |UrlPrefix|;
    var d := DropTrailingHyphen(h);
    forall k | 1 <= k < |d|
      ensures ContinuesHandle(d, k)
    {
      assert ContinuesHandle(t, start + k);
      assert d[k] == t[start + k];
      if d[k] == '-' {
        assert k + 1 < |h|;
        assert h[k + 1] == t[start + k + 1];
        assert k + 1 < |d|;
      }
    }
    assert h[|h| - 1] == '-' ==> |h| > 1 && ContinuesHandle(t, e - 1);
    assert h[|h| - 1] == '-' ==> ContinuesHandle(t, e);
  }

  /** The intended capture exists exactly when the pattern matches, and it is always a handle. */
  lemma UrlCaptureSpec(t: string)
    ensures UrlCapture(t).None? <==> forall p :: !UrlMatchAt(t, p)
    ensures UrlCapture(t).Some? ==> IsHandle(UrlCapture(t).value)
  {
    UrlCaptureAsWrittenSpec(t);
    if UrlCaptureAsWritten(t).Some? {
      CaptureIsNearlyHandle(t, UrlCaptureAsWritten(t).value);
    }
  }

  /** The first of the three patterns that matches wins; `null` when none does. */
  function FirstMatch(t: string, urlCapture: Option<string>): Option<string> {
    if IsHandle(t) then Some(t)
    else if urlCapture.Some? then urlCapture
    else if IsMention(t) then Some(t[1..])
    else None
  }

  /** `extractUsername` as the source has it (its URL capture may end in a hyphen). */
  function ExtractUsernameAsWritten(input: string): Option<string> {
    var t := Trim(input);
    FirstMatch(t, UrlCaptureAsWritten(t))
  }

  /** `extractUsername`, with the URL capture as intended. */
  function ExtractUsername(input: string): Option<string> {
    var t := Trim(input);
    FirstMatch(t, UrlCapture(t))
  }

  /**
   * A trimmed bare handle is returned as it is, every result is a handle,
   * and there is none exactly when no pattern matches the trimmed input.
   */
  lemma ExtractUsernameSpec(input: string)
    ensures IsHandle(Trim(input)) ==> ExtractUsername(input) == Some(Trim(input))
    ensures ExtractUsername(input).Some? ==> IsHandle(ExtractUsername(input).value)
    ensures ExtractUsername(input).None? <==>
              var t := Trim(input); !IsHandle(t) && (forall p :: !UrlMatchAt(t, p)) && !IsMention(t)
  {
    UrlCaptureSpec(Trim(input));
  }

  // ------------------------------------------------------------ properties

  /** A handle holds only letters, digits and hyphens, so it never contains the URL pattern's slash. */
  lemma HandleHasNoUrl(t: string, offset: nat)
    requires offset <= |t| && IsHandle(t[offset..])
    ensures forall p :: !UrlMatchAt(t, p) || p + |UrlPrefix| <= offset
  {
    var h := t[offset..];
    IsHandleIffHyphenRule(h);
    forall k | offset <= k < |t|
      ensures t[k] != '/'
    {
      assert t[k] == h[k - offset];
    }
    forall p | UrlMatchAt(t, p)
      ensures p + |UrlPrefix| <= offset
    {
      assert t[p + |UrlPrefix| - 1] == UrlPrefix[10] == '/';
    }
  }

  /**
   * At most one of the three patterns matches a trimmed input, so the order
   * in which they are tried never decides the result.
   */
  lemma PatternsAreExclusive(t: string)
    ensures !(IsHandle(t) && IsMention(t))
    ensures IsHandle(t) ==> forall p :: !UrlMatchAt(t, p)
    ensures IsMention(t) ==> forall p :: !UrlMatchAt(t, p)
  {
    if IsHandle(t) {
      HandleHasNoUrl(t, 0);
    }
    if IsMention(t) {
      HandleHasNoUrl(t, 1);
    }
  }

  /** `extractUsername("@" + h)` is `h` for every handle `h`. */
  lemma MentionResolves(h: string)
    requires IsHandle(h)
    ensures ExtractUsername("@" + h) == Some(h)
    ensures ExtractUsernameAsWritten("@" + h) == Some(h)
  {
    var t := "@" + h;
    assert t[1..] == h;
    IsHandleIffHyphenRule(h);
    TrimKeepsTrimmed(t);
    PatternsAreExclusive(t);
    UrlCaptureSpec(t);
    UrlCaptureAsWrittenSpec(t);
  }

  /** The greedy capture at the leftmost match `p` is `h` when `h` is a handle that the text does not extend. */
  lemma CaptureIsHandleAt(t: string, p: nat, h: string)
    requires LeftmostUrlMatch(t, p)
    requires IsHandle(h) && OccursAt(t, h, p + |UrlPrefix|)
    requires var e := p + |UrlPrefix| + |h|; e == |t| || |h| == MaxHandleLength || !ContinuesHandle(t, e)
    ensures UrlCaptureAsWritten(t) == Some(h)
  {
    var start := p + |UrlPrefix|;
    assert FindUrl(t, 0) == Some(p);
    forall m | start < m < start + |h|
      ensures ContinuesHandle(t, m)
    {
      assert ContinuesHandle(h, m - start);
      assert t[m] == h[m - start];
      if m + 1 < start + |h| {
        assert t[m + 1] == h[m - start + 1];
      }
    }
    var e := RunEnd(t, start, start + 1);
    assert e == start + |h|;
  }

  /** An input that is no bare handle and has a URL capture resolves to that capture. */
  lemma UrlCaptureResolves(t: string, h: string)
    requires Trim(t) == t && !IsHandle(t)
    requires UrlCaptureAsWritten(t) == Some(h) && IsHandle(h)
    ensures ExtractUsername(t) == Some(h)
    ensures ExtractUsernameAsWritten(t) == Some(h)
  {
    IsHandleIffHyphenRule(h);
  }

  /** Where the prefix and the handle lie in `before + "github.com/" + h + after`. */
  lemma UrlTextLayout(before: string, h: string, after: string)
    ensures OccursAt(before + UrlPrefix + h + after, UrlPrefix, |before|)
    ensures OccursAt(before + UrlPrefix + h + after, h, |before| + |UrlPrefix|)
  {
    var tail := h + after;
    var rest := UrlPrefix + tail;
    var t := before + rest;
    assert t == before + UrlPrefix + h + after;
    var p := |before|;
    assert t[p..] == rest;
    assert rest[..|UrlPrefix|] == UrlPrefix && rest[|UrlPrefix|..] == tail;
    assert t[p..p + |UrlPrefix|] == UrlPrefix;
    assert t[p + |UrlPrefix|..] == tail;
    assert tail[..|h|] == h;
  }

  /** The characters at the ends of `before + "github.com/" + h + after`, and the one after `h`. */
  lemma UrlTextEnds(before: string, h: string, after: string)
    requires h != []
    ensures after != [] ==> (before + UrlPrefix + h + after)[|before| + |UrlPrefix| + |h|] == after[0]
    ensures var t := before + UrlPrefix + h + after;
            t[|t| - 1] == if after == [] then h[|h| - 1] else after[|after| - 1]
    ensures (before + UrlPrefix + h + after)[0] == if before == [] then 'g' else before[0]
  {
  }

  /**
   * A handle right after the leftmost `github.com/` of a trimmed text is
   * extracted exactly when the text does not go on with a handle character.
   */
  lemma UrlHandleResolvesAt(t: string, p: nat, h: string)
    requires Trim(t) == t
    requires IsHandle(h) && LeftmostUrlMatch(t, p) && OccursAt(t, h, p + |UrlPrefix|)
    requires var e := p + |UrlPrefix| + |h|; e == |t| || (t[e] != '-' && !IsAsciiLetterOrDigit(t[e]))
    ensures ExtractUsername(t) == Some(h)
    ensures ExtractUsernameAsWritten(t) == Some(h)
  {
    CaptureIsHandleAt(t, p, h);
    PatternsAreExclusive(t);
    assert !IsHandle(t);
    UrlCaptureResolves(t, h);
  }

  /**
   * A handle after the leftmost `github.com/` is extracted exactly, whatever
   * path or query text follows it.
   */
  lemma UrlHandleResolves(before: string, h: string, after: string)
    requires IsHandle(h)
    requires after == [] || (after[0] != '-' && !IsAsciiLetterOrDigit(after[0]))
    requires before == [] || !IsJsWhitespace(before[0])
    requires after == [] || !IsJsWhitespace(after[|after| - 1])
    requires forall q :: 0 <= q < |before| ==> !UrlMatchAt(before + UrlPrefix + h + after, q)
    ensures ExtractUsername(before + UrlPrefix + h + after) == Some(h)
    ensures ExtractUsernameAsWritten(before + UrlPrefix + h + after) == Some(h)
  {
    var t := before + UrlPrefix + h + after;
    var p := |before|;
    UrlTextLayout(before, h, after);
    UrlTextEnds(before, h, after);
    IsHandleIffHyphenRule(h);
    assert UrlMatchAt(t, p);
    TrimKeepsTrimmed(t);
    UrlHandleResolvesAt(t, p, h);
  }

  /** A text without a slash has no URL match. */
  lemma NoSlashNoUrl(t: string)
    requires '/' !in t
    ensures forall p :: !UrlMatchAt(t, p)
  {
    forall p | 0 <= p && p + |UrlPrefix| <= |t|
      ensures !OccursAt(t, UrlPrefix, p)
    {
      assert t[p..p + |UrlPrefix|][10] == t[p + 10];
      assert t[p + 10] in t;
    }
  }

  /** A trimmed text that is no handle, has no slash and does not start with `@` resolves to nothing. */
  lemma NothingMatches(t: string)
    requires Trim(t) == t && !IsHandle(t)
    requires '/' !in t
    requires t == [] || t[0] != '@'
    ensures ExtractUsername(t) == None
    ensures ExtractUsernameAsWritten(t) == None
  {
    NoSlashNoUrl(t);
    UrlCaptureSpec(t);
    UrlCaptureAsWrittenSpec(t);
  }

  /** Text with spaces, no URL and no mention resolves to nothing. */
  lemma InvalidInputExample()
    ensures ExtractUsername("not a valid handle!!") == None
  {
    var t := "not a valid handle!!";
    assert Trim(t) == t by {
      TrimKeepsTrimmed(t);
    }
    assert !IsHandle(t) by {
      assert !ContinuesHandle(t, 3);
    }
    NothingMatches(t);
  }

  // --------------------------------------------------- the as-written defect

  /**
   * As written, a handle-shaped run longer than 39 characters whose 39th
   * character is a hyphen yields a "handle" that ends in a hyphen.
   */
  lemma AsWrittenCaptureEndsInHyphen(x: string, t: string)
    requires |x| == 38 && forall k :: 0 <= k < 38 ==> IsAsciiLetterOrDigit(x[k])
    requires t == UrlPrefix + x + "-b"
    ensures ExtractUsernameAsWritten(t) == Some(x + "-")
    ensures !IsHandle(x + "-")
  {
    HyphenRunCapture(x);
    HyphenRunIsTrimmed(x);
    UrlMatchDecides(t, 0);
    HandleNeverEndsInHyphen(x + "-");
  }

  lemma HyphenRunIsTrimmed(x: string)
    ensures Trim(UrlPrefix + x + "-b") == UrlPrefix + x + "-b"
  {
    var t := UrlPrefix + x + "-b";
    assert t[0] == 'g' && t[|t| - 1] == 'b';
    TrimKeepsTrimmed(t);
  }

  lemma HandleNeverEndsInHyphen(h: string)
    requires h != [] && h[|h| - 1] == '-'
    ensures !IsHandle(h)
  {
    IsHandleIffHyphenRule(h);
  }

  /** In a trimmed text with a URL match, the URL pattern decides the result. */
  lemma UrlMatchDecides(t: string, p: int)
    requires Trim(t) == t && UrlMatchAt(t, p)
    ensures ExtractUsernameAsWritten(t) == UrlCaptureAsWritten(t)
  {
    UrlMatchIsNoHandle(t, p);
  }

  lemma UrlMatchIsNoHandle(t: string, p: int)
    requires UrlMatchAt(t, p)
    ensures !IsHandle(t) && UrlCaptureAsWritten(t).Some?
  {
    PatternsAreExclusive(t);
    UrlCaptureAsWrittenSpec(t);
  }

  /** The greedy capture behind the defect: 38 letters and the hyphen that the limit cuts off from its successor. */
  lemma HyphenRunCapture(x: string)
    requires |x| == 38 && forall k :: 0 <= k < 38 ==> IsAsciiLetterOrDigit(x[k])
    ensures UrlMatchAt(UrlPrefix + x + "-b", 0)
    ensures UrlCaptureAsWritten(UrlPrefix + x + "-b") == Some(x + "-")
  {
    var y := x + "-b";
    var t := UrlPrefix + y;
    assert t == UrlPrefix + x + "-b";
    var start := |UrlPrefix|;
    assert |t| == 51;
    assert forall k :: 0 <= k < |y| ==> t[start + k] == y[k];
    assert t[..start] == UrlPrefix;
    assert UrlMatchAt(t, 0);
    assert FindUrl(t, 0) == Some(0);
    forall m | start < m < start + MaxHandleLength
      ensures ContinuesHandle(t, m)
    {
      if m < start + 38 {
        assert t[m] == y[m - start] == x[m - start];
      } else {
        assert t[m] == y[38] == '-';
        assert t[m + 1] == y[39] == 'b';
      }
    }
    var e := RunEnd(t, start, start + 1);
    assert e == start + MaxHandleLength;
    assert t[start..e] == y[..39] == x + "-";
  }

  /** With the intended capture the same input yields the 38 characters before the hyphen. */
  lemma CorrectedCaptureDropsHyphen(x: string, t: string)
    requires |x| == 38 && forall k :: 0 <= k < 38 ==> IsAsciiLetterOrDigit(x[k])
    requires t == UrlPrefix + x + "-b"
    ensures ExtractUsername(t) == Some(x)
  {
    HyphenRunCapture(x);
    HyphenRunIsTrimmed(x);
    UrlMatchIsNoHandle(t, 0);
    assert (x + "-")[..38] == x;
  }

  /**
   * The corrected `extractUsername` differs from the source only on a 39
   * character URL capture ending in a hyphen, which it shortens by one.
   */
  lemma CorrectionOnlyShortensTruncatedCapture(input: string)
    ensures || ExtractUsername(input) == ExtractUsernameAsWritten(input)
            || exists h :: && ExtractUsernameAsWritten(input) == Some(h)
                           && |h| == MaxHandleLength && h[|h| - 1] == '-'
                           && ExtractUsername(input) == Some(h[..|h| - 1])
  {
    var t := Trim(input);
    UrlCaptureAsWrittenSpec(t);
    match UrlCaptureAsWritten(t)
    case None =>
    case Some(h) =>
      CaptureIsNearlyHandle(t, h);
  }
}
