/**
 * The JavaScript string operations the core relies on: `trim`, ASCII
 * `toLowerCase`, `includes`, `parseInt(_, 10)` and the character order that
 * `Array.prototype.sort` uses by default.
 */
module Text {
  import opened GitHubTypes

  predicate IsAsciiLetterOrDigit(c: char) {
    'a' <= c <= 'z' || 'A' <= c <= 'Z' || '0' <= c <= '9'
  }

  predicate IsDigit(c: char) {
    '0' as int <= c as int <= '9' as int
  }

  /** `sub` occurs in `s` starting at index `i`. */
  predicate OccursAt(s: string, sub: string, i: int) {
    0 <= i && i + |sub| <= |s| && s[i..i + |sub|] == sub
  }

  /**
   * The WhiteSpace and LineTerminator code points of ECMAScript: what
   * `String.prototype.trim` and `parseInt` skip.
   */
  predicate IsJsWhitespace(c: char) {
    var n := c as int;
    if n < 0x80 then n == 0x20 || 0x09 <= n <= 0x0D else n in WideWhitespace
  }

  /** The whitespace and line terminators of ECMAScript outside ASCII. */
  const WideWhitespace: set<int> := {0xA0, 0x1680,
    0x2000, 0x2001, 0x2002, 0x2003, 0x2004, 0x2005, 0x2006, 0x2007, 0x2008, 0x2009, 0x200A,
    0x2028, 0x2029, 0x202F, 0x205F, 0x3000, 0xFEFF}

  /** Drops the leading whitespace. */
  function TrimStart(s: string): string {
    if s != [] && IsJsWhitespace(s[0]) then TrimStart(s[1..]) else s
  }

  /** Drops the trailing whitespace. */
  function TrimEnd(s: string): string {
    if s != [] && IsJsWhitespace(s[|s| - 1]) then TrimEnd(s[..|s| - 1]) else s
  }

  /** `String.prototype.trim`. */
  function Trim(s: string): string {
    TrimEnd(TrimStart(s))
  }

  /** TrimStart leaves the suffix that starts at the first character that is not whitespace. */
  lemma {:induction false} TrimStartSpec(s: string)
    ensures var r := TrimStart(s);
            && |r| <= |s| && r == s[|s| - |r|..]
            && (r == [] || !IsJsWhitespace(r[0]))
            && forall k :: 0 <= k < |s| - |r| ==> IsJsWhitespace(s[k])
  {
    if s != [] && IsJsWhitespace(s[0]) {
      var u := s[1..];
      TrimStartSpec(u);
      var r := TrimStart(u);
      assert TrimStart(s) == r;
      var n := |s| - |r|;
      assert u[|u| - |r|..] == s[n..];
      forall k | 0 <= k < n
        ensures IsJsWhitespace(s[k])
      {
        if k > 0 {
          assert s[k] == u[k - 1];
        }
      }
    } else {
      assert TrimStart(s) == s;
    }
  }

  /** TrimEnd leaves the prefix that ends at the last character that is not whitespace. */
  lemma {:induction false} TrimEndSpec(s: string)
    ensures var r := TrimEnd(s);
            && |r| <= |s| && r == s[..|r|]
            && (r == [] || !IsJsWhitespace(r[|r| - 1]))
            && forall k :: |r| <= k < |s| ==> IsJsWhitespace(s[k])
  {
    if s != [] && IsJsWhitespace(s[|s| - 1]) {
      var u := s[..|s| - 1];
      TrimEndSpec(u);
      var r := TrimEnd(u);
      assert TrimEnd(s) == r;
      assert u[..|r|] == s[..|r|];
      forall k | |r| <= k < |s|
        ensures IsJsWhitespace(s[k])
      {
        if k < |s| - 1 {
          assert s[k] == u[k];
        }
      }
    } else {
      assert TrimEnd(s) == s;
    }
  }

  /** `r` occurs in `s` at `i` with only whitespace before and after it. */
  predicate PaddedAt(s: string, r: string, i: int) {
    && OccursAt(s, r, i)
    && (forall k :: 0 <= k < i ==> IsJsWhitespace(s[k]))
    && (forall k :: i + |r| <= k < |s| ==> IsJsWhitespace(s[k]))
  }

  /**
   * `trim` removes whitespace from both ends and nothing else: the result
   * occurs in the input, neither end of it is whitespace, and everything
   * around it is.
   */
  lemma TrimSpec(s: string)
    ensures var r := Trim(s);
            && (r == [] || (!IsJsWhitespace(r[0]) && !IsJsWhitespace(r[|r| - 1])))
            && exists i :: PaddedAt(s, r, i)
  {
    var t := TrimStart(s);
    var r := TrimEnd(t);
    TrimStartSpec(s);
    TrimEndSpec(t);
    assert r != [] ==> r[0] == t[0];
    TrimPadded(s, t, r);
  }

  lemma TrimPadded(s: string, t: string, r: string)
    requires |t| <= |s| && t == s[|s| - |t|..]
    requires forall k :: 0 <= k < |s| - |t| ==> IsJsWhitespace(s[k])
    requires |r| <= |t| && r == t[..|r|]
    requires forall k :: |r| <= k < |t| ==> IsJsWhitespace(t[k])
    ensures PaddedAt(s, r, |s| - |t|)
  {
    var i := |s| - |t|;
    assert s[i..i + |r|] == t[..|r|];
    forall k | i + |r| <= k < |s|
      ensures IsJsWhitespace(s[k])
    {
      assert s[k] == t[k - i];
    }
  }

  /** Trimming a string that neither starts nor ends with whitespace changes nothing. */
  lemma TrimKeepsTrimmed(s: string)
    requires s == [] || (!IsJsWhitespace(s[0]) && !IsJsWhitespace(s[|s| - 1]))
    ensures Trim(s) == s
  {
  }

  function LowerChar(c: char): char {
    if 'A' <= c <= 'Z' then (c as int + 32) as char else c
  }

  /** `String.prototype.toLowerCase`, restricted to ASCII letters. */
  function Lower(s: string): (r: string)
    ensures |r| == |s|
    ensures forall k :: 0 <= k < |s| ==> r[k] == LowerChar(s[k])
  {
    seq(|s|, k requires 0 <= k < |s| => LowerChar(s[k]))
  }

  /** Lowercased text holds no ASCII capital letter. */
  lemma LowerHasNoCapital(s: string)
    ensures forall k :: 0 <= k < |Lower(s)| ==> !('A' <= Lower(s)[k] <= 'Z')
  {
  }

  /** Lowercasing lowercased text changes nothing. */
  lemma LowerIdempotent(s: string)
    ensures Lower(Lower(s)) == Lower(s)
  {
    LowerHasNoCapital(s);
  }

  /** `s.includes(sub)`. */
  function Includes(s: string, sub: string): bool
    decreases |s|
  {
    if |sub| > |s| then false
    else if s[..|sub|] == sub then true
    else Includes(s[1..], sub)
  }

  /** `includes` holds exactly when `sub` occurs in `s` at some position. */
  lemma {:induction false} IncludesSpec(s: string, sub: string)
    ensures Includes(s, sub) <==> exists i :: OccursAt(s, sub, i)
    decreases |s|
  {
    if |sub| > |s| {
    } else if s[..|sub|] == sub {
      assert OccursAt(s, sub, 0);
    } else {
      IncludesSpec(s[1..], sub);
      if Includes(s[1..], sub) {
        var i :| OccursAt(s[1..], sub, i);
        assert OccursAt(s, sub, i + 1);
      }
      if exists i :: OccursAt(s, sub, i) {
        var i :| OccursAt(s, sub, i);
        assert i != 0;
        assert OccursAt(s[1..], sub, i - 1);
      }
    }
  }

  // ---------------------------------------------------------------- parseInt

  function DigitValue(c: char): nat
    requires IsDigit(c)
  {
    c as int - '0' as int
  }

  /** Reads the run of decimal digits at the start of `u` onto `acc`, most significant first. */
  function ReadDigits(u: string, acc: nat): nat {
    if u != [] && IsDigit(u[0]) then ReadDigits(u[1..], acc * 10 + DigitValue(u[0])) else acc
  }

  /**
   * `parseInt(s, 10)`: skip leading whitespace, take one optional sign, then
   * the longest run of decimal digits; NaN when that run is empty.
   */
  function ParseInt(s: string): ParsedInt {
    var t := TrimStart(s);
    var negative := t != [] && t[0] == '-';
    var u := if t != [] && (t[0] == '-' || t[0] == '+') then t[1..] else t;
    match ParseDigits(u)
    case NaN => NaN
    case Int(v) => Int(if negative then -v else v)
  }

  /** The value of the decimal digits that `u` starts with, or NaN when it starts with none. */
  function ParseDigits(u: string): ParsedInt {
    if u != [] && IsDigit(u[0]) then Int(ReadDigits(u, 0)) else NaN
  }

  predicate AllDigits(d: string) {
    forall k :: 0 <= k < |d| ==> IsDigit(d[k])
  }

  function DigitChar(d: nat): (c: char)
    requires d < 10
    ensures IsDigit(c) && DigitValue(c) == d
  {
    ('0' as int + d) as char
  }

  /** The decimal text of a natural number, without leading zeros. */
  function NatText(n: nat): string {
    if n < 10 then [DigitChar(n)] else NatText(n / 10) + [DigitChar(n % 10)]
  }

  /** The decimal text of an integer, as JavaScript prints it. */
  function DecimalText(n: int): string {
    if n < 0 then "-" + NatText(-n) else NatText(n)
  }

  lemma {:induction false} NatTextDigits(n: nat)
    ensures |NatText(n)| > 0 && AllDigits(NatText(n))
  {
    if n >= 10 {
      NatTextDigits(n / 10);
    }
  }

  /** Reading one more digit multiplies what was read by ten and adds it. */
  lemma {:induction false} ReadDigitsSnoc(a: string, c: char, acc: nat)
    requires AllDigits(a) && IsDigit(c)
    ensures ReadDigits(a + [c], acc) == ReadDigits(a, acc) * 10 + DigitValue(c)
  {
    if a == [] {
      assert [c][1..] == [];
    } else {
      ReadDigitsSnoc(a[1..], c, acc * 10 + DigitValue(a[0]));
      assert (a + [c])[1..] == a[1..] + [c];
    }
  }

  /** Reading stops at the first character that is not a digit. */
  lemma {:induction false} ReadDigitsStops(d: string, rest: string, acc: nat)
    requires AllDigits(d) && (rest == [] || !IsDigit(rest[0]))
    ensures ReadDigits(d + rest, acc) == ReadDigits(d, acc)
  {
    if d == [] {
      assert d + rest == rest;
    } else {
      ReadDigitsStops(d[1..], rest, acc * 10 + DigitValue(d[0]));
      assert (d + rest)[1..] == d[1..] + rest;
    }
  }

  lemma {:induction false} NatTextValue(n: nat)
    ensures ReadDigits(NatText(n), 0) == n
  {
    if n < 10 {
      assert NatText(n)[1..] == [];
    } else {
      NatTextValue(n / 10);
      NatTextDigits(n / 10);
      ReadDigitsSnoc(NatText(n / 10), DigitChar(n % 10), 0);
    }
  }

  /**
   * parseInt reads back the decimal text of any integer, whatever
   * non-digit text follows it.
   */
  lemma ParseIntOfDecimalText(n: int, rest: string)
    requires rest == [] || !IsDigit(rest[0])
    ensures ParseInt(DecimalText(n) + rest) == Int(n)
  {
    var m: nat := if n < 0 then -n else n;
    var u := NatText(m) + rest;
    ParseDigitsOfNatText(m, rest);
    NatTextDigits(m);
    assert u[0] == NatText(m)[0];
    if n < 0 {
      var s := "-" + u;
      assert DecimalText(n) + rest == s;
      assert s[1..] == u;
      ParseIntNegative(s);
    } else {
      ParseIntUnsigned(u);
    }
  }

  /** parseInt of text that starts with a digit reads its leading digits. */
  lemma ParseIntUnsigned(s: string)
    requires s != [] && IsDigit(s[0])
    ensures ParseInt(s) == ParseDigits(s)
  {
    assert !IsJsWhitespace(s[0]);
    assert TrimStart(s) == s;
  }

  /** parseInt of text that starts with a minus sign negates the digits after it. */
  lemma ParseIntNegative(s: string)
    requires s != [] && s[0] == '-'
    ensures ParseInt(s) == match ParseDigits(s[1..]) case NaN => NaN case Int(v) => Int(-v)
  {
    assert TrimStart(s) == s;
  }

  lemma ParseDigitsOfNatText(m: nat, rest: string)
    requires rest == [] || !IsDigit(rest[0])
    ensures ParseDigits(NatText(m) + rest) == Int(m)
  {
    NatTextDigits(m);
    NatTextValue(m);
    ReadDigitsStops(NatText(m), rest, 0);
    assert (NatText(m) + rest)[0] == NatText(m)[0];
  }

  // ------------------------------------------------- default sort order

  /** The order of the default `Array.prototype.sort`: lexicographic by character. */
  predicate StringLess(a: string, b: string) {
    if a == [] then b != []
    else if b == [] then false
    else if a[0] != b[0] then a[0] < b[0]
    else StringLess(a[1..], b[1..])
  }

  lemma {:induction false} StringLessIrreflexive(a: string)
    ensures !StringLess(a, a)
  {
    if a != [] {
      StringLessIrreflexive(a[1..]);
    }
  }

  lemma {:induction false} StringLessTransitive(a: string, b: string, c: string)
    requires StringLess(a, b) && StringLess(b, c)
    ensures StringLess(a, c)
  {
    if a != [] && b != [] && c != [] && a[0] == b[0] && b[0] == c[0] {
      StringLessTransitive(a[1..], b[1..], c[1..]);
    }
  }

  lemma {:induction false} StringLessTotal(a: string, b: string)
    requires a != b
    ensures StringLess(a, b) || StringLess(b, a)
  {
    if a != [] && b != [] && a[0] == b[0] {
      assert a == [a[0]] + a[1..] && b == [b[0]] + b[1..];
      StringLessTotal(a[1..], b[1..]);
    }
  }

  lemma StringLessAsymmetric(a: string, b: string)
    requires StringLess(a, b)
    ensures !StringLess(b, a)
  {
    if StringLess(b, a) {
      StringLessTransitive(a, b, a);
      StringLessIrreflexive(a);
    }
  }
}
