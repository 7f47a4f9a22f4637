/**
 * The string operations the task store relies on: Python's `str.strip()` with no
 * argument, and the decimal conversions `str(i)` and `int(s)` that turn a list
 * position into a Treeview row id and back.
 */
module Text {

  /** The code points for which Python's `str.isspace()` holds. */
  const Whitespace: set<char> := {
    '\U{0009}', '\U{000A}', '\U{000B}', '\U{000C}', '\U{000D}',
    '\U{001C}', '\U{001D}', '\U{001E}', '\U{001F}', ' ',
    '\U{0085}', '\U{00A0}', '\U{1680}',
    '\U{2000}', '\U{2001}', '\U{2002}', '\U{2003}', '\U{2004}', '\U{2005}',
    '\U{2006}', '\U{2007}', '\U{2008}', '\U{2009}', '\U{200A}',
    '\U{2028}', '\U{2029}', '\U{202F}', '\U{205F}', '\U{3000}'
  }

  predicate IsSpace(c: char) {
    c in Whitespace
  }

  /** Every character of `s` at a position in `lo..hi` is whitespace. */
  predicate SpaceBetween(s: string, lo: int, hi: int) {
    forall k :: lo <= k < hi && 0 <= k < |s| ==> IsSpace(s[k])
  }

  predicate AllSpace(s: string) {
    SpaceBetween(s, 0, |s|)
  }

  /** `r` occurs in `s` starting at position `i`. */
  predicate SliceAt(s: string, i: nat, r: string) {
    i + |r| <= |s| && forall k :: 0 <= k < |r| ==> r[k] == s[i + k]
  }

  /** The position of the first character at or after `i` that is not whitespace, or
      `|s|` when there is none. */
  function SkipSpace(s: string, i: nat): (j: nat)
    requires i <= |s|
    ensures i <= j <= |s| && SpaceBetween(s, i, j)
    ensures j < |s| ==> !IsSpace(s[j])
    decreases |s| - i
  {
    if i < |s| && IsSpace(s[i]) then SkipSpace(s, i + 1) else i
  }

  /** The position just after the last character before `j` that is not whitespace,
      scanning no further back than `lo`. */
  function SkipSpaceBack(s: string, lo: nat, j: nat): (k: nat)
    requires lo <= j <= |s|
    ensures lo <= k <= j && SpaceBetween(s, k, j)
    ensures lo < k ==> !IsSpace(s[k - 1])
    decreases j
  {
    if lo < j && IsSpace(s[j - 1]) then SkipSpaceBack(s, lo, j - 1) else j
  }

  /** `r` is what is left of `s` once the `i` characters before it and everything after it,
      all whitespace, are cut off. */
  predicate StrippedAt(s: string, i: nat, r: string) {
    && SliceAt(s, i, r)
    && SpaceBetween(s, 0, i)
    && SpaceBetween(s, i + |r|, |s|)
  }

  /** `s` has no whitespace at either end. */
  predicate IsStripped(s: string) {
    s != [] ==> !IsSpace(s[0]) && !IsSpace(s[|s| - 1])
  }

  /** Python's `s.strip()`: scan forward past the leading whitespace, then back
      past the trailing whitespace, and keep what lies between. */
  function Strip(s: string): (r: string)
    ensures |r| <= |s| && IsStripped(r)
  {
    var lo := SkipSpace(s, 0);
    s[lo..SkipSpaceBack(s, lo, |s|)]
  }

  /** The stripped form of `s` is `s` without the whitespace around it, and it is
      empty exactly when `s` is all whitespace. */
  lemma {:induction false} StripSpec(s: string)
    ensures exists i :: StrippedAt(s, i, Strip(s))
    ensures Strip(s) == [] <==> AllSpace(s)
  {
    var lo := SkipSpace(s, 0);
    var hi := SkipSpaceBack(s, lo, |s|);
    assert StrippedAt(s, lo, Strip(s));
    if lo == hi {
      assert forall k :: 0 <= k < |s| ==> IsSpace(s[k]);
    } else {
      assert s[lo] == Strip(s)[0];
    }
  }

  /** A string without whitespace at either end is its own stripped form. */
  lemma {:induction false} StripOfStripped(s: string)
    requires IsStripped(s)
    ensures Strip(s) == s
  {
    assert SkipSpace(s, 0) == 0;
    assert SkipSpaceBack(s, 0, |s|) == |s|;
    assert s[0..|s|] == s;
  }

  /** Stripping twice is stripping once. */
  lemma {:induction false} StripIdempotent(s: string)
    ensures Strip(Strip(s)) == Strip(s)
  {
    StripOfStripped(Strip(s));
  }

  predicate IsDigit(c: char) {
    '0' <= c <= '9'
  }

  /** What `int()` accepts in this model: a non-empty run of ASCII digits. */
  predicate IsDecimal(s: string) {
    s != [] && forall k :: 0 <= k < |s| ==> IsDigit(s[k])
  }

  function DigitChar(d: nat): (c: char)
    requires d < 10
    ensures IsDigit(c)
  {
    (48 + d) as char
  }

  function DigitValue(c: char): (d: nat)
    requires IsDigit(c)
    ensures d < 10
  {
    c as int - 48
  }

  /** Python's `str(n)` for a non-negative integer: its decimal digits, most significant first. */
  function Str(n: nat): (s: string)
    ensures IsCanonical(s)
  {
    if n < 10 then [DigitChar(n)] else Str(n / 10) + [DigitChar(n % 10)]
  }

  function Pow10(n: nat): (p: nat)
    ensures p >= 1
  {
    if n == 0 then 1 else 10 * Pow10(n - 1)
  }

  /** A string of decimal digits without a superfluous leading zero, as `str` writes them. */
  predicate IsCanonical(s: string) {
    IsDecimal(s) && (|s| == 1 || s[0] != '0')
  }

  /** Python's `int(s)` on a non-empty string of ASCII digits: the value has at most
      `|s|` digits, and exactly `|s|` when the first digit is not zero. */
  function Int(s: string): (r: nat)
    requires IsDecimal(s)
    ensures r < Pow10(|s|)
    ensures s[0] != '0' ==> r >= Pow10(|s| - 1)
  {
    if |s| == 1 then DigitValue(s[0]) else
      var prefix := s[..|s| - 1];
      assert prefix[0] == s[0];
      Int(prefix) * 10 + DigitValue(s[|s| - 1])
  }

  /** `int(str(n)) == n`: a row id reads back as the position it was made from. */
  lemma {:induction false} IntOfStr(n: nat)
    ensures Int(Str(n)) == n
  {
    if n >= 10 {
      var s := Str(n);
      assert s[..|s| - 1] == Str(n / 10);
      IntOfStr(n / 10);
    }
  }

  /** `str(int(s)) == s` for a digit string without a superfluous leading zero. */
  lemma {:induction false} StrOfInt(s: string)
    requires IsCanonical(s)
    ensures Str(Int(s)) == s
  {
    if |s| == 1 {
      assert Str(Int(s)) == [s[0]];
    } else {
      var prefix := s[..|s| - 1];
      assert prefix[0] == s[0];
      StrOfInt(prefix);
      assert Int(s) >= 10 && Int(s) / 10 == Int(prefix) && Int(s) % 10 == DigitValue(s[|s| - 1]);
      assert s == prefix + [s[|s| - 1]];
    }
  }

  /** Different positions get different row ids. */
  lemma StrInjective(m: nat, n: nat)
    ensures Str(m) == Str(n) <==> m == n
  {
    IntOfStr(m);
    IntOfStr(n);
  }
}
