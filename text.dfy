/** The Python string operations the scoring engine relies on: `lower`,
    `in` on strings, `find`/`rfind` of one character, `strip` and the
    decimal rendering of an integer in an f-string. */
module Text {

  /** `str.lower()` restricted to ASCII letters. */
  function LowerChar(c: char): char {
    if 'A' <= c <= 'Z' then (c as int - 'A' as int + 'a' as int) as char else c
  }

  function Lower(s: string): (r: string)
    ensures |r| == |s|
    ensures forall i :: 0 <= i < |s| ==> r[i] == LowerChar(s[i])
  {
    seq(|s|, i requires 0 <= i < |s| => LowerChar(s[i]))
  }

  lemma LowerSlice(s: string, a: nat, b: nat)
    requires a <= b <= |s|
    ensures Lower(s[a..b]) == Lower(s)[a..b]
  {
  }

  /** `needle` occurs in `hay` starting at index `i`. */
  predicate SubstringAt(hay: string, needle: string, i: nat) {
    i + |needle| <= |hay| && hay[i..i + |needle|] == needle
  }

  /** `needle in hay` for two Python strings: a contiguous occurrence. */
  predicate Contains(hay: string, needle: string) {
    exists i: nat | i <= |hay| :: SubstringAt(hay, needle, i)
  }

  /** `s.rfind(c, 0, end)`: the last index below `end` holding `c`, or -1. */
  function RFind(s: string, c: char, end: nat): (r: int)
    requires end <= |s|
    ensures -1 <= r < end
    decreases end
  {
    if end == 0 then -1
    else if s[end - 1] == c then end - 1
    else RFind(s, c, end - 1)
  }

  lemma {:induction false} RFindIsLast(s: string, c: char, end: nat)
    requires end <= |s|
    ensures RFind(s, c, end) >= 0 ==> s[RFind(s, c, end)] == c
    ensures forall j :: RFind(s, c, end) < j < end ==> s[j] != c
    decreases end
  {
    if end > 0 && s[end - 1] != c {
      RFindIsLast(s, c, end - 1);
    }
  }

  /** `s.find(c, start)`: the first index from `start` on holding `c`, or -1. */
  function Find(s: string, c: char, start: nat): (r: int)
    requires start <= |s|
    ensures r == -1 || start <= r < |s|
    decreases |s| - start
  {
    if start == |s| then -1
    else if s[start] == c then start
    else Find(s, c, start + 1)
  }

  lemma {:induction false} FindIsFirst(s: string, c: char, start: nat)
    requires start <= |s|
    ensures Find(s, c, start) >= 0 ==> s[Find(s, c, start)] == c
    ensures forall j :: start <= j < |s| && (Find(s, c, start) == -1 || j < Find(s, c, start)) ==> s[j] != c
    decreases |s| - start
  {
    if start < |s| && s[start] != c {
      FindIsFirst(s, c, start + 1);
    }
  }

  /** `str.isspace()` for one character: the characters Python's `strip()`
      removes when called without arguments. */
  predicate IsSpace(c: char) {
    || 0x09 <= c as int <= 0x0D
    || 0x1C <= c as int <= 0x20
    || c as int == 0x85 || c as int == 0xA0 || c as int == 0x1680
    || 0x2000 <= c as int <= 0x200A
    || c as int == 0x2028 || c as int == 0x2029 || c as int == 0x202F
    || c as int == 0x205F || c as int == 0x3000
  }

  /** The first index from `i` on that does not hold whitespace, or `|s|`. */
  function SkipSpace(s: string, i: nat): (j: nat)
    requires i <= |s|
    ensures i <= j <= |s|
    decreases |s| - i
  {
    if i < |s| && IsSpace(s[i]) then SkipSpace(s, i + 1) else i
  }

  /** Everything skipped is whitespace, and the scan stops at a character
      that is not. */
  lemma {:induction false} SkipSpaceSpec(s: string, i: nat)
    requires i <= |s|
    ensures forall k :: i <= k < SkipSpace(s, i) ==> IsSpace(s[k])
    ensures SkipSpace(s, i) < |s| ==> !IsSpace(s[SkipSpace(s, i)])
    decreases |s| - i
  {
    if i < |s| && IsSpace(s[i]) {
      SkipSpaceSpec(s, i + 1);
    }
  }

  /** Scanning back from `j`: one past the last index below `j` that does
      not hold whitespace, or `lo` when there is none from `lo` on. */
  function SkipSpaceBack(s: string, lo: nat, j: nat): (k: nat)
    requires lo <= j <= |s|
    ensures lo <= k <= j
    decreases j
  {
    if lo < j && IsSpace(s[j - 1]) then SkipSpaceBack(s, lo, j - 1) else j
  }

  lemma {:induction false} SkipSpaceBackSpec(s: string, lo: nat, j: nat)
    requires lo <= j <= |s|
    ensures forall k :: SkipSpaceBack(s, lo, j) <= k < j ==> IsSpace(s[k])
    ensures lo < SkipSpaceBack(s, lo, j) ==> !IsSpace(s[SkipSpaceBack(s, lo, j) - 1])
    decreases j
  {
    if lo < j && IsSpace(s[j - 1]) {
      SkipSpaceBackSpec(s, lo, j - 1);
    }
  }

  /** Where `s.strip()` starts in `s`. */
  function StripStart(s: string): nat {
    SkipSpace(s, 0)
  }

  /** `s.strip()`: `s` without the whitespace at both ends. */
  function Strip(s: string): (r: string)
    ensures |r| <= |s|
  {
    s[StripStart(s)..SkipSpaceBack(s, StripStart(s), |s|)]
  }

  /** What `strip()` keeps is the slice of `s` from `StripStart(s)` that
      neither starts nor ends with whitespace, and everything it removes is
      whitespace. */
  lemma StripSpec(s: string)
    ensures StripStart(s) + |Strip(s)| <= |s|
    ensures Strip(s) == s[StripStart(s)..StripStart(s) + |Strip(s)|]
    ensures forall k :: 0 <= k < StripStart(s) ==> IsSpace(s[k])
    ensures forall k :: StripStart(s) + |Strip(s)| <= k < |s| ==> IsSpace(s[k])
    ensures |Strip(s)| > 0 ==> !IsSpace(Strip(s)[0]) && !IsSpace(Strip(s)[|Strip(s)| - 1])
  {
    SkipSpaceSpec(s, 0);
    SkipSpaceBackSpec(s, StripStart(s), |s|);
  }

  /** The decimal digits of `n`, as `str(n)` or an f-string renders them. */
  function NatToString(n: nat): (s: string)
    ensures |s| > 0
    ensures forall i :: 0 <= i < |s| ==> '0' <= s[i] <= '9'
  {
    if n < 10 then [DigitChar(n)] else NatToString(n / 10) + [DigitChar(n % 10)]
  }

  function DigitChar(d: nat): (c: char)
    requires d < 10
    ensures '0' <= c <= '9'
  {
    (d + '0' as int) as char
  }

  /** `int(s)` for a non-empty string of decimal digits: the inverse of
      `NatToString`. */
  function ParseNat(s: string): nat
    requires forall i :: 0 <= i < |s| ==> '0' <= s[i] <= '9'
  {
    if |s| == 0 then 0 else ParseNat(s[..|s| - 1]) * 10 + (s[|s| - 1] as int - '0' as int)
  }

  lemma {:induction false} ParseNatToString(n: nat)
    ensures ParseNat(NatToString(n)) == n
  {
    if n >= 10 {
      var s := NatToString(n);
      assert s[..|s| - 1] == NatToString(n / 10);
      ParseNatToString(n / 10);
    }
  }

  lemma NatToStringInjective(m: nat, n: nat)
    requires NatToString(m) == NatToString(n)
    ensures m == n
  {
    ParseNatToString(m);
    ParseNatToString(n);
  }
}
