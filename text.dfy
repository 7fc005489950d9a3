/**
 * Character classes and string helpers that the merger takes from Python's
 * `str` type: whitespace as `str.isspace` and the regex class `\s` see it,
 * `str.strip()`, lower-casing for suffix tests and `str.endswith`.
 */
module Text {

  /**
   * Python's `str.isspace` on one character. The `re` module's `\s` in a str
   * pattern and `str.strip()` without arguments use the same class.
   */
  predicate IsSpace(c: char) {
    var n := c as int;
    (0x09 <= n <= 0x0D) || (0x1C <= n <= 0x20) || n == 0x85 || n == 0xA0 || n == 0x1680
    || (0x2000 <= n <= 0x200A) || n == 0x2028 || n == 0x2029 || n == 0x202F
    || n == 0x205F || n == 0x3000
  }

  /** Only whitespace in `s[i..j]`. */
  predicate SpaceBetween(s: string, i: nat, j: nat)
    requires j <= |s|
  {
    forall m :: i <= m < j ==> IsSpace(s[m])
  }

  /** The first index at or after `i` that is not whitespace, or `|s|`: the greedy `\s*`. */
  function SkipSpace(s: string, i: nat): (r: nat)
    requires i <= |s|
    ensures i <= r <= |s|
    ensures forall j :: i <= j < r ==> IsSpace(s[j])
    ensures r == |s| || !IsSpace(s[r])
    decreases |s| - i
  {
    if i < |s| && IsSpace(s[i]) then SkipSpace(s, i + 1) else i
  }

  /** The last index (exclusive) before which only whitespace follows, as far back as `lo`. */
  function TrimEndIndex(s: string, lo: nat, hi: nat): (r: nat)
    requires lo <= hi <= |s|
    ensures lo <= r <= hi
    ensures forall j :: r <= j < hi ==> IsSpace(s[j])
    ensures r == lo || !IsSpace(s[r - 1])
    decreases hi
  {
    if lo < hi && IsSpace(s[hi - 1]) then TrimEndIndex(s, lo, hi - 1) else hi
  }

  /** `s.strip()`: `s` without its leading and trailing whitespace. */
  function Strip(s: string): (r: string)
    ensures exists a, b :: 0 <= a <= b <= |s| && r == s[a..b] && SpaceBetween(s, 0, a) && SpaceBetween(s, b, |s|)
    ensures r == [] || (!IsSpace(r[0]) && !IsSpace(r[|r| - 1]))
  {
    var a := SkipSpace(s, 0);
    var b := TrimEndIndex(s, a, |s|);
    s[a..b]
  }

  /**
   * Lower-casing of one character for the suffix tests. ASCII capitals and
   * the Kelvin sign (U+212A, whose lower case is `k`) are the only characters
   * whose Python lower case ends in an ASCII letter; every other character is
   * kept as it is.
   */
  function LowerChar(c: char): (r: char)
    ensures 'A' <= c <= 'Z' ==> r as int == c as int + 32
    ensures c as int < 128 && !('A' <= c <= 'Z') ==> r == c
  {
    if 'A' <= c <= 'Z' then (c as int + 32) as char
    else if c as int == 0x212A then 'k'
    else c
  }

  function Lower(s: string): (r: string)
    ensures |r| == |s|
    ensures forall i :: 0 <= i < |s| ==> r[i] == LowerChar(s[i])
  {
    seq(|s|, i requires 0 <= i < |s| => LowerChar(s[i]))
  }

  /** `s.endswith(suffix)`. */
  predicate EndsWith(s: string, suffix: string) {
    |suffix| <= |s| && s[|s| - |suffix|..] == suffix
  }

  /** ASCII text without capitals, as the literal suffixes the merger tests for. */
  predicate LowerAscii(t: string) {
    forall i :: 0 <= i < |t| ==> t[i] as int < 128 && !('A' <= t[i] <= 'Z')
  }

  /** `c` is the ASCII character `l` in either case (or the Kelvin sign for `k`). */
  predicate CaseMatch(c: char, l: char) {
    c == l || ('a' <= l <= 'z' && c as int == l as int - 32) || (l == 'k' && c as int == 0x212A)
  }

  /** `s` ends with `suffix` when case is ignored. */
  predicate EndsWithIgnoringCase(s: string, suffix: string) {
    |suffix| <= |s| && forall i :: 0 <= i < |suffix| ==> CaseMatch(s[|s| - |suffix| + i], suffix[i])
  }

  /** The characters that lower-case to an ASCII character without capitals are those that match it. */
  lemma LowerCharMatch(c: char, l: char)
    requires l as int < 128 && !('A' <= l <= 'Z')
    ensures LowerChar(c) == l <==> CaseMatch(c, l)
  {
  }

  /**
   * `s.lower().endswith(suffix)` for a lower-case ASCII `suffix` is the
   * case-insensitive suffix test: each of the last `|suffix|` characters of
   * `s` is the suffix's character, its capital, or the Kelvin sign for `k`.
   */
  lemma EndsWithLower(s: string, suffix: string)
    requires LowerAscii(suffix)
    ensures EndsWith(Lower(s), suffix) <==> EndsWithIgnoringCase(s, suffix)
  {
    if |suffix| <= |s| {
      var d := |s| - |suffix|;
      var tail := Lower(s)[d..];
      forall i | 0 <= i < |suffix|
        ensures tail[i] == suffix[i] <==> CaseMatch(s[d + i], suffix[i])
      {
        LowerCharMatch(s[d + i], suffix[i]);
      }
      if EndsWithIgnoringCase(s, suffix) {
        assert tail == suffix;
      }
    }
  }
}
