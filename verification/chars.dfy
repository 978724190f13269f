/** Character classes of Python's `str` methods and `re` syntax, restricted to ASCII. */
module Chars {

  /** Python's `str.isspace` (and what `\s` matches in a `str` pattern) on ASCII:
      space, tab, line feed, vertical tab, form feed, carriage return, and the four
      separator controls 0x1C-0x1F. */
  predicate IsSpace(c: char) {
    c == ' ' || (9 <= c as int <= 13) || (28 <= c as int <= 31)
  }

  predicate IsUpper(c: char) {
    'A' <= c <= 'Z'
  }

  /** Python's `str.lower` on one ASCII character; other characters are kept. */
  function ToLower(c: char): (r: char)
    ensures !IsUpper(r)
    ensures IsUpper(c) ==> r != c && ToUpperInverse(r) == c
    ensures !IsUpper(c) ==> r == c
  {
    if IsUpper(c) then (c as int + 32) as char else c
  }

  /** Inverse of `ToLower` on the upper-case letters, used to say `ToLower` loses nothing. */
  function ToUpperInverse(c: char): char {
    if 'a' <= c <= 'z' then (c as int - 32) as char else c
  }

  predicate IsDigit(c: char) {
    '0' <= c <= '9'
  }

  /** The regular-expression class `[0-9.]`. */
  predicate IsTokenChar(c: char) {
    IsDigit(c) || c == '.'
  }

  function DigitValue(c: char): (d: nat)
    requires IsDigit(c)
    ensures d < 10
  {
    c as int - '0' as int
  }

  function DigitChar(d: nat): (c: char)
    requires d < 10
    ensures IsDigit(c) && DigitValue(c) == d
  {
    ('0' as int + d) as char
  }

  /** Every character of `s` in `[lo, hi)` is whitespace. */
  predicate SpaceBetween(s: seq<char>, lo: nat, hi: nat)
    requires lo <= hi <= |s|
  {
    forall k :: lo <= k < hi ==> IsSpace(s[k])
  }

  /** The first position at or after `from` that holds no whitespace (or `|s|`). */
  function SkipSpace(s: seq<char>, from: nat): (r: nat)
    requires from <= |s|
    ensures from <= r <= |s| && SpaceBetween(s, from, r)
    ensures r < |s| ==> !IsSpace(s[r])
    decreases |s| - from
  {
    if from < |s| && IsSpace(s[from]) then SkipSpace(s, from + 1) else from
  }

  /** `SkipSpace` stops at the first non-whitespace character after a run of whitespace. */
  lemma SkipSpaceExact(s: seq<char>, from: nat, p: nat)
    requires from <= p <= |s| && SpaceBetween(s, from, p)
    requires p < |s| ==> !IsSpace(s[p])
    ensures SkipSpace(s, from) == p
  {
  }
}
