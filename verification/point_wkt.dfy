/** The point parser of the quarter exporter (`parse_point_wkt`): the leftmost match of
    `POINT\\s*\\(\\s*([0-9.]+)\\s+([0-9.]+)\\s*\\)` in a text, with both groups read by
    `float`. */
module PointWkt {
  import opened Wrappers
  import opened Chars

  // ---------------------------------------------------------------------------
  // The pattern, as a predicate on positions

  /** The positions of one match: `POINT` at `start`, `(` at `open`, group 1 in
      `[a1, b1)`, group 2 in `[a2, b2)`, `)` at `close`. */
  datatype Match = Match(start: nat, open: nat, a1: nat, b1: nat, a2: nat, b2: nat, close: nat)

  /** Every character of `s` in `[lo, hi)` is in the class `[0-9.]`. */
  predicate TokenBetween(s: string, lo: nat, hi: nat)
    requires lo <= hi <= |s|
  {
    forall k :: lo <= k < hi ==> IsTokenChar(s[k])
  }

  /** `m` is a match of the pattern in `s`: the keyword, `\s*`, `(`, `\s*`, a non-empty
      `[0-9.]` run, a non-empty whitespace run, a non-empty `[0-9.]` run, `\s*`, `)`. */
  predicate IsMatch(s: string, m: Match) {
    && m.start + 5 <= m.open < m.a1 < m.b1 < m.a2 < m.b2 <= m.close < |s|
    && s[m.start] == 'P' && s[m.start + 1] == 'O' && s[m.start + 2] == 'I'
    && s[m.start + 3] == 'N' && s[m.start + 4] == 'T'
    && SpaceBetween(s, m.start + 5, m.open) && s[m.open] == '('
    && SpaceBetween(s, m.open + 1, m.a1)
    && TokenBetween(s, m.a1, m.b1)
    && SpaceBetween(s, m.b1, m.a2)
    && TokenBetween(s, m.a2, m.b2)
    && SpaceBetween(s, m.b2, m.close) && s[m.close] == ')'
  }

  /** The pattern matches `s` at position `i`. */
  ghost predicate MatchesAt(s: string, i: nat) {
    exists m: Match :: m.start == i && IsMatch(s, m)
  }

  // ---------------------------------------------------------------------------
  // The scanner

  /** The first position at or after `from` outside the class `[0-9.]` (or `|s|`). */
  function SkipTokens(s: string, from: nat): (r: nat)
    requires from <= |s|
    ensures from <= r <= |s| && TokenBetween(s, from, r)
    ensures r < |s| ==> !IsTokenChar(s[r])
    decreases |s| - from
  {
    if from < |s| && IsTokenChar(s[from]) then SkipTokens(s, from + 1) else from
  }

  lemma SkipTokensExact(s: string, from: nat, p: nat)
    requires from <= p <= |s| && TokenBetween(s, from, p)
    requires p < |s| ==> !IsTokenChar(s[p])
    ensures SkipTokens(s, from) == p
  {
  }

  /** Try the pattern at position `i`, taking every run as long as it goes. */
  function ScanAt(s: string, i: nat): (r: Option<Match>)
    requires i <= |s|
    ensures r.Some? ==> r.value.start == i && IsMatch(s, r.value)
  {
    if i + 5 > |s| || s[i] != 'P' || s[i + 1] != 'O' || s[i + 2] != 'I' || s[i + 3] != 'N' || s[i + 4] != 'T'
    then None
    else
      var open := SkipSpace(s, i + 5);
      if open == |s| || s[open] != '(' then None
      else
        var a1 := SkipSpace(s, open + 1);
        var b1 := SkipTokens(s, a1);
        if b1 == a1 then None
        else
          var a2 := SkipSpace(s, b1);
          if a2 == b1 then None
          else
            var b2 := SkipTokens(s, a2);
            if b2 == a2 then None
            else
              var close := SkipSpace(s, b2);
              if close == |s| || s[close] != ')' then None
              else Some(Match(i, open, a1, b1, a2, b2, close))
  }

  /** Every match is found by the scanner: the character classes of adjacent pieces are
      disjoint, so each run of a match is as long as it can be. */
  lemma ScanComplete(s: string, m: Match)
    requires IsMatch(s, m)
    ensures ScanAt(s, m.start) == Some(m)
  {
    ScanPositions(s, m);
    ScanAtPositions(s, m.start, m.open, m.a1, m.b1, m.a2, m.b2, m.close);
  }

  /** The scanner at `i` when each of its steps is known. */
  lemma ScanAtPositions(s: string, i: nat, open: nat, a1: nat, b1: nat, a2: nat, b2: nat, close: nat)
    requires i + 5 <= |s| && s[i] == 'P' && s[i + 1] == 'O' && s[i + 2] == 'I'
    requires s[i + 3] == 'N' && s[i + 4] == 'T'
    requires SkipSpace(s, i + 5) == open && open < |s| && s[open] == '('
    requires SkipSpace(s, open + 1) == a1 && SkipTokens(s, a1) == b1 && b1 != a1
    requires SkipSpace(s, b1) == a2 && a2 != b1 && SkipTokens(s, a2) == b2 && b2 != a2
    requires SkipSpace(s, b2) == close && close < |s| && s[close] == ')'
    ensures ScanAt(s, i) == Some(Match(i, open, a1, b1, a2, b2, close))
  {
  }

  /** Each scanning step lands on the boundary of the corresponding piece of `m`. */
  lemma ScanPositions(s: string, m: Match)
    requires IsMatch(s, m)
    ensures SkipSpace(s, m.start + 5) == m.open
    ensures SkipSpace(s, m.open + 1) == m.a1
    ensures SkipTokens(s, m.a1) == m.b1
    ensures SkipSpace(s, m.b1) == m.a2
    ensures SkipTokens(s, m.a2) == m.b2
    ensures SkipSpace(s, m.b2) == m.close
  {
    SkipSpaceExact(s, m.start + 5, m.open);
    SkipSpaceExact(s, m.open + 1, m.a1);
    assert IsSpace(s[m.b1]);
    SkipTokensExact(s, m.a1, m.b1);
    SkipSpaceExact(s, m.b1, m.a2);
    assert IsSpace(s[m.b2]) || s[m.b2] == ')';
    SkipTokensExact(s, m.a2, m.b2);
    SkipSpaceExact(s, m.b2, m.close);
  }

  /** At a given position the pattern matches in at most one way. */
  lemma MatchUnique(s: string, m1: Match, m2: Match)
    requires IsMatch(s, m1) && IsMatch(s, m2) && m1.start == m2.start
    ensures m1 == m2
  {
    ScanComplete(s, m1);
    ScanComplete(s, m2);
  }

  /** The scanner tried at `i`, `i + 1`, ... until it succeeds. */
  function SearchFrom(s: string, i: nat): (r: Option<Match>)
    requires i <= |s|
    ensures r.Some? ==> IsMatch(s, r.value) && i <= r.value.start
                        && forall k :: i <= k < r.value.start ==> !MatchesAt(s, k)
    ensures r.None? ==> forall k :: i <= k ==> !MatchesAt(s, k)
    decreases |s| - i
  {
    var here := ScanAt(s, i);
    assert here.None? ==> !MatchesAt(s, i) by {
      if MatchesAt(s, i) {
        var m: Match :| m.start == i && IsMatch(s, m);
        ScanComplete(s, m);
      }
    }
    if here.Some? then here
    else if i == |s| then None
    else SearchFrom(s, i + 1)
  }

  /** `re.search`: the match that starts leftmost, or `None` when there is none. */
  function Search(s: string): (r: Option<Match>)
    ensures r.Some? ==> IsMatch(s, r.value) && forall k: nat :: k < r.value.start ==> !MatchesAt(s, k)
    ensures r.None? <==> forall k: nat :: !MatchesAt(s, k)
  {
    var r := SearchFrom(s, 0);
    assert r.Some? ==> MatchesAt(s, r.value.start);
    r
  }

  // ---------------------------------------------------------------------------
  // `float` on a matched group

  predicate AllDigits(t: string) {
    forall k :: 0 <= k < |t| ==> IsDigit(t[k])
  }

  /** The value of a string of decimal digits; the empty string counts 0. */
  function DigitsValue(d: string): nat
    requires AllDigits(d)
  {
    if |d| == 0 then 0 else DigitsValue(d[..|d| - 1]) * 10 + DigitValue(d[|d| - 1])
  }

  function Pow10(n: nat): (r: nat)
    ensures r > 0
  {
    if n == 0 then 1 else 10 * Pow10(n - 1)
  }

  /** What `float` accepts among runs of `[0-9.]`: at least one digit and at most one dot. */
  predicate IsNumeral(t: string) {
    && (exists k :: 0 <= k < |t| && IsDigit(t[k]))
    && forall a, b :: 0 <= a < b < |t| ==> !(t[a] == '.' && t[b] == '.')
  }

  /** The position of the first dot, or `|t|`. */
  function DotIndex(t: string): (r: nat)
    ensures r <= |t| && (forall k :: 0 <= k < r ==> t[k] != '.') && (r < |t| ==> t[r] == '.')
  {
    if |t| == 0 then 0 else if t[0] == '.' then 0 else 1 + DotIndex(t[1..])
  }

  /** Python's `float` on a run of `[0-9.]`: the exact value of the numeral, or `None`
      where `float` raises `ValueError`. */
  function DecimalValue(t: string): (r: Option<real>)
    requires TokenBetween(t, 0, |t|)
    ensures r.Some? <==> IsNumeral(t)
  {
    var d := DotIndex(t);
    if d == |t| then
      assert AllDigits(t);
      if |t| == 0 then None
      else
        assert IsDigit(t[0]);
        Some(DigitsValue(t) as real)
    else
      var w := t[..d];
      var f := t[d + 1..];
      if (exists k :: 0 <= k < |f| && f[k] == '.') then
        assert !IsNumeral(t) by {
          var k :| 0 <= k < |f| && f[k] == '.';
          assert t[d] == '.' && t[d + 1 + k] == '.';
        }
        None
      else
        assert AllDigits(w) && AllDigits(f);
        assert forall a, b :: 0 <= a < b < |t| && t[a] == '.' ==> a == d && t[b] == f[b - d - 1];
        if |w| + |f| == 0 then
          assert |t| == 1;
          None
        else
          assert IsDigit(t[0]) || IsDigit(t[d + 1]);
          Some(NumeralValue(w, f))
  }

  /** The value of the numeral with whole part `w` and fraction digits `f`. */
  function NumeralValue(w: string, f: string): real
    requires AllDigits(w) && AllDigits(f)
  {
    DigitsValue(w) as real + DigitsValue(f) as real / Pow10(|f|) as real
  }

  /** `n` as Python's `str` writes a non-negative integer. */
  function NatDigits(n: nat): (r: string)
    ensures |r| > 0 && AllDigits(r)
  {
    if n < 10 then [DigitChar(n)] else NatDigits(n / 10) + [DigitChar(n % 10)]
  }

  /** Writing a whole number in decimal and reading it back gives the number. */
  lemma {:induction false} NatDigitsRoundTrip(n: nat)
    ensures DigitsValue(NatDigits(n)) == n
  {
    if n >= 10 {
      NatDigitsRoundTrip(n / 10);
      var d := NatDigits(n);
      assert d[..|d| - 1] == NatDigits(n / 10);
    }
  }

  lemma DotIndexExact(t: string, p: nat)
    requires p <= |t| && (forall k :: 0 <= k < p ==> t[k] != '.') && (p < |t| ==> t[p] == '.')
    ensures DotIndex(t) == p
  {
  }

  /** A numeral `w.f` (digits, a dot, digits, not both empty) reads as `w + f / 10^|f|`. */
  lemma DecimalValueOfNumeral(w: string, f: string)
    requires AllDigits(w) && AllDigits(f) && |w| + |f| > 0
    ensures TokenBetween(w + "." + f, 0, |w + "." + f|)
    ensures DecimalValue(w + "." + f) == Some(NumeralValue(w, f))
  {
    var t := w + "." + f;
    assert forall k :: 0 <= k < |w| ==> t[k] == w[k];
    assert t[|w|] == '.';
    DotIndexExact(t, |w|);
    assert t[..|w|] == w && t[|w| + 1..] == f;
    assert forall k :: 0 <= k < |f| ==> f[k] != '.';
  }

  /** A run of digits without a dot reads as its integer value. */
  lemma DecimalValueOfDigits(w: string)
    requires AllDigits(w) && |w| > 0
    ensures TokenBetween(w, 0, |w|) && DecimalValue(w) == Some(DigitsValue(w) as real)
  {
    DotIndexExact(w, |w|);
  }

  // ---------------------------------------------------------------------------
  // `parse_point_wkt`

  /** The `ValueError` of `float` on a matched group that is not a numeral. */
  datatype FloatError = InvalidLiteral(token: string)

  function Group1(s: string, m: Match): (g: string)
    requires IsMatch(s, m)
    ensures |g| > 0 && TokenBetween(g, 0, |g|)
  {
    s[m.a1..m.b1]
  }

  function Group2(s: string, m: Match): (g: string)
    requires IsMatch(s, m)
    ensures |g| > 0 && TokenBetween(g, 0, |g|)
  {
    s[m.a2..m.b2]
  }

  /** `parse_point_wkt`: `(None, None)` when the pattern occurs nowhere; otherwise both
      groups of the leftmost match read by `float`, the first group first. */
  function ParsePoint(text: string): (r: Result<(Option<real>, Option<real>), FloatError>)
    ensures r.Ok? ==> (r.value.0.Some? <==> r.value.1.Some?)
  {
    match Search(text)
    case None => Ok((None, None))
    case Some(m) => ReadGroups(Group1(text, m), Group2(text, m))
  }

  /** `float(m.group(1)), float(m.group(2))`: the first group is read first, so its
      `ValueError` is the one raised when both are malformed. */
  function ReadGroups(east: string, north: string): (r: Result<(Option<real>, Option<real>), FloatError>)
    requires TokenBetween(east, 0, |east|) && TokenBetween(north, 0, |north|)
    ensures r.Ok? <==> IsNumeral(east) && IsNumeral(north)
    ensures r.Ok? ==> r.value.0.Some? && r.value.1.Some?
    ensures r.Ok? ==> r.value == (DecimalValue(east), DecimalValue(north))
    ensures r.Err? ==> r.error.token == (if IsNumeral(east) then north else east)
  {
    match DecimalValue(east)
    case None => Err(InvalidLiteral(east))
    case Some(x) =>
      match DecimalValue(north)
      case None => Err(InvalidLiteral(north))
      case Some(y) => Ok((Some(x), Some(y)))
  }

  // ---------------------------------------------------------------------------
  // Properties of the parser

  /** `(None, None)` comes back exactly when the pattern matches nowhere. */
  lemma ParsePointNoneIff(text: string)
    ensures ParsePoint(text).Ok? && ParsePoint(text).value.0.None? <==> forall k: nat :: !MatchesAt(text, k)
  {
  }

  /** A `ValueError` comes from the leftmost match: its first group when that is not a
      numeral, otherwise its second group, which then is not one. */
  lemma ParseErrorIsFirstBadGroup(text: string)
    requires ParsePoint(text).Err?
    ensures Search(text).Some?
    ensures var m := Search(text).value;
            var token := ParsePoint(text).error.token;
            (token == Group1(text, m) && !IsNumeral(Group1(text, m)))
            || (token == Group2(text, m) && IsNumeral(Group1(text, m)) && !IsNumeral(Group2(text, m)))
  {
  }

  /** When both groups of the leftmost match are numerals, the result is their decimal
      values, east first. */
  lemma ParsePointValue(text: string, m: Match)
    requires Search(text) == Some(m)
    requires IsNumeral(Group1(text, m)) && IsNumeral(Group2(text, m))
    ensures ParsePoint(text) == Ok((DecimalValue(Group1(text, m)), DecimalValue(Group2(text, m))))
    ensures DecimalValue(Group1(text, m)).Some? && DecimalValue(Group2(text, m)).Some?
  {
  }

  /** A text made of the keyword, `(`, two numerals separated by one space, and `)`. */
  function PointText(east: string, north: string): string {
    "POINT (" + east + " " + north + ")"
  }

  /** No character of a match after its first one is a `P`: the keyword is `POINT`, and
      whitespace, `[0-9.]`, `(` and `)` are not `P`. */
  lemma MatchHasOneKeyword(s: string, m: Match)
    requires IsMatch(s, m)
    ensures forall j :: m.start < j <= m.close ==> s[j] != 'P'
  {
  }

  /** A match that is not preceded by any other match is what `re.search` returns. */
  lemma SearchIsLeftmost(s: string, m: Match)
    requires IsMatch(s, m) && forall k: nat :: k < m.start ==> !MatchesAt(s, k)
    ensures Search(s) == Some(m)
  {
    assert MatchesAt(s, m.start);
    var r := Search(s).value;
    assert MatchesAt(s, r.start);
    MatchUnique(s, r, m);
  }

  /** A match at the very start of a text is the leftmost one. */
  lemma SearchFindsMatchAtStart(s: string, m: Match)
    requires IsMatch(s, m) && m.start == 0
    ensures Search(s) == Some(m)
  {
    SearchIsLeftmost(s, m);
  }

  /** The keyword `POINT` starts at position `k` of `text`. */
  predicate KeywordAt(text: string, k: nat) {
    k + 5 <= |text| && text[k..k + 5] == "POINT"
  }

  /** `re.search` finds nothing: `parse_point_wkt` gives `(None, None)`. */
  lemma ParsePointOfSearchNone(text: string)
    requires Search(text).None?
    ensures ParsePoint(text) == Ok((None, None))
  {
  }

  /** Nothing matches: `parse_point_wkt` gives `(None, None)`. */
  lemma ParsePointOfNoMatch(text: string)
    requires forall k: nat :: !MatchesAt(text, k)
    ensures ParsePoint(text) == Ok((None, None))
  {
    ParsePointNoneIff(text);
  }

  /** A text without the keyword `POINT` parses to `(None, None)`. */
  lemma ParsePointWithoutKeyword(text: string)
    requires forall k: nat :: !KeywordAt(text, k)
    ensures ParsePoint(text) == Ok((None, None))
  {
    forall k: nat | MatchesAt(text, k)
      ensures KeywordAt(text, k)
    {
      var m: Match :| m.start == k && IsMatch(text, m);
      assert text[k..k + 5] == "POINT";
    }
    ParsePointOfNoMatch(text);
  }

  /** Only position 0 holds a `P` and the scanner fails there: nothing matches. */
  lemma NoMatchWhenFirstScanFails(s: string)
    requires forall k :: 0 < k < |s| ==> s[k] != 'P'
    requires ScanAt(s, 0).None?
    ensures ParsePoint(s) == Ok((None, None))
  {
    forall k: nat | MatchesAt(s, k)
      ensures false
    {
      var m: Match :| m.start == k && IsMatch(s, m);
      ScanComplete(s, m);
    }
    ParsePointOfNoMatch(s);
  }

  /** `POINT (E N)` with runs `E` and `N` of `[0-9.]`: both are read by `float`, and the
      first one that is not a numeral raises. */
  lemma ParsePointOfTokens(east: string, north: string)
    requires |east| > 0 && TokenBetween(east, 0, |east|)
    requires |north| > 0 && TokenBetween(north, 0, |north|)
    ensures ParsePoint(PointText(east, north))
            == if !IsNumeral(east) then Err(InvalidLiteral(east))
               else if !IsNumeral(north) then Err(InvalidLiteral(north))
               else Ok((DecimalValue(east), DecimalValue(north)))
  {
    var s := PointText(east, north);
    var b1 := 7 + |east|;
    var b2 := b1 + 1 + |north|;
    var m := Match(0, 6, 7, b1, b1 + 1, b2, b2);
    assert s[..7] == "POINT (";
    assert s[7..b1] == east;
    assert s[b1] == ' ';
    assert s[b1 + 1..b2] == north;
    assert s[b2] == ')';
    assert IsMatch(s, m);
    SearchFindsMatchAtStart(s, m);
  }

  /** `float` rejects `1.2.3`, so `POINT (1.2.3 5)` raises instead of giving `(None, None)`. */
  lemma ParsePointRejectsTwoDots(east: string, north: string)
    requires east == "1.2.3" && north == "5"
    ensures ParsePoint(PointText(east, north)) == Err(InvalidLiteral(east))
  {
    assert east[1] == '.' && east[3] == '.';
    ParsePointOfTokens(east, north);
  }

  /** `float` rejects a lone dot, so `POINT (. 5)` raises. */
  lemma ParsePointRejectsLoneDot(east: string, north: string)
    requires east == "." && north == "5"
    ensures ParsePoint(PointText(east, north)) == Err(InvalidLiteral(east))
  {
    ParsePointOfTokens(east, north);
  }

  /** Where the pieces of `POINT (E N)` sit. */
  lemma PointTextLayout(east: string, north: string)
    ensures var s := PointText(east, north);
            && |s| == 9 + |east| + |north|
            && s[0] == 'P' && s[1] == 'O' && s[2] == 'I' && s[3] == 'N' && s[4] == 'T'
            && s[5] == ' ' && s[6] == '('
            && (forall k :: 0 <= k < |east| ==> s[7 + k] == east[k])
            && s[7 + |east|] == ' '
            && (forall k :: 0 <= k < |north| ==> s[8 + |east| + k] == north[k])
            && s[8 + |east| + |north|] == ')'
  {
  }

  /** The scanner stops right after `(` when the first coordinate does not start with a
      run of `[0-9.]` followed by whitespace. */
  lemma SignOrExponentScan(digits: string, rest: string, north: string)
    requires TokenBetween(digits, 0, |digits|)
    requires |rest| > 0 && !IsTokenChar(rest[0]) && !IsSpace(rest[0])
    ensures ScanAt(PointText(digits + rest, north), 0).None?
  {
    var east := digits + rest;
    var s := PointText(east, north);
    var b1 := 7 + |digits|;
    PointTextLayout(east, north);
    assert forall k :: 0 <= k < |digits| ==> s[7 + k] == digits[k];
    assert s[b1] == rest[0];
    SkipSpaceExact(s, 5, 6);
    SkipSpaceExact(s, 7, 7);
    SkipTokensExact(s, 7, b1);
    SkipSpaceExact(s, b1, b1);
  }

  /** A first coordinate that is a (possibly empty) `[0-9.]` run followed by a character
      that is neither in `[0-9.]` nor whitespace, such as the sign of `-1` or `+1` or the
      exponent of `1e5`: the text does not match, and parses to `(None, None)`. */
  lemma ParsePointRejectsSignOrExponent(digits: string, rest: string, north: string)
    requires TokenBetween(digits, 0, |digits|)
    requires |rest| > 0 && !IsTokenChar(rest[0]) && !IsSpace(rest[0])
    requires forall k :: 0 <= k < |rest| ==> rest[k] != 'P'
    requires forall k :: 0 <= k < |north| ==> north[k] != 'P'
    ensures ParsePoint(PointText(digits + rest, north)) == Ok((None, None))
  {
    var east := digits + rest;
    SignOrExponentScan(digits, rest, north);
    assert forall k :: 0 <= k < |east| ==> east[k] != 'P' by {
      assert forall k :: 0 <= k < |digits| ==> east[k] == digits[k];
      assert forall k :: 0 <= k < |rest| ==> east[|digits| + k] == rest[k];
    }
    PointTextKeywordOnce(east, north);
    NoMatchWhenFirstScanFails(PointText(east, north));
  }

  /** The scanner stops inside the second coordinate when that one does not start with
      a run of `[0-9.]` followed by whitespace or `)`. */
  lemma NorthSignOrExponentScan(east: string, digits: string, rest: string)
    requires |east| > 0 && TokenBetween(east, 0, |east|)
    requires TokenBetween(digits, 0, |digits|)
    requires |rest| > 0 && !IsTokenChar(rest[0]) && !IsSpace(rest[0]) && rest[0] != ')'
    ensures ScanAt(PointText(east, digits + rest), 0).None?
  {
    var north := digits + rest;
    var s := PointText(east, north);
    var b1 := 7 + |east|;
    var b2 := b1 + 1 + |digits|;
    PointTextLayout(east, north);
    assert forall k :: 0 <= k < |digits| ==> s[b1 + 1 + k] == digits[k];
    assert s[b2] == rest[0];
    SkipSpaceExact(s, 5, 6);
    SkipSpaceExact(s, 7, 7);
    SkipTokensExact(s, 7, b1);
    SkipSpaceExact(s, b1, b1 + 1);
    SkipTokensExact(s, b1 + 1, b2);
    SkipSpaceExact(s, b2, b2);
  }

  /** The same for the second coordinate: a (possibly empty) `[0-9.]` run followed by a
      character that is neither in `[0-9.]`, whitespace nor `)`, as in `POINT (1 -2)` or
      `POINT (1 2e5)`: the text does not match, and parses to `(None, None)`. */
  lemma ParsePointRejectsSignOrExponentInNorth(east: string, digits: string, rest: string)
    requires |east| > 0 && TokenBetween(east, 0, |east|)
    requires TokenBetween(digits, 0, |digits|)
    requires |rest| > 0 && !IsTokenChar(rest[0]) && !IsSpace(rest[0]) && rest[0] != ')'
    requires forall k :: 0 <= k < |rest| ==> rest[k] != 'P'
    ensures ParsePoint(PointText(east, digits + rest)) == Ok((None, None))
  {
    var north := digits + rest;
    NorthSignOrExponentScan(east, digits, rest);
    assert forall k :: 0 <= k < |east| ==> east[k] != 'P';
    assert forall k :: 0 <= k < |north| ==> north[k] != 'P' by {
      assert forall k :: 0 <= k < |digits| ==> north[k] == digits[k];
      assert forall k :: 0 <= k < |rest| ==> north[|digits| + k] == rest[k];
    }
    PointTextKeywordOnce(east, north);
    NoMatchWhenFirstScanFails(PointText(east, north));
  }

  /** The scanner stops at the third run of `POINT (A B C)`, where `)` is due. */
  lemma ThirdCoordinateScan(a: string, b: string, c: string)
    requires |a| > 0 && TokenBetween(a, 0, |a|)
    requires |b| > 0 && TokenBetween(b, 0, |b|)
    requires |c| > 0 && TokenBetween(c, 0, |c|)
    ensures ScanAt(PointText(a, b + " " + c), 0).None?
  {
    var north := b + " " + c;
    var s := PointText(a, north);
    var b1 := 7 + |a|;
    var b2 := b1 + 1 + |b|;
    PointTextLayout(a, north);
    assert north[|b|] == ' ' && north[|b| + 1] == c[0];
    assert forall k :: 0 <= k < |b| ==> s[b1 + 1 + k] == b[k];
    assert s[b2] == ' ' && s[b2 + 1] == c[0];
    SkipSpaceExact(s, 5, 6);
    SkipSpaceExact(s, 7, 7);
    SkipTokensExact(s, 7, b1);
    SkipSpaceExact(s, b1, b1 + 1);
    SkipTokensExact(s, b1 + 1, b2);
    SkipSpaceExact(s, b2, b2 + 1);
  }

  /** `POINT (E N)` holds a `P` only at its start when `E` and `N` hold none. */
  lemma PointTextKeywordOnce(east: string, north: string)
    requires forall k :: 0 <= k < |east| ==> east[k] != 'P'
    requires forall k :: 0 <= k < |north| ==> north[k] != 'P'
    ensures var s := PointText(east, north); forall k :: 0 < k < |s| ==> s[k] != 'P'
  {
    PointTextLayout(east, north);
  }

  /** A third coordinate before `)`: `POINT (A B C)` does not match, and parses to
      `(None, None)`. */
  lemma ParsePointRejectsThirdCoordinate(a: string, b: string, c: string)
    requires |a| > 0 && TokenBetween(a, 0, |a|)
    requires |b| > 0 && TokenBetween(b, 0, |b|)
    requires |c| > 0 && TokenBetween(c, 0, |c|)
    ensures ParsePoint(PointText(a, b + " " + c)) == Ok((None, None))
  {
    ThirdCoordinateScan(a, b, c);
    var north := b + " " + c;
    assert forall k :: 0 <= k < |north| ==> north[k] != 'P' by {
      assert forall k :: 0 <= k < |b| ==> north[k] == b[k];
      assert forall k :: 0 <= k < |c| ==> north[|b| + 1 + k] == c[k];
    }
    PointTextKeywordOnce(a, north);
    NoMatchWhenFirstScanFails(PointText(a, north));
  }

  /** A match that ends inside `s` is a match of `s` exactly when it is one of `s + q`. */
  lemma MatchInPrefix(s: string, q: string, m: Match)
    requires m.close < |s|
    ensures IsMatch(s, m) <==> IsMatch(s + q, m)
  {
    assert forall k :: 0 <= k < |s| ==> (s + q)[k] == s[k];
  }

  /** Text after the leftmost match does not change which match `re.search` finds. */
  lemma SearchIgnoresTrailingText(s: string, q: string)
    requires Search(s).Some?
    ensures Search(s + q) == Search(s)
  {
    var m := Search(s).value;
    MatchInPrefix(s, q, m);
    forall k: nat | k < m.start && MatchesAt(s + q, k)
      ensures false
    {
      var m': Match :| m'.start == k && IsMatch(s + q, m');
      MatchHasOneKeyword(s + q, m');
      assert (s + q)[m.start] == 'P';
      MatchInPrefix(s, q, m');
      assert MatchesAt(s, k);
    }
    SearchIsLeftmost(s + q, m);
  }

  /** Two texts whose leftmost matches have the same groups parse alike. */
  lemma ParsePointOfSameGroups(s: string, m: Match, t: string, n: Match)
    requires Search(s) == Some(m) && Search(t) == Some(n)
    requires Group1(s, m) == Group1(t, n) && Group2(s, m) == Group2(t, n)
    ensures ParsePoint(s) == ParsePoint(t)
  {
  }

  /** The part of `s + q` inside `s` is the same part of `s`. */
  lemma SliceOfConcat(s: string, q: string, a: nat, b: nat)
    requires a <= b <= |s|
    ensures (s + q)[a..b] == s[a..b]
  {
  }

  /** A match of `s` moved right by `|p|` is a match of `p + s` with the same groups. */
  lemma ShiftedGroups(p: string, s: string, m: Match)
    requires IsMatch(s, m)
    ensures IsMatch(p + s, Shift(m, |p|))
    ensures Group1(p + s, Shift(m, |p|)) == Group1(s, m)
    ensures Group2(p + s, Shift(m, |p|)) == Group2(s, m)
  {
    MatchShift(p, s, m);
    var sm := Shift(m, |p|);
    assert sm.a1 == m.a1 + |p| && sm.b1 == m.b1 + |p| && sm.a2 == m.a2 + |p| && sm.b2 == m.b2 + |p|;
    SliceAfterPrefix(p, s, m.a1, m.b1);
    SliceAfterPrefix(p, s, m.a2, m.b2);
  }

  lemma SliceAfterPrefix(p: string, s: string, a: nat, b: nat)
    requires a <= b <= |s|
    ensures (p + s)[a + |p|..b + |p|] == s[a..b]
  {
  }

  /** Text after the leftmost match is ignored. */
  lemma ParsePointIgnoresTrailingText(s: string, q: string)
    requires Search(s).Some?
    ensures ParsePoint(s + q) == ParsePoint(s)
  {
    var m := Search(s).value;
    SearchIgnoresTrailingText(s, q);
    SliceOfConcat(s, q, m.a1, m.b1);
    SliceOfConcat(s, q, m.a2, m.b2);
    assert Group1(s + q, m) == Group1(s, m) && Group2(s + q, m) == Group2(s, m);
    ParsePointOfSameGroups(s + q, m, s, m);
  }

  /** `m` moved `d` characters to the right. */
  function Shift(m: Match, d: nat): (r: Match)
    ensures r.start == m.start + d && r.close == m.close + d
  {
    Match(m.start + d, m.open + d, m.a1 + d, m.b1 + d, m.a2 + d, m.b2 + d, m.close + d)
  }

  /** Putting `p` in front of a text moves its matches right by `|p|`. */
  lemma MatchShift(p: string, s: string, m: Match)
    ensures IsMatch(s, m) <==> IsMatch(p + s, Shift(m, |p|))
  {
    assert forall k :: 0 <= k < |s| ==> (p + s)[|p| + k] == s[k];
  }

  /** A match of `p + s` that starts after `p` is a shifted match of `s`. */
  lemma MatchUnshift(p: string, s: string, m: Match)
    requires IsMatch(p + s, m) && m.start >= |p|
    ensures MatchesAt(s, m.start - |p|)
  {
    var d := |p|;
    var m0 := Match(m.start - d, m.open - d, m.a1 - d, m.b1 - d, m.a2 - d, m.b2 - d, m.close - d);
    assert Shift(m0, d) == m;
    MatchShift(p, s, m0);
  }

  /** A match of `p + s` past `p` comes from a match of `s`, and back. */
  lemma MatchesAfterPrefix(p: string, s: string)
    ensures forall k: nat :: MatchesAt(s, k) ==> MatchesAt(p + s, k + |p|)
    ensures forall k: nat :: |p| <= k && MatchesAt(p + s, k) ==> MatchesAt(s, k - |p|)
  {
    forall k: nat | MatchesAt(s, k)
      ensures MatchesAt(p + s, k + |p|)
    {
      var m: Match :| m.start == k && IsMatch(s, m);
      MatchShift(p, s, m);
    }
    forall k: nat | |p| <= k && MatchesAt(p + s, k)
      ensures MatchesAt(s, k - |p|)
    {
      var m': Match :| m'.start == k && IsMatch(p + s, m');
      MatchUnshift(p, s, m');
    }
  }

  /** Text before the leftmost match does not change what `re.search` finds, as long as
      no match starts in it; the match only moves. */
  lemma SearchIgnoresLeadingText(p: string, s: string)
    requires forall k: nat :: k < |p| ==> !MatchesAt(p + s, k)
    ensures Search(s).None? ==> Search(p + s).None?
    ensures Search(s).Some? ==> Search(p + s) == Some(Shift(Search(s).value, |p|))
  {
    MatchesAfterPrefix(p, s);
    if Search(s).Some? {
      var m := Search(s).value;
      MatchShift(p, s, m);
      SearchIsLeftmost(p + s, Shift(m, |p|));
    }
  }

  /** A match moved right by `|p|` has the same groups. */
  lemma ParsePointOfShiftedSearch(p: string, s: string, m: Match)
    requires Search(s) == Some(m) && Search(p + s) == Some(Shift(m, |p|))
    ensures ParsePoint(p + s) == ParsePoint(s)
  {
    ShiftedGroups(p, s, m);
    ParsePointOfSameGroups(p + s, Shift(m, |p|), s, m);
  }

  /** Text before the leftmost match is ignored, as long as no match starts in it. */
  lemma ParsePointIgnoresLeadingText(p: string, s: string)
    requires forall k: nat :: k < |p| ==> !MatchesAt(p + s, k)
    ensures ParsePoint(p + s) == ParsePoint(s)
  {
    SearchIgnoresLeadingText(p, s);
    match Search(s)
    case Some(m) => ParsePointOfShiftedSearch(p, s, m);
    case None =>
      ParsePointOfSearchNone(p + s);
      ParsePointOfSearchNone(s);
  }

  /** The digits of `n`, written out, are `d`. */
  lemma DigitsValueOfLiteral(d: string, n: nat)
    requires d == NatDigits(n)
    ensures AllDigits(d) && DigitsValue(d) == n
  {
    NatDigitsRoundTrip(n);
  }

  lemma EastDigits()
    ensures AllDigits("2683000") && DigitsValue("2683000") == 2683000
  {
    assert NatDigits(2) == "2";
    assert NatDigits(26) == "26";
    assert NatDigits(268) == "268";
    assert NatDigits(2683) == "2683";
    assert NatDigits(26830) == "26830";
    assert NatDigits(268300) == "268300";
    assert NatDigits(2683000) == "2683000";
    DigitsValueOfLiteral("2683000", 2683000);
  }

  lemma NorthDigits()
    ensures AllDigits("1247000") && DigitsValue("1247000") == 1247000
  {
    assert NatDigits(1) == "1";
    assert NatDigits(12) == "12";
    assert NatDigits(124) == "124";
    assert NatDigits(1247) == "1247";
    assert NatDigits(12470) == "12470";
    assert NatDigits(124700) == "124700";
    assert NatDigits(1247000) == "1247000";
    DigitsValueOfLiteral("1247000", 1247000);
  }

  /** `float("2683000.0")` is 2683000. */
  lemma EastValue(e: string)
    requires e == "2683000.0"
    ensures |e| > 0 && TokenBetween(e, 0, |e|) && IsNumeral(e) && DecimalValue(e) == Some(2683000.0)
  {
    var w, f := "2683000", "0";
    assert e == w + "." + f;
    EastDigits();
    DecimalValueOfNumeral(w, f);
    assert IsDigit(e[0]);
  }

  /** `float("1247000.0")` is 1247000. */
  lemma NorthValue(n: string)
    requires n == "1247000.0"
    ensures |n| > 0 && TokenBetween(n, 0, |n|) && IsNumeral(n) && DecimalValue(n) == Some(1247000.0)
  {
    var w, f := "1247000", "0";
    assert n == w + "." + f;
    NorthDigits();
    DecimalValueOfNumeral(w, f);
    assert IsDigit(n[0]);
  }

  /** `POINT (2683000.0 1247000.0)` parses to exactly (2683000.0, 1247000.0). */
  lemma ParsePointExample(e: string, n: string)
    requires e == "2683000.0" && n == "1247000.0"
    ensures ParsePoint(PointText(e, n)) == Ok((Some(2683000.0), Some(1247000.0)))
  {
    EastValue(e);
    NorthValue(n);
    ParsePointOfTokens(e, n);
  }
}
