/** Header-name normalisation of the counting-site converter (`_normalize`):
    strip surrounding whitespace, lower-case, and turn each space into `_`. */
module HeaderNames {
  import opened Chars

  /** `r` occurs in `s` at `a` with nothing but whitespace before and after it. */
  predicate Framed(s: string, a: nat, r: string) {
    && a + |r| <= |s|
    && s[a..a + |r|] == r
    && SpaceBetween(s, 0, a)
    && SpaceBetween(s, a + |r|, |s|)
  }

  /** Neither the first nor the last character of `s` is whitespace. */
  predicate Trimmed(s: string) {
    |s| == 0 || (!IsSpace(s[0]) && !IsSpace(s[|s| - 1]))
  }

  /** The end of `s[lo..hi]` once trailing whitespace is dropped. */
  function SkipSpaceBack(s: string, lo: nat, hi: nat): (r: nat)
    requires lo <= hi <= |s|
    ensures lo <= r <= hi && SpaceBetween(s, r, hi)
    ensures r > lo ==> !IsSpace(s[r - 1])
    decreases hi - lo
  {
    if lo < hi && IsSpace(s[hi - 1]) then SkipSpaceBack(s, lo, hi - 1) else hi
  }

  /** Python's `str.strip()`: the result sits in `s` framed by whitespace only, and
      neither starts nor ends with whitespace. */
  function Strip(s: string): (r: string)
    ensures Trimmed(r)
    ensures exists a :: Framed(s, a, r)
  {
    var a := SkipSpace(s, 0);
    var b := SkipSpaceBack(s, a, |s|);
    assert a < b ==> !IsSpace(s[a..b][0]);
    assert Framed(s, a, s[a..b]);
    s[a..b]
  }

  /** Python's `str.lower()` on ASCII letters. */
  function Lower(s: string): (r: string)
    ensures |r| == |s| && forall k :: 0 <= k < |s| ==> r[k] == ToLower(s[k])
  {
    seq(|s|, k requires 0 <= k < |s| => ToLower(s[k]))
  }

  /** Python's `str.replace(" ", "_")`. */
  function ReplaceSpaces(s: string): (r: string)
    ensures |r| == |s|
    ensures forall k :: 0 <= k < |s| ==> r[k] == (if s[k] == ' ' then '_' else s[k])
  {
    seq(|s|, k requires 0 <= k < |s| => if s[k] == ' ' then '_' else s[k])
  }

  /** The shape every normalised header has. */
  predicate Normalized(s: string) {
    && (forall k :: 0 <= k < |s| ==> s[k] != ' ' && !IsUpper(s[k]))
    && Trimmed(s)
  }

  /** `_normalize`: the result contains no space character, no upper-case ASCII letter,
      and no leading or trailing whitespace; it is never longer than the input. */
  function Normalize(name: string): (r: string)
    ensures Normalized(r)
    ensures |r| <= |name|
  {
    var t := Strip(name);
    var r := ReplaceSpaces(Lower(t));
    assert |r| > 0 ==> r[0] != ' ' && r[|r| - 1] != ' ';
    r
  }

  lemma StripKeepsTrimmed(s: string)
    requires Trimmed(s)
    ensures Strip(s) == s
  {
    StripUnique(s, 0, s);
  }

  /** A header is left unchanged by normalisation exactly when it already has the
      normalised shape. */
  lemma {:induction false} NormalizeFixedPoints(s: string)
    ensures Normalize(s) == s <==> Normalized(s)
  {
    if Normalized(s) {
      StripKeepsTrimmed(s);
      assert Lower(s) == s;
      assert ReplaceSpaces(s) == s;
    }
  }

  /** `_normalize` is idempotent. */
  lemma NormalizeIdempotent(name: string)
    ensures Normalize(Normalize(name)) == Normalize(name)
  {
    NormalizeFixedPoints(Normalize(name));
  }

  /** Whitespace around a header does not change its normalised form. */
  lemma NormalizeIgnoresSurroundingSpace(lead: string, name: string, trail: string)
    requires SpaceBetween(lead, 0, |lead|) && SpaceBetween(trail, 0, |trail|)
    ensures Normalize(lead + name + trail) == Normalize(name)
  {
    StripSurrounded(lead, name, trail);
  }

  lemma StripSurrounded(lead: string, name: string, trail: string)
    requires SpaceBetween(lead, 0, |lead|) && SpaceBetween(trail, 0, |trail|)
    ensures Strip(lead + name + trail) == Strip(name)
  {
    var q := Strip(name);
    var b: nat :| Framed(name, b, q);
    FramedSurrounded(lead, name, trail, b, q);
    StripUnique(lead + name + trail, |lead| + b, q);
  }

  /** What whitespace frames inside `name` it still frames once more whitespace surrounds `name`. */
  lemma FramedSurrounded(lead: string, name: string, trail: string, b: nat, q: string)
    requires SpaceBetween(lead, 0, |lead|) && SpaceBetween(trail, 0, |trail|) && Framed(name, b, q)
    ensures Framed(lead + name + trail, |lead| + b, q)
  {
    var s := lead + name + trail;
    assert s[|lead| + b..|lead| + b + |q|] == name[b..b + |q|];
    forall k | 0 <= k < |lead| + b ensures IsSpace(s[k]) {
      if k >= |lead| { assert s[k] == name[k - |lead|]; }
    }
    forall k | |lead| + b + |q| <= k < |s| ensures IsSpace(s[k]) {
      if k < |lead| + |name| { assert s[k] == name[k - |lead|]; }
      else { assert s[k] == trail[k - |lead| - |name|]; }
    }
  }

  /** A string splits in only one way into whitespace, a trimmed stretch and whitespace:
      so a trimmed `r` framed by whitespace in `s` is what `Strip` returns. */
  lemma StripUnique(s: string, a: nat, r: string)
    requires Framed(s, a, r) && Trimmed(r)
    ensures Strip(s) == r
  {
    var q := Strip(s);
    var b: nat :| Framed(s, b, q);
    assert b + |q| <= |s| && s[b..b + |q|] == q;
    if |r| > 0 { assert s[a] == r[0] && s[a + |r| - 1] == r[|r| - 1]; }
    if |q| > 0 { assert s[b] == q[0] && s[b + |q| - 1] == q[|q| - 1]; }
    if |r| > 0 && |q| > 0 {
      assert a == b;
      assert a + |r| == b + |q|;
    }
  }

  /** A header that is already trimmed is only lower-cased and has its spaces replaced. */
  lemma NormalizeTrimmed(name: string)
    requires Trimmed(name)
    ensures |Normalize(name)| == |name|
    ensures forall k :: 0 <= k < |name| ==>
              Normalize(name)[k] == (if name[k] == ' ' then '_' else ToLower(name[k]))
  {
    StripKeepsTrimmed(name);
  }

  /** The Workbench header `Counting Site ID` normalises to `counting_site_id`. */
  lemma NormalizeWorkbenchHeader(h: string, r: string)
    requires h == "Counting Site ID" && r == "counting_site_id"
    ensures Normalize(h) == r
  {
    assert Trimmed(h) by {
      assert h[0] == 'C' && h[|h| - 1] == 'D';
    }
    NormalizeTrimmed(h);
    forall k | 0 <= k < |h|
      ensures Normalize(h)[k] == r[k]
    {
    }
  }
}
