/**
  The two pieces of Python string behaviour the report relies on: `str.strip()`
  with no argument (used to clean up article codes) and `str.upper()` followed by
  `startswith` (used to recognise sale identifiers).
 */
module Strings {

  /** Python's `str.isspace` for one character: tab, line feed, vertical tab,
      form feed and carriage return; the four information separators and
      space; next line and no-break space; and the Unicode space and
      line/paragraph separators. */
  predicate IsSpace(c: char) {
    || ('\t' <= c <= '\r')
    || ('\U{1C}' <= c <= ' ')
    || c == '\U{85}' || c == '\U{A0}' || c == '\U{1680}'
    || ('\U{2000}' <= c <= '\U{200A}')
    || ('\U{2028}' <= c <= '\U{2029}')
    || c == '\U{202F}' || c == '\U{205F}' || c == '\U{3000}'
  }

  /** Every character of `s` from index `i` up to (not including) `j` is
      whitespace. */
  predicate SpaceBetween(s: string, i: int, j: int)
    requires 0 <= i <= j <= |s|
  {
    forall k {:trigger IsSpace(s[k])} :: i <= k < j ==> IsSpace(s[k])
  }

  /** True when every character of `s` is whitespace (vacuously for ""). */
  predicate AllSpace(s: string) {
    SpaceBetween(s, 0, |s|)
  }

  /** Where `s.lstrip()` starts: the first index at or after `i` that does not
      hold whitespace, or `|s|`. */
  function StripStart(s: string, i: nat): (b: nat)
    requires i <= |s|
    ensures i <= b <= |s|
    ensures SpaceBetween(s, i, b)
    ensures b == |s| || !IsSpace(s[b])
    decreases |s| - i
  {
    if i < |s| && IsSpace(s[i]) then StripStart(s, i + 1) else i
  }

  /** Where `s.rstrip()` ends, not looking below `lo`: the last index down
      from `j` whose previous character is not whitespace, or `lo`. */
  function StripEnd(s: string, lo: nat, j: nat): (e: nat)
    requires lo <= j <= |s|
    ensures lo <= e <= j
    ensures SpaceBetween(s, e, j)
    ensures e == lo || !IsSpace(s[e - 1])
    decreases j
  {
    if lo < j && IsSpace(s[j - 1]) then StripEnd(s, lo, j - 1) else j
  }

  /** `s.strip()`: `s` with whitespace removed from both ends. The result
      neither starts nor ends with whitespace, and it is empty exactly when `s`
      is all whitespace; `StripSlice` says which part of `s` it is. */
  function Strip(s: string): (r: string)
    ensures r == [] || (!IsSpace(r[0]) && !IsSpace(r[|r| - 1]))
    ensures r == [] <==> AllSpace(s)
  {
    var b := StripStart(s, 0);
    var e := StripEnd(s, b, |s|);
    StripEnds(s, b, e);
    s[b..e]
  }

  /** The strip of `s` is the slice of `s` between its leading and its
      trailing whitespace: what is cut off on either side is whitespace only. */
  lemma StripSlice(s: string)
    ensures var b := StripStart(s, 0); var r := Strip(s);
      && b + |r| <= |s|
      && r == s[b..b + |r|]
      && SpaceBetween(s, 0, b)
      && SpaceBetween(s, b + |r|, |s|)
  {
  }

  /** The facts behind `Strip`'s contract, for the two cut points. */
  lemma StripEnds(s: string, b: nat, e: nat)
    requires b <= e <= |s|
    requires SpaceBetween(s, 0, b) && (b == |s| || !IsSpace(s[b]))
    requires SpaceBetween(s, e, |s|) && (e == b || !IsSpace(s[e - 1]))
    ensures b == e <==> AllSpace(s)
  {
    if b == e {
      assert forall k :: 0 <= k < |s| ==> (k < b ==> IsSpace(s[k])) && (e <= k ==> IsSpace(s[k]));
    } else {
      assert !IsSpace(s[b]);
    }
  }

  /** A string that neither starts nor ends with whitespace is its own strip. */
  lemma StripTrimmed(s: string)
    requires s == [] || (!IsSpace(s[0]) && !IsSpace(s[|s| - 1]))
    ensures Strip(s) == s
  {
    assert StripStart(s, 0) == 0;
    if s != [] {
      assert StripEnd(s, 0, |s|) == |s|;
    }
  }

  /** Stripping twice is the same as stripping once. */
  lemma StripIdempotent(s: string)
    ensures Strip(Strip(s)) == Strip(s)
  {
    StripTrimmed(Strip(s));
  }

  /** `c.upper()` for an ASCII letter; every other character is left unchanged. */
  function AsciiUpper(c: char): (u: char)
    ensures 'A' <= u <= 'Z' <==> ('A' <= c <= 'Z' || 'a' <= c <= 'z')
    ensures 'a' <= c <= 'z' ==> u as int - 'A' as int == c as int - 'a' as int
    ensures !('a' <= c <= 'z') ==> u == c
    ensures u == 'S' <==> c == 's' || c == 'S'
  {
    if 'a' <= c <= 'z' then (c as int - 32) as char else c
  }

  /** `s.upper()`, character by character, with `AsciiUpper`. */
  function Upper(s: string): (r: string)
    ensures |r| == |s|
    ensures forall i :: 0 <= i < |s| ==> r[i] == AsciiUpper(s[i])
    ensures StartsWith(r, "S") <==> |s| > 0 && (s[0] == 's' || s[0] == 'S')
  {
    seq(|s|, i requires 0 <= i < |s| => AsciiUpper(s[i]))
  }

  /** `s.startswith(p)`. */
  predicate StartsWith(s: string, p: string) {
    |p| <= |s| && s[..|p|] == p
  }
}
