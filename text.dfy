/**
 * The few Python string operations the pipeline relies on: `str.isspace`,
 * `str.strip`, the substring test `sub in s` and `sep.join(xs)`.
 */
module Text {

  /**
   * Python's `str.isspace()` for one code point: the characters whose
   * bidirectional class is WS, B or S, or whose general category is Zs.
   * The regular-expression class `\s` of a `str` pattern is the same set.
   */
  predicate IsSpace(c: char) {
    || ('\t' <= c <= '\r')
    || ('\U{1C}' <= c <= '\U{1F}')
    || c == ' '
    || c == '\U{85}'
    || c == '\U{A0}'
    || c == '\U{1680}'
    || ('\U{2000}' <= c <= '\U{200A}')
    || c == '\U{2028}'
    || c == '\U{2029}'
    || c == '\U{202F}'
    || c == '\U{205F}'
    || c == '\U{3000}'
  }

  /** Every character of `s` is whitespace. */
  predicate AllSpace(s: string) {
    forall i :: 0 <= i < |s| ==> IsSpace(s[i])
  }

  predicate StartsWith(s: string, prefix: string) {
    |prefix| <= |s| && s[..|prefix|] == prefix
  }

  /** How many whitespace characters `s` starts with. */
  function LeadingSpaces(s: string): (n: nat)
    ensures n <= |s| && AllSpace(s[..n])
    ensures n == |s| || !IsSpace(s[n])
  {
    if s != [] && IsSpace(s[0]) then
      var m := LeadingSpaces(s[1..]);
      assert s[..1 + m] == [s[0]] + s[1..][..m];
      1 + m
    else
      0
  }

  /** How many whitespace characters `s` ends with. */
  function TrailingSpaces(s: string): (n: nat)
    ensures n <= |s| && AllSpace(s[|s| - n..])
    ensures n == |s| || !IsSpace(s[|s| - n - 1])
  {
    if s != [] && IsSpace(s[|s| - 1]) then
      var m := TrailingSpaces(s[..|s| - 1]);
      assert s[|s| - (1 + m)..] == s[..|s| - 1][|s| - 1 - m..] + [s[|s| - 1]];
      1 + m
    else
      0
  }

  /**
   * `r` is what `s.strip()` leaves: a contiguous piece of `s` such that
   * everything cut off on either side is whitespace and `r` neither starts
   * nor ends with whitespace.
   */
  ghost predicate IsStripOf(r: string, s: string) {
    && (r == [] || (!IsSpace(r[0]) && !IsSpace(r[|r| - 1])))
    && exists lo :: StripWindow(r, s, lo)
  }

  /** `r` sits in `s` at index `lo` with only whitespace before and after it. */
  predicate StripWindow(r: string, s: string, lo: int) {
    0 <= lo <= |s| - |r| && s[lo..lo + |r|] == r && AllSpace(s[..lo]) && AllSpace(s[lo + |r|..])
  }

  /** Python's `s.strip()`. */
  function Strip(s: string): (r: string)
    ensures IsStripOf(r, s)
    ensures r == [] <==> AllSpace(s)
  {
    var hi := |s| - TrailingSpaces(s);
    var right := s[..hi];
    var lo := LeadingSpaces(right);
    var r := right[lo..];
    assert r == s[lo..hi] && right[..lo] == s[..lo];
    assert r == [] ==> s == s[..lo] + s[hi..];
    assert StripWindow(r, s, lo);
    r
  }

  /** Two whitespace-bounded windows of `s` with only whitespace outside them coincide. */
  lemma SameWindow(s: string, lo: nat, n: nat, lo': nat, n': nat)
    requires lo + n <= |s| && lo' + n' <= |s| && n > 0 && n' > 0
    requires !IsSpace(s[lo]) && !IsSpace(s[lo + n - 1])
    requires !IsSpace(s[lo']) && !IsSpace(s[lo' + n' - 1])
    requires AllSpace(s[..lo]) && AllSpace(s[lo + n..])
    requires AllSpace(s[..lo']) && AllSpace(s[lo' + n'..])
    ensures lo == lo' && n == n'
  {
    assert forall i :: 0 <= i < lo ==> s[..lo][i] == s[i];
    assert forall i :: 0 <= i < lo' ==> s[..lo'][i] == s[i];
    assert forall i :: lo + n <= i < |s| ==> s[lo + n..][i - (lo + n)] == s[i];
    assert forall i :: lo' + n' <= i < |s| ==> s[lo' + n'..][i - (lo' + n')] == s[i];
  }

  /** Only a string made of whitespace strips to nothing. */
  lemma EmptyWindowAllSpace(s: string, lo: int)
    requires StripWindow([], s, lo)
    ensures AllSpace(s)
  {
    forall i | 0 <= i < |s| ensures IsSpace(s[i]) {
      if i < lo { assert s[..lo][i] == s[i]; } else { assert s[lo..][i - lo] == s[i]; }
    }
  }

  /** Two strips of the same string are equal. */
  lemma StripsAgree(r: string, t: string, s: string)
    requires IsStripOf(r, s) && IsStripOf(t, s)
    ensures r == t
  {
    var lo :| StripWindow(r, s, lo);
    var lo' :| StripWindow(t, s, lo');
    assert r != [] ==> s[lo] == r[0] && s[lo + |r| - 1] == r[|r| - 1];
    assert t != [] ==> s[lo'] == t[0] && s[lo' + |t| - 1] == t[|t| - 1];
    if r == [] {
      EmptyWindowAllSpace(s, lo);
    } else if t == [] {
      EmptyWindowAllSpace(s, lo');
    } else {
      SameWindow(s, lo, |r|, lo', |t|);
    }
  }

  /** The strip of a string is unique: `IsStripOf` pins down `Strip`. */
  lemma StripIsUnique(r: string, s: string)
    requires IsStripOf(r, s)
    ensures r == Strip(s)
  {
    StripsAgree(r, Strip(s), s);
  }

  /** `sub` occurs in `s` starting at index `i`. */
  predicate OccursAt(s: string, sub: string, i: int) {
    0 <= i && i + |sub| <= |s| && s[i..i + |sub|] == sub
  }

  /** Python's `sub in s`: `sub` occurs somewhere in `s` as a contiguous piece. */
  function Contains(s: string, sub: string): (b: bool)
    ensures b <==> exists i :: OccursAt(s, sub, i)
    decreases |s|
  {
    if OccursAt(s, sub, 0) then
      true
    else if |s| <= |sub| then
      false
    else
      assert forall i :: OccursAt(s, sub, i) ==> i >= 1 && OccursAt(s[1..], sub, i - 1);
      assert forall i :: OccursAt(s[1..], sub, i) ==> s[1..][i..i + |sub|] == s[i + 1..i + 1 + |sub|] && OccursAt(s, sub, i + 1);
      Contains(s[1..], sub)
  }

  /** Python's `sep.join(xs)`. */
  function Join(sep: string, xs: seq<string>): (r: string)
    ensures xs == [] ==> r == ""
    ensures xs != [] ==> StartsWith(r, xs[0])
  {
    if xs == [] then ""
    else if |xs| == 1 then xs[0]
    else xs[0] + sep + Join(sep, xs[1..])
  }

  /** Every joined piece occurs in the joined string. */
  lemma {:induction false} JoinContainsEach(sep: string, xs: seq<string>, k: nat)
    requires k < |xs|
    ensures Contains(Join(sep, xs), xs[k])
  {
    var r := Join(sep, xs);
    if k == 0 {
      assert OccursAt(r, xs[0], 0);
    } else {
      var rest := Join(sep, xs[1..]);
      JoinContainsEach(sep, xs[1..], k - 1);
      var x := xs[k];
      var i :| OccursAt(rest, x, i);
      var off := |xs[0]| + |sep|;
      assert r == xs[0] + sep + rest;
      assert r[off + i..off + i + |x|] == rest[i..i + |x|];
      assert OccursAt(r, x, off + i);
    }
  }
}
