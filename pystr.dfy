/** The few operations on Python `str` values that the chunker relies on,
    written out over `string` (a sequence of Unicode scalar values). */
module PyStr {

  /** Python's `str.isspace` for a single character: the ASCII controls
      tab, line feed, vertical tab, form feed, carriage return, the four
      information separators U+001C..U+001F, the space, and the Unicode
      space and line/paragraph separator characters. */
  predicate IsSpace(c: char)
    ensures c == ' ' || c == '\t' || c == '\n' || c == '\r' ==> IsSpace(c)
    ensures IsSpace(c) ==> c != '.'
  {
    ('\t' <= c <= '\r') || ('\U{1C}' <= c <= ' ') || c == '\U{85}' || c == '\U{A0}'
    || c == '\U{1680}' || ('\U{2000}' <= c <= '\U{200A}') || c == '\U{2028}'
    || c == '\U{2029}' || c == '\U{202F}' || c == '\U{205F}' || c == '\U{3000}'
  }

  /** Every character of `s` is whitespace. */
  predicate AllSpace(s: string) {
    forall k :: 0 <= k < |s| ==> IsSpace(s[k])
  }

  /** `s.lstrip()`: `s` without its leading whitespace. The result does
      not begin with whitespace; the two lemmas below show that it is the
      suffix of `s` left once that whitespace is removed. */
  function LStrip(s: string): (r: string)
    ensures |r| <= |s|
    ensures r == [] || !IsSpace(r[0])
  {
    if s != [] && IsSpace(s[0]) then LStrip(s[1..]) else s
  }

  /** `lstrip` returns a suffix of its argument. */
  lemma {:induction false} LStripSuffix(s: string)
    ensures LStrip(s) == s[|s| - |LStrip(s)|..]
  {
    if s != [] && IsSpace(s[0]) {
      LStripSuffix(s[1..]);
    }
  }

  /** What `lstrip` removes is whitespace only. */
  lemma {:induction false} LStripRemovesWhitespace(s: string)
    ensures AllSpace(s[..|s| - |LStrip(s)|])
  {
    if s != [] && IsSpace(s[0]) {
      LStripRemovesWhitespace(s[1..]);
      var n := |s| - |LStrip(s)|;
      assert forall k :: 1 <= k < n ==> s[..n][k] == s[1..][..n - 1][k - 1];
    }
  }

  /** `s.rfind(c, 0, end)` for a non-negative `end`: the last index below
      `end` (and below `|s|`, as Python clamps the bound) holding `c`, or -1
      when there is none. */
  function RFind(s: string, c: char, end: nat): (r: int)
    ensures -1 <= r < end && r < |s|
    ensures r >= 0 ==> s[r] == c
    decreases end
  {
    if end > |s| then RFind(s, c, |s|)
    else if end == 0 then -1
    else if s[end - 1] == c then end - 1
    else RFind(s, c, end - 1)
  }

  /** `rfind` finds the last occurrence: no `c` lies between the index it
      returns and `end`, so -1 means that `c` does not occur below `end`. */
  lemma {:induction false} RFindIsLast(s: string, c: char, end: nat)
    ensures forall k :: RFind(s, c, end) < k < end && k < |s| ==> s[k] != c
    decreases end
  {
    if end > |s| {
      RFindIsLast(s, c, |s|);
    } else if end > 0 && s[end - 1] != c {
      RFindIsLast(s, c, end - 1);
    }
  }
}
