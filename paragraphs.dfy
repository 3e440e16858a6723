/** `re.split(r"\n{2,}", text)`: the text cut into paragraphs at every
    maximal run of two or more line feeds. The regular-expression engine
    searches for the leftmost match and extends it greedily; the pieces
    between matches are the paragraphs, the matches themselves are
    dropped. */
module Paragraphs {

  /** A paragraph break (a match of `\n{2,}`) can start at index `i`. */
  predicate BreakAt(s: string, i: int) {
    0 <= i && i + 1 < |s| && s[i] == '\n' && s[i + 1] == '\n'
  }

  /** No paragraph break anywhere in `s`: a single line feed at most. */
  predicate NoBreak(s: string) {
    forall i :: 0 <= i < |s| ==> !BreakAt(s, i)
  }

  /** A separator removed by the split: two or more line feeds. */
  predicate IsBreakRun(w: string) {
    |w| >= 2 && forall k :: 0 <= k < |w| ==> w[k] == '\n'
  }

  /** The leftmost index at or after `from` where a break starts, or `|s|`. */
  function FirstBreak(s: string, from: nat): (r: nat)
    requires from <= |s|
    ensures from <= r <= |s|
    ensures r < |s| ==> BreakAt(s, r)
    ensures forall k :: from <= k < r ==> !BreakAt(s, k)
    decreases |s| - from
  {
    if from == |s| then |s|
    else if BreakAt(s, from) then from
    else FirstBreak(s, from + 1)
  }

  /** The end of the run of line feeds that starts at `i` (greedy match). */
  function RunEnd(s: string, i: nat): (r: nat)
    requires i <= |s|
    ensures i <= r <= |s|
    ensures forall k :: i <= k < r ==> s[k] == '\n'
    ensures r == |s| || s[r] != '\n'
    decreases |s| - i
  {
    if i == |s| || s[i] != '\n' then i else RunEnd(s, i + 1)
  }

  /** The paragraphs of `s`, in order: the list `re.split` returns. */
  function SplitParagraphs(s: string): (r: seq<string>)
    ensures |r| >= 1
    decreases |s|
  {
    var i := FirstBreak(s, 0);
    if i == |s| then [s]
    else [s[..i]] + SplitParagraphs(s[RunEnd(s, i)..])
  }

  /** The separators `re.split` drops, one between each two paragraphs. */
  function Separators(s: string): (r: seq<string>)
    ensures |r| == |SplitParagraphs(s)| - 1
    decreases |s|
  {
    var i := FirstBreak(s, 0);
    if i == |s| then []
    else [s[i..RunEnd(s, i)]] + Separators(s[RunEnd(s, i)..])
  }

  /** `ps[0] + ws[0] + ps[1] + ... + ws[n-2] + ps[n-1]`. */
  function Join(ps: seq<string>, ws: seq<string>): string
    requires |ps| == |ws| + 1
  {
    if ws == [] then ps[0] else ps[0] + ws[0] + Join(ps[1..], ws[1..])
  }

  /** One match of the split: when a break starts at the leftmost
      position `i` and its run of line feeds ends at `e`, the first
      paragraph is `s[..i]`, the first separator `s[i..e]`, and the rest
      comes from `s[e..]`. */
  lemma SplitStep(s: string, i: nat, e: nat)
    requires i == FirstBreak(s, 0) < |s| && e == RunEnd(s, i)
    ensures i + 2 <= e
    ensures SplitParagraphs(s) == [s[..i]] + SplitParagraphs(s[e..])
    ensures Separators(s) == [s[i..e]] + Separators(s[e..])
  {
  }

  /** The paragraphs and the separators, put back together, give the text. */
  lemma {:induction false} SplitParagraphsJoin(s: string)
    ensures Join(SplitParagraphs(s), Separators(s)) == s
    decreases |s|
  {
    var i := FirstBreak(s, 0);
    if i < |s| {
      var e := RunEnd(s, i);
      SplitStep(s, i, e);
      SplitParagraphsJoin(s[e..]);
      var ps, ws := SplitParagraphs(s), Separators(s);
      assert ps[1..] == SplitParagraphs(s[e..]) && ws[1..] == Separators(s[e..]);
      assert s == s[..i] + s[i..e] + s[e..];
    }
  }

  /** Every separator is a run of two or more line feeds. */
  lemma {:induction false} SeparatorsAreBreakRuns(s: string)
    ensures forall j :: 0 <= j < |Separators(s)| ==> IsBreakRun(Separators(s)[j])
    decreases |s|
  {
    var i := FirstBreak(s, 0);
    if i < |s| {
      var e := RunEnd(s, i);
      SplitStep(s, i, e);
      SeparatorsAreBreakRuns(s[e..]);
      var ws := Separators(s);
      assert IsBreakRun(ws[0]);
      assert forall j :: 1 <= j < |ws| ==> ws[j] == Separators(s[e..])[j - 1];
    }
  }

  /** No paragraph holds a break. */
  lemma {:induction false} ParagraphsHaveNoBreak(s: string)
    ensures forall j :: 0 <= j < |SplitParagraphs(s)| ==> NoBreak(SplitParagraphs(s)[j])
    decreases |s|
  {
    var i := FirstBreak(s, 0);
    if i == |s| {
      assert SplitParagraphs(s) == [s];
    } else {
      var e := RunEnd(s, i);
      SplitStep(s, i, e);
      ParagraphsHaveNoBreak(s[e..]);
      BeforeFirstBreak(s, i);
      var ps, qs := SplitParagraphs(s), SplitParagraphs(s[e..]);
      assert forall j :: 1 <= j < |ps| ==> ps[j] == qs[j - 1];
    }
  }

  /** `p` does not end with a line feed. */
  predicate EndsClean(p: string) {
    p == [] || p[|p| - 1] != '\n'
  }

  /** `p` does not begin with a line feed. */
  predicate StartsClean(p: string) {
    p == [] || p[0] != '\n'
  }

  /** The text before the first break holds no break. */
  lemma BeforeFirstBreak(s: string, i: nat)
    requires i == FirstBreak(s, 0)
    ensures NoBreak(s[..i])
  {
    forall k | 0 <= k < i ensures !BreakAt(s[..i], k) {
      assert !BreakAt(s, k);
    }
  }

  /** A paragraph followed by a separator does not end with a line feed:
      the separator took the whole run. */
  lemma {:induction false} ParagraphsEndBeforeRun(s: string)
    ensures forall j :: 0 <= j < |SplitParagraphs(s)| - 1 ==> EndsClean(SplitParagraphs(s)[j])
    decreases |s|
  {
    var i := FirstBreak(s, 0);
    if i < |s| {
      var e := RunEnd(s, i);
      SplitStep(s, i, e);
      ParagraphsEndBeforeRun(s[e..]);
      assert EndsClean(s[..i]) by {
        assert i > 0 ==> !BreakAt(s, i - 1);
      }
      var ps, qs := SplitParagraphs(s), SplitParagraphs(s[e..]);
      assert forall j :: 1 <= j < |ps| ==> ps[j] == qs[j - 1];
    }
  }

  /** A paragraph preceded by a separator does not begin with a line feed:
      the separator took the whole run. */
  lemma {:induction false} ParagraphsStartAfterRun(s: string)
    ensures forall j :: 1 <= j < |SplitParagraphs(s)| ==> StartsClean(SplitParagraphs(s)[j])
    decreases |s|
  {
    var i := FirstBreak(s, 0);
    if i < |s| {
      var e := RunEnd(s, i);
      var t := s[e..];
      SplitStep(s, i, e);
      ParagraphsStartAfterRun(t);
      var ps, qs := SplitParagraphs(s), SplitParagraphs(t);
      assert StartsClean(qs[0]) by {
        FirstParagraphStart(t);
      }
      assert forall j :: 1 <= j < |ps| ==> ps[j] == qs[j - 1];
    }
  }

  /** The first paragraph starts where the text does. */
  lemma FirstParagraphStart(s: string)
    ensures SplitParagraphs(s)[0] == [] || SplitParagraphs(s)[0][0] == s[0]
  {
  }

  /** A text without a blank line is a single paragraph: a lone line feed
      never splits it. */
  lemma NoBreakOneParagraph(s: string)
    requires NoBreak(s)
    ensures SplitParagraphs(s) == [s]
  {
    assert FirstBreak(s, 0) == |s|;
  }

  /** A text without line feeds holds no blank line. */
  lemma NoLineFeedNoBreak(s: string)
    requires '\n' !in s
    ensures NoBreak(s)
  {
    forall i | 0 <= i < |s| ensures !BreakAt(s, i) {
      assert s[i] in s;
    }
  }
}
