/** The period cut as written leaves the period at the start of the next
    piece. When that piece has no other period among its first `max_size`
    characters, the next cut falls at index 0, the piece does not change,
    and the loop runs forever. Cutting just after the period, which keeps
    each sentence whole as the docstring intends, always makes progress. */
module Findings {
  import opened PyStr
  import opened Paragraphs
  import opened Chunker
  import opened ChunkerProperties

  /** As written: `split_document_into_chunks("a.bbbbbb", max_size=5)`
      never returns. The first cut emits "a" and leaves ".bbbbbb"; there
      the last period below 5 is at index 0, so the cut emits "" and leaves
      ".bbbbbb" again. */
  lemma PeriodRemainderStalls(text: string)
    requires text == "a.bbbbbb"
    ensures SplitChunks(text, 5) == Diverges
  {
    assert forall j :: 1 < j < 5 ==> text[j] != '.';
    PeriodCut(text, 5, 1);
    var rest := text[1..];
    assert forall j :: 0 < j < 5 ==> rest[j] != '.';
    PeriodCut(rest, 5, 0);
    assert '\n' !in text;
    NoLineFeedNoBreak(text);
    OneParagraphText(text, 5);
  }

  /** The corrected cut: just after the last period below `m`; failing
      that, at the last space below `m`; failing that, at `m`. */
  function SentenceCutIndex(para: string, m: nat): (k: nat)
    requires 0 < m < |para|
    ensures k <= m
    ensures |Remainder(para, k)| < |para|
  {
    var dot := RFind(para, '.', m);
    if dot != -1 then dot + 1
    else
      var space := RFind(para, ' ', m);
      if space > 0 then space
      else if space == 0 then
        assert LStrip(para[0..]) == LStrip(para[1..]) by { assert para[0..] == para; }
        0
      else m
  }

  /** With a period below `m`, the corrected cut falls just after the last
      one, so the chunk ends with that period. */
  lemma SentenceCutIndexSpec(para: string, m: nat)
    requires 0 < m < |para|
    ensures var k := SentenceCutIndex(para, m);
      (exists j :: 0 <= j < m && para[j] == '.') ==>
        0 < k && para[k - 1] == '.' && forall j :: k <= j < m ==> para[j] != '.'
  {
    RFindIsLast(para, '.', m);
  }

  /** The chunks of one paragraph with the corrected cut. It always
      returns when `m` is positive. */
  function ChunkParagraphKeepingPeriod(para: string, m: nat): (r: seq<string>)
    requires 0 < m
    ensures r == [] <==> para == []
    decreases |para|
  {
    if |para| <= m then (if para == [] then [] else [para])
    else
      var k := SentenceCutIndex(para, m);
      [para[..k]] + ChunkParagraphKeepingPeriod(Remainder(para, k), m)
  }

  /** The corrected chunker over a whole document. */
  function SplitChunksKeepingPeriod(text: string, maxSize: nat): seq<string>
    requires 0 < maxSize
  {
    if text == [] then [] else ChunkParagraphsKeepingPeriod(SplitParagraphs(text), maxSize)
  }

  /** The corrected chunks of a list of paragraphs, in order. */
  function ChunkParagraphsKeepingPeriod(ps: seq<string>, m: nat): seq<string>
    requires 0 < m
  {
    if ps == [] then []
    else ChunkParagraphsKeepingPeriod(ps[..|ps| - 1], m) + ChunkParagraphKeepingPeriod(ps[|ps| - 1], m)
  }

  /** With the corrected cut every chunk still has at most `m` characters. */
  lemma {:induction false} KeepingPeriodBounded(para: string, m: nat)
    requires 0 < m
    ensures forall c :: c in ChunkParagraphKeepingPeriod(para, m) ==> |c| <= m
    decreases |para|
  {
    if |para| > m {
      KeepingPeriodBounded(Remainder(para, SentenceCutIndex(para, m)), m);
    }
  }

  /** No chunk of the corrected document chunker is longer than `maxSize`. */
  lemma {:induction false} KeepingPeriodDocumentBounded(ps: seq<string>, m: nat)
    requires 0 < m
    ensures forall c :: c in ChunkParagraphsKeepingPeriod(ps, m) ==> |c| <= m
  {
    if ps != [] {
      KeepingPeriodDocumentBounded(ps[..|ps| - 1], m);
      KeepingPeriodBounded(ps[|ps| - 1], m);
    }
  }

  /** No chunk of the corrected chunker, over a whole document, is longer
      than `maxSize`. */
  lemma SplitChunksKeepingPeriodBounded(text: string, maxSize: nat)
    requires 0 < maxSize
    ensures forall c :: c in SplitChunksKeepingPeriod(text, maxSize) ==> |c| <= maxSize
  {
    if text != [] {
      KeepingPeriodDocumentBounded(SplitParagraphs(text), maxSize);
    }
  }

  /** With the corrected cut the chunks still give the paragraph back, up
      to the whitespace removed after each cut. */
  lemma {:induction false} KeepingPeriodReassembles(para: string, m: nat)
    requires 0 < m
    ensures Reassembles(para, ChunkParagraphKeepingPeriod(para, m))
    decreases |para|
  {
    if |para| <= m {
      if para == [] {
        ReassemblesWith(para, [], []);
      } else {
        assert Interleave([para], [[]]) == para;
        ReassemblesWith(para, [para], [[]]);
      }
    } else {
      var k := SentenceCutIndex(para, m);
      var rest := Remainder(para, k);
      KeepingPeriodReassembles(rest, m);
      var cs := ChunkParagraphKeepingPeriod(rest, m);
      var ws :| Gaps(cs, ws) && rest == Interleave(cs, ws);
      CutReassembles(para, k, cs, ws);
    }
  }

  /** With the corrected cut, a chunk cut at a period ends with that period. */
  lemma KeepingPeriodEndsSentence(para: string, m: nat, i: nat)
    requires 0 < m < |para| && i < m && para[i] == '.'
    ensures ChunkParagraphKeepingPeriod(para, m)[0] == para[..SentenceCutIndex(para, m)]
    ensures var c := ChunkParagraphKeepingPeriod(para, m)[0]; c != [] && c[|c| - 1] == '.'
  {
    SentenceCutIndexSpec(para, m);
  }

  /** The correction changes nothing for a paragraph without a period:
      there the code as written returns, and returns the same chunks. */
  lemma {:induction false} KeepingPeriodAgreesWithoutPeriod(para: string, m: nat)
    requires 0 < m
    requires forall j :: 0 <= j < |para| ==> para[j] != '.'
    ensures ChunkParagraph(para, m) == Returns(ChunkParagraphKeepingPeriod(para, m))
    decreases |para|
  {
    if |para| > m {
      var k, rest := AgreeingCut(para, m);
      KeepingPeriodAgreesWithoutPeriod(rest, m);
    }
  }

  /** Without a period, both cuts fall at the same place and leave the
      same remainder, which has no period either. */
  lemma AgreeingCut(para: string, m: nat) returns (k: nat, rest: string)
    requires 0 < m < |para|
    requires forall j :: 0 <= j < |para| ==> para[j] != '.'
    ensures k == CutIndex(para, m) == SentenceCutIndex(para, m) && rest == Remainder(para, k)
    ensures |rest| < |para| && forall j :: 0 <= j < |rest| ==> rest[j] != '.'
    ensures ChunkParagraph(para, m) == Then(Returns([para[..k]]), ChunkParagraph(rest, m))
    ensures ChunkParagraphKeepingPeriod(para, m) == [para[..k]] + ChunkParagraphKeepingPeriod(rest, m)
  {
    k, rest := NoPeriodCut(para, m);
    assert k == SentenceCutIndex(para, m) by {
      CutIndexSpec(para, m);
    }
    KeepingPeriodStep(para, m, k);
  }

  /** One pass of the corrected loop. */
  lemma KeepingPeriodStep(para: string, m: nat, k: nat)
    requires 0 < m < |para| && k == SentenceCutIndex(para, m)
    ensures ChunkParagraphKeepingPeriod(para, m)
         == [para[..k]] + ChunkParagraphKeepingPeriod(Remainder(para, k), m)
  {
  }

  /** The corrected chunker on the input that stalls the code as written. */
  lemma KeepingPeriodOnStallingInput(text: string)
    requires text == "a.bbbbbb"
    ensures ChunkParagraphKeepingPeriod(text, 5) == ["a.", "bbbbb", "b"]
  {
    FirstCutKeepsPeriod(text);
    KeepingPeriodStep(text, 5, 2);
    SixLettersHardCut(text[2..]);
  }

  /** The first step of that example: the cut falls after the period. */
  lemma FirstCutKeepsPeriod(text: string)
    requires text == "a.bbbbbb"
    ensures SentenceCutIndex(text, 5) == 2
    ensures Remainder(text, 2) == text[2..] == "bbbbbb" && text[..2] == "a."
  {
    assert !IsSpace(text[2]);
  }

  /** The second step of that example: a hard cut at 5. */
  lemma SixLettersHardCut(rest: string)
    requires rest == "bbbbbb"
    ensures ChunkParagraphKeepingPeriod(rest, 5) == ["bbbbb", "b"]
  {
    var last := rest[5..];
    assert SentenceCutIndex(rest, 5) == 5 && Remainder(rest, 5) == last by {
      assert !IsSpace(last[0]);
    }
    KeepingPeriodStep(rest, 5, 5);
    assert rest[..5] == "bbbbb" && last == "b";
  }
}
