/** The three examples in the docstring of `split_document_into_chunks`,
    proved of the model. The example strings are written as
    concatenations of shorter literals; the strings are the same. One
    more example shows that a chunk can be empty. */
module Doctests {
  import opened PyStr
  import opened Paragraphs
  import opened Chunker
  import opened ChunkerProperties

  /** `w * n` in Python: `n` copies of `w`, one after the other. */
  function Repeat(w: string, n: nat): (r: string)
    ensures |r| == |w| * n
  {
    if n == 0 then [] else Repeat(w, n - 1) + w
  }

  /** A character missing from `w` is missing from every repetition of it. */
  lemma {:induction false} RepeatAvoids(w: string, n: nat, c: char)
    requires c !in w
    ensures c !in Repeat(w, n)
  {
    if n > 0 {
      RepeatAvoids(w, n - 1, c);
    }
  }

  /** Two lines joined by a single line feed hold no blank line. */
  lemma OneLineFeedNoBreak(a: string, b: string)
    requires '\n' !in a && '\n' !in b
    ensures NoBreak(a + "\n" + b)
  {
    var s := a + "\n" + b;
    forall i | 0 <= i < |s| ensures !BreakAt(s, i) {
      if i < |a| {
        assert s[i] == a[i];
      } else if i + 1 < |s| {
        assert s[i + 1] == b[i - |a|];
      }
    }
  }

  /** `split_document_into_chunks('This is a sentence.\nThis is another
      paragraph')` is the text itself: a single line feed does not split. */
  lemma SentenceAndLineStayWhole()
    ensures var text := "This is a sentence." + "\n" + "This is another paragraph";
      SplitChunks(text, 4000) == Returns([text])
  {
    OneLineFeedNoBreak("This is a sentence.", "This is another paragraph");
    ShortTextOneChunk("This is a sentence." + "\n" + "This is another paragraph", 4000);
  }

  /** `len(split_document_into_chunks("gabbledigook"*1000)[0])` is 4000:
      with neither a period nor a space, the first cut is hard at 4000.
      The count is a parameter fixed at 1000 so that the 12000-character
      text is reasoned about symbolically. */
  lemma GabbledigookHardCut(n: nat)
    requires n == 1000
    ensures var text := Repeat("gabbledigook", n);
      SplitChunks(text, 4000).Returns? && |SplitChunks(text, 4000).chunks| > 0
      && SplitChunks(text, 4000).chunks[0] == text[..4000]
      && |SplitChunks(text, 4000).chunks[0]| == 4000
  {
    var text := Repeat("gabbledigook", n);
    assert |text| == 12000;
    LowerCaseWord("gabbledigook");
    RepeatAvoids("gabbledigook", n, '.');
    RepeatAvoids("gabbledigook", n, ' ');
    RepeatAvoids("gabbledigook", n, '\n');
    FirstChunkHard(text, 4000);
  }

  /** The repeated word is made of lower-case letters only. */
  lemma LowerCaseWord(w: string)
    requires w == "gabble" + "digook"
    ensures forall c :: c in w ==> 'a' <= c <= 'z'
  {
    forall i | 0 <= i < |w| ensures 'a' <= w[i] <= 'z' {
      if i < 6 {
        assert w[i] == "gabble"[i];
      } else {
        assert w[i] == "digook"[i - 6];
      }
    }
  }

  /** A one-paragraph text longer than `m` with no period and no space
      returns, and its first chunk is its first `m` characters. */
  lemma FirstChunkHard(text: string, m: nat)
    requires 0 < m < |text|
    requires '.' !in text && ' ' !in text && '\n' !in text
    ensures SplitChunks(text, m).Returns? && |SplitChunks(text, m).chunks| > 0
    ensures SplitChunks(text, m).chunks[0] == text[..m]
  {
    assert forall j :: 0 <= j < |text| ==> text[j] != '.' && text[j] != ' ' by {
      forall j | 0 <= j < |text| ensures text[j] != '.' && text[j] != ' ' {
        assert text[j] in text;
      }
    }
    NoLineFeedNoBreak(text);
    OneParagraphText(text, m);
    NoPeriodReturns(text, m);
    HardCut(text, m);
    var rest := ChunkParagraph(LStrip(text[m..]), m);
    assert rest.Returns?;
    assert ChunkParagraph(text, m).chunks == [text[..m]] + rest.chunks;
  }

  /** The shape of the third example: where its spaces are, and that it
      has no period and no line feed. */
  lemma LongSentenceShape(head: string, text: string)
    requires head == "hello this is a long" + " sentence please"
    requires text == head + " help"
    ensures |head| == 36 && |text| == 41
    ensures '.' !in text && '\n' !in text
    ensures text[36] == ' ' && forall i :: 36 < i < 40 ==> text[i] != ' '
    ensures forall i :: 0 <= i < 40 ==> text[i] != '.'
    ensures text[..36] == head && text[37..] == "help"
  {
    forall i | 0 <= i < 40 ensures text[i] != '.' {
      assert text[i] in text;
    }
    forall i | 36 < i < 40 ensures text[i] != ' ' {
      assert i == 37 || i == 38 || i == 39;
    }
  }

  /** A one-paragraph text that is a head, a space and a short tail, with
      no period below `m` and no later space below `m`, comes back as the
      head and the tail. */
  lemma SpaceCutInTwo(text: string, head: string, tail: string, m: nat)
    requires text == head + " " + tail && |head| < m < |text| && |tail| <= m
    requires NoBreak(text)
    requires forall i :: 0 <= i < m ==> text[i] != '.'
    requires forall i :: |head| < i < m ==> text[i] != ' '
    requires tail != [] && !IsSpace(tail[0])
    ensures SplitChunks(text, m) == Returns([head, tail])
  {
    var j := |head|;
    assert text[j] == ' ';
    SpaceCut(text, m, j);
    assert text[..j] == head && text[j + 1..] == tail;
    assert LStrip(tail) == tail;
    assert ChunkParagraph(tail, m) == Returns([tail]);
    assert ChunkParagraph(text, m) == Then(Returns([head]), Returns([tail]));
    assert [head] + [tail] == [head, tail];
    OneParagraphText(text, m);
  }

  /** `split_document_into_chunks("hello this is a long sentence please
      help", max_size=40)` cuts at the last space below 40 and drops it. */
  lemma LongSentenceSpaceCut(head: string, text: string)
    requires head == "hello this is a long" + " sentence please"
    requires text == head + " help"
    ensures SplitChunks(text, 40) == Returns([head, "help"])
  {
    LongSentenceShape(head, text);
    NoLineFeedNoBreak(text);
    assert !IsSpace("help"[0]);
    SpaceCutInTwo(text, head, "help", 40);
  }

  /** `split_document_into_chunks(" abcdefgh", max_size=5)` is
      `["", "abcde", "fgh"]`: the leading space is the last space below 5,
      so the first chunk is empty. */
  lemma LeadingSpaceExample(text: string, word: string)
    requires word == "abcde" + "fgh" && text == " " + word
    ensures SplitChunks(text, 5) == Returns(["", "abcde", "fgh"])
  {
    LeadingSpaceShape(text, word);
    LeadingSpaceEmptyChunk(text, 5);
    HardCut(word, 5);
    assert ChunkParagraph("fgh", 5) == Returns(["fgh"]);
    NoLineFeedNoBreak(text);
    OneParagraphText(text, 5);
  }

  /** The shape of that example: where its one space is, and that it has
      no period and no line feed. */
  lemma LeadingSpaceShape(text: string, word: string)
    requires word == "abcde" + "fgh" && text == " " + word
    ensures |text| == 9 && text[0] == ' ' && text[1..] == word
    ensures '\n' !in text && forall i :: 0 <= i < |text| ==> text[i] != '.'
    ensures forall i :: 0 < i < |text| ==> text[i] != ' '
    ensures forall i :: 0 <= i < 5 ==> word[i] != '.' && word[i] != ' '
    ensures LStrip(word) == word && word[..5] == "abcde" && LStrip(word[5..]) == "fgh"
  {
    assert word[5..] == "fgh";
  }
}
