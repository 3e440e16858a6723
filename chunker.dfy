/** `split_document_into_chunks(text, max_size)`: cut a document into
    pieces of at most `max_size` characters, first at blank lines, then
    inside each over-long paragraph at the last period, else the last
    space, else hard at `max_size`.

    The Python loop does not always stop: when a cut leaves the paragraph
    exactly as it was, the next pass makes the same cut again, forever.
    `Outcome` records that as `Diverges`. */
module Chunker {
  import opened PyStr
  import opened Paragraphs

  /** What a call of the chunker does: return a list, or never return. */
  datatype Outcome = Returns(chunks: seq<string>) | Diverges

  /** Run `a`, then `b`: the chunks of both, unless either never returns. */
  function Then(a: Outcome, b: Outcome): Outcome {
    if a.Returns? && b.Returns? then Returns(a.chunks + b.chunks) else Diverges
  }

  /** The cut position for an over-long paragraph: the index of the last
      `.` below `m`; failing that, of the last space below `m`; failing
      that, `m` itself. */
  function CutIndex(para: string, m: nat): (k: nat)
    requires |para| > m
    ensures k <= m
  {
    var dot := RFind(para, '.', m);
    if dot != -1 then dot
    else
      var space := RFind(para, ' ', m);
      if space != -1 then space else m
  }

  /** Where the cut falls: at the last period below `m` if there is one;
      otherwise at the last space below `m` if there is one; otherwise at
      `m`. */
  lemma CutIndexSpec(para: string, m: nat)
    requires |para| > m
    ensures var k := CutIndex(para, m);
      && ((exists j :: 0 <= j < m && para[j] == '.') ==>
            k < m && para[k] == '.' && forall j :: k < j < m ==> para[j] != '.')
      && ((forall j :: 0 <= j < m ==> para[j] != '.') && (exists j :: 0 <= j < m && para[j] == ' ') ==>
            k < m && para[k] == ' ' && forall j :: k < j < m ==> para[j] != ' ')
      && ((forall j :: 0 <= j < m ==> para[j] != '.' && para[j] != ' ') ==> k == m)
  {
    RFindIsLast(para, '.', m);
    RFindIsLast(para, ' ', m);
  }

  /** What the paragraph left after a cut at `k` becomes: the text from
      `k` on, without its leading whitespace. */
  function Remainder(para: string, k: nat): (r: string)
    requires k <= |para|
    ensures |r| <= |para| - k
    ensures r == para ==> k == 0
  {
    LStrip(para[k..])
  }

  /** The chunks one paragraph yields (the `while` loop and the final
      `if para:` of the source). */
  function ChunkParagraph(para: string, m: nat): (r: Outcome)
    ensures r.Returns? ==> (r.chunks == [] <==> para == [])
    decreases |para|
  {
    if |para| <= m then Returns(if para == [] then [] else [para])
    else
      var k := CutIndex(para, m);
      var rest := Remainder(para, k);
      if rest == para then Diverges
      else Then(Returns([para[..k]]), ChunkParagraph(rest, m))
  }

  /** The chunks of a list of paragraphs, paragraph after paragraph. */
  function ChunkParagraphs(ps: seq<string>, m: nat): (r: Outcome)
    ensures r.Returns? ==> (r.chunks == [] <==> forall i :: 0 <= i < |ps| ==> ps[i] == [])
  {
    if ps == [] then Returns([])
    else Then(ChunkParagraphs(ps[..|ps| - 1], m), ChunkParagraph(ps[|ps| - 1], m))
  }

  /** The whole function: an empty text gives no chunks; with a negative
      `maxSize` the loop condition `len(para) > max_size` holds of every
      paragraph forever; otherwise the paragraphs are chunked in order. */
  function SplitChunks(text: string, maxSize: int): (r: Outcome)
    ensures r.Returns? && text != [] ==> 0 <= maxSize
  {
    if text == [] then Returns([])
    else if maxSize < 0 then Diverges
    else ChunkParagraphs(SplitParagraphs(text), maxSize)
  }

  /** The source's loops: for each paragraph, carve off chunks while it is
      longer than `maxSize`, then keep what is left if it is not empty. */
  method SplitDocumentIntoChunks(text: string, maxSize: int) returns (r: Outcome)
    ensures r == SplitChunks(text, maxSize)
    ensures text == [] ==> r == Returns([])
  {
    if text == [] {
      return Returns([]);
    }
    if maxSize < 0 {
      // Every paragraph is longer than a negative size: the loop never exits.
      return Diverges;
    }
    var chunks: seq<string> := [];
    var paragraphs := SplitParagraphs(text);
    for i := 0 to |paragraphs|
      invariant ChunkParagraphs(paragraphs[..i], maxSize) == Returns(chunks)
    {
      var para := paragraphs[i];
      ghost var before := chunks;
      ParagraphsPrefixStep(paragraphs, i, maxSize);
      while |para| > maxSize
        invariant Then(Returns(chunks), ChunkParagraph(para, maxSize))
               == Then(Returns(before), ChunkParagraph(paragraphs[i], maxSize))
        decreases |para|
      {
        var k := RFind(para, '.', maxSize);
        if k == -1 {
          k := RFind(para, ' ', maxSize);
        }
        if k == -1 {
          k := maxSize;
        }
        assert k == CutIndex(para, maxSize);
        var rest := LStrip(para[k..]);
        CutStep(para, maxSize);
        ThenPrepend(chunks, para[..k], ChunkParagraph(rest, maxSize));
        chunks := chunks + [para[..k]];
        if rest == para {
          // The next pass would make this same cut again, and so on forever.
          PrefixDiverges(paragraphs, i + 1, maxSize);
          return Diverges;
        }
        para := rest;
      }
      assert ChunkParagraph(para, maxSize) == Returns(if para == [] then [] else [para]);
      if para != [] {
        chunks := chunks + [para];
      }
    }
    assert paragraphs[..|paragraphs|] == paragraphs;
    return Returns(chunks);
  }

  /** One pass of the `while` loop: a cut that changes the paragraph
      emits its prefix and goes on with the remainder; one that does not
      change it repeats forever. */
  lemma CutStep(para: string, m: nat)
    requires |para| > m
    ensures var k := CutIndex(para, m);
      ChunkParagraph(para, m)
      == if Remainder(para, k) == para then Diverges
         else Then(Returns([para[..k]]), ChunkParagraph(Remainder(para, k), m))
  {
  }

  /** The `for` loop over one more paragraph. */
  lemma ParagraphsPrefixStep(ps: seq<string>, i: nat, m: nat)
    requires i < |ps|
    ensures ChunkParagraphs(ps[..i + 1], m) == Then(ChunkParagraphs(ps[..i], m), ChunkParagraph(ps[i], m))
  {
    assert ps[..i + 1][..i] == ps[..i];
  }

  /** Appending one chunk, then running `o`. */
  lemma ThenPrepend(done: seq<string>, c: string, o: Outcome)
    ensures Then(Returns(done), Then(Returns([c]), o)) == Then(Returns(done + [c]), o)
  {
    if o.Returns? {
      assert done + ([c] + o.chunks) == done + [c] + o.chunks;
    }
  }

  /** Once some paragraph never returns, neither does the whole list. */
  lemma {:induction false} PrefixDiverges(ps: seq<string>, j: nat, m: nat)
    requires j <= |ps|
    requires ChunkParagraphs(ps[..j], m) == Diverges
    ensures ChunkParagraphs(ps, m) == Diverges
    decreases |ps| - j
  {
    if j < |ps| {
      var q := ps[..j + 1];
      assert q[..|q| - 1] == ps[..j];
      assert ChunkParagraphs(q, m) == Then(ChunkParagraphs(ps[..j], m), ChunkParagraph(q[|q| - 1], m));
      PrefixDiverges(ps, j + 1, m);
    } else {
      assert ps[..j] == ps;
    }
  }
}
