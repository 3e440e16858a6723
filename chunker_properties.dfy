/** What the chunker promises about its result: the size bound, where
    each kind of cut falls, when the loop never stops, the order of the
    chunks and that the text is kept up to whitespace at the cuts. */
module ChunkerProperties {
  import opened PyStr
  import opened Paragraphs
  import opened Chunker

  /** `cs[0] + ws[0] + cs[1] + ws[1] + ... + cs[n-1] + ws[n-1]`. */
  function Interleave(cs: seq<string>, ws: seq<string>): string
    requires |cs| == |ws|
  {
    if cs == [] then [] else cs[0] + ws[0] + Interleave(cs[1..], ws[1..])
  }

  /** `p` is the chunks `cs` in order, with nothing but whitespace after
      each of them: what is lost at a cut is only the whitespace `lstrip`
      removed (and, at the end, whitespace left after the last cut). */
  ghost predicate Reassembles(p: string, cs: seq<string>) {
    exists ws :: Gaps(cs, ws) && p == Interleave(cs, ws)
  }

  /** `ws` holds one run of whitespace for each chunk of `cs`. */
  predicate Gaps(cs: seq<string>, ws: seq<string>) {
    |ws| == |cs| && forall j :: 0 <= j < |ws| ==> AllSpace(ws[j])
  }

  /** `ws` is a witness for `Reassembles(p, cs)`. */
  lemma ReassemblesWith(p: string, cs: seq<string>, ws: seq<string>)
    requires Gaps(cs, ws) && p == Interleave(cs, ws)
    ensures Reassembles(p, cs)
  {
  }

  /** All the groups of a list of groups, in order. */
  function Flatten(gs: seq<seq<string>>): seq<string> {
    if gs == [] then [] else Flatten(gs[..|gs| - 1]) + gs[|gs| - 1]
  }

  /** The non-empty strings of `ps`, in order. */
  function NonEmpty(ps: seq<string>): seq<string> {
    if ps == [] then []
    else NonEmpty(ps[..|ps| - 1]) + (if ps[|ps| - 1] == [] then [] else [ps[|ps| - 1]])
  }

  /** No chunk of a paragraph is longer than `m`: a cut index is at most
      `m`, and what is left is kept only once it is no longer than `m`. */
  lemma {:induction false} ChunkParagraphBounded(para: string, m: nat)
    requires ChunkParagraph(para, m).Returns?
    ensures forall c :: c in ChunkParagraph(para, m).chunks ==> |c| <= m
    decreases |para|
  {
    if |para| > m {
      CutStep(para, m);
      ChunkParagraphBounded(Remainder(para, CutIndex(para, m)), m);
    }
  }

  /** No chunk of a list of paragraphs is longer than `m`. */
  lemma {:induction false} ChunkParagraphsBounded(ps: seq<string>, m: nat)
    requires ChunkParagraphs(ps, m).Returns?
    ensures forall c :: c in ChunkParagraphs(ps, m).chunks ==> |c| <= m
  {
    if ps != [] {
      ChunkParagraphsBounded(ps[..|ps| - 1], m);
      ChunkParagraphBounded(ps[|ps| - 1], m);
    }
  }

  /** Every chunk the function returns has at most `maxSize` characters. */
  lemma SplitChunksBounded(text: string, maxSize: int)
    requires SplitChunks(text, maxSize).Returns?
    ensures forall c :: c in SplitChunks(text, maxSize).chunks ==> |c| <= maxSize
  {
    if text != [] {
      ChunkParagraphsBounded(SplitParagraphs(text), maxSize);
    }
  }

  /** When a cut leaves the paragraph as it was (and so repeats forever):
      exactly when the only period below `m` is the first character, or
      when `m` is 0 and the paragraph does not begin with whitespace. A
      space at index 0 does not stall the loop, since `lstrip` removes it. */
  lemma StuckIff(para: string, m: nat)
    requires |para| > m
    ensures Remainder(para, CutIndex(para, m)) == para
        <==> ((0 < m && para[0] == '.' && forall j :: 0 < j < m ==> para[j] != '.')
              || (m == 0 && !IsSpace(para[0])))
  {
    var k := CutIndex(para, m);
    CutIndexSpec(para, m);
    if k == 0 {
      assert para[0..] == para;
      if IsSpace(para[0]) {
        assert LStrip(para) == LStrip(para[1..]);
      }
    }
  }

  /** A paragraph without any period is always chunked to the end: each
      cut either moves forward or strips a leading space. */
  lemma {:induction false} NoPeriodReturns(para: string, m: nat)
    requires 0 < m
    requires forall j :: 0 <= j < |para| ==> para[j] != '.'
    ensures ChunkParagraph(para, m).Returns?
    decreases |para|
  {
    if |para| > m {
      var k, rest := NoPeriodCut(para, m);
      NoPeriodReturns(rest, m);
    }
  }

  /** One cut of a paragraph without any period: it emits the prefix and
      goes on with a shorter remainder that has no period either. */
  lemma NoPeriodCut(para: string, m: nat) returns (k: nat, rest: string)
    requires 0 < m < |para|
    requires forall j :: 0 <= j < |para| ==> para[j] != '.'
    ensures k == CutIndex(para, m) && rest == Remainder(para, k)
    ensures |rest| < |para| && forall j :: 0 <= j < |rest| ==> rest[j] != '.'
    ensures ChunkParagraph(para, m) == Then(Returns([para[..k]]), ChunkParagraph(rest, m))
  {
    k := CutIndex(para, m);
    rest := Remainder(para, k);
    StuckIff(para, m);
    CutStep(para, m);
    LStripSuffix(para[k..]);
    assert forall j :: 0 <= j < |rest| ==> rest[j] == para[|para| - |rest| + j];
  }

  /** No period and no space among the first `m` characters: the chunk is
      exactly those `m` characters, and chunking goes on with the rest
      without its leading whitespace. */
  lemma HardCut(para: string, m: nat)
    requires 0 < m < |para|
    requires forall j :: 0 <= j < m ==> para[j] != '.' && para[j] != ' '
    ensures ChunkParagraph(para, m)
         == Then(Returns([para[..m]]), ChunkParagraph(LStrip(para[m..]), m))
  {
    CutIndexSpec(para, m);
    CutStep(para, m);
  }

  /** No period among the first `m` characters, and `j` is the last space
      there: the chunk is the text before that space, and the next piece
      starts after the space and the whitespace that follows it. */
  lemma SpaceCut(para: string, m: nat, j: nat)
    requires m < |para| && j < m && para[j] == ' '
    requires forall i :: 0 <= i < m ==> para[i] != '.'
    requires forall i :: j < i < m ==> para[i] != ' '
    ensures ChunkParagraph(para, m)
         == Then(Returns([para[..j]]), ChunkParagraph(LStrip(para[j + 1..]), m))
  {
    CutIndexSpec(para, m);
    assert CutIndex(para, m) == j;
    var rest := LStrip(para[j + 1..]);
    assert Remainder(para, j) == rest by {
      assert para[j..][1..] == para[j + 1..];
    }
    assert |rest| < |para|;
    CutStep(para, m);
  }

  /** A chunk can be empty: a paragraph that begins with a space, with no
      period and no other space below `m`, is cut at index 0, which emits
      `""`; `lstrip` then removes the space, so the loop goes on. */
  lemma LeadingSpaceEmptyChunk(para: string, m: nat)
    requires m < |para| && 0 < m && para[0] == ' '
    requires forall i :: 0 <= i < m ==> para[i] != '.'
    requires forall i :: 0 < i < m ==> para[i] != ' '
    ensures ChunkParagraph(para, m) == Then(Returns([""]), ChunkParagraph(LStrip(para[1..]), m))
  {
    SpaceCut(para, m, 0);
    assert para[..0] == "";
  }

  /** A period is preferred to any space. With `i` the last period among
      the first `m` characters, the chunk is the text before it, and the
      period itself begins the next piece (`lstrip` keeps it). A period at
      index 0 stalls the loop forever. */
  lemma PeriodCut(para: string, m: nat, i: nat)
    requires m < |para| && i < m && para[i] == '.'
    requires forall j :: i < j < m ==> para[j] != '.'
    ensures i == 0 ==> ChunkParagraph(para, m) == Diverges
    ensures 0 < i ==>
      ChunkParagraph(para, m) == Then(Returns([para[..i]]), ChunkParagraph(para[i..], m))
    ensures para[i..][0] == '.'
  {
    CutIndexSpec(para, m);
    assert CutIndex(para, m) == i;
    assert !IsSpace(para[i..][0]);
    assert Remainder(para, i) == para[i..];
    CutStep(para, m);
  }

  /** A text without blank lines is chunked as one paragraph. */
  lemma OneParagraphText(text: string, maxSize: nat)
    requires NoBreak(text) && text != []
    ensures SplitChunks(text, maxSize) == ChunkParagraph(text, maxSize)
  {
    NoBreakOneParagraph(text);
    assert [text][..0] == [];
    assert ChunkParagraphs([text], maxSize) == Then(Returns([]), ChunkParagraph(text, maxSize));
  }

  /** A text without blank lines that fits in `maxSize` comes back as its
      one and only chunk, single line feeds included. */
  lemma ShortTextOneChunk(text: string, maxSize: int)
    requires NoBreak(text) && 0 < |text| <= maxSize
    ensures SplitChunks(text, maxSize) == Returns([text])
  {
    OneParagraphText(text, maxSize);
  }

  /** When every paragraph fits, the chunks are the paragraphs themselves,
      in order, with the empty ones (left by a blank line at the start or
      end of the text) dropped. */
  lemma {:induction false} ShortParagraphsKept(ps: seq<string>, m: nat)
    requires forall i :: 0 <= i < |ps| ==> |ps[i]| <= m
    ensures ChunkParagraphs(ps, m) == Returns(NonEmpty(ps))
  {
    if ps != [] {
      ShortParagraphsKept(ps[..|ps| - 1], m);
    }
  }

  /** The chunker never returns exactly when one of the paragraphs stalls. */
  lemma {:induction false} DivergesIff(ps: seq<string>, m: nat)
    ensures ChunkParagraphs(ps, m) == Diverges
        <==> exists i :: 0 <= i < |ps| && ChunkParagraph(ps[i], m) == Diverges
  {
    if ps != [] {
      var init := ps[..|ps| - 1];
      DivergesIff(init, m);
      ThenDiverges(ChunkParagraphs(init, m), ChunkParagraph(ps[|ps| - 1], m));
      assert forall i :: 0 <= i < |init| ==> init[i] == ps[i];
    }
  }

  /** `Then(a, b)` never returns exactly when `a` or `b` never returns. */
  lemma ThenDiverges(a: Outcome, b: Outcome)
    ensures Then(a, b) == Diverges <==> a == Diverges || b == Diverges
  {
  }

  /** What each paragraph yields, paragraph by paragraph (nothing for one
      that never returns). */
  function Groups(ps: seq<string>, m: nat): (gs: seq<seq<string>>)
    ensures |gs| == |ps|
  {
    if ps == [] then []
    else
      var o := ChunkParagraph(ps[|ps| - 1], m);
      Groups(ps[..|ps| - 1], m) + [if o.Returns? then o.chunks else []]
  }

  /** The chunks of a paragraph list are the groups in paragraph order. */
  lemma {:induction false} ChunksFollowParagraphs(ps: seq<string>, m: nat)
    requires ChunkParagraphs(ps, m).Returns?
    ensures Flatten(Groups(ps, m)) == ChunkParagraphs(ps, m).chunks
  {
    if ps != [] {
      var init := ps[..|ps| - 1];
      var last := ChunkParagraph(ps[|ps| - 1], m);
      assert ChunkParagraphs(ps, m) == Then(ChunkParagraphs(init, m), last);
      ChunksFollowParagraphs(init, m);
      var gs := Groups(ps, m);
      assert gs[..|gs| - 1] == Groups(init, m);
    }
  }

  /** When the whole list returns, group `i` is exactly what paragraph `i`
      yields. */
  lemma {:induction false} GroupsArePerParagraph(ps: seq<string>, m: nat)
    requires ChunkParagraphs(ps, m).Returns?
    ensures forall i :: 0 <= i < |ps| ==> ChunkParagraph(ps[i], m) == Returns(Groups(ps, m)[i])
  {
    if ps != [] {
      var init := ps[..|ps| - 1];
      var last := ChunkParagraph(ps[|ps| - 1], m);
      assert ChunkParagraphs(ps, m) == Then(ChunkParagraphs(init, m), last);
      GroupsArePerParagraph(init, m);
      var gs := Groups(ps, m);
      forall i | 0 <= i < |ps| ensures ChunkParagraph(ps[i], m) == Returns(gs[i]) {
        if i < |ps| - 1 {
          assert ps[i] == init[i] && gs[i] == Groups(init, m)[i];
        }
      }
    }
  }

  /** What a cut at `k` drops: the whitespace between the cut and the
      remainder. */
  lemma RemainderGap(p: string, k: nat) returns (w: string)
    requires k <= |p|
    ensures AllSpace(w) && p == p[..k] + w + Remainder(p, k)
  {
    var t := p[k..];
    LStripRemovesWhitespace(t);
    LStripSuffix(t);
    w := t[..|t| - |LStrip(t)|];
    assert t == w + LStrip(t);
    assert p == p[..k] + t;
  }

  /** One cut: if what is left after the cut at `k` (without its leading
      whitespace) reassembles from `cs`, the paragraph reassembles from the
      cut-off prefix followed by `cs`. */
  lemma CutReassembles(p: string, k: nat, cs: seq<string>, ws: seq<string>)
    requires k <= |p|
    requires Gaps(cs, ws) && Remainder(p, k) == Interleave(cs, ws)
    ensures Reassembles(p, [p[..k]] + cs)
  {
    var w := RemainderGap(p, k);
    var cs', ws' := [p[..k]] + cs, [w] + ws;
    assert cs'[1..] == cs && ws'[1..] == ws;
    assert Interleave(cs', ws') == p[..k] + w + Interleave(cs, ws);
    assert Gaps(cs', ws') by {
      assert forall j :: 1 <= j < |ws'| ==> ws'[j] == ws[j - 1];
    }
    ReassemblesWith(p, cs', ws');
  }

  /** The chunks of one paragraph give the paragraph back, once the
      whitespace dropped after each cut is put back. */
  lemma {:induction false} ParagraphReassembles(p: string, m: nat)
    requires ChunkParagraph(p, m).Returns?
    ensures Reassembles(p, ChunkParagraph(p, m).chunks)
    decreases |p|
  {
    if |p| <= m {
      if p == [] {
        ReassemblesWith(p, [], []);
      } else {
        assert Interleave([p], [[]]) == p;
        ReassemblesWith(p, [p], [[]]);
      }
    } else {
      var k := CutIndex(p, m);
      var rest := Remainder(p, k);
      CutStep(p, m);
      ParagraphReassembles(rest, m);
      var cs' := ChunkParagraph(rest, m).chunks;
      var ws' :| Gaps(cs', ws') && rest == Interleave(cs', ws');
      CutReassembles(p, k, cs', ws');
      assert ChunkParagraph(p, m).chunks == [p[..k]] + cs';
    }
  }

  /** The whole document: the paragraphs and the blank-line runs between
      them give back the text, and the chunks are, in order, the groups
      each paragraph yields, each of which gives its paragraph back up to
      the whitespace removed at the cuts. */
  lemma DocumentReassembles(text: string, maxSize: nat)
    requires SplitChunks(text, maxSize).Returns?
    ensures Join(SplitParagraphs(text), Separators(text)) == text
    ensures text != [] ==> Flatten(Groups(SplitParagraphs(text), maxSize)) == SplitChunks(text, maxSize).chunks
    ensures forall i :: 0 <= i < |SplitParagraphs(text)| ==>
              Reassembles(SplitParagraphs(text)[i], Groups(SplitParagraphs(text), maxSize)[i])
  {
    SplitParagraphsJoin(text);
    var ps := SplitParagraphs(text);
    var gs := Groups(ps, maxSize);
    if text == [] {
      assert ps == [[]];
      assert ChunkParagraph([], maxSize) == Returns([]);
      assert gs == Groups([], maxSize) + [[]];
      ReassemblesWith([], [], []);
    } else {
      ChunksFollowParagraphs(ps, maxSize);
      GroupsArePerParagraph(ps, maxSize);
      forall i | 0 <= i < |ps| ensures Reassembles(ps[i], gs[i]) {
        ParagraphReassembles(ps[i], maxSize);
      }
    }
  }
}
