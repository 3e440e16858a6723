# Document chunker of `docsum.py`, modelled in Dafny

`docsum.py` summarises a long document with a remote language model. To keep each
request small it first cuts the document into chunks with
`split_document_into_chunks(text, max_size)`. This project models that function and
proves what its result is.

The function works in two stages:

1. It splits the text into paragraphs at every run of two or more line feeds
   (`re.split(r"\n{2,}", text)`).
2. It carves each paragraph that is longer than `max_size` into pieces. Each cut falls
   at the last period below `max_size`. With no period there, it falls at the last
   space below `max_size`. With neither, it falls at `max_size` itself. The piece
   before the cut becomes a chunk. The rest, with its leading whitespace removed by
   `lstrip()`, is carved again. A leftover that fits and is not empty becomes the
   last chunk of the paragraph.

The Python loop does not always stop. A cut can leave the paragraph exactly as it
was; the next pass then makes the same cut again, forever. This happens in two cases:

- the only period below `max_size` is the first character;
- `max_size` is 0 and the paragraph does not begin with whitespace.

A negative `max_size` makes the loop condition true of every paragraph, so a
non-empty text never returns either. The model records all of this as an outcome:
`Returns(chunks)` or `Diverges`.

Files:

- `pystr.dfy` (`PyStr`): `str.isspace`, `str.lstrip` and `str.rfind(c, 0, end)`.
- `paragraphs.dfy` (`Paragraphs`): `re.split(r"\n{2,}")`, found as the leftmost match
  extended greedily, with the separators it drops.
- `chunker.dfy` (`Chunker`): the cut position, the outcome of one paragraph and of the
  whole text as functions, and the source's nested loops as the method
  `SplitDocumentIntoChunks`. The method is proved to return exactly what the
  functions say.
- `chunker_properties.dfy` (`ChunkerProperties`): the properties of that result. They
  cover the size bound, where each kind of cut falls, exactly when the loop never
  stops, paragraph order, and that the text is kept up to the whitespace dropped at
  the cuts.
- `doctests.dfy` (`Doctests`): the three examples in the docstring, and one input whose
  first chunk is empty.
- `findings.dfy` (`Findings`): an input on which the code as written never returns,
  and a corrected cut that always makes progress.

Where the docstring and the comments differ from what the code does, the model
follows the code:

- The docstring (docsum.py:91) says the chunks are "<max_size in length". A hard cut
  gives a chunk of exactly `max_size` characters, so the model proves "at most
  `max_size`".
- The comment at docsum.py:132 says "Strip leading spaces". `lstrip()` removes every
  `isspace` character, including tabs and line feeds, so the model strips all of them.
- The period search is `rfind('.', 0, max_size)`. It looks at positions below
  `max_size`, so a period at index `max_size` is not seen.
- A chunk can be empty. A paragraph that begins with a space, and has no period and
  no other space below `max_size`, is cut at index 0, which emits `""`. Then `lstrip`
  removes the space and the loop goes on: `" abcdefgh"` with `max_size=5` gives
  `["", "abcde", "fgh"]`.

## Model

| member | source | states |
|---|---|---|
| PyStr.IsSpace | docsum.py:132 | the characters `lstrip` removes: spaces, tabs, line feeds and carriage returns among them, never a period |
| PyStr.LStrip | docsum.py:132 | the result is no longer than its argument and does not begin with whitespace |
| PyStr.LStripSuffix | docsum.py:132 | `lstrip` returns a suffix of its argument |
| PyStr.LStripRemovesWhitespace | docsum.py:132 | everything `lstrip` removes is whitespace in the sense of `str.isspace` |
| PyStr.RFind | docsum.py:118 | `rfind(c, 0, end)` is -1 or an index below `end` and below the length that holds `c` |
| PyStr.RFindIsLast | docsum.py:118 | no `c` lies after the index `rfind` returns and below `end`, so -1 means that `c` does not occur there |
| Paragraphs.FirstBreak | docsum.py:112 | the leftmost position at or after `from` where two line feeds start, or the length when there is none |
| Paragraphs.RunEnd | docsum.py:112 | the greedy end of a run of line feeds: all line feeds up to it, and no line feed at it |
| Paragraphs.Separators | docsum.py:112 | there is one separator between each two paragraphs |
| Paragraphs.SplitParagraphs | docsum.py:112 | `re.split(r"\n{2,}", text)`: the pieces between the leftmost, greedy matches, at least one |
| Paragraphs.SplitParagraphsJoin | docsum.py:112 | the paragraphs joined with the separators give back the text |
| Paragraphs.SeparatorsAreBreakRuns | docsum.py:112 | every separator is two or more line feeds |
| Paragraphs.ParagraphsHaveNoBreak | docsum.py:112 | no paragraph holds two consecutive line feeds |
| Paragraphs.ParagraphsEndBeforeRun | docsum.py:112 | a paragraph followed by a separator does not end with a line feed, so the separator is a maximal run |
| Paragraphs.ParagraphsStartAfterRun | docsum.py:112 | a paragraph after a separator does not begin with a line feed, so the match is greedy |
| Paragraphs.BeforeFirstBreak | docsum.py:112 | the text before the first break holds no break |
| Paragraphs.NoBreakOneParagraph | docsum.py:112 | a text without two consecutive line feeds is one paragraph: a single line feed never splits |
| Paragraphs.NoLineFeedNoBreak | docsum.py:112 | a text without line feeds holds no break |
| Chunker.CutIndex | docsum.py:117-126 | the cut position is at most `max_size` |
| Chunker.CutIndexSpec | docsum.py:117-126 | the cut falls at the last period below `max_size` if there is one; otherwise at the last space below `max_size` if there is one; otherwise at `max_size` |
| Chunker.Remainder | docsum.py:131-132 | what is left after a cut at `k` is at most the length minus `k`, and it equals the paragraph only when `k` is 0 |
| Chunker.ChunkParagraph | docsum.py:116-136 | the `while` loop and the final `if para:` for one paragraph; when it returns, it yields no chunk exactly when the paragraph is empty |
| Chunker.ChunkParagraphs | docsum.py:114-136 | the `for` loop over the paragraphs; when it returns, it yields no chunk exactly when every paragraph is empty |
| Chunker.SplitChunks | docsum.py:105-138 | the whole function; a call on a non-empty text returns only if `max_size` is not negative |
| Chunker.SplitDocumentIntoChunks | docsum.py:82-138 | the two loops return exactly `SplitChunks(text, max_size)`: the empty list for empty text, `Diverges` when some pass leaves its paragraph unchanged, otherwise the chunks of each paragraph in order |
| Chunker.PrefixDiverges | docsum.py:114-116 | once one paragraph never returns, neither does the whole `for` loop |
| ChunkerProperties.ChunkParagraphBounded | docsum.py:116-136 | every chunk of a paragraph has at most `max_size` characters |
| ChunkerProperties.ChunkParagraphsBounded | docsum.py:114-136 | every chunk of a list of paragraphs has at most `max_size` characters |
| ChunkerProperties.SplitChunksBounded | docsum.py:105-138 | every chunk the function returns has at most `max_size` characters |
| ChunkerProperties.StuckIff | docsum.py:116-132 | a cut leaves the paragraph unchanged if and only if the only period below `max_size` is its first character, or `max_size` is 0 and it does not begin with whitespace |
| ChunkerProperties.NoPeriodReturns | docsum.py:116-132 | with a positive `max_size`, a paragraph without a period is always chunked to the end |
| ChunkerProperties.NoPeriodCut | docsum.py:116-132 | a cut of a paragraph without a period emits its prefix and leaves a strictly shorter remainder, still without a period |
| ChunkerProperties.HardCut | docsum.py:124-132 | with no period and no space below `max_size`, the chunk is exactly the first `max_size` characters and the rest is stripped and chunked |
| ChunkerProperties.SpaceCut | docsum.py:121-132 | with no period below `max_size`, the chunk is the text before the last space there, and the next piece starts after that space and the whitespace that follows it |
| ChunkerProperties.LeadingSpaceEmptyChunk | docsum.py:121-132 | a paragraph beginning with a space, with no period and no other space below `max_size`, yields `""` first and goes on after the space |
| ChunkerProperties.PeriodCut | docsum.py:118-132 | a period is preferred to any space: the chunk stops just before the last period below `max_size`, that period starts the next piece, and a period at index 0 makes the loop run forever |
| ChunkerProperties.OneParagraphText | docsum.py:112-136 | a non-empty text without a break is chunked as a single paragraph |
| ChunkerProperties.ShortTextOneChunk | docsum.py:112-136 | such a text that fits in `max_size` is its own only chunk, single line feeds included |
| ChunkerProperties.ShortParagraphsKept | docsum.py:114-136 | when every paragraph fits, the chunks are the non-empty paragraphs unchanged and in order; an empty paragraph yields nothing |
| ChunkerProperties.DivergesIff | docsum.py:114-136 | the whole call never returns if and only if some paragraph never returns |
| ChunkerProperties.Groups | docsum.py:114-136 | there is one group of chunks per paragraph |
| ChunkerProperties.ChunksFollowParagraphs | docsum.py:114-136 | the chunks are the groups of the paragraphs concatenated in paragraph order |
| ChunkerProperties.GroupsArePerParagraph | docsum.py:114-136 | group `i` is exactly what paragraph `i` yields |
| ChunkerProperties.RemainderGap | docsum.py:129-132 | a paragraph is the text before the cut, then whitespace only, then the remainder |
| ChunkerProperties.CutReassembles | docsum.py:129-132 | if the remainder reassembles from some chunks, the paragraph reassembles from the cut-off chunk followed by them |
| ChunkerProperties.ParagraphReassembles | docsum.py:116-136 | a paragraph is its chunks in order, each followed only by whitespace dropped at a cut |
| ChunkerProperties.DocumentReassembles | docsum.py:112-138 | the text is its paragraphs joined by their separators; the chunks are the paragraphs' groups in order; each group reassembles its paragraph up to whitespace at the cuts |
| Doctests.OneLineFeedNoBreak | docsum.py:95-96 | two lines joined by one line feed hold no break |
| Doctests.Repeat | docsum.py:97 | `w * n` has `n` times the length of `w` |
| Doctests.SentenceAndLineStayWhole | docsum.py:95-96 | `'This is a sentence.\nThis is another paragraph'` comes back as its one chunk |
| Doctests.FirstChunkHard | docsum.py:97-98 | an over-long text with no period, space or line feed returns, and its first chunk is its first `max_size` characters |
| Doctests.GabbledigookHardCut | docsum.py:97-98 | `"gabbledigook"*1000` returns, and its first chunk has length 4000 |
| Doctests.SpaceCutInTwo | docsum.py:121-136 | a head, a space and a short tail, with no period and no later space below `max_size`, come back as the head and the tail |
| Doctests.LongSentenceSpaceCut | docsum.py:99-100 | `"hello this is a long sentence please help"` with `max_size=40` gives `['hello this is a long sentence please', 'help']` |
| Doctests.LeadingSpaceExample | docsum.py:121-132 | `" abcdefgh"` with `max_size=5` gives `["", "abcde", "fgh"]`: the first chunk is empty |
| Findings.PeriodRemainderStalls | docsum.py:118-132 | as written, `"a.bbbbbb"` with `max_size=5` never returns |
| Findings.SentenceCutIndex | docsum.py:118-132 | the corrected cut is at most `max_size` and always leaves a strictly shorter remainder |
| Findings.SentenceCutIndexSpec | docsum.py:118-132 | with a period below `max_size`, the corrected cut falls just after the last one |
| Findings.ChunkParagraphKeepingPeriod | docsum.py:116-136 | the corrected loop for one paragraph, total for a positive `max_size`; it yields no chunk exactly when the paragraph is empty |
| Findings.KeepingPeriodBounded | docsum.py:116-136 | with the corrected cut every chunk still has at most `max_size` characters |
| Findings.KeepingPeriodDocumentBounded | docsum.py:114-136 | the same bound for a whole list of paragraphs |
| Findings.SplitChunksKeepingPeriodBounded | docsum.py:105-138 | every chunk of the corrected chunker over a whole text has at most `max_size` characters |
| Findings.KeepingPeriodReassembles | docsum.py:129-136 | with the corrected cut a paragraph still reassembles from its chunks up to whitespace at the cuts |
| Findings.KeepingPeriodEndsSentence | docsum.py:118-129 | with the corrected cut, a chunk cut at a period ends with that period |
| Findings.KeepingPeriodAgreesWithoutPeriod | docsum.py:116-136 | on a paragraph without a period the correction changes nothing: the code as written returns the same chunks |
| Findings.AgreeingCut | docsum.py:116-132 | without a period both cuts fall at the same place and leave the same remainder |
| Findings.KeepingPeriodOnStallingInput | docsum.py:118-132 | on `"a.bbbbbb"` with `max_size=5` the corrected chunker returns `["a.", "bbbbb", "b"]` |
| Findings.FirstCutKeepsPeriod | docsum.py:118-132 | on that input the corrected first cut falls after the period, at 2 |
| Findings.SixLettersHardCut | docsum.py:124-132 | the corrected chunker cuts `"bbbbbb"` hard into `"bbbbb"` and `"b"` |

## Left out

- `read_text_with_encoding` (docsum.py:15-49) is not part of this model. It is file I/O with encoding detection and text extraction by foreign libraries.
- `summarize_text` (docsum.py:53-78) is not part of this model. It is a single call to a remote API.
- `summarize_with_chunking` (docsum.py:142-192) is not part of this model. It is retry and back-off around remote calls, with sleeps and the client library's exception classes. Its own defects are not modelled either: `summarized_chunks` is unbound when the text fits, the recursive call drops `max_size` and `delay`, rate limits are detected by the substring `'RMP'`, and a second failure propagates.
- The `__main__` block (docsum.py:197-215) is not part of this model. It is argument parsing, an environment variable and printing.
- The default `max_size=4000` is not modelled: every call in the model passes the size explicitly.
- Non-string arguments are not modelled: `None` and other falsy non-strings, and a non-integer `max_size`.
- Chunker.SplitDocumentIntoChunks: a call that never returns is reported as `Diverges` at the first pass that leaves its paragraph unchanged, instead of looping. Python's negative slice indices are not modelled. With a negative `max_size` the loop body runs with negative indices, but the loop condition holds of every string, so the call never returns whatever the slices give.
- Chunker.SplitDocumentIntoChunks: strings are sequences of Unicode scalar values. Python's `str` also admits lone surrogates, which are not modelled.
- Paragraphs.SplitParagraphs: only the one pattern `\n{2,}` is modelled, not a general regular-expression engine.

## Findings

| source | as written | input that shows it | evidently intended | confidence | as-written member | corrected member |
|---|---|---|---|---|---|---|
| docsum.py:118-132 | the cut is at the index of the last period, so the period starts the next piece; when that piece has no other period below `max_size`, the next cut is at 0, the piece does not change, and the loop runs forever | `split_document_into_chunks("a.bbbbbb", max_size=5)` | cut just after the period, so each chunk ends with its sentence and every pass makes progress (`["a.", "bbbbb", "b"]`) | not executed; high | Findings.PeriodRemainderStalls | Findings.SentenceCutIndex |

`Chunker.SplitDocumentIntoChunks` and the properties in `ChunkerProperties` describe
the code as written. The corrected cut `Findings.SentenceCutIndex` drives a corrected
chunker, `Findings.ChunkParagraphKeepingPeriod`. For a positive `max_size` that
chunker is total. It keeps the size bound and the reassembly property, ends every
period cut with its period, and agrees with the code as written on paragraphs that
contain no period.
