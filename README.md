# Legal document risk assessment: the chunker and the analysis loop in Dafny

The script reads a legal document, cuts it into chunks, and asks a text
generator three questions about every chunk:

- what risks it holds;
- what hidden obligations it holds;
- what to do about them.

This project models the two parts of the script that have logic of their own.

- **Chunker** (`chunker.dfy`, module `Chunker`). This is `load_and_preprocess` once the
  document text is in memory.
  - A cursor walks the document in steps of at most `maxChunkSize` characters (default 1500).
  - A slice longer than `minChunkSize` (default 700) becomes a new chunk.
  - A slice of at most `minChunkSize` characters is glued onto the last chunk in place.
  - When there is no last chunk yet, `chunks[-1]` raises `IndexError`. The model
    returns this as `Failure(IndexError)`.
  - The method `LoadAndPreprocess` keeps the source's `while` loop, its cursor and its
    in-place update of the last chunk. It is proved equal to `Split`, a definition
    stated on the whole list of slices.
  - The lemmas about `Split` state what the chunking guarantees. `WellChunked` gives
    the shape of a successful chunking, and the lemmas show that this shape holds
    exactly for the chunker's own result.
- **Analyzer** (`analyzer.dfy`, module `Analyzer`). This is the record-building loop of
  `analyze_text_for_risks_and_obligations`.
  - The text generator is a parameter `generate: string -> string`.
  - The loop builds one `AnalysisResult` per chunk, in order.
  - Each risks, obligations and recommendations field is `generate` applied to a
    fixed instruction followed by the chunk.
  - `RunAnalysis` chains the chunker (with its default sizes) and the analyzer, as
    `main` does before it writes the JSON file.

Documents are `string`, a sequence of Unicode characters. Lengths and slices are
therefore counted in code points, as Python counts them.

The code does not check that `min_chunk_size < max_chunk_size`, or that either is
positive. The model takes any `minChunkSize` and reports the resulting failure
(`MinNotBelowMaxFails`). A first slice of exactly `minChunkSize` characters
already raises. Every chunk but the last is exactly `maxChunkSize` long, and the
last is at most `maxChunkSize`, or at most `maxChunkSize + minChunkSize` when
`0 <= minChunkSize < maxChunkSize` (`SplitWellChunked`).

## Model

| member | source | states |
|---|---|---|
| `Chunker.LoadAndPreprocess` | Risk_assessment.py:11-33 | The loop, from cursor 0 to the end of the document, returns exactly `Split(document, max, min)`: the chunk list, or `Failure(IndexError)` when the first slice has to be glued onto a missing chunk |
| `Chunker.GlueToLast` | Risk_assessment.py:29 | `chunks[-1] += chunk` keeps the list length and every chunk before the last, and the last grows by exactly the slice |
| `Chunker.GlueToLastConcat` | Risk_assessment.py:29 | Gluing a slice onto the last chunk keeps every character, in order: the joined text grows by exactly the slice |
| `Chunker.SlicesConcat` | Risk_assessment.py:20-31 | The cursor's slices join back to the document: no character is skipped or taken twice |
| `Chunker.SlicesLengths` | Risk_assessment.py:21-23 | Every slice is non-empty and at most `max` long. All but the last are exactly `max`. The last holds what is left, so `(k-1)*max < len(document) <= k*max` for `k` slices, which is the number of loop iterations |
| `Chunker.SplitConcat` | Risk_assessment.py:19-33 | On success the chunks join back to exactly the document |
| `Chunker.SplitWellChunked` | Risk_assessment.py:19-33 | On success the chunks join back to the document. Every chunk but the last has length exactly `max`. Every chunk is non-empty and longer than `min`. The last chunk is at most `max` long, or is a full slice plus a glued tail of at most `min` (possible only when `min < max`) |
| `Chunker.WellChunkedIsSplit` | Risk_assessment.py:19-33 | Converse of `SplitWellChunked`: any chunk list with that shape is the one the chunker returns, so the shape determines the chunking uniquely |
| `Chunker.SplitFailsIff` | Risk_assessment.py:21-29 | The chunker raises if and only if the document is non-empty and its first slice, `min(max, len(document))` characters long, is not longer than `min`. An empty document gives an empty list without entering the loop |
| `Chunker.MinNotBelowMaxFails` | Risk_assessment.py:26-29 | With `min >= max`, every non-empty document makes the chunker raise |
| `Chunker.DefaultSizesGlueTail` | Risk_assessment.py:11-31 | With the defaults 1500/700, a 2000-character document is one chunk: its 500-character tail is glued onto the first 1500 characters |
| `Chunker.DefaultSizesShortDocumentFails` | Risk_assessment.py:11-29 | With the defaults 1500/700, every non-empty document of at most 700 characters makes the chunker raise `IndexError` |
| `Analyzer.AnalyzeTextForRisksAndObligations` | Risk_assessment.py:41-75 | One record per chunk, in chunk order. Record `i` has `context == chunks[i]`. Its three analysis fields are `generate` applied to the risks, obligations and recommendations instructions, each followed by `chunks[i]`. The recommendations prompt does not use the other two answers |
| `Analyzer.ContextsOfRecords` | Risk_assessment.py:68-69 | Records whose `context` fields are the chunks, position by position, give back exactly the chunk list |
| `Analyzer.RunAnalysis` | Risk_assessment.py:81-84 | With the default sizes, chunking then analysing fails exactly for a non-empty document of at most 700 characters. Otherwise the records' contexts join back to the document and have the chunker's shape, and each record's three analysis fields are `generate` applied to the risks, obligations and recommendations instructions, each followed by that record's context |

## Left out

- Reading the document from a file (Risk_assessment.py:15-16) is I/O. The model takes the document text as input.
- Building the HuggingFace pipeline and naming the model (Risk_assessment.py:38-39) is a foreign call. The generator is the parameter `generate`.
- The generator's arguments `max_length=512` and `do_sample=False` and the `[0]['generated_text']` lookup (Risk_assessment.py:50, 57, 65, 70-72) are folded into `generate`. Nothing is said about what the generator writes.
- Generator errors (model load failure, inference errors) are not modelled. `generate` is total, and the script would simply stop on such an error.
- The rest of `main` is I/O and formatting, so none of it is modelled: the progress messages (Risk_assessment.py:80, 83, 92), the JSON dump and reload, the printed report, the `DataFrame` and the fixed output path (Risk_assessment.py:86-117). The same goes for the `__main__` entry point with its hard-coded input path (Risk_assessment.py:120-122).
- `Chunker.LoadAndPreprocess`: requires `maxChunkSize > 0`. With 0 and a non-empty document every slice is empty: with `min_chunk_size >= 0` (the default included) the first iteration raises `IndexError`, and with a negative `min_chunk_size` the loop appends empty chunks forever without moving the cursor. With a negative size the cursor moves backwards, and the loop either raises or never ends. None of these cases is modelled.
- The unused imports `os` and `re` have no counterpart.
