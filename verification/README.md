# FPL rules retrieval: chunking and prompt assembly

This project models the deterministic core of a small retrieval-augmented
question answering tool for Fantasy Premier League rules. It has two parts:

- **Index build (`build_rag_index.py`).** The rules text is cut into
  overlapping windows of `CHUNK_SIZE = 500` characters. Each window starts
  `CHUNK_SIZE - CHUNK_OVERLAP = 400` characters after the previous one. Every
  window is stripped of surrounding whitespace and kept.
- **Query (`query_rag.py`).**
  - The saved chunk collection is normalised to a list.
  - The positions returned by the vector search are flattened and mapped
    back to chunk texts.
  - The texts are joined with a blank line between them.
  - The joined text is placed, with the question, into a fixed prompt
    template.

Files:

- `wrappers.dfy`: `Option` and `Result`.
- `text.dfy`: Python's `str.strip()` with no argument, over the full
  `str.isspace()` character set.
- `chunker.dfy`: the chunking loop.
  - `ChunkWith` is an imperative method with loop invariants. Its loop is
    stated for any per-window clean-up function.
  - `ChunkText` is that loop with `strip()`, the clean-up the script uses.
  - Both are proved against the recursive specification `Chunks`. That
    specification is built from `Start` (where window i begins) and
    `Window` (the clamped slice `text[start:start + size]`).
- `retrieval.dfy`: the query side, as pure functions. Lookup failures are
  `Result` values.

Behaviour of the code worth knowing, all of it modelled as written:

- **Empty text gives no chunks.** The loop body never runs.
- **Chunk count.** The count is `ceil(N / (size - overlap))`. So 450
  characters at 500/100 give two chunks, and the second lies inside the
  first.
- **Settings are not checked.** Nothing rejects `overlap >= size`; the loop
  then never terminates. The model requires `0 <= overlap < size` of its
  caller.
- **Negative positions.** A position out of range fails with `IndexError`,
  but Python accepts negative positions from `-len(chunks)`
  to `-1` and counts them from the end. The model does the same, so the
  `-1` that the search reports for a missing result silently selects the
  last chunk.

## Model

| member | source | states |
|---|---|---|
| Chunker.Chunks | build_rag_index.py:23-30 | The chunk list after m passes holds exactly m entries, the cleaned windows 0 to m - 1 in start order. ChunksAt gives entry i and ChunkWith ties the loop to it. |
| Chunker.Window | build_rag_index.py:27-28 | `text[start:start + size]` with Python's clamping at the end of the text: for a start inside the text the slice is non-empty and at most size long. Coverage, SharedOverlap and TrailingWindowInsidePrevious relate consecutive windows. |
| Chunker.ChunkWith | build_rag_index.py:23-30 | The loop makes exactly ceil(len(text) / (size - overlap)) chunks, one per window in start order. The list equals the specification `Chunks`, whose i-th entry is the clean-up of window i. Termination follows from `start` growing by size - overlap each pass. |
| Chunker.ChunkText | build_rag_index.py:23-30 | The script's chunker makes ceil(len(text) / (size - overlap)) chunks. Its list is the stripped windows in start order. |
| Chunker.ChunksAt | build_rag_index.py:27-29 | Chunk i of the stripped chunks is `strip(text[start_i : start_i + size])`. Its window starts inside the text, and the chunk is never longer than size. |
| Chunker.StartIsProduct | build_rag_index.py:24-30 | Window i starts at i * (size - overlap). |
| Chunker.ChunkCount | build_rag_index.py:26-30 | The number of passes is the least c whose next start is at or past the end of the text. It is zero exactly when the text is empty. |
| Chunker.CountIsCeiling | build_rag_index.py:26-30 | Any count with the loop's exit condition is ChunkCount, so the loop's count is the ceiling. |
| Chunker.WindowExists | build_rag_index.py:26 | Window i is produced exactly when its start lies inside the text. |
| Chunker.Coverage | build_rag_index.py:27-30 | Every character k of the text lies in window k / (size - overlap), at the matching offset. |
| Chunker.SharedOverlap | build_rag_index.py:27-30 | Take a window that is not cut short, followed by another window. Its last `overlap` characters are the first `overlap` characters of the next window. |
| Chunker.TrailingWindowInsidePrevious | build_rag_index.py:26-30 | Once a window reaches the end of the text, the next window is a suffix of it. |
| Chunker.WhitespaceWindowsKept | build_rag_index.py:29 | A window made only of whitespace still takes its place in the chunk list, as the empty string: nothing is filtered. |
| Chunker.ScriptConfigurationCounts | build_rag_index.py:11-12 | With 500/100: no chunks for empty text; starts 0, 400 and 800 for 1000 characters; two chunks for 450 characters. |
| Text.Strip | build_rag_index.py:29 | `str.strip()` never lengthens its input. StripSlice, StripTrimmed and StripIdempotent characterise its result. |
| Text.StripSlice | build_rag_index.py:29 | `strip()` returns a contiguous slice of its input. Everything it removes before and after that slice is whitespace. |
| Text.StripTrimmed | build_rag_index.py:29 | The result of `strip()` is empty, or its first and last characters are not whitespace. |
| Text.StripIdempotent | build_rag_index.py:29 | Stripping twice equals stripping once. |
| Text.StripAllSpace | build_rag_index.py:29 | A string made only of whitespace strips to the empty string. |
| Retrieval.Normalize | query_rag.py:18-19 | A loaded list is kept unchanged. A loaded dict becomes the list of its values, one per entry, in insertion order. |
| Retrieval.Values | query_rag.py:19 | `d.values()` has one entry per key, in insertion order. |
| Retrieval.Flatten | query_rag.py:37 | A position is in the flat list exactly when it is in some row. A single query row is kept as it is. |
| Retrieval.FlattenRow | query_rag.py:37 | Each row appears whole and in order, after all the rows before it. |
| Retrieval.Lookup | query_rag.py:38 | `chunks[i]` gives chunk i for 0 <= i < n and chunk n + i for -n <= i < 0. Any other position gives IndexError(i). |
| Retrieval.ContextChunks | query_rag.py:38 | The comprehension succeeds exactly when every position is in range. It then gives one chunk per position, in search order, each the chunk that position selects. Otherwise it fails with the IndexError of the first bad position. |
| Retrieval.MinusOnePicksLastChunk | query_rag.py:38 | A position of -1 selects the last chunk instead of failing. |
| Retrieval.Join | query_rag.py:45 | `"\n\n".join(context_chunks)`. Its contract is stated by JoinLength, JoinPlacesPart and JoinPlacesSeparator. |
| Retrieval.JoinLength | query_rag.py:45 | `"\n\n".join` gives "" for no chunks and the chunk itself for one. For n chunks the length is their total length plus n - 1 separators. |
| Retrieval.JoinPlacesPart | query_rag.py:45 | The joined context holds chunk j verbatim, after every earlier chunk and separator. |
| Retrieval.JoinPlacesSeparator | query_rag.py:45 | Every chunk but the last is followed by the separator. |
| Retrieval.Prompt | query_rag.py:50-59 | The f-string prompt. Its contract is stated by PromptLayout and by the round trip ParsePromptInverts / ParsePromptSound. |
| Retrieval.PromptLayout | query_rag.py:50-59 | The prompt is the fixed preamble, the context verbatim, the `Question:` header, the question verbatim and a final newline, so the context precedes the question. |
| Retrieval.UnfillInverts | query_rag.py:50-59 | Fill the template with any context and a one-line question; the context and question can be read back from the result. |
| Retrieval.UnfillSound | query_rag.py:50-59 | Anything the reader accepts is the template filled with the parts it returns. |
| Retrieval.ParsePromptInverts | query_rag.py:50-59 | The prompt is unambiguous: its context and one-line question can be recovered from it. |
| Retrieval.ParsePromptSound | query_rag.py:50-59 | Every string the prompt reader accepts is the prompt for the context and question it returns. |
| Retrieval.RetrievePrompt | query_rag.py:37-59 | The query pipeline fails exactly when some flattened position is out of range. Otherwise its prompt holds, as context, the joined chunks that the positions select. The chunk collection is a value, so it cannot be changed. |

## Left out

- `fetch_rules.py` and `test.py` are not part of this model. They scrape the rules pages and exercise the language model, so they are network and I/O only.
- Reading and writing files is not modelled: the rules text, `chunks.json` and the FAISS index file. Console output is left out too. The text and the loaded chunk collection enter as parameters.
- Embedding with SentenceTransformer, the FAISS index and its search, and the similarity scores are left out. They are floating point and foreign code. The search result enters as a matrix of integer positions. The row shape (one row of `k = 5` positions for the single query) is not constrained.
- The Gemini client, its API key from the environment and the generated answer are left out. They are foreign calls and the network.
- Normalize: only the two shapes the index build writes are modelled, a list of strings or an object with string values. Other JSON shapes behave differently in Python and are not modelled. A top-level string makes `chunks[i]` return single characters. A number or `null` raises TypeError at the lookup. Non-string elements raise TypeError in `join`.
- Duplicate keys in a JSON object are not modelled. `json.load` keeps one entry per key, so the dict is modelled with distinct keys in insertion order.
- Strings are sequences of Unicode code points. Surrogate handling and the file's UTF-8 decoding are not modelled.
- ChunkText: `0 <= overlap < size` is required (the sizes are `nat`). With `overlap >= size` the source never terminates. With a negative overlap it does terminate, but consecutive windows leave gaps, so Coverage and SharedOverlap would not hold; that case is not modelled.
- ParsePromptInverts: only questions without a line break are read back. `input()` returns one line, and with a line break inside the question the prompt would be ambiguous.
