# Note chunking, record building and search filtering, in Dafny

This project models the local logic of the note helpers in
`rough-app/src/lib/pineconeUtils.js`. The helpers store notes in a Pinecone
vector index and search them. Four pieces of that file compute something
themselves; everything else is a call to the Pinecone client.

- **`chunkText`** (module `Chunker`). It splits a note on the single space
  character, groups the words `chunkSize` at a time (30 by default), and
  joins each group with single spaces.
- **`getEmbedding`** (module `Embedding`). It sends the chunk texts to the
  remote model and collects the `values` of each element of the response's
  `data` array, in order.
- **`insertNote`** (module `NoteStore`). It builds one record per chunk
  vector, with id `"<noteId>-<i>"` and metadata `{note_id, full_text,
  chunk_index}`. It then builds the `"count"` record, which holds the next
  note id.
- **`searchNotes`** (module `NoteSearch`). It keeps the query matches whose
  id contains `'-'` and takes `metadata?.full_text` of each. It returns each
  distinct value once, in first-occurrence order, as `[...new Set(...)]`
  does.

Supporting modules:

- `Strings` models JavaScript's `split`/`join` on one character, the
  decimal rendering of a number in a template literal, and `parseInt`.
- `Sequences` models concatenation and the `Set` deduplication.
- `Wrappers` holds `Option`, used for JavaScript's `undefined`.

The remote calls are not modelled; their results are inputs.

- The embedding model is a function parameter of `GetEmbedding`.
- The note id read from the `"count"` record is a `nat` parameter.
- The query's matches are the input of `SearchNotes`.
- Embedding vectors are opaque values of a type parameter `V`.

Three facts about the code shape the model:

- `split(" ")` splits on the single space character only, not on other
  whitespace. Repeated spaces give empty words, and the round trip keeps
  them; the text is not normalised.
- `getEmbedding` always passes `inputType: 'query'`, for stored notes too
  (pineconeUtils.js:22). The option is an argument to the remote call and is
  not modelled.
- The chunk id interpolates the counter as a string, and the new counter is
  `parseInt(noteId) + 1`. For a natural-number counter the two agree:
  `ParseNatToString` shows that reading the rendering back gives the number,
  so the stored count is exactly `noteId + 1`.

`routes/search-note/+server.js` repeats `getEmbedding` (lines 8-25) and the
search filter (lines 47-52) word for word. The same model covers both.

## Model

| member | source | states |
|---|---|---|
| Strings.Split | rough-app/src/lib/pineconeUtils.js:9 | `text.split(" ")` yields at least one piece, and no piece holds a space |
| Strings.JoinSplit | rough-app/src/lib/pineconeUtils.js:9-12 | joining the pieces of a split with the separator gives the original string back exactly |
| Strings.SplitJoin | rough-app/src/lib/pineconeUtils.js:12 | splitting a join of space-free words gives those words back, so a chunk's words are recoverable from its text |
| Strings.ParseNatToString | rough-app/src/lib/pineconeUtils.js:59 | `parseInt` of a counter's decimal rendering is the counter itself |
| Strings.NatToStringInjective | rough-app/src/lib/pineconeUtils.js:52 | different counters or chunk indexes render as different strings |
| Strings.NatToStringNoDash | rough-app/src/lib/pineconeUtils.js:52 | a rendered number holds no `'-'`, so the dash in a chunk id is the separator |
| Chunker.Groups | rough-app/src/lib/pineconeUtils.js:11-12 | every word group is non-empty and holds at most `chunkSize` words; a non-empty word list yields at least one group |
| Chunker.GroupsCount | rough-app/src/lib/pineconeUtils.js:11 | the number of groups `c` satisfies `(c-1)*chunkSize < n <= c*chunkSize`, i.e. ceil(n / chunkSize) |
| Chunker.GroupsFlatten | rough-app/src/lib/pineconeUtils.js:11-12 | the groups, concatenated, are exactly the words in order |
| Chunker.GroupSlice | rough-app/src/lib/pineconeUtils.js:11-12 | group `k` is `words[k*chunkSize .. min(k*chunkSize + chunkSize, n)]` |
| Chunker.GroupsSlices | rough-app/src/lib/pineconeUtils.js:11-12 | the slice characterisation, for all groups at once |
| Chunker.GroupsFull | rough-app/src/lib/pineconeUtils.js:11-12 | every group except the last holds exactly `chunkSize` words |
| Chunker.ChunkText | rough-app/src/lib/pineconeUtils.js:8-15 | at least one chunk; the count is ceil(words / chunkSize); chunk `k` is the `k`-th slice of the words joined with spaces |
| Chunker.ChunkWords | rough-app/src/lib/pineconeUtils.js:11-12 | re-splitting a chunk text gives between 1 and `chunkSize` words, exactly `chunkSize` for every chunk but the last |
| Chunker.ChunkCount | rough-app/src/lib/pineconeUtils.js:9-13 | the chunk count equals `(words + chunkSize - 1) / chunkSize` |
| Chunker.ChunkEmpty | rough-app/src/lib/pineconeUtils.js:9-13 | the empty note gives exactly one chunk, with empty text |
| Chunker.ChunkSixtyFiveWords | rough-app/src/lib/pineconeUtils.js:8-13 | a 65-word note in default-size chunks gives three chunks of 30, 30 and 5 words |
| Chunker.ChunkFiveLetters | rough-app/src/lib/pineconeUtils.js:8-13 | `"a b c d e"` in chunks of two gives `"a b"`, `"c d"`, `"e"` |
| Chunker.ChunkRoundTrip | rough-app/src/lib/pineconeUtils.js:9-13 | joining all chunk texts with one space gives the note back exactly, empty words included |
| Chunker.ChunkTextLoop | rough-app/src/lib/pineconeUtils.js:8-15 | the `for (i = 0; i < n; i += chunkSize)` loop builds exactly the chunks `ChunkText` describes |
| Embedding.UnpackEmbeddings | rough-app/src/lib/pineconeUtils.js:25-34 | the result has one entry per response element, and entry `i` is element `i`'s `values` |
| Embedding.GetEmbedding | rough-app/src/lib/pineconeUtils.js:18-35 | the vectors are the model's answer for the chunk texts, unpacked in order, one per answer element |
| NoteStore.ChunkIdInjective | rough-app/src/lib/pineconeUtils.js:52 | two chunk ids are equal exactly when note id and chunk index are both equal |
| NoteStore.ChunkIdDash | rough-app/src/lib/pineconeUtils.js:52-59 | every chunk id contains `'-'`; `"count"` does not, so no chunk id is `"count"` |
| NoteStore.BuildChunkRecords | rough-app/src/lib/pineconeUtils.js:49-56 | one record per vector; record `i` has id `noteId-i`, vector `i`, and metadata `{noteId, fullText, i}` |
| NoteStore.ChunkRecordIdsDistinct | rough-app/src/lib/pineconeUtils.js:50-56 | the ids of one note's chunk records are pairwise distinct, and none is `"count"` |
| NoteStore.CounterRecord | rough-app/src/lib/pineconeUtils.js:59 | the counter record has id `"count"` and count `noteId + 1`; its values are the first vector, or undefined when there are no vectors |
| NoteStore.InsertNoteAfterChunking | rough-app/src/lib/pineconeUtils.js:44-59 | with a length-preserving embedder, there is one chunk record per chunk and the counter record carries `vectors[0]` |
| NoteStore.InsertNoteFetched | rough-app/src/lib/pineconeUtils.js:47-59 | a missing `"count"` record means nothing is written; otherwise one record per vector with the fetched note id, and a counter of that id plus one |
| NoteStore.NotesDoNotCollide | rough-app/src/lib/pineconeUtils.js:48-56 | notes written with different counters never share a chunk id |
| NoteSearch.KeptTextsOne | rough-app/src/lib/pineconeUtils.js:80-81 | a single match contributes its `metadata?.full_text` exactly when its id contains `'-'`, and nothing otherwise |
| NoteSearch.KeptTextsAppend | rough-app/src/lib/pineconeUtils.js:78-82 | the kept texts of two runs of matches are the first run's followed by the second's, so kept texts follow the order of `response.matches` |
| NoteSearch.KeptTextsMembers | rough-app/src/lib/pineconeUtils.js:78-82 | every kept text is the full text of a match whose id has `'-'`, and every such match's full text is kept |
| NoteSearch.SearchNotes | rough-app/src/lib/pineconeUtils.js:78-83 | no duplicates; every result is the full text of a dash-id match; every such full text is in the result; no matches gives an empty result |
| NoteSearch.SearchOrder | rough-app/src/lib/pineconeUtils.js:83 | results appear in the order of their first occurrence among the kept texts |
| NoteSearch.ChunkRecordFound | rough-app/src/lib/pineconeUtils.js:52-54 | a match of a stored chunk record passes the dash filter and yields the note's text |
| NoteSearch.CounterNeverFound | rough-app/src/lib/pineconeUtils.js:59-82 | a match of the counter record is filtered out, so its metadata never reaches a result |
| NoteSearch.FromOneNote | rough-app/src/lib/pineconeUtils.js:52-59 | a dash-id match of one note's records carries that note's text |
| NoteSearch.KeptOneNote | rough-app/src/lib/pineconeUtils.js:78-82 | of any matches drawn from one note's records, every kept text is that note's text |
| NoteSearch.SearchOneNote | rough-app/src/lib/pineconeUtils.js:78-83 | a search that finds only one note's records returns that note's text once, or nothing |
| Sequences.Dedup | rough-app/src/lib/pineconeUtils.js:83 | `[...new Set(xs)]` has no duplicates and holds exactly the values of `xs` |
| Sequences.DedupOrder | rough-app/src/lib/pineconeUtils.js:83 | `Set` iteration lists values in order of first occurrence |
| Sequences.DedupConstant | rough-app/src/lib/pineconeUtils.js:83 | a list of one repeated value deduplicates to that value once, or to nothing when empty |

## Left out

- Pinecone client construction and the remote calls `pc.inference.embed`, `index.fetch`, `index.upsert` and `index.query` (pineconeUtils.js lines 19-23, 40-47, 58-59 and 65-76). They are network I/O into a library outside this model. Their results are inputs.
- The model name, the `inputType`/`truncate` options, the index name `"rough-man"` and the `topK: 100` cap. They are arguments to remote calls, and the remote service enforces them.
- Failure of a remote call, and the non-atomic pair of upserts. A failed second upsert leaves the counter stale, and concurrent inserts can read the same counter. This is concurrency and remote-failure behaviour. `InsertNote` returns both batches as one value.
- Embedding values. They are remote floating-point vectors, so they are the opaque type `V`.
- A missing `"count"` record. Line 48 then throws a `TypeError` after the embedding call and before either upsert. `InsertNoteFetched` models this as writing nothing. No code here ever creates that record, so on an index where it was never seeded every insert fails.
- `parseInt` on arbitrary strings, and a `count` stored as a string. The stored counter is assumed to be a natural number.
- Counters above 2^53. JavaScript numbers lose precision there, and from 10^21 they render in exponent form. The model renders every natural number in plain decimal.
- A `text` argument that is not a string. JavaScript throws a `TypeError` on `split` for it.
- A `chunkSize` that is zero, negative or fractional. With zero or a negative value, `i += chunkSize` never reaches the word count and the loop does not terminate. `ChunkText` and `ChunkTextLoop` require a positive size.
- Records in the index written by other code with other metadata shapes. Metadata is either a chunk's or the counter's. A match may lack metadata altogether, and then its full text is `undefined`.
- The SvelteKit handler in `routes/search-note/+server.js`. It parses JSON, builds JSON responses and catches every error with logging. Its embedding and filter code is the library's, repeated.
- `console.log` and `console.error`.
