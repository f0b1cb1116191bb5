# rag-system document chunker and document types, in Dafny

This project models the part of the RAG service that turns a stored document
into chunks, together with the document and chunk types it works on.

- `DocumentService::prepare_document` splits the document's text on `'\n'`
  and trims each piece (Unicode White_Space, as `str::trim` does). It then
  feeds the characters of the trimmed pieces, one at a time, into a running
  `String` buffer. Before a character is appended, the buffer is pushed out
  as a `Chunk` if the buffer's UTF-8 length plus the character's encoded
  length would reach `max_chunk_size`. At the end the buffer is pushed out
  only if it is not blank. Every chunk is bound to the document's id.
- `Document::new` makes a document at version 1. `Document::update` raises
  the version by one and replaces the text in place. `Chunk::new` binds a
  text to a document id.

Layout:

- `text.dfy`, module `Text`: what the chunker takes from Rust's `str`. It holds
  the UTF-8 length of a character (section 3 of RFC 3629), the White_Space
  property, `trim`, and `split("\n")` with its inverse.
- `domain_document.dfy`, module `DocumentDomain`: `Chunk` as a datatype, and
  `Document` as a class whose `Update` changes its fields in place.
  `DocumentState`, `Initial`, `Updated` and `UpdatedAll` describe those
  states as values.
- `service_document.dfy`, module `Service`: the chunker. The functions `Run`
  and `ChunkTexts` are a left fold that states what the chunk texts are.
  The lemmas prove the chunker's guarantees about `ChunkTexts`.
  `DocumentService.PrepareDocument` is the outer loop of `prepare_document`
  over the trimmed pieces, and `FeedLine` is its inner loop over the
  characters of one piece. The postcondition says `PrepareDocument` returns
  `ChunkTexts` bound to the document.

Chunk ids come from `Uuid::new_v4()`, which is random, so they are a
parameter `chunkId: nat -> Uuid`: the k-th chunk pushed gets `chunkId(k)`. The
document id is likewise a constructor parameter.

## Model

| member | source | states |
|---|---|---|
| Service.DocumentService.PrepareDocument | src/service/document.rs:39-61 | returns exactly `ChunkTexts(text, max)` bound to the document: as many chunks as chunk texts, the k-th with `doc_id` equal to the document's id and the k-th text. Loop invariants: the state equals the fold `Run` over what has been consumed, and the buffer is under the limit or at most one character |
| Service.FeedLine | src/service/document.rs:46-52 | the inner loop over one trimmed piece ends in exactly the state `Run` reaches after that piece, keeps the pushed chunks bound to the document, and leaves the buffer under the limit or at most one character |
| Service.ChunkTexts | src/service/document.rs:44-60 | the chunk texts: the flushed chunks, then the final buffer unless blank; the last chunk is never blank |
| Service.Feed | src/service/document.rs:47-51 | one step of the inner loop: the character fed is always the last one in the buffer, and the buffer is always under the limit or a single character |
| Service.DocumentService.constructor | src/service/document.rs:19-28 | the service keeps the `max_chunk_size` it is given |
| Service.PrepareDocumentScenario | src/service/document.rs:198-211 | the unit test: for non-blank text and a limit of 128 there is at least one chunk, and each chunk has the document's id, is non-empty and is at most 128 bytes |
| Service.ChunksReassemble | src/service/document.rs:45-58 | concatenating the chunks in order gives exactly the trimmed `'\n'`-pieces run together: nothing is dropped, duplicated or reordered |
| Service.RunReassembles | src/service/document.rs:46-52 | at every step, the pushed chunks followed by the buffer are exactly the characters consumed so far |
| Service.ChunksWithinLimit | src/service/document.rs:47-51 | every chunk is under `max_chunk_size` bytes or holds at most one character |
| Service.ChunksUnderLimit | src/service/document.rs:47-51 | with `max_chunk_size >= 5` every chunk is strictly under the limit |
| Service.RunWithinLimit | src/service/document.rs:46-52 | the buffer and every chunk pushed so far are under the limit or at most one character |
| Service.ChunksMaximal | src/service/document.rs:47-49 | every chunk but the last is maximal: its byte length plus the encoded length of the first character of the next chunk reaches the limit |
| Service.RunMaximal | src/service/document.rs:47-49 | each pushed chunk was pushed because of the character after it, which is the first character of the next chunk or of the buffer |
| Service.ChunksEmptyIffBlank | src/service/document.rs:45-60 | there are no chunks exactly when the text is blank (the empty text included) |
| Service.FinalBufferBlankIffEmpty | src/service/document.rs:56-58 | the final buffer is blank only when nothing was consumed |
| Service.EmptyChunkOnlyFirst | src/service/document.rs:47-49 | the first chunk is empty if and only if the first character consumed has an encoding that alone reaches the limit, and no other chunk is ever empty. With a limit above 4 no chunk is empty |
| Service.RunEmptyChunk | src/service/document.rs:47-49 | an empty chunk can only be pushed first, when the first character's encoding reaches the limit |
| Service.RunFirstChunkEmpty | src/service/document.rs:47-49 | conversely, when the first character's encoding reaches the limit, the empty buffer is pushed as the first chunk |
| Service.RunChunksPrefix | src/service/document.rs:47-49 | feeding more characters only appends chunks: those pushed for a prefix of the input stay, unchanged and in order |
| Service.RunBufferEnd | src/service/document.rs:47-52 | the buffer is empty only before the first character, and otherwise ends with the last character consumed |
| Service.OneByteLimitChunks | src/service/document.rs:45-58 | with a limit of 1, any non-blank text gives an empty first chunk followed by one chunk per consumed character (the trimmed `'\n'`-pieces run together); a blank text gives no chunk |
| Service.RunOneByteLimit | src/service/document.rs:47-52 | with a limit of 1, every character, the first included, pushes the buffer before it |
| Service.TwoByteLimitChunks | src/service/document.rs:45-58 | with a limit of 2, when every consumed character (the trimmed `'\n'`-pieces run together) is one byte long, each of them is a chunk of its own, so white space inside a line becomes a blank chunk (only the last chunk is checked for blankness) |
| Service.RunTwoByteAscii | src/service/document.rs:47-52 | with a limit of 2 and one-byte characters, every character after the first pushes the buffer |
| Service.NormalizedSingleLine | src/service/document.rs:45 | a line with no `'\n'` and no white space at either end is consumed unchanged |
| Service.NormalizedEmptyIffBlank | src/service/document.rs:45 | nothing is consumed exactly when the text is blank |
| Service.NormalizedEndsSolid | src/service/document.rs:45 | what is consumed never ends in white space |
| Service.ConsumedEmptyIffBlank | src/service/document.rs:45 | the trimmed pieces are all empty exactly when every piece is blank |
| Service.ConsumedEndsSolid | src/service/document.rs:45 | the trimmed pieces run together never end in white space |
| Text.Utf8Len | src/service/document.rs:47 | `char::len_utf8` is 1 to 4 bytes: 1 exactly below U+0080, 4 exactly from U+10000 |
| Text.ByteLen | src/service/document.rs:47 | `String::len` lies between the number of characters and four times it |
| Text.ByteLenAppend | src/service/document.rs:47-52 | the byte length of a concatenation is the sum of the byte lengths |
| Text.TrimSlice | src/service/document.rs:45 | `trim` keeps a slice of the string and cuts only white space before and after it |
| Text.Trim | src/service/document.rs:45 | what `trim` leaves neither starts nor ends with white space |
| Text.TrimSolid | src/service/document.rs:45 | a string with no white space at either end is left unchanged by `trim` |
| Text.IsWhitespace | src/service/document.rs:45 | `char::is_whitespace`: on ASCII it holds exactly for the space and U+0009 to U+000D |
| Text.TrimEmptyIffBlank | src/service/document.rs:56 | `s.trim().is_empty()` holds exactly when every character of `s` is white space |
| Text.LeadingBlankSpec | src/service/document.rs:45 | the white space `trim` strips in front is the longest all-white-space prefix |
| Text.TrailingBlankSpec | src/service/document.rs:45 | the white space `trim` strips at the back is the longest all-white-space suffix |
| Text.SplitLines | src/service/document.rs:45 | `split("\n")` gives at least one piece, and no piece holds `'\n'` |
| Text.JoinSplitLines | src/service/document.rs:45 | joining the pieces with `'\n'` gives back the text |
| Text.SplitJoinLines | src/service/document.rs:45 | splitting newline-free pieces joined with `'\n'` gives back the pieces |
| Text.BlankIffLinesBlank | src/service/document.rs:45 | a text is blank exactly when each of its pieces is blank |
| DocumentDomain.Document.constructor | src/domain/document.rs:22-28 | a new document is at version 1 and holds the given text and id |
| DocumentDomain.Document.Update | src/domain/document.rs:30-33 | the version goes up by exactly 1, the text is replaced, and the id is unchanged |
| DocumentDomain.UpdatedAllEffect | src/domain/document.rs:30-33 | a run of updates keeps the id, adds one to the version per update, and leaves the last text |
| DocumentDomain.VersionAfterUpdates | src/domain/document.rs:22-33 | n updates of a fresh document give version 1 + n, with the last text given |
| DocumentDomain.DocumentUpdatingScenario | src/domain/document.rs:67-75 | the unit test: "hello" updated to "non hello" holds "non hello" at version 2 |

## Left out

- `process_new_document` and `update_document` (src/service/document.rs:65-168), and the answer and question services: these are tokio fan-out over repository, vectorizer, searcher and LLM trait objects that have no implementation here.
- The repository, `TextVectorizer`, `VectorSearcher` and `LLM` traits, and the embedding wrappers: interfaces and float-vector forwarding, with no behaviour to model.
- The `document_repo`, `chunk_repo`, `embending_vectorizer`, `embending_repo` and `semaphore` fields of `DocumentService`, because chunking does not use them.
- `Unswer::new`, src/domain/embeddings.rs and src/domain.rs are not part of this model.
- `Uuid::new_v4()`: random, so document and chunk ids are parameters.
- `Chunk::new` (src/domain/document.rs:44-50) is the datatype constructor `DocumentDomain.Chunk`, which stores the ids and the text unchanged by construction. Its use in `prepare_document` is stated by the postcondition of `Service.DocumentService.PrepareDocument`.
- DocumentDomain.Document.Update: `version` is a `nat`, so the `usize` overflow of `version += 1` is not modelled.
- Service.DocumentService.PrepareDocument: `max_chunk_size` is a `nat`, so the `usize` overflow of `current_chunk.len() + c.len_utf8()` is not modelled. A limit of 0 is allowed, as in `prepare_document`.
- Service.DocumentService.PrepareDocument: the inner `for c in p_chunk.chars()` loop is the separate method `Service.FeedLine`, which the outer loop calls once per trimmed piece. The two loops together do what the one Rust function does.
- Service.DocumentService.PrepareDocument: the final test `!current_chunk.trim().is_empty()` is written as `!IsBlank(current)`. `Text.TrimEmptyIffBlank` proves the two are the same.
- Text.IsWhitespace is the fixed Unicode White_Space code-point list. Rust's `char::is_whitespace` uses the same list.

The code differs from a plain reading of "chunks are non-empty, non-blank
text" in two ways. Both follow the code:

- With `max_chunk_size <= 4`, the first chunk is empty when the first
  character's encoding alone reaches the limit (`Service.EmptyChunkOnlyFirst`,
  `Service.OneByteLimitChunks`).
- Only the final buffer is checked for blankness. A chunk pushed mid-loop can
  be whitespace-only (`Service.TwoByteLimitChunks`: with a limit of 2, the line
  `ab c` gives the chunks `a`, `b`, ` ` and `c`). This happens at every limit
  L of 2 or more: the line `a`, then 2L-3 spaces, then `b`, gives a middle
  chunk of L-1 spaces (with a limit of 3, `a   b` gives `a `, two spaces,
  and `b`). So "no chunk is blank after trimming" holds only for the last
  chunk (`Service.ChunkTexts`).

The unit test's limit of 128 rules out the empty chunk only. Blank middle
chunks can occur at 128 as at any other limit.
