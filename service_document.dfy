/** The chunker of the document service (`DocumentService::prepare_document`).
    The text is split on '\n', each piece is trimmed, and the characters of
    the trimmed pieces are fed one at a time into a buffer. Before a
    character is appended, if the buffer's UTF-8 length plus the character's
    would reach `maxChunkSize`, the buffer is emitted as a chunk and a fresh
    one is started. At the end the buffer is emitted unless it is blank.

    `Run` and `ChunkTexts` specify the chunk texts as functions; the lemmas
    below state what they guarantee. `DocumentService.PrepareDocument` is the
    outer loop of `prepare_document` over the pieces, and `FeedLine` its inner
    loop over the characters of one piece; together they are proved to
    compute `ChunkTexts`. */
module Service {
  import opened Text
  import opened DocumentDomain

  /** The pieces of `parts` concatenated in order. */
  function Flatten(parts: seq<string>): string
    decreases |parts|
  {
    if |parts| == 0 then [] else Flatten(parts[..|parts| - 1]) + parts[|parts| - 1]
  }

  /** The characters the chunker takes from the '\n'-separated pieces `raw`:
      each piece trimmed, run together with no separator put back. */
  function Consumed(raw: seq<string>): string
    decreases |raw|
  {
    if |raw| == 0 then [] else Consumed(raw[..|raw| - 1]) + Trim(raw[|raw| - 1])
  }

  /** The characters `prepare_document` consumes from `text`. */
  function Normalized(text: string): string {
    Consumed(SplitLines(text))
  }

  /** The chunks emitted so far and the running buffer. */
  datatype Progress = Progress(chunks: seq<string>, buffer: string)

  /** One step of the inner loop: flush the buffer if `c` would bring it to
      `maxChunkSize` bytes or more, then append `c` to the (possibly fresh)
      buffer. */
  function Feed(p: Progress, c: char, maxChunkSize: nat): (r: Progress)
    ensures r.buffer != [] && r.buffer[|r.buffer| - 1] == c
    ensures WithinLimit(r.buffer, maxChunkSize)
  {
    if ByteLen(p.buffer) + Utf8Len(c) >= maxChunkSize then
      Progress(p.chunks + [p.buffer], [c])
    else
      ByteLenAppend(p.buffer, [c]);
      assert [c][..0] == [];
      Progress(p.chunks, p.buffer + [c])
  }

  /** The state after feeding the characters `cs`, in order, to an empty
      buffer. */
  function Run(cs: string, maxChunkSize: nat): Progress
    decreases |cs|
  {
    if |cs| == 0 then Progress([], [])
    else Feed(Run(cs[..|cs| - 1], maxChunkSize), cs[|cs| - 1], maxChunkSize)
  }

  /** The chunk texts `prepare_document` emits for `text`: the flushed
      chunks, then the final buffer unless it is blank. So the last chunk is
      never blank. */
  function ChunkTexts(text: string, maxChunkSize: nat): (r: seq<string>)
    ensures r != [] ==> !IsBlank(r[|r| - 1])
  {
    var cs := Normalized(text);
    var p := Run(cs, maxChunkSize);
    RunBufferEnd(cs, maxChunkSize);
    FinalBufferBlankIffEmpty(text, maxChunkSize);
    if IsBlank(p.buffer) then p.chunks else p.chunks + [p.buffer]
  }

  /** The size bound the chunker keeps: under `maxChunkSize` bytes, or a
      single character (or nothing) that could not be split further. */
  predicate WithinLimit(t: string, maxChunkSize: nat) {
    ByteLen(t) < maxChunkSize || |t| <= 1
  }

  /** What follows chunk `k` in `p`: the next chunk, or the buffer. */
  function Following(p: Progress, k: nat): string
    requires k < |p.chunks|
  {
    if k + 1 < |p.chunks| then p.chunks[k + 1] else p.buffer
  }

  /** The chunks `texts`, in order, bound to the document `docId`; the k-th
      takes the id `chunkId(k)`. */
  function Bind(docId: Uuid, texts: seq<string>, chunkId: nat -> Uuid): seq<Chunk> {
    seq(|texts|, k requires 0 <= k < |texts| => Chunk(chunkId(k), docId, texts[k]))
  }

  // ---------------------------------------------------------------------
  // What the trimmed lines look like

  /** Nothing is consumed exactly when every piece is blank. */
  lemma {:induction false} ConsumedEmptyIffBlank(raw: seq<string>)
    ensures Consumed(raw) == [] <==> AllBlank(raw)
    decreases |raw|
  {
    if raw != [] {
      var init := raw[..|raw| - 1];
      ConsumedEmptyIffBlank(init);
      TrimEmptyIffBlank(raw[|raw| - 1]);
      assert AllBlank(raw) <==> AllBlank(init) && IsBlank(raw[|raw| - 1]) by {
        assert forall k :: 0 <= k < |init| ==> init[k] == raw[k];
      }
    }
  }

  /** What is consumed never ends in white space. */
  lemma {:induction false} ConsumedEndsSolid(raw: seq<string>)
    ensures Consumed(raw) == [] || !IsWhitespace(Consumed(raw)[|Consumed(raw)| - 1])
    decreases |raw|
  {
    if raw != [] {
      var init := raw[..|raw| - 1];
      var prev := Consumed(init);
      var t := Trim(raw[|raw| - 1]);
      var all := Consumed(raw);
      assert all == prev + t;
      ConsumedEndsSolid(init);
      if t == [] {
        assert all == prev;
      } else {
        assert all[|all| - 1] == t[|t| - 1];
      }
    }
  }

  /** The consumed characters never end in white space. */
  lemma NormalizedEndsSolid(text: string)
    ensures Normalized(text) == [] || !IsWhitespace(Normalized(text)[|Normalized(text)| - 1])
  {
    ConsumedEndsSolid(SplitLines(text));
  }

  /** Nothing is consumed exactly when the text is blank. */
  lemma NormalizedEmptyIffBlank(text: string)
    ensures Normalized(text) == [] <==> IsBlank(text)
  {
    ConsumedEmptyIffBlank(SplitLines(text));
    BlankIffLinesBlank(text);
  }

  // ---------------------------------------------------------------------
  // Invariants of the running buffer

  /** Chunks and buffer, put back together, are exactly the characters fed:
      nothing dropped, duplicated or reordered. */
  lemma {:induction false} RunReassembles(cs: string, maxChunkSize: nat)
    ensures Flatten(Run(cs, maxChunkSize).chunks) + Run(cs, maxChunkSize).buffer == cs
    decreases |cs|
  {
    if cs != [] {
      var init := cs[..|cs| - 1];
      var p := Run(init, maxChunkSize);
      RunReassembles(init, maxChunkSize);
      var c := cs[|cs| - 1];
      if ByteLen(p.buffer) + Utf8Len(c) >= maxChunkSize {
        assert (p.chunks + [p.buffer])[..|p.chunks|] == p.chunks;
      }
      assert cs == init + [c];
    }
  }

  /** Feeding one more character is one more step of `Feed`. */
  lemma RunSnoc(cs: string, c: char, maxChunkSize: nat)
    ensures Run(cs + [c], maxChunkSize) == Feed(Run(cs, maxChunkSize), c, maxChunkSize)
  {
    assert (cs + [c])[..|cs|] == cs;
  }

  /** Every bound chunk belongs to `docId`, takes its id from `chunkId`, and
      carries its text unchanged, in order (`Chunk::new(doc_id, text)`). */
  lemma BindSpec(docId: Uuid, texts: seq<string>, chunkId: nat -> Uuid)
    ensures |Bind(docId, texts, chunkId)| == |texts|
    ensures forall k :: 0 <= k < |texts| ==>
              Bind(docId, texts, chunkId)[k] == Chunk(chunkId(k), docId, texts[k])
    ensures forall k :: 0 <= k < |texts| ==> Bind(docId, texts, chunkId)[k].docId == docId
  {
  }

  /** Binding one more text appends one more chunk. */
  lemma BindSnoc(docId: Uuid, texts: seq<string>, t: string, chunkId: nat -> Uuid)
    ensures Bind(docId, texts + [t], chunkId) == Bind(docId, texts, chunkId) + [Chunk(chunkId(|texts|), docId, t)]
  {
  }

  /** Before the first character of `line`, only `before` has been fed. */
  lemma RunLineStart(before: string, line: string, maxChunkSize: nat)
    ensures Run(before + line[..0], maxChunkSize) == Run(before, maxChunkSize)
  {
    assert before + line[..0] == before;
  }

  /** Feeding all of `line` after `before`. */
  lemma RunLineEnd(before: string, line: string, maxChunkSize: nat)
    ensures Run(before + line[..|line|], maxChunkSize) == Run(before + line, maxChunkSize)
  {
    assert line[..|line|] == line;
  }

  /** Feeding the next character of `line` after `before` is one more step
      of `Feed`. */
  lemma RunNext(before: string, line: string, j: nat, maxChunkSize: nat)
    requires j < |line|
    ensures Run(before + line[..j + 1], maxChunkSize) == Feed(Run(before + line[..j], maxChunkSize), line[j], maxChunkSize)
  {
    assert before + line[..j + 1] == (before + line[..j]) + [line[j]];
    RunSnoc(before + line[..j], line[j], maxChunkSize);
  }

  /** A character that would bring the buffer to the limit flushes it and
      starts a fresh buffer. */
  lemma RunFlush(before: string, line: string, j: nat, maxChunkSize: nat, texts: seq<string>, current: string)
    requires j < |line|
    requires Run(before + line[..j], maxChunkSize) == Progress(texts, current)
    requires ByteLen(current) + Utf8Len(line[j]) >= maxChunkSize
    ensures Run(before + line[..j + 1], maxChunkSize) == Progress(texts + [current], [line[j]])
  {
    RunNext(before, line, j, maxChunkSize);
  }

  /** A character that keeps the buffer under the limit joins it, and the
      buffer stays under the limit. */
  lemma RunAppend(before: string, line: string, j: nat, maxChunkSize: nat, texts: seq<string>, current: string)
    requires j < |line|
    requires Run(before + line[..j], maxChunkSize) == Progress(texts, current)
    requires ByteLen(current) + Utf8Len(line[j]) < maxChunkSize
    ensures Run(before + line[..j + 1], maxChunkSize) == Progress(texts, current + [line[j]])
    ensures WithinLimit(current + [line[j]], maxChunkSize)
  {
    RunNext(before, line, j, maxChunkSize);
  }

  /** Once the whole of the trimmed piece `raw[i]` is fed, the first `i + 1`
      pieces are consumed. */
  lemma RunNextLine(raw: seq<string>, i: nat, maxChunkSize: nat)
    requires i < |raw|
    ensures Run(Consumed(raw[..i]) + Trim(raw[i]), maxChunkSize) == Run(Consumed(raw[..i + 1]), maxChunkSize)
  {
    assert raw[..i + 1][..i] == raw[..i];
  }

  /** After the last piece, everything has been consumed. */
  lemma RunAllLines(raw: seq<string>, maxChunkSize: nat)
    ensures Run(Consumed(raw[..|raw|]), maxChunkSize) == Run(Consumed(raw), maxChunkSize)
  {
    assert raw[..|raw|] == raw;
  }

  /** The buffer is empty only before the first character, and otherwise
      ends with the last character fed. */
  lemma {:induction false} RunBufferEnd(cs: string, maxChunkSize: nat)
    ensures cs == [] ==> Run(cs, maxChunkSize) == Progress([], [])
    ensures cs != [] ==> Run(cs, maxChunkSize).buffer != []
    ensures cs != [] ==> Run(cs, maxChunkSize).buffer[|Run(cs, maxChunkSize).buffer| - 1] == cs[|cs| - 1]
  {
  }

  /** The buffer, and every chunk flushed from it, is under the limit or
      holds at most one character. */
  lemma {:induction false} RunWithinLimit(cs: string, maxChunkSize: nat)
    ensures WithinLimit(Run(cs, maxChunkSize).buffer, maxChunkSize)
    ensures forall k :: 0 <= k < |Run(cs, maxChunkSize).chunks| ==> WithinLimit(Run(cs, maxChunkSize).chunks[k], maxChunkSize)
    decreases |cs|
  {
    if cs != [] {
      var init := cs[..|cs| - 1];
      var c := cs[|cs| - 1];
      var p := Run(init, maxChunkSize);
      RunWithinLimit(init, maxChunkSize);
      var q := Run(cs, maxChunkSize);
      if ByteLen(p.buffer) + Utf8Len(c) >= maxChunkSize {
        assert q == Progress(p.chunks + [p.buffer], [c]);
        forall k | 0 <= k < |q.chunks|
          ensures WithinLimit(q.chunks[k], maxChunkSize)
        {
          if k < |p.chunks| {
            assert q.chunks[k] == p.chunks[k];
          }
        }
      }
    }
  }

  /** Feeding more characters only appends chunks: the chunks pushed after
      the first `n` characters stay, unchanged and in order. */
  lemma {:induction false} RunChunksPrefix(cs: string, n: nat, maxChunkSize: nat)
    requires n <= |cs|
    ensures |Run(cs[..n], maxChunkSize).chunks| <= |Run(cs, maxChunkSize).chunks|
    ensures Run(cs, maxChunkSize).chunks[..|Run(cs[..n], maxChunkSize).chunks|] == Run(cs[..n], maxChunkSize).chunks
    decreases |cs|
  {
    if n == |cs| {
      assert cs[..n] == cs;
    } else {
      var init := cs[..|cs| - 1];
      RunChunksPrefix(init, n, maxChunkSize);
      assert init[..n] == cs[..n];
      var p := Run(init, maxChunkSize);
      var q := Run(cs, maxChunkSize);
      var k := |Run(cs[..n], maxChunkSize).chunks|;
      assert q.chunks == p.chunks || q.chunks == p.chunks + [p.buffer];
      assert q.chunks[..k] == p.chunks[..k];
    }
  }

  /** A first character whose encoding alone reaches the limit is preceded by
      a flush of the still empty buffer: the first chunk is empty. */
  lemma RunFirstChunkEmpty(cs: string, maxChunkSize: nat)
    requires cs != [] && maxChunkSize <= Utf8Len(cs[0])
    ensures Run(cs, maxChunkSize).chunks != [] && Run(cs, maxChunkSize).chunks[0] == []
  {
    RunChunksPrefix(cs, 1, maxChunkSize);
    assert cs[..1] == [cs[0]];
    assert cs[..1][..0] == [];
    assert Run(cs[..1], maxChunkSize) == Progress([[]], [cs[0]]);
  }

  /** Only the first chunk can be empty, and only when the first character's
      encoding alone reaches the limit. */
  lemma {:induction false} RunEmptyChunk(cs: string, maxChunkSize: nat)
    ensures forall k :: 0 <= k < |Run(cs, maxChunkSize).chunks| && Run(cs, maxChunkSize).chunks[k] == [] ==>
              k == 0 && maxChunkSize <= Utf8Len(cs[0])
    decreases |cs|
  {
    if cs != [] {
      var init := cs[..|cs| - 1];
      var p := Run(init, maxChunkSize);
      RunEmptyChunk(init, maxChunkSize);
      RunBufferEnd(init, maxChunkSize);
      var c := cs[|cs| - 1];
      if init == [] {
        assert cs[0] == c;
      } else {
        assert cs[0] == init[0];
      }
    }
  }

  /** Every flushed chunk was flushed because of the character that follows
      it: its length plus that character's reaches the limit. */
  lemma {:induction false} RunMaximal(cs: string, maxChunkSize: nat)
    ensures forall k :: 0 <= k < |Run(cs, maxChunkSize).chunks| ==>
              Following(Run(cs, maxChunkSize), k) != [] &&
              ByteLen(Run(cs, maxChunkSize).chunks[k]) + Utf8Len(Following(Run(cs, maxChunkSize), k)[0]) >= maxChunkSize
    decreases |cs|
  {
    if cs != [] {
      var init := cs[..|cs| - 1];
      var p := Run(init, maxChunkSize);
      RunMaximal(init, maxChunkSize);
      RunBufferEnd(init, maxChunkSize);
      var c := cs[|cs| - 1];
      var q := Run(cs, maxChunkSize);
      if ByteLen(p.buffer) + Utf8Len(c) >= maxChunkSize {
        assert q == Progress(p.chunks + [p.buffer], [c]);
        forall k | 0 <= k < |q.chunks|
          ensures Following(q, k) != [] && ByteLen(q.chunks[k]) + Utf8Len(Following(q, k)[0]) >= maxChunkSize
        {
          if k < |p.chunks| {
            assert Following(q, k) == Following(p, k);
          }
        }
      } else {
        assert q == Progress(p.chunks, p.buffer + [c]);
        forall k | 0 <= k < |q.chunks|
          ensures Following(q, k) != [] && ByteLen(q.chunks[k]) + Utf8Len(Following(q, k)[0]) >= maxChunkSize
        {
          assert init != [];
          assert Following(q, k)[0] == Following(p, k)[0];
        }
      }
    }
  }

  // ---------------------------------------------------------------------
  // What prepare_document guarantees

  /** The final buffer is blank only when nothing was consumed. */
  lemma FinalBufferBlankIffEmpty(text: string, maxChunkSize: nat)
    ensures IsBlank(Run(Normalized(text), maxChunkSize).buffer) <==> Normalized(text) == []
  {
    var cs := Normalized(text);
    RunBufferEnd(cs, maxChunkSize);
    NormalizedEndsSolid(text);
  }

  /** Concatenating the chunks in order gives exactly the trimmed lines run
      together. */
  lemma ChunksReassemble(text: string, maxChunkSize: nat)
    ensures Flatten(ChunkTexts(text, maxChunkSize)) == Normalized(text)
  {
    var cs := Normalized(text);
    var p := Run(cs, maxChunkSize);
    RunReassembles(cs, maxChunkSize);
    FinalBufferBlankIffEmpty(text, maxChunkSize);
    if IsBlank(p.buffer) {
      RunBufferEnd(cs, maxChunkSize);
    } else {
      assert (p.chunks + [p.buffer])[..|p.chunks|] == p.chunks;
    }
  }

  /** Every chunk is under `maxChunkSize` bytes or is a single character. */
  lemma ChunksWithinLimit(text: string, maxChunkSize: nat)
    ensures forall k :: 0 <= k < |ChunkTexts(text, maxChunkSize)| ==> WithinLimit(ChunkTexts(text, maxChunkSize)[k], maxChunkSize)
  {
    RunWithinLimit(Normalized(text), maxChunkSize);
  }

  /** With a limit of five bytes or more (128 in the unit test), every chunk
      is strictly under the limit. */
  lemma ChunksUnderLimit(text: string, maxChunkSize: nat)
    requires maxChunkSize >= 5
    ensures forall k :: 0 <= k < |ChunkTexts(text, maxChunkSize)| ==> ByteLen(ChunkTexts(text, maxChunkSize)[k]) < maxChunkSize
  {
    ChunksWithinLimit(text, maxChunkSize);
  }

  /** Every chunk but the last is maximal: it was cut only because the first
      character of the next chunk would have reached the limit. */
  lemma ChunksMaximal(text: string, maxChunkSize: nat)
    ensures forall k :: 1 <= k < |ChunkTexts(text, maxChunkSize)| ==>
              ChunkTexts(text, maxChunkSize)[k] != [] &&
              ByteLen(ChunkTexts(text, maxChunkSize)[k - 1]) + Utf8Len(ChunkTexts(text, maxChunkSize)[k][0]) >= maxChunkSize
  {
    var cs := Normalized(text);
    var p := Run(cs, maxChunkSize);
    RunMaximal(cs, maxChunkSize);
    var r := ChunkTexts(text, maxChunkSize);
    forall k | 1 <= k < |r|
      ensures r[k] != [] && ByteLen(r[k - 1]) + Utf8Len(r[k][0]) >= maxChunkSize
    {
      assert r[k - 1] == p.chunks[k - 1];
      assert r[k] == Following(p, k - 1);
    }
  }

  /** Blank text (the empty text included) gives no chunk; any other text
      gives at least one. */
  lemma ChunksEmptyIffBlank(text: string, maxChunkSize: nat)
    ensures ChunkTexts(text, maxChunkSize) == [] <==> IsBlank(text)
  {
    var cs := Normalized(text);
    RunBufferEnd(cs, maxChunkSize);
    FinalBufferBlankIffEmpty(text, maxChunkSize);
    NormalizedEmptyIffBlank(text);
  }

  /** An empty chunk can only be the first one, and the first chunk is empty
      exactly when the first character consumed has an encoding that alone
      reaches the limit; so with a limit above four bytes no chunk is empty,
      and with a limit of four or less a text starting with a four-byte
      character has an empty first chunk. */
  lemma EmptyChunkOnlyFirst(text: string, maxChunkSize: nat)
    ensures forall k :: 0 <= k < |ChunkTexts(text, maxChunkSize)| && ChunkTexts(text, maxChunkSize)[k] == [] ==>
              k == 0 && Normalized(text) != [] && maxChunkSize <= Utf8Len(Normalized(text)[0])
    ensures maxChunkSize > 4 ==> forall k :: 0 <= k < |ChunkTexts(text, maxChunkSize)| ==> ChunkTexts(text, maxChunkSize)[k] != []
    ensures Normalized(text) != [] && maxChunkSize <= Utf8Len(Normalized(text)[0]) ==>
              ChunkTexts(text, maxChunkSize) != [] && ChunkTexts(text, maxChunkSize)[0] == []
  {
    var cs := Normalized(text);
    var p := Run(cs, maxChunkSize);
    var r := ChunkTexts(text, maxChunkSize);
    RunEmptyChunk(cs, maxChunkSize);
    RunBufferEnd(cs, maxChunkSize);
    forall k | 0 <= k < |r| && r[k] == []
      ensures k == 0 && cs != [] && maxChunkSize <= Utf8Len(cs[0])
    {
      assert r[k] == p.chunks[k];
    }
    if cs != [] && maxChunkSize <= Utf8Len(cs[0]) {
      RunFirstChunkEmpty(cs, maxChunkSize);
      assert r[0] == p.chunks[0];
    }
  }

  /** A single line with no white space at either end is consumed as it is. */
  lemma NormalizedSingleLine(text: string)
    requires '\n' !in text
    requires text != [] ==> !IsWhitespace(text[0]) && !IsWhitespace(text[|text| - 1])
    ensures Normalized(text) == text
  {
    SplitJoinLines([text]);
    assert SplitLines(text) == [text];
    TrimSolid(text);
    assert [text][..0] == [];
  }

  /** Each character of `cs` as a chunk of its own. */
  function Singles(cs: string): seq<string> {
    seq(|cs|, k requires 0 <= k < |cs| => [cs[k]])
  }

  /** One more character is one more single-character chunk. */
  lemma SinglesSnoc(cs: string)
    requires cs != []
    ensures Singles(cs) == Singles(cs[..|cs| - 1]) + [[cs[|cs| - 1]]]
  {
  }

  /** With a one-byte limit every character flushes the buffer before it is
      appended, the first one included. */
  lemma {:induction false} RunOneByteLimit(cs: string)
    requires cs != []
    ensures Run(cs, 1) == Progress([[]] + Singles(cs[..|cs| - 1]), [cs[|cs| - 1]])
    decreases |cs|
  {
    var init := cs[..|cs| - 1];
    if init != [] {
      RunOneByteLimit(init);
      SinglesSnoc(init);
    }
  }

  /** With a two-byte limit and one-byte characters, every character after
      the first flushes the buffer: each chunk is a single character. */
  lemma {:induction false} RunTwoByteAscii(cs: string)
    requires cs != []
    requires forall k :: 0 <= k < |cs| ==> cs[k] as int < 0x80
    ensures Run(cs, 2) == Progress(Singles(cs[..|cs| - 1]), [cs[|cs| - 1]])
    decreases |cs|
  {
    var init := cs[..|cs| - 1];
    if init != [] {
      RunTwoByteAscii(init);
      var last := init[|init| - 1];
      assert [last][..0] == [];
      assert ByteLen([last]) == 1;
      SinglesSnoc(init);
    } else {
      assert Run(init, 2) == Progress([], []);
    }
  }

  /** The empty-chunk edge case: with a one-byte limit any non-blank text
      gives an empty first chunk, then one chunk per consumed character;
      a blank text gives no chunk. */
  lemma OneByteLimitChunks(text: string)
    ensures IsBlank(text) ==> ChunkTexts(text, 1) == []
    ensures !IsBlank(text) ==> ChunkTexts(text, 1) == [[]] + Singles(Normalized(text))
  {
    var cs := Normalized(text);
    NormalizedEmptyIffBlank(text);
    ChunksEmptyIffBlank(text, 1);
    if cs != [] {
      NormalizedEndsSolid(text);
      RunOneByteLimit(cs);
      SinglesSnoc(cs);
      var p := Run(cs, 1);
      assert !IsBlank(p.buffer) by {
        assert p.buffer[0] == cs[|cs| - 1];
      }
    }
  }

  /** With a two-byte limit, a text whose consumed characters are all one
      byte long is cut into those characters, so white space inside a line
      becomes a blank chunk of its own: only the final buffer is checked for
      blankness. */
  lemma TwoByteLimitChunks(text: string)
    requires forall k :: 0 <= k < |Normalized(text)| ==> Normalized(text)[k] as int < 0x80
    ensures ChunkTexts(text, 2) == Singles(Normalized(text))
    ensures forall k :: 0 <= k < |Normalized(text)| && IsWhitespace(Normalized(text)[k]) ==>
              IsBlank(ChunkTexts(text, 2)[k])
  {
    var cs := Normalized(text);
    var r := ChunkTexts(text, 2);
    if cs == [] {
      assert Run(cs, 2) == Progress([], []);
    } else {
      NormalizedEndsSolid(text);
      RunTwoByteAscii(cs);
      SinglesSnoc(cs);
      var p := Run(cs, 2);
      assert !IsBlank(p.buffer) by {
        assert p.buffer[0] == cs[|cs| - 1];
      }
      forall k | 0 <= k < |cs| && IsWhitespace(cs[k])
        ensures IsBlank(r[k])
      {
        assert r[k] == Singles(cs)[k];
      }
    }
  }

  /** The document service; only the chunk size limit takes part in
      chunking. */
  class DocumentService {
    const maxChunkSize: nat

    /** `DocumentService::new` (the repositories and the semaphore it also
        takes are not part of this model). */
    constructor (maxChunkSize: nat)
      ensures this.maxChunkSize == maxChunkSize
    {
      this.maxChunkSize := maxChunkSize;
    }

    /** `prepare_document`: the chunks of `document`, each bound to the
        document's id; the k-th chunk emitted takes the id `chunkId(k)`. */
    method PrepareDocument(document: Document, chunkId: nat -> Uuid) returns (chunks: seq<Chunk>)
      ensures chunks == Bind(document.id, ChunkTexts(document.text, maxChunkSize), chunkId)
      ensures |chunks| == |ChunkTexts(document.text, maxChunkSize)|
      ensures forall k :: 0 <= k < |chunks| ==>
                chunks[k].docId == document.id && chunks[k].text == ChunkTexts(document.text, maxChunkSize)[k]
    {
      var text := document.text;
      var id := document.id;
      var limit := maxChunkSize;
      var raw := SplitLines(text);
      chunks := [];
      var current: string := [];
      ghost var texts: seq<string> := [];
      var i := 0;
      while i < |raw|
        invariant 0 <= i <= |raw|
        invariant Run(Consumed(raw[..i]), limit) == Progress(texts, current)
        invariant chunks == Bind(id, texts, chunkId)
        invariant WithinLimit(current, limit)
      {
        chunks, current, texts := FeedLine(id, chunkId, limit, Trim(raw[i]), chunks, current, Consumed(raw[..i]), texts);
        RunNextLine(raw, i, limit);
        i := i + 1;
      }
      RunAllLines(raw, limit);
      // `!current_chunk.trim().is_empty()`, by `TrimEmptyIffBlank`.
      if !IsBlank(current) {
        BindSnoc(id, texts, current, chunkId);
        chunks := chunks + [Chunk(chunkId(|chunks|), id, current)];
      }
      BindSpec(id, ChunkTexts(text, limit), chunkId);
    }
  }

  /** The inner loop of `prepare_document`, over the characters of one
      trimmed piece `line`: a character flushes `current` into `chunks` when
      it would bring `current` to `maxChunkSize` bytes or more, then joins
      `current`. `consumed` holds the characters fed before `line` and
      `texts` the chunk texts emitted so far; the loop keeps both in step
      with `Run`. */
  method FeedLine(docId: Uuid, chunkId: nat -> Uuid, maxChunkSize: nat, line: string,
                  chunks0: seq<Chunk>, current0: string, ghost consumed: string, ghost texts0: seq<string>)
    returns (chunks: seq<Chunk>, current: string, ghost texts: seq<string>)
    requires Run(consumed, maxChunkSize) == Progress(texts0, current0)
    requires chunks0 == Bind(docId, texts0, chunkId)
    requires WithinLimit(current0, maxChunkSize)
    ensures Run(consumed + line, maxChunkSize) == Progress(texts, current)
    ensures chunks == Bind(docId, texts, chunkId)
    ensures WithinLimit(current, maxChunkSize)
  {
    chunks, current, texts := chunks0, current0, texts0;
    var j := 0;
    RunLineStart(consumed, line, maxChunkSize);
    while j < |line|
      invariant 0 <= j <= |line|
      invariant Run(consumed + line[..j], maxChunkSize) == Progress(texts, current)
      invariant chunks == Bind(docId, texts, chunkId)
      invariant WithinLimit(current, maxChunkSize)
    {
      var c := line[j];
      if ByteLen(current) + Utf8Len(c) >= maxChunkSize {
        RunFlush(consumed, line, j, maxChunkSize, texts, current);
        BindSnoc(docId, texts, current, chunkId);
        chunks := chunks + [Chunk(chunkId(|chunks|), docId, current)];
        texts := texts + [current];
        current := [];
      } else {
        RunAppend(consumed, line, j, maxChunkSize, texts, current);
      }
      current := current + [c];
      j := j + 1;
    }
    RunLineEnd(consumed, line, maxChunkSize);
  }

  /** The unit test of `prepare_document`: a non-blank document chunked with
      a limit of 128 bytes gives at least one chunk, and every chunk belongs
      to the document, is non-empty and is at most 128 bytes long. */
  method PrepareDocumentScenario(id: Uuid, text: string, chunkId: nat -> Uuid) returns (chunks: seq<Chunk>)
    requires !IsBlank(text)
    ensures chunks != []
    ensures forall k :: 0 <= k < |chunks| ==>
              chunks[k].docId == id && chunks[k].text != [] && ByteLen(chunks[k].text) <= 128
  {
    var document := new Document(id, text);
    var service := new DocumentService(128);
    chunks := service.PrepareDocument(document, chunkId);
    ChunksEmptyIffBlank(text, 128);
    ChunksUnderLimit(text, 128);
    EmptyChunkOnlyFirst(text, 128);
  }
}
