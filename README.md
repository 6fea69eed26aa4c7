# PDF to Speech: the text chunker and the speech helper

The application reads the text of a PDF aloud. Its only real logic lives in
`TTSHelper`: `splitTextIntoChunks` cuts the text after every `.` and packs the
pieces greedily into chunks for the speech engine, and the helper keeps every
engine operation behind an `isInitialized` flag that only a successful
initialisation callback sets. This project models both and proves what they
guarantee.

- `lists.dfy` (module `Lists`): concatenation of a list of strings and small
  facts about sequences.
- `sentences.dfy` (module `Sentences`): the split `text.split(Regex("(?<=\\.)"))`
  as the pure function `SplitAfterDots`. A zero-width match follows every `.`,
  and Kotlin's `Regex.split` keeps every piece. So `"Hello. World."` gives
  `"Hello."`, `" World."` and `""`, and `""` gives `[""]`. `IsDotSplit` describes
  the result without recursion, and `DotSplitUnique` proves that only one list
  of pieces fits that description.
- `chunking.dfy` (module `Chunking`): the packing loop.
  - `SplitTextIntoChunks` is the method. Its `for` loop has the source's
    `chunks`/`currentChunk` variables.
  - `Groups` specifies the loop. It is the list of pieces making up each chunk,
    built one piece at a time as the loop builds it.
  - `Chunks` is what the source returns.
  - `IsGreedyGrouping` states greedy packing without a loop. The pieces stay in
    order. A piece joins the current chunk exactly when the chunk's length plus
    the piece's length is within the limit. Otherwise it closes that chunk and
    starts the next one. The chunk's length counts the `" "` after each piece,
    but not the one after the incoming piece. `GroupsAreGreedy` and
    `GreedyGroupingUnique` prove that the loop's packing is the only greedy
    packing.
- `tts_helper.dfy` (module `Speech`): the class `TtsHelper`, whose
  `isInitialized` field gates `Speak`, `StopSpeaking` and `SetSpeechRate`. The
  platform engine is the class `Engine`: a FIFO queue of utterances and a
  speech rate.
- `scenarios.dfy` (module `Scenarios`): worked examples, lemmas about fixed inputs that pin down the quirks.

The chunker behaves as follows, and the model keeps each of these behaviours:
- Chunks are not trimmed. Pieces keep their leading space, and every piece,
  the last one included, is followed by `" "`. `"Hello. World."` with a roomy
  limit is the single chunk `"Hello.  World.  "`.
- Empty text yields `[" "]`, not an empty list: the split gives one empty
  piece.
- The check at `PDFtoAudio.kt:142` ignores the space appended at `:146`. So a
  chunk of two or more pieces can be `chunkSize + 1` long. A piece longer than
  `chunkSize` is never cut. It becomes its own chunk, `piece + " "`.
- When the first piece alone is over the limit, the first chunk is `""`. The
  check runs while the current chunk is still empty.

## Model

| member | source | states |
|---|---|---|
| `Sentences.SplitAfterDots` | app/src/main/java/com/example/pdftospeech/PDFtoAudio.kt:137 | the pieces concatenate back to the text; every piece but the last ends in `.` and holds no other `.`; the last holds no `.`; there is at least one piece |
| `Sentences.DotSplitUnique` | app/src/main/java/com/example/pdftospeech/PDFtoAudio.kt:137 | any list of pieces that cuts the text right after each `.` and nowhere else equals `SplitAfterDots(text)` |
| `Chunking.Groups` | app/src/main/java/com/example/pdftospeech/PDFtoAudio.kt:139-147 | the loop always has a current chunk; every chunk after the first holds at least one piece; with at least one piece, the last chunk is non-empty |
| `Chunking.Chunks` | app/src/main/java/com/example/pdftospeech/PDFtoAudio.kt:148-151 | the closed chunks come first, in order, each the text of its group; the current chunk is added exactly when at least one piece was read, since only then is it non-empty |
| `Chunking.GroupsKeepPieces` | app/src/main/java/com/example/pdftospeech/PDFtoAudio.kt:141-147 | nothing is dropped, reordered or cut: the chunks' pieces, in order, are exactly the split's pieces |
| `Chunking.FirstGroupEmpty` | app/src/main/java/com/example/pdftospeech/PDFtoAudio.kt:139-146 | the first chunk holds no piece exactly when there are no pieces or the first piece is longer than the limit |
| `Chunking.GroupsAreGreedy` | app/src/main/java/com/example/pdftospeech/PDFtoAudio.kt:141-147 | the loop's packing is greedy: each piece joined its chunk only when chunk length plus piece length was within the limit, and each chunk was closed only when the next piece did not fit |
| `Chunking.GreedyGroupingUnique` | app/src/main/java/com/example/pdftospeech/PDFtoAudio.kt:141-147 | every greedy packing of the pieces is the loop's packing, so greediness determines the result |
| `Chunking.ChunksAreGreedyPacking` | app/src/main/java/com/example/pdftospeech/PDFtoAudio.kt:141-150 | with at least one piece, the returned list is the text of every chunk of the greedy packing, the current chunk included |
| `Chunking.ChunksConcat` | app/src/main/java/com/example/pdftospeech/PDFtoAudio.kt:141-150 | the returned chunks concatenate to every piece followed by `" "`, in order |
| `Chunking.ChunksShape` | app/src/main/java/com/example/pdftospeech/PDFtoAudio.kt:139-150 | the result is never empty and its last chunk is non-empty; only the first chunk can be `""`, exactly when the first piece is over the limit; every non-empty chunk ends in `" "` |
| `Chunking.ChunksBound` | app/src/main/java/com/example/pdftospeech/PDFtoAudio.kt:142-146 | every non-empty chunk is at most `chunkSize + 1` long, or is one piece longer than `chunkSize` followed by `" "` |
| `Chunking.OversizedPieceAlone` | app/src/main/java/com/example/pdftospeech/PDFtoAudio.kt:142-146 | every occurrence `k` of a piece longer than the limit, repeated or not, is never cut and never shares a group: some group `m` is exactly that piece, and the groups before `m` hold exactly the `k` pieces before it |
| `Chunking.OversizedPieceChunk` | app/src/main/java/com/example/pdftospeech/PDFtoAudio.kt:141-151 | every occurrence `k` of a piece longer than the limit comes out as a chunk of its own, the piece followed by `" "`, at the place where the groups before it hold exactly the `k` pieces before it |
| `Chunking.EmptyTextOneSpace` | app/src/main/java/com/example/pdftospeech/PDFtoAudio.kt:137-151 | for a non-negative limit, empty text yields the single chunk `" "` |
| `Chunking.SplitTextIntoChunks` | app/src/main/java/com/example/pdftospeech/PDFtoAudio.kt:136-152 | the loop returns the greedy packing of the split text, which concatenates to every piece followed by `" "`, is never empty, ends in a non-empty chunk, and is `[" "]` for empty text |
| `Scenarios.HelloWorldOneChunk` | app/src/main/java/com/example/pdftospeech/PDFtoAudio.kt:136-152 | `"Hello. World."` with limit 100 gives the single chunk `"Hello.  World.  "` |
| `Scenarios.HelloWorldTinyLimit` | app/src/main/java/com/example/pdftospeech/PDFtoAudio.kt:136-152 | `"Hello. World."` with limit 3 gives `""`, `"Hello. "`, `" World. "`, `" "`: an empty first chunk, no piece cut, and the trailing empty piece as a chunk |
| `Speech.TtsHelper.constructor` | app/src/main/java/com/example/pdftospeech/PDFtoAudio.kt:102-104 | a new helper owns a fresh engine with an empty queue and is not initialised |
| `Speech.TtsHelper.OnInit` | app/src/main/java/com/example/pdftospeech/PDFtoAudio.kt:106-112 | `isInitialized` becomes true exactly on `SUCCESS` (and sets rate 1.0) and is never reset; any other status changes nothing |
| `Speech.TtsHelper.Speak` | app/src/main/java/com/example/pdftospeech/PDFtoAudio.kt:114-121 | when initialised, the chunks of `text` for limit 3900 are appended, in order, after everything already queued; before that nothing changes |
| `Speech.TtsHelper.EnqueueAll` | app/src/main/java/com/example/pdftospeech/PDFtoAudio.kt:117-119 | every chunk is queued with append semantics: the queue becomes the old queue followed by the chunks, in order; the rate is kept |
| `Speech.TtsHelper.StopSpeaking` | app/src/main/java/com/example/pdftospeech/PDFtoAudio.kt:123-127 | when initialised the queue is emptied, otherwise nothing changes; the rate is kept |
| `Speech.TtsHelper.SetSpeechRate` | app/src/main/java/com/example/pdftospeech/PDFtoAudio.kt:129-133 | when initialised the rate becomes `rate`, otherwise nothing changes; the queue is kept |

## Left out

- `PdfToAudioScreen` (`PDFtoAudio.kt:23-99`): Compose UI layout, the file picker and the screen's `isSpeaking`/`speechRate` state. It is UI, not logic.
- `extractTextFromPdf` (`PDFtoAudio.kt:156-178`): PDF parsing through iText, content streams and logging are foreign I/O.
- The engine's internals: audio synthesis, its worker thread, and when the asynchronous `onInit` callback arrives. The engine is a queue and a rate, and callbacks are method calls.
- `tts.language = Locale("en", "IN")` at `:108`: locale configuration has no logic to model.
- Speech rates are Kotlin `Float`s. Here they are values that `SetSpeechRate` stores and `OnInit` resets to 1.0; no floating-point behaviour is modelled.
- Speech.TtsHelper.Speak: the `onComplete` parameter is left out. The source accepts it and never invokes it, so no callback effect exists to model.
- Speech.Engine.SpeakQueued: the platform refuses utterances longer than its maximum input length, and the source ignores that result. The model queues every chunk.
- Chunking.SplitTextIntoChunks: a string's length here is its number of Unicode code points, while Kotlin's `length` at `:142` counts UTF-16 code units. A text with characters outside the Basic Multilingual Plane (emoji, mathematical letters), each two units in Kotlin, can therefore break into different chunks, and the `chunkSize + 1` bound counts code points, not Kotlin's units.
- Chunking.SplitTextIntoChunks: lengths are unbounded integers. In the source, `currentChunk.length + sentence.length` at `:142` is a 32-bit sum. It could wrap only for texts of more than 2^30 characters.
