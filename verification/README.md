# slu-client core in Dafny

A model of the client-side core of the Speechly SLU (spoken language
understanding) client, written in Go. The client streams audio to the API
and turns the stream of responses into an audio context: segments, each
with transcripts keyed by word index, entities keyed by their span, and an
intent. Fragments are either tentative (they may still change) or
finalised (they may not).

The model covers:

- the SLU data model (`Transcripts`, `Entities`, `Intents`, `Segments`,
  `Contexts`): parsing API messages, adding and finalising fragments, the
  error for every rejected mutation, and the JSON array form of the maps;
- the receive loop of the handler (`Handler`): classifying each response
  into one mutation of the context, in arrival order, with a snapshot
  published after each, and the errors that end the loop;
- the send side of the handler (`Sender`): START first, the audio payloads
  the audio source offers, STOP and closing the source at the end;
- the JSON array serialiser (`Json`), with the item encoder as a parameter;
- audio buffers (`Buffers`, `Binary`, `AudioTypes`): the four fixed-width
  sample buffers, their copies and transfers, and their byte encoding in
  either byte order, with Go's two's-complement truncation written out
  (`GoInts`).

Go's map iteration order is a parameter (`order`, any enumeration of the
keys). The UUID library is a pair of functions (`Contexts.UuidCodec`).
`encoding/json`'s encoding of one item is a parameter (`Json.Encoder`).
A Go method that mutates its receiver is a function returning the new value or the
error; a buffer whose slice a method writes through is returned as its
caller sees it afterwards.

`NewSegment` ignores its argument: every segment it creates has id 0, and
the model keeps that (`Segments.NewSegment`,
`Segments.NewSegmentsOfCreatedSegments`).

## Model

| member | source | states |
|---|---|---|
| Transcripts.Parse | pkg/speechly/slu/transcript.go:23-35 | a nil message yields `NilValue` and leaves the receiver as it was; otherwise the result carries the message's word, index and times, and is finalised exactly when the message is not tentative |
| Transcripts.ParseForgetsReceiver | pkg/speechly/slu/transcript.go:23-35 | a successful parse does not depend on what the receiver held before |
| Transcripts.NewTranscripts | pkg/speechly/slu/transcript.go:41-49 | an index is a key exactly when some transcript has it, and the value is the last transcript with that index; every transcript sits under its own index |
| Transcripts.MarshalIgnoresIterationOrder | pkg/speechly/slu/transcript.go:52-72 | the JSON output is the same for every iteration order of the map |
| Transcripts.MarshalEmitsAscending | pkg/speechly/slu/transcript.go:52-72 | the array holds every stored transcript exactly once, in strictly ascending index order |
| Transcripts.MarshalEmpty | pkg/speechly/slu/transcript.go:52-72 | an empty map serialises to `[]` |
| Entities.Parse | pkg/speechly/slu/entity.go:18-30 | a nil message yields `NilValue` and leaves the receiver as it was; otherwise the result carries the message's type, value and span, and is finalised exactly when the message is not tentative |
| Entities.ParseForgetsReceiver | pkg/speechly/slu/entity.go:18-30 | a successful parse does not depend on what the receiver held before |
| Entities.NewEntities | pkg/speechly/slu/entity.go:33-53 | a span is a key exactly when some entity has it, and the value is the last entity with that span |
| Entities.MarshalEmitsEachOnce | pkg/speechly/slu/entity.go:56-69 | the array holds one item per stored entity, in the map's iteration order |
| Intents.Parse | pkg/speechly/slu/intent.go:12-21 | a nil message yields `NilValue` and leaves the receiver as it was; otherwise the intent carries the message's value and is finalised exactly when the message is not tentative |
| Intents.ParseForgetsReceiver | pkg/speechly/slu/intent.go:12-21 | a successful parse does not depend on what the receiver held before |
| Segments.NewSegment | pkg/speechly/slu/segment.go:20-25 | an empty, unfinalised segment whose id is 0, whatever id was asked for |
| Segments.AddTranscript | pkg/speechly/slu/segment.go:29-41 | rejected on a finalised segment and over a finalised transcript, accepted in every other case; when accepted, the transcript lands under its index, no other index changes, and every finalised fragment stays |
| Segments.AddEntity | pkg/speechly/slu/segment.go:44-57 | rejected on a finalised segment and over a finalised entity with the same span, accepted in every other case; when accepted, the entity lands under its span and every finalised fragment stays |
| Segments.SetIntent | pkg/speechly/slu/segment.go:60-71 | rejected on a finalised segment and over a finalised intent, accepted in every other case, where it replaces the intent |
| Segments.Finalise | pkg/speechly/slu/segment.go:76-100 | a finalised segment is returned as it is; otherwise it succeeds exactly when some transcript is finalised, keeps only finalised transcripts and entities, and marks the segment finalised |
| Segments.FinaliseIdempotent | pkg/speechly/slu/segment.go:76-100 | finalising a finalised segment changes nothing |
| Segments.NewSegments | pkg/speechly/slu/segment.go:106-114 | an id is a key exactly when some segment has it, and the value is the last segment with that id |
| Segments.NewSegmentsOfCreatedSegments | pkg/speechly/slu/segment.go:20-25 | segments made by `NewSegment` all collide under key 0, and the last one wins |
| Segments.Get | pkg/speechly/slu/segment.go:118-126 | an existing segment is returned and the map is unchanged; a missing one is created, stored and returned |
| Segments.MarshalEmitsEachOnce | pkg/speechly/slu/segment.go:129-142 | the array holds one item per stored segment, in the map's iteration order |
| Segments.MarshalFails | pkg/speechly/slu/segment.go:129-142 | an item that fails to encode fails the whole array with its error |
| Contexts.NewAudioContext | pkg/speechly/slu/context.go:20-24 | no id, no segments, not finalised |
| Contexts.SetID | pkg/speechly/slu/context.go:27-35 | an id that does not parse is rejected with `InvalidUuid`; otherwise it becomes the context's id and nothing else changes |
| Contexts.CheckID | pkg/speechly/slu/context.go:38-44 | passes exactly when the context has no id yet or its printed id equals the given one; otherwise `MismatchedContextId` |
| Contexts.AddTranscript | pkg/speechly/slu/context.go:47-55 | succeeds exactly when the segment (created when missing) accepts the transcript, with its error otherwise; only that segment changes |
| Contexts.AddTranscriptCreates | pkg/speechly/slu/context.go:47-55 | a missing segment is created holding just the new transcript |
| Contexts.AddEntity | pkg/speechly/slu/context.go:58-66 | succeeds exactly when the segment (created when missing) accepts the entity, with its error otherwise; only that segment changes |
| Contexts.AddEntityCreates | pkg/speechly/slu/context.go:58-66 | a missing segment is created holding just the new entity |
| Contexts.SetIntent | pkg/speechly/slu/context.go:69-77 | succeeds exactly when the segment (created when missing) accepts the intent, with its error otherwise; only that segment changes |
| Contexts.SetIntentCreates | pkg/speechly/slu/context.go:69-77 | a missing segment is created holding just the new intent |
| Contexts.FinaliseSegment | pkg/speechly/slu/context.go:80-91 | a missing segment is rejected with `NonExistingSegment`; otherwise it succeeds exactly when the segment can be finalised, and adds no segment |
| Contexts.Finalise | pkg/speechly/slu/context.go:94-108 | a context without segments is rejected; otherwise it succeeds exactly when every segment can be finalised, drops each segment's tentative fragments, marks the context finalised and keeps its id and its segment ids |
| Contexts.AddTranscriptKeeps | pkg/speechly/slu/context.go:47-55 | no finalised fragment is lost or changed, and a valid unfinalised context stays valid |
| Contexts.AddEntityKeeps | pkg/speechly/slu/context.go:58-66 | no finalised fragment is lost or changed, and a valid unfinalised context stays valid |
| Contexts.SetIntentKeeps | pkg/speechly/slu/context.go:69-77 | no finalised fragment is lost or changed, and a valid unfinalised context stays valid |
| Contexts.FinaliseSegmentKeeps | pkg/speechly/slu/context.go:80-91 | no finalised fragment is lost or changed, and validity is kept |
| Contexts.FinaliseKeeps | pkg/speechly/slu/context.go:94-108 | no finalised fragment is lost or changed, and validity is kept |
| Contexts.FinaliseLeavesSegmentFlags | pkg/speechly/slu/context.go:94-108 | finalising the context copies each segment's fragments but does not mark the segments themselves finalised |
| Contexts.FinaliseIdempotent | pkg/speechly/slu/context.go:94-108 | finalising a finalised context again gives the same context |
| Json.NewArraySerialiser | internal/json/array_serialiser.go:22-32 | the buffer starts with the opening bracket |
| Json.Write | internal/json/array_serialiser.go:34-48 | an item that fails to encode fails the write; otherwise its encoding and a comma are appended |
| Json.Finalise | internal/json/array_serialiser.go:52-65 | the last comma is dropped when the buffer holds more than the bracket, the closing bracket is appended, and the buffer is reset |
| Json.WriteAllAppends | internal/json/array_serialiser.go:34-48 | writing items appends each encoding followed by a comma |
| Json.SerialiseFrames | internal/json/array_serialiser.go:22-65 | a fresh serialiser yields `[`, the encodings joined by commas, and `]` |
| Json.SerialiseEmpty | internal/json/array_serialiser.go:52-65 | no items yield `[]` |
| Json.SerialiseFails | internal/json/array_serialiser.go:34-48 | the first item that fails to encode fails the whole array with its error |
| Json.ReuseLosesOpeningBracket | internal/json/array_serialiser.go:52-65 | after `Finalise` the buffer is empty, so a reused serialiser's next array lacks its opening bracket |
| Handler.Start | pkg/speechly/slu/handler.go:222-227 | the loop starts from a new, empty context |
| Handler.Step | pkg/speechly/slu/handler.go:243-322 | a response for another context fails with `MismatchedContextId`; a successful `Finished` step leaves the context finalised |
| Handler.FragmentStepStores | pkg/speechly/slu/handler.go:253-276 | a final transcript, entity or intent lands in the response's segment marked finalised, carrying the message's fields |
| Handler.ControlStepEffects | pkg/speechly/slu/handler.go:306-319 | `SegmentEnd` finalises an existing segment, `Started` sets the parsed id and changes no segment, `Finished` finalises a context that has segments; an unknown response never succeeds |
| Handler.StepRejects | pkg/speechly/slu/handler.go:252-321 | an unknown response, a missing segment at `SegmentEnd`, an unparsable id at `Started`, a context without segments at `Finished` and a nil message are each rejected with their own error |
| Handler.TentativeWordsFrame | pkg/speechly/slu/handler.go:278-287 | tentative words change only their own segment (created when missing) and keep the id and the finalised flag |
| Handler.TentativeWordsOverlay | pkg/speechly/slu/handler.go:278-287 | the segment's transcripts become the old ones overlaid, front to back, with the words |
| Handler.TentativeWordsLastWins | pkg/speechly/slu/handler.go:278-287 | at every index the words mention, the last word with that index is stored, tentative; every other index keeps its value |
| Handler.TentativeEntitiesFrame | pkg/speechly/slu/handler.go:288-297 | tentative entities change only their own segment (created when missing) and keep the id and the finalised flag |
| Handler.TentativeEntitiesOverlay | pkg/speechly/slu/handler.go:288-297 | the segment's entities become the old ones overlaid, front to back, with the new entities |
| Handler.TentativeEntitiesLastWins | pkg/speechly/slu/handler.go:288-297 | at every span the entities mention, the last entity with that span is stored, tentative; every other span keeps its value |
| Handler.StepKeeps | pkg/speechly/slu/handler.go:252-322 | a successful step loses or changes no finalised fragment, keeps a valid unfinalised context valid, changes the finalised flag only on `Finished`, and keeps an assigned id |
| Handler.Loop | pkg/speechly/slu/handler.go:229-330 | one snapshot per applied response; only the last may be `Finished`, and a loop that ends without error ends on `Finished`; a stream that runs out ends with the unexpected-EOF error |
| Handler.Run | pkg/speechly/slu/handler.go:219-333 | a run that ends without error publishes a finalised context last |
| Handler.LastSnapshotFinal | pkg/speechly/slu/handler.go:314-319 | the snapshot after `Finished` is finalised |
| Handler.SnapshotIsReplay | pkg/speechly/slu/handler.go:229-330 | snapshot i is the context after applying the first i+1 responses in arrival order |
| Handler.SnapshotsAreReplays | pkg/speechly/slu/handler.go:229-330 | every snapshot is the in-order replay of the responses up to it |
| Handler.FailureStops | pkg/speechly/slu/handler.go:229-330 | the loop stops at the first response that cannot be applied, with that response's error, after one snapshot for each earlier response |
| Handler.LoopValid | pkg/speechly/slu/handler.go:229-330 | from a valid unfinalised context, every snapshot is valid |
| Handler.LoopRetains | pkg/speechly/slu/handler.go:229-330 | every snapshot keeps every finalised fragment and every finalised segment of the start and of every earlier snapshot |
| Handler.LoopKeepsId | pkg/speechly/slu/handler.go:229-330 | once assigned, the context id never changes during the run |
| Handler.RunKeeps | pkg/speechly/slu/handler.go:219-333 | every snapshot of a run is valid, finalised fragments are never lost, a finalised segment stays finalised, and the id assigned by `Started` stays |
| Sender.AudioLoop | pkg/speechly/slu/handler.go:195-216 | every payload the audio source offers is sent in order, the one that came with EOF included, until the audio source stops the loop or a send is rejected, which stops it with that error |
| Sender.Open | pkg/speechly/slu/handler.go:123-187 | START is sent first and a rejected START ends creation; otherwise the audio sent is a prefix of what the audio source offered, then STOP, and the audio source is closed |
| Sender.StartAndStopFrame | pkg/speechly/slu/handler.go:178-187 | START is sent exactly once and STOP at most once; no audio goes out before START or after STOP |
| Sender.EveryPayloadForwarded | pkg/speechly/slu/handler.go:195-216 | with a stream that accepts everything, the requests are START, every payload in order, then STOP, and the error is the audio source's |
| Sender.FinalChunkIsForwarded | pkg/speechly/slu/handler.go:202-212 | the chunk that comes with EOF is still sent |
| Sender.RejectedSendStops | pkg/speechly/slu/handler.go:209-212 | after a rejected send no further audio is attempted; STOP follows |
| AudioTypes.WidthOf | pkg/audio/types.go:17-23 | each supported depth is eight bits per byte of its sample width |
| AudioTypes.DepthOf | pkg/audio/types.go:17-23 | every sample width has a supported depth that maps back to it |
| AudioTypes.WidthDepthRoundTrip | pkg/audio/types.go:17-23 | depth to width and back is the identity |
| AudioTypes.NewFormat | pkg/audio/types.go:34-54 | depths other than 8, 16, 32 and 64 are rejected with the zero format; otherwise the depth is kept and the counts are cut to `int32` |
| AudioTypes.NewFormatKeepsFittingValues | pkg/audio/types.go:34-54 | a successful format never has the undefined depth and keeps values that fit in 32 bits |
| GoInts.Wrap | pkg/audio/buffer.go:113 | a Go integer conversion keeps the low bits: the result fits the width, differs from the input by a multiple of 2^N, and a value that already fits is unchanged |
| Binary.DecodeEncode | pkg/audio/buffer.go:160-189 | a value that fits its width decodes from its bytes back to itself, in either byte order |
| Binary.EncodeDecode | pkg/audio/buffer.go:160-189 | every byte string of the right length encodes back from the value it decodes to |
| Binary.EncodeValueIsLowBytes | pkg/audio/buffer.go:160-172 | a value's bytes are its residue modulo the width, least significant first for little-endian and reversed for big-endian |
| Buffers.NewBuffer | pkg/audio/buffer.go:51-64 | an unsupported depth is rejected; otherwise a valid buffer of that width and size, all zeros |
| Buffers.Size | pkg/audio/buffer.go:78-80 | the number of samples held |
| Buffers.ReportedBitDepth | pkg/audio/buffer.go:82-84 | every variant reports 16 bits |
| Buffers.ReportedDepthIsWrong | pkg/audio/buffer.go:82-84 | an 8-bit buffer reports 16 bits |
| Buffers.IntendedDepthRoundTrip | pkg/audio/buffer.go:51-64 | the corrected depth is the one the buffer was created with |
| Buffers.Clone | pkg/audio/buffer.go:90-98 | a valid buffer of the same width and size holding the same samples |
| Buffers.Write | pkg/audio/buffer.go:100-117 | reports `len(buf)`; a `buf` that fits is stored at the front, truncated to the width, and the rest is kept; a longer one leaves the buffer unchanged |
| Buffers.Read | pkg/audio/buffer.go:119-130 | copies the first `min(len(buf), size)` samples and reports that count; the rest of `buf` is untouched |
| Buffers.WriteThenRead | pkg/audio/buffer.go:100-130 | values that fit the width and the buffer read back as written |
| Buffers.ReadThenWrite | pkg/audio/buffer.go:100-130 | writing back what was read leaves the buffer unchanged |
| Buffers.WriteFittingReadsBack | pkg/audio/buffer.go:100-117 | with the corrected write, the count reported is exactly what reads back |
| Buffers.WriteLongerLosesSamples | pkg/audio/buffer.go:100-117 | writing two values into a one-sample buffer reports 2 yet nothing reads back |
| Buffers.TransferCheck | pkg/audio/buffer.go:132-141 | the checks pass exactly for the same variant; otherwise `InvalidBuffer`, never the depth error |
| Buffers.WriteTo | pkg/audio/buffer.go:132-144 | a different variant is rejected; otherwise the first `min` samples are copied into the destination and its other samples are kept |
| Buffers.ReadFrom | pkg/audio/buffer.go:146-158 | a different variant is rejected; otherwise the first `min` samples of the source are copied in and the other samples are kept |
| Buffers.WriteToIsReadFrom | pkg/audio/buffer.go:132-158 | `a.WriteTo(b)` and `b.ReadFrom(a)` are the same copy |
| Buffers.IntendedTransferCheck | pkg/audio/buffer.go:132-136 | the corrected check rejects a different width with the depth error |
| Buffers.MismatchedDepthsPassDepthCheck | pkg/audio/buffer.go:132-141 | an 8-bit and a 16-bit buffer pass the depth check and fail only the variant check |
| Buffers.DecodeEncodeSamples | pkg/audio/buffer.go:160-189 | decoding the encoding of samples that fit the width gives them back |
| Buffers.EncodeDecodeSamples | pkg/audio/buffer.go:160-189 | decoded bytes re-encode to exactly the bytes consumed |
| Buffers.FitsIsLength | pkg/audio/buffer.go:174-189 | n samples fit exactly when n times the sample size bytes are available |
| Buffers.Encode | pkg/audio/buffer.go:160-172 | writes the samples in order until the writer fails, reporting how many were written and whether it failed |
| Buffers.Decode | pkg/audio/buffer.go:174-189 | reads whole samples in order up to the size, and the count is the number that fit; the samples not reached keep their values; the error is none when the buffer filled, the reader's own error when it failed, and otherwise EOF when no bytes were left and unexpected EOF for a partial sample |
| Buffers.EncodeThenDecode | pkg/audio/buffer.go:160-189 | decoding what `Encode` wrote, into a buffer of the same width and size, fills it without error and restores the original samples, whatever error the reader would report after them |

## Left out

- Concurrency: the errgroup, the results channel, `Read` and `Close` of the handler, and the done callback. The two loops are modelled each on its own; a cancelled context is one more stream item (`Cancelled`).
- The lock and reconnection logic of the stream client: these are outside the modelled files.
- Snapshot aliasing: Go publishes a context whose maps are shared with the loop's later mutations. The model publishes values.
- Handler.Loop: the context left behind after a failed step is not modelled, since the loop returns at once and nobody reads it.
- Segments.Finalise: on failure the Go code has already deleted the tentative entries; the model returns only the error, since every caller aborts on it. Likewise a failed `SetID` returns only its error.
- Sender.Open: a rejected STOP and a failing source close are only logged, so the model records their attempt and not their outcome.
- Sender.Open: partial writes into the audio buffer and the size of each payload are not modelled; a payload is what `WriteTo` produced.
- Buffers.NewBuffer: the size is a `nat`, so the panic of `make` on a negative size is not modelled.
- Buffers `Data`: it hands out the address of the slice; the model folds it into the transfers that use it.
- Buffers.Encode: the writer either takes a whole sample or fails; a write that fails half-way through a sample is not modelled.
- Buffers.Decode: the reader is the bytes it delivers followed by one terminal outcome, EOF or an error of its own. The bytes a failed partial read consumed are not modelled.
- Binary.EncodeValue keeps the low bytes of any integer, so the sample value need not fit its width. A buffer's samples always fit.
- The UUID library is abstract (`Contexts.UuidCodec`); id stability is proved only for a library whose printed ids parse back.
- `encoding/json`: the encoding of one item is a parameter (`Json.Encoder`). The model does not fix the field names or the byte form of an item.
- JSON order: only `Transcripts.MarshalJSON` sorts its items (transcript.go:58-63); `Segments.MarshalJSON` and `Entities.MarshalJSON` range over their maps directly (segment.go:135, entity.go:62), so those arrays follow Go's map iteration order, which the model leaves as a parameter.
- Contexts.Finalise: the doc comment at context.go:93 promises to finalise all segments, but the loop at context.go:95-99 calls `Finalise` on a `range` copy of each segment. The pruning of tentative fragments reaches the stored segments through their shared maps, while each segment's own finalised flag is not written back; the model follows the code (`Contexts.FinaliseLeavesSegmentFlags`).
- The command-line tools, configuration, logging, the gRPC client and the microphone and WAV sources: outside the core.

## Findings

| source | as written | input that shows it | evidently intended | confidence | as-written member | corrected member |
|---|---|---|---|---|---|---|
| pkg/audio/buffer.go:82-84 | every buffer variant's `BitDepth` returns `BitDepth16`, so the depth check in `WriteTo`/`ReadFrom` never fails | an 8-bit buffer and a 16-bit buffer: both report 16 bits, and the transfer fails with `ErrInvalidBuffer` rather than `ErrInvalidBitDepth` | each variant reports its own depth, and a transfer between different depths fails the depth check | not executed | Buffers.MismatchedDepthsPassDepthCheck | Buffers.IntendedTransferCheck |
| pkg/audio/buffer.go:100-117 | when `len(buf)` exceeds the size, `append` grows a private copy, so nothing reaches the caller's buffer, yet `len(buf)` is reported | `Write([5, 6])` into a one-sample 16-bit buffer reports 2 and the buffer still reads `0` | store what fits and report only that count | not executed | Buffers.WriteLongerLosesSamples | Buffers.WriteFittingReadsBack |
