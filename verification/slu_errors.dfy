/** The errors of package slu, one constructor per distinct error value the
    source returns. Errors coming from outside the package (the stream, the
    audio source) are carried verbatim as `External`. */
module SluErrors {
  import opened Wrappers

  datatype Error =
    | NilValue                     // "cannot parse nil value"
    | InvalidUuid                  // uuid.Parse rejected the context id
    | MismatchedContextId          // "mismatched context ID"
    | TranscriptToFinalisedSegment // "cannot add a transcript to finalised segment"
    | OverrideFinalisedTranscript  // "cannot override finalised transcript"
    | EntityToFinalisedSegment     // "cannot add an entity to finalised segment"
    | OverrideFinalisedEntity      // "cannot override finalised entity"
    | IntentToFinalisedSegment     // "cannot add an intent to finalised segment"
    | OverrideFinalisedIntent      // "cannot override finalised intent"
    | SegmentHasNoTranscripts      // "finalised segment has no transcripts"
    | NonExistingSegment           // "cannot finalise non-existing segment"
    | ContextHasNoSegments         // "finalised context has no segments"
    | UnknownResponseType          // "unknown response type"
    | UnexpectedEof                // "unexpected io.EOF from API"
    | Canceled                     // context.Canceled, once the handler has been closed
    | SendFailed                   // the error Send returns once the stream accepts no more requests
    | External(reason: string)     // any other stream or audio-source error, propagated as is

  type SluResult<T> = Result<T, Error>
}
