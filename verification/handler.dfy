/** The receive side of pkg/speechly/slu/handler.go: the classifier that
    maps each API response onto one mutation of the audio context, and the
    loop that applies responses in arrival order and publishes a snapshot
    after each one. */
module Handler {
  import opened Wrappers
  import opened GoInts
  import opened SluErrors
  import T = Transcripts
  import E = Entities
  import I = Intents
  import S = Segments
  import C = Contexts
  import Collections

  /** The variants of a streaming response. A `None` message stands for a
      nil message inside the variant. A nil tentative-transcript or
      tentative-entities message reads as an empty list, as its Go getter
      returns nil. `Unrecognised` is every other variant, including none. */
  datatype Payload =
    | TranscriptMsg(transcript: Option<T.WireTranscript>)
    | EntityMsg(entity: Option<E.WireEntity>)
    | IntentMsg(intent: Option<I.WireIntent>)
    | TentativeTranscriptMsg(words: seq<Option<T.WireTranscript>>)
    | TentativeEntitiesMsg(entities: seq<Option<E.WireEntity>>)
    | TentativeIntentMsg(intent: Option<I.WireIntent>)
    | SegmentEndMsg
    | StartedMsg
    | FinishedMsg
    | Unrecognised

  datatype Response = Response(audioContext: string, segmentId: int32, payload: Payload)

  /** One iteration's outcome: the handler was closed before `Recv`, or
      what `Recv` returned. */
  datatype RecvResult = Cancelled | Received(response: Response) | EndOfStream | RecvFailed(reason: string)

  /** The receive loop's local state: the context and the three receivers
      that are reused, message after message, for parsing. */
  datatype Receiver = Receiver(context: C.AudioContext, t: T.Transcript, e: E.Entity, i: I.Intent)

  function Start(): (st: Receiver)
    ensures st.context == C.NewAudioContext()
  {
    Receiver(C.NewAudioContext(), T.Zero, E.Zero, I.Zero)
  }

  /** A parse outcome as a result: its error, or the filled receiver. */
  function Checked<X>(p: (X, Option<Error>)): (r: SluResult<X>)
    ensures p.1.None? ==> r == Ok(p.0)
    ensures p.1.Some? ==> r == Err(p.1.value)
  {
    if p.1.Some? then Err(p.1.value) else Ok(p.0)
  }

  // ---------------------------------------------------------------------
  // The classifier
  // ---------------------------------------------------------------------

  /** Applies tentative words one by one, in order, to segment `sid`,
      stopping at the first failure. */
  function AddTentativeWords(st: Receiver, sid: int32, words: seq<Option<T.WireTranscript>>): SluResult<Receiver>
    decreases |words|
  {
    if |words| == 0 then Ok(st)
    else
      var t :- Checked(T.Parse(st.t, words[0], true));
      var c :- C.AddTranscript(st.context, sid, t);
      AddTentativeWords(st.(context := c, t := t), sid, words[1..])
  }

  /** Applies tentative entities one by one, in order, to segment `sid`,
      stopping at the first failure. */
  function AddTentativeEntities(st: Receiver, sid: int32, es: seq<Option<E.WireEntity>>): SluResult<Receiver>
    decreases |es|
  {
    if |es| == 0 then Ok(st)
    else
      var e :- Checked(E.Parse(st.e, es[0], true));
      var c :- C.AddEntity(st.context, sid, e);
      AddTentativeEntities(st.(context := c, e := e), sid, es[1..])
  }

  /** The `switch` over the response variant. */
  function Dispatch(codec: C.UuidCodec, st: Receiver, res: Response): SluResult<Receiver>
  {
    var sid := res.segmentId;
    match res.payload
    case TranscriptMsg(v) =>
      var t :- Checked(T.Parse(st.t, v, false));
      var c :- C.AddTranscript(st.context, sid, t);
      Ok(st.(context := c, t := t))
    case EntityMsg(v) =>
      var e :- Checked(E.Parse(st.e, v, false));
      var c :- C.AddEntity(st.context, sid, e);
      Ok(st.(context := c, e := e))
    case IntentMsg(v) =>
      var i :- Checked(I.Parse(st.i, v, false));
      var c :- C.SetIntent(st.context, sid, i);
      Ok(st.(context := c, i := i))
    case TentativeTranscriptMsg(words) =>
      AddTentativeWords(st, sid, words)
    case TentativeEntitiesMsg(es) =>
      AddTentativeEntities(st, sid, es)
    case TentativeIntentMsg(v) =>
      var i :- Checked(I.Parse(st.i, v, true));
      var c :- C.SetIntent(st.context, sid, i);
      Ok(st.(context := c, i := i))
    case SegmentEndMsg =>
      var c :- C.FinaliseSegment(st.context, sid);
      Ok(st.(context := c))
    case StartedMsg =>
      var c :- C.SetID(codec, st.context, res.audioContext);
      Ok(st.(context := c))
    case FinishedMsg =>
      var c :- C.Finalise(st.context);
      Ok(st.(context := c))
    case Unrecognised =>
      Err(UnknownResponseType)
  }

  /** One iteration of the receive loop for a received response: the id
      check, then the classified mutation. */
  function Step(codec: C.UuidCodec, st: Receiver, res: Response): (r: SluResult<Receiver>)
    ensures C.CheckID(codec, st.context, res.audioContext).Err? ==> r == Err(MismatchedContextId)
    ensures r.Ok? && res.payload.FinishedMsg? ==> r.value.context.isFinalised
  {
    var _ :- C.CheckID(codec, st.context, res.audioContext);
    Dispatch(codec, st, res)
  }

  // ---------------------------------------------------------------------
  // The loop
  // ---------------------------------------------------------------------

  /** What one loop iteration does with a received response. */
  type Stepper = (Receiver, Response) -> SluResult<Receiver>

  function StepWith(codec: C.UuidCodec): Stepper
  {
    (st: Receiver, res: Response) => Step(codec, st, res)
  }

  /** Snapshots published, in order, and the error the loop ended with
      (`None` when it ended on `Finished`). */
  datatype ReceiveRun = ReceiveRun(snapshots: seq<C.AudioContext>, err: Option<Error>)

  /** The receive loop over the stream's outcomes, for any step. A stream
      that has no more outcomes has ended, which `Recv` reports as
      `io.EOF`. */
  function Loop(step: Stepper, st: Receiver, stream: seq<RecvResult>): (r: ReceiveRun)
    ensures |r.snapshots| <= |stream|
    ensures forall i :: 0 <= i < |r.snapshots| ==> stream[i].Received?
    ensures forall i :: 0 <= i < |r.snapshots| - 1 ==> !stream[i].response.payload.FinishedMsg?
    ensures r.err.None? ==> |r.snapshots| > 0 && stream[|r.snapshots| - 1].response.payload.FinishedMsg?
    ensures r.err.Some? && |r.snapshots| == |stream| ==> r.err == Some(UnexpectedEof)
    decreases |stream|
  {
    if |stream| == 0 then ReceiveRun([], Some(UnexpectedEof))
    else
      match stream[0]
      case Cancelled => ReceiveRun([], Some(Canceled))
      case EndOfStream => ReceiveRun([], Some(UnexpectedEof))
      case RecvFailed(reason) => ReceiveRun([], Some(External(reason)))
      case Received(res) =>
        match step(st, res)
        case Err(e) => ReceiveRun([], Some(e))
        case Ok(st') =>
          if res.payload.FinishedMsg? then ReceiveRun([st'.context], None)
          else
            var rest := Loop(step, st', stream[1..]);
            assert forall i :: 0 <= i < |rest.snapshots| ==> stream[1..][i] == stream[i + 1];
            ReceiveRun([st'.context] + rest.snapshots, rest.err)
  }

  /** The receive goroutine: the loop with this package's step, from a
      fresh context. */
  function Run(codec: C.UuidCodec, stream: seq<RecvResult>): (r: ReceiveRun)
    ensures r.err.None? ==> |r.snapshots| > 0 && r.snapshots[|r.snapshots| - 1].isFinalised
  {
    LastSnapshotFinal(codec, Start(), stream);
    Loop(StepWith(codec), Start(), stream)
  }

  /** A loop that ends without error ends on a `Finished` response, whose
      snapshot is the finalised context. */
  lemma {:induction false} LastSnapshotFinal(codec: C.UuidCodec, st: Receiver, stream: seq<RecvResult>)
    ensures var r := Loop(StepWith(codec), st, stream);
            r.err.None? ==> r.snapshots[|r.snapshots| - 1].isFinalised
    decreases |stream|
  {
    var r := Loop(StepWith(codec), st, stream);
    if r.err.None? {
      var res := stream[0].response;
      var next := Step(codec, st, res);
      assert StepWith(codec)(st, res) == next;
      if !res.payload.FinishedMsg? {
        LastSnapshotFinal(codec, next.value, stream[1..]);
      }
    }
  }

  // ---------------------------------------------------------------------
  // Reference: applying responses one after another
  // ---------------------------------------------------------------------

  function Replay(step: Stepper, st: Receiver, rs: seq<Response>): SluResult<Receiver>
    decreases |rs|
  {
    if |rs| == 0 then Ok(st)
    else
      var st' :- step(st, rs[0]);
      Replay(step, st', rs[1..])
  }

  function ResponsesOf(stream: seq<RecvResult>): (rs: seq<Response>)
    requires forall i :: 0 <= i < |stream| ==> stream[i].Received?
    ensures |rs| == |stream|
    ensures forall i :: 0 <= i < |stream| ==> rs[i] == stream[i].response
  {
    seq(|stream|, i requires 0 <= i < |stream| && stream[i].Received? => stream[i].response)
  }

  /** Applying the first `n` responses of `stream`, in order, from `st`
      succeeds and leaves the context `c`. */
  ghost predicate ReplaysTo(step: Stepper, st: Receiver, stream: seq<RecvResult>, n: nat, c: C.AudioContext)
  {
    && n <= |stream|
    && (forall i :: 0 <= i < n ==> stream[i].Received?)
    && var rs := ResponsesOf(stream[..n]);
       Replay(step, st, rs).Ok? && Replay(step, st, rs).value.context == c
  }

  /** Snapshot `i` is the state after applying the first `i + 1` responses
      in arrival order. */
  lemma {:induction false} SnapshotIsReplay(step: Stepper, st: Receiver, stream: seq<RecvResult>, i: nat)
    requires i < |Loop(step, st, stream).snapshots|
    ensures ReplaysTo(step, st, stream, i + 1, Loop(step, st, stream).snapshots[i])
    decreases i
  {
    var r := Loop(step, st, stream);
    var res := stream[0].response;
    var st' := step(st, res).value;
    var rs := ResponsesOf(stream[..i + 1]);
    assert rs[0] == res;
    assert Replay(step, st, rs) == Replay(step, st', rs[1..]);
    if i == 0 {
      assert rs[1..] == [];
    } else {
      var rest := Loop(step, st', stream[1..]);
      assert !res.payload.FinishedMsg?;
      assert r.snapshots == [st'.context] + rest.snapshots;
      SnapshotIsReplay(step, st', stream[1..], i - 1);
      assert rs[1..] == ResponsesOf(stream[1..][..i]);
    }
  }

  /** One snapshot per applied response, in the order the responses
      arrived: every snapshot is the replay of the responses up to it. */
  lemma SnapshotsAreReplays(step: Stepper, st: Receiver, stream: seq<RecvResult>)
    ensures var r := Loop(step, st, stream);
            forall i :: 0 <= i < |r.snapshots| ==> ReplaysTo(step, st, stream, i + 1, r.snapshots[i])
  {
    var r := Loop(step, st, stream);
    forall i | 0 <= i < |r.snapshots|
      ensures ReplaysTo(step, st, stream, i + 1, r.snapshots[i])
    {
      SnapshotIsReplay(step, st, stream, i);
    }
  }

  /** The loop stops at the first response that cannot be applied, with
      that response's error, after one snapshot for each earlier response. */
  lemma {:induction false} FailureStops(step: Stepper, st: Receiver, stream: seq<RecvResult>, n: nat)
    requires n < |stream|
    requires forall i :: 0 <= i <= n ==> stream[i].Received?
    requires forall i :: 0 <= i < n ==> !stream[i].response.payload.FinishedMsg?
    requires Replay(step, st, ResponsesOf(stream[..n])).Ok?
    requires step(Replay(step, st, ResponsesOf(stream[..n])).value, stream[n].response).Err?
    ensures |Loop(step, st, stream).snapshots| == n
    ensures Loop(step, st, stream).err
            == Some(step(Replay(step, st, ResponsesOf(stream[..n])).value, stream[n].response).error)
    decreases n
  {
    if n > 0 {
      var rs := ResponsesOf(stream[..n]);
      var res := stream[0].response;
      assert rs[0] == res;
      var st' := step(st, res).value;
      assert rs[1..] == ResponsesOf(stream[1..][..n - 1]);
      FailureStops(step, st', stream[1..], n - 1);
    }
  }

  // ---------------------------------------------------------------------
  // What one step does to the context
  // ---------------------------------------------------------------------

  /** What a successful step keeps: every finalised fragment, the validity
      of a context not yet finalised, the finalised flag (except on
      `Finished`), and an assigned id, given a UUID library whose printed
      ids parse back. */
  ghost predicate Keeps(codec: C.UuidCodec, c: C.AudioContext, c': C.AudioContext, finishing: bool)
  {
    && C.Retains(c, c')
    && (C.Valid(c) && !c.isFinalised ==> C.Valid(c'))
    && (!finishing ==> c'.isFinalised == c.isFinalised)
    && (C.Canonical(codec) && c.id != C.EmptyId ==> c'.id == c.id)
  }

  lemma KeepsTransitive(codec: C.UuidCodec, a: C.AudioContext, b: C.AudioContext, c: C.AudioContext)
    requires Keeps(codec, a, b, false) && Keeps(codec, b, c, false)
    ensures Keeps(codec, a, c, false)
  {
    C.RetainsTransitive(a, b, c);
  }

  lemma {:induction false} TentativeWordsKeep(codec: C.UuidCodec, st: Receiver, sid: int32, words: seq<Option<T.WireTranscript>>)
    requires AddTentativeWords(st, sid, words).Ok?
    ensures Keeps(codec, st.context, AddTentativeWords(st, sid, words).value.context, false)
    decreases |words|
  {
    var c := st.context;
    if |words| == 0 {
      C.RetainsReflexive(c);
    } else {
      var t := T.Parse(st.t, words[0], true).0;
      var c1 := C.AddTranscript(c, sid, t).value;
      C.AddTranscriptKeeps(c, sid, t);
      var st1 := st.(context := c1, t := t);
      TentativeWordsKeep(codec, st1, sid, words[1..]);
      KeepsTransitive(codec, c, c1, AddTentativeWords(st1, sid, words[1..]).value.context);
    }
  }

  lemma {:induction false} TentativeEntitiesKeep(codec: C.UuidCodec, st: Receiver, sid: int32, es: seq<Option<E.WireEntity>>)
    requires AddTentativeEntities(st, sid, es).Ok?
    ensures Keeps(codec, st.context, AddTentativeEntities(st, sid, es).value.context, false)
    decreases |es|
  {
    var c := st.context;
    if |es| == 0 {
      C.RetainsReflexive(c);
    } else {
      var e := E.Parse(st.e, es[0], true).0;
      var c1 := C.AddEntity(c, sid, e).value;
      C.AddEntityKeeps(c, sid, e);
      var st1 := st.(context := c1, e := e);
      TentativeEntitiesKeep(codec, st1, sid, es[1..]);
      KeepsTransitive(codec, c, c1, AddTentativeEntities(st1, sid, es[1..]).value.context);
    }
  }

  /** Every successful step keeps the context's invariants. */
  lemma StepKeeps(codec: C.UuidCodec, st: Receiver, res: Response)
    requires Step(codec, st, res).Ok?
    ensures Keeps(codec, st.context, Step(codec, st, res).value.context, res.payload.FinishedMsg?)
  {
    if res.payload.TranscriptMsg? || res.payload.EntityMsg? || res.payload.IntentMsg? || res.payload.TentativeIntentMsg? {
      FragmentStepKeeps(codec, st, res);
    } else if res.payload.TentativeTranscriptMsg? || res.payload.TentativeEntitiesMsg? {
      TentativeStepKeeps(codec, st, res);
    } else {
      ControlStepKeeps(codec, st, res);
    }
  }

  lemma FragmentStepKeeps(codec: C.UuidCodec, st: Receiver, res: Response)
    requires Step(codec, st, res).Ok?
    requires res.payload.TranscriptMsg? || res.payload.EntityMsg? || res.payload.IntentMsg? || res.payload.TentativeIntentMsg?
    ensures Keeps(codec, st.context, Step(codec, st, res).value.context, false)
  {
    var c := st.context;
    var sid := res.segmentId;
    StepIsDispatch(codec, st, res);
    match res.payload
    case TranscriptMsg(v) => C.AddTranscriptKeeps(c, sid, T.Parse(st.t, v, false).0);
    case EntityMsg(v) => C.AddEntityKeeps(c, sid, E.Parse(st.e, v, false).0);
    case IntentMsg(v) => C.SetIntentKeeps(c, sid, I.Parse(st.i, v, false).0);
    case TentativeIntentMsg(v) => C.SetIntentKeeps(c, sid, I.Parse(st.i, v, true).0);
  }

  lemma TentativeStepKeeps(codec: C.UuidCodec, st: Receiver, res: Response)
    requires Step(codec, st, res).Ok?
    requires res.payload.TentativeTranscriptMsg? || res.payload.TentativeEntitiesMsg?
    ensures Keeps(codec, st.context, Step(codec, st, res).value.context, false)
  {
    match res.payload
    case TentativeTranscriptMsg(words) => TentativeWordsKeep(codec, st, res.segmentId, words);
    case TentativeEntitiesMsg(es) => TentativeEntitiesKeep(codec, st, res.segmentId, es);
  }

  lemma ControlStepKeeps(codec: C.UuidCodec, st: Receiver, res: Response)
    requires Step(codec, st, res).Ok?
    requires res.payload.SegmentEndMsg? || res.payload.StartedMsg? || res.payload.FinishedMsg? || res.payload.Unrecognised?
    ensures Keeps(codec, st.context, Step(codec, st, res).value.context, res.payload.FinishedMsg?)
  {
    var c := st.context;
    StepIsDispatch(codec, st, res);
    match res.payload
    case SegmentEndMsg => C.FinaliseSegmentKeeps(c, res.segmentId);
    case StartedMsg =>
      C.RetainsReflexive(c);
      if C.Canonical(codec) && c.id != C.EmptyId {
        assert codec.format(c.id) == res.audioContext;
        assert codec.parse(codec.format(c.id)) == Some(c.id);
      }
    case FinishedMsg => C.FinaliseKeeps(c);
  }

  // ---------------------------------------------------------------------
  // What each kind of response stores, and which ones are rejected
  // ---------------------------------------------------------------------

  /** A final transcript, entity or intent lands, parsed from the message
      and marked finalised, in the response's segment; a tentative intent
      lands there marked tentative. */
  lemma FragmentStepStores(codec: C.UuidCodec, st: Receiver, res: Response)
    requires Step(codec, st, res).Ok?
    ensures var c' := Step(codec, st, res).value.context;
            var sid := res.segmentId;
            match res.payload
            case TranscriptMsg(v) =>
              && v.Some? && sid in c'.segments && v.value.index in c'.segments[sid].transcripts
              && T.ToWire(c'.segments[sid].transcripts[v.value.index]) == v.value
              && c'.segments[sid].transcripts[v.value.index].isFinalised
            case EntityMsg(v) =>
              && v.Some? && sid in c'.segments
              && E.EntityIndex(v.value.startPosition, v.value.endPosition) in c'.segments[sid].entities
              && E.ToWire(c'.segments[sid].entities[E.EntityIndex(v.value.startPosition, v.value.endPosition)]) == v.value
              && c'.segments[sid].entities[E.EntityIndex(v.value.startPosition, v.value.endPosition)].isFinalised
            case IntentMsg(v) =>
              v.Some? && sid in c'.segments && c'.segments[sid].intent == I.Intent(v.value.intent, true)
            case TentativeIntentMsg(v) =>
              v.Some? && sid in c'.segments && c'.segments[sid].intent == I.Intent(v.value.intent, false)
            case _ => true
  {
  }

  /** `SegmentEnd` finalises an existing segment, `Started` assigns the
      parsed id and touches no segment, and `Finished` finalises a context
      that has at least one segment. */
  lemma ControlStepEffects(codec: C.UuidCodec, st: Receiver, res: Response)
    requires Step(codec, st, res).Ok?
    ensures var c := st.context;
            var c' := Step(codec, st, res).value.context;
            match res.payload
            case SegmentEndMsg =>
              && res.segmentId in c.segments && c'.segments.Keys == c.segments.Keys
              && c'.segments[res.segmentId].isFinalised
            case StartedMsg =>
              codec.parse(res.audioContext) == Some(c'.id) && c'.segments == c.segments
            case FinishedMsg =>
              |c.segments| > 0 && c'.isFinalised && c'.segments.Keys == c.segments.Keys
            case Unrecognised => false
            case _ => true
  {
  }

  /** With the id check passed, these responses are rejected with these
      errors. */
  lemma StepRejects(codec: C.UuidCodec, st: Receiver, res: Response)
    requires C.CheckID(codec, st.context, res.audioContext).Ok?
    ensures res.payload.Unrecognised? ==> Step(codec, st, res) == Err(UnknownResponseType)
    ensures res.payload.SegmentEndMsg? && res.segmentId !in st.context.segments ==>
              Step(codec, st, res) == Err(NonExistingSegment)
    ensures res.payload.StartedMsg? && codec.parse(res.audioContext).None? ==>
              Step(codec, st, res) == Err(InvalidUuid)
    ensures res.payload.FinishedMsg? && |st.context.segments| == 0 ==>
              Step(codec, st, res) == Err(ContextHasNoSegments)
    ensures || res.payload == TranscriptMsg(None) || res.payload == EntityMsg(None)
            || res.payload == IntentMsg(None) || res.payload == TentativeIntentMsg(None) ==>
              Step(codec, st, res) == Err(NilValue)
  {
  }

  /** The tentative transcripts a list of non-nil words parses to. */
  function TentativeWords(words: seq<Option<T.WireTranscript>>): seq<T.Transcript>
    requires forall i :: 0 <= i < |words| ==> words[i].Some?
  {
    seq(|words|, i requires 0 <= i < |words| && words[i].Some? => T.Parse(T.Zero, words[i], true).0)
  }

  /** The tentative entities a list of non-nil entities parses to. */
  function TentativeEntities(es: seq<Option<E.WireEntity>>): seq<E.Entity>
    requires forall i :: 0 <= i < |es| ==> es[i].Some?
  {
    seq(|es|, i requires 0 <= i < |es| && es[i].Some? => E.Parse(E.Zero, es[i], true).0)
  }

  /** Applying tentative words one by one changes at most the segment
      `sid`, which it creates when missing, and keeps the context's id and
      finalised flag. */
  lemma {:induction false} TentativeWordsFrame(st: Receiver, sid: int32, words: seq<Option<T.WireTranscript>>)
    requires AddTentativeWords(st, sid, words).Ok?
    ensures forall i :: 0 <= i < |words| ==> words[i].Some?
    ensures var c := st.context;
            var c' := AddTentativeWords(st, sid, words).value.context;
            && c'.id == c.id && c'.isFinalised == c.isFinalised
            && c'.segments.Keys == c.segments.Keys + (if |words| == 0 then {} else {sid})
            && (forall k :: k in c.segments && k != sid ==> c'.segments[k] == c.segments[k])
    decreases |words|
  {
    if |words| > 0 {
      var t := T.Parse(st.t, words[0], true).0;
      var st1 := st.(context := C.AddTranscript(st.context, sid, t).value, t := t);
      assert AddTentativeWords(st, sid, words) == AddTentativeWords(st1, sid, words[1..]);
      TentativeWordsFrame(st1, sid, words[1..]);
    }
  }

  /** Applying tentative words one by one stores them into the segment's
      transcripts, front to back, and leaves the rest of the segment as it
      was. */
  lemma {:induction false} TentativeWordsOverlay(st: Receiver, sid: int32, words: seq<Option<T.WireTranscript>>)
    requires AddTentativeWords(st, sid, words).Ok? && |words| > 0
    ensures forall i :: 0 <= i < |words| ==> words[i].Some?
    ensures var s := C.SegmentOrNew(st.context, sid);
            var c' := AddTentativeWords(st, sid, words).value.context;
            sid in c'.segments
            && c'.segments[sid] == s.(transcripts := Collections.KeyInto(s.transcripts, TentativeWords(words), T.IndexOf))
    decreases |words|
  {
    TentativeWordsFrame(st, sid, words);
    var s := C.SegmentOrNew(st.context, sid);
    var t := T.Parse(st.t, words[0], true).0;
    T.ParseForgetsReceiver(st.t, T.Zero, words[0], true);
    var c1 := C.AddTranscript(st.context, sid, t).value;
    var st1 := st.(context := c1, t := t);
    assert AddTentativeWords(st, sid, words) == AddTentativeWords(st1, sid, words[1..]);
    assert C.SegmentOrNew(c1, sid) == s.(transcripts := s.transcripts[t.index := t]);
    assert TentativeWords(words)[0] == t;
    if |words| > 1 {
      TentativeWordsOverlay(st1, sid, words[1..]);
      assert TentativeWords(words)[1..] == TentativeWords(words[1..]);
    } else {
      assert TentativeWords(words)[1..] == [];
    }
  }

  /** Applying tentative entities one by one changes at most the segment
      `sid`, which it creates when missing, and keeps the context's id and
      finalised flag. */
  lemma {:induction false} TentativeEntitiesFrame(st: Receiver, sid: int32, es: seq<Option<E.WireEntity>>)
    requires AddTentativeEntities(st, sid, es).Ok?
    ensures forall i :: 0 <= i < |es| ==> es[i].Some?
    ensures var c := st.context;
            var c' := AddTentativeEntities(st, sid, es).value.context;
            && c'.id == c.id && c'.isFinalised == c.isFinalised
            && c'.segments.Keys == c.segments.Keys + (if |es| == 0 then {} else {sid})
            && (forall k :: k in c.segments && k != sid ==> c'.segments[k] == c.segments[k])
    decreases |es|
  {
    if |es| > 0 {
      var e := E.Parse(st.e, es[0], true).0;
      var st1 := st.(context := C.AddEntity(st.context, sid, e).value, e := e);
      assert AddTentativeEntities(st, sid, es) == AddTentativeEntities(st1, sid, es[1..]);
      TentativeEntitiesFrame(st1, sid, es[1..]);
    }
  }

  /** Applying tentative entities one by one stores them into the segment's
      entities, front to back, and leaves the rest of the segment as it
      was. */
  lemma {:induction false} TentativeEntitiesOverlay(st: Receiver, sid: int32, es: seq<Option<E.WireEntity>>)
    requires AddTentativeEntities(st, sid, es).Ok? && |es| > 0
    ensures forall i :: 0 <= i < |es| ==> es[i].Some?
    ensures var s := C.SegmentOrNew(st.context, sid);
            var c' := AddTentativeEntities(st, sid, es).value.context;
            sid in c'.segments
            && c'.segments[sid] == s.(entities := Collections.KeyInto(s.entities, TentativeEntities(es), E.SpanOf))
    decreases |es|
  {
    TentativeEntitiesFrame(st, sid, es);
    var s := C.SegmentOrNew(st.context, sid);
    var e := E.Parse(st.e, es[0], true).0;
    E.ParseForgetsReceiver(st.e, E.Zero, es[0], true);
    var c1 := C.AddEntity(st.context, sid, e).value;
    var st1 := st.(context := c1, e := e);
    assert AddTentativeEntities(st, sid, es) == AddTentativeEntities(st1, sid, es[1..]);
    assert C.SegmentOrNew(c1, sid) == s.(entities := s.entities[E.SpanOf(e) := e]);
    assert TentativeEntities(es)[0] == e;
    if |es| > 1 {
      TentativeEntitiesOverlay(st1, sid, es[1..]);
      assert TentativeEntities(es)[1..] == TentativeEntities(es[1..]);
    } else {
      assert TentativeEntities(es)[1..] == [];
    }
  }

  /** Tentative words leave, at every index they mention, the last of the
      words with that index, marked tentative; every other index of the
      segment keeps what it had. */
  lemma TentativeWordsLastWins(st: Receiver, sid: int32, words: seq<Option<T.WireTranscript>>, k: int32)
    requires AddTentativeWords(st, sid, words).Ok? && |words| > 0
    ensures forall i :: 0 <= i < |words| ==> words[i].Some?
    ensures sid in AddTentativeWords(st, sid, words).value.context.segments
    ensures var before := C.SegmentOrNew(st.context, sid).transcripts;
            var after := AddTentativeWords(st, sid, words).value.context.segments[sid].transcripts;
            match Collections.LastWith(TentativeWords(words), T.IndexOf, k)
            case Some(t) => k in after && after[k] == t && !t.isFinalised
            case None => (k in after <==> k in before) && (k in before ==> after[k] == before[k])
  {
    TentativeWordsOverlay(st, sid, words);
    var ws := TentativeWords(words);
    Collections.KeyIntoOverlays(C.SegmentOrNew(st.context, sid).transcripts, ws, T.IndexOf, k);
    match Collections.LastWith(ws, T.IndexOf, k)
    case Some(t) =>
      var i :| 0 <= i < |ws| && ws[i] == t;
    case None =>
  }

  /** Tentative entities leave, at every span they mention, the last of the
      entities with that span, marked tentative; every other span of the
      segment keeps what it had. */
  lemma TentativeEntitiesLastWins(st: Receiver, sid: int32, es: seq<Option<E.WireEntity>>, k: E.EntityIndex)
    requires AddTentativeEntities(st, sid, es).Ok? && |es| > 0
    ensures forall i :: 0 <= i < |es| ==> es[i].Some?
    ensures sid in AddTentativeEntities(st, sid, es).value.context.segments
    ensures var before := C.SegmentOrNew(st.context, sid).entities;
            var after := AddTentativeEntities(st, sid, es).value.context.segments[sid].entities;
            match Collections.LastWith(TentativeEntities(es), E.SpanOf, k)
            case Some(e) => k in after && after[k] == e && !e.isFinalised
            case None => (k in after <==> k in before) && (k in before ==> after[k] == before[k])
  {
    TentativeEntitiesOverlay(st, sid, es);
    var ts := TentativeEntities(es);
    Collections.KeyIntoOverlays(C.SegmentOrNew(st.context, sid).entities, ts, E.SpanOf, k);
    match Collections.LastWith(ts, E.SpanOf, k)
    case Some(e) =>
      var i :| 0 <= i < |ts| && ts[i] == e;
    case None =>
  }

  /** A tentative transcript response that passes the id check is the
      in-order application of its words. */
  lemma TentativeWordsStep(codec: C.UuidCodec, st: Receiver, res: Response)
    requires C.CheckID(codec, st.context, res.audioContext).Ok? && res.payload.TentativeTranscriptMsg?
    ensures Step(codec, st, res) == AddTentativeWords(st, res.segmentId, res.payload.words)
  {
    StepIsDispatch(codec, st, res);
  }

  /** A tentative entities response that passes the id check is the
      in-order application of its entities. */
  lemma TentativeEntitiesStep(codec: C.UuidCodec, st: Receiver, res: Response)
    requires C.CheckID(codec, st.context, res.audioContext).Ok? && res.payload.TentativeEntitiesMsg?
    ensures Step(codec, st, res) == AddTentativeEntities(st, res.segmentId, res.payload.entities)
  {
    StepIsDispatch(codec, st, res);
  }

  lemma StepIsDispatch(codec: C.UuidCodec, st: Receiver, res: Response)
    requires C.CheckID(codec, st.context, res.audioContext).Ok?
    ensures Step(codec, st, res) == Dispatch(codec, st, res)
  {
  }

  // ---------------------------------------------------------------------
  // Invariants along a run
  // ---------------------------------------------------------------------

  /** One unfolding of the loop with this package's step: the first
      snapshot is the first step's context, and the rest come from the
      loop on the remaining stream. */
  lemma LoopUnfolds(codec: C.UuidCodec, st: Receiver, stream: seq<RecvResult>)
    requires |Loop(StepWith(codec), st, stream).snapshots| > 0
    ensures stream[0].Received? && Step(codec, st, stream[0].response).Ok?
    ensures var st' := Step(codec, st, stream[0].response).value;
            var r := Loop(StepWith(codec), st, stream);
            && r.snapshots[0] == st'.context
            && (!stream[0].response.payload.FinishedMsg? ==>
                  r.snapshots[1..] == Loop(StepWith(codec), st', stream[1..]).snapshots)
            && (stream[0].response.payload.FinishedMsg? ==> |r.snapshots| == 1)
  {
    assert StepWith(codec)(st, stream[0].response) == Step(codec, st, stream[0].response);
  }

  /** Every snapshot of a run that starts from a valid, unfinalised
      context is valid. */
  lemma {:induction false} LoopValid(codec: C.UuidCodec, st: Receiver, stream: seq<RecvResult>)
    requires C.Valid(st.context) && !st.context.isFinalised
    ensures var r := Loop(StepWith(codec), st, stream);
            forall i :: 0 <= i < |r.snapshots| ==> C.Valid(r.snapshots[i])
    decreases |stream|
  {
    var r := Loop(StepWith(codec), st, stream);
    if |r.snapshots| > 0 {
      LoopUnfolds(codec, st, stream);
      var res := stream[0].response;
      var st' := Step(codec, st, res).value;
      StepKeeps(codec, st, res);
      if !res.payload.FinishedMsg? {
        var rest := Loop(StepWith(codec), st', stream[1..]);
        LoopValid(codec, st', stream[1..]);
        assert forall i :: 0 < i < |r.snapshots| ==> r.snapshots[i] == rest.snapshots[i - 1];
      }
    }
  }

  /** Every snapshot retains every finalised fragment of the starting
      context and of every earlier snapshot. */
  lemma {:induction false} LoopRetains(codec: C.UuidCodec, st: Receiver, stream: seq<RecvResult>)
    ensures var r := Loop(StepWith(codec), st, stream);
            && (forall i :: 0 <= i < |r.snapshots| ==> C.Retains(st.context, r.snapshots[i]))
            && (forall i, j :: 0 <= i <= j < |r.snapshots| ==> C.Retains(r.snapshots[i], r.snapshots[j]))
    decreases |stream|
  {
    var r := Loop(StepWith(codec), st, stream);
    if |r.snapshots| > 0 {
      LoopUnfolds(codec, st, stream);
      var res := stream[0].response;
      var st' := Step(codec, st, res).value;
      StepKeeps(codec, st, res);
      C.RetainsReflexive(st'.context);
      if !res.payload.FinishedMsg? {
        var rest := Loop(StepWith(codec), st', stream[1..]);
        LoopRetains(codec, st', stream[1..]);
        assert forall i :: 0 < i < |r.snapshots| ==> r.snapshots[i] == rest.snapshots[i - 1];
        forall i | 0 < i < |r.snapshots|
          ensures C.Retains(st.context, r.snapshots[i])
        {
          C.RetainsTransitive(st.context, st'.context, r.snapshots[i]);
        }
      }
    }
  }

  /** Given a UUID library whose printed ids parse back, an id, once
      assigned, stays the context's id for the rest of the run. */
  lemma {:induction false} LoopKeepsId(codec: C.UuidCodec, st: Receiver, stream: seq<RecvResult>)
    requires C.Canonical(codec)
    ensures var r := Loop(StepWith(codec), st, stream);
            && (st.context.id != C.EmptyId ==> forall i :: 0 <= i < |r.snapshots| ==> r.snapshots[i].id == st.context.id)
            && (forall i, j :: 0 <= i <= j < |r.snapshots| && r.snapshots[i].id != C.EmptyId ==>
                  r.snapshots[j].id == r.snapshots[i].id)
    decreases |stream|
  {
    var r := Loop(StepWith(codec), st, stream);
    if |r.snapshots| > 0 {
      LoopUnfolds(codec, st, stream);
      var res := stream[0].response;
      var st' := Step(codec, st, res).value;
      StepKeeps(codec, st, res);
      if !res.payload.FinishedMsg? {
        var rest := Loop(StepWith(codec), st', stream[1..]);
        LoopKeepsId(codec, st', stream[1..]);
        assert forall i :: 0 < i < |r.snapshots| ==> r.snapshots[i] == rest.snapshots[i - 1];
      }
    }
  }

  /** The receive goroutine's guarantees: every snapshot is a valid
      context, no finalised transcript, entity or intent is ever lost or
      changed by a later snapshot, and the id assigned by `Started` stays. */
  lemma RunKeeps(codec: C.UuidCodec, stream: seq<RecvResult>)
    ensures var r := Run(codec, stream);
            && (forall i :: 0 <= i < |r.snapshots| ==> C.Valid(r.snapshots[i]))
            && (forall i, j :: 0 <= i <= j < |r.snapshots| ==> C.Retains(r.snapshots[i], r.snapshots[j]))
            && (C.Canonical(codec) ==>
                  forall i, j :: 0 <= i <= j < |r.snapshots| && r.snapshots[i].id != C.EmptyId ==>
                    r.snapshots[j].id == r.snapshots[i].id)
  {
    assert Run(codec, stream) == Loop(StepWith(codec), Start(), stream);
    assert C.Valid(Start().context);
    LoopValid(codec, Start(), stream);
    LoopRetains(codec, Start(), stream);
    if C.Canonical(codec) {
      LoopKeepsId(codec, Start(), stream);
    }
  }
}
