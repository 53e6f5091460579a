/** pkg/speechly/slu/context.go: one recognition context, its segments and
    its id, with the guarded mutations the receive loop applies. */
module Contexts {
  import opened Wrappers
  import opened GoInts
  import opened SluErrors
  import T = Transcripts
  import E = Entities
  import I = Intents
  import S = Segments

  /** A 128-bit UUID; the zero value is the "not yet assigned" id. */
  type Uuid = x: nat | x < 0x1_0000_0000_0000_0000_0000_0000_0000_0000

  const EmptyId: Uuid := 0

  /** The UUID library the Go code calls: `uuid.Parse` (None when the text
      is not a UUID) and `UUID.String`. Both are supplied by the caller. */
  datatype UuidCodec = UuidCodec(parse: string -> Option<Uuid>, format: Uuid -> string)

  /** Parsing a UUID's own printed form gives the UUID back, as it does for
      the library the Go code uses. */
  ghost predicate Canonical(codec: UuidCodec)
  {
    forall u: Uuid :: codec.parse(codec.format(u)) == Some(u)
  }

  datatype AudioContext = AudioContext(id: Uuid, segments: S.SegmentMap, isFinalised: bool)

  function NewAudioContext(): (c: AudioContext)
    ensures c.id == EmptyId && c.segments == map[] && !c.isFinalised
  {
    AudioContext(EmptyId, map[], false)
  }

  /** Stores the parsed id. Nothing here prevents a second assignment; the
      receive loop relies on `CheckID` for that. */
  function SetID(codec: UuidCodec, c: AudioContext, id: string): (r: SluResult<AudioContext>)
    ensures codec.parse(id).None? ==> r == Err(InvalidUuid)
    ensures codec.parse(id).Some? ==> r.Ok? && r.value.id == codec.parse(id).value
    ensures r.Ok? ==> r.value.segments == c.segments && r.value.isFinalised == c.isFinalised
  {
    match codec.parse(id)
    case None => Err(InvalidUuid)
    case Some(u) => Ok(c.(id := u))
  }

  /** Accepts `id` while no id is assigned, and afterwards only the printed
      form of the assigned id. */
  function CheckID(codec: UuidCodec, c: AudioContext, id: string): (r: SluResult<()>)
    ensures r.Ok? <==> c.id == EmptyId || codec.format(c.id) == id
    ensures r.Err? ==> r.error == MismatchedContextId
  {
    if c.id == EmptyId || codec.format(c.id) == id then Ok(())
    else Err(MismatchedContextId)
  }

  // ---------------------------------------------------------------------
  // Invariants
  // ---------------------------------------------------------------------

  /** Every segment is valid, and a finalised context has at least one
      segment and holds only finalised transcripts and entities. */
  ghost predicate Valid(c: AudioContext)
  {
    && (forall k :: k in c.segments ==> S.Valid(c.segments[k]))
    && (c.isFinalised ==> |c.segments| > 0)
    && (c.isFinalised ==> forall k :: k in c.segments ==>
          S.TranscriptsFinal(c.segments[k].transcripts) && S.EntitiesFinal(c.segments[k].entities))
  }

  /** No segment disappears and no finalised fragment is lost or changed. */
  ghost predicate Retains(before: AudioContext, after: AudioContext)
  {
    && before.segments.Keys <= after.segments.Keys
    && (forall k :: k in before.segments ==> S.Retains(before.segments[k], after.segments[k]))
    && (before.isFinalised ==> after.isFinalised)
  }

  lemma RetainsReflexive(c: AudioContext)
    ensures Retains(c, c)
  {
    forall k | k in c.segments
      ensures S.Retains(c.segments[k], c.segments[k])
    {
      S.RetainsReflexive(c.segments[k]);
    }
  }

  lemma RetainsTransitive(a: AudioContext, b: AudioContext, c: AudioContext)
    requires Retains(a, b) && Retains(b, c)
    ensures Retains(a, c)
  {
    forall k | k in a.segments
      ensures S.Retains(a.segments[k], c.segments[k])
    {
      S.RetainsTransitive(a.segments[k], b.segments[k], c.segments[k]);
    }
  }

  /** The segment a mutation of `sid` works on: the stored one, or a new one. */
  function SegmentOrNew(c: AudioContext, sid: int32): S.Segment
  {
    S.Get(c.segments, sid).0
  }

  /** After a successful update of segment `sid` to `s'`: the context holds
      `s'` under `sid`, every other segment as it was, and the same id. */
  ghost predicate UpdatedOne(c: AudioContext, sid: int32, s': S.Segment, c': AudioContext)
  {
    && c'.segments.Keys == c.segments.Keys + {sid}
    && c'.segments[sid] == s'
    && (forall k :: k in c.segments && k != sid ==> c'.segments[k] == c.segments[k])
    && c'.id == c.id && c'.isFinalised == c.isFinalised
  }

  // ---------------------------------------------------------------------
  // Mutations
  // ---------------------------------------------------------------------

  lemma UpdateOne(c: AudioContext, sid: int32, s': S.Segment)
    ensures UpdatedOne(c, sid, s', c.(segments := c.segments[sid := s']))
  {
  }

  function AddTranscript(c: AudioContext, sid: int32, t: T.Transcript): (r: SluResult<AudioContext>)
    ensures r.Ok? <==> S.AddTranscript(SegmentOrNew(c, sid), t).Ok?
    ensures r.Err? ==> r.error == S.AddTranscript(SegmentOrNew(c, sid), t).error
    ensures r.Ok? ==> UpdatedOne(c, sid, S.AddTranscript(SegmentOrNew(c, sid), t).value, r.value)
  {
    match S.AddTranscript(SegmentOrNew(c, sid), t)
    case Err(err) => Err(err)
    case Ok(s') =>
      UpdateOne(c, sid, s');
      Ok(c.(segments := c.segments[sid := s']))
  }

  function AddEntity(c: AudioContext, sid: int32, e: E.Entity): (r: SluResult<AudioContext>)
    ensures r.Ok? <==> S.AddEntity(SegmentOrNew(c, sid), e).Ok?
    ensures r.Err? ==> r.error == S.AddEntity(SegmentOrNew(c, sid), e).error
    ensures r.Ok? ==> UpdatedOne(c, sid, S.AddEntity(SegmentOrNew(c, sid), e).value, r.value)
  {
    match S.AddEntity(SegmentOrNew(c, sid), e)
    case Err(err) => Err(err)
    case Ok(s') =>
      UpdateOne(c, sid, s');
      Ok(c.(segments := c.segments[sid := s']))
  }

  function SetIntent(c: AudioContext, sid: int32, i: I.Intent): (r: SluResult<AudioContext>)
    ensures r.Ok? <==> S.SetIntent(SegmentOrNew(c, sid), i).Ok?
    ensures r.Err? ==> r.error == S.SetIntent(SegmentOrNew(c, sid), i).error
    ensures r.Ok? ==> UpdatedOne(c, sid, S.SetIntent(SegmentOrNew(c, sid), i).value, r.value)
  {
    match S.SetIntent(SegmentOrNew(c, sid), i)
    case Err(err) => Err(err)
    case Ok(s') =>
      UpdateOne(c, sid, s');
      Ok(c.(segments := c.segments[sid := s']))
  }

  /** A fragment for an unknown segment id creates that segment, holding
      only the fragment. */
  lemma AddTranscriptCreates(c: AudioContext, sid: int32, t: T.Transcript)
    requires sid !in c.segments
    ensures AddTranscript(c, sid, t).Ok?
    ensures AddTranscript(c, sid, t).value.segments[sid] == S.NewSegment(sid).(transcripts := map[t.index := t])
  {
    var s' := S.AddTranscript(S.NewSegment(sid), t).value;
    assert s'.transcripts == map[t.index := t];
  }

  lemma AddEntityCreates(c: AudioContext, sid: int32, e: E.Entity)
    requires sid !in c.segments
    ensures AddEntity(c, sid, e).Ok?
    ensures AddEntity(c, sid, e).value.segments[sid] == S.NewSegment(sid).(entities := map[E.SpanOf(e) := e])
  {
    var s' := S.AddEntity(S.NewSegment(sid), e).value;
    assert s'.entities == map[E.SpanOf(e) := e];
  }

  lemma SetIntentCreates(c: AudioContext, sid: int32, i: I.Intent)
    requires sid !in c.segments
    ensures SetIntent(c, sid, i).Ok?
    ensures SetIntent(c, sid, i).value.segments[sid] == S.NewSegment(sid).(intent := i)
  {
  }

  /** Finalises an existing segment; an unknown segment id is an error and
      no segment is created for it. */
  function FinaliseSegment(c: AudioContext, sid: int32): (r: SluResult<AudioContext>)
    ensures sid !in c.segments ==> r == Err(NonExistingSegment)
    ensures sid in c.segments ==> (r.Ok? <==> S.Finalise(c.segments[sid]).Ok?)
    ensures sid in c.segments && r.Err? ==> r.error == SegmentHasNoTranscripts
    ensures r.Ok? ==> sid in c.segments && r.value.segments.Keys == c.segments.Keys
                      && UpdatedOne(c, sid, S.Finalise(c.segments[sid]).value, r.value)
                      && r.value.segments[sid].isFinalised
  {
    if sid in c.segments then
      var s' :- S.Finalise(c.segments[sid]);
      Ok(c.(segments := c.segments[sid := s']))
    else
      Err(NonExistingSegment)
  }

  /** What `s.Finalise()` leaves behind when it runs on the copy `range`
      hands out: the pruning reaches the maps the copy shares with the
      stored segment, while the copy's `IsFinalised` flag is dropped. */
  function FinaliseRangeCopy(s: S.Segment): (r: S.Segment)
    requires S.Finalise(s).Ok?
    ensures r.isFinalised == s.isFinalised
    ensures !s.isFinalised ==> S.FinalTranscriptsOf(s.transcripts, r.transcripts)
                               && S.FinalEntitiesOf(s.entities, r.entities)
    ensures s.isFinalised ==> r == s
    ensures r.intent == s.intent && r.id == s.id
  {
    S.Finalise(s).value.(isFinalised := s.isFinalised)
  }

  /** Finalises every segment, fails when one of them cannot be finalised or
      there is no segment at all, and marks the context finalised. */
  function Finalise(c: AudioContext): (r: SluResult<AudioContext>)
    ensures |c.segments| == 0 ==> r == Err(ContextHasNoSegments)
    ensures r.Ok? <==> |c.segments| > 0 && forall k :: k in c.segments ==> S.Finalise(c.segments[k]).Ok?
    ensures r.Err? && |c.segments| > 0 ==> r.error == SegmentHasNoTranscripts
    ensures r.Ok? ==> && r.value.isFinalised && r.value.id == c.id
                      && r.value.segments.Keys == c.segments.Keys
                      && forall k :: k in c.segments ==> r.value.segments[k] == FinaliseRangeCopy(c.segments[k])
  {
    if exists k :: k in c.segments && S.Finalise(c.segments[k]).Err? then
      Err(SegmentHasNoTranscripts)
    else if |c.segments| == 0 then
      Err(ContextHasNoSegments)
    else
      Ok(c.(segments := map k | k in c.segments :: FinaliseRangeCopy(c.segments[k]), isFinalised := true))
  }

  // ---------------------------------------------------------------------
  // Every successful mutation keeps the invariants
  // ---------------------------------------------------------------------

  /** Replacing one segment by a successor that retains and stays valid
      keeps the context's invariants. */
  lemma UpdateKeeps(c: AudioContext, sid: int32, s: S.Segment, s': S.Segment, c': AudioContext)
    requires s == SegmentOrNew(c, sid)
    requires S.Retains(s, s') && (S.Valid(s) ==> S.Valid(s'))
    requires UpdatedOne(c, sid, s', c')
    ensures Retains(c, c')
    ensures Valid(c) && !c.isFinalised ==> Valid(c')
  {
    UpdateRetains(c, sid, s, s', c');
    if Valid(c) && !c.isFinalised {
      UpdateValid(c, sid, s, s', c');
    }
  }

  lemma UpdateRetains(c: AudioContext, sid: int32, s: S.Segment, s': S.Segment, c': AudioContext)
    requires s == SegmentOrNew(c, sid) && S.Retains(s, s')
    requires UpdatedOne(c, sid, s', c')
    ensures Retains(c, c')
  {
    forall k | k in c.segments
      ensures S.Retains(c.segments[k], c'.segments[k])
    {
      if k != sid {
        S.RetainsReflexive(c.segments[k]);
      }
    }
  }

  lemma UpdateValid(c: AudioContext, sid: int32, s: S.Segment, s': S.Segment, c': AudioContext)
    requires s == SegmentOrNew(c, sid) && (S.Valid(s) ==> S.Valid(s'))
    requires UpdatedOne(c, sid, s', c')
    requires Valid(c) && !c.isFinalised
    ensures Valid(c')
  {
    assert S.Valid(s) by {
      if sid !in c.segments {
        assert s == S.NewSegment(sid);
      }
    }
    forall k | k in c'.segments
      ensures S.Valid(c'.segments[k])
    {
      if k != sid {
        assert c'.segments[k] == c.segments[k];
      }
    }
  }

  lemma AddTranscriptKeeps(c: AudioContext, sid: int32, t: T.Transcript)
    requires AddTranscript(c, sid, t).Ok?
    ensures Retains(c, AddTranscript(c, sid, t).value)
    ensures Valid(c) && !c.isFinalised ==> Valid(AddTranscript(c, sid, t).value)
  {
    var s := SegmentOrNew(c, sid);
    UpdateKeeps(c, sid, s, S.AddTranscript(s, t).value, AddTranscript(c, sid, t).value);
  }

  lemma AddEntityKeeps(c: AudioContext, sid: int32, e: E.Entity)
    requires AddEntity(c, sid, e).Ok?
    ensures Retains(c, AddEntity(c, sid, e).value)
    ensures Valid(c) && !c.isFinalised ==> Valid(AddEntity(c, sid, e).value)
  {
    var s := SegmentOrNew(c, sid);
    UpdateKeeps(c, sid, s, S.AddEntity(s, e).value, AddEntity(c, sid, e).value);
  }

  lemma SetIntentKeeps(c: AudioContext, sid: int32, i: I.Intent)
    requires SetIntent(c, sid, i).Ok?
    ensures Retains(c, SetIntent(c, sid, i).value)
    ensures Valid(c) && !c.isFinalised ==> Valid(SetIntent(c, sid, i).value)
  {
    var s := SegmentOrNew(c, sid);
    UpdateKeeps(c, sid, s, S.SetIntent(s, i).value, SetIntent(c, sid, i).value);
  }

  lemma FinaliseSegmentKeeps(c: AudioContext, sid: int32)
    requires FinaliseSegment(c, sid).Ok?
    ensures Retains(c, FinaliseSegment(c, sid).value)
    ensures Valid(c) ==> Valid(FinaliseSegment(c, sid).value)
  {
    var s := c.segments[sid];
    assert S.Retains(s, S.Finalise(s).value);
    assert S.Valid(s) ==> S.Valid(S.Finalise(s).value);
  }

  lemma FinaliseKeeps(c: AudioContext)
    requires Finalise(c).Ok?
    ensures Retains(c, Finalise(c).value)
    ensures Valid(c) ==> Valid(Finalise(c).value)
  {
    var c' := Finalise(c).value;
    forall k | k in c.segments
      ensures S.Retains(c.segments[k], c'.segments[k])
      ensures S.Valid(c.segments[k]) ==> S.Valid(c'.segments[k])
    {
      var s := c.segments[k];
      assert S.Retains(s, S.Finalise(s).value);
    }
  }

  /** After `Finalise`, every segment holds only finalised transcripts and
      entities, yet a segment that was not finalised before still carries
      `IsFinalised == false`. */
  lemma FinaliseLeavesSegmentFlags(c: AudioContext)
    requires Valid(c) && Finalise(c).Ok?
    ensures forall k :: k in c.segments ==>
              && S.TranscriptsFinal(Finalise(c).value.segments[k].transcripts)
              && S.EntitiesFinal(Finalise(c).value.segments[k].entities)
              && Finalise(c).value.segments[k].isFinalised == c.segments[k].isFinalised
  {
  }

  /** Finalising a range copy's leftovers again prunes nothing more. */
  lemma FinaliseRangeCopyIdempotent(s: S.Segment)
    requires S.Finalise(s).Ok?
    ensures S.Finalise(FinaliseRangeCopy(s)).Ok?
    ensures FinaliseRangeCopy(FinaliseRangeCopy(s)) == FinaliseRangeCopy(s)
  {
    var p := FinaliseRangeCopy(s);
    if !s.isFinalised {
      var w :| w in s.transcripts && s.transcripts[w].isFinalised;
      assert w in p.transcripts && p.transcripts[w].isFinalised;
      var q := S.Finalise(p).value;
      assert q.transcripts == p.transcripts;
      assert q.entities == p.entities;
    }
  }

  /** A finalised context whose segments are all fixed points of the range
      copy finalisation is a fixed point of `Finalise`. */
  lemma FinaliseFixed(c: AudioContext)
    requires c.isFinalised && |c.segments| > 0
    requires forall k :: k in c.segments ==> S.Finalise(c.segments[k]).Ok?
    requires forall k :: k in c.segments ==> FinaliseRangeCopy(c.segments[k]) == c.segments[k]
    ensures Finalise(c) == Ok(c)
  {
    var again := map k | k in c.segments :: FinaliseRangeCopy(c.segments[k]);
    assert again == c.segments;
  }

  /** Finalising a finalised context changes nothing more. */
  lemma FinaliseIdempotent(c: AudioContext)
    requires Finalise(c).Ok?
    ensures Finalise(Finalise(c).value) == Finalise(c)
  {
    var c' := Finalise(c).value;
    forall k | k in c'.segments
      ensures S.Finalise(c'.segments[k]).Ok?
      ensures FinaliseRangeCopy(c'.segments[k]) == c'.segments[k]
    {
      FinaliseRangeCopyIdempotent(c.segments[k]);
    }
    assert |c'.segments| == |c.segments| by {
      assert c'.segments.Keys == c.segments.Keys;
    }
    FinaliseFixed(c');
  }
}
