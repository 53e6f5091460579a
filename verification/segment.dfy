/** pkg/speechly/slu/segment.go: a segment groups the transcripts, entities
    and the one intent the API reports between two intent boundaries.
    Every mutation is a guarded update that fails with an error. */
module Segments {
  import opened Wrappers
  import opened GoInts
  import opened SluErrors
  import T = Transcripts
  import E = Entities
  import I = Intents
  import Collections
  import Json

  datatype Segment = Segment(
    id: int32,
    isFinalised: bool,
    transcripts: T.TranscriptMap,
    entities: E.EntityMap,
    intent: I.Intent)

  type SegmentMap = map<int32, Segment>

  /** The Go constructor ignores its `id` argument, so the segment id
      is Go's zero value whatever is asked for. */
  function NewSegment(id: int32): (s: Segment)
    ensures s.id == 0
    ensures !s.isFinalised && s.transcripts == map[] && s.entities == map[] && s.intent == I.Zero
  {
    Segment(0, false, map[], map[], I.Zero)
  }

  // ---------------------------------------------------------------------
  // Invariants
  // ---------------------------------------------------------------------

  ghost predicate TranscriptsFinal(m: T.TranscriptMap)
  {
    forall k :: k in m ==> m[k].isFinalised
  }

  ghost predicate EntitiesFinal(m: E.EntityMap)
  {
    forall k :: k in m ==> m[k].isFinalised
  }

  /** What every mutation keeps: entries sit under their own key, and a
      finalised segment holds only finalised transcripts and entities, at
      least one transcript among them. */
  ghost predicate Valid(s: Segment)
  {
    && T.WellKeyed(s.transcripts)
    && E.WellKeyed(s.entities)
    && (s.isFinalised ==> TranscriptsFinal(s.transcripts) && EntitiesFinal(s.entities) && |s.transcripts| > 0)
  }

  /** `after` still holds every finalised transcript, entity and intent of
      `before`, unchanged, and is finalised if `before` was. */
  ghost predicate Retains(before: Segment, after: Segment)
  {
    && (forall k :: k in before.transcripts && before.transcripts[k].isFinalised ==>
          k in after.transcripts && after.transcripts[k] == before.transcripts[k])
    && (forall k :: k in before.entities && before.entities[k].isFinalised ==>
          k in after.entities && after.entities[k] == before.entities[k])
    && (before.intent.isFinalised ==> after.intent == before.intent)
    && (before.isFinalised ==> after.isFinalised)
  }

  lemma RetainsReflexive(s: Segment)
    ensures Retains(s, s)
  {
  }

  lemma RetainsTransitive(a: Segment, b: Segment, c: Segment)
    requires Retains(a, b) && Retains(b, c)
    ensures Retains(a, c)
  {
  }

  /** `kept` is exactly the finalised part of `m`. */
  ghost predicate FinalTranscriptsOf(m: T.TranscriptMap, kept: T.TranscriptMap)
  {
    forall k :: (k in kept <==> k in m && m[k].isFinalised) && (k in kept ==> kept[k] == m[k])
  }

  ghost predicate FinalEntitiesOf(m: E.EntityMap, kept: E.EntityMap)
  {
    forall k :: (k in kept <==> k in m && m[k].isFinalised) && (k in kept ==> kept[k] == m[k])
  }

  // ---------------------------------------------------------------------
  // Mutations
  // ---------------------------------------------------------------------

  /** Stores `t` under its index unless the segment, or the transcript
      already at that index, is finalised. */
  function AddTranscript(s: Segment, t: T.Transcript): (r: SluResult<Segment>)
    ensures s.isFinalised ==> r == Err(TranscriptToFinalisedSegment)
    ensures !s.isFinalised && t.index in s.transcripts && s.transcripts[t.index].isFinalised ==>
              r == Err(OverrideFinalisedTranscript)
    ensures r.Ok? <==> !s.isFinalised && !(t.index in s.transcripts && s.transcripts[t.index].isFinalised)
    ensures r.Ok? ==> && r.value.transcripts.Keys == s.transcripts.Keys + {t.index}
                      && r.value.transcripts[t.index] == t
                      && (forall k :: k in s.transcripts && k != t.index ==> r.value.transcripts[k] == s.transcripts[k])
                      && r.value.entities == s.entities && r.value.intent == s.intent
                      && r.value.id == s.id && r.value.isFinalised == s.isFinalised
    ensures r.Ok? ==> Retains(s, r.value)
    ensures r.Ok? && Valid(s) ==> Valid(r.value)
  {
    if s.isFinalised then Err(TranscriptToFinalisedSegment)
    else if t.index in s.transcripts && s.transcripts[t.index].isFinalised then Err(OverrideFinalisedTranscript)
    else Ok(s.(transcripts := s.transcripts[t.index := t]))
  }

  /** Stores `e` under its span unless the segment, or the entity already
      at that span, is finalised. */
  function AddEntity(s: Segment, e: E.Entity): (r: SluResult<Segment>)
    ensures s.isFinalised ==> r == Err(EntityToFinalisedSegment)
    ensures !s.isFinalised && E.SpanOf(e) in s.entities && s.entities[E.SpanOf(e)].isFinalised ==>
              r == Err(OverrideFinalisedEntity)
    ensures r.Ok? <==> !s.isFinalised && !(E.SpanOf(e) in s.entities && s.entities[E.SpanOf(e)].isFinalised)
    ensures r.Ok? ==> && r.value.entities.Keys == s.entities.Keys + {E.SpanOf(e)}
                      && r.value.entities[E.SpanOf(e)] == e
                      && (forall k :: k in s.entities && k != E.SpanOf(e) ==> r.value.entities[k] == s.entities[k])
                      && r.value.transcripts == s.transcripts && r.value.intent == s.intent
                      && r.value.id == s.id && r.value.isFinalised == s.isFinalised
    ensures r.Ok? ==> Retains(s, r.value)
    ensures r.Ok? && Valid(s) ==> Valid(r.value)
  {
    if s.isFinalised then Err(EntityToFinalisedSegment)
    else
      var i := E.EntityIndex(e.startIndex, e.endIndex);
      if i in s.entities && s.entities[i].isFinalised then Err(OverrideFinalisedEntity)
      else Ok(s.(entities := s.entities[i := e]))
  }

  /** Replaces the intent unless the segment or its intent is finalised. */
  function SetIntent(s: Segment, i: I.Intent): (r: SluResult<Segment>)
    ensures s.isFinalised ==> r == Err(IntentToFinalisedSegment)
    ensures !s.isFinalised && s.intent.isFinalised ==> r == Err(OverrideFinalisedIntent)
    ensures r.Ok? <==> !s.isFinalised && !s.intent.isFinalised
    ensures r.Ok? ==> && r.value.intent == i
                      && r.value.transcripts == s.transcripts && r.value.entities == s.entities
                      && r.value.id == s.id && r.value.isFinalised == s.isFinalised
    ensures r.Ok? ==> Retains(s, r.value)
    ensures r.Ok? && Valid(s) ==> Valid(r.value)
  {
    if s.isFinalised then Err(IntentToFinalisedSegment)
    else if s.intent.isFinalised then Err(OverrideFinalisedIntent)
    else Ok(s.(intent := i))
  }

  /** Drops the tentative transcripts and entities and marks the segment
      finalised; fails when no finalised transcript remains. A segment that
      is already finalised is returned as it is. */
  function Finalise(s: Segment): (r: SluResult<Segment>)
    ensures s.isFinalised ==> r == Ok(s)
    ensures !s.isFinalised ==> (r.Ok? <==> exists k :: k in s.transcripts && s.transcripts[k].isFinalised)
    ensures r.Err? ==> r.error == SegmentHasNoTranscripts
    ensures r.Ok? && !s.isFinalised ==>
              && r.value.isFinalised
              && FinalTranscriptsOf(s.transcripts, r.value.transcripts)
              && FinalEntitiesOf(s.entities, r.value.entities)
              && r.value.intent == s.intent && r.value.id == s.id
    ensures r.Ok? ==> Retains(s, r.value) && r.value.isFinalised
    ensures r.Ok? && Valid(s) ==> Valid(r.value)
  {
    if s.isFinalised then Ok(s)
    else
      var ts := map k | k in s.transcripts && s.transcripts[k].isFinalised :: s.transcripts[k];
      if |ts| == 0 then
        assert forall k :: k in s.transcripts && s.transcripts[k].isFinalised ==> k in ts;
        EmptyMapHasNoKeys(ts);
        Err(SegmentHasNoTranscripts)
      else
        var es := map k | k in s.entities && s.entities[k].isFinalised :: s.entities[k];
        assert exists k :: k in ts;
        Ok(s.(isFinalised := true, transcripts := ts, entities := es))
  }

  lemma EmptyMapHasNoKeys<K, V>(m: map<K, V>)
    requires |m| == 0
    ensures forall k :: k !in m
  {
    assert m.Keys == {};
  }

  /** Finalising twice is finalising once. */
  lemma FinaliseIdempotent(s: Segment)
    requires Finalise(s).Ok?
    ensures Finalise(Finalise(s).value) == Finalise(s)
  {
  }

  // ---------------------------------------------------------------------
  // Segments: map[int32]Segment
  // ---------------------------------------------------------------------

  function IdOf(s: Segment): int32
  {
    s.id
  }

  /** Keys each segment by its `id` field; of several with the same id the
      last one in the slice is kept. */
  function NewSegments(ss: seq<Segment>): (r: SegmentMap)
    ensures forall k :: k in r <==> Collections.LastWith(ss, IdOf, k).Some?
    ensures forall k :: k in r ==> Collections.LastWith(ss, IdOf, k) == Some(r[k])
  {
    var r := Collections.KeyBy(ss, IdOf);
    assert forall k :: (k in r <==> Collections.LastWith(ss, IdOf, k).Some?)
                       && (k in r ==> Collections.LastWith(ss, IdOf, k) == Some(r[k])) by {
      forall k
        ensures k in r <==> Collections.LastWith(ss, IdOf, k).Some?
        ensures k in r ==> Collections.LastWith(ss, IdOf, k) == Some(r[k])
      {
        Collections.KeyByIsLastWith(ss, IdOf, k);
      }
    }
    r
  }

  /** Because `NewSegment` leaves every id at 0, rebuilding a map from
      segments it created keeps at most the last of them. */
  lemma NewSegmentsOfCreatedSegments(ss: seq<Segment>)
    requires forall i :: 0 <= i < |ss| ==> ss[i].id == 0
    ensures NewSegments(ss).Keys <= {0}
    ensures |ss| > 0 ==> NewSegments(ss) == map[0 := ss[|ss| - 1]]
  {
    var r := NewSegments(ss);
    forall k | k in r
      ensures k == 0
    {
      var v := Collections.LastWith(ss, IdOf, k).value;
      var i :| 0 <= i < |ss| && ss[i] == v && IdOf(ss[i]) == k;
    }
    if |ss| > 0 {
      var w := Collections.LastWith(ss, IdOf, 0);
      assert IdOf(ss[|ss| - 1]) == 0;
      var i :| 0 <= i < |ss| && ss[i] == w.value && IdOf(ss[i]) == 0
               && forall j :: i < j < |ss| ==> IdOf(ss[j]) != 0;
      assert i == |ss| - 1;
    }
  }

  /** Returns the segment stored under `id`, or inserts and returns a new
      empty one when there is none. */
  function Get(m: SegmentMap, id: int32): (r: (Segment, SegmentMap))
    ensures id in m ==> r.0 == m[id] && r.1 == m
    ensures id !in m ==> r.0 == NewSegment(id) && r.1.Keys == m.Keys + {id} && r.1[id] == r.0
                         && forall k :: k in m ==> r.1[k] == m[k]
  {
    if id in m then (m[id], m)
    else
      var s := NewSegment(id);
      (s, m[id := s])
  }

  /** The segments `MarshalJSON` hands to the serialiser: the values in the
      map's iteration order `order`, without sorting. */
  function Emitted(m: SegmentMap, order: seq<int32>): (r: seq<Segment>)
    requires forall i :: 0 <= i < |order| ==> order[i] in m
  {
    seq(|order|, i requires 0 <= i < |order| && order[i] in m => m[order[i]])
  }

  /** Segments.MarshalJSON, with `order` the iteration order of the map and
      `enc` the item encoding. */
  function MarshalJSON(m: SegmentMap, order: seq<int32>, enc: Json.Encoder<Segment>): Result<string, string>
    requires Collections.Enumerates(order, m.Keys)
  {
    Json.Serialise(Emitted(m, order), enc, |m| * 100)
  }

  /** One array, holding one item per stored segment in the map's
      iteration order; no ordering by id is promised. */
  lemma MarshalEmitsEachOnce(m: SegmentMap, order: seq<int32>, enc: Json.Encoder<Segment>)
    requires Collections.Enumerates(order, m.Keys)
    requires Json.AllEncode(enc, Emitted(m, order))
    ensures var e := Emitted(m, order);
            && |e| == |order|
            && (forall i :: 0 <= i < |order| ==> e[i] == m[order[i]])
            && (forall k :: k in m ==> exists i :: 0 <= i < |e| && order[i] == k && e[i] == m[k])
            && MarshalJSON(m, order, enc) == Ok([Json.ArrStart] + Json.Join(Json.Encodings(enc, e)) + [Json.ArrEnd])
  {
    var e := Emitted(m, order);
    forall k | k in m
      ensures exists i :: 0 <= i < |e| && order[i] == k && e[i] == m[k]
    {
      assert k in order;
      var i :| 0 <= i < |order| && order[i] == k;
      assert e[i] == m[k];
    }
    Json.SerialiseFrames(e, enc, |m| * 100);
  }

  /** A failing item fails the whole array with its error. */
  lemma MarshalFails(m: SegmentMap, order: seq<int32>, enc: Json.Encoder<Segment>, k: int)
    requires Collections.Enumerates(order, m.Keys)
    requires Json.FirstFailure(enc, Emitted(m, order), k)
    ensures MarshalJSON(m, order, enc) == Err(enc(m[order[k]]).error)
  {
    Json.SerialiseFails(Emitted(m, order), enc, |m| * 100, k);
  }
}
