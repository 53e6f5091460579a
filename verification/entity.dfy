/** pkg/speechly/slu/entity.go: detected entities, keyed by their span. */
module Entities {
  import opened Wrappers
  import opened GoInts
  import opened SluErrors
  import Collections
  import Json

  /** The API's entity message; `None` stands for nil. */
  datatype WireEntity = WireEntity(entity: string, value: string, startPosition: int32, endPosition: int32)

  datatype Entity = Entity(entityType: string, value: string, startIndex: int32, endIndex: int32, isFinalised: bool)

  /** Go's zero `Entity{}`. */
  const Zero := Entity("", "", 0, 0, false)

  /** The key of an entity: its `(StartIndex, EndIndex)` span. */
  datatype EntityIndex = EntityIndex(startIndex: int32, endIndex: int32)

  function SpanOf(e: Entity): EntityIndex
  {
    EntityIndex(e.startIndex, e.endIndex)
  }

  /** The message an entity was parsed from. */
  function ToWire(e: Entity): WireEntity
  {
    WireEntity(e.entityType, e.value, e.startIndex, e.endIndex)
  }

  /** Fills the receiver `e` from `v`; a nil message is an error and leaves
      the receiver as it was. */
  function Parse(e: Entity, v: Option<WireEntity>, isTentative: bool): (r: (Entity, Option<Error>))
    ensures v.None? ==> r == (e, Some(NilValue))
    ensures v.Some? ==> r.1 == None && ToWire(r.0) == v.value
    ensures v.Some? ==> SpanOf(r.0) == EntityIndex(v.value.startPosition, v.value.endPosition)
    ensures v.Some? ==> (r.0.isFinalised <==> !isTentative)
  {
    match v
    case None => (e, Some(NilValue))
    case Some(w) => (Entity(w.entity, w.value, w.startPosition, w.endPosition, !isTentative), None)
  }

  /** A successful parse overwrites every field, so what the reused receiver
      held before has no influence on the result. */
  lemma ParseForgetsReceiver(e1: Entity, e2: Entity, v: Option<WireEntity>, isTentative: bool)
    requires v.Some?
    ensures Parse(e1, v, isTentative) == Parse(e2, v, isTentative)
  {
  }

  // ---------------------------------------------------------------------
  // Entities: map[EntityIndex]Entity
  // ---------------------------------------------------------------------

  type EntityMap = map<EntityIndex, Entity>

  /** Every entity is stored under its own span. */
  ghost predicate WellKeyed(m: EntityMap)
  {
    forall k :: k in m ==> SpanOf(m[k]) == k
  }

  /** Keys each entity by its span; of several with the same span the last
      one in the slice is kept. */
  function NewEntities(es: seq<Entity>): (r: EntityMap)
    ensures forall k :: k in r <==> Collections.LastWith(es, SpanOf, k).Some?
    ensures forall k :: k in r ==> Collections.LastWith(es, SpanOf, k) == Some(r[k])
    ensures WellKeyed(r)
  {
    var r := Collections.KeyBy(es, SpanOf);
    assert forall k :: (k in r <==> Collections.LastWith(es, SpanOf, k).Some?)
                       && (k in r ==> Collections.LastWith(es, SpanOf, k) == Some(r[k])) by {
      forall k
        ensures k in r <==> Collections.LastWith(es, SpanOf, k).Some?
        ensures k in r ==> Collections.LastWith(es, SpanOf, k) == Some(r[k])
      {
        Collections.KeyByIsLastWith(es, SpanOf, k);
      }
    }
    r
  }

  /** The entities `MarshalJSON` hands to the serialiser: the values in the
      map's iteration order `order`, without sorting. */
  function Emitted(m: EntityMap, order: seq<EntityIndex>): (r: seq<Entity>)
    requires forall i :: 0 <= i < |order| ==> order[i] in m
  {
    seq(|order|, i requires 0 <= i < |order| && order[i] in m => m[order[i]])
  }

  /** Entities.MarshalJSON, with `order` the iteration order of the map and
      `enc` the item encoding. */
  function MarshalJSON(m: EntityMap, order: seq<EntityIndex>, enc: Json.Encoder<Entity>): Result<string, string>
    requires Collections.Enumerates(order, m.Keys)
  {
    Json.Serialise(Emitted(m, order), enc, |m| * 100)
  }

  /** One array, holding one item per stored entity: the entity under the
      i-th key of the iteration order is the i-th item. No ordering by span
      is promised, since the order is Go's map iteration order. */
  lemma MarshalEmitsEachOnce(m: EntityMap, order: seq<EntityIndex>, enc: Json.Encoder<Entity>)
    requires Collections.Enumerates(order, m.Keys)
    requires Json.AllEncode(enc, Emitted(m, order))
    ensures var e := Emitted(m, order);
            && |e| == |order|
            && (forall i :: 0 <= i < |order| ==> e[i] == m[order[i]])
            && (forall k :: k in m ==> exists i :: 0 <= i < |e| && order[i] == k && e[i] == m[k])
            && MarshalJSON(m, order, enc) == Ok([Json.ArrStart] + Json.Join(Json.Encodings(enc, e)) + [Json.ArrEnd])
  {
    var e := Emitted(m, order);
    forall k | k in m
      ensures exists i :: 0 <= i < |e| && order[i] == k && e[i] == m[k]
    {
      assert k in order;
      var i :| 0 <= i < |order| && order[i] == k;
      assert e[i] == m[k];
    }
    Json.SerialiseFrames(e, enc, |m| * 100);
  }
}
