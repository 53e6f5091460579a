/** pkg/speechly/slu/transcript.go: recognised words and their JSON form. */
module Transcripts {
  import opened Wrappers
  import opened GoInts
  import opened SluErrors
  import Collections
  import Json

  /** The API's transcript message; `None` stands for nil. */
  datatype WireTranscript = WireTranscript(word: string, index: int32, startTime: int32, endTime: int32)

  datatype Transcript = Transcript(word: string, index: int32, startTime: int32, endTime: int32, isFinalised: bool)

  /** Go's zero `Transcript{}`. */
  const Zero := Transcript("", 0, 0, 0, false)

  /** The message a transcript was parsed from. */
  function ToWire(t: Transcript): WireTranscript
  {
    WireTranscript(t.word, t.index, t.startTime, t.endTime)
  }

  /** Fills the receiver `t` from `v`; a nil message is an error and leaves
      the receiver as it was. */
  function Parse(t: Transcript, v: Option<WireTranscript>, isTentative: bool): (r: (Transcript, Option<Error>))
    ensures v.None? ==> r == (t, Some(NilValue))
    ensures v.Some? ==> r.1 == None && ToWire(r.0) == v.value
    ensures v.Some? ==> (r.0.isFinalised <==> !isTentative)
  {
    match v
    case None => (t, Some(NilValue))
    case Some(w) => (Transcript(w.word, w.index, w.startTime, w.endTime, !isTentative), None)
  }

  /** A successful parse overwrites every field, so what the reused receiver
      held before has no influence on the result. */
  lemma ParseForgetsReceiver(t1: Transcript, t2: Transcript, v: Option<WireTranscript>, isTentative: bool)
    requires v.Some?
    ensures Parse(t1, v, isTentative) == Parse(t2, v, isTentative)
  {
  }

  // ---------------------------------------------------------------------
  // Transcripts: map[int32]Transcript
  // ---------------------------------------------------------------------

  type TranscriptMap = map<int32, Transcript>

  function IndexOf(t: Transcript): int32
  {
    t.index
  }

  /** Every transcript is stored under its own index. */
  ghost predicate WellKeyed(m: TranscriptMap)
  {
    forall k :: k in m ==> m[k].index == k
  }

  /** Keys each transcript by its index; of several with the same index the
      last one in the slice is kept. */
  function NewTranscripts(ts: seq<Transcript>): (r: TranscriptMap)
    ensures forall k :: k in r <==> Collections.LastWith(ts, IndexOf, k).Some?
    ensures forall k :: k in r ==> Collections.LastWith(ts, IndexOf, k) == Some(r[k])
    ensures WellKeyed(r)
  {
    var r := Collections.KeyBy(ts, IndexOf);
    assert forall k :: (k in r <==> Collections.LastWith(ts, IndexOf, k).Some?)
                       && (k in r ==> Collections.LastWith(ts, IndexOf, k) == Some(r[k])) by {
      forall k
        ensures k in r <==> Collections.LastWith(ts, IndexOf, k).Some?
        ensures k in r ==> Collections.LastWith(ts, IndexOf, k) == Some(r[k])
      {
        Collections.KeyByIsLastWith(ts, IndexOf, k);
      }
    }
    r
  }

  /** Go's map read: the zero value for a missing key. */
  function Lookup(m: TranscriptMap, k: int32): Transcript
  {
    if k in m then m[k] else Zero
  }

  /** `int(v.Index)` for every value, in map iteration order `order`. */
  function Indices(m: TranscriptMap, order: seq<int32>): (r: seq<int>)
    ensures |r| == |order|
    ensures forall i :: 0 <= i < |order| ==> r[i] == Lookup(m, order[i]).index as int
  {
    seq(|order|, i requires 0 <= i < |order| => Lookup(m, order[i]).index as int)
  }

  /** The transcripts `MarshalJSON` hands to the serialiser: the indices of
      the values are sorted and each is looked up again with `t[int32(i)]`. */
  function Emitted(m: TranscriptMap, order: seq<int32>): (r: seq<Transcript>)
  {
    var sorted := Collections.Sort(Indices(m, order));
    assert forall i :: 0 <= i < |sorted| ==> -0x8000_0000 <= sorted[i] < 0x8000_0000 by {
      forall i | 0 <= i < |sorted|
        ensures -0x8000_0000 <= sorted[i] < 0x8000_0000
      {
        assert sorted[i] in multiset(sorted);
        assert sorted[i] in Indices(m, order);
      }
    }
    seq(|sorted|, i requires 0 <= i < |sorted| => Lookup(m, sorted[i] as int32))
  }

  /** Transcripts.MarshalJSON, with `order` the iteration order of the map
      and `enc` the item encoding. */
  function MarshalJSON(m: TranscriptMap, order: seq<int32>, enc: Json.Encoder<Transcript>): Result<string, string>
    requires Collections.Enumerates(order, m.Keys)
  {
    Json.Serialise(Emitted(m, order), enc, |m| * 100)
  }

  /** The output does not depend on the map's iteration order. */
  lemma MarshalIgnoresIterationOrder(m: TranscriptMap, o1: seq<int32>, o2: seq<int32>, enc: Json.Encoder<Transcript>)
    requires Collections.Enumerates(o1, m.Keys) && Collections.Enumerates(o2, m.Keys)
    ensures MarshalJSON(m, o1, enc) == MarshalJSON(m, o2, enc)
  {
    var f := (k: int32) => Lookup(m, k).index as int;
    Collections.EnumerationsArePermutations(o1, o2, m.Keys);
    Collections.MapPermutation(f, o1, o2);
    assert Indices(m, o1) == Collections.MapSeq(f, o1);
    assert Indices(m, o2) == Collections.MapSeq(f, o2);
    var s1, s2 := Collections.Sort(Indices(m, o1)), Collections.Sort(Indices(m, o2));
    Collections.SortedUnique(s1, s2);
  }

  /** For a map that keeps every transcript under its own index (which
      every mutation of the model preserves), the array lists the
      transcripts in strictly ascending index order, every one exactly once. */
  lemma MarshalEmitsAscending(m: TranscriptMap, order: seq<int32>)
    requires WellKeyed(m) && Collections.Enumerates(order, m.Keys)
    ensures var e := Emitted(m, order);
            && |e| == |m|
            && (forall i, j :: 0 <= i < j < |e| ==> e[i].index < e[j].index)
            && (forall i :: 0 <= i < |e| ==> e[i].index in m && m[e[i].index] == e[i])
            && (forall k :: k in m ==> m[k] in e)
  {
    var e := Emitted(m, order);
    EmittedAreValues(m, order);
    SortedIndicesDistinct(m, order);
    EmittedCoversValues(m, order);
    EmittedCount(m, order);
  }

  lemma EmittedCount(m: TranscriptMap, order: seq<int32>)
    requires Collections.Enumerates(order, m.Keys)
    ensures |Emitted(m, order)| == |m|
  {
    assert |Emitted(m, order)| == |order|;
    DistinctCardinality(order);
    assert (set k | k in order) == m.Keys;
  }

  /** Under `WellKeyed` the looked-up indices are the keys themselves. */
  lemma IndicesAreKeys(m: TranscriptMap, order: seq<int32>)
    requires WellKeyed(m) && Collections.Enumerates(order, m.Keys)
    ensures forall i :: 0 <= i < |order| ==> Indices(m, order)[i] == order[i] as int
  {
  }

  lemma SortedIndicesDistinct(m: TranscriptMap, order: seq<int32>)
    requires WellKeyed(m) && Collections.Enumerates(order, m.Keys)
    ensures Collections.Distinct(Collections.Sort(Indices(m, order)))
  {
    var ind := Indices(m, order);
    IndicesAreKeys(m, order);
    assert Collections.Distinct(ind) by {
      forall i, j | 0 <= i < j < |ind|
        ensures ind[i] != ind[j]
      {
        assert order[i] != order[j];
      }
    }
    Collections.PermutationKeepsDistinct(ind, Collections.Sort(ind));
  }

  lemma EmittedAreValues(m: TranscriptMap, order: seq<int32>)
    requires WellKeyed(m) && Collections.Enumerates(order, m.Keys)
    ensures var e := Emitted(m, order);
            var sorted := Collections.Sort(Indices(m, order));
            && |e| == |sorted| == |order|
            && forall i :: 0 <= i < |e| ==> e[i].index as int == sorted[i] && e[i].index in m && m[e[i].index] == e[i]
  {
    var ind := Indices(m, order);
    var sorted := Collections.Sort(ind);
    var e := Emitted(m, order);
    IndicesAreKeys(m, order);
    forall i | 0 <= i < |e|
      ensures e[i].index as int == sorted[i] && e[i].index in m && m[e[i].index] == e[i]
    {
      assert sorted[i] in multiset(sorted);
      assert sorted[i] in ind;
      var j :| 0 <= j < |ind| && ind[j] == sorted[i];
      assert order[j] in m;
      assert e[i] == Lookup(m, sorted[i] as int32);
    }
  }

  lemma EmittedCoversValues(m: TranscriptMap, order: seq<int32>)
    requires WellKeyed(m) && Collections.Enumerates(order, m.Keys)
    ensures forall k :: k in m ==> m[k] in Emitted(m, order)
  {
    var ind := Indices(m, order);
    var sorted := Collections.Sort(ind);
    var e := Emitted(m, order);
    IndicesAreKeys(m, order);
    forall k | k in m
      ensures m[k] in e
    {
      var j :| 0 <= j < |order| && order[j] == k;
      assert ind[j] == k as int;
      assert k as int in multiset(ind);
      assert k as int in sorted;
      var i :| 0 <= i < |sorted| && sorted[i] == k as int;
      assert e[i] == m[k];
    }
  }

  /** A duplicate-free sequence has as many elements as its set of values. */
  lemma {:induction false} DistinctCardinality(s: seq<int32>)
    requires Collections.Distinct(s)
    ensures |set k | k in s| == |s|
    decreases |s|
  {
    if |s| > 0 {
      var rest := s[1..];
      assert Collections.Distinct(rest) by {
        forall i, j | 0 <= i < j < |rest|
          ensures rest[i] != rest[j]
        {
          assert rest[i] == s[i + 1] && rest[j] == s[j + 1];
        }
      }
      DistinctCardinality(rest);
      assert (set k | k in s) == (set k | k in rest) + {s[0]};
      assert s[0] !in rest by {
        forall i | 0 <= i < |rest|
          ensures rest[i] != s[0]
        {
          assert rest[i] == s[i + 1];
        }
      }
    }
  }

  /** An empty map serialises as an empty array. */
  lemma MarshalEmpty(enc: Json.Encoder<Transcript>)
    ensures MarshalJSON(map[], [], enc) == Ok("[]")
  {
    assert Emitted(map[], []) == [];
    Json.SerialiseEmpty(enc, 0);
  }
}
