/** The JSON array framer of internal/json/array_serialiser.go.

    The serialiser owns a byte buffer. It starts as `[`; every written item
    is appended by `encoding/json` (whose output is opaque here and may fail)
    followed by a comma; `Finalise` takes back the last comma, closes the
    array and resets the buffer.
 */
module Json {
  import opened Wrappers

  const ArrStart: char := '['
  const ArrDelim: char := ','
  const ArrEnd: char := ']'

  /** The item encoding `encoding/json` produces for one value, without the
      newline its Encoder appends, or the error it reports. */
  type Encoder<!T> = T -> Result<string, string>

  datatype ArraySerialiser = ArraySerialiser(buf: string)

  /** `bufSize` is only the initial capacity of the buffer; writing one byte
      to a `bytes.Buffer` never reports an error, so the Go code's error
      branch is never taken and the constructor cannot fail here. */
  function NewArraySerialiser(bufSize: nat): (a: ArraySerialiser)
    ensures a.buf == [ArrStart]
  {
    ArraySerialiser([ArrStart])
  }

  /** Encodes `val`, strips the newline the encoder terminates it with, and
      appends a comma. A failed encoding is reported before anything else. */
  function Write<T>(a: ArraySerialiser, enc: Encoder<T>, val: T): (r: Result<ArraySerialiser, string>)
    ensures enc(val).Err? ==> r == Err(enc(val).error)
    ensures enc(val).Ok? ==> r.Ok? && r.value.buf == a.buf + enc(val).value + [ArrDelim]
  {
    var item :- enc(val);
    var encoded := a.buf + item + "\n";
    var unwritten := encoded[..|encoded| - 1];
    assert unwritten == a.buf + item;
    Ok(ArraySerialiser(unwritten + [ArrDelim]))
  }

  /** Returns the finished array and the (reset) serialiser. The last byte is
      taken back only when the buffer holds more than the opening bracket. */
  function Finalise(a: ArraySerialiser): (r: (string, ArraySerialiser))
    ensures r.1.buf == []
    ensures |a.buf| > 1 ==> r.0 == a.buf[..|a.buf| - 1] + [ArrEnd]
    ensures |a.buf| <= 1 ==> r.0 == a.buf + [ArrEnd]
  {
    var body := if |a.buf| > 1 then a.buf[..|a.buf| - 1] else a.buf;
    (body + [ArrEnd], ArraySerialiser([]))
  }

  /** Writes `items` in order, stopping at the first encoding failure. */
  function WriteAll<T>(a: ArraySerialiser, enc: Encoder<T>, items: seq<T>): Result<ArraySerialiser, string>
    decreases |items|
  {
    if |items| == 0 then Ok(a)
    else
      var a' :- Write(a, enc, items[0]);
      WriteAll(a', enc, items[1..])
  }

  /** The whole life of one serialiser as the marshallers use it:
      create, write every item, finalise. */
  function Serialise<T>(items: seq<T>, enc: Encoder<T>, bufSize: nat): Result<string, string>
  {
    var a :- WriteAll(NewArraySerialiser(bufSize), enc, items);
    Ok(Finalise(a).0)
  }

  // ---------------------------------------------------------------------
  // Reference definitions of the intended output
  // ---------------------------------------------------------------------

  /** `parts` separated by commas. */
  function Join(parts: seq<string>): string
  {
    if |parts| == 0 then []
    else if |parts| == 1 then parts[0]
    else parts[0] + [ArrDelim] + Join(parts[1..])
  }

  /** Every part followed by a comma. */
  function Terminated(parts: seq<string>): string
  {
    if |parts| == 0 then [] else parts[0] + [ArrDelim] + Terminated(parts[1..])
  }

  predicate AllEncode<T>(enc: Encoder<T>, items: seq<T>)
  {
    forall i :: 0 <= i < |items| ==> enc(items[i]).Ok?
  }

  function Encodings<T>(enc: Encoder<T>, items: seq<T>): (parts: seq<string>)
    requires AllEncode(enc, items)
    ensures |parts| == |items|
  {
    seq(|items|, i requires 0 <= i < |items| && AllEncode(enc, items) => enc(items[i]).value)
  }

  /** Index of the first item whose encoding fails. */
  predicate FirstFailure<T>(enc: Encoder<T>, items: seq<T>, k: int)
  {
    0 <= k < |items| && enc(items[k]).Err? && forall i :: 0 <= i < k ==> enc(items[i]).Ok?
  }

  // ---------------------------------------------------------------------
  // Properties
  // ---------------------------------------------------------------------

  lemma {:induction false} TerminatedIsJoinedPlusComma(parts: seq<string>)
    requires |parts| > 0
    ensures Terminated(parts) == Join(parts) + [ArrDelim]
    decreases |parts|
  {
    if |parts| > 1 {
      TerminatedIsJoinedPlusComma(parts[1..]);
    }
  }

  /** Writing items that all encode appends each encoding followed by a comma. */
  lemma {:induction false} WriteAllAppends<T>(a: ArraySerialiser, enc: Encoder<T>, items: seq<T>)
    requires AllEncode(enc, items)
    ensures WriteAll(a, enc, items) == Ok(ArraySerialiser(a.buf + Terminated(Encodings(enc, items))))
    decreases |items|
  {
    if |items| > 0 {
      var a' := Write(a, enc, items[0]).value;
      assert AllEncode(enc, items[1..]) by {
        forall i | 0 <= i < |items[1..]|
          ensures enc(items[1..][i]).Ok?
        {
          assert items[1..][i] == items[i + 1];
        }
      }
      WriteAllAppends(a', enc, items[1..]);
      var parts := Encodings(enc, items);
      assert parts == [enc(items[0]).value] + Encodings(enc, items[1..]);
      assert Terminated(parts) == parts[0] + [ArrDelim] + Terminated(parts[1..]);
      assert a'.buf + Terminated(parts[1..]) == a.buf + Terminated(parts);
    } else {
      assert Terminated(Encodings(enc, items)) == [];
      assert a.buf + [] == a.buf;
    }
  }

  /** Writing stops at the first item that fails to encode and reports its error. */
  lemma {:induction false} WriteAllFails<T>(a: ArraySerialiser, enc: Encoder<T>, items: seq<T>, k: int)
    requires FirstFailure(enc, items, k)
    ensures WriteAll(a, enc, items) == Err(enc(items[k]).error)
    decreases |items|
  {
    if k > 0 {
      var a' := Write(a, enc, items[0]).value;
      assert FirstFailure(enc, items[1..], k - 1) by {
        forall i | 0 <= i < k - 1
          ensures enc(items[1..][i]).Ok?
        {
          assert items[1..][i] == items[i + 1];
        }
      }
      WriteAllFails(a', enc, items[1..], k - 1);
    }
  }

  /** The net effect of a serialiser: `[`, the encodings joined by commas, `]`. */
  lemma SerialiseFrames<T>(items: seq<T>, enc: Encoder<T>, bufSize: nat)
    requires AllEncode(enc, items)
    ensures Serialise(items, enc, bufSize) == Ok([ArrStart] + Join(Encodings(enc, items)) + [ArrEnd])
  {
    var parts := Encodings(enc, items);
    WriteAllAppends(NewArraySerialiser(bufSize), enc, items);
    if |parts| > 0 {
      TerminatedIsJoinedPlusComma(parts);
      var buf := [ArrStart] + Join(parts) + [ArrDelim];
      assert [ArrStart] + Terminated(parts) == buf;
      assert buf[..|buf| - 1] == [ArrStart] + Join(parts);
    } else {
      assert [ArrStart] + Terminated(parts) == [ArrStart];
    }
  }

  /** No item at all gives the empty array. */
  lemma SerialiseEmpty<T>(enc: Encoder<T>, bufSize: nat)
    ensures Serialise([], enc, bufSize) == Ok("[]")
  {
    SerialiseFrames([], enc, bufSize);
    assert Encodings(enc, []) == [];
    assert [ArrStart] + Join([]) + [ArrEnd] == "[]";
  }

  /** An item that fails to encode fails the whole array with its error. */
  lemma SerialiseFails<T>(items: seq<T>, enc: Encoder<T>, bufSize: nat, k: int)
    requires FirstFailure(enc, items, k)
    ensures Serialise(items, enc, bufSize) == Err(enc(items[k]).error)
  {
    WriteAllFails(NewArraySerialiser(bufSize), enc, items, k);
  }

  /** `Finalise` resets the buffer, so a reused serialiser has lost its
      opening bracket: its next array is the joined items and `]` alone.
      (An item `encoding/json` encodes is never empty; an empty one here
      would leave its comma in place, as the length test sees one byte.) */
  lemma ReuseLosesOpeningBracket<T>(a: ArraySerialiser, enc: Encoder<T>, items: seq<T>)
    requires AllEncode(enc, items)
    requires forall i :: 0 <= i < |items| ==> enc(items[i]) != Ok([])
    ensures var reset := Finalise(a).1;
            var written := WriteAll(reset, enc, items);
            written.Ok? && Finalise(written.value).0 == Join(Encodings(enc, items)) + [ArrEnd]
  {
    var reset := Finalise(a).1;
    var parts := Encodings(enc, items);
    WriteAllAppends(reset, enc, items);
    assert reset.buf + Terminated(parts) == Terminated(parts);
    if |parts| > 0 {
      assert parts[0] == enc(items[0]).value;
      FinaliseTerminated(parts);
    }
  }

  /** Closing a buffer that holds the comma-terminated parts drops the last
      comma, provided the first part is not empty. */
  lemma FinaliseTerminated(parts: seq<string>)
    requires |parts| > 0 && parts[0] != []
    ensures Finalise(ArraySerialiser(Terminated(parts))).0 == Join(parts) + [ArrEnd]
  {
    TerminatedIsJoinedPlusComma(parts);
    JoinStartsWithFirst(parts);
    var buf := Join(parts) + [ArrDelim];
    assert buf[..|buf| - 1] == Join(parts);
  }

  lemma JoinStartsWithFirst(parts: seq<string>)
    requires |parts| > 0
    ensures |Join(parts)| >= |parts[0]|
  {
    if |parts| > 1 {
      assert Join(parts) == parts[0] + [ArrDelim] + Join(parts[1..]);
    }
  }
}
