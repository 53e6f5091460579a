/** pkg/audio/buffer.go: fixed-size buffers of signed samples, one variant
    per element width, and their conversions to and from bytes. */
module Buffers {
  import opened Wrappers
  import opened GoInts
  import opened AudioTypes
  import opened Binary

  /** `int8Buffer` to `int64Buffer`: the element width, the size fixed at
      construction, and the samples. The slice the Go code keeps is
      shared between a buffer value and its copies, so an operation that
      writes into it is modelled as returning the buffer as its caller
      sees it afterwards. */
  datatype Buffer = Buffer(kind: Width, size: nat, data: seq<int>)

  /** What every constructor establishes and no operation breaks: `size`
      samples, each representable in the buffer's width. */
  predicate Valid(b: Buffer)
  {
    |b.data| == b.size && forall i :: 0 <= i < |b.data| ==> InRange(b.kind, b.data[i])
  }

  function Min(a: int, b: int): int
  {
    if a < b then a else b
  }

  /** A buffer of `size` zero samples of the given depth; any other depth
      is rejected. */
  function NewBuffer(d: BitDepth, size: nat): (r: Result<Buffer, AudioError>)
    ensures !Supported(d) ==> r == Err(InvalidBitDepth)
    ensures Supported(d) ==> && r.Ok? && Valid(r.value)
                             && r.value.kind == WidthOf(d) && r.value.size == size
                             && forall i :: 0 <= i < size ==> r.value.data[i] == 0
  {
    if Supported(d) then Ok(Buffer(WidthOf(d), size, seq(size, _ => 0)))
    else Err(InvalidBitDepth)
  }

  function Size(b: Buffer): (n: nat)
    requires Valid(b)
    ensures n == |b.data|
  {
    b.size
  }

  /** The depth every variant reports, whatever its width. */
  function ReportedBitDepth(b: Buffer): (d: BitDepth)
    ensures d == BitDepth16
  {
    BitDepth16
  }

  /** The depth of the buffer's own width. */
  function IntendedBitDepth(b: Buffer): (d: BitDepth)
    ensures Supported(d) && WidthOf(d) == b.kind
  {
    DepthOf(b.kind)
  }

  /** Only a 16-bit buffer reports its own depth. */
  lemma ReportedDepthIsWrong(size: nat)
    ensures var b := NewBuffer(BitDepth8, size).value;
            ReportedBitDepth(b) == BitDepth16 && IntendedBitDepth(b) == BitDepth8
  {
  }

  /** The intended depth is the one the buffer was created with. */
  lemma IntendedDepthRoundTrip(d: BitDepth, size: nat)
    requires Supported(d)
    ensures IntendedBitDepth(NewBuffer(d, size).value) == d
  {
    WidthDepthRoundTrip(d);
  }

  /** A copy with its own slice holding the same samples. */
  function Clone(b: Buffer): (c: Buffer)
    requires Valid(b)
    ensures Valid(c) && c.kind == b.kind && c.size == b.size
    ensures forall i :: 0 <= i < b.size ==> c.data[i] == b.data[i]
  {
    Buffer(b.kind, b.size, b.data[..b.size])
  }

  // ---------------------------------------------------------------------
  // Write and Read
  // ---------------------------------------------------------------------

  /** Stores `buf`, each value cut to the buffer's width, at the front of
      the buffer and reports `len(buf)`. A `buf` longer than the buffer
      makes the Go code grow a private copy of the slice, so the caller's
      buffer keeps its samples while the count still says `len(buf)`. */
  function Write(b: Buffer, buf: seq<int>): (r: (int, Buffer))
    requires Valid(b)
    ensures r.0 == |buf|
    ensures Valid(r.1) && r.1.kind == b.kind && r.1.size == b.size
    ensures |buf| > b.size ==> r.1 == b
    ensures |buf| <= b.size ==>
              && (forall i :: 0 <= i < |buf| ==> r.1.data[i] == Wrap(buf[i], b.kind))
              && (forall i :: |buf| <= i < b.size ==> r.1.data[i] == b.data[i])
  {
    if |buf| > b.size then (|buf|, b)
    else (|buf|, b.(data := seq(b.size, i requires 0 <= i < b.size =>
                                  if i < |buf| then Wrap(buf[i], b.kind) else b.data[i])))
  }

  /** Copies the first `min(len(buf), size)` samples into `buf` and
      reports how many. */
  function Read(b: Buffer, buf: seq<int>): (r: (nat, seq<int>))
    requires Valid(b)
    ensures r.0 == Min(|buf|, b.size)
    ensures |r.1| == |buf|
    ensures forall i :: 0 <= i < |buf| ==> r.1[i] == if i < r.0 then b.data[i] else buf[i]
  {
    var n := Min(|buf|, b.size);
    (n, seq(|buf|, i requires 0 <= i < |buf| => if i < n then b.data[i] else buf[i]))
  }

  /** Samples that fit the width and the buffer read back as written. */
  lemma WriteThenRead(b: Buffer, buf: seq<int>)
    requires Valid(b) && |buf| <= b.size
    requires forall i :: 0 <= i < |buf| ==> InRange(b.kind, buf[i])
    ensures Read(Write(b, buf).1, seq(|buf|, _ => 0)) == (|buf|, buf)
  {
    var r := Read(Write(b, buf).1, seq(|buf|, _ => 0));
    assert r.1 == buf;
  }

  /** Writing back what was read leaves the buffer as it was. */
  lemma ReadThenWrite(b: Buffer)
    requires Valid(b)
    ensures Write(b, Read(b, seq(b.size, _ => 0)).1) == (b.size, b)
  {
    var xs := Read(b, seq(b.size, _ => 0)).1;
    assert xs == b.data;
    assert Write(b, xs).1.data == b.data;
  }

  /** The corrected `Write`: stores what fits and reports only that. */
  function WriteFitting(b: Buffer, buf: seq<int>): (r: (int, Buffer))
    requires Valid(b)
    ensures r.0 == Min(|buf|, b.size)
    ensures Valid(r.1) && r.1.kind == b.kind && r.1.size == b.size
  {
    var n := Min(|buf|, b.size);
    (n, Write(b, buf[..n]).1)
  }

  /** With the corrected `Write`, the count reported is exactly the number
      of samples that read back as written. */
  lemma WriteFittingReadsBack(b: Buffer, buf: seq<int>)
    requires Valid(b)
    requires forall i :: 0 <= i < |buf| ==> InRange(b.kind, buf[i])
    ensures var (n, b') := WriteFitting(b, buf);
            Read(b', seq(n, _ => 0)) == (n, buf[..n])
  {
    var n := Min(|buf|, b.size);
    WriteThenRead(b, buf[..n]);
  }

  /** Go's `Write` on a longer slice: it reports every value as
      written, yet none reads back. */
  lemma WriteLongerLosesSamples()
    ensures var b := NewBuffer(BitDepth16, 1).value;
            var (n, b') := Write(b, [5, 6]);
            n == 2 && Read(b', [0, 0]) == (1, [0, 0])
  {
    var b := NewBuffer(BitDepth16, 1).value;
    assert b.data == [0];
    var r := Read(b, [0, 0]);
    assert r.1 == [0, 0];
  }

  // ---------------------------------------------------------------------
  // WriteTo and ReadFrom
  // ---------------------------------------------------------------------

  /** The checks both transfers make before copying: equal reported depths,
      then the same variant. */
  function TransferCheck(a: Buffer, b: Buffer): (r: Option<AudioError>)
    ensures r.None? <==> a.kind == b.kind
    ensures r.Some? ==> r.value == InvalidBuffer
  {
    if ReportedBitDepth(a) != ReportedBitDepth(b) then Some(InvalidBitDepth)
    else if a.kind != b.kind then Some(InvalidBuffer)
    else None
  }

  /** Copies `b`'s samples into `dst`, as many as both hold. */
  function WriteTo(b: Buffer, dst: Buffer): (r: Result<(nat, Buffer), AudioError>)
    requires Valid(b) && Valid(dst)
    ensures b.kind != dst.kind ==> r == Err(InvalidBuffer)
    ensures b.kind == dst.kind ==> r.Ok? && r.value.0 == Min(b.size, dst.size)
    ensures r.Ok? ==> var (n, dst') := r.value;
              && Valid(dst') && dst'.kind == dst.kind && dst'.size == dst.size
              && (forall i :: 0 <= i < n ==> dst'.data[i] == b.data[i])
              && (forall i :: n <= i < dst.size ==> dst'.data[i] == dst.data[i])
  {
    match TransferCheck(b, dst)
    case Some(e) => Err(e)
    case None =>
      var n := Min(b.size, dst.size);
      Ok((n, dst.(data := b.data[..n] + dst.data[n..])))
  }

  /** Copies `src`'s samples into `b`, as many as both hold. */
  function ReadFrom(b: Buffer, src: Buffer): (r: Result<(nat, Buffer), AudioError>)
    requires Valid(b) && Valid(src)
    ensures b.kind != src.kind ==> r == Err(InvalidBuffer)
    ensures b.kind == src.kind ==> r.Ok? && r.value.0 == Min(b.size, src.size)
    ensures r.Ok? ==> var (n, b') := r.value;
              && Valid(b') && b'.kind == b.kind && b'.size == b.size
              && (forall i :: 0 <= i < n ==> b'.data[i] == src.data[i])
              && (forall i :: n <= i < b.size ==> b'.data[i] == b.data[i])
  {
    match TransferCheck(b, src)
    case Some(e) => Err(e)
    case None =>
      var n := Min(b.size, src.size);
      Ok((n, b.(data := src.data[..n] + b.data[n..])))
  }

  /** `a.WriteTo(b)` and `b.ReadFrom(a)` are the same copy. */
  lemma WriteToIsReadFrom(a: Buffer, b: Buffer)
    requires Valid(a) && Valid(b)
    ensures WriteTo(a, b) == ReadFrom(b, a)
  {
  }

  /** The corrected check: a variant reporting its own depth is rejected
      by the depth comparison the Go code intends. */
  function IntendedTransferCheck(a: Buffer, b: Buffer): (r: Option<AudioError>)
    ensures r.None? <==> a.kind == b.kind
    ensures r.Some? ==> r.value == InvalidBitDepth
  {
    if IntendedBitDepth(a) != IntendedBitDepth(b) then Some(InvalidBitDepth)
    else if a.kind != b.kind then Some(InvalidBuffer)
    else None
  }

  /** With the reported depths, a transfer between an 8-bit and a 16-bit
      buffer gets past the depth check and fails on the variant check. */
  lemma MismatchedDepthsPassDepthCheck()
    ensures var a := NewBuffer(BitDepth8, 1).value;
            var b := NewBuffer(BitDepth16, 1).value;
            ReportedBitDepth(a) == ReportedBitDepth(b)
            && TransferCheck(a, b) == Some(InvalidBuffer)
            && IntendedTransferCheck(a, b) == Some(InvalidBitDepth)
  {
  }

  // ---------------------------------------------------------------------
  // Encode and Decode
  // ---------------------------------------------------------------------

  /** The bytes of `xs`, one value after another. */
  function EncodeSamples(order: ByteOrder, w: Width, xs: seq<int>): seq<byte>
  {
    if |xs| == 0 then []
    else EncodeValue(order, w, xs[0]) + EncodeSamples(order, w, xs[1..])
  }

  lemma {:induction false} EncodeSamplesSnoc(order: ByteOrder, w: Width, xs: seq<int>, x: int)
    ensures EncodeSamples(order, w, xs + [x]) == EncodeSamples(order, w, xs) + EncodeValue(order, w, x)
  {
    if |xs| > 0 {
      assert (xs + [x])[1..] == xs[1..] + [x];
      EncodeSamplesSnoc(order, w, xs[1..], x);
    }
  }

  /** `bs` holds at least `n` whole values of width `w`. */
  predicate Fits(bs: seq<byte>, w: Width, n: nat)
  {
    n == 0 || (|bs| >= Bytes(w) && Fits(bs[Bytes(w)..], w, n - 1))
  }

  /** What is left of `bs` after `n` values of width `w`. */
  function Drop(bs: seq<byte>, w: Width, n: nat): (rest: seq<byte>)
    requires Fits(bs, w, n)
    ensures |rest| <= |bs|
  {
    if n == 0 then bs else Drop(bs[Bytes(w)..], w, n - 1)
  }

  /** The first `n` values of width `w` in `bs`. */
  function DecodeSamples(order: ByteOrder, w: Width, bs: seq<byte>, n: nat): (xs: seq<int>)
    requires Fits(bs, w, n)
    ensures |xs| == n
    ensures forall i :: 0 <= i < n ==> InRange(w, xs[i])
  {
    if n == 0 then []
    else [DecodeValue(order, w, bs[..Bytes(w)])] + DecodeSamples(order, w, bs[Bytes(w)..], n - 1)
  }

  /** Reading one more value where one more fits. */
  lemma {:induction false} DecodeSamplesSnoc(order: ByteOrder, w: Width, bs: seq<byte>, n: nat)
    requires Fits(bs, w, n) && |Drop(bs, w, n)| >= Bytes(w)
    ensures Fits(bs, w, n + 1)
    ensures Drop(bs, w, n + 1) == Drop(bs, w, n)[Bytes(w)..]
    ensures DecodeSamples(order, w, bs, n + 1)
            == DecodeSamples(order, w, bs, n) + [DecodeValue(order, w, Drop(bs, w, n)[..Bytes(w)])]
  {
    if n > 0 {
      DecodeSamplesSnoc(order, w, bs[Bytes(w)..], n - 1);
    }
  }

  /** `Fits` is "at least `n` times the width". */
  lemma {:induction false} FitsIsLength(bs: seq<byte>, w: Width, n: nat)
    ensures Fits(bs, w, n) <==> n * Bytes(w) <= |bs|
    ensures Fits(bs, w, n) ==> |Drop(bs, w, n)| == |bs| - n * Bytes(w)
  {
    if n > 0 {
      if |bs| >= Bytes(w) {
        FitsIsLength(bs[Bytes(w)..], w, n - 1);
      }
      assert n * Bytes(w) == (n - 1) * Bytes(w) + Bytes(w);
    }
  }

  /** The encoding of samples holds exactly that many values. */
  lemma {:induction false} EncodedFits(order: ByteOrder, w: Width, xs: seq<int>)
    ensures Fits(EncodeSamples(order, w, xs), w, |xs|)
    ensures Drop(EncodeSamples(order, w, xs), w, |xs|) == []
  {
    if |xs| > 0 {
      EncodeSamplesSplit(order, w, xs);
      EncodedFits(order, w, xs[1..]);
    }
  }

  /** Decoding the encoding of samples gives them back. */
  lemma {:induction false} DecodeEncodeSamples(order: ByteOrder, w: Width, xs: seq<int>)
    requires forall i :: 0 <= i < |xs| ==> InRange(w, xs[i])
    ensures Fits(EncodeSamples(order, w, xs), w, |xs|)
    ensures DecodeSamples(order, w, EncodeSamples(order, w, xs), |xs|) == xs
  {
    EncodedFits(order, w, xs);
    if |xs| > 0 {
      var bs := EncodeSamples(order, w, xs);
      EncodeSamplesSplit(order, w, xs);
      DecodeEncode(order, w, xs[0]);
      DecodeEncodeSamples(order, w, xs[1..]);
      DecodeSamplesCons(order, w, bs, |xs|, xs[0], xs[1..]);
      assert xs == [xs[0]] + xs[1..];
    }
  }

  lemma DecodeSamplesCons(order: ByteOrder, w: Width, bs: seq<byte>, n: nat, x: int, rest: seq<int>)
    requires n > 0 && Fits(bs, w, n)
    requires DecodeValue(order, w, bs[..Bytes(w)]) == x
    requires DecodeSamples(order, w, bs[Bytes(w)..], n - 1) == rest
    ensures DecodeSamples(order, w, bs, n) == [x] + rest
  {
  }

  lemma EncodeSamplesSplit(order: ByteOrder, w: Width, xs: seq<int>)
    requires |xs| > 0
    ensures |EncodeSamples(order, w, xs)| >= Bytes(w)
    ensures EncodeSamples(order, w, xs)[..Bytes(w)] == EncodeValue(order, w, xs[0])
    ensures EncodeSamples(order, w, xs)[Bytes(w)..] == EncodeSamples(order, w, xs[1..])
  {
  }

  /** Any bytes are the encoding of the samples decoded from them followed
      by what was not decoded. */
  lemma {:induction false} EncodeDecodeSamples(order: ByteOrder, w: Width, bs: seq<byte>, n: nat)
    requires Fits(bs, w, n)
    ensures bs == EncodeSamples(order, w, DecodeSamples(order, w, bs, n)) + Drop(bs, w, n)
  {
    if n > 0 {
      var k := Bytes(w);
      var x := DecodeValue(order, w, bs[..k]);
      var xs := DecodeSamples(order, w, bs[k..], n - 1);
      assert DecodeSamples(order, w, bs, n) == [x] + xs;
      assert Drop(bs, w, n) == Drop(bs[k..], w, n - 1);
      EncodeDecode(order, w, bs[..k]);
      EncodeDecodeSamples(order, w, bs[k..], n - 1);
      EncodeSamplesCons(order, w, x, xs);
      Glue(bs, k, EncodeSamples(order, w, xs), Drop(bs[k..], w, n - 1));
    }
  }

  lemma Glue<T>(s: seq<T>, k: nat, a: seq<T>, b: seq<T>)
    requires k <= |s| && s[k..] == a + b
    ensures s == s[..k] + a + b
  {
    assert s == s[..k] + s[k..];
  }

  lemma EncodeSamplesCons(order: ByteOrder, w: Width, x: int, xs: seq<int>)
    ensures EncodeSamples(order, w, [x] + xs) == EncodeValue(order, w, x) + EncodeSamples(order, w, xs)
  {
    assert ([x] + xs)[1..] == xs;
  }

  /** The writer: it accepts its first `accepts` writes and fails every
      later one. Writes the samples one by one, stopping at the first
      failed write; reports how many were written, what the writer
      received, and whether a write failed. */
  method Encode(b: Buffer, order: ByteOrder, accepts: nat) returns (n: nat, out: seq<byte>, failed: bool)
    requires Valid(b)
    ensures n == Min(b.size, accepts)
    ensures failed <==> b.size > accepts
    ensures out == EncodeSamples(order, b.kind, b.data[..n])
  {
    n := 0;
    out := [];
    while n < |b.data| && n < accepts
      invariant n <= |b.data| && n <= accepts
      invariant out == EncodeSamples(order, b.kind, b.data[..n])
    {
      EncodePrefixStep(order, b.kind, b.data, n);
      out := out + EncodeValue(order, b.kind, b.data[n]);
      n := n + 1;
    }
    failed := n < |b.data|;
  }

  /** One more sample of a prefix adds its bytes at the end. */
  lemma EncodePrefixStep(order: ByteOrder, w: Width, xs: seq<int>, n: nat)
    requires n < |xs|
    ensures EncodeSamples(order, w, xs[..n + 1]) == EncodeSamples(order, w, xs[..n]) + EncodeValue(order, w, xs[n])
  {
    var prefix, x := xs[..n], xs[n];
    assert xs[..n + 1] == prefix + [x];
    EncodeSamplesSnoc(order, w, prefix, x);
  }

  /** How `binary.Read` fails on a short input: no byte left, or some but
      fewer than a whole value, when the reader ends with `io.EOF`; or the
      reader's own error, when it fails instead. */
  datatype ReadError = Eof | UnexpectedEof | ReadFailed(reason: string)

  /** An `io.Reader` as `Decode` sees it: the bytes it delivers, then
      either `io.EOF` (`failure` is `None`) or an error of its own. */
  datatype Reader = Reader(bytes: seq<byte>, failure: Option<string>)

  /** The error `binary.Read` reports when the reader has fewer than a
      whole value left: `io.ReadFull` passes a reader's own error on as it
      is, and turns `io.EOF` into `io.ErrUnexpectedEOF` after a partial
      value. */
  function ShortReadError(r: Reader, left: nat): (e: ReadError)
    ensures r.failure.Some? ==> e == ReadFailed(r.failure.value)
    ensures r.failure.None? ==> (e == Eof <==> left == 0)
    ensures r.failure.None? ==> (e == UnexpectedEof <==> left > 0)
  {
    match r.failure
    case Some(reason) => ReadFailed(reason)
    case None => if left == 0 then Eof else UnexpectedEof
  }

  /** Fills the buffer from the front with the values read from `input`,
      stopping at the first value the reader cannot supply in full; the
      samples not reached keep their values. */
  method Decode(b: Buffer, order: ByteOrder, input: Reader) returns (n: nat, b': Buffer, err: Option<ReadError>)
    requires Valid(b)
    ensures n <= b.size && Fits(input.bytes, b.kind, n)
    ensures n < b.size ==> !Fits(input.bytes, b.kind, n + 1)
    ensures err.None? <==> n == b.size
    ensures err.Some? ==> err.value == ShortReadError(input, |Drop(input.bytes, b.kind, n)|)
    ensures Valid(b') && b'.kind == b.kind && b'.size == b.size
    ensures b'.data == DecodeSamples(order, b.kind, input.bytes, n) + b.data[n..]
  {
    var k := Bytes(b.kind);
    var data := b.data;
    var rest := input.bytes;
    n := 0;
    while n < b.size
      invariant n <= b.size && Fits(input.bytes, b.kind, n) && rest == Drop(input.bytes, b.kind, n)
      invariant data == DecodeSamples(order, b.kind, input.bytes, n) + b.data[n..]
    {
      if |rest| < k {
        NoMoreFits(input.bytes, b.kind, n);
        DecodedValid(order, b, input.bytes, n);
        err := Some(ShortReadError(input, |rest|));
        b' := b.(data := data);
        return;
      }
      var x := DecodeValue(order, b.kind, rest[..k]);
      DecodeInto(order, b.kind, input.bytes, n, b.data);
      data := data[n := x];
      rest := rest[k..];
      n := n + 1;
    }
    err := None;
    DecodedValid(order, b, input.bytes, n);
    b' := b.(data := data);
  }

  /** One step of `Decode`: the next value goes into slot `n`. */
  lemma DecodeInto(order: ByteOrder, w: Width, input: seq<byte>, n: nat, prior: seq<int>)
    requires Fits(input, w, n) && |Drop(input, w, n)| >= Bytes(w) && n < |prior|
    ensures Fits(input, w, n + 1)
    ensures Drop(input, w, n + 1) == Drop(input, w, n)[Bytes(w)..]
    ensures (DecodeSamples(order, w, input, n) + prior[n..])[n := DecodeValue(order, w, Drop(input, w, n)[..Bytes(w)])]
            == DecodeSamples(order, w, input, n + 1) + prior[n + 1..]
  {
    DecodeSamplesSnoc(order, w, input, n);
  }

  /** Decoded samples over the rest of a valid buffer make a valid buffer. */
  lemma DecodedValid(order: ByteOrder, b: Buffer, input: seq<byte>, n: nat)
    requires Valid(b) && n <= b.size && Fits(input, b.kind, n)
    ensures Valid(b.(data := DecodeSamples(order, b.kind, input, n) + b.data[n..]))
  {
  }

  lemma {:induction false} NoMoreFits(bs: seq<byte>, w: Width, n: nat)
    requires Fits(bs, w, n) && |Drop(bs, w, n)| < Bytes(w)
    ensures !Fits(bs, w, n + 1)
  {
    if n > 0 {
      NoMoreFits(bs[Bytes(w)..], w, n - 1);
    }
  }

  /** Fewer values fit wherever more do. */
  lemma {:induction false} FitsFewer(bs: seq<byte>, w: Width, n: nat, k: nat)
    requires Fits(bs, w, n) && k <= n
    ensures Fits(bs, w, k)
    decreases k
  {
    if k > 0 {
      FitsFewer(bs[Bytes(w)..], w, n - 1, k - 1);
    }
  }

  /** Encoding a buffer into a writer that takes everything, then decoding
      those bytes into a buffer of the same width and size, fills it
      completely, without error, with the original samples, however the
      reader ends after them. */
  method EncodeThenDecode(b: Buffer, order: ByteOrder, into: Buffer, failure: Option<string>)
    returns (n: nat, b': Buffer, err: Option<ReadError>)
    requires Valid(b) && Valid(into) && into.kind == b.kind && into.size == b.size
    ensures n == b.size && err.None? && b' == b
  {
    var written, out, failed := Encode(b, order, b.size);
    assert b.data[..written] == b.data;
    DecodeEncodeSamples(order, b.kind, b.data);
    n, b', err := Decode(into, order, Reader(out, failure));
    if n < b.size {
      FitsFewer(out, b.kind, b.size, n + 1);
    }
    assert into.data[n..] == [];
  }
}
