/** pkg/audio/types.go: bit depths and the audio format. */
module AudioTypes {
  import opened Wrappers
  import opened GoInts

  /** The errors of package audio. */
  datatype AudioError = InvalidBitDepth | InvalidBuffer

  /** `type BitDepth int8`. */
  type BitDepth = int8

  const BitDepthUndefined: BitDepth := 0
  const BitDepth8: BitDepth := 8
  const BitDepth16: BitDepth := 16
  const BitDepth32: BitDepth := 32
  const BitDepth64: BitDepth := 64

  /** The supported depths are exactly the four named ones. */
  predicate Supported(d: BitDepth)
  {
    d == BitDepth8 || d == BitDepth16 || d == BitDepth32 || d == BitDepth64
  }

  /** The element width a supported depth stands for. */
  function WidthOf(d: BitDepth): (w: Width)
    requires Supported(d)
    ensures Bytes(w) * 8 == d as int
  {
    if d == BitDepth8 then W8
    else if d == BitDepth16 then W16
    else if d == BitDepth32 then W32
    else W64
  }

  /** The depth named for a width; the partner of `WidthOf`. */
  function DepthOf(w: Width): (d: BitDepth)
    ensures Supported(d) && WidthOf(d) == w
  {
    match w
    case W8 => BitDepth8
    case W16 => BitDepth16
    case W32 => BitDepth32
    case W64 => BitDepth64
  }

  lemma WidthDepthRoundTrip(d: BitDepth)
    requires Supported(d)
    ensures DepthOf(WidthOf(d)) == d
  {
  }

  datatype Format = Format(numChannels: int32, sampleRateHertz: int32, bitDepth: BitDepth)

  /** Go's zero `Format{}`. */
  const ZeroFormat := Format(0, 0, BitDepthUndefined)

  /** Builds a format: a depth other than 8, 16, 32 or 64 is rejected with
      the zero format, and the channel count and sample rate are converted
      to `int32`, keeping their low 32 bits. */
  function NewFormat(numChannels: int, sampleRate: int, depth: int): (r: (Format, Option<AudioError>))
    ensures depth !in {8, 16, 32, 64} ==> r == (ZeroFormat, Some(InvalidBitDepth))
    ensures depth in {8, 16, 32, 64} ==>
              && r.1 == None
              && r.0.bitDepth as int == depth && Supported(r.0.bitDepth)
              && r.0.numChannels as int == Wrap(numChannels, W32)
              && r.0.sampleRateHertz as int == Wrap(sampleRate, W32)
  {
    if depth == 8 || depth == 16 || depth == 32 || depth == 64 then
      (Format(ToInt32(numChannels), ToInt32(sampleRate), depth as BitDepth), None)
    else
      (ZeroFormat, Some(InvalidBitDepth))
  }

  /** A successful `NewFormat` never yields the undefined depth, and keeps
      channel counts and rates that fit in 32 bits exactly. */
  lemma NewFormatKeepsFittingValues(numChannels: int, sampleRate: int, depth: int)
    requires NewFormat(numChannels, sampleRate, depth).1.None?
    requires InRange(W32, numChannels) && InRange(W32, sampleRate)
    ensures var f := NewFormat(numChannels, sampleRate, depth).0;
            f.bitDepth != BitDepthUndefined
            && f.numChannels as int == numChannels && f.sampleRateHertz as int == sampleRate
  {
  }
}
