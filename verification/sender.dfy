/** The send side of pkg/speechly/slu/handler.go: the START request sent
    when the handler is created, the loop that forwards audio from the
    audio source, and the STOP request and source close that end it. */
module Sender {
  import opened Wrappers
  import opened GoInts
  import opened SluErrors

  datatype Request = StartReq | AudioReq(audio: seq<byte>) | StopReq

  /** One iteration of the audio loop as the loop sees it: the handler was
      closed before it, or the audio source's `WriteTo` produced `data` and
      returned nil, produced `data` and returned `io.EOF`, or failed. */
  datatype Pull = Cancelled | Chunk(data: seq<byte>) | Last(data: seq<byte>) | PullFailed(reason: string)

  // ---------------------------------------------------------------------
  // Reference: what the audio source offers
  // ---------------------------------------------------------------------

  /** The audio payloads the audio source offers, in order, up to and including
      the one that came with `io.EOF`, and none after the handler was
      closed or the audio source failed. A source with nothing more to offer
      reads as `io.EOF` with no data. */
  function Payloads(pulls: seq<Pull>): seq<seq<byte>>
    decreases |pulls|
  {
    if |pulls| == 0 then [[]]
    else
      match pulls[0]
      case Chunk(d) => [d] + Payloads(pulls[1..])
      case Last(d) => [d]
      case _ => []
  }

  /** How the audio source ends the loop: `None` for `io.EOF`, otherwise the
      error the loop returns. */
  function Stopper(pulls: seq<Pull>): Option<Error>
    decreases |pulls|
  {
    if |pulls| == 0 then None
    else
      match pulls[0]
      case Chunk(_) => Stopper(pulls[1..])
      case Last(_) => None
      case Cancelled => Some(Canceled)
      case PullFailed(reason) => Some(External(reason))
  }

  function AudioRequests(ps: seq<seq<byte>>): (rs: seq<Request>)
    ensures |rs| == |ps|
    ensures forall i :: 0 <= i < |ps| ==> rs[i] == AudioReq(ps[i])
  {
    seq(|ps|, i requires 0 <= i < |ps| => AudioReq(ps[i]))
  }

  // ---------------------------------------------------------------------
  // The loop
  // ---------------------------------------------------------------------

  /** The requests the loop attempted to send, in order, and the error it
      returned. */
  datatype LoopRun = LoopRun(attempts: seq<Request>, err: Option<Error>)

  /** The audio loop. The stream accepts its first `accepted` requests and
      rejects every later one; `sent` requests have gone before. Every
      payload is sent, the one that came with `io.EOF` included, until the
      audio source ends the loop or a send is rejected. */
  function AudioLoop(pulls: seq<Pull>, sent: nat, accepted: nat): (r: LoopRun)
    requires sent <= accepted
    ensures sent + |Payloads(pulls)| <= accepted ==>
              r.attempts == AudioRequests(Payloads(pulls)) && r.err == Stopper(pulls)
    ensures sent + |Payloads(pulls)| > accepted ==>
              r.attempts == AudioRequests(Payloads(pulls))[..accepted - sent + 1] && r.err == Some(SendFailed)
    decreases |pulls|
  {
    if |pulls| == 0 then
      if sent < accepted then LoopRun([AudioReq([])], None) else LoopRun([AudioReq([])], Some(SendFailed))
    else
      match pulls[0]
      case Cancelled => LoopRun([], Some(Canceled))
      case PullFailed(reason) => LoopRun([], Some(External(reason)))
      case Last(d) =>
        if sent < accepted then LoopRun([AudioReq(d)], None) else LoopRun([AudioReq(d)], Some(SendFailed))
      case Chunk(d) =>
        if sent < accepted then
          var rest := AudioLoop(pulls[1..], sent + 1, accepted);
          assert AudioRequests(Payloads(pulls)) == [AudioReq(d)] + AudioRequests(Payloads(pulls[1..]));
          LoopRun([AudioReq(d)] + rest.attempts, rest.err)
        else
          LoopRun([AudioReq(d)], Some(SendFailed))
  }

  // ---------------------------------------------------------------------
  // The whole send side
  // ---------------------------------------------------------------------

  /** Every request the handler attempted, in order; the error of the
      handler's creation (START rejected) or of its audio loop; and
      whether the audio source was closed. A rejected STOP is only
      logged. */
  datatype SenderRun = SenderRun(attempted: seq<Request>, err: Option<Error>, sourceClosed: bool)

  function Open(pulls: seq<Pull>, accepted: nat): (r: SenderRun)
    ensures |r.attempted| > 0 && r.attempted[0] == StartReq
    ensures accepted == 0 ==> r == SenderRun([StartReq], Some(SendFailed), false)
    ensures accepted > 0 ==>
              && r.sourceClosed
              && |r.attempted| >= 2 && r.attempted[|r.attempted| - 1] == StopReq
              && r.attempted[1..|r.attempted| - 1] <= AudioRequests(Payloads(pulls))
  {
    if accepted == 0 then SenderRun([StartReq], Some(SendFailed), false)
    else
      var l := AudioLoop(pulls, 1, accepted);
      var r := SenderRun([StartReq] + l.attempts + [StopReq], l.err, true);
      assert r.attempted[1..|r.attempted| - 1] == l.attempts;
      r
  }

  /** START is sent exactly once, first, and STOP at most once, last: no
      audio goes out before START or after STOP. */
  lemma StartAndStopFrame(pulls: seq<Pull>, accepted: nat)
    ensures var a := Open(pulls, accepted).attempted;
            && multiset(a)[StartReq] == 1
            && multiset(a)[StopReq] == (if accepted == 0 then 0 else 1)
            && forall i :: 0 < i < |a| - 1 ==> a[i].AudioReq?
  {
    var a := Open(pulls, accepted).attempted;
    if accepted > 0 {
      var mid := a[1..|a| - 1];
      assert a == [StartReq] + mid + [StopReq];
      assert forall i :: 0 <= i < |mid| ==> mid[i].AudioReq?;
      assert StartReq !in mid && StopReq !in mid;
      assert multiset(a) == multiset([StartReq]) + multiset(mid) + multiset([StopReq]);
    }
  }

  /** With a stream that accepts everything, the handler sends START, every
      payload the audio source offers in order (the last one included), and STOP,
      and ends with the audio source's error if it had one. */
  lemma EveryPayloadForwarded(pulls: seq<Pull>, accepted: nat)
    requires accepted >= |Payloads(pulls)| + 1
    ensures Open(pulls, accepted) ==
              SenderRun([StartReq] + AudioRequests(Payloads(pulls)) + [StopReq], Stopper(pulls), true)
  {
  }

  /** A source that delivers some chunks and then a final chunk with
      `io.EOF` has all of them, the final one too, forwarded. */
  lemma {:induction false} FinalChunkIsForwarded(chunks: seq<seq<byte>>, last: seq<byte>)
    ensures var pulls := seq(|chunks|, i requires 0 <= i < |chunks| => Chunk(chunks[i])) + [Last(last)];
            Payloads(pulls) == chunks + [last] && Stopper(pulls).None?
    decreases |chunks|
  {
    var pulls := seq(|chunks|, i requires 0 <= i < |chunks| => Chunk(chunks[i])) + [Last(last)];
    if |chunks| > 0 {
      FinalChunkIsForwarded(chunks[1..], last);
      assert pulls[1..] == seq(|chunks[1..]|, i requires 0 <= i < |chunks[1..]| => Chunk(chunks[1..][i])) + [Last(last)];
      assert chunks + [last] == [chunks[0]] + (chunks[1..] + [last]);
    }
  }

  /** Once a send is rejected the loop stops: the handler attempts exactly
      one audio request past the last accepted one, then STOP. */
  lemma RejectedSendStops(pulls: seq<Pull>, accepted: nat)
    requires 0 < accepted < |Payloads(pulls)| + 1
    ensures Open(pulls, accepted).err == Some(SendFailed)
    ensures |Open(pulls, accepted).attempted| == accepted + 2
  {
  }
}
