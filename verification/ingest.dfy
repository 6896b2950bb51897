/** The ingestion loop: extract a frame, decode it, apply its readings, and
    start serving scrapes after the first frame that decodes. The JSON
    decoder is a parameter: any total function from frame bytes to an
    optional reading array. */
module Ingest {
  import opened Wrappers
  import opened Frames
  import opened Publisher

  /** Decodes a frame's bytes to the reading array it carries, or fails. */
  type Decoder = seq<byte> -> Option<seq<real>>

  /** The loop's state: the published metrics and whether the scrape server
      has been started. */
  datatype Session = Session(metrics: Metrics, serving: bool)

  /** State before the first frame: initial metrics, server not started. */
  const Start: Session := Session(Initial, false)

  /** Handles one extracted frame. */
  function HandleFrame(sess: Session, frame: seq<byte>, decode: Decoder): (r: Session)
    // a frame that does not decode is skipped without any effect
    ensures decode(frame).None? ==> r == sess
    // a decoded frame is applied, and the server is running afterwards
    ensures decode(frame).Some? ==>
              r.serving && r.metrics == SetMeasurements(sess.metrics, decode(frame).value)
    ensures Valid(sess.metrics) ==> Valid(r.metrics)
  {
    match decode(frame)
    case None => sess
    case Some(data) => Session(SetMeasurements(sess.metrics, data), true)
  }

  /** Runs the loop over everything the connection delivers, until extraction
      fails and the loop gives up. */
  function Run(sess: Session, stream: seq<byte>, decode: Decoder): (r: Session)
    ensures Valid(sess.metrics) ==> Valid(r.metrics)
    ensures sess.serving ==> r.serving
    decreases |stream|
  {
    match NextFrame(stream)
    case Failure(_) => sess
    case Success(e) => Run(HandleFrame(sess, e.frame, decode), e.rest, decode)
  }

  /** The reading arrays of the frames that decode, in stream order. */
  function DecodeAll(frames: seq<seq<byte>>, decode: Decoder): (records: seq<seq<real>>)
    ensures |records| <= |frames|
    ensures |records| == 0 <==> forall k :: 0 <= k < |frames| ==> decode(frames[k]).None?
  {
    if |frames| == 0 then []
    else
      match decode(frames[0])
      case None => DecodeAll(frames[1..], decode)
      case Some(data) => [data] + DecodeAll(frames[1..], decode)
  }

  /** The loop applies, in order, exactly the frames that decode: frames that
      fail to decode are skipped and the loop carries on with the next one.
      The server is running at the end exactly when it already was or some
      frame decoded. */
  lemma {:induction false} RunAppliesDecodedFrames(sess: Session, stream: seq<byte>, decode: Decoder)
    ensures Run(sess, stream, decode).metrics == ApplyAll(sess.metrics, DecodeAll(AllFrames(stream), decode))
    ensures Run(sess, stream, decode).serving <==> sess.serving || |DecodeAll(AllFrames(stream), decode)| > 0
    decreases |stream|
  {
    match NextFrame(stream)
    case Failure(_) =>
    case Success(e) =>
      var fs := AllFrames(stream);
      assert fs[0] == e.frame && fs[1..] == AllFrames(e.rest);
      RunAppliesDecodedFrames(HandleFrame(sess, e.frame, decode), e.rest, decode);
  }

  /** From process start, the last state published before reading the
      connection fails is decided by the last complete record among the
      decoded frames. */
  lemma RunFromStartFollowsLastComplete(stream: seq<byte>, decode: Decoder)
    ensures var r := Run(Start, stream, decode);
            var records := DecodeAll(AllFrames(stream), decode);
            && Valid(r.metrics)
            && (LastComplete(records).None? ==> r.metrics == Initial)
            && (LastComplete(records).Some? ==>
                  (Publishing(r.metrics) <==> GridUp(records[LastComplete(records).value][FrequencyIndex])))
  {
    RunAppliesDecodedFrames(Start, stream, decode);
    InitialValid();
    ApplyAllFollowsLastComplete(Initial, DecodeAll(AllFrames(stream), decode));
  }
}
