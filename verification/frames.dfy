/** The frame extractor: recovers candidate JSON-object frames from the raw
    byte stream sent by the inverter by a naive brace scan. Bytes are
    discarded up to the next `{`; from that `{` the frame runs up to and
    including the next `}`. Nesting and string literals are not tracked.

    The connection is modelled as the finite sequence of bytes it will ever
    deliver. Running out of bytes stands for the read error on which the
    original loop panics and ends ingestion. */
module Frames {
  import opened Wrappers

  newtype byte = x: int | 0 <= x < 256

  /** ASCII `{` */
  const OpenBrace: byte := 0x7B
  /** ASCII `}` */
  const CloseBrace: byte := 0x7D

  /** Why no further frame can be extracted: the stream ended while still
      skipping noise, or after the opening brace but before a closing one. */
  datatype ExtractError = NoOpenBrace | NoCloseBrace

  /** One extraction step: the noise skipped before the frame, the frame
      itself, and the bytes left unread in the stream. */
  datatype Extraction = Extraction(skipped: seq<byte>, frame: seq<byte>, rest: seq<byte>)

  /** Position of the first occurrence of `b` in `s`, if any. */
  function IndexOf(s: seq<byte>, b: byte): (r: Option<nat>)
    ensures r.None? <==> b !in s
    ensures r.Some? ==> r.value < |s| && s[r.value] == b && b !in s[..r.value]
  {
    if |s| == 0 then None
    else if s[0] == b then Some(0)
    else
      match IndexOf(s[1..], b)
      case None => None
      case Some(i) =>
        assert s[..i + 1] == [s[0]] + s[1..][..i];
        Some(i + 1)
  }

  /** A candidate frame: opens with `{` and closes with its first `}`. */
  predicate IsFrame(f: seq<byte>)
  {
    && |f| >= 2
    && f[0] == OpenBrace
    && f[|f| - 1] == CloseBrace
    && CloseBrace !in f[..|f| - 1]
  }

  /** `e` is a correct answer for stream `s`: skipped noise holds no `{`,
      the frame is a candidate frame, and the three parts put back together
      give the stream. */
  predicate IsFrameSplit(s: seq<byte>, e: Extraction)
  {
    && e.skipped + e.frame + e.rest == s
    && OpenBrace !in e.skipped
    && IsFrame(e.frame)
  }

  /** The next frame of the stream, as the scan in the source finds it: skip
      to the first `{`, push it back, then read through the next `}`. */
  function NextFrame(s: seq<byte>): (r: Result<Extraction, ExtractError>)
    ensures r.Success? ==> IsFrameSplit(s, r.value)
    ensures r.Success? ==> |r.value.rest| < |s|
    ensures r == Failure(NoOpenBrace) <==> OpenBrace !in s
  {
    match IndexOf(s, OpenBrace)
    case None => Failure(NoOpenBrace)
    case Some(i) =>
      match IndexOf(s[i..], CloseBrace)
      case None => Failure(NoCloseBrace)
      case Some(j) =>
        SplitAtBraces(s, i, j);
        Success(Extraction(s[..i], s[i..i + j + 1], s[i + j + 1..]))
  }

  /** Cutting the stream before its first `{` and after the first `}` that
      follows it gives a frame split. */
  lemma SplitAtBraces(s: seq<byte>, i: nat, j: nat)
    requires i < |s| && s[i] == OpenBrace && OpenBrace !in s[..i]
    requires i + j < |s| && s[i + j] == CloseBrace && CloseBrace !in s[i..][..j]
    ensures IsFrameSplit(s, Extraction(s[..i], s[i..i + j + 1], s[i + j + 1..]))
  {
    var f := s[i..i + j + 1];
    assert f[..|f| - 1] == s[i..][..j];
    assert s[..i] + f + s[i + j + 1..] == s;
  }

  /** The stream ends inside a frame exactly when it holds a `{` but no `}`
      follows any `{`. */
  lemma NoCloseBraceCharacterized(s: seq<byte>)
    ensures NextFrame(s) == Failure(NoCloseBrace) <==>
              OpenBrace in s &&
              forall k :: 0 <= k < |s| && s[k] == OpenBrace ==> CloseBrace !in s[k..]
  {
    match IndexOf(s, OpenBrace)
    case None =>
    case Some(i) =>
      forall k | i <= k <= |s|
        ensures s[k..] == s[i..][k - i..]
      {
      }
      if IndexOf(s[i..], CloseBrace).Some? {
        assert CloseBrace in s[i..];
      }
  }

  /** The conditions of `IsFrameSplit` pin the answer down: any split that
      meets them is exactly what `NextFrame` returns. */
  lemma FrameSplitUnique(s: seq<byte>, e: Extraction)
    requires IsFrameSplit(s, e)
    ensures NextFrame(s) == Success(e)
  {
    var n := |e.skipped|;
    var m := |e.frame|;
    assert s[..n] == e.skipped;
    assert s[n] == OpenBrace;
    assert OpenBrace in s;
    assert IndexOf(s, OpenBrace) == Some(n);
    var t := s[n..];
    assert t[..m] == e.frame;
    assert t[m - 1] == CloseBrace;
    assert IndexOf(t, CloseBrace) == Some(m - 1);
    assert s[..n] + s[n..n + m] + s[n + m..] == s;
    assert s[n + m..] == e.rest;
  }

  /** Extraction fails exactly when the stream admits no frame split at all. */
  lemma NextFrameFailsIffNoSplit(s: seq<byte>)
    ensures NextFrame(s).Failure? <==> forall e :: !IsFrameSplit(s, e)
  {
    forall e | IsFrameSplit(s, e)
      ensures NextFrame(s) == Success(e)
    {
      FrameSplitUnique(s, e);
    }
  }

  /** The extraction step in imperative form: the skip loop reads byte by
      byte until a `{` and pushes it back; `ReadBytes('}')` is then written as
      a loop that accumulates bytes through the next `}`. */
  method ScanFrame(s: seq<byte>) returns (r: Result<Extraction, ExtractError>)
    ensures r.Success? ==> IsFrameSplit(s, r.value)
    ensures r == NextFrame(s)
  {
    var i := 0;
    while i < |s| && s[i] != OpenBrace
      invariant 0 <= i <= |s|
      invariant OpenBrace !in s[..i]
    {
      i := i + 1;
    }
    if i == |s| {
      assert s[..i] == s;
      return Failure(NoOpenBrace);
    }
    var j := i;
    while j < |s| && s[j] != CloseBrace
      invariant i <= j <= |s|
      invariant CloseBrace !in s[i..j]
    {
      j := j + 1;
    }
    if j == |s| {
      assert s[i..j] == s[i..];
      return Failure(NoCloseBrace);
    }
    var e := Extraction(s[..i], s[i..j + 1], s[j + 1..]);
    assert e.frame[..|e.frame| - 1] == s[i..j];
    assert e.skipped + e.frame + e.rest == s;
    FrameSplitUnique(s, e);
    r := Success(e);
  }

  /** Every frame the ingestion loop extracts from the stream, in order,
      until extraction fails and the connection is given up. */
  function AllFrames(s: seq<byte>): (fs: seq<seq<byte>>)
    ensures forall k :: 0 <= k < |fs| ==> IsFrame(fs[k])
    decreases |s|
  {
    match NextFrame(s)
    case Failure(_) => []
    case Success(e) => [e.frame] + AllFrames(e.rest)
  }

  /** A stream the device could send: for each frame some noise free of `{`,
      then `{`, a body free of `}`, and `}`. */
  function Emit(noise: seq<seq<byte>>, bodies: seq<seq<byte>>): seq<byte>
    requires |noise| == |bodies|
  {
    if |noise| == 0 then []
    else noise[0] + [OpenBrace] + bodies[0] + [CloseBrace] + Emit(noise[1..], bodies[1..])
  }

  /** The frames `{body}` of the given bodies, in order. */
  function Wrap(bodies: seq<seq<byte>>): (fs: seq<seq<byte>>)
    ensures |fs| == |bodies|
    ensures forall k :: 0 <= k < |fs| ==> fs[k] == [OpenBrace] + bodies[k] + [CloseBrace]
  {
    if |bodies| == 0 then []
    else [[OpenBrace] + bodies[0] + [CloseBrace]] + Wrap(bodies[1..])
  }

  /** Noise free of `{` followed by `{body}` with a body free of `}` is
      extracted as that frame, leaving what follows. */
  lemma FirstFrameOfWellFormed(noise: seq<byte>, body: seq<byte>, rest: seq<byte>)
    requires OpenBrace !in noise && CloseBrace !in body
    ensures NextFrame(noise + ([OpenBrace] + body + [CloseBrace]) + rest) ==
            Success(Extraction(noise, [OpenBrace] + body + [CloseBrace], rest))
  {
    var frame := [OpenBrace] + body + [CloseBrace];
    assert frame[..|frame| - 1] == [OpenBrace] + body;
    FrameSplitUnique(noise + frame + rest, Extraction(noise, frame, rest));
  }

  /** N well-formed frames interleaved with noise, followed by a tail from
      which no frame can be extracted, yield exactly those N frames. */
  lemma {:induction false} AllFramesOfWellFormedStream(noise: seq<seq<byte>>, bodies: seq<seq<byte>>, tail: seq<byte>)
    requires |noise| == |bodies|
    requires forall k :: 0 <= k < |noise| ==> OpenBrace !in noise[k]
    requires forall k :: 0 <= k < |bodies| ==> CloseBrace !in bodies[k]
    requires NextFrame(tail).Failure?
    ensures AllFrames(Emit(noise, bodies) + tail) == Wrap(bodies)
    decreases |noise|
  {
    if |noise| == 0 {
      assert Emit(noise, bodies) + tail == tail;
    } else {
      var frame := [OpenBrace] + bodies[0] + [CloseBrace];
      var rest := Emit(noise[1..], bodies[1..]) + tail;
      assert Emit(noise, bodies) + tail == noise[0] + frame + rest;
      FirstFrameOfWellFormed(noise[0], bodies[0], rest);
      AllFramesOfWellFormedStream(noise[1..], bodies[1..], tail);
    }
  }
}
