/** The frame-skip pipeline: the per-frame step (score, decide, log whenever
    the timestamp's bucket of 10000 differs from the last logged one, stamp
    and encode kept frames) folded over the decoded
    frames that precede the first decode error, followed by the encoder's
    finish.

    The decoder and encoder are outside the model.  Decoder output is a
    sequence of `DecodeResult`s; what a run writes is two channels, the
    diagnostic lines and the frames handed to the encoder.  The rescaling of
    the output position into the encoder's time base is a parameter
    `rescale`, applied to the position counted in nominal ticks of 1/25 s. */
module FramePipeline {
  import opened RustTypes
  import opened Primitives
  import opened Scorer
  import opened SkipDecision

  /** Decoder timestamps are logged in buckets of this width. */
  const BUCKET_WIDTH: nat := 10000

  /** A decoded frame: its plane bytes and its decoder timestamp. */
  datatype Frame = Frame(data: seq<byte>, timestamp: int64)

  /** One item of the decoder's output. */
  datatype DecodeResult = Decoded(frame: Frame) | DecodeError

  /** A diagnostic line: the bucket, the decision, the normalized difference. */
  datatype LogLine = LogLine(bucket: nat, mustSkip: bool, normalized: nat)

  /** A frame handed to the encoder with the timestamp stamped on it. */
  datatype EncodedFrame = EncodedFrame(data: seq<byte>, pts: int)

  /** The state carried from frame to frame: the baseline, the last logged
      bucket, and the output position in ticks. */
  datatype FilterState = FilterState(baseline: seq<byte>, lastLogged: Option<nat>, position: nat)

  /** A run so far: its state and everything it has written. */
  datatype Run = Run(state: FilterState, log: seq<LogLine>, encoded: seq<EncodedFrame>)

  /** What a whole filter run leaves behind. */
  datatype Outcome = Outcome(log: seq<LogLine>, encoded: seq<EncodedFrame>, finished: bool)

  /** Empty baseline, nothing logged, position zero, nothing written. */
  const Initial: Run := Run(FilterState([], None, 0), [], [])

  /** The log bucket of a timestamp: its `usize` reinterpretation divided by
      the bucket width, truncated. */
  function Bucket(timestamp: int64): (b: nat)
    ensures b * BUCKET_WIDTH <= AsUsize(timestamp) < (b + 1) * BUCKET_WIDTH
  {
    AsUsize(timestamp) / BUCKET_WIDTH
  }

  // ---------------------------------------------------------------------------
  // One frame
  // ---------------------------------------------------------------------------

  /** One iteration of the decode loop.  The baseline is updated whatever the
      decision; a line is logged when the bucket differs from the last logged
      one; only a kept frame is stamped with the current position and moves
      it on by one tick. */
  function Step(r: Run, frame: Frame, rescale: nat -> int): (r': Run)
    ensures r'.state.lastLogged == Some(Bucket(frame.timestamp))
    ensures |r'.log| == |r.log| + if r.state.lastLogged == Some(Bucket(frame.timestamp)) then 0 else 1
    ensures r'.log[..|r.log|] == r.log
    ensures |r'.log| > |r.log| ==>
              && r'.log[|r.log|].bucket == Bucket(frame.timestamp)
              && (r'.log[|r.log|].mustSkip <==> r'.state.position == r.state.position)
              && r'.log[|r.log|].normalized == Normalized(Score(r.state.baseline, frame.data).frameDiff)
    ensures r'.state.position == r.state.position || r'.state.position == r.state.position + 1
    ensures r'.encoded
         == if r'.state.position == r.state.position then r.encoded
            else r.encoded + [EncodedFrame(frame.data, rescale(r.state.position))]
  {
    var st := r.state;
    var bucket := Bucket(frame.timestamp);
    var scored := Score(st.baseline, frame.data);
    var mustSkip := MustSkip(scored.frameDiff);
    var newBucket := st.lastLogged != Some(bucket);
    var log := if newBucket then r.log + [LogLine(bucket, mustSkip, Normalized(scored.frameDiff))] else r.log;
    var lastLogged := if newBucket then Some(bucket) else st.lastLogged;
    if mustSkip then
      Run(FilterState(scored.baseline, lastLogged, st.position), log, r.encoded)
    else
      Run(FilterState(scored.baseline, lastLogged, st.position + 1), log,
          r.encoded + [EncodedFrame(frame.data, rescale(st.position))])
  }

  /** A frame is kept, and the position moves, exactly when its score against
      the current baseline reaches the reference area; the baseline becomes the
      scored one either way. */
  lemma StepDecision(r: Run, frame: Frame, rescale: nat -> int)
    ensures var r' := Step(r, frame, rescale);
      && (r'.state.position == r.state.position + 1 <==> !MustSkip(Score(r.state.baseline, frame.data).frameDiff))
      && r'.state.baseline == Score(r.state.baseline, frame.data).baseline
  {
  }

  /** Cold start: the first frame of a run is logged, fills the baseline with
      one luma per triplet, and is never encoded. */
  lemma FirstFrameSkipped(frame: Frame, rescale: nat -> int)
    ensures var r := Step(Initial, frame, rescale);
      && r.state.position == 0
      && r.encoded == []
      && |r.log| == 1 && r.log[0].bucket == Bucket(frame.timestamp) && r.log[0].mustSkip
      && r.state.baseline
         == seq(|frame.data| / 3, k requires 0 <= k < |frame.data| / 3 => LumaAt(frame.data, k))
  {
    ColdStart(frame.data);
  }

  // ---------------------------------------------------------------------------
  // A run over decoded frames
  // ---------------------------------------------------------------------------

  /** The step folded over `frames` in decode order. */
  function RunFrames(r: Run, frames: seq<Frame>, rescale: nat -> int): Run
    decreases |frames|
  {
    if |frames| == 0 then r
    else Step(RunFrames(r, frames[..|frames| - 1], rescale), frames[|frames| - 1], rescale)
  }

  /** Running one more frame is one more step. */
  lemma RunFramesSnoc(r: Run, frames: seq<Frame>, frame: Frame, rescale: nat -> int)
    ensures RunFrames(r, frames + [frame], rescale) == Step(RunFrames(r, frames, rescale), frame, rescale)
  {
    assert (frames + [frame])[..|frames|] == frames;
  }

  /** The decoded frames before the first decode error. */
  function TakeOk(results: seq<DecodeResult>): (frames: seq<Frame>)
    ensures |frames| <= |results|
    ensures forall j :: 0 <= j < |frames| ==> results[j] == Decoded(frames[j])
    ensures |frames| == |results| || results[|frames|].DecodeError?
  {
    if |results| == 0 || results[0].DecodeError? then []
    else [results[0].frame] + TakeOk(results[1..])
  }

  /** A prefix of decoded frames that ends at the end or at an error is the
      one `TakeOk` returns. */
  lemma {:induction false} TakeOkUnique(results: seq<DecodeResult>, frames: seq<Frame>)
    requires |frames| <= |results|
    requires forall j :: 0 <= j < |frames| ==> results[j] == Decoded(frames[j])
    requires |frames| == |results| || results[|frames|].DecodeError?
    ensures TakeOk(results) == frames
  {
    if |frames| > 0 {
      TakeOkUnique(results[1..], frames[1..]);
    }
  }

  /** The whole filter: run over the frames before the first error, then
      finish the encoder. */
  function Process(results: seq<DecodeResult>, rescale: nat -> int): Outcome
  {
    var r := RunFrames(Initial, TakeOk(results), rescale);
    Outcome(r.log, r.encoded, true)
  }

  // ---------------------------------------------------------------------------
  // Reference definitions that ignore the decision and the log
  // ---------------------------------------------------------------------------

  /** The baseline after scoring every frame in turn. */
  function ScoreChain(baseline: seq<byte>, frames: seq<Frame>): seq<byte>
    decreases |frames|
  {
    if |frames| == 0 then baseline
    else Score(ScoreChain(baseline, frames[..|frames| - 1]), frames[|frames| - 1].data).baseline
  }

  /** The frames whose score against the chained baseline reaches the reference area. */
  function KeptFrames(baseline: seq<byte>, frames: seq<Frame>): seq<seq<byte>>
    decreases |frames|
  {
    if |frames| == 0 then []
    else
      var prior := frames[..|frames| - 1];
      var last := frames[|frames| - 1];
      KeptFrames(baseline, prior)
      + if MustSkip(Score(ScoreChain(baseline, prior), last.data).frameDiff) then [] else [last.data]
  }

  /** The bucket of every frame. */
  function Buckets(frames: seq<Frame>): seq<nat>
  {
    seq(|frames|, j requires 0 <= j < |frames| => Bucket(frames[j].timestamp))
  }

  /** The entries of `bs` that differ from their predecessor (the first always does). */
  function ChangePoints(bs: seq<nat>): seq<nat>
    decreases |bs|
  {
    if |bs| == 0 then []
    else
      ChangePoints(bs[..|bs| - 1])
      + if |bs| == 1 || bs[|bs| - 1] != bs[|bs| - 2] then [bs[|bs| - 1]] else []
  }

  /** The frame bytes of the encoded frames. */
  function EncodedData(encoded: seq<EncodedFrame>): seq<seq<byte>>
  {
    seq(|encoded|, j requires 0 <= j < |encoded| => encoded[j].data)
  }

  /** The buckets of the logged lines. */
  function LoggedBuckets(log: seq<LogLine>): seq<nat>
  {
    seq(|log|, j requires 0 <= j < |log| => log[j].bucket)
  }

  // ---------------------------------------------------------------------------
  // Properties of a run
  // ---------------------------------------------------------------------------

  /** Skipped frames update the baseline too: after a run it is the result of
      scoring every frame, kept or not. */
  lemma {:induction false} RunScoresEveryFrame(r: Run, frames: seq<Frame>, rescale: nat -> int)
    ensures RunFrames(r, frames, rescale).state.baseline == ScoreChain(r.state.baseline, frames)
    decreases |frames|
  {
    if |frames| > 0 {
      var prior := frames[..|frames| - 1];
      RunScoresEveryFrame(r, prior, rescale);
      StepDecision(RunFrames(r, prior, rescale), frames[|frames| - 1], rescale);
    }
  }

  /** The encoder receives exactly the frames whose chained score reaches the
      reference area, in decode order, after whatever the run had already encoded. */
  lemma {:induction false} RunEncodesKeptFrames(r: Run, frames: seq<Frame>, rescale: nat -> int)
    ensures EncodedData(RunFrames(r, frames, rescale).encoded)
         == EncodedData(r.encoded) + KeptFrames(r.state.baseline, frames)
    decreases |frames|
  {
    if |frames| > 0 {
      var prior := frames[..|frames| - 1];
      var last := frames[|frames| - 1];
      var prev := RunFrames(r, prior, rescale);
      RunEncodesKeptFrames(r, prior, rescale);
      RunScoresEveryFrame(r, prior, rescale);
      StepDecision(prev, last, rescale);
      var next := Step(prev, last, rescale);
      if next.state.position != prev.state.position {
        assert EncodedData(next.encoded) == EncodedData(prev.encoded) + [last.data];
      }
    }
  }

  /** `r'` has encoded what `r` had, then one frame per tick it moved on:
      the k-th new frame is stamped with `r`'s position plus k ticks. */
  predicate StampsConsecutiveTicks(r: Run, r': Run, rescale: nat -> int) {
    && r'.state.position - r.state.position == |r'.encoded| - |r.encoded| >= 0
    && r'.encoded[..|r.encoded|] == r.encoded
    && forall j :: |r.encoded| <= j < |r'.encoded| ==>
         r'.encoded[j].pts == rescale(r.state.position + (j - |r.encoded|))
  }

  /** The encoded frames of a run extend those it started with; the k-th new
      one is stamped with the start position plus k ticks, whatever was
      skipped in between; and the position moves by one tick per new one. */
  lemma {:induction false} RunStampsConsecutiveTicks(r: Run, frames: seq<Frame>, rescale: nat -> int)
    ensures StampsConsecutiveTicks(r, RunFrames(r, frames, rescale), rescale)
    decreases |frames|
  {
    if |frames| > 0 {
      var prior := frames[..|frames| - 1];
      RunStampsConsecutiveTicks(r, prior, rescale);
      StampsStep(r, RunFrames(r, prior, rescale), frames[|frames| - 1], rescale);
    }
  }

  /** One step keeps the stamping invariant. */
  lemma StampsStep(r: Run, prev: Run, frame: Frame, rescale: nat -> int)
    requires StampsConsecutiveTicks(r, prev, rescale)
    ensures StampsConsecutiveTicks(r, Step(prev, frame, rescale), rescale)
  {
    var next := Step(prev, frame, rescale);
    assert next.encoded[..|prev.encoded|] == prev.encoded;
    assert next.encoded[..|r.encoded|] == prev.encoded[..|r.encoded|];
    forall j | |r.encoded| <= j < |next.encoded|
      ensures next.encoded[j].pts == rescale(r.state.position + (j - |r.encoded|))
    {
      if j < |prev.encoded| {
        assert next.encoded[j] == prev.encoded[j];
      }
    }
  }

  /** Starting with nothing logged, a line is logged for a frame exactly when
      its bucket differs from the previous frame's. */
  lemma {:induction false} RunLogsChangePoints(r: Run, frames: seq<Frame>, rescale: nat -> int)
    requires r.state.lastLogged == None
    ensures LoggedBuckets(RunFrames(r, frames, rescale).log)
         == LoggedBuckets(r.log) + ChangePoints(Buckets(frames))
    decreases |frames|
  {
    if |frames| > 0 {
      var prior := frames[..|frames| - 1];
      var last := frames[|frames| - 1];
      RunLogsChangePoints(r, prior, rescale);
      if |prior| > 0 {
        LastLoggedIsLastBucket(r, prior, rescale);
      }
      assert frames == prior + [last];
      LogsChangePointsStep(r.log, RunFrames(r, prior, rescale), prior, last, rescale);
    }
  }

  /** The induction step of `RunLogsChangePoints`, stated on the run before
      the last frame. */
  lemma LogsChangePointsStep(log: seq<LogLine>, prev: Run, prior: seq<Frame>, last: Frame, rescale: nat -> int)
    requires LoggedBuckets(prev.log) == LoggedBuckets(log) + ChangePoints(Buckets(prior))
    requires |prior| == 0 ==> prev.state.lastLogged == None
    requires |prior| > 0 ==> prev.state.lastLogged == Some(Bucket(prior[|prior| - 1].timestamp))
    ensures LoggedBuckets(Step(prev, last, rescale).log)
         == LoggedBuckets(log) + ChangePoints(Buckets(prior + [last]))
  {
    var b := Bucket(last.timestamp);
    LogStep(prev, last, rescale);
    BucketsSnoc(prior + [last]);
    assert (prior + [last])[..|prior|] == prior;
    ChangePointsSnoc(Buckets(prior), b);
    var changes := ChangePoints(Buckets(prior));
    var tail := if prev.state.lastLogged == Some(b) then [] else [b];
    assert ChangePoints(Buckets(prior + [last])) == changes + tail;
    ConcatAssoc(LoggedBuckets(log), changes, tail);
  }

  /** Concatenation is associative. */
  lemma ConcatAssoc<T>(a: seq<T>, b: seq<T>, c: seq<T>)
    ensures (a + b) + c == a + (b + c)
  {
  }

  /** One step appends its bucket to the logged buckets exactly when it
      differs from the last logged one. */
  lemma LogStep(r: Run, frame: Frame, rescale: nat -> int)
    ensures var b := Bucket(frame.timestamp);
      LoggedBuckets(Step(r, frame, rescale).log)
      == LoggedBuckets(r.log) + if r.state.lastLogged == Some(b) then [] else [b]
  {
  }

  /** The buckets of a nonempty run are those of its prefix and the last frame's. */
  lemma BucketsSnoc(frames: seq<Frame>)
    requires |frames| > 0
    ensures Buckets(frames) == Buckets(frames[..|frames| - 1]) + [Bucket(frames[|frames| - 1].timestamp)]
  {
  }

  /** One more bucket is a change point exactly when it differs from the last. */
  lemma ChangePointsSnoc(bs: seq<nat>, b: nat)
    ensures ChangePoints(bs + [b]) == ChangePoints(bs) + if |bs| == 0 || b != bs[|bs| - 1] then [b] else []
  {
    assert (bs + [b])[..|bs|] == bs;
  }

  /** After a nonempty run the last logged bucket is the last frame's. */
  lemma LastLoggedIsLastBucket(r: Run, frames: seq<Frame>, rescale: nat -> int)
    requires |frames| > 0
    ensures RunFrames(r, frames, rescale).state.lastLogged == Some(Bucket(frames[|frames| - 1].timestamp))
  {
  }

  /** The log never influences the baseline, the position or what is encoded. */
  lemma {:induction false} LoggingDoesNotAffectOutput(r1: Run, r2: Run, frames: seq<Frame>, rescale: nat -> int)
    requires r1.state.baseline == r2.state.baseline
    requires r1.state.position == r2.state.position
    requires r1.encoded == r2.encoded
    ensures var out1 := RunFrames(r1, frames, rescale);
      var out2 := RunFrames(r2, frames, rescale);
      && out1.state.baseline == out2.state.baseline
      && out1.state.position == out2.state.position
      && out1.encoded == out2.encoded
    decreases |frames|
  {
    if |frames| > 0 {
      var prior := frames[..|frames| - 1];
      LoggingDoesNotAffectOutput(r1, r2, prior, rescale);
      StepDecision(RunFrames(r1, prior, rescale), frames[|frames| - 1], rescale);
      StepDecision(RunFrames(r2, prior, rescale), frames[|frames| - 1], rescale);
    }
  }

  // ---------------------------------------------------------------------------
  // Properties of the whole filter
  // ---------------------------------------------------------------------------

  /** Results after the first decode error are never inspected. */
  lemma ProcessStopsAtFirstError(results: seq<DecodeResult>, e: nat, rescale: nat -> int)
    requires e < |results| && results[e].DecodeError?
    ensures TakeOk(results) == TakeOk(results[..e])
    ensures Process(results, rescale) == Process(results[..e], rescale)
  {
    var cut := TakeOk(results[..e]);
    if |cut| == e {
      assert results[|cut|].DecodeError?;
    }
    TakeOkUnique(results, cut);
  }

  /** The encoder receives exactly the kept frames of the decoded prefix. */
  lemma ProcessEncodesKeptFrames(results: seq<DecodeResult>, rescale: nat -> int)
    ensures EncodedData(Process(results, rescale).encoded) == KeptFrames([], TakeOk(results))
  {
    RunEncodesKeptFrames(Initial, TakeOk(results), rescale);
    assert EncodedData([]) == [];
  }

  /** The k-th encoded frame is stamped with `rescale(k)`: 0, 1, 2, ... ticks. */
  lemma ProcessStampsTicks(results: seq<DecodeResult>, rescale: nat -> int)
    ensures var encoded := Process(results, rescale).encoded;
      forall j :: 0 <= j < |encoded| ==> encoded[j].pts == rescale(j)
  {
    var frames := TakeOk(results);
    var r := RunFrames(Initial, frames, rescale);
    RunStampsConsecutiveTicks(Initial, frames, rescale);
    assert StampsConsecutiveTicks(Initial, r, rescale);
    assert Process(results, rescale).encoded == r.encoded;
    forall j | 0 <= j < |r.encoded|
      ensures r.encoded[j].pts == rescale(j)
    {
      assert r.encoded[j].pts == rescale(Initial.state.position + (j - |Initial.encoded|));
    }
  }

  /** The diagnostic log holds one line per change of bucket. */
  lemma ProcessLogsChangePoints(results: seq<DecodeResult>, rescale: nat -> int)
    ensures LoggedBuckets(Process(results, rescale).log) == ChangePoints(Buckets(TakeOk(results)))
  {
    RunLogsChangePoints(Initial, TakeOk(results), rescale);
    assert LoggedBuckets([]) == [];
  }

  /** Under the hypothesis that rescaling is strictly increasing, the
      timestamps handed to the encoder strictly increase. */
  lemma ProcessStampsIncrease(results: seq<DecodeResult>, rescale: nat -> int)
    requires forall x: nat, y: nat :: x < y ==> rescale(x) < rescale(y)
    ensures var encoded := Process(results, rescale).encoded;
      forall i, j :: 0 <= i < j < |encoded| ==> encoded[i].pts < encoded[j].pts
  {
    ProcessStampsTicks(results, rescale);
  }

  // ---------------------------------------------------------------------------
  // The decode loop
  // ---------------------------------------------------------------------------

  /** The body of the decode loop as the source writes it: score with the
      byte walk, divide by the reference area, log on a bucket change, and
      encode a kept frame at the current position. */
  method FilterFrame(r: Run, frame: Frame, rescale: nat -> int) returns (r': Run)
    ensures r' == Step(r, frame, rescale)
  {
    var st := r.state;
    var bucket := Bucket(frame.timestamp);
    var before, frameDiff := ScoreInPlace(st.baseline, frame.data);
    var normalized := Normalized(frameDiff);
    var mustSkip := normalized == 0;
    var log := r.log;
    var lastLogged := st.lastLogged;
    if lastLogged != Some(bucket) {
      log := log + [LogLine(bucket, mustSkip, normalized)];
      lastLogged := Some(bucket);
    }
    if mustSkip {
      r' := Run(FilterState(before, lastLogged, st.position), log, r.encoded);
    } else {
      var encoded := r.encoded + [EncodedFrame(frame.data, rescale(st.position))];
      r' := Run(FilterState(before, lastLogged, st.position + 1), log, encoded);
    }
  }

  /** The decode loop: take results while they are frames, filter each,
      then finish the encoder. */
  method ProcessStream(results: seq<DecodeResult>, rescale: nat -> int) returns (outcome: Outcome)
    ensures outcome == Process(results, rescale)
  {
    var r := Initial;
    ghost var frames: seq<Frame> := [];
    var i := 0;
    while i < |results| && results[i].Decoded?
      invariant 0 <= i <= |results|
      invariant |frames| == i
      invariant forall j :: 0 <= j < i ==> results[j] == Decoded(frames[j])
      invariant RunFrames(Initial, frames, rescale) == r
    {
      var frame := results[i].frame;
      DecodedPrefixExtends(results, frames);
      r := FilterNext(r, frames, frame, rescale);
      frames := frames + [frame];
      i := i + 1;
    }
    TakeOkUnique(results, frames);
    outcome := Outcome(r.log, r.encoded, true);
  }

  /** The decoded prefix grows by the next result when that is a frame. */
  lemma DecodedPrefixExtends(results: seq<DecodeResult>, frames: seq<Frame>)
    requires |frames| < |results| && results[|frames|].Decoded?
    requires forall j :: 0 <= j < |frames| ==> results[j] == Decoded(frames[j])
    ensures forall j :: 0 <= j < |frames| + 1 ==> results[j] == Decoded((frames + [results[|frames|].frame])[j])
  {
  }

  /** One turn of the decode loop, stated against the fold. */
  method FilterNext(r: Run, ghost frames: seq<Frame>, frame: Frame, rescale: nat -> int) returns (r': Run)
    requires r == RunFrames(Initial, frames, rescale)
    ensures r' == RunFrames(Initial, frames + [frame], rescale)
  {
    RunFramesSnoc(Initial, frames, frame, rescale);
    r' := FilterFrame(r, frame, rescale);
  }
}
