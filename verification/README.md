# Frame-skip filter model

A Dafny model of the core of a screen-recording shortener. A long, mostly
static recording is first sped up by an external tool. The frames that barely
differ from their predecessor are then dropped, and the survivors are
re-encoded with consecutive timestamps. The model covers two parts:

- `process` in `src/ffmpeg.rs`, the frame filter:
  - the per-byte scorer, with its 16-bit accumulator and its baseline lookup
    at the byte index;
  - the noise threshold of 50;
  - the skip decision `frame_diff / MAX_DIFF == 0`;
  - the diagnostic line, logged whenever the timestamp's bucket of 10000
    differs from the last logged one (one line per change of bucket);
  - the stamping of kept frames at consecutive output ticks;
  - the `take_while(is_ok)` decode loop, followed by the encoder's finish.
- `get_video_duration` in `src/main.rs`, the duration probe:
  - the exit-status check;
  - the split of the prober's report at every newline;
  - the search for the first line starting with `duration=`.

Files:

- `rust_types.dfy`: Rust's `Option` and `Result` datatypes.
- `primitives.dfy`:
  - the byte, `u16` and `i64` ranges;
  - `abs_diff`;
  - the `i64 as usize` reinterpretation.
- `scorer.dfy`:
  - the scorer, written as a triplet walk (`Score`) and as the source's byte
    walk (`ScoreInPlace`);
  - a closed form of the scorer's result (`ReferenceBaseline`,
    `ReferenceDiff`).
- `skip_decision.dfy`: `MAX_DIFF` and the skip decision.
- `frame_pipeline.dfy`:
  - the per-frame step and its fold over the decoded frames;
  - reference definitions of what is encoded and what is logged;
  - the decode loop as a method.
- `duration_probe.dfy`: line splitting, the search for the duration line,
  and `get_video_duration`.

The decoder and the encoder are not part of the model. Decoder output is a
sequence of frames or errors. A run produces two outputs: the diagnostic lines
printed on standard output, and the frames handed to the encoder. The source
converts the output position to the encoder's time base with
`Rescale::rescale`. The model takes that conversion as a parameter
`rescale: nat -> int`, applied to the position counted in ticks of 1/25 s.

Three facts about the code shape the model:

- `MAX_DIFF` is 1366 × 720 = 983520, the author's screen resolution
  (src/ffmpeg.rs:19; `SkipBoundary`).
- The baseline is looked up and overwritten at the byte index `i` of each
  triplet's last byte, not at the pixel index (src/ffmpeg.rs:41). The
  consequences:
  - pixel `k` is compared with entry `3k + 2` only while `3k + 2` lies inside
    the baseline, that is for `k < |baseline| / 3` (`Compared`); later pixels
    are appended;
  - the baseline does not keep the frame's pixel count: it grows by one entry
    per triplet that misses (`ScoreKeepsOtherEntries`,
    `ScoreOverwritesAndAppends`);
  - two identical consecutive frames can score a nonzero difference
    (`RepeatedFrameCanDiffer`).
- `TARGET_VIDEO_LENGTH` is 120 s, written `60f32 * 2f32` (src/main.rs:9).
  The speed-up that uses it is left out, see below.

## Model

| member | source | states |
|---|---|---|
| Primitives.AbsDiff | src/ffmpeg.rs:44 | the distance between two bytes: adding it to the smaller gives the larger |
| Primitives.AsUsize | src/ffmpeg.rs:30 | `i64 as usize` on a 64-bit target: the result is below 2^64 and congruent to the timestamp modulo 2^64, and a non-negative timestamp is unchanged |
| Scorer.Luma | src/ffmpeg.rs:35-38 | the triplet's byte average, truncated: three times the luma is at most the sum and within 2 of it |
| Scorer.Contribution | src/ffmpeg.rs:44-47 | a compared position adds its delta exactly when the delta is strictly above 50, and nothing otherwise; never more than 255 |
| Scorer.StepTriplet | src/ffmpeg.rs:41-52 | no contract of its own: the lookup at the byte index either hits (compare, overwrite) or misses (append); what this does over a frame is stated by Scorer.ScoreTripletsMatchesReference |
| Scorer.ScoreTriplets | src/ffmpeg.rs:37-53 | no contract of its own: the triplet walk; Scorer.ScoreTripletsMatchesReference equates it with the closed form |
| Scorer.Score | src/ffmpeg.rs:34-54 | no contract of its own: the scorer over a whole frame; Scorer.ScoreMatchesReference, Scorer.ScoreKeepsOtherEntries and Scorer.ScoreOverwritesAndAppends state its result, and Scorer.ScoreInPlace is proved to compute it |
| Scorer.ScoreInPlace | src/ffmpeg.rs:31-54 | the source's byte walk, with its additions to the 16-bit accumulator checked against overflow, computes the same baseline and difference as the triplet walk |
| Scorer.ScoreTripletsMatchesReference | src/ffmpeg.rs:37-53 | after the first `n` triplets, the walk equals the closed form: the first `min(n, len/3)` triplets are compared and overwrite entry `3k+2`, the rest are appended in order, and the difference sums only the compared triplets |
| Scorer.ScoreMatchesReference | src/ffmpeg.rs:34-54 | the same agreement, for a whole frame |
| Scorer.ScoreKeepsOtherEntries | src/ffmpeg.rs:41-52 | the baseline never shrinks; it grows by one entry per uncompared triplet; entries not at an index `3k+2`, or past the frame's triplets, keep their values |
| Scorer.ScoreOverwritesAndAppends | src/ffmpeg.rs:41-52 | entry `3k+2` inside the old baseline holds triplet `k`'s new luma; the appended tail holds the lumas of the uncompared triplets, in order |
| Scorer.ReferenceDiffBound | src/ffmpeg.rs:44-47 | the closed-form difference is at most 255 per compared triplet |
| Scorer.FrameDiffBound | src/ffmpeg.rs:44-47 | a frame's difference is at most 255 times the number of compared triplets |
| Scorer.ColdStart | src/ffmpeg.rs:41-52 | from an empty baseline every lookup misses: the frame scores zero and the baseline becomes the frame's lumas |
| Scorer.ScoreTripletsOnlyReadsTriplets | src/ffmpeg.rs:34-37 | two planes that agree on their first `n` triplets score the same over those triplets |
| Scorer.IncompleteTripletIgnored | src/ffmpeg.rs:34-37 | bytes after the last complete triplet never change the score |
| Scorer.RepeatedFrameCanDiffer | src/ffmpeg.rs:41-49 | a nine-byte frame scored twice in a row gives 255 the second time, not zero |
| SkipDecision.Normalized | src/ffmpeg.rs:56 | truncating division by `MAX_DIFF`: the quotient `q` has `q·MAX_DIFF ≤ diff < (q+1)·MAX_DIFF` |
| SkipDecision.MustSkip | src/ffmpeg.rs:56-58 | a frame is skipped exactly when its difference is below `MAX_DIFF` |
| SkipDecision.SkipBoundary | src/ffmpeg.rs:19 | `MAX_DIFF` is 983520; a difference of 983519 is skipped and one of 983520 is kept |
| FramePipeline.Bucket | src/ffmpeg.rs:30 | the log bucket is the `usize` timestamp divided by 10000, truncated |
| FramePipeline.Step | src/ffmpeg.rs:30-85 | one frame: the last-logged bucket becomes this frame's; earlier log lines are kept; one line is added, with this bucket, the decision and the normalized difference, exactly when the bucket changed; the position moves on by at most one tick; the encoder gets this frame, stamped with the old position, exactly when the position moves |
| FramePipeline.StepDecision | src/ffmpeg.rs:56-67 | the position moves exactly when the score against the current baseline is not skipped; the baseline becomes the scored one whether the frame is kept or skipped |
| FramePipeline.FirstFrameSkipped | src/ffmpeg.rs:16-67 | the first frame is logged and skipped, nothing is encoded, and the baseline becomes its lumas |
| FramePipeline.TakeOk | src/ffmpeg.rs:25-29 | the frames taken are the results before the first decode error, or all of them if there is none |
| FramePipeline.TakeOkUnique | src/ffmpeg.rs:25-29 | any prefix of frames that ends at the end or at an error is the one taken |
| FramePipeline.RunFrames | src/ffmpeg.rs:25-86 | no contract of its own: the loop body folded over the decoded frames; FramePipeline.RunScoresEveryFrame, FramePipeline.RunEncodesKeptFrames, FramePipeline.RunStampsConsecutiveTicks and FramePipeline.RunLogsChangePoints state what it computes |
| FramePipeline.Process | src/ffmpeg.rs:25-88 | no contract of its own: the loop over the frames before the first decode error, then finish; FramePipeline.ProcessEncodesKeptFrames, FramePipeline.ProcessStampsTicks and FramePipeline.ProcessLogsChangePoints state its outcome, and FramePipeline.ProcessStream is proved to compute it |
| FramePipeline.RunScoresEveryFrame | src/ffmpeg.rs:34-67 | after a run, the baseline is the result of scoring every frame in turn, kept or skipped |
| FramePipeline.RunEncodesKeptFrames | src/ffmpeg.rs:56-79 | a run hands the encoder exactly the frames whose chained score is not skipped, in decode order |
| FramePipeline.RunStampsConsecutiveTicks | src/ffmpeg.rs:69-85 | a run keeps what was already encoded. The k-th newly encoded frame is stamped with the start position plus k ticks, and the position moves by one tick per encoded frame |
| FramePipeline.RunLogsChangePoints | src/ffmpeg.rs:60-63 | starting with nothing logged, the logged buckets are the frames' buckets with consecutive repeats removed |
| FramePipeline.LastLoggedIsLastBucket | src/ffmpeg.rs:60-63 | after a nonempty run, the last logged bucket is the last frame's |
| FramePipeline.LoggingDoesNotAffectOutput | src/ffmpeg.rs:60-67 | two runs that differ only in their logging state end with the same baseline, position and encoded frames |
| FramePipeline.ProcessStopsAtFirstError | src/ffmpeg.rs:25-29 | results after the first decode error change neither the frames taken nor the outcome |
| FramePipeline.ProcessEncodesKeptFrames | src/ffmpeg.rs:16-88 | the whole filter encodes exactly the kept frames of the decoded prefix, starting from an empty baseline |
| FramePipeline.ProcessStampsTicks | src/ffmpeg.rs:21-85 | the k-th encoded frame is stamped with `rescale(k)` |
| FramePipeline.ProcessLogsChangePoints | src/ffmpeg.rs:17-63 | the whole filter logs one line per change of timestamp bucket |
| FramePipeline.ProcessStampsIncrease | src/ffmpeg.rs:69-85 | when rescaling is strictly increasing, the encoded timestamps strictly increase |
| FramePipeline.FilterFrame | src/ffmpeg.rs:30-85 | the loop body as written (byte walk, division, log check, stamp) computes the step |
| FramePipeline.ProcessStream | src/ffmpeg.rs:25-88 | the decode loop, which stops at the first error and then finishes, computes the whole filter |
| DurationProbe.Lines | src/main.rs:81 | splitting at newlines gives at least one piece, and no piece holds a newline |
| DurationProbe.JoinLines | src/main.rs:81 | joining the pieces of a split with newlines gives back the report |
| DurationProbe.LinesJoin | src/main.rs:81 | splitting the join of newline-free pieces gives back the pieces |
| DurationProbe.FindDuration | src/main.rs:81-88 | there is no value exactly when no line starts with `duration=`. Otherwise the value is the text after `duration=` on the first line that starts with it |
| DurationProbe.GetVideoDuration | src/main.rs:76-90 | a failed exit status is reported as such. A successful report with no duration line is a missing duration; no other failure is possible. Otherwise the result is the text after `duration=` on the report's first duration line |
| DurationProbe.FindDurationConcat | src/main.rs:81-88 | the search over two blocks of lines is the first block's result when it has one, and the second block's otherwise |
| DurationProbe.DurationOfJoinedLines | src/main.rs:80-90 | for a successful report made of newline-free lines, the duration is the first duration line's value, or missing |
| DurationProbe.DurationOnFirstLine | src/main.rs:81-88 | a successful report whose first line is `duration=<v>` yields `v`, whatever follows |

## Left out

- `src/mp4.rs`, `src/mp4_examples.rs` and `src/ffmpeg_example_dump.rs` are not part of this model. They are experiments that the program does not call.
- Decoder, encoder and library setup (`video_rs::init`, `Decoder::new`, `Encoder::new`, `encode_raw`, `finish`) are outside the model. Decoder output is an input sequence, the encoder's input is a written sequence, and finish is a flag that is always set. A failure in setup, in `encode_raw` or in `finish` panics, and panics are not modelled.
- FramePipeline.Step: the conversion of the position to the encoder's time base (`Time`, `aligned_with`, `add`, `rescale` with its rounding) is the parameter `rescale`, applied to a count of 1/25 s ticks. The model does not fix the rounding, so it proves no statement about concrete timestamp values.
- FramePipeline.ProcessStampsIncrease: strict monotonicity of rescaling is a hypothesis, because the rounding of the time-base conversion is outside the model.
- The frame's plane layout (`frame.data(0)`, line padding, pixel format) is not modelled. A frame is its plane as a byte sequence.
- `frame.timestamp().unwrap()` panics on a frame without a timestamp. That panic is not modelled: every frame carries an `i64` timestamp.
- Scorer.ScoreInPlace: `frame_diff` is a `usize` in the source and an unbounded `nat` here. It is at most 255 per compared triplet (`FrameDiffBound`), so it cannot wrap for any plane that fits in memory.
- DurationProbe.GetVideoDuration: returns the text after `duration=` rather than the parsed `f32`. The float parse, and its panic on malformed text, are not modelled.
- Running `ffprobe` and `ffmpeg`, `String::from_utf8(..).unwrap()` on the report, and the panic on a failed status or a missing duration are not modelled. The report is a string and the failures are `Err` values.
- `main` and `speed_up_video` are left out: argument handling, the `f32` speed multiplier `duration / TARGET_VIDEO_LENGTH`, the `setpts` filter text, `fs::remove_file` of the temporary file, and the `println!` formatting of log lines. A log line is modelled as its bucket, decision and normalized difference.
