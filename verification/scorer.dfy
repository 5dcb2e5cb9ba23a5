/** The difference scorer: one pass over a frame's plane bytes that turns each
    byte triplet into a luma value, compares it against the baseline entry at
    the triplet's LAST BYTE INDEX, and overwrites or appends that entry.

    The functional definition (`Score`) walks triplets; the imperative
    `ScoreInPlace` walks bytes with a 16-bit accumulator the way the source
    does, and is proved to compute the same thing.  `ReferenceBaseline` and
    `ReferenceDiff` give an independent closed form of the result. */
module Scorer {
  import opened Primitives

  /** Luma deltas at or below this value contribute nothing. */
  const NOISE_THRESHOLD: nat := 50

  /** The truncating average of one byte triplet. */
  function Luma(c0: byte, c1: byte, c2: byte): (now: byte)
    ensures 3 * now <= c0 + c1 + c2 < 3 * now + 3
  {
    (c0 + c1 + c2) / 3
  }

  /** The luma of the `k`-th complete triplet of a plane. */
  function LumaAt(data: seq<byte>, k: nat): byte
    requires k < |data| / 3
  {
    Luma(data[3 * k], data[3 * k + 1], data[3 * k + 2])
  }

  /** What one compared position adds to the frame difference: its absolute
      delta when that delta is strictly above the noise threshold, else zero. */
  function Contribution(before: byte, now: byte): (c: nat)
    ensures c <= 255
    ensures c != 0 <==> AbsDiff(before, now) > NOISE_THRESHOLD
    ensures c != 0 ==> c == AbsDiff(before, now)
  {
    var d := AbsDiff(before, now);
    if d > NOISE_THRESHOLD then d else 0
  }

  /** The baseline and the summed difference after (part of) a frame. */
  datatype Scored = Scored(baseline: seq<byte>, frameDiff: nat)

  /** Handles the triplet ending at byte index `i`: a lookup at `i` either
      hits (compare, then overwrite) or misses (append). */
  function StepTriplet(s: Scored, i: nat, now: byte): Scored
  {
    if i < |s.baseline| then
      Scored(s.baseline[i := now], s.frameDiff + Contribution(s.baseline[i], now))
    else
      Scored(s.baseline + [now], s.frameDiff)
  }

  /** The state after the first `n` complete triplets of `data`. */
  function ScoreTriplets(baseline: seq<byte>, data: seq<byte>, n: nat): Scored
    requires n <= |data| / 3
  {
    if n == 0 then Scored(baseline, 0)
    else StepTriplet(ScoreTriplets(baseline, data, n - 1), 3 * (n - 1) + 2, LumaAt(data, n - 1))
  }

  /** Scores a whole frame; a trailing incomplete triplet is never consumed. */
  function Score(baseline: seq<byte>, data: seq<byte>): Scored
  {
    ScoreTriplets(baseline, data, |data| / 3)
  }

  // ---------------------------------------------------------------------------
  // Independent closed form
  // ---------------------------------------------------------------------------

  /** How many of the first `n` triplets find a baseline entry: triplet `k`
      looks up index `3k + 2`, which exists exactly for `k < |baseline| / 3`
      (appends never catch up, since the index grows by three per triplet and
      the baseline by one). */
  function Compared(baseline: seq<byte>, n: nat): (m: nat)
    ensures m <= n && m <= |baseline| / 3
  {
    if n < |baseline| / 3 then n else |baseline| / 3
  }

  /** The difference summed over the first `m` compared triplets. */
  function ReferenceDiff(baseline: seq<byte>, data: seq<byte>, m: nat): nat
    requires m <= |baseline| / 3 && m <= |data| / 3
  {
    if m == 0 then 0
    else ReferenceDiff(baseline, data, m - 1) + Contribution(baseline[3 * (m - 1) + 2], LumaAt(data, m - 1))
  }

  /** The baseline after `n` triplets: entries at indices `3k + 2` with
      `k < n` inside the old length hold the new luma, every other old entry
      is kept, and the uncompared triplets' lumas follow in order. */
  function ReferenceBaseline(baseline: seq<byte>, data: seq<byte>, n: nat): seq<byte>
    requires n <= |data| / 3
  {
    var m := Compared(baseline, n);
    var kept: seq<byte> := seq(|baseline|, j requires 0 <= j < |baseline| =>
      if j % 3 == 2 && j / 3 < n then LumaAt(data, j / 3) else baseline[j]);
    var appended := seq(n - m, j requires 0 <= j < n - m => LumaAt(data, m + j));
    assert forall j :: 0 <= j < |appended| ==> appended[j] == LumaAt(data, m + j);
    kept + appended
  }

  /** A triplet whose lookup index lies inside the old baseline overwrites
      exactly that entry of the closed form. */
  lemma ReferenceBaselineOverwrite(baseline: seq<byte>, data: seq<byte>, p: nat)
    requires p < |data| / 3 && p < |baseline| / 3
    ensures 3 * p + 2 < |baseline|
    ensures |ReferenceBaseline(baseline, data, p)| == |baseline|
    ensures ReferenceBaseline(baseline, data, p)[3 * p + 2] == baseline[3 * p + 2]
    ensures ReferenceBaseline(baseline, data, p + 1)
         == ReferenceBaseline(baseline, data, p)[3 * p + 2 := LumaAt(data, p)]
  {
    var before := ReferenceBaseline(baseline, data, p);
    var after := ReferenceBaseline(baseline, data, p + 1);
    assert |after| == |baseline|;
    forall j | 0 <= j < |baseline|
      ensures after[j] == before[3 * p + 2 := LumaAt(data, p)][j]
    {
      if j % 3 == 2 && j / 3 == p {
        assert j == 3 * p + 2;
      }
    }
  }

  /** A triplet whose lookup index lies past the baseline appends its luma
      to the closed form. */
  lemma ReferenceBaselineAppend(baseline: seq<byte>, data: seq<byte>, p: nat)
    requires p < |data| / 3 && p >= |baseline| / 3
    ensures |ReferenceBaseline(baseline, data, p)| == |baseline| + p - |baseline| / 3
    ensures 3 * p + 2 >= |ReferenceBaseline(baseline, data, p)|
    ensures ReferenceBaseline(baseline, data, p + 1)
         == ReferenceBaseline(baseline, data, p) + [LumaAt(data, p)]
  {
    var q := |baseline| / 3;
    var before := ReferenceBaseline(baseline, data, p);
    var after := ReferenceBaseline(baseline, data, p + 1);
    assert |after| == |before| + 1;
    forall j | 0 <= j < |after|
      ensures after[j] == (before + [LumaAt(data, p)])[j]
    {
      if j < |baseline| && j % 3 == 2 {
        assert j / 3 < q;
      }
    }
  }

  /** The triplet walk and the closed form agree after `p` triplets. */
  predicate MatchesReference(baseline: seq<byte>, data: seq<byte>, p: nat)
    requires p <= |data| / 3
  {
    ScoreTriplets(baseline, data, p)
    == Scored(ReferenceBaseline(baseline, data, p), ReferenceDiff(baseline, data, Compared(baseline, p)))
  }

  /** A compared triplet keeps the walk and the closed form in step. */
  lemma OverwriteKeepsMatch(baseline: seq<byte>, data: seq<byte>, p: nat)
    requires p < |data| / 3 && p < |baseline| / 3
    requires MatchesReference(baseline, data, p)
    ensures MatchesReference(baseline, data, p + 1)
  {
    var now := LumaAt(data, p);
    ReferenceBaselineOverwrite(baseline, data, p);
    assert Compared(baseline, p) == p && Compared(baseline, p + 1) == p + 1;
    assert ReferenceDiff(baseline, data, p + 1)
        == ReferenceDiff(baseline, data, p) + Contribution(baseline[3 * p + 2], now);
  }

  /** An appended triplet keeps the walk and the closed form in step. */
  lemma AppendKeepsMatch(baseline: seq<byte>, data: seq<byte>, p: nat)
    requires p < |data| / 3 && p >= |baseline| / 3
    requires MatchesReference(baseline, data, p)
    ensures MatchesReference(baseline, data, p + 1)
  {
    ReferenceBaselineAppend(baseline, data, p);
    assert Compared(baseline, p + 1) == Compared(baseline, p);
  }

  /** The triplet walk agrees with the closed form, triplet by triplet. */
  lemma {:induction false} ScoreTripletsMatchesReference(baseline: seq<byte>, data: seq<byte>, n: nat)
    requires n <= |data| / 3
    ensures Compared(baseline, n) <= |baseline| / 3
    ensures ScoreTriplets(baseline, data, n)
         == Scored(ReferenceBaseline(baseline, data, n), ReferenceDiff(baseline, data, Compared(baseline, n)))
  {
    if n == 0 {
      assert ReferenceBaseline(baseline, data, 0) == baseline;
    } else {
      var p := n - 1;
      ScoreTripletsMatchesReference(baseline, data, p);
      if p < |baseline| / 3 {
        OverwriteKeepsMatch(baseline, data, p);
      } else {
        AppendKeepsMatch(baseline, data, p);
      }
      assert p + 1 == n;
      assert MatchesReference(baseline, data, n);
    }
  }

  /** The whole-frame form of `ScoreTripletsMatchesReference`. */
  lemma ScoreMatchesReference(baseline: seq<byte>, data: seq<byte>)
    ensures Compared(baseline, |data| / 3) <= |baseline| / 3
    ensures Score(baseline, data)
         == Scored(ReferenceBaseline(baseline, data, |data| / 3),
                   ReferenceDiff(baseline, data, Compared(baseline, |data| / 3)))
  {
    ScoreTripletsMatchesReference(baseline, data, |data| / 3);
  }

  // ---------------------------------------------------------------------------
  // Properties of one scored frame
  // ---------------------------------------------------------------------------

  /** The baseline never shrinks, grows by one entry per uncompared triplet,
      and only old entries at indices congruent to 2 modulo 3 can change. */
  lemma ScoreKeepsOtherEntries(baseline: seq<byte>, data: seq<byte>)
    ensures var r := Score(baseline, data);
      && |r.baseline| == |baseline| + |data| / 3 - Compared(baseline, |data| / 3)
      && |r.baseline| >= |baseline|
      && (forall j :: 0 <= j < |baseline| && j % 3 != 2 ==> r.baseline[j] == baseline[j])
      && (forall j :: 0 <= j < |baseline| && j / 3 >= |data| / 3 ==> r.baseline[j] == baseline[j])
  {
    ScoreMatchesReference(baseline, data);
  }

  /** Each old entry at index `3k + 2` with `k` below the triplet count is
      overwritten with the `k`-th triplet's luma, and the appended tail holds
      the lumas of the uncompared triplets in order. */
  lemma ScoreOverwritesAndAppends(baseline: seq<byte>, data: seq<byte>)
    ensures var r := Score(baseline, data);
      var m := Compared(baseline, |data| / 3);
      && |r.baseline| == |baseline| + |data| / 3 - m
      && (forall j :: 0 <= j < |baseline| && j % 3 == 2 && j / 3 < |data| / 3 ==>
            r.baseline[j] == LumaAt(data, j / 3))
      && (forall j :: |baseline| <= j < |r.baseline| ==> r.baseline[j] == LumaAt(data, m + j - |baseline|))
  {
    ScoreMatchesReference(baseline, data);
  }

  /** Every compared triplet adds at most 255, and appended triplets add
      nothing, so the difference is bounded by 255 per compared triplet. */
  lemma {:induction false} ReferenceDiffBound(baseline: seq<byte>, data: seq<byte>, m: nat)
    requires m <= |baseline| / 3 && m <= |data| / 3
    ensures ReferenceDiff(baseline, data, m) <= 255 * m
  {
    if m > 0 {
      ReferenceDiffBound(baseline, data, m - 1);
    }
  }

  /** The frame difference is at most 255 times the number of compared triplets. */
  lemma FrameDiffBound(baseline: seq<byte>, data: seq<byte>)
    ensures Score(baseline, data).frameDiff <= 255 * Compared(baseline, |data| / 3)
  {
    ScoreMatchesReference(baseline, data);
    ReferenceDiffBound(baseline, data, Compared(baseline, |data| / 3));
  }

  /** Cold start: from an empty baseline every lookup misses, so the frame
      appends one luma per complete triplet and scores zero. */
  lemma ColdStart(data: seq<byte>)
    ensures Score([], data)
         == Scored(seq(|data| / 3, k requires 0 <= k < |data| / 3 => LumaAt(data, k)), 0)
  {
    ScoreMatchesReference([], data);
    assert ReferenceBaseline([], data, |data| / 3)
        == seq(|data| / 3, k requires 0 <= k < |data| / 3 => LumaAt(data, k));
  }

  /** Bytes after the last complete triplet never influence the score. */
  lemma {:induction false} ScoreTripletsOnlyReadsTriplets(baseline: seq<byte>, data: seq<byte>, other: seq<byte>, n: nat)
    requires n <= |data| / 3 && n <= |other| / 3
    requires data[..3 * n] == other[..3 * n]
    ensures ScoreTriplets(baseline, data, n) == ScoreTriplets(baseline, other, n)
  {
    if n > 0 {
      var p := n - 1;
      assert data[..3 * p] == data[..3 * n][..3 * p];
      assert other[..3 * p] == other[..3 * n][..3 * p];
      ScoreTripletsOnlyReadsTriplets(baseline, data, other, p);
      assert data[3 * p] == data[..3 * n][3 * p] == other[3 * p];
      assert data[3 * p + 1] == data[..3 * n][3 * p + 1] == other[3 * p + 1];
      assert data[3 * p + 2] == data[..3 * n][3 * p + 2] == other[3 * p + 2];
    }
  }

  /** A trailing incomplete triplet is ignored. */
  lemma IncompleteTripletIgnored(baseline: seq<byte>, data: seq<byte>)
    ensures Score(baseline, data) == Score(baseline, data[..3 * (|data| / 3)])
  {
    var whole := data[..3 * (|data| / 3)];
    assert whole[..3 * (|data| / 3)] == data[..3 * (|data| / 3)];
    ScoreTripletsOnlyReadsTriplets(baseline, data, whole, |data| / 3);
  }

  /** Scoring the same frame twice in a row need not give zero: a later frame
      compares pixel `k` against the entry at index `3k + 2`, not against
      pixel `k` of the previous frame. */
  lemma RepeatedFrameCanDiffer()
    ensures var frame: seq<byte> := [0, 0, 0, 0, 0, 0, 255, 255, 255];
      Score(Score([], frame).baseline, frame).frameDiff == 255
  {
    var frame: seq<byte> := [0, 0, 0, 0, 0, 0, 255, 255, 255];
    ColdStart(frame);
    assert Score([], frame).baseline == [0, 0, 255];
  }

  // ---------------------------------------------------------------------------
  // The byte loop
  // ---------------------------------------------------------------------------

  /** The bytes of the triplet in progress before index `i` is read. */
  function PendingSum(data: seq<byte>, i: nat): nat
    requires i <= |data|
  {
    if i % 3 == 0 then 0
    else if i % 3 == 1 then data[i - 1]
    else data[i - 2] as int + data[i - 1]
  }

  /** Reading byte `i` ends a triplet exactly when `i % 3 == 2`; the
      accumulated sum then averages to that triplet's luma. */
  lemma ByteAdvances(baseline: seq<byte>, data: seq<byte>, i: nat)
    requires i < |data|
    ensures i % 3 != 2 ==> (i + 1) / 3 == i / 3
    ensures i % 3 == 2 ==> i / 3 < |data| / 3 && (i + 1) / 3 == i / 3 + 1
    ensures i % 3 == 2 ==> (PendingSum(data, i) + data[i]) / 3 == LumaAt(data, i / 3)
    ensures i % 3 == 2 ==> i == 3 * (i / 3) + 2
    ensures PendingSum(data, i) + data[i] < 0x1_0000
    ensures i % 3 != 2 ==> PendingSum(data, i + 1) == PendingSum(data, i) + data[i]
    ensures i % 3 == 2 ==> PendingSum(data, i + 1) == 0
  {
  }

  /** The scorer as the source runs it: a byte walk with a 16-bit
      accumulator that is averaged and cleared at every index `i % 3 == 2`,
      and a baseline lookup at that byte index. */
  method ScoreInPlace(baseline: seq<byte>, data: seq<byte>) returns (before: seq<byte>, frameDiff: nat)
    ensures Scored(before, frameDiff) == Score(baseline, data)
  {
    before := baseline;
    frameDiff := 0;
    var pixelBuff: uint16 := 0;
    var i := 0;
    while i < |data|
      invariant 0 <= i <= |data|
      invariant pixelBuff == PendingSum(data, i)
      invariant Scored(before, frameDiff) == ScoreTriplets(baseline, data, i / 3)
    {
      ByteAdvances(baseline, data, i);
      pixelBuff := pixelBuff + data[i];
      if i % 3 == 2 {
        var now: byte := pixelBuff / 3;
        pixelBuff := 0;
        ghost var k := i / 3;
        ghost var next := StepTriplet(Scored(before, frameDiff), i, now);
        assert next == ScoreTriplets(baseline, data, k + 1);
        if i < |before| {
          var diff := AbsDiff(before[i], now);
          if diff > NOISE_THRESHOLD {
            frameDiff := frameDiff + diff;
          }
          before := before[i := now];
        } else {
          before := before + [now];
        }
        assert Scored(before, frameDiff) == next;
      }
      i := i + 1;
    }
  }
}
