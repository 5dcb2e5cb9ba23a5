/** The keep/skip decision: the frame difference is divided by a fixed
    reference pixel area, and a quotient of zero means "no motion". */
module SkipDecision {

  /** The reference area, 1366 x 720. */
  const MAX_DIFF: nat := 1366 * 720

  /** The frame difference in units of the reference area, truncated. This is
      also the value the diagnostic line reports. */
  function Normalized(frameDiff: nat): (q: nat)
    ensures q * MAX_DIFF <= frameDiff < (q + 1) * MAX_DIFF
  {
    frameDiff / MAX_DIFF
  }

  /** A frame is skipped exactly when its difference is below the reference area. */
  function MustSkip(frameDiff: nat): (skip: bool)
    ensures skip <==> frameDiff < MAX_DIFF
  {
    Normalized(frameDiff) == 0
  }

  /** The decision flips between `MAX_DIFF - 1` (skip) and `MAX_DIFF` (keep). */
  lemma SkipBoundary()
    ensures MAX_DIFF == 983520
    ensures MustSkip(MAX_DIFF - 1) && !MustSkip(MAX_DIFF)
  {
  }
}
