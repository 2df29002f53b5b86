/**
 * The sentiment-based bias verdict of `detect_bias`: the compound polarity score of the
 * article (computed by the VADER analyser, which is not part of this model) compared
 * strictly against -0.3 and 0.3.
 *
 * The score is a `real`. The comparisons agree with the program's floating-point ones:
 * the literal 0.3 denotes the double nearest to 3/10, and no double lies strictly
 * between that double and 3/10, so for every double `x`, `x < -0.3` and `x > 0.3` give
 * the same answers on doubles and on their exact real values.
 */
module Sentiment {
  /** The three verdicts, in the order of the score that produces them. */
  datatype Verdict = NegativeBias | NoStrongBias | PositiveBias

  const LOWER_THRESHOLD: real := -0.3
  const UPPER_THRESHOLD: real := 0.3

  /** `detect_bias`, given the compound score. */
  function DetectBias(compound: real): (v: Verdict)
    ensures v == NegativeBias <==> compound < LOWER_THRESHOLD
    ensures v == PositiveBias <==> compound > UPPER_THRESHOLD
    ensures v == NoStrongBias <==> LOWER_THRESHOLD <= compound <= UPPER_THRESHOLD
  {
    if compound < LOWER_THRESHOLD then NegativeBias
    else if compound > UPPER_THRESHOLD then PositiveBias
    else NoStrongBias
  }

  /** The line the app writes for a verdict. */
  function Message(v: Verdict): string {
    match v
    case NegativeBias => "\U{26A0}\U{FE0F} Potential Negative Bias Detected!"
    case PositiveBias => "\U{26A0}\U{FE0F} Potential Positive Bias Detected!"
    case NoStrongBias => "\U{2705} No strong bias detected."
  }

  /** The position of a verdict on the scale from negative to positive. */
  function Rank(v: Verdict): int {
    match v
    case NegativeBias => -1
    case NoStrongBias => 0
    case PositiveBias => 1
  }

  /** The verdict with negative and positive exchanged. */
  function Mirror(v: Verdict): Verdict {
    match v
    case NegativeBias => PositiveBias
    case NoStrongBias => NoStrongBias
    case PositiveBias => NegativeBias
  }

  /** A higher score never gives a verdict further towards the negative. */
  lemma DetectBiasMonotone(a: real, b: real)
    requires a <= b
    ensures Rank(DetectBias(a)) <= Rank(DetectBias(b))
  {
  }

  /** The thresholds are symmetric: negating the score mirrors the verdict. */
  lemma DetectBiasSymmetric(compound: real)
    ensures DetectBias(-compound) == Mirror(DetectBias(compound))
  {
  }

  /** The comparisons are strict: a score exactly at either threshold, or zero, is not biased. */
  lemma DetectBiasBoundaries()
    ensures DetectBias(-0.3) == NoStrongBias
    ensures DetectBias(0.3) == NoStrongBias
    ensures DetectBias(0.0) == NoStrongBias
    ensures DetectBias(-0.31) == NegativeBias
    ensures DetectBias(0.31) == PositiveBias
  {
  }

  /** The three messages are pairwise different, so the line written names the verdict. */
  lemma MessagesDistinct(v: Verdict, w: Verdict)
    ensures Message(v) == Message(w) <==> v == w
  {
  }
}
