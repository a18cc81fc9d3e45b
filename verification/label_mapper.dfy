/**
  The mapping from a VADER compound score to the label shown to the user.
  Scores at or above 0.05 are positive, scores at or below -0.05 negative,
  and everything strictly between is neutral.
*/
module LabelMapper {

  datatype Label = Positive | Negative | Neutral

  const PositiveThreshold: real := 0.05
  const NegativeThreshold: real := -0.05

  /** `score_to_label`: the first threshold test wins, the neutral band is
      what is left. */
  function ScoreToLabel(score: real): (l: Label)
    ensures l == Positive <==> score >= PositiveThreshold
    ensures l == Negative <==> score <= NegativeThreshold
    ensures l == Neutral <==> NegativeThreshold < score < PositiveThreshold
  {
    if score >= PositiveThreshold then Positive
    else if score <= NegativeThreshold then Negative
    else Neutral
  }

  /** The string the source returns for each label. */
  function LabelText(l: Label): string {
    match l
    case Positive => "Positive"
    case Negative => "Negative"
    case Neutral => "Neutral"
  }

  /** Different labels are displayed as different strings. */
  lemma LabelTextInjective(a: Label, b: Label)
    requires LabelText(a) == LabelText(b)
    ensures a == b
  {
  }

  /** The labels in the order of the scores they cover. */
  function Rank(l: Label): (r: int)
    ensures -1 <= r <= 1
    ensures (r == 0) == (l == Neutral)
    ensures (r > 0) == (l == Positive)
  {
    match l
    case Negative => -1
    case Neutral => 0
    case Positive => 1
  }

  /** A higher score never gets a lower label. */
  lemma ScoreToLabelMonotone(x: real, y: real)
    requires x <= y
    ensures Rank(ScoreToLabel(x)) <= Rank(ScoreToLabel(y))
  {
  }

  /** Negating a score swaps positive and negative and keeps neutral: the
      two thresholds are symmetric around zero. */
  lemma ScoreToLabelSymmetric(score: real)
    ensures Rank(ScoreToLabel(-score)) == -Rank(ScoreToLabel(score))
  {
  }

  /** The thresholds themselves belong to the outer bands. */
  lemma ScoreToLabelBoundaries()
    ensures ScoreToLabel(0.05) == Positive
    ensures ScoreToLabel(-0.05) == Negative
    ensures ScoreToLabel(0.0) == Neutral
    ensures ScoreToLabel(0.0499) == Neutral && ScoreToLabel(-0.0499) == Neutral
  {
  }
}
