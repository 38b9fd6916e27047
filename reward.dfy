/** Rewards from user feedback: a thumbs-up/down tag, or a score clamped into bounds. */
module Reward {
  import opened Wrappers
  import opened Text

  const Positive: set<string> := {"up", "thumbs_up", "good", "helpful", "\U{1F44D}"}
  const Negative: set<string> := {"down", "thumbs_down", "bad", "not_helpful", "\U{1F44E}"}

  /** `(tag or "").lower()`: empty for a null tag, and free of capitals. */
  function NormalizeTag(tag: Option<string>): (t: string)
    ensures tag.None? ==> t == ""
    ensures tag.Some? ==> |t| == |tag.value|
    ensures forall i :: 0 <= i < |t| ==> !('A' <= t[i] <= 'Z')
  {
    Lower(tag.GetOr(""))
  }

  /** `feedback_reward(tag)` */
  function FeedbackReward(tag: Option<string>): (r: real)
    ensures r == 1.0 <==> NormalizeTag(tag) in Positive
    ensures r == -1.0 <==> NormalizeTag(tag) in Negative
    ensures r == 0.0 <==> NormalizeTag(tag) !in Positive + Negative
    ensures r in {-1.0, 0.0, 1.0}
  {
    PositiveNegativeDisjoint();
    var t := NormalizeTag(tag);
    if t in Positive then 1.0 else if t in Negative then -1.0 else 0.0
  }

  /** No tag is both affirmative and negative, so the order of the two tests does not matter. */
  lemma PositiveNegativeDisjoint()
    ensures Positive * Negative == {}
  {
  }

  /** Tags are compared without regard to case. */
  lemma FeedbackRewardIgnoresCase(tag: string)
    ensures FeedbackReward(Some(tag)) == FeedbackReward(Some(Lower(tag)))
  {
    LowerIdempotent(tag);
  }

  /** `scale_reward(score, min_r, max_r)`: `min(max(score, min_r), max_r)`. */
  function ScaleReward(score: real, minR: real, maxR: real): (r: real)
    ensures minR <= maxR ==> minR <= r <= maxR
    ensures minR <= score <= maxR ==> r == score
    ensures score < minR <= maxR ==> r == minR
    ensures maxR < score ==> r == maxR
    ensures maxR < minR ==> r == maxR
  {
    var lifted := if score >= minR then score else minR;
    if lifted <= maxR then lifted else maxR
  }

  /** Clamping twice is clamping once, whatever the bounds. */
  lemma ScaleRewardIdempotent(score: real, minR: real, maxR: real)
    ensures ScaleReward(ScaleReward(score, minR, maxR), minR, maxR) == ScaleReward(score, minR, maxR)
  {
  }

  /** With the default bounds the result is in [-1, 1]. */
  lemma ScaleRewardDefaultBounds(score: real)
    ensures -1.0 <= ScaleReward(score, -1.0, 1.0) <= 1.0
  {
  }
}
