/** The scoring rule both mini-games share: a correct action earns a fixed
    reward, a wrong one costs a fixed penalty, and the score is clamped at 0. */
module Scoring {

  /** Points added for a correct pick or drop. */
  const Reward: int := 10

  /** Points taken away for a wrong pick or drop (before clamping). */
  const Penalty: int := 5

  /** The score after a correct action: `score + 10`. */
  function Rewarded(score: int): (r: int)
    ensures r - score == Reward
    ensures score >= 0 ==> r > 0
  {
    score + Reward
  }

  /** The score after a wrong action: `Math.max(0, score - 5)`. */
  function Penalized(score: int): (r: int)
    ensures r >= 0
    ensures score >= Penalty ==> r == score - Penalty
    ensures score <= Penalty ==> r == 0
    ensures score >= 0 ==> r <= score
  {
    if score - Penalty > 0 then score - Penalty else 0
  }
}
