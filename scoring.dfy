/** The reward for clearing rows and the level that a score reaches. */
module Scoring {
  import opened TetrisTypes

  /** The points added for `rows` rows removed by one attachment: the score
      table for one to four rows, nothing for any other count. */
  function Award(rows: int): (points: int)
    ensures points >= 0
    ensures points > 0 <==> 1 <= rows <= 4
  {
    if rows == 1 then SCORE_ROWS_1
    else if rows == 2 then SCORE_ROWS_2
    else if rows == 3 then SCORE_ROWS_3
    else if rows == 4 then SCORE_ROWS_4
    else 0
  }

  /** Clearing more rows at once pays more, and more than clearing the same
      rows one at a time. */
  lemma AwardRewardsCombos(m: int, n: int)
    requires 1 <= m < n <= 4
    ensures Award(m) < Award(n)
    ensures Award(n) > n * Award(1)
  {
  }

  /** C integer division, which truncates toward zero: the remainder
      a - q * d has the sign of a and is smaller than d in magnitude. */
  function TruncDiv(a: int, d: int): (q: int)
    requires d > 0
    ensures a >= 0 ==> 0 <= a - q * d < d
    ensures a < 0 ==> -d < a - q * d <= 0
  {
    if a >= 0 then a / d else -((-a) / d)
  }

  /** The level for a score: one more than the number of whole thresholds the
      score has passed, capped at the highest level. */
  function LevelFor(score: int): (level: int)
    ensures level <= LEVEL_MAX
    ensures score >= 0 ==> LEVEL_MIN <= level
    ensures level == LEVEL_MAX <==> score >= (LEVEL_MAX - 1) * LEVEL_THRESHOLD
    ensures 0 <= score && level < LEVEL_MAX ==>
      (level - 1) * LEVEL_THRESHOLD <= score < level * LEVEL_THRESHOLD
  {
    var raised := TruncDiv(score, LEVEL_THRESHOLD) + 1;
    if raised <= LEVEL_MAX then raised else LEVEL_MAX
  }

  /** A higher score never means a lower level. */
  lemma LevelMonotone(s: int, t: int)
    requires 0 <= s <= t
    ensures LevelFor(s) <= LevelFor(t)
  {
  }
}
