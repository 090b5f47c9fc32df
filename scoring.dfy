/** Difficulty scaling (the tick interval) and the high-score rule applied at game over. */
module Scoring {

  /** Interval between ticks at the start, in milliseconds. */
  const BaseSpeed := 150
  /** The interval never drops below this many milliseconds. */
  const MinSpeed := 80
  /** Every this many points is one level ... */
  const PointsPerLevel := 5
  /** ... and each level shortens the interval by this many milliseconds. */
  const SpeedIncrease := 10

  function Max(a: int, b: int): (m: int)
    ensures m >= a && m >= b && (m == a || m == b)
  {
    if a >= b then a else b
  }

  /** The delay before the next tick, as `getGameSpeed` computes it from the score. */
  function GameSpeed(score: nat): (ms: int)
    ensures MinSpeed <= ms <= BaseSpeed
  {
    Max(MinSpeed, BaseSpeed - (score / PointsPerLevel) * SpeedIncrease)
  }

  /** Independent description of the schedule: level 0 runs at the base speed and
      each further level is one decrement faster, never faster than the floor. */
  function LevelSpeed(level: nat): (ms: int)
  {
    if level == 0 then BaseSpeed else Max(MinSpeed, LevelSpeed(level - 1) - SpeedIncrease)
  }

  lemma {:induction false} LevelSpeedClosedForm(level: nat)
    ensures LevelSpeed(level) == Max(MinSpeed, BaseSpeed - level * SpeedIncrease)
  {
    if level > 0 {
      LevelSpeedClosedForm(level - 1);
    }
  }

  /** `getGameSpeed` follows the level schedule: the level is the number of whole groups of 5 points. */
  lemma GameSpeedByLevel(score: nat)
    ensures GameSpeed(score) == LevelSpeed(score / PointsPerLevel)
  {
    LevelSpeedClosedForm(score / PointsPerLevel);
  }

  /** Five more points make the game one step faster, down to the floor. */
  lemma GameSpeedNextLevel(score: nat)
    ensures GameSpeed(score + PointsPerLevel) == Max(MinSpeed, GameSpeed(score) - SpeedIncrease)
  {
  }

  /** A higher score never slows the game down. */
  lemma GameSpeedMonotone(lower: nat, higher: nat)
    requires lower <= higher
    ensures GameSpeed(higher) <= GameSpeed(lower)
  {
  }

  /** The floor of 80 ms is reached at 35 points and not before. */
  lemma GameSpeedFloor(score: nat)
    ensures GameSpeed(score) == MinSpeed <==> score >= 35
  {
  }

  /** The high score after a game that ended with `score`. It keeps the source's own
      `score > highScore` test, the same test that decides the storage write (`Persists`),
      rather than going through `Max`. */
  function HighScoreAfter(highScore: nat, score: nat): (r: nat)
    ensures r >= highScore && r >= score
    ensures r == highScore || r == score
  {
    if score > highScore then score else highScore
  }

  /** The high score is written to storage exactly when the game beat it. */
  predicate Persists(highScore: nat, score: nat)
  {
    score > highScore
  }

  /** A new high score is stored iff the stored value changes. */
  lemma PersistsIffImproved(highScore: nat, score: nat)
    ensures Persists(highScore, score) <==> HighScoreAfter(highScore, score) != highScore
  {
  }

  /** A final score of 7 beats a high score of 3 and is stored; 2 against 5 changes nothing. */
  lemma HighScoreScenarios()
    ensures HighScoreAfter(3, 7) == 7 && Persists(3, 7)
    ensures HighScoreAfter(5, 2) == 5 && !Persists(5, 2)
  {
  }
}
