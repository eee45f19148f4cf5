/** `ScoreManager` as a value. The float multiplier `1.0 + (level - 1) * 0.1`
    is kept exactly, as a whole number of tenths. */
module Scoring {
  datatype ScoreState = ScoreState(score: int, level: int, linesCleared: int, combo: int, tenths: int)

  /** `__init__` and `reset`: score 0, level 1, no lines, no combo, multiplier 1.0. */
  const Initial: ScoreState := ScoreState(0, 1, 0, 0, 10)

  /** Python's `int()` on a number of tenths: truncation toward zero. */
  function TruncTenths(v: int): (r: int)
    ensures v >= 0 ==> 10 * r <= v < 10 * r + 10
    ensures v < 0 ==> 10 * r - 10 < v <= 10 * r
  {
    if v >= 0 then v / 10 else -((-v) / 10)
  }

  /** The multiplier, in tenths, that `add_line_clear_score` sets for a level. */
  function TenthsFor(level: int): int {
    10 + (level - 1)
  }

  /** The level `add_line_clear_score` sets for a count of cleared lines. */
  function LevelFor(lines: int): int {
    lines / 10 + 1
  }

  /** `line_scores.get(lines_count, 0)`. */
  function LineBase(n: int): (base: int)
    ensures base != 0 <==> 1 <= n <= 4
    ensures base >= 0
  {
    if n == 1 then 100 else if n == 2 then 300 else if n == 3 then 500 else if n == 4 then 800 else 0
  }

  /** More lines at once are worth more. */
  lemma LineBaseIncreasing(n: int)
    requires 1 <= n < 4
    ensures LineBase(n) < LineBase(n + 1)
  {
  }

  /** The fields the manager keeps in step: counts are non-negative, and the
      level and multiplier are those the line count gives. */
  predicate Consistent(s: ScoreState) {
    s.score >= 0 && s.linesCleared >= 0 && s.combo >= 0 &&
    s.level == LevelFor(s.linesCleared) && s.tenths == TenthsFor(s.level)
  }

  /** `add_shape_score` for a shape with `blocks` occupied cells. */
  function AddShapeScore(s: ScoreState, blocks: int): ScoreState {
    s.(score := s.score + TruncTenths(blocks * 10 * s.tenths))
  }

  /** `add_line_clear_score(n)`. */
  function AddLineClearScore(s: ScoreState, n: int): ScoreState {
    var lines := s.linesCleared + n;
    var level := LevelFor(lines);
    ScoreState(
      s.score + TruncTenths((LineBase(n) + s.combo * 50) * s.tenths),
      level,
      lines,
      if n > 0 then s.combo + 1 else 0,
      TenthsFor(level))
  }

  /** The initial state is consistent, with multiplier 1.0 at level 1. */
  lemma InitialConsistent()
    ensures Consistent(Initial) && Initial.level == 1 && Initial.tenths == 10
  {
  }

  /** The level is one more than the number of complete tens of lines, and
      the multiplier is 1.0 plus a tenth per level above the first. */
  lemma ConsistentLevel(s: ScoreState)
    requires Consistent(s)
    ensures s.level >= 1 && 10 * (s.level - 1) <= s.linesCleared < 10 * s.level
    ensures s.tenths == 9 + s.level && s.tenths >= 10
  {
  }

  /** A shape adds exactly its cell count times ten times the multiplier (no
      rounding is lost for whole cells) and changes nothing else. */
  lemma ShapeScoreExact(s: ScoreState, blocks: int)
    requires Consistent(s) && blocks >= 0
    ensures var t := AddShapeScore(s, blocks);
      t.score == s.score + blocks * s.tenths && Consistent(t) &&
      t.level == s.level && t.linesCleared == s.linesCleared && t.combo == s.combo
  {
    assert blocks * 10 * s.tenths == 10 * (blocks * s.tenths);
  }

  /** An O piece locked at level 1 scores 40. */
  lemma OPieceAtLevelOne()
    ensures AddShapeScore(Initial, 4).score == 40
  {
  }

  /** `add_line_clear_score(n)` with lines cleared: the score grows by the
      base for `n` plus 50 per combo step, times the multiplier and
      truncated; the line count grows by `n`, the combo by one, and level and
      multiplier follow the new line count. */
  lemma LineClearSpec(s: ScoreState, n: int)
    requires Consistent(s) && n > 0
    ensures var t := AddLineClearScore(s, n);
      10 * (t.score - s.score) <= (LineBase(n) + s.combo * 50) * s.tenths < 10 * (t.score - s.score) + 10 &&
      t.linesCleared == s.linesCleared + n && t.combo == s.combo + 1 &&
      Consistent(t) && t.level >= s.level
  {
  }

  /** A line clear with lines never lowers the score, line count, level or
      combo. */
  lemma LineClearGrows(s: ScoreState, n: int)
    requires Consistent(s) && n > 0
    ensures var t := AddLineClearScore(s, n);
      t.score >= s.score && t.linesCleared > s.linesCleared && t.level >= s.level &&
      t.combo == s.combo + 1 && Consistent(t)
  {
    var v := (LineBase(n) + s.combo * 50) * s.tenths;
    assert v >= 0 by {
      assert LineBase(n) + s.combo * 50 >= 0 && s.tenths >= 0;
    }
  }

  /** As written, a call with no lines still adds the combo bonus and then
      resets the combo. */
  lemma LineClearZero(s: ScoreState)
    requires Consistent(s)
    ensures var t := AddLineClearScore(s, 0);
      t.score == s.score + (s.combo * 50 * s.tenths) / 10 &&
      t.combo == 0 && t.linesCleared == s.linesCleared && t.level == s.level && Consistent(t)
  {
  }

  /** A single line at level 1 with no combo scores 100. */
  lemma LineClearSingle()
    ensures AddLineClearScore(Initial, 1).score == 100
  {
    var s := Initial;
    assert s.score == 0 && s.combo == 0 && s.tenths == 10;
    assert LineBase(1) == 100;
    assert (100 + 0 * 50) * 10 == 1000;
    assert TruncTenths(1000) == 100;
  }

  /** Four lines at level 1 on a combo of 2 score 800 + 100. */
  lemma LineClearFourOnCombo()
    ensures AddLineClearScore(Initial.(combo := 2), 4).score == 900
  {
    var s := Initial.(combo := 2);
    assert s.score == 0 && s.combo == 2 && s.tenths == 10;
    assert LineBase(4) == 800;
    assert (800 + 2 * 50) * 10 == 9000;
    assert TruncTenths(9000) == 900;
  }

  /** Twenty lines give level 3 and multiplier 1.2. */
  lemma LevelThree()
    ensures var t := AddLineClearScore(Initial.(linesCleared := 16, level := 2, tenths := 11), 4);
      t.level == 3 && t.tenths == 12 && t.linesCleared == 20
  {
  }

  /** The `fall_speed` the line-clear handler sets for a level:
      `max(10, 60 - (level - 1) * 5)`. */
  function FallSpeedFor(level: int): (speed: int)
    ensures speed >= 10
    ensures level >= 1 ==> speed <= 60
    ensures speed == 10 <==> level >= 11
  {
    var v := 60 - (level - 1) * 5;
    if v > 10 then v else 10
  }

  /** A higher level never falls slower. */
  lemma FallSpeedMonotone(a: int, b: int)
    requires a <= b
    ensures FallSpeedFor(b) <= FallSpeedFor(a)
  {
  }

  /** Level 3 falls every 50 frames. */
  lemma FallSpeedLevelThree()
    ensures FallSpeedFor(3) == 50
  {
  }
}
