/**
  Per-axis arithmetic of MainWindow::moveCarToSpot: the angle correction of
  the rotate phase and the truncating position update of the translate
  phase. Floats are idealised as exact reals; the int car coordinates are
  kept, so every float written back into them is truncated toward zero as a
  C++ float-to-int conversion does.
*/
module Motion {
  import opened Numbers

  /** rotationSpeed: the angle correction per tick; nothing assigns it. */
  const RotationSpeed: real := 2.0

  /** C++ conversion of a float to int: the integer nearest zero among those
      within one unit of v. */
  function TruncToInt(v: real): (t: int)
    ensures AbsReal(v - t as real) < 1.0
    ensures AbsReal(t as real) <= AbsReal(v)
  {
    if v >= 0.0 then v.Floor else -((-v).Floor)
  }

  /** One rotate-phase correction of an angle whose magnitude exceeds
      RotationSpeed: the magnitude shrinks by exactly RotationSpeed and the
      sign is kept. */
  function RotateAngle(a: real): (r: real)
    requires AbsReal(a) > RotationSpeed
    ensures AbsReal(r) == AbsReal(a) - RotationSpeed
    ensures r > 0.0 <==> a > 0.0
    ensures r < 0.0 <==> a < 0.0
  {
    a + (if a > 0.0 then -RotationSpeed else RotationSpeed)
  }

  /** One translate-phase update of a coordinate: a tenth of the remaining
      distance is added in floating point and the sum stored in an int. */
  function StepToward(x: int, target: real): int
  {
    TruncToInt(x as real + (target - x as real) * 0.1)
  }

  /** With a non-negative coordinate and an integral non-negative target the
      update is integer division: the new coordinate is the floor of
      (9 x + t) / 10. */
  lemma StepTowardIntegral(x: int, t: int)
    requires 0 <= x && 0 <= t
    ensures StepToward(x, t as real) == (9 * x + t) / 10
  {
    var n := 9 * x + t;
    var q, m := n / 10, n % 10;
    assert n == 10 * q + m && 0 <= m < 10;
    var v := x as real + (t as real - x as real) * 0.1;
    assert v == q as real + m as real / 10.0;
    assert q as real <= v < (q + 1) as real;
  }

  /** Starting at or past the target (x >= t), a step never overshoots, and
      it gains at least one unit whenever the target is not yet reached. */
  lemma StepFromAbove(x: int, t: int)
    requires 0 <= t <= x
    ensures t <= StepToward(x, t as real) <= x
    ensures x > t ==> StepToward(x, t as real) < x
  {
    StepTowardIntegral(x, t);
  }

  /** From at or past the target the remaining distance shrinks to exactly
      the floor of nine tenths of itself, so it falls geometrically. */
  lemma GapFromAbove(x: int, t: int)
    requires 0 <= t <= x
    ensures StepToward(x, t as real) - t == (9 * (x - t)) / 10
  {
    StepTowardIntegral(x, t);
    var g := 9 * (x - t);
    var q, m := g / 10, g % 10;
    assert 9 * x + t == 10 * (q + t) + m && 0 <= m < 10;
  }

  /** Starting short of the target (x < t), a step never reaches it, and
      when the remaining distance is under 10 it does not move at all. */
  lemma StepFromBelow(x: int, t: int)
    requires 0 <= x < t
    ensures x <= StepToward(x, t as real) < t
    ensures t - x < 10 ==> StepToward(x, t as real) == x
  {
    StepTowardIntegral(x, t);
  }

  /** Whatever the side, the coordinate after a step lies between the old
      coordinate and the target. */
  lemma StepStaysBetween(x: int, t: int)
    requires 0 <= x && 0 <= t
    ensures var r := StepToward(x, t as real);
      (x <= t ==> x <= r <= t) && (t <= x ==> t <= r <= x)
  {
    StepTowardIntegral(x, t);
  }
}
