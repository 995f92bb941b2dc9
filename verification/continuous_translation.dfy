/**
  The translate phase as it is evidently meant to work: the car's position
  kept in the same floating-point precision as the step it receives, so a
  tenth of the remaining distance is never truncated away. Idealised as
  exact reals.
*/
module ContinuousTranslation {
  import opened Numbers

  datatype Position = Position(x: real, y: real)

  /** The larger of the two remaining distances to the target. */
  function Gap(p: Position, tx: real, ty: real): (g: real)
    ensures g >= AbsReal(tx - p.x) && g >= AbsReal(ty - p.y)
    ensures g == AbsReal(tx - p.x) || g == AbsReal(ty - p.y)
  {
    var gx, gy := AbsReal(tx - p.x), AbsReal(ty - p.y);
    if gx < gy then gy else gx
  }

  /** One translate firing on real coordinates: a tenth of the remaining
      distance is covered on each axis; once both axes are within 1 of the
      target the car is put on it and the step reports arrival. */
  function CorrectedStep(p: Position, tx: real, ty: real): (r: (Position, bool))
    ensures r.1 ==> r.0 == Position(tx, ty)
    ensures !r.1 ==> Gap(r.0, tx, ty) == 0.9 * Gap(p, tx, ty) && Gap(r.0, tx, ty) >= 1.0
  {
    var x := p.x + (tx - p.x) * 0.1;
    var y := p.y + (ty - p.y) * 0.1;
    if AbsReal(x - tx) < 1.0 && AbsReal(y - ty) < 1.0 then (Position(tx, ty), true)
    else (Position(x, y), false)
  }

  /** n firings, stopping at arrival; the flag says whether it arrived. */
  function CorrectedRun(p: Position, tx: real, ty: real, n: nat): (Position, bool)
    decreases n
  {
    if n == 0 then (p, false)
    else
      var (q, arrived) := CorrectedStep(p, tx, ty);
      if arrived then (q, true) else CorrectedRun(q, tx, ty, n - 1)
  }

  /** From any position on any side of the target the corrected translate
      phase arrives exactly on the target within 10 · Gap + 1 firings: each
      firing that does not arrive removes at least a tenth of a unit of the
      gap. */
  lemma {:induction false} CorrectedArrives(p: Position, tx: real, ty: real, n: nat)
    requires n > (10.0 * Gap(p, tx, ty)).Floor
    ensures CorrectedRun(p, tx, ty, n) == (Position(tx, ty), true)
    decreases n
  {
    var (q, arrived) := CorrectedStep(p, tx, ty);
    if !arrived {
      var g, g' := Gap(p, tx, ty), Gap(q, tx, ty);
      assert 10.0 * g' <= 10.0 * g - 1.0;
      assert (10.0 * g').Floor <= (10.0 * g).Floor - 1;
      CorrectedArrives(q, tx, ty, n - 1);
    }
  }
}
