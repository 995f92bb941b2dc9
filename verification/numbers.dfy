/** Small integer and real helpers shared by the other modules. */
module Numbers {

  function Max(a: int, b: int): int { if a < b then b else a }

  function Abs(a: int): nat { if a < 0 then -a else a }

  function Pow2(m: nat): nat { if m == 0 then 1 else 2 * Pow2(m - 1) }

  /** fabs, on exact reals. */
  function AbsReal(a: real): real { if a < 0.0 then -a else a }
}
