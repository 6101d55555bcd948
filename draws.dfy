/** The random draws the simulator takes from `System.Random`, supplied by the caller. */
module Draws {

  /** `Random.Next(n)` given a raw draw: a value in `[0, n)`, and 0 when `n` is 0. */
  function Next(draw: nat, n: nat): (r: nat)
    ensures n > 0 ==> r < n
    ensures n == 0 ==> r == 0
  {
    if n == 0 then 0 else draw % n
  }
}
