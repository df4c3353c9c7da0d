/** Powers of two, for the retry loop and for bisection. */
module Arithmetic {

  function Pow2(n: nat): nat {
    if n == 0 then 1 else 2 * Pow2(n - 1)
  }
}
