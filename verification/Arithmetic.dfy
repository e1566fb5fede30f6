/** Products by a positive factor. */
module Arithmetic {
  /** Scaling moves an integer away from 0 by at least the factor. */
  lemma {:induction false} ProductSign(x: int, d: int)
    requires d > 0
    ensures x > 0 ==> x * d >= d
    ensures x < 0 ==> x * d <= -d
  {
  }
}
