/** What several components share: optional values, powers of two, the size of a subset. */
module Basics {

  datatype Option<+T> = None | Some(value: T)

  function Pow2(e: nat): nat
  {
    if e == 0 then 1 else 2 * Pow2(e - 1)
  }

  lemma {:induction false} Pow2Grows(d: nat, e: nat)
    requires d <= e
    ensures 0 < Pow2(d) <= Pow2(e)
    decreases e
  {
    if d < e {
      Pow2Grows(d, e - 1);
    } else if e > 0 {
      Pow2Grows(d - 1, e - 1);
    }
  }

  lemma SubsetSize<T>(a: set<T>, b: set<T>)
    requires a <= b
    ensures |a| <= |b|
  {
    assert b == a + (b - a);
  }
}
