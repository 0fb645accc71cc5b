/**
 Powers of two and right shifts of natural numbers.
 */
module BitShift {

  /** 1 << k */
  function Pow2(k: nat): (r: nat)
    ensures r > 0
  {
    if k == 0 then 1 else 2 * Pow2(k - 1)
  }

  /** x >> i */
  function Shift(x: nat, i: nat): (r: nat) {
    if i == 0 then x else Shift(x, i - 1) / 2
  }

  lemma {:induction false} ShiftBound(x: nat, i: nat, j: nat)
    requires x < Pow2(i + j)
    ensures Shift(x, i) < Pow2(j)
  {
    if i > 0 {
      ShiftBound(x, i - 1, j + 1);
    }
  }
}
