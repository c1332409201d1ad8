/** Powers of two. */
module Powers {

  function Pow2(n: nat): (p: nat)
    ensures p > 0
  {
    if n == 0 then 1 else 2 * Pow2(n - 1)
  }

  /** A product of powers of two. */
  lemma {:induction false} Pow2Sum(m: nat, n: nat)
    ensures Pow2(m + n) == Pow2(m) * Pow2(n)
    decreases n
  {
    if n > 0 { Pow2Sum(m, n - 1); }
  }

  lemma Pow2Doubles()
    ensures Pow2(0) == 1 && forall n: nat :: Pow2(n + 1) == 2 * Pow2(n)
  {
  }

  /** What the powers are, up to the number of values of a 64-bit word. */
  lemma Pow2Values()
    ensures Pow2(4) == 16 && Pow2(20) == 1048576 && Pow2(64) == 18446744073709551616
  {
    hide Pow2;
    Pow2Doubles();
    assert Pow2(0 + 1) == 2;
    Pow2Sum(1, 1);
    Pow2Sum(2, 2);
    Pow2Sum(4, 4);
    Pow2Sum(8, 8);
    Pow2Sum(16, 4);
    Pow2Sum(16, 16);
    Pow2Sum(32, 32);
  }

  lemma {:induction false} Pow2Grows(m: nat, n: nat)
    requires m <= n
    ensures Pow2(m) <= Pow2(n)
    decreases n
  {
    if m < n { Pow2Grows(m, n - 1); }
  }
}
