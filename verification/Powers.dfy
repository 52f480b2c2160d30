/** Powers of two and powers of a real factor. */
module Powers {
  import opened Reals

  function Pow2(e: nat): (p: nat)
    ensures p >= 1
  {
    if e == 0 then 1 else 2 * Pow2(e - 1)
  }

  function Power(c: real, n: nat): real {
    if n == 0 then 1.0 else Mul(c, Power(c, n - 1))
  }

  lemma {:induction false} PowerAdd(c: real, a: nat, b: nat)
    ensures Power(c, a + b) == Mul(Power(c, a), Power(c, b))
  {
    if b > 0 {
      PowerAdd(c, a, b - 1);
      MulRotate(c, Power(c, a), Power(c, b - 1));
    }
  }

  lemma PowerOne(a: real)
    ensures Power(a, 1) == a
  {
    assert Power(a, 1) == Mul(a, Power(a, 0));
    MulOne(a);
  }
}
