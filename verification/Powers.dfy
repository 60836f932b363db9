/** Powers of two. */
module Powers {

  function Power2(k: nat): (p: nat)
    ensures p > 0
  {
    if k == 0 then 1 else 2 * Power2(k - 1)
  }

  lemma {:induction false} Power2Sum(a: nat, b: nat)
    ensures Power2(a + b) == Power2(a) * Power2(b)
  {
    if a > 0 {
      Power2Sum(a - 1, b);
    }
  }

  lemma PowerDouble(k: nat, v: nat)
    requires Power2(k) == v
    ensures Power2(2 * k) == v * v
  {
    Power2Sum(k, k);
  }
}
