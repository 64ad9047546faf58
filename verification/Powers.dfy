/** Powers of two and ten. */
module Powers {

  function Power2(k: nat): (p: nat)
    ensures p >= 1
  {
    if k == 0 then 1 else 2 * Power2(k - 1)
  }

  lemma {:induction false} PowerSum(a: nat, b: nat)
    ensures Power2(a + b) == Power2(a) * Power2(b)
  {
    if b > 0 {
      PowerSum(a, b - 1);
    }
  }

  lemma PowerMonotone(a: nat, b: nat)
    requires a <= b
    ensures Power2(a) <= Power2(b)
  {
    PowerSum(a, b - a);
    Grows(Power2(a), Power2(b - a));
  }

  lemma Grows(x: nat, y: nat)
    requires y >= 1
    ensures x <= x * y
  {
  }

  function Power10(k: nat): (p: nat)
    ensures p >= 1
  {
    if k == 0 then 1 else 10 * Power10(k - 1)
  }
}
