/** Shared arithmetic. */
module Numbers {

  function Min(a: nat, b: nat): nat {
    if a <= b then a else b
  }

  lemma DivisionUnique(n: nat, step: nat, q: nat, r: nat)
    requires n == q * step + r && r < step
    ensures n / step == q && n % step == r
  {
    var e := n / step - q;
    assert e * step == r - n % step;
    SmallMultiple(e, step);
  }

  lemma SmallMultiple(e: int, step: int)
    requires -step < e * step < step
    ensures e == 0
  {
    if e >= 1 { AtLeastOne(e, step); }
    if e <= -1 { AtLeastOne(-e, step); }
  }

  lemma AtLeastOne(e: int, step: int)
    requires e >= 1 && step >= 0
    ensures e * step >= step
  {
  }
}
