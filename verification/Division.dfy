/** Facts about dividing integers that the solver has to be told. */
module Division {

  lemma AtLeastOnce(a: int, d: int)
    requires a >= 1 && d > 0
    ensures a * d >= d
  {
    assert a * d == (a - 1) * d + d;
    assert (a - 1) * d >= 0;
  }

  lemma DivUnique(x: int, d: int, q: int, r: int)
    requires x == q * d + r && 0 <= r < d
    ensures x / d == q && x % d == r
  {
    var q', r' := x / d, x % d;
    assert x == q' * d + r';
    assert (q - q') * d == q * d - q' * d;
    if q > q' {
      AtLeastOnce(q - q', d);
    } else if q < q' {
      assert (q' - q) * d == q' * d - q * d;
      AtLeastOnce(q' - q, d);
    }
  }

  lemma DivStep(x: int, d: int)
    requires d > 0
    ensures x >= d ==> x / d == (x - d) / d + 1 && x % d == (x - d) % d
    ensures 0 <= x < d ==> x / d == 0 && x % d == x
  {
    if x >= d {
      var q, r := (x - d) / d, (x - d) % d;
      assert x == (q + 1) * d + r;
      DivUnique(x, d, q + 1, r);
    }
  }

  lemma RemainderBound(x: int, d: int)
    requires d > 0 && x >= 0
    ensures x % d <= x
  {
    DivStep(x, d);
  }

  lemma {:induction false} QuotientBound(x: nat, d: nat)
    requires d > 0
    ensures 0 <= x / d <= x
    decreases x
  {
    DivStep(x, d);
    if x >= d {
      QuotientBound(x - d, d);
    }
  }
}
