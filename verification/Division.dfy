/** Facts about products and quotients of variables. */
module Division {

  function Quotient(x: nat, s: nat): nat
    requires s > 0
  {
    x / s
  }

  lemma QuotientIs(x: nat, s: nat, q: nat)
    requires s > 0 && q * s <= x < (q + 1) * s
    ensures x / s == q
  {
    var r := x / s;
    assert x == r * s + x % s;
    if r < q {
      MulMonotone(r + 1, q, s);
      assert false;
    }
    if q < r {
      MulMonotone(q + 1, r, s);
      assert false;
    }
  }

  lemma MulMonotone(a: nat, b: nat, s: nat)
    requires a <= b
    ensures a * s <= b * s
  {
  }

  lemma Splits(n: nat, s: nat)
    requires s > 0
    ensures n / s * s + n % s == n && n % s < s
  {
  }

  lemma RemainderIs(x: nat, s: nat, q: nat, r: nat)
    requires s > 0 && q * s + r == x && r < s
    ensures x / s == q && x % s == r
  {
    MulStep(q, s);
    QuotientIs(x, s, q);
    Splits(x, s);
  }

  lemma MulStep(q: nat, s: nat)
    ensures (q + 1) * s == q * s + s
  {
  }

  lemma DivStep(m: nat, s: nat)
    requires 0 < s <= m
    ensures m / s == (m - s) / s + 1
  {
    var q := (m - s) / s;
    assert m - s == q * s + (m - s) % s;
    QuotientIs(m, s, q + 1);
  }
}
