/** Bit operations on natural numbers, digit by digit. */
module Bits {
  import opened Division

  function Pow2(k: nat): (r: nat)
    ensures r > 0
  {
    if k == 0 then 1 else 2 * Pow2(k - 1)
  }

  ghost predicate IsPow2(n: nat) {
    exists k: nat :: n == Pow2(k)
  }

  lemma DoublePow2(n: nat)
    requires IsPow2(n)
    ensures IsPow2(2 * n)
  {
    var k: nat :| n == Pow2(k);
    assert 2 * n == Pow2(k + 1);
  }

  function Rem(x: nat, m: nat): nat
    requires m > 0
  {
    x % m
  }

  /** x & y */
  function And(x: nat, y: nat): nat {
    if x == 0 || y == 0 then 0 else x % 2 * (y % 2) + 2 * And(x / 2, y / 2)
  }

  /** x | y */
  function Or(x: nat, y: nat): nat {
    if x == 0 then y else (if x % 2 == 1 || y % 2 == 1 then 1 else 0) + 2 * Or(x / 2, y / 2)
  }

  /** Halving the number and the divisor, the remainder loses its last digit. */
  lemma HalfMod(x: nat, n: nat)
    requires n > 0
    ensures Rem(x, 2 * n) == x % 2 + 2 * Rem(x / 2, n)
  {
    var h := x / 2;
    var q, r := h / n, h % n;
    Splits(h, n);
    Twice(q, n);
    RemainderIs(x, 2 * n, q, x % 2 + 2 * r);
  }

  lemma Twice(q: nat, n: nat)
    ensures q * (2 * n) == 2 * (q * n)
  {
  }

  lemma OddMask(n: nat)
    requires n > 0
    ensures (2 * n - 1) % 2 == 1 && (2 * n - 1) / 2 == n - 1
  {
  }

  lemma AndStep(x: nat, n: nat)
    requires n > 0
    ensures And(x, 2 * n - 1) == x % 2 + 2 * And(x / 2, n - 1)
  {
    OddMask(n);
  }

  lemma OrStep(x: nat, n: nat)
    requires x > 0 && n > 0
    ensures Or(x, 2 * n - 1) == 1 + 2 * Or(x / 2, n - 1)
  {
    OddMask(n);
  }

  /** Masking with one bits takes the remainder. */
  lemma {:induction false} AndMask(x: nat, k: nat)
    ensures And(x, Pow2(k) - 1) == Rem(x, Pow2(k))
    decreases k
  {
    hide And, Rem;
    if k == 0 {
      AndNothing(x);
      RemOne(x);
    } else {
      AndMask(x / 2, k - 1);
      AndStep(x, Pow2(k - 1));
      HalfMod(x, Pow2(k - 1));
    }
  }

  /** A number is its high bits, shifted down and up again, and its low bits. */
  lemma SplitBits(x: nat, k: nat)
    ensures x / Pow2(k) * Pow2(k) + And(x, Pow2(k) - 1) == x && And(x, Pow2(k) - 1) < Pow2(k)
  {
    hide And, Pow2;
    AndMask(x, k);
    Splits(x, Pow2(k));
  }

  /** Filling in one bits goes to the last number with the same quotient. */
  lemma {:induction false} OrMask(x: nat, k: nat)
    ensures Or(x, Pow2(k) - 1) == x - Rem(x, Pow2(k)) + Pow2(k) - 1
    decreases k
  {
    hide Or, Rem;
    if k == 0 {
      OrNothing(x);
      RemOne(x);
    } else if x == 0 {
      OrZero(Pow2(k));
    } else {
      OrMask(x / 2, k - 1);
      OrStep(x, Pow2(k - 1));
      HalfMod(x, Pow2(k - 1));
    }
  }

  lemma AndNothing(x: nat)
    ensures And(x, 0) == 0
  {
  }

  lemma RemOne(x: nat)
    ensures Rem(x, 1) == 0
  {
  }

  lemma OrZero(m: nat)
    requires m > 0
    ensures Or(0, m - 1) == m - 1 && Rem(0, m) == 0
  {
  }

  lemma {:induction false} OrNothing(x: nat)
    ensures Or(x, 0) == x
  {
    if x > 0 {
      OrNothing(x / 2);
    }
  }
}
