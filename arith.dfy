/** Division facts for a divisor whose value is not known to the verifier
    (the block sizes are symbolic constants). Quotient, remainder and product
    by such a divisor are defined by repeated subtraction and addition, so that
    reasoning about them stays linear; QuotIsDiv and TimesIsMul tie them to the
    C operators on non-negative operands. */
module Arith {

  /** k * d, as k additions of d. */
  function Times(k: nat, d: nat): nat
    decreases k
  {
    if k == 0 then 0 else Times(k - 1, d) + d
  }

  /** x / d for x >= 0, as the number of times d can be taken from x. */
  function Quot(x: nat, d: nat): nat
    requires d > 0
    decreases x
  {
    if x < d then 0 else 1 + Quot(x - d, d)
  }

  /** x % d for x >= 0, as what is left after taking d from x while it fits. */
  function Rem(x: nat, d: nat): (r: nat)
    requires d > 0
    ensures r < d
    decreases x
  {
    if x < d then x else Rem(x - d, d)
  }

  lemma {:induction false} QuotRem(x: nat, d: nat)
    requires d > 0
    ensures x == Times(Quot(x, d), d) + Rem(x, d)
    decreases x
  {
    if x >= d {
      QuotRem(x - d, d);
    }
  }

  /** Quotient and remainder are determined by x == q * d + r with r < d. */
  lemma {:induction false} QuotRemUnique(x: nat, d: nat, q: nat, r: nat)
    requires d > 0 && r < d && x == Times(q, d) + r
    ensures Quot(x, d) == q && Rem(x, d) == r
    decreases q
  {
    if q > 0 {
      QuotRemUnique(x - d, d, q - 1, r);
    }
  }

  /** Multiplying by a positive d keeps the order of the factors. */
  lemma {:induction false} TimesLess(a: nat, b: nat, d: nat)
    requires d > 0
    ensures a < b <==> Times(a, d) < Times(b, d)
    decreases a + b
  {
    if a > 0 && b > 0 {
      TimesLess(a - 1, b - 1, d);
    }
  }

  /** A position before J * d + off lies in an earlier block, or in block J
      before offset off. */
  lemma TimesBefore(q: nat, J: nat, off: nat, d: nat)
    requires d > 0 && off < d && q < Times(J, d) + off
    ensures Quot(q, d) < J || (Quot(q, d) == J && Rem(q, d) < off)
  {
    QuotRem(q, d);
  }

  lemma {:induction false} TimesIsMul(k: nat, d: nat)
    ensures Times(k, d) == k * d
    decreases k
  {
    if k > 0 {
      TimesIsMul(k - 1, d);
    }
  }

  /** Quot and Rem are C's / and % on non-negative operands. */
  lemma QuotIsDiv(x: nat, d: nat)
    requires d > 0
    ensures Quot(x, d) == x / d && Rem(x, d) == x % d
  {
    QuotRem(x, d);
    TimesIsMul(Quot(x, d), d);
    DivModUnique(x, d, Quot(x, d), Rem(x, d));
  }

  lemma {:induction false} MulAtLeast(k: int, d: int)
    requires k >= 1 && d > 0
    ensures k * d >= d
    decreases k
  {
    if k > 1 {
      MulAtLeast(k - 1, d);
      assert k * d == (k - 1) * d + d;
    }
  }

  /** Quotient and remainder are determined by x == q * d + r with 0 <= r < d. */
  lemma DivModUnique(x: int, d: int, q: int, r: int)
    requires d > 0 && 0 <= r < d && x == q * d + r
    ensures x / d == q && x % d == r
  {
    var q0, r0 := x / d, x % d;
    assert x == q0 * d + r0;
    assert (q0 - q) * d == r - r0 by {
      assert (q0 - q) * d == q0 * d - q * d;
    }
    if q0 > q {
      MulAtLeast(q0 - q, d);
    } else if q0 < q {
      MulAtLeast(q - q0, d);
    }
  }

  lemma DivBounds(x: int, d: int)
    requires d > 0 && x >= 0
    ensures 0 <= x / d && 0 <= x % d < d && x == (x / d) * d + x % d
  {
  }
}
