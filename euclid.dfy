/**
 * The greatest-common-divisor helper of blowfish.cpp, used by the key
 * schedule to size its temporary buffer of key words.
 */
module Euclid {

  /** d divides n. */
  predicate Divides(d: int, n: int)
    requires d > 0
  {
    n % d == 0
  }

  /** A multiple of d is divisible by d. */
  lemma MultipleDivides(d: int, k: int)
    requires d > 0
    ensures Divides(d, d * k)
  {
    var q, r := (d * k) / d, (d * k) % d;
    assert d * k == d * q + r && 0 <= r < d;
    assert r == d * (k - q);
    if k - q >= 1 {
      assert false;
    } else if k - q <= -1 {
      assert false;
    }
  }

  /** Adding a multiple of n does not change the remainder modulo n. */
  lemma ModAddMultiple(n: int, a: int, k: int)
    requires n > 0
    ensures (a + n * k) % n == a % n
  {
    var q, r := (a + n * k) / n, (a + n * k) % n;
    var q0, r0 := a / n, a % n;
    assert a + n * k == n * q + r && 0 <= r < n;
    assert a == n * q0 + r0 && 0 <= r0 < n;
    assert r - r0 == n * (q0 + k - q);
    if q0 + k - q >= 1 {
      assert false;
    } else if q0 + k - q <= -1 {
      assert false;
    }
  }

  /** Divisibility by d is closed under x + y * q. */
  lemma DividesCombination(d: int, x: int, y: int, q: int)
    requires d > 0 && Divides(d, x) && Divides(d, y)
    ensures Divides(d, x + y * q)
  {
    var a, b := x / d, y / d;
    assert x == d * a && y == d * b;
    assert x + y * q == d * (a + b * q);
    MultipleDivides(d, a + b * q);
  }

  /** A positive multiple of d is at least d. */
  lemma DivisorBound(d: int, n: int)
    requires d > 0 && n > 0 && Divides(d, n)
    ensures d <= n
  {
    var q := n / d;
    assert n == d * q;
  }

  /** One Euclidean step keeps the common divisors: those of (a, b) are those of (b, a % b). */
  lemma EuclidStep(d: int, a: int, b: int)
    requires d > 0 && b > 0
    ensures Divides(d, a) && Divides(d, b) <==> Divides(d, b) && Divides(d, a % b)
  {
    var q, r := a / b, a % b;
    assert a == b * q + r;
    if Divides(d, a) && Divides(d, b) {
      DividesCombination(d, a, b, -q);
      assert a + b * -q == r;
    }
    if Divides(d, b) && Divides(d, r) {
      DividesCombination(d, r, b, q);
    }
  }

  /**
   * `GCD(larger, smaller)`: Euclid's algorithm. For a positive `smaller` and
   * a `larger` that is not negative the loop ends, and the result divides
   * both arguments and is divisible by (hence at least as large as) every
   * common divisor.
   */
  method GCD(larger: int, smaller: int) returns (gcd: int)
    requires larger >= 0 && smaller > 0
    ensures gcd > 0 && Divides(gcd, larger) && Divides(gcd, smaller)
    ensures forall d :: d > 0 && Divides(d, larger) && Divides(d, smaller) ==>
                          Divides(d, gcd) && d <= gcd
  {
    gcd := smaller;
    var gcdPrev := larger;
    var gcdNext := gcdPrev % gcd;
    while gcdNext != 0
      invariant gcd > 0 && gcdPrev >= 0 && gcdNext == gcdPrev % gcd
      invariant forall d :: d > 0 ==>
                  (Divides(d, gcdPrev) && Divides(d, gcd) <==> Divides(d, larger) && Divides(d, smaller))
      decreases gcd
    {
      forall d | d > 0
        ensures Divides(d, gcdPrev) && Divides(d, gcd) <==> Divides(d, gcd) && Divides(d, gcdNext)
      {
        EuclidStep(d, gcdPrev, gcd);
      }
      gcdPrev := gcd;
      gcd := gcdNext;
      gcdNext := gcdPrev % gcd;
    }
    assert Divides(gcd, gcdPrev) && Divides(gcd, gcd);
    forall d | d > 0 && Divides(d, larger) && Divides(d, smaller)
      ensures Divides(d, gcd) && d <= gcd
    {
      DivisorBound(d, gcd);
    }
  }
}
