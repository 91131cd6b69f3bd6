/**
 Arithmetic modulo a prime, as far as secret sharing needs it: congruence, inverses, and
 the moments of the Lagrange weights at zero.
 */
module Scalars {

  function Times(k: int, p: int): int {
    k * p
  }

  ghost predicate MultipleOf(n: int, d: int) {
    exists k :: n == Times(k, d)
  }

  ghost predicate Prime(p: int) {
    p >= 2 && forall d :: 2 <= d < p ==> !MultipleOf(p, d)
  }

  ghost predicate Cong(a: int, b: int, p: int) {
    MultipleOf(a - b, p)
  }

  // ---------------------------------------------------------------- congruence

  lemma CongBy(a: int, b: int, k: int, p: int)
    requires a - b == k * p
    ensures Cong(a, b, p)
  {
    assert a - b == Times(k, p);
  }

  lemma CongRefl(a: int, p: int)
    ensures Cong(a, a, p)
  {
    CongBy(a, a, 0, p);
  }

  lemma CongSym(a: int, b: int, p: int)
    requires Cong(a, b, p)
    ensures Cong(b, a, p)
  {
    var k :| a - b == Times(k, p);
    CongBy(b, a, -k, p);
  }

  lemma CongTrans(a: int, b: int, c: int, p: int)
    requires Cong(a, b, p) && Cong(b, c, p)
    ensures Cong(a, c, p)
  {
    var k :| a - b == Times(k, p);
    var l :| b - c == Times(l, p);
    CongBy(a, c, k + l, p);
  }

  lemma CongAdd(a: int, b: int, c: int, d: int, p: int)
    requires Cong(a, b, p) && Cong(c, d, p)
    ensures Cong(a + c, b + d, p)
  {
    var k :| a - b == Times(k, p);
    var l :| c - d == Times(l, p);
    CongBy(a + c, b + d, k + l, p);
  }

  lemma CongSub(a: int, b: int, c: int, d: int, p: int)
    requires Cong(a, b, p) && Cong(c, d, p)
    ensures Cong(a - c, b - d, p)
  {
    var k :| a - b == Times(k, p);
    var l :| c - d == Times(l, p);
    CongBy(a - c, b - d, k - l, p);
  }

  lemma CongScale(a: int, b: int, c: int, p: int)
    requires Cong(a, b, p)
    ensures Cong(a * c, b * c, p) && Cong(c * a, c * b, p)
  {
    var k :| a - b == Times(k, p);
    assert a * c - b * c == (a - b) * c == k * p * c == (k * c) * p;
    CongBy(a * c, b * c, k * c, p);
  }

  lemma CongMul(a: int, b: int, c: int, d: int, p: int)
    requires Cong(a, b, p) && Cong(c, d, p)
    ensures Cong(a * c, b * d, p)
  {
    CongScale(a, b, c, p);
    CongScale(c, d, b, p);
    CongTrans(a * c, b * c, b * d, p);
  }

  lemma CongMod(a: int, p: int)
    requires p > 0
    ensures Cong(a % p, a, p) && Cong(a, a % p, p)
  {
    assert a == p * (a / p) + a % p;
    CongBy(a % p, a, -(a / p), p);
    CongSym(a % p, a, p);
  }

  /** Congruent reduced values are equal. */
  lemma CongEqual(a: int, b: int, p: int)
    requires 0 <= a < p && 0 <= b < p && Cong(a, b, p)
    ensures a == b
  {
    var k :| a - b == Times(k, p);
    assert k > 0 ==> k * p >= p;
    assert k < 0 ==> k * p <= -p;
  }

  lemma CongToMod(a: int, b: int, p: int)
    requires p > 0 && Cong(a, b, p)
    ensures a % p == b % p
  {
    CongMod(a, p);
    CongMod(b, p);
    CongTrans(a % p, a, b, p);
    CongTrans(a % p, b, b % p, p);
    CongEqual(a % p, b % p, p);
  }

  // ---------------------------------------------------------------- inverses

  /** Extended Euclid: coefficients and the greatest common divisor. */
  function ExtGcd(a: nat, b: nat): (r: (int, int, nat))
    ensures a * r.0 + b * r.1 == r.2
    decreases b
  {
    if b == 0 then (1, 0, a)
    else
      var (x, y, g) := ExtGcd(b, a % b);
      assert a == b * (a / b) + a % b;
      assert a * y + b * (x - (a / b) * y) == b * x + (a - b * (a / b)) * y;
      (y, x - (a / b) * y, g)
  }

  lemma {:induction false} GcdDivides(a: nat, b: nat)
    ensures MultipleOf(a, ExtGcd(a, b).2) && MultipleOf(b, ExtGcd(a, b).2)
    decreases b
  {
    var g := ExtGcd(a, b).2;
    if b == 0 {
      assert a == Times(1, g) && b == Times(0, g);
    } else {
      GcdDivides(b, a % b);
      Division(a, b);
      MultipleCombines(b, a / b, a % b, g);
    }
  }

  lemma Division(a: nat, b: nat)
    requires b > 0
    ensures a == b * (a / b) + a % b
  {
  }

  lemma MultipleCombines(b: int, q: int, r: int, g: int)
    requires MultipleOf(b, g) && MultipleOf(r, g)
    ensures MultipleOf(b * q + r, g)
  {
    var k :| b == Times(k, g);
    var l :| r == Times(l, g);
    assert (k * g) * q + l * g == (k * q + l) * g;
    assert b * q + r == Times(k * q + l, g);
  }

  /** The multiplicative inverse modulo `p`; zero for zero. */
  function Inverse(a: int, p: nat): (r: nat)
    requires p > 0
    ensures r < p
  {
    ExtGcd(a % p, p).0 % p
  }

  ghost predicate Invertible(a: int, p: nat) {
    !Cong(a, 0, p)
  }

  lemma GcdWithPrime(a: nat, p: nat)
    requires Prime(p) && 0 < a < p
    ensures ExtGcd(a, p).2 == 1
  {
    var g := ExtGcd(a, p).2;
    GcdDivides(a, p);
    var k :| a == Times(k, g);
    FactorBound(k, g);
  }

  lemma FactorBound(k: int, g: nat)
    requires k * g > 0
    ensures 0 < g <= k * g
  {
    assert k > 0;
  }

  /** Modulo a prime, whatever is not congruent to zero has its inverse. */
  lemma InverseWorks(a: int, p: nat)
    requires Prime(p) && Invertible(a, p)
    ensures Cong(a * Inverse(a, p), 1, p)
  {
    var m := a % p;
    CongMod(a, p);
    assert m != 0;
    GcdWithPrime(m, p);
    var (x, y, g) := ExtGcd(m, p);
    assert m * x - 1 == (-y) * p;
    CongBy(m * x, 1, -y, p);
    CongMod(x, p);
    CongMul(a, m, x % p, x, p);
    CongTrans(a * (x % p), m * x, 1, p);
  }

  lemma Cancel(c: int, u: int, v: int, p: nat)
    requires Prime(p) && Invertible(c, p) && Cong(c * u, c * v, p)
    ensures Cong(u, v, p)
  {
    hide Cong, Inverse;
    var i := Inverse(c, p);
    InverseWorks(c, p);
    CongScale(c * u, c * v, i, p);
    CongScale(c * i, 1, u, p);
    CongScale(c * i, 1, v, p);
    SwapFactors(c, u, i);
    SwapFactors(c, v, i);
    CongSym(c * i * u, 1 * u, p);
    CongTrans(u, c * i * u, c * i * v, p);
    CongTrans(u, c * i * v, v, p);
  }

  lemma SwapFactors(a: int, b: int, c: int)
    ensures a * b * c == a * c * b
  {
  }

  lemma ProductInvertible(a: int, b: int, p: nat)
    requires Prime(p) && Invertible(a, p) && Invertible(b, p)
    ensures Invertible(a * b, p)
  {
    if Cong(a * b, 0, p) {
      assert 0 == a * 0;
      Cancel(a, b, 0, p);
    }
  }

  lemma InverseUnique(a: int, b: int, p: nat)
    requires Prime(p) && Invertible(a, p) && Cong(a * b, 1, p)
    ensures Cong(b, Inverse(a, p), p)
  {
    InverseWorks(a, p);
    CongSym(a * Inverse(a, p), 1, p);
    CongTrans(a * b, 1, a * Inverse(a, p), p);
    Cancel(a, b, Inverse(a, p), p);
  }

  lemma InverseCong(a: int, b: int, p: nat)
    requires p > 0 && Cong(a, b, p)
    ensures Inverse(a, p) == Inverse(b, p)
  {
    CongToMod(a, b, p);
  }

  /** Two small distinct points differ by something invertible. */
  lemma DifferenceInvertible(x: int, y: int, p: nat)
    requires 0 <= x < p && 0 <= y < p && x != y
    ensures Invertible(x - y, p)
  {
    if Cong(x - y, 0, p) {
      var k :| x - y - 0 == Times(k, p);
      CongBy(x, y, k, p);
      CongEqual(x, y, p);
    }
  }
}
