/**
 Congruence of integers modulo p, and the powers and inverses built on it.

 Field elements are integers in [0, p).  Proofs are carried out over the
 integers, where the solver can normalise polynomials, and are moved to the
 field by `Cong`.  `Cong` names its witness instead of using `%`, which keeps
 division out of every proof but the few in this file.
 */
module Modular {

  function Times(k: int, p: int): int { k * p }

  /** a and b differ by a multiple of p. */
  ghost predicate Cong(p: int, a: int, b: int) {
    exists k: int :: a == b + Times(k, p)
  }

  lemma CongBy(p: int, a: int, b: int, k: int)
    requires a == b + k * p
    ensures Cong(p, a, b)
  {
    assert a == b + Times(k, p);
  }

  lemma CongRefl(p: int, a: int)
    ensures Cong(p, a, a)
  {
    CongBy(p, a, a, 0);
  }

  lemma CongSym(p: int, a: int, b: int)
    requires Cong(p, a, b)
    ensures Cong(p, b, a)
  {
    var k :| a == b + Times(k, p);
    CongBy(p, b, a, -k);
  }

  lemma CongTrans(p: int, a: int, b: int, c: int)
    requires Cong(p, a, b) && Cong(p, b, c)
    ensures Cong(p, a, c)
  {
    var k :| a == b + Times(k, p);
    var l :| b == c + Times(l, p);
    CongBy(p, a, c, k + l);
  }

  lemma CongAdd(p: int, a: int, b: int, c: int, d: int)
    requires Cong(p, a, b) && Cong(p, c, d)
    ensures Cong(p, a + c, b + d)
  {
    var k :| a == b + Times(k, p);
    var l :| c == d + Times(l, p);
    CongBy(p, a + c, b + d, k + l);
  }

  lemma CongSub(p: int, a: int, b: int, c: int, d: int)
    requires Cong(p, a, b) && Cong(p, c, d)
    ensures Cong(p, a - c, b - d)
  {
    var k :| a == b + Times(k, p);
    var l :| c == d + Times(l, p);
    CongBy(p, a - c, b - d, k - l);
  }

  lemma CongMul(p: int, a: int, b: int, c: int, d: int)
    requires Cong(p, a, b) && Cong(p, c, d)
    ensures Cong(p, a * c, b * d)
  {
    var k :| a == b + Times(k, p);
    var l :| c == d + Times(l, p);
    assert a * c == (b + k * p) * (d + l * p) == b * d + (b * l + k * d + k * l * p) * p;
    CongBy(p, a * c, b * d, b * l + k * d + k * l * p);
  }

  lemma CongScale(p: int, c: int, a: int, b: int)
    requires Cong(p, a, b)
    ensures Cong(p, c * a, c * b)
  {
    CongRefl(p, c);
    CongMul(p, c, c, a, b);
  }

  lemma DivModUnique(p: int, x: int, q: int, r: int)
    requires p > 0 && 0 <= r < p && x == q * p + r
    ensures x / p == q && x % p == r
  {
    assert x == (x / p) * p + x % p;
    var d := q - x / p;
    assert d * p == x % p - r;
    assert d >= 1 ==> d * p >= p;
    assert d <= -1 ==> d * p <= -p;
  }

  lemma ModCong(p: int, a: int)
    requires p > 0
    ensures Cong(p, a % p, a) && Cong(p, a, a % p)
  {
    CongBy(p, a % p, a, -(a / p));
    CongBy(p, a, a % p, a / p);
  }

  lemma CongMod(p: int, a: int, b: int)
    requires p > 0
    ensures Cong(p, a, b) <==> a % p == b % p
  {
    if Cong(p, a, b) {
      var k :| a == b + Times(k, p);
      var q, r := b / p, b % p;
      assert a == (q + k) * p + r;
      DivModUnique(p, a, q + k, r);
    }
    if a % p == b % p {
      CongBy(p, a, b, a / p - b / p);
    }
  }

  /** Congruent residues are equal. */
  lemma CongEqual(p: int, a: int, b: int)
    requires p > 0 && 0 <= a < p && 0 <= b < p && Cong(p, a, b)
    ensures a == b
  {
    CongMod(p, a, b);
    DivModUnique(p, a, 0, a);
    DivModUnique(p, b, 0, b);
  }

  lemma SmallMod(p: int, a: int)
    requires p > 0 && 0 <= a < p
    ensures a % p == a
  {
    DivModUnique(p, a, 0, a);
  }

  // ---------------------------------------------------------------- powers

  function Pow(b: int, e: nat): int {
    if e == 0 then 1 else b * Pow(b, e - 1)
  }

  function Pow2(e: nat): (r: nat)
    ensures r > 0
  {
    if e == 0 then 1 else 2 * Pow2(e - 1)
  }

  lemma {:induction false} PowAdd(b: int, d: nat, e: nat)
    ensures Pow(b, d + e) == Pow(b, d) * Pow(b, e)
  {
    if d > 0 {
      PowAdd(b, d - 1, e);
      assert Pow(b, d + e) == b * Pow(b, d - 1 + e);
      assert b * (Pow(b, d - 1) * Pow(b, e)) == (b * Pow(b, d - 1)) * Pow(b, e);
    }
  }

  lemma MulInterchange(a: int, b: int, x: int, y: int)
    ensures (a * b) * (x * y) == (a * x) * (b * y)
  {
  }

  lemma {:induction false} PowOfProduct(a: int, b: int, e: nat)
    ensures Pow(a * b, e) == Pow(a, e) * Pow(b, e)
  {
    if e > 0 {
      PowOfProduct(a, b, e - 1);
      MulInterchange(a, b, Pow(a, e - 1), Pow(b, e - 1));
    }
  }

  lemma {:induction false} PowOfPow(b: int, d: nat, e: nat)
    ensures d * e >= 0 && Pow(Pow(b, d), e) == Pow(b, d * e)
  {
    if e > 0 {
      PowOfPow(b, d, e - 1);
      assert d * e == d + d * (e - 1);
      PowAdd(b, d, d * (e - 1));
    }
  }

  lemma {:induction false} PowOne(e: nat)
    ensures Pow(1, e) == 1
  {
    if e > 0 { PowOne(e - 1); }
  }

  lemma {:induction false} CongPow(p: int, a: int, b: int, e: nat)
    requires Cong(p, a, b)
    ensures Cong(p, Pow(a, e), Pow(b, e))
  {
    if e == 0 {
      CongRefl(p, 1);
    } else {
      CongPow(p, a, b, e - 1);
      CongMul(p, a, b, Pow(a, e - 1), Pow(b, e - 1));
    }
  }

  lemma Assoc(a: int, b: int, c: int)
    ensures a * (b * c) == (a * b) * c
  {
  }

  lemma {:induction false} Pow2Add(d: nat, e: nat)
    ensures Pow2(d + e) == Pow2(d) * Pow2(e)
  {
    if d == 0 {
      assert Pow2(d) == 1;
    } else {
      Pow2Add(d - 1, e);
      assert Pow2(d + e) == 2 * Pow2(d - 1 + e) && Pow2(d) == 2 * Pow2(d - 1);
      hide Pow2;
      Assoc(2, Pow2(d - 1), Pow2(e));
    }
  }

  lemma {:induction false} Pow2Mono(d: nat, e: nat)
    requires d <= e
    ensures Pow2(d) <= Pow2(e)
    ensures d < e ==> Pow2(d) < Pow2(e)
  {
    if d < e { Pow2Mono(d, e - 1); }
  }

  // -------------------------------------------------------------- inverses

  ghost predicate Prime(p: int) {
    p > 1 && forall d: int :: 1 < d < p ==> p % d != 0
  }

  /** Extended Euclid: the greatest common divisor and its Bezout coefficients. */
  function ExtGcd(a: nat, b: nat): (r: (nat, int, int))
    ensures a * r.1 + b * r.2 == r.0
    ensures Cong(r.0, a, 0) && Cong(r.0, b, 0)
    decreases b
  {
    if b == 0 then
      assert Cong(a, a, 0) && Cong(a, b, 0) by { CongBy(a, a, 0, 1); CongBy(a, b, 0, 0); }
      (a, 1, 0)
    else
      var (g, x, y) := ExtGcd(b, a % b);
      BezoutStep(a, b, a / b, a % b, g, x, y);
      (g, y, x - (a / b) * y)
  }

  /** From the coefficients of b and the remainder to those of a and b. */
  lemma BezoutStep(a: nat, b: nat, q: int, r: nat, g: nat, x: int, y: int)
    requires a == q * b + r && b * x + r * y == g && Cong(g, b, 0) && Cong(g, r, 0)
    ensures a * y + b * (x - q * y) == g
    ensures Cong(g, a, 0)
  {
    CongScale(g, q, b, 0);
    CongAdd(g, q * b, 0, r, 0);
    assert (q * b) * y == b * (q * y);
  }

  /** `invert` of the field: the residue x with a * x = 1, for a != 0. */
  function Inverse(p: int, a: int): (r: int)
    requires p > 1
    ensures 0 <= r < p
  {
    ExtGcd(a % p, p).1 % p
  }

  lemma InverseCorrect(p: int, a: int)
    requires Prime(p) && !Cong(p, a, 0)
    ensures Cong(p, a * Inverse(p, a), 1)
  {
    var (g, x, y) := ExtGcd(a % p, p);
    ModCong(p, a);
    GcdWithPrime(p, a % p, g) by { if Cong(p, a % p, 0) { CongTrans(p, a, a % p, 0); } }
    CongBy(p, (a % p) * x, 1, -y);
    ModCong(p, x);
    CongMul(p, a, a % p, x % p, x);
    CongTrans(p, a * (x % p), (a % p) * x, 1);
  }

  lemma GcdWithPrime(p: int, r: int, g: nat)
    requires Prime(p) && 0 <= r < p && !Cong(p, r, 0)
    requires Cong(g, r, 0) && Cong(g, p, 0)
    ensures g == 1
  {
    var j :| p == 0 + Times(j, g);
    assert g != 0;
    assert g <= p by { assert j <= 0 ==> j * g <= 0; assert j >= 1 ==> j * g >= g; }
    if 1 < g < p {
      DivModUnique(g, p, j, 0);
      assert false;
    }
  }

  /** A field has no zero divisors. */
  lemma NoZeroDivisors(p: int, a: int, b: int)
    requires Prime(p) && Cong(p, a * b, 0) && !Cong(p, a, 0)
    ensures Cong(p, b, 0)
  {
    var v := Inverse(p, a);
    InverseCorrect(p, a);
    CongScale(p, v, a * b, 0);
    CongScale(p, b, a * v, 1);
    assert v * (a * b) == b * (a * v);
    CongSym(p, b * (a * v), b * 1);
    CongTrans(p, b, b * (a * v), 0);
  }

  /** Cancelling a nonzero factor. */
  lemma CongCancel(p: int, c: int, a: int, b: int)
    requires Prime(p) && !Cong(p, c, 0) && Cong(p, c * a, c * b)
    ensures Cong(p, a, b)
  {
    CongRefl(p, c * b);
    CongSub(p, c * a, c * b, c * b, c * b);
    assert c * a - c * b == c * (a - b);
    NoZeroDivisors(p, c, a - b);
    CongRefl(p, b);
    CongAdd(p, a - b, 0, b, b);
  }
}
