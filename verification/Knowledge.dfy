/**
 Knowledge soundness of the argument of crates/groth16 against affine provers:
 whoever can combine the elements of the key, with coefficients fixed before the
 trapdoor is drawn, into proofs that are always accepted has a satisfying
 assignment among these coefficients. This is the argument of section 3.2 of
 Groth's paper, by comparing coefficients.
 */
module Knowledge {
  import opened Modular
  import opened Polynomials
  import opened Dft
  import opened Fft
  import opened Quotient
  import opened Circuit
  import opened Synthesis
  import opened Prover
  import opened Verifier
  import opened Completeness
  import opened Argument

  // ----------------------------------------------- comparing coefficients

  /** Four roots are too many for four coefficients. */
  lemma SmallRoots(p: int, a: Vec)
    requires Prime(p) && p > 4 && |a| <= 4
    requires Cong(p, Eval(a, 1), 0) && Cong(p, Eval(a, 2), 0) && Cong(p, Eval(a, 3), 0) && Cong(p, Eval(a, 4), 0)
    ensures forall i :: 0 <= i < |a| ==> Cong(p, a[i], 0)
  {
    hide Eval, Cong;
    var ts := {1, 2, 3, 4};
    assert |ts| == 4;
    TooManyRoots(p, a, ts);
    forall i | 0 <= i < |a| ensures Cong(p, a[i], 0) {
      assert Cong(p, a[i], Zeros(|a|)[i]) by { CongVecAt(p, a, Zeros(|a|), i); }
    }
  }

  lemma CongVecAt(p: int, a: Vec, b: Vec, i: nat)
    requires CongVec(p, a, b) && i < |a|
    ensures Cong(p, a[i], b[i])
  {
  }

  lemma EvalFour(a: int, b: int, c: int, d: int, x: int)
    ensures Eval([a, b, c, d], x) == a + x * (b + x * (c + x * d))
  {
    UnfoldEval([a, b, c, d], x);
    UnfoldEval([b, c, d], x);
    UnfoldEval([c, d], x);
    UnfoldEval([d], x);
    UnfoldEval([], x);
    assert [a, b, c, d][1..] == [b, c, d] && [b, c, d][1..] == [c, d] && [c, d][1..] == [d] && [d][1..] == [];
  }

  /** (x + y X + z / X) * (b + c X) = k + X * (e0 + e1 X) at X = v with inverse d. */
  ghost predicate Balances(p: int, x: int, y: int, z: int, b: int, c: int, k: int, e0: int, e1: int, v: int, d: int) {
    Cong(p, (x + y * v + z * d) * (b + c * v), k + v * (e0 + e1 * v))
  }

  ghost predicate Always(p: int, x: int, y: int, z: int, b: int, c: int, k: int, e0: int, e1: int) {
    forall v, d :: Cong(p, d * v, 1) ==> Balances(p, x, y, z, b, c, k, e0, e1, v, d)
  }

  /** The left side times X, without the inverse. */
  lemma ClearedLeft(p: int, x: int, y: int, z: int, r: int, v: int, d: int)
    requires Cong(p, d * v, 1)
    ensures Cong(p, v * ((x + y * v + z * d) * r), (v * (x + y * v) + z * 1) * r)
  {
    hide Cong;
    CongScale(p, z, d * v, 1);
    CongRefl(p, v * (x + y * v));
    CongAdd(p, v * (x + y * v), v * (x + y * v), z * (d * v), z * 1);
    CongRefl(p, r);
    CongMul(p, v * (x + y * v) + z * (d * v), v * (x + y * v) + z * 1, r, r);
    Distributed(x, y, z, d, v, r);
  }

  /** The equation times X, as a polynomial in X. */
  lemma Cleared(p: int, x: int, y: int, z: int, b: int, c: int, k: int, e0: int, e1: int, v: int, d: int)
    requires Cong(p, d * v, 1) && Balances(p, x, y, z, b, c, k, e0, e1, v, d)
    ensures Cong(p, Eval([z * b, x * b + z * c - k, x * c + y * b - e0, y * c - e1], v), 0)
  {
    hide Cong, Eval;
    var l, m, r := (x + y * v + z * d) * (b + c * v), (v * (x + y * v) + z * 1) * (b + c * v), k + v * (e0 + e1 * v);
    ClearedLeft(p, x, y, z, b + c * v, v, d);
    EvalFour(z * b, x * b + z * c - k, x * c + y * b - e0, y * c - e1, v);
    AsPolynomial(x, y, z, b, c, k, e0, e1, v);
    assert Cong(p, l, r);
    ClearedDifference(p, l, r, m, v);
  }

  lemma ClearedDifference(p: int, l: int, r: int, m: int, v: int)
    requires Cong(p, l, r) && Cong(p, v * l, m)
    ensures Cong(p, m - v * r, 0)
  {
    CongScale(p, v, l, r);
    CongSym(p, v * l, m);
    CongTrans(p, m, v * l, v * r);
    CongRefl(p, v * r);
    CongSub(p, m, v * r, v * r, v * r);
  }

  lemma Distributed(x: int, y: int, z: int, d: int, v: int, r: int)
    ensures (v * (x + y * v) + z * (d * v)) * r == v * ((x + y * v + z * d) * r)
  {
    var s := x + y * v;
    assert z * (d * v) == v * (z * d);
    assert v * s + v * (z * d) == v * (s + z * d);
    MulAssoc(v, s + z * d, r);
  }

  lemma AsPolynomial(x: int, y: int, z: int, b: int, c: int, k: int, e0: int, e1: int, v: int)
    ensures (v * (x + y * v) + z * 1) * (b + c * v) - v * (k + v * (e0 + e1 * v))
         == z * b + v * ((x * b + z * c - k) + v * ((x * c + y * b - e0) + v * (y * c - e1)))
  {
  }

  /** What holds at all units holds for the coefficients of 1 / X and of 1. */
  lemma Compare(p: int, x: int, y: int, z: int, b: int, c: int, k: int, e0: int, e1: int)
    requires Prime(p) && p > 4 && Always(p, x, y, z, b, c, k, e0, e1)
    ensures Cong(p, z * b, 0) && Cong(p, x * b + z * c - k, 0)
  {
    var a := [z * b, x * b + z * c - k, x * c + y * b - e0, y * c - e1];
    CompareAt(p, x, y, z, b, c, k, e0, e1, 1);
    CompareAt(p, x, y, z, b, c, k, e0, e1, 2);
    CompareAt(p, x, y, z, b, c, k, e0, e1, 3);
    CompareAt(p, x, y, z, b, c, k, e0, e1, 4);
    hide Eval, Cong, Always;
    SmallRoots(p, a);
    assert Cong(p, a[0], 0) && Cong(p, a[1], 0);
  }

  lemma CompareAt(p: int, x: int, y: int, z: int, b: int, c: int, k: int, e0: int, e1: int, v: int)
    requires Prime(p) && 0 < v < p && Always(p, x, y, z, b, c, k, e0, e1)
    ensures Cong(p, Eval([z * b, x * b + z * c - k, x * c + y * b - e0, y * c - e1], v), 0)
  {
    assert p > 1;
    hide Eval, Prime, Inverse;
    UnitInverse(p, v);
    assert Balances(p, x, y, z, b, c, k, e0, e1, v, Inverse(p, v));
    Cleared(p, x, y, z, b, c, k, e0, e1, v, Inverse(p, v));
  }

  lemma UnitInverse(p: int, v: int)
    requires Prime(p) && 0 < v < p
    ensures p > 1 && Cong(p, Inverse(p, v) * v, 1)
  {
    if Cong(p, v, 0) { CongEqual(p, v, 0); }
    InverseCorrect(p, v);
    Commuted(v, Inverse(p, v));
  }

  // ----------------------------------------------------- the five unknowns

  /**
   The coefficients of the three elements at one value of tau: of a, then of b, then
   of c, and of what the equation asks for. u, v and w stand for beta, alpha and 1 in
   a multiple of 1 / gamma, u1, v1 and w1 in one of 1 / delta.
   */
  datatype Scalars = Scalars(
    a0: int, aAl: int, aBe: int, aDe: int, u: int, v: int, w: int, u1: int, v1: int, w1: int,
    b0: int, bBe: int, bGa: int, bDe: int,
    c0: int, cAl: int, cBe: int, cDe: int, cu: int, cv: int, cw: int,
    xa: int, xb: int, xc: int)
  {
    function A(al: int, be: int): int { a0 + aAl * al + aBe * be }
    function E(al: int, be: int): int { be * u + al * v + w }
    function Z(al: int, be: int): int { be * u1 + al * v1 + w1 }
    function B(be: int): int { b0 + bBe * be }
    function C(al: int, be: int, g: int): int { c0 + cAl * al + cBe * be + (be * cu + al * cv + cw) * g }
    function K(al: int, be: int): int { al * be + be * xa + al * xb + xc }
  }

  /** The equation for all delta. */
  ghost predicate WinsAt(p: int, k: Scalars, al: int, be: int, ga: int, g: int) {
    Always(p, k.A(al, be) + k.E(al, be) * g, k.aDe, k.Z(al, be), k.B(be) + k.bGa * ga, k.bDe, k.K(al, be),
           k.C(al, be, g), k.cDe)
  }

  /** The equation for all alpha and beta and all invertible gamma and delta. */
  ghost predicate Wins(p: int, k: Scalars) {
    forall al, be, ga, g :: Cong(p, g * ga, 1) ==> WinsAt(p, k, al, be, ga, g)
  }

  lemma WithoutDelta(p: int, k: Scalars, al: int, be: int, ga: int, g: int)
    requires Prime(p) && p > 4 && Wins(p, k) && Cong(p, g * ga, 1)
    ensures Cong(p, k.Z(al, be) * (k.B(be) + k.bGa * ga), 0)
    ensures Cong(p, (k.A(al, be) + k.E(al, be) * g) * (k.B(be) + k.bGa * ga) + k.Z(al, be) * k.bDe - k.K(al, be), 0)
  {
    assert WinsAt(p, k, al, be, ga, g);
    hide Prime, Cong, Always, Wins;
    Compare(p, k.A(al, be) + k.E(al, be) * g, k.aDe, k.Z(al, be), k.B(be) + k.bGa * ga, k.bDe, k.K(al, be),
            k.C(al, be, g), k.cDe);
  }

  lemma WithoutGamma(p: int, k: Scalars, al: int, be: int)
    requires Prime(p) && p > 4 && Wins(p, k)
    ensures Cong(p, k.Z(al, be) * k.B(be), 0) && Cong(p, k.E(al, be) * k.B(be), 0)
    ensures Cong(p, k.A(al, be) * k.B(be) + k.E(al, be) * k.bGa + k.Z(al, be) * k.bDe - k.K(al, be), 0)
  {
    hide Prime, Cong, Wins, Scalars.A, Scalars.B, Scalars.E, Scalars.Z, Scalars.K;
    var a, e, z, b, c := k.A(al, be), k.E(al, be), k.Z(al, be), k.B(be), k.bGa;
    var y := k.K(al, be) - z * k.bDe;
    forall v, d | Cong(p, d * v, 1)
      ensures Balances(p, z, 0, 0, b, c, 0, 0, 0, v, d) && Balances(p, a, 0, e, b, c, y, 0, 0, v, d)
    {
      WithoutDelta(p, k, al, be, v, d);
      AsBalances(p, a, e, z, b, c, y, v, d);
    }
    assert Always(p, z, 0, 0, b, c, 0, 0, 0) && Always(p, a, 0, e, b, c, y, 0, 0);
    hide *;
    Compare(p, z, 0, 0, b, c, 0, 0, 0);
    Compare(p, a, 0, e, b, c, y, 0, 0);
    Tidied(z, b, c);
  }

  lemma Tidied(z: int, b: int, c: int)
    ensures z * b + 0 * c - 0 == z * b
  {
  }

  lemma AsBalances(p: int, a: int, e: int, z: int, b: int, c: int, y: int, v: int, d: int)
    requires Cong(p, z * (b + c * v), 0) && Cong(p, (a + e * d) * (b + c * v) - y, 0)
    ensures Balances(p, z, 0, 0, b, c, 0, 0, 0, v, d) && Balances(p, a, 0, e, b, c, y, 0, 0, v, d)
  {
    CongRefl(p, y);
    CongAdd(p, (a + e * d) * (b + c * v) - y, 0, y, y);
    assert z + 0 * v + 0 * d == z && a + 0 * v + e * d == a + e * d && 0 + v * (0 + 0 * v) == 0;
    assert y + v * (0 + 0 * v) == y;
  }

  /** The coefficient of alpha * beta. */
  lemma AlphaBeta(p: int, k: Scalars)
    requires Prime(p) && p > 4 && Wins(p, k)
    ensures Cong(p, k.aAl * k.bBe, 1) && !Cong(p, k.bBe, 0)
  {
    WithoutGamma(p, k, 1, 1);
    WithoutGamma(p, k, 1, 0);
    WithoutGamma(p, k, 0, 1);
    WithoutGamma(p, k, 0, 0);
    hide Wins;
    MixedDifference(p, k);
    if Cong(p, k.bBe, 0) {
      CongScale(p, k.aAl, k.bBe, 0);
      CongSym(p, k.aAl * k.bBe, 1);
      CongTrans(p, 1, k.aAl * k.bBe, 0);
      CongEqual(p, 1, 0);
    }
  }

  function Excess(k: Scalars, al: int, be: int): int {
    k.A(al, be) * k.B(be) + k.E(al, be) * k.bGa + k.Z(al, be) * k.bDe - k.K(al, be)
  }

  lemma MixedDifference(p: int, k: Scalars)
    requires Cong(p, Excess(k, 1, 1), 0) && Cong(p, Excess(k, 1, 0), 0)
    requires Cong(p, Excess(k, 0, 1), 0) && Cong(p, Excess(k, 0, 0), 0)
    ensures Cong(p, k.aAl * k.bBe, 1)
  {
    CongSub(p, Excess(k, 1, 1), 0, Excess(k, 1, 0), 0);
    CongSub(p, Excess(k, 0, 1), 0, Excess(k, 0, 0), 0);
    CongSub(p, Excess(k, 1, 1) - Excess(k, 1, 0), 0, Excess(k, 0, 1) - Excess(k, 0, 0), 0);
    MixedDifferenceIs(k);
    CongRefl(p, 1);
    CongAdd(p, k.aAl * k.bBe - 1, 0, 1, 1);
  }

  lemma MixedDifferenceIs(k: Scalars)
    ensures Excess(k, 1, 1) - Excess(k, 1, 0) - (Excess(k, 0, 1) - Excess(k, 0, 0)) == k.aAl * k.bBe - 1
  {
  }

  /** A product of two linear forms in beta that always vanishes, the second of degree one. */
  lemma FirstFormVanishes(p: int, u: int, y: int, q: int, b: int)
    requires Prime(p) && p > 4 && !Cong(p, b, 0)
    requires forall be :: Cong(p, Form(u, y, be) * Form(b, q, be), 0)
    ensures Cong(p, u, 0) && Cong(p, y, 0)
  {
    ProductAt(p, u, y, q, b, 1);
    ProductAt(p, u, y, q, b, 2);
    ProductAt(p, u, y, q, b, 3);
    ProductAt(p, u, y, q, b, 4);
    hide Eval, Cong, Form;
    var a := [y * q, u * q + y * b, u * b];
    SmallRoots(p, a);
    assert Cong(p, a[1], 0) && Cong(p, a[2], 0);
    Commuted(u, b);
    Commuted(y, b);
    NoZeroDivisors(p, b, u);
    CongScale(p, q, u, 0);
    Commuted(u, q);
    CongSub(p, u * q + y * b, 0, q * u, 0);
    NoZeroDivisors(p, b, y);
  }

  function Form(u: int, y: int, be: int): int { be * u + y }

  lemma ProductAt(p: int, u: int, y: int, q: int, b: int, be: int)
    requires Cong(p, Form(u, y, be) * Form(b, q, be), 0)
    ensures Cong(p, Eval([y * q, u * q + y * b, u * b], be), 0)
  {
    EvalThree(y * q, u * q + y * b, u * b, be);
    FormsTimes(u, y, b, q, be);
  }

  lemma FormsTimes(u: int, y: int, b: int, q: int, be: int)
    ensures Form(u, y, be) * Form(b, q, be) == y * q + be * ((u * q + y * b) + be * (u * b))
  {
  }

  lemma EvalThree(a: int, b: int, c: int, x: int)
    ensures Eval([a, b, c], x) == a + x * (b + x * c)
  {
    UnfoldEval([a, b, c], x);
    UnfoldEval([b, c], x);
    UnfoldEval([c], x);
    UnfoldEval([], x);
    assert [a, b, c][1..] == [b, c] && [b, c][1..] == [c] && [c][1..] == [];
  }

  /** Nothing of the public linear parts goes into a, and nothing of the private ones. */
  lemma FormsVanish(p: int, k: Scalars, al: int, be: int)
    requires Prime(p) && p > 4 && Wins(p, k)
    ensures Cong(p, k.E(al, be), 0) && Cong(p, k.Z(al, be), 0)
  {
    AlphaBeta(p, k);
    var e, z := al * k.v + k.w, al * k.v1 + k.w1;
    forall x ensures Cong(p, Form(k.u, e, x) * Form(k.bBe, k.b0, x), 0)
                  && Cong(p, Form(k.u1, z, x) * Form(k.bBe, k.b0, x), 0)
    {
      WithoutGamma(p, k, al, x);
      Commuted(x, k.bBe);
    }
    hide Wins, Form;
    FirstFormVanishes(p, k.u, e, k.b0, k.bBe);
    FirstFormVanishes(p, k.u1, z, k.b0, k.bBe);
    VanishingForm(p, k.u, e, be);
    VanishingForm(p, k.u1, z, be);
  }

  lemma VanishingForm(p: int, u: int, y: int, be: int)
    requires Cong(p, u, 0) && Cong(p, y, 0)
    ensures Cong(p, be * u + y, 0)
  {
    CongScale(p, be, u, 0);
    CongAdd(p, be * u, 0, y, 0);
  }

  /** What is left is an equation of products of two forms. */
  lemma FormsAgree(p: int, k: Scalars, al: int, be: int)
    requires Prime(p) && p > 4 && Wins(p, k)
    ensures Cong(p, k.A(al, be) * k.B(be) - k.K(al, be), 0)
  {
    WithoutGamma(p, k, al, be);
    FormsVanish(p, k, al, be);
    hide Wins, Prime, Cong, Scalars.A, Scalars.B, Scalars.E, Scalars.Z, Scalars.K;
    var e, z := k.E(al, be), k.Z(al, be);
    var rest := k.A(al, be) * k.B(be) - k.K(al, be);
    CongScale(p, k.bGa, e, 0);
    CongScale(p, k.bDe, z, 0);
    Commuted(e, k.bGa);
    Commuted(z, k.bDe);
    CongSub(p, rest + e * k.bGa + z * k.bDe, 0, k.bGa * e, 0);
    CongSub(p, rest + z * k.bDe, 0, k.bDe * z, 0);
  }

  lemma InBeta(p: int, k: Scalars, al: int)
    requires Prime(p) && p > 4 && Wins(p, k)
    ensures Cong(p, (k.a0 + k.aAl * al) * k.b0 - (al * k.xb + k.xc), 0)
    ensures Cong(p, (k.a0 + k.aAl * al) * k.bBe + k.aBe * k.b0 - (al + k.xa), 0)
    ensures Cong(p, k.aBe * k.bBe, 0)
  {
    var y := k.a0 + k.aAl * al;
    var a := [y * k.b0 - (al * k.xb + k.xc), y * k.bBe + k.aBe * k.b0 - (al + k.xa), k.aBe * k.bBe];
    InBetaAt(p, k, al, 1);
    InBetaAt(p, k, al, 2);
    InBetaAt(p, k, al, 3);
    InBetaAt(p, k, al, 4);
    hide Eval, Cong, Wins, Prime;
    SmallRoots(p, a);
    assert Cong(p, a[0], 0) && Cong(p, a[1], 0) && Cong(p, a[2], 0);
  }

  lemma InBetaAt(p: int, k: Scalars, al: int, be: int)
    requires Prime(p) && p > 4 && Wins(p, k)
    ensures var y := k.a0 + k.aAl * al;
      Cong(p, Eval([y * k.b0 - (al * k.xb + k.xc), y * k.bBe + k.aBe * k.b0 - (al + k.xa), k.aBe * k.bBe], be), 0)
  {
    FormsAgree(p, k, al, be);
    AgreementIs(k, al, be);
    hide *;
    AgreementRoot(p, k.a0 + k.aAl * al, k.aBe, k.b0, k.bBe, al, k.xa, k.xb, k.xc, be);
  }

  lemma AgreementIs(k: Scalars, al: int, be: int)
    ensures k.A(al, be) * k.B(be) - k.K(al, be) ==
      ((k.a0 + k.aAl * al) + k.aBe * be) * (k.b0 + k.bBe * be) - (al * be + be * k.xa + al * k.xb + k.xc)
  {
  }

  lemma AgreementRoot(p: int, y: int, a: int, q: int, b: int, al: int, xa: int, xb: int, xc: int, be: int)
    requires Cong(p, (y + a * be) * (q + b * be) - (al * be + be * xa + al * xb + xc), 0)
    ensures Cong(p, Eval([y * q - (al * xb + xc), y * b + a * q - (al + xa), a * b], be), 0)
  {
    hide Eval, Cong;
    EvalThree(y * q - (al * xb + xc), y * b + a * q - (al + xa), a * b, be);
    InBetaIs(y, a, q, b, al, xa, xb, xc, be);
  }

  lemma InBetaIs(y: int, a: int, q: int, b: int, al: int, xa: int, xb: int, xc: int, be: int)
    ensures (y + a * be) * (q + b * be) - (al * be + be * xa + al * xb + xc)
         == (y * q - (al * xb + xc)) + be * ((y * b + a * q - (al + xa)) + be * (a * b))
  {
  }

  /** A strategy that always wins at a point meets the identity of the QAP there. */
  lemma WinsMeansIdentity(p: int, k: Scalars)
    requires Prime(p) && p > 4 && Wins(p, k)
    ensures Cong(p, k.xa * k.xb, k.xc)
  {
    AlphaBeta(p, k);
    InBeta(p, k, 0);
    InBeta(p, k, 1);
    hide Wins, Cong;
    Commuted(k.aBe, k.bBe);
    NoZeroDivisors(p, k.bBe, k.aBe);
    FromForms(p, k.a0, k.aAl, k.aBe, k.b0, k.bBe, k.xa, k.xb, k.xc);
  }

  lemma FromForms(p: int, a: int, al: int, be: int, q: int, b: int, xa: int, xb: int, xc: int)
    requires Cong(p, al * b, 1) && Cong(p, be, 0)
    requires Cong(p, (a + al * 0) * q - (0 * xb + xc), 0) && Cong(p, (a + al * 0) * b + be * q - (0 + xa), 0)
    requires Cong(p, (a + al * 1) * q - (1 * xb + xc), 0)
    ensures Cong(p, xa * xb, xc)
  {
    hide Cong;
    assert (a + al * 0) * q - (0 * xb + xc) == a * q - xc;
    assert (a + al * 1) * q - (1 * xb + xc) == a * q + al * q - xb - xc;
    FromZero(p, a * q, xc);
    CongSub(p, a * q + al * q - xb - xc, 0, a * q - xc, 0);
    FromZero(p, al * q, xb);
    CongScale(p, q, be, 0);
    Commuted(q, be);
    CongSub(p, a * b + be * q - xa, 0, be * q, 0);
    FromZero(p, a * b, xa);
    CongMul(p, a * b, xa, al * q, xb);
    CongSym(p, (a * b) * (al * q), xa * xb);
    CongScale(p, a * q, al * b, 1);
    MulInterchange(a, b, q, al);
    assert (a * b) * (al * q) == (a * q) * (al * b) by { Interchanged(a, b, al, q); }
    CongTrans(p, xa * xb, (a * q) * (al * b), (a * q) * 1);
    CongTrans(p, xa * xb, a * q, xc);
  }

  lemma Interchanged(a: int, b: int, c: int, d: int)
    ensures (a * b) * (c * d) == (a * d) * (c * b)
  {
  }

  lemma FromZero(p: int, x: int, y: int)
    requires Cong(p, x - y, 0)
    ensures Cong(p, x, y)
  {
    CongRefl(p, y);
    CongAdd(p, x - y, 0, y, y);
  }

  // ----------------------------------------------------------- strategies

  /**
   A combination of the elements of the key in the first group. Any polynomial in
   tau may be combined, which covers the queries for A and B; `pub` and `priv` are the
   coefficients of the two parts of the linear query, `h` those of the H query.
   */
  datatype InG1 = InG1(poly: Vec, alpha: int, beta: int, delta: int, pub: Vec, priv: Vec, h: Vec)

  datatype InG2 = InG2(poly: Vec, beta: int, gamma: int, delta: int)

  /** How an affine prover makes the three elements; fixed before the trapdoor. */
  datatype Strategy = Strategy(a: InG1, b: InG2, c: InG1)

  ghost predicate Fits(I: Instance, k: InG1) {
    I.nin <= I.n && |k.pub| == I.nin && |k.priv| == I.n - I.nin
  }

  ghost function HValue(I: Instance, k: InG1, tau: int): int {
    Eval(k.h, tau) * (Pow(tau, Pow2(I.e)) - 1)
  }

  ghost function ValueG1(I: Instance, k: InG1, t: Trapdoor): int
    requires I.F.p > 1 && Fits(I, k)
  {
    Eval(k.poly, t.tau) + k.alpha * t.alpha + k.beta * t.beta + k.delta * t.delta
    + Dot(LinearVec(I, t)[..I.nin], k.pub) * Inverse(I.F.p, t.gamma)
    + (Dot(LinearVec(I, t)[I.nin..], k.priv) + HValue(I, k, t.tau)) * Inverse(I.F.p, t.delta)
  }

  ghost function ValueG2(k: InG2, t: Trapdoor): int {
    Eval(k.poly, t.tau) + k.beta * t.beta + k.gamma * t.gamma + k.delta * t.delta
  }

  ghost predicate FitsAll(I: Instance, st: Strategy, x: Vec) {
    Fits(I, st.a) && Fits(I, st.c) && |x| + 1 == I.nin
  }

  /** The pairing equation for what the strategy makes, on the public inputs x. */
  ghost predicate Convinces(I: Instance, st: Strategy, x: Vec, t: Trapdoor)
    requires I.F.p > 1 && FitsAll(I, st, x)
  {
    Cong(I.F.p, ValueG1(I, st.a, t) * ValueG2(st.b, t),
         t.alpha * t.beta + Dot(LinearVec(I, t)[..I.nin], [1] + x) + ValueG1(I, st.c, t) * t.delta)
  }

  /** It is what the verifier checks on elements with these values. */
  lemma AcceptedIffConvinces(I: Instance, params: Parameters, qap: QAP, t: Trapdoor, st: Strategy, x: Vec, pf: Proof)
    requires I.Valid() && FromTrapdoor(I, params, qap, t) && FitsAll(I, st, x)
    requires Cong(I.F.p, pf.a, ValueG1(I, st.a, t)) && Cong(I.F.p, pf.b, ValueG2(st.b, t))
    requires Cong(I.F.p, pf.c, ValueG1(I, st.c, t))
    ensures Accepts(I.F.p, pf, x, params.vk) <==> Convinces(I, st, x, t)
  {
    hide ValueG1, ValueG2, LinearVec, Dot, InputPoint, PairingEquation, Cong, Instance.Valid;
    InstancePrime(I);
    var p, w := I.F.p, [1] + x + st.c.priv;
    assert w[..I.nin] == [1] + x && w[1..I.nin] == x;
    PublicSum(I, params, qap, t, w);
    KeyOf(I, params, qap, t);
    var y, s, c := InputPoint(params.vk.ic, x), Dot(LinearVec(I, t)[..I.nin], [1] + x), ValueG1(I, st.c, t);
    var a, b := ValueG1(I, st.a, t), ValueG2(st.b, t);
    ConvincedDifference(p, pf, a, b, c, y, s, t);
    EquationIffZero(p, pf, y, params.vk, t, a * b - s - c * t.delta - t.alpha * t.beta);
    ZeroIff(p, a * b, t.alpha * t.beta + s + c * t.delta);
  }

  lemma KeyOf(I: Instance, params: Parameters, qap: QAP, t: Trapdoor)
    requires I.Valid() && FromTrapdoor(I, params, qap, t)
    ensures var p, vk := I.F.p, params.vk;
      && Cong(p, vk.alphaG1, t.alpha) && Cong(p, vk.betaG2, t.beta) && Cong(p, vk.gammaG2, t.gamma)
      && Cong(p, vk.deltaG2, t.delta) && |vk.ic| == I.nin
  {
    hide Cong, Instance.LinearAt, Instance.ColumnAt, Inverse, Pow;
  }

  lemma ZeroIff(p: int, x: int, y: int)
    ensures Cong(p, x - y, 0) <==> Cong(p, x, y)
  {
    if Cong(p, x - y, 0) { FromZero(p, x, y); }
    if Cong(p, x, y) {
      CongRefl(p, y);
      CongSub(p, x, y, y, y);
    }
  }

  lemma ConvincedDifference(p: int, pf: Proof, a: int, b: int, c: int, y: int, s: int, t: Trapdoor)
    requires Cong(p, pf.a, a) && Cong(p, pf.b, b) && Cong(p, pf.c, c) && Cong(p, y * t.gamma, s)
    ensures Cong(p, pf.a * pf.b - y * t.gamma - pf.c * t.delta - t.alpha * t.beta,
                 a * b - s - c * t.delta - t.alpha * t.beta)
  {
    hide Cong;
    CongMul(p, pf.a, a, pf.b, b);
    CongSub(p, pf.a * pf.b, a * b, y * t.gamma, s);
    CongRefl(p, t.delta);
    CongMul(p, pf.c, c, t.delta, t.delta);
    CongSub(p, pf.a * pf.b - y * t.gamma, a * b - s, pf.c * t.delta, c * t.delta);
    CongRefl(p, t.alpha * t.beta);
    CongSub(p, pf.a * pf.b - y * t.gamma - pf.c * t.delta, a * b - s - c * t.delta, t.alpha * t.beta, t.alpha * t.beta);
  }

  /** The strategy convinces for this tau, whatever the rest of the trapdoor. */
  ghost predicate AlwaysConvinces(I: Instance, st: Strategy, x: Vec, tau: int)
    requires I.F.p > 1 && FitsAll(I, st, x)
  {
    forall t: Trapdoor :: t.tau == tau && !Cong(I.F.p, t.gamma, 0) && !Cong(I.F.p, t.delta, 0) ==>
      Convinces(I, st, x, t)
  }

  // ------------------------------------------- from strategies to scalars

  lemma {:induction false} DotZeros(x: Vec)
    ensures Dot(x, Zeros(|x|)) == 0
  {
    if x != [] {
      assert Zeros(|x|)[..|x| - 1] == Zeros(|x| - 1);
      DotZeros(x[..|x| - 1]);
    }
  }

  ghost function Public(I: Instance, k: InG1): (w: Vec)
    requires Fits(I, k)
    ensures |w| == I.n
  {
    k.pub + Zeros(I.n - I.nin)
  }

  ghost function Private(I: Instance, k: InG1): (w: Vec)
    requires Fits(I, k)
    ensures |w| == I.n
  {
    Zeros(I.nin) + k.priv
  }

  /** Both parts of the linear query by the polynomials at tau. */
  lemma LinearParts(I: Instance, k: InG1, t: Trapdoor)
    requires I.Valid() && Fits(I, k)
    ensures Dot(LinearVec(I, t)[..I.nin], k.pub) ==
      t.beta * SideAt(I, SideA, Public(I, k), t.tau) + t.alpha * SideAt(I, SideB, Public(I, k), t.tau)
      + SideAt(I, SideC, Public(I, k), t.tau)
    ensures Dot(LinearVec(I, t)[I.nin..], k.priv) ==
      t.beta * SideAt(I, SideA, Private(I, k), t.tau) + t.alpha * SideAt(I, SideB, Private(I, k), t.tau)
      + SideAt(I, SideC, Private(I, k), t.tau)
  {
    hide SideAt, Dot, LinearVec, Instance.Valid;
    InstancePrime(I);
    var z, w, y := LinearVec(I, t), Public(I, k), Private(I, k);
    LinearHalves(I, t, w);
    LinearHalves(I, t, y);
    assert w[..I.nin] == k.pub && w[I.nin..] == Zeros(I.n - I.nin);
    assert y[..I.nin] == Zeros(I.nin) && y[I.nin..] == k.priv;
    DotZeros(z[I.nin..]);
    DotZeros(z[..I.nin]);
  }

  /** The assignment the strategy carries: the public inputs, and its coefficients of the private query in c. */
  function Extracted(st: Strategy, x: Vec): Vec {
    [1] + x + st.c.priv
  }

  ghost function ScalarsAt(I: Instance, st: Strategy, x: Vec, tau: int): Scalars
    requires I.Valid() && FitsAll(I, st, x)
  {
    var a, c, w := st.a, st.c, Extracted(st, x);
    Scalars(
      Eval(a.poly, tau), a.alpha, a.beta, a.delta,
      SideAt(I, SideA, Public(I, a), tau), SideAt(I, SideB, Public(I, a), tau), SideAt(I, SideC, Public(I, a), tau),
      SideAt(I, SideA, Private(I, a), tau), SideAt(I, SideB, Private(I, a), tau),
      SideAt(I, SideC, Private(I, a), tau) + HValue(I, a, tau),
      Eval(st.b.poly, tau), st.b.beta, st.b.gamma, st.b.delta,
      Eval(c.poly, tau), c.alpha, c.beta, c.delta,
      SideAt(I, SideA, Public(I, c), tau), SideAt(I, SideB, Public(I, c), tau), SideAt(I, SideC, Public(I, c), tau),
      SideAt(I, SideA, w, tau), SideAt(I, SideB, w, tau), SideAt(I, SideC, w, tau) + HValue(I, c, tau))
  }

  lemma ToBalances(p: int, a: int, e: int, y: int, z: int, b: int, c: int, k: int, x: int, q: int, c0: int, ce: int,
                   c1: int, v: int, d: int, d': int, g: int, g': int)
    requires Cong(p, g, g') && Cong(p, d, d') && Cong(p, d' * v, 1) && k == x + q
    requires Cong(p, (a + y * v + e * g' + z * d') * (b + c * v), x + (c0 + c1 * v + ce * g' + q * d') * v)
    ensures Balances(p, a + e * g, y, z, b, c, k, c0 + ce * g, c1, v, d)
  {
    hide Cong;
    LeftSide(p, a, e, y, z, b + c * v, v, d, d', g, g');
    RightSide(p, x, q, c0, ce, c1, v, d', g, g');
    CongTrans(p, (a + e * g + y * v + z * d) * (b + c * v), (a + y * v + e * g' + z * d') * (b + c * v),
              x + (c0 + c1 * v + ce * g' + q * d') * v);
    CongTrans(p, (a + e * g + y * v + z * d) * (b + c * v), x + (c0 + c1 * v + ce * g' + q * d') * v,
              k + v * (c0 + ce * g + c1 * v));
  }

  lemma LeftSide(p: int, a: int, e: int, y: int, z: int, r: int, v: int, d: int, d': int, g: int, g': int)
    requires Cong(p, g, g') && Cong(p, d, d')
    ensures Cong(p, (a + e * g + y * v + z * d) * r, (a + y * v + e * g' + z * d') * r)
  {
    hide Cong;
    CongScale(p, e, g, g');
    CongScale(p, z, d, d');
    CongRefl(p, a + y * v);
    CongAdd(p, a + y * v, a + y * v, e * g, e * g');
    CongAdd(p, a + y * v + e * g, a + y * v + e * g', z * d, z * d');
    CongRefl(p, r);
    CongMul(p, a + y * v + e * g + z * d, a + y * v + e * g' + z * d', r, r);
  }

  lemma RightSide(p: int, x: int, q: int, c0: int, ce: int, c1: int, v: int, d': int, g: int, g': int)
    requires Cong(p, g, g') && Cong(p, d' * v, 1)
    ensures Cong(p, x + (c0 + c1 * v + ce * g' + q * d') * v, x + q + v * (c0 + ce * g + c1 * v))
  {
    hide Cong;
    CongSym(p, g, g');
    CongScale(p, ce, g', g);
    CongScale(p, v, ce * g', ce * g);
    CongScale(p, q, d' * v, 1);
    var rest := x + (c0 + c1 * v) * v;
    CongRefl(p, rest);
    CongAdd(p, rest, rest, v * (ce * g'), v * (ce * g));
    CongAdd(p, rest + v * (ce * g'), rest + v * (ce * g), q * (d' * v), q * 1);
    Gathered4(c0 + c1 * v, ce * g', q, d', v);
    Gathered4(c0 + c1 * v, ce * g, 0, 0, v);
  }

  lemma Gathered4(c: int, e: int, q: int, d: int, v: int)
    ensures (c + e + q * d) * v == c * v + v * e + q * (d * v)
    ensures v * (c + e) == c * v + v * e
  {
  }

  lemma InverseIsUnique(p: int, g: int, ga: int)
    requires Prime(p) && Cong(p, g * ga, 1)
    ensures p > 1 && !Cong(p, ga, 0) && Cong(p, g, Inverse(p, ga)) && Cong(p, Inverse(p, ga) * ga, 1)
  {
    if Cong(p, ga, 0) {
      CongScale(p, g, ga, 0);
      CongSym(p, g * ga, 1);
      CongTrans(p, 1, g * ga, 0);
      CongEqual(p, 1, 0);
    }
    InverseCorrect(p, ga);
    var v := Inverse(p, ga);
    Commuted(ga, v);
    Commuted(ga, g);
    CongSym(p, ga * v, 1);
    CongTrans(p, ga * g, 1, ga * v);
    CongCancel(p, ga, g, v);
  }

  /** The equation for one delta. */
  ghost predicate WinsOnce(p: int, k: Scalars, al: int, be: int, ga: int, g: int, v: int, d: int) {
    Balances(p, k.A(al, be) + k.E(al, be) * g, k.aDe, k.Z(al, be), k.B(be) + k.bGa * ga, k.bDe, k.K(al, be),
             k.C(al, be, g), k.cDe, v, d)
  }

  lemma WinsAtByAll(p: int, k: Scalars, al: int, be: int, ga: int, g: int)
    requires forall v, d :: Cong(p, d * v, 1) ==> WinsOnce(p, k, al, be, ga, g, v, d)
    ensures WinsAt(p, k, al, be, ga, g)
  {
    hide Cong, Balances, Scalars.A, Scalars.B, Scalars.C, Scalars.E, Scalars.Z, Scalars.K;
    forall v, d | Cong(p, d * v, 1)
      ensures Balances(p, k.A(al, be) + k.E(al, be) * g, k.aDe, k.Z(al, be), k.B(be) + k.bGa * ga, k.bDe, k.K(al, be),
                       k.C(al, be, g), k.cDe, v, d)
    {
      assert WinsOnce(p, k, al, be, ga, g, v, d);
    }
  }

  lemma ScalarsWin(I: Instance, st: Strategy, x: Vec, tau: int)
    requires I.Valid() && FitsAll(I, st, x) && I.F.p > 1 && AlwaysConvinces(I, st, x, tau)
    ensures Wins(I.F.p, ScalarsAt(I, st, x, tau))
  {
    hide Instance.Valid, FitsAll, AlwaysConvinces, Cong, ScalarsAt, WinsAt, WinsOnce;
    var p, k := I.F.p, ScalarsAt(I, st, x, tau);
    forall al, be, ga, g | Cong(p, g * ga, 1) ensures WinsAt(p, k, al, be, ga, g) {
      forall v, d | Cong(p, d * v, 1) ensures WinsOnce(p, k, al, be, ga, g, v, d) {
        BalancesOne(I, st, x, Trapdoor(al, be, ga, v, tau), g, d);
      }
      WinsAtByAll(p, k, al, be, ga, g);
    }
  }

  /** The coefficient of 1 / delta in c: the private part of the linear query, and the H query. */
  ghost function PrivatePart(I: Instance, st: Strategy, t: Trapdoor): int
    requires I.F.p > 1 && Fits(I, st.c)
  {
    Dot(LinearVec(I, t)[I.nin..], st.c.priv) + HValue(I, st.c, t.tau)
  }

  /** The values a, b and c of the elements, and x + q of the right side, in scalars; g and d invert gamma and delta. */
  ghost predicate InScalars(k: Scalars, t: Trapdoor, g: int, d: int, a: int, b: int, c: int, x: int, q: int) {
    && a == k.A(t.alpha, t.beta) + k.aDe * t.delta + k.E(t.alpha, t.beta) * g + k.Z(t.alpha, t.beta) * d
    && b == k.B(t.beta) + k.bGa * t.gamma + k.bDe * t.delta
    && c == k.c0 + k.cAl * t.alpha + k.cBe * t.beta + k.cDe * t.delta
            + (t.beta * k.cu + t.alpha * k.cv + k.cw) * g + q * d
    && k.K(t.alpha, t.beta) == x + q
  }

  lemma ValuesInScalars(I: Instance, st: Strategy, x: Vec, t: Trapdoor)
    requires I.Valid() && FitsAll(I, st, x)
    ensures I.F.p > 1
    ensures InScalars(ScalarsAt(I, st, x, t.tau), t, Inverse(I.F.p, t.gamma), Inverse(I.F.p, t.delta),
                      ValueG1(I, st.a, t), ValueG2(st.b, t), ValueG1(I, st.c, t),
                      t.alpha * t.beta + Dot(LinearVec(I, t)[..I.nin], [1] + x), PrivatePart(I, st, t))
  {
    hide Instance.Valid, Dot, LinearVec, SideAt, Eval, Pow, Inverse, HValue, Public, Private;
    InstancePrime(I);
    var w := Extracted(st, x);
    LinearParts(I, st.a, t);
    LinearParts(I, st.c, t);
    LinearHalves(I, t, w);
    assert w[..I.nin] == [1] + x && w[I.nin..] == st.c.priv;
  }

  lemma BalancesOne(I: Instance, st: Strategy, x: Vec, t: Trapdoor, g: int, d: int)
    requires I.Valid() && FitsAll(I, st, x) && I.F.p > 1 && AlwaysConvinces(I, st, x, t.tau)
    requires Cong(I.F.p, g * t.gamma, 1) && Cong(I.F.p, d * t.delta, 1)
    ensures WinsOnce(I.F.p, ScalarsAt(I, st, x, t.tau), t.alpha, t.beta, t.gamma, g, t.delta, d)
  {
    hide *;
    var p, k := I.F.p, ScalarsAt(I, st, x, t.tau);
    InstancePrime(I);
    InverseIsUnique(p, g, t.gamma);
    InverseIsUnique(p, d, t.delta);
    FitsBoth(I, st, x);
    ConvincesAt(I, st, x, t);
    ValuesInScalars(I, st, x, t);
    BalancesFromValues(p, k, t, d, Inverse(p, t.delta), g, Inverse(p, t.gamma),
                       ValueG1(I, st.a, t), ValueG2(st.b, t), ValueG1(I, st.c, t),
                       t.alpha * t.beta + Dot(LinearVec(I, t)[..I.nin], [1] + x), PrivatePart(I, st, t));
  }

  lemma FitsBoth(I: Instance, st: Strategy, x: Vec)
    requires FitsAll(I, st, x)
    ensures Fits(I, st.a) && Fits(I, st.c) && |x| + 1 == I.nin <= I.n
  {
  }

  lemma ConvincesAt(I: Instance, st: Strategy, x: Vec, t: Trapdoor)
    requires I.F.p > 1 && FitsAll(I, st, x) && AlwaysConvinces(I, st, x, t.tau)
    requires !Cong(I.F.p, t.gamma, 0) && !Cong(I.F.p, t.delta, 0)
    ensures Cong(I.F.p, ValueG1(I, st.a, t) * ValueG2(st.b, t),
                 t.alpha * t.beta + Dot(LinearVec(I, t)[..I.nin], [1] + x) + ValueG1(I, st.c, t) * t.delta)
  {
    hide ValueG1, ValueG2, Cong, Dot, LinearVec;
    assert Convinces(I, st, x, t);
  }

  lemma BalancesFromValues(p: int, k: Scalars, t: Trapdoor, d: int, d': int, g: int, g': int,
                           va: int, vb: int, vc: int, x: int, q: int)
    requires Cong(p, g, g') && Cong(p, d, d') && Cong(p, d' * t.delta, 1)
    requires Cong(p, va * vb, x + vc * t.delta) && InScalars(k, t, g', d', va, vb, vc, x, q)
    ensures WinsOnce(p, k, t.alpha, t.beta, t.gamma, g, t.delta, d)
  {
    hide *;
    var al, be, v := t.alpha, t.beta, t.delta;
    var ce := be * k.cu + al * k.cv + k.cw;
    OpenScalars(k, t, g', d', va, vb, vc, x, q, ce);
    OpenC(k, al, be, g, ce);
    var xg, b, cg := k.A(al, be) + k.E(al, be) * g, k.B(be) + k.bGa * t.gamma, k.C(al, be, g);
    BalancesInNames(p, k.A(al, be), k.E(al, be), k.aDe, k.Z(al, be), b, k.bDe, k.K(al, be), x, q,
                    k.c0 + k.cAl * al + k.cBe * be, ce, k.cDe, v, d, d', g, g', va, vb, vc, xg, cg);
    WinsOnceIs(p, k, al, be, t.gamma, g, v, d, xg, b);
  }

  lemma OpenScalars(k: Scalars, t: Trapdoor, g: int, d: int, a: int, b: int, c: int, x: int, q: int, ce: int)
    requires InScalars(k, t, g, d, a, b, c, x, q) && ce == t.beta * k.cu + t.alpha * k.cv + k.cw
    ensures a == k.A(t.alpha, t.beta) + k.aDe * t.delta + k.E(t.alpha, t.beta) * g + k.Z(t.alpha, t.beta) * d
    ensures b == k.B(t.beta) + k.bGa * t.gamma + k.bDe * t.delta
    ensures c == k.c0 + k.cAl * t.alpha + k.cBe * t.beta + k.cDe * t.delta + ce * g + q * d
    ensures k.K(t.alpha, t.beta) == x + q
  {
    hide Scalars.A, Scalars.B, Scalars.E, Scalars.Z, Scalars.K;
  }

  lemma OpenC(k: Scalars, al: int, be: int, g: int, ce: int)
    requires ce == be * k.cu + al * k.cv + k.cw
    ensures k.C(al, be, g) == k.c0 + k.cAl * al + k.cBe * be + ce * g
  {
  }

  lemma WinsOnceIs(p: int, k: Scalars, al: int, be: int, ga: int, g: int, v: int, d: int, xg: int, b: int)
    requires xg == k.A(al, be) + k.E(al, be) * g && b == k.B(be) + k.bGa * ga
    requires Balances(p, xg, k.aDe, k.Z(al, be), b, k.bDe, k.K(al, be), k.C(al, be, g), k.cDe, v, d)
    ensures WinsOnce(p, k, al, be, ga, g, v, d)
  {
    hide Balances, Scalars.A, Scalars.B, Scalars.C, Scalars.E, Scalars.Z, Scalars.K;
  }

  lemma BalancesInNames(p: int, a: int, e: int, y: int, z: int, b: int, c: int, k: int, x: int, q: int, c0: int,
                        ce: int, c1: int, v: int, d: int, d': int, g: int, g': int, va: int, vb: int, vc: int,
                        xg: int, cg: int)
    requires Cong(p, g, g') && Cong(p, d, d') && Cong(p, d' * v, 1) && k == x + q
    requires va == a + y * v + e * g' + z * d' && vb == b + c * v && vc == c0 + c1 * v + ce * g' + q * d'
    requires Cong(p, va * vb, x + vc * v) && xg == a + e * g && cg == c0 + ce * g
    ensures Balances(p, xg, y, z, b, c, k, cg, c1, v, d)
  {
    hide Cong, Balances;
    SameProduct(va, a + y * v + e * g' + z * d', vb, b + c * v);
    SameProduct(vc, c0 + c1 * v + ce * g' + q * d', v, v);
    ToBalances(p, a, e, y, z, b, c, k, x, q, c0, ce, c1, v, d, d', g, g');
  }

  lemma SameProduct(a: int, b: int, c: int, d: int)
    requires a == b && c == d
    ensures a * c == b * d
  {
  }

  // ------------------------------------------------ the extracted witness

  /** The coefficients of X^m - 1. */
  function VanishingPoly(m: nat): (r: Vec)
    requires m > 0
    ensures |r| == m + 1
  {
    [-1] + Zeros(m - 1) + [1]
  }

  lemma EvalVanishing(m: nat, x: int)
    requires m > 0
    ensures Eval(VanishingPoly(m), x) == Pow(x, m) - 1
  {
    hide Pow;
    EvalConcat([-1] + Zeros(m - 1), [1], x);
    EvalConcat([-1], Zeros(m - 1), x);
    EvalZeros(m - 1, x);
    UnfoldEval([1], x);
    UnfoldEval([-1], x);
    UnfoldEval([], x);
    assert [1][1..] == [] && [-1][1..] == [];
    PlainProduct(x, Pow(x, 1), Pow(x, m));
  }

  lemma PlainProduct(x: int, y: int, z: int)
    ensures 1 + x * 0 == 1 && -1 + x * 0 == -1 && y * 0 == 0 && z * 1 == z
  {
  }

  function Padded(a: Vec, n: nat): (r: Vec)
    requires |a| <= n
    ensures |r| == n
  {
    a + Zeros(n - |a|)
  }

  lemma EvalPadded(a: Vec, n: nat, x: int)
    requires |a| <= n
    ensures Eval(Padded(a, n), x) == Eval(a, x)
  {
    hide Pow;
    EvalConcat(a, Zeros(n - |a|), x);
    EvalZeros(n - |a|, x);
  }

  function Larger(a: nat, b: nat): nat {
    if a < b then b else a
  }

  /** How many points decide: 2 m, when the H query has at most m - 1 elements. */
  function DecidingPoints(m: nat, h: nat): nat {
    Larger(2 * m, h + m + 1)
  }

  /** The coefficients of A * B - C - h * (X^m - 1) for the extracted assignment. */
  ghost function GapPoly(I: Instance, w: Vec, h: Vec): (r: Vec)
    requires I.Valid() && |w| == I.n
    ensures |r| == DecidingPoints(Pow2(I.e), |h|)
  {
    SideTermsKnown(I, SideA, w);
    SideTermsKnown(I, SideB, w);
    SideTermsKnown(I, SideC, w);
    var n := DomainNumerator(I.F.p, DomainRoot(I.F, I.e), I.Rows(SideA, w), I.Rows(SideB, w), I.Rows(SideC, w));
    SubVec(Padded(n, DecidingPoints(Pow2(I.e), |h|)),
           Padded(PolyMul(h, VanishingPoly(Pow2(I.e))), DecidingPoints(Pow2(I.e), |h|)))
  }

  lemma GapPolyAt(I: Instance, w: Vec, h: Vec, x: int)
    requires I.Valid() && |w| == I.n
    ensures Eval(GapPoly(I, w, h), x) ==
      SideAt(I, SideA, w, x) * SideAt(I, SideB, w, x) - SideAt(I, SideC, w, x) - Eval(h, x) * (Pow(x, Pow2(I.e)) - 1)
  {
    hide Eval, Pow, Numerator, PolyMul, VanishingPoly, InverseTransform, Padded;
    SideTermsKnown(I, SideA, w);
    SideTermsKnown(I, SideB, w);
    SideTermsKnown(I, SideC, w);
    var p, m, root := I.F.p, Pow2(I.e), DomainRoot(I.F, I.e);
    var a, b, c := I.Rows(SideA, w), I.Rows(SideB, w), I.Rows(SideC, w);
    var n, z := DomainNumerator(p, root, a, b, c), PolyMul(h, VanishingPoly(m));
    EvalSub(Padded(n, DecidingPoints(m, |h|)), Padded(z, DecidingPoints(m, |h|)), x);
    EvalPadded(n, DecidingPoints(m, |h|), x);
    EvalPadded(z, DecidingPoints(m, |h|), x);
    EvalNumerator(InverseTransform(p, root, a), InverseTransform(p, root, b), InverseTransform(p, root, c), x);
    EvalMul(h, VanishingPoly(m), x);
    EvalVanishing(m, x);
  }

  lemma {:induction false} EvalOfZero(p: int, a: Vec, x: int)
    requires CongVec(p, a, Zeros(|a|))
    ensures Cong(p, Eval(a, x), 0)
  {
    CongRefl(p, x);
    CongEval(p, a, Zeros(|a|), x, x);
    EvalZeros(|a|, x);
  }

  /** Without a gap the extracted assignment satisfies every constraint. */
  lemma NoGapSatisfies(I: Instance, w: Vec, h: Vec)
    requires I.Valid() && |w| == I.n && CongVec(I.F.p, GapPoly(I, w, h), Zeros(|GapPoly(I, w, h)|))
    ensures Satisfies(I, w)
  {
    hide Eval, Pow, Numerator, InverseTransform, GapPoly, SideAt, Cong, Satisfies;
    SideTermsKnown(I, SideA, w);
    SideTermsKnown(I, SideB, w);
    SideTermsKnown(I, SideC, w);
    DomainOf(I.F, I.e);
    var p, m, root := I.F.p, Pow2(I.e), DomainRoot(I.F, I.e);
    var a, b, c := I.Rows(SideA, w), I.Rows(SideB, w), I.Rows(SideC, w);
    forall k: nat | k < m ensures Cong(p, (a[k] % p) * (b[k] % p), c[k] % p) {
      GapOnDomain(I, w, h, k);
      ReducedProduct(p, a[k], b[k], c[k]);
    }
    SatisfiesByRows(I, w);
  }

  lemma GapOnDomain(I: Instance, w: Vec, h: Vec, k: nat)
    requires I.Valid() && |w| == I.n && CongVec(I.F.p, GapPoly(I, w, h), Zeros(|GapPoly(I, w, h)|)) && k < Pow2(I.e)
    ensures TermsBelow(Terms(I.cs, SideA), I.nin, |w|) && TermsBelow(Terms(I.cs, SideB), I.nin, |w|)
    ensures TermsBelow(Terms(I.cs, SideC), I.nin, |w|)
    ensures Cong(I.F.p, I.Rows(SideA, w)[k] * I.Rows(SideB, w)[k], I.Rows(SideC, w)[k])
  {
    hide Eval, Pow, Numerator, InverseTransform, GapPoly, Cong, CongVec, Terms, HalfTurn, Prime, QuotientVec;
    SideTermsKnown(I, SideA, w);
    SideTermsKnown(I, SideB, w);
    SideTermsKnown(I, SideC, w);
    DomainOf(I.F, I.e);
    var p, m, root := I.F.p, Pow2(I.e), DomainRoot(I.F, I.e);
    var a, b, c := I.Rows(SideA, w), I.Rows(SideB, w), I.Rows(SideC, w);
    var x := Pow(root, k);
    EvalOfZero(p, GapPoly(I, w, h), x);
    GapPolyAt(I, w, h, x);
    EvalNumerator(InverseTransform(p, root, a), InverseTransform(p, root, b), InverseTransform(p, root, c), x);
    NumeratorOnDomain(p, root, I.e, a, b, c, k);
    RootPowerIsOne(p, root, m, k);
    OnDomain(p, Eval(DomainNumerator(p, root, a, b, c), x), Eval(h, x), Pow(x, m), a[k] * b[k], c[k]);
  }

  lemma OnDomain(p: int, n: int, h: int, z: int, ab: int, c: int)
    requires Cong(p, n - h * (z - 1), 0) && Cong(p, z, 1) && Cong(p, n, ab - c)
    ensures Cong(p, ab, c)
  {
    CongRefl(p, 1);
    CongSub(p, z, 1, 1, 1);
    CongScale(p, h, z - 1, 0);
    CongAdd(p, n - h * (z - 1), 0, h * (z - 1), h * 0);
    CongSym(p, n, ab - c);
    CongTrans(p, ab - c, n, 0);
    FromZero(p, ab, c);
  }

  /**
   Knowledge soundness: if the assignment a strategy carries does not satisfy the
   constraints, there are fewer than 2 m points tau for which its proofs are accepted
   whatever the rest of the trapdoor, given an H query of at most m - 1 elements.
   */
  lemma StrategyWithoutWitnessFails(I: Instance, st: Strategy, x: Vec, ts: set<int>)
    requires I.Valid() && I.F.p > 4 && FitsAll(I, st, x)
    requires !Satisfies(I, Extracted(st, x))
    requires forall tau :: tau in ts ==> 0 <= tau < I.F.p && AlwaysConvinces(I, st, x, tau)
    ensures |ts| < DecidingPoints(Pow2(I.e), |st.c.h|)
  {
    hide GapPoly, Satisfies, Eval, AlwaysConvinces, Instance.Valid, Cong;
    InstancePrime(I);
    var w, h := Extracted(st, x), st.c.h;
    forall tau | tau in ts ensures Cong(I.F.p, Eval(GapPoly(I, w, h), tau), 0) {
      GapVanishes(I, st, x, tau);
    }
    if |ts| >= DecidingPoints(Pow2(I.e), |h|) {
      TooManyRoots(I.F.p, GapPoly(I, w, h), ts);
      NoGapSatisfies(I, w, h);
    }
  }

  lemma GapVanishes(I: Instance, st: Strategy, x: Vec, tau: int)
    requires I.Valid() && I.F.p > 4 && FitsAll(I, st, x) && AlwaysConvinces(I, st, x, tau)
    ensures Cong(I.F.p, Eval(GapPoly(I, Extracted(st, x), st.c.h), tau), 0)
  {
    hide GapPoly, Eval, AlwaysConvinces, Instance.Valid, Cong, SideAt, Wins, Pow;
    InstancePrime(I);
    var k := ScalarsAt(I, st, x, tau);
    ScalarsWin(I, st, x, tau);
    WinsMeansIdentity(I.F.p, k);
    GapPolyAt(I, Extracted(st, x), st.c.h, tau);
    ZeroIff(I.F.p, k.xa * k.xb, k.xc);
  }

  // ------------------------------------------------------- the other way

  /** What the prover of this repository does without blinding. */
  ghost function HonestStrategy(I: Instance, w: Vec): (st: Strategy)
    requires I.Valid() && |w| == I.n
    ensures |st.c.h| == Pow2(I.e) - 1
  {
    SideTermsKnown(I, SideA, w);
    SideTermsKnown(I, SideB, w);
    var p, root := I.F.p, DomainRoot(I.F, I.e);
    Strategy(
      InG1(InverseTransform(p, root, I.Rows(SideA, w)), 1, 0, 0, Zeros(I.nin), Zeros(I.n - I.nin), []),
      InG2(InverseTransform(p, root, I.Rows(SideB, w)), 1, 0, 0),
      InG1([], 0, 0, 0, Zeros(I.nin), w[I.nin..], Quot(I, w)[..Pow2(I.e) - 1]))
  }

  /** With a satisfying assignment it always convinces. */
  lemma HonestConvinces(I: Instance, w: Vec, x: Vec, tau: int)
    requires I.Valid() && |w| == I.n && w[..I.nin] == [1] + x && Satisfies(I, w)
    ensures I.F.p > 1 && FitsAll(I, HonestStrategy(I, w), x)
    ensures AlwaysConvinces(I, HonestStrategy(I, w), x, tau)
  {
    InstancePrime(I);
    var st := HonestStrategy(I, w);
    forall t: Trapdoor | t.tau == tau && !Cong(I.F.p, t.gamma, 0) && !Cong(I.F.p, t.delta, 0)
      ensures Convinces(I, st, x, t)
    {
      HonestConvincesAt(I, w, x, t);
    }
  }

  lemma HonestConvincesAt(I: Instance, w: Vec, x: Vec, t: Trapdoor)
    requires I.Valid() && |w| == I.n && w[..I.nin] == [1] + x && Satisfies(I, w) && !Cong(I.F.p, t.delta, 0)
    ensures I.F.p > 1 && FitsAll(I, HonestStrategy(I, w), x) && Convinces(I, HonestStrategy(I, w), x, t)
  {
    hide Satisfies, Dot, LinearVec, Eval, Pow, Cong, Inverse, InverseTransform, Quot, Instance.Valid;
    InstancePrime(I);
    SideTermsKnown(I, SideA, w);
    SideTermsKnown(I, SideB, w);
    var p, st, z := I.F.p, HonestStrategy(I, w), LinearVec(I, t);
    var h := Quot(I, w)[..Pow2(I.e) - 1];
    var a, b, c := SideAt(I, SideA, w, t.tau), SideAt(I, SideB, w, t.tau), SideAt(I, SideC, w, t.tau);
    IdentityOfSatisfied(I, w, t.tau);
    LinearHalves(I, t, w);
    DotZeros(z[..I.nin]);
    DotZeros(z[I.nin..]);
    UnfoldEval([], t.tau);
    UnitTimes(p, t.delta);
    HonestEquation(p, t.alpha, t.beta, a, b, c, Eval(h, t.tau) * (Pow(t.tau, Pow2(I.e)) - 1),
                   Dot(z[..I.nin], w[..I.nin]), Dot(z[I.nin..], w[I.nin..]), t.delta, Inverse(p, t.delta));
    HonestValues(I, w, t);
  }

  lemma UnitTimes(p: int, d: int)
    requires Prime(p) && p > 1 && !Cong(p, d, 0)
    ensures Cong(p, Inverse(p, d) * d, 1)
  {
    InverseCorrect(p, d);
    Commuted(d, Inverse(p, d));
  }

  lemma HonestValues(I: Instance, w: Vec, t: Trapdoor)
    requires I.Valid() && |w| == I.n
    ensures I.F.p > 1 && Fits(I, HonestStrategy(I, w).a) && Fits(I, HonestStrategy(I, w).c)
    ensures ValueG1(I, HonestStrategy(I, w).a, t) == SideAt(I, SideA, w, t.tau) + t.alpha
    ensures ValueG2(HonestStrategy(I, w).b, t) == SideAt(I, SideB, w, t.tau) + t.beta
    ensures ValueG1(I, HonestStrategy(I, w).c, t) ==
      (Dot(LinearVec(I, t)[I.nin..], w[I.nin..])
       + Eval(Quot(I, w)[..Pow2(I.e) - 1], t.tau) * (Pow(t.tau, Pow2(I.e)) - 1)) * Inverse(I.F.p, t.delta)
  {
    hide Dot, LinearVec, Eval, Pow, Cong, Inverse, InverseTransform, Quot, Instance.Valid;
    InstancePrime(I);
    SideTermsKnown(I, SideA, w);
    SideTermsKnown(I, SideB, w);
    var z := LinearVec(I, t);
    DotZeros(z[..I.nin]);
    DotZeros(z[I.nin..]);
    UnfoldEval([], t.tau);
    Nothing(Inverse(I.F.p, t.gamma), Inverse(I.F.p, t.delta), Pow(t.tau, Pow2(I.e)) - 1);
  }

  lemma Nothing(x: int, y: int, z: int)
    ensures 0 * x == 0 && 0 * y == 0 && 0 * z == 0
  {
  }

  lemma HonestEquation(p: int, al: int, be: int, a: int, b: int, c: int, hz: int, x: int, l: int, d: int, v: int)
    requires Cong(p, a * b - c - hz, 0) && x + l == be * a + al * b + c && Cong(p, v * d, 1)
    ensures Cong(p, (a + al) * (b + be), al * be + x + (l + hz) * v * d)
  {
    hide Cong;
    CongScale(p, l + hz, v * d, 1);
    CongRefl(p, al * be + x);
    CongAdd(p, al * be + x, al * be + x, (l + hz) * (v * d), (l + hz) * 1);
    MulAssoc(l + hz, v, d);
    CongSym(p, al * be + x + (l + hz) * v * d, al * be + x + (l + hz) * 1);
    CongRefl(p, al * be + x + (l + hz));
    CongAdd(p, a * b - c - hz, 0, al * be + x + (l + hz), al * be + x + (l + hz));
    assert (a + al) * (b + be) == a * b + be * a + al * b + al * be;
    CongTrans(p, (a + al) * (b + be), al * be + x + (l + hz), al * be + x + (l + hz) * v * d);
  }

  /** An affine strategy that convinces at all the given points. */
  ghost predicate HasStrategy(I: Instance, x: Vec, ts: set<int>)
    requires I.F.p > 1
  {
    exists st :: FitsAll(I, st, x) && |st.c.h| < Pow2(I.e) && forall tau :: tau in ts ==> AlwaysConvinces(I, st, x, tau)
  }

  ghost predicate HasWitness(I: Instance, x: Vec)
    requires I.Valid()
  {
    exists w :: |w| == I.n && w[..I.nin] == [1] + x && Satisfies(I, w)
  }

  /**
   On 2 m points of the field or more, public inputs have an affine strategy that
   always convinces if and only if they have a satisfying assignment.
   */
  lemma StrategyIffWitness(I: Instance, x: Vec, ts: set<int>)
    requires I.Valid() && I.F.p > 4 && |x| + 1 == I.nin
    requires |ts| >= 2 * Pow2(I.e) && forall tau :: tau in ts ==> 0 <= tau < I.F.p
    ensures HasStrategy(I, x, ts) <==> HasWitness(I, x)
  {
    hide AlwaysConvinces, Satisfies, Instance.Valid, HonestStrategy;
    InstancePrime(I);
    if HasStrategy(I, x, ts) {
      var st :| FitsAll(I, st, x) && |st.c.h| < Pow2(I.e)
        && forall tau :: tau in ts ==> AlwaysConvinces(I, st, x, tau);
      var w := Extracted(st, x);
      assert w[..I.nin] == [1] + x;
      if !Satisfies(I, w) { StrategyWithoutWitnessFails(I, st, x, ts); }
    }
    if HasWitness(I, x) {
      var w :| |w| == I.n && w[..I.nin] == [1] + x && Satisfies(I, w);
      HonestConvinces(I, w, x, 0);
      forall tau | tau in ts ensures AlwaysConvinces(I, HonestStrategy(I, w), x, tau) {
        HonestConvinces(I, w, x, tau);
      }
    }
  }
}
