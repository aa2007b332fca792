/**
 Perfect completeness of the argument: what `create_proof` returns is accepted
 by `verify_proof` whenever the assignment satisfies the circuit, for every
 trapdoor the parameters were built from and every choice of blinding.
 */
module Completeness {
  import opened Wrappers
  import opened Modular
  import opened Polynomials
  import opened Dft
  import opened Fft
  import opened Quotient
  import opened Circuit
  import opened Synthesis
  import opened Prover
  import opened Verifier

  /** The scalars the parameters are derived from. */
  datatype Trapdoor = Trapdoor(alpha: int, beta: int, gamma: int, delta: int, tau: int)

  /** A system of constraints over a domain of 2^e points. */
  datatype Instance = Instance(F: PrimeField, cs: seq<Constraint>, nin: nat, n: nat, e: nat) {
    ghost predicate Valid() {
      && F.Valid() && e <= F.s && |cs| <= Pow2(e) && 0 < nin <= n
      && forall c :: c in cs ==> KnownConstraint(c, nin, n)
    }

    ghost function Column(side: Side, i: nat): (r: Vec)
      ensures |r| == Pow2(e)
    {
      seq(Pow2(e), u requires 0 <= u => Coefficient(Terms(cs, side), nin, i, u))
    }

    /** The value at x of the polynomial with the values v on the domain. */
    ghost function AtPoint(v: Vec, x: int): int
      requires F.p > 1
    {
      Eval(InverseTransform(F.p, DomainRoot(F, e), v), x)
    }

    /** A_i(x), B_i(x) or C_i(x). */
    ghost function ColumnAt(side: Side, i: nat, x: int): int
      requires F.p > 1
    {
      AtPoint(Column(side, i), x)
    }

    /** The values of one side of the constraints under w. */
    ghost function Rows(side: Side, w: Vec): (r: Vec)
      requires TermsBelow(Terms(cs, side), nin, |w|)
      ensures |r| == Pow2(e)
    {
      seq(Pow2(e), u requires 0 <= u => RowSum(Terms(cs, side), nin, w, u))
    }

    /** beta * A_i + alpha * B_i + C_i at tau. */
    ghost function LinearAt(t: Trapdoor, i: nat): int
      requires F.p > 1
    {
      t.beta * ColumnAt(SideA, i, t.tau) + t.alpha * ColumnAt(SideB, i, t.tau) + ColumnAt(SideC, i, t.tau)
    }
  }

  /** The parameters are the ones the comments of `VerificationKey` and `Parameters` describe. */
  ghost predicate FromTrapdoor(I: Instance, params: Parameters, qap: QAP, t: Trapdoor)
    requires I.Valid()
  {
    var p := I.F.p;
    var vk := params.vk;
    && !Cong(p, t.gamma, 0) && !Cong(p, t.delta, 0)
    && Cong(p, vk.alphaG1, t.alpha) && Cong(p, vk.betaG1, t.beta) && Cong(p, vk.betaG2, t.beta)
    && Cong(p, vk.gammaG2, t.gamma) && Cong(p, vk.deltaG1, t.delta) && Cong(p, vk.deltaG2, t.delta)
    && |vk.ic| == I.nin && |params.l| == I.n - I.nin && Pow2(I.e) <= |params.h| + 1
    && (forall i :: 0 <= i < |vk.ic| ==> Cong(p, vk.ic[i], I.LinearAt(t, i) * Inverse(p, t.gamma)))
    && (forall i :: 0 <= i < |params.l| ==> Cong(p, params.l[i], I.LinearAt(t, I.nin + i) * Inverse(p, t.delta)))
    && (forall i :: 0 <= i < |params.h| ==>
          Cong(p, params.h[i], Pow(t.tau, i) * ((Pow(t.tau, Pow2(I.e)) - 1) * Inverse(p, t.delta))))
    && |params.aG1| == |qap.aConstraints| && |params.bG1| == |params.bG2| == |qap.bConstraints|
    && (forall k :: 0 <= k < |params.aG1| ==> Cong(p, params.aG1[k], I.ColumnAt(SideA, qap.aConstraints[k], t.tau)))
    && (forall k :: 0 <= k < |params.bG1| ==> Cong(p, params.bG1[k], I.ColumnAt(SideB, qap.bConstraints[k], t.tau)))
    && (forall k :: 0 <= k < |params.bG2| ==> Cong(p, params.bG2[k], I.ColumnAt(SideB, qap.bConstraints[k], t.tau)))
  }

  /** Parameters computed from a trapdoor, for any lists of constrained variables. */
  ghost function SetUp(I: Instance, qap: QAP, t: Trapdoor): Parameters
    requires I.Valid()
  {
    var p := I.F.p;
    Parameters(
      VerificationKey(t.alpha % p, t.beta % p, t.beta % p, t.gamma % p, t.delta % p, t.delta % p,
                      Reduce(p, seq(I.nin, i requires 0 <= i => I.LinearAt(t, i) * Inverse(p, t.gamma)))),
      Reduce(p, seq(Pow2(I.e) - 1,
                    i requires 0 <= i => Pow(t.tau, i) * ((Pow(t.tau, Pow2(I.e)) - 1) * Inverse(p, t.delta)))),
      Reduce(p, seq(I.n - I.nin, i requires 0 <= i => I.LinearAt(t, I.nin + i) * Inverse(p, t.delta))),
      Reduce(p, ColumnsAt(I, SideA, qap.aConstraints, t.tau)),
      Reduce(p, ColumnsAt(I, SideB, qap.bConstraints, t.tau)),
      Reduce(p, ColumnsAt(I, SideB, qap.bConstraints, t.tau)))
  }

  /** Every trapdoor with invertible gamma and delta has parameters. */
  lemma EveryTrapdoorHasParameters(I: Instance, qap: QAP, t: Trapdoor)
    requires I.Valid() && !Cong(I.F.p, t.gamma, 0) && !Cong(I.F.p, t.delta, 0)
    ensures FromTrapdoor(I, SetUp(I, qap, t), qap, t)
  {
    hide Instance.LinearAt, Instance.ColumnAt, Pow, Cong, Inverse, Pow2;
    var p := I.F.p;
    ModCong(p, t.alpha);
    ModCong(p, t.beta);
    ModCong(p, t.gamma);
    ModCong(p, t.delta);
    forall x ensures Cong(p, x % p, x) { ModCong(p, x); }
  }

  // -------------------------------------------- linearity in the values

  lemma TransformAdd(w: int, a: Vec, b: Vec)
    requires |a| == |b|
    ensures Transform(w, AddVec(a, b)) == AddVec(Transform(w, a), Transform(w, b))
  {
    forall k | 0 <= k < |a| ensures Transform(w, AddVec(a, b))[k] == Transform(w, a)[k] + Transform(w, b)[k] {
      EvalAdd(a, b, Pow(w, k));
    }
  }

  lemma ScaleAdd(c: int, a: Vec, b: Vec)
    requires |a| == |b|
    ensures ScaleVec(c, AddVec(a, b)) == AddVec(ScaleVec(c, a), ScaleVec(c, b))
  {
    forall k | 0 <= k < |a| ensures c * (a[k] + b[k]) == c * a[k] + c * b[k] { Distribute(c, a[k], b[k]); }
  }

  lemma ScaleScale(c: int, d: int, a: Vec)
    ensures ScaleVec(c, ScaleVec(d, a)) == ScaleVec(d, ScaleVec(c, a))
  {
    forall k | 0 <= k < |a| ensures c * (d * a[k]) == d * (c * a[k]) {
      MulAssoc(c, d, a[k]);
      MulAssoc(d, c, a[k]);
    }
  }

  /** Interpolation is linear in the values. */
  lemma AtPointLinear(I: Instance, a: Vec, b: Vec, c: int, x: int)
    requires I.F.p > 1 && |a| == |b|
    ensures I.AtPoint(AddVec(a, ScaleVec(c, b)), x) == I.AtPoint(a, x) + c * I.AtPoint(b, x)
  {
    hide Eval;
    var p, w := I.F.p, DomainRoot(I.F, I.e);
    var v, m := Inverse(p, w), Inverse(p, |a|);
    TransformAdd(v, a, ScaleVec(c, b));
    TransformScale(v, c, b);
    ScaleAdd(m, Transform(v, a), ScaleVec(c, Transform(v, b)));
    ScaleScale(m, c, Transform(v, b));
    EvalAdd(ScaleVec(m, Transform(v, a)), ScaleVec(c, ScaleVec(m, Transform(v, b))), x);
    EvalScale(c, ScaleVec(m, Transform(v, b)), x);
  }

  lemma AtPointZero(I: Instance, x: int)
    requires I.F.p > 1
    ensures I.AtPoint(Zeros(Pow2(I.e)), x) == 0
  {
    var z := Zeros(Pow2(I.e));
    AtPointLinear(I, z, z, -1, x);
    assert AddVec(z, ScaleVec(-1, z)) == z;
  }

  /** Partial sums of the columns of the variables ks, entry by entry. */
  ghost function KeyRows(I: Instance, side: Side, ks: seq<nat>, w: Vec): (r: Vec)
    requires Below(ks, |w|)
    ensures |r| == Pow2(I.e)
  {
    seq(Pow2(I.e), u requires 0 <= u => KeySum(ks, Terms(I.cs, side), I.nin, w, u))
  }

  ghost function ColumnsAt(I: Instance, side: Side, ks: seq<nat>, x: int): (r: Vec)
    requires I.F.p > 1
    ensures |r| == |ks|
  {
    seq(|ks|, k requires 0 <= k < |ks| => I.ColumnAt(side, ks[k], x))
  }

  /** The weighted sum of the column polynomials is the polynomial of the weighted columns. */
  lemma {:induction false} SumOfColumns(I: Instance, side: Side, ks: seq<nat>, w: Vec, x: int)
    requires I.F.p > 1 && Below(ks, |w|)
    ensures Dot(ColumnsAt(I, side, ks, x), Pick(w, ks)) == I.AtPoint(KeyRows(I, side, ks, w), x)
  {
    if ks == [] {
      AtPointZero(I, x);
      assert KeyRows(I, side, ks, w) == Zeros(Pow2(I.e));
    } else {
      hide Instance.AtPoint, KeySum, Coefficient, Dot;
      var rest, i := ks[..|ks| - 1], ks[|ks| - 1];
      SumOfColumns(I, side, rest, w, x);
      AtPointLinear(I, KeyRows(I, side, rest, w), I.Column(side, i), w[i], x);
      NextKeyRows(I, side, ks, w);
      DotSnoc(ColumnsAt(I, side, rest, x), Pick(w, rest), I.ColumnAt(side, i, x), w[i]);
      assert ColumnsAt(I, side, ks, x) == ColumnsAt(I, side, rest, x) + [I.ColumnAt(side, i, x)];
      assert Pick(w, ks) == Pick(w, rest) + [w[i]];
      Commute(w[i], I.AtPoint(I.Column(side, i), x), 0);
    }
  }

  lemma NextKeyRows(I: Instance, side: Side, ks: seq<nat>, w: Vec)
    requires Below(ks, |w|) && ks != []
    ensures KeyRows(I, side, ks, w) ==
      AddVec(KeyRows(I, side, ks[..|ks| - 1], w), ScaleVec(w[ks[|ks| - 1]], I.Column(side, ks[|ks| - 1])))
  {
  }

  lemma DotSnoc(x: Vec, y: Vec, a: int, b: int)
    requires |x| == |y|
    ensures Dot(x + [a], y + [b]) == Dot(x, y) + a * b
  {
    assert (x + [a])[..|x|] == x && (y + [b])[..|y|] == y;
  }

  /** Over all the variables of a side, it is the polynomial of the rows. */
  lemma ColumnsGiveRows(I: Instance, side: Side, ks: seq<nat>, w: Vec, x: int)
    requires I.F.p > 1 && Below(ks, |w|) && Distinct(ks) && TermsBelow(Terms(I.cs, side), I.nin, |w|)
    requires forall t :: t in Terms(I.cs, side) ==> VarOf(t.index, I.nin) in ks
    ensures Dot(ColumnsAt(I, side, ks, x), Pick(w, ks)) == I.AtPoint(I.Rows(side, w), x)
  {
    SumOfColumns(I, side, ks, w, x);
    forall u: nat | u < Pow2(I.e) ensures KeyRows(I, side, ks, w)[u] == I.Rows(side, w)[u] {
      KeySumIsRowSum(ks, Terms(I.cs, side), I.nin, w, u);
    }
    assert KeyRows(I, side, ks, w) == I.Rows(side, w);
  }

  // --------------------------------------------------- sums of queries

  lemma {:induction false} DotConcat(x: Vec, y: Vec, u: Vec, v: Vec)
    requires |x| == |y| && |u| == |v|
    ensures Dot(x + u, y + v) == Dot(x, y) + Dot(u, v)
  {
    if u == [] {
      assert x + u == x && y + v == y;
    } else {
      var n := |u| - 1;
      DotConcat(x, y, u[..n], v[..n]);
      assert x + u == (x + u[..n]) + [u[n]] && y + v == (y + v[..n]) + [v[n]];
      DotSnoc(x + u[..n], y + v[..n], u[n], v[n]);
    }
  }

  /** A query divided by g, summed and multiplied by g again. */
  lemma {:induction false} DotDivided(p: int, q: Vec, z: Vec, w: Vec, g: int, v: int)
    requires |q| == |z| == |w| && Cong(p, v * g, 1)
    requires forall i :: 0 <= i < |q| ==> Cong(p, q[i], z[i] * v)
    ensures Cong(p, Dot(q, w) * g, Dot(z, w))
  {
    if q == [] {
      CongRefl(p, 0);
    } else {
      var n := |q| - 1;
      DotDivided(p, q[..n], z[..n], w[..n], g, v);
      DividedTerm(p, q[n], z[n], w[n], g, v);
      CongAdd(p, Dot(q[..n], w[..n]) * g, Dot(z[..n], w[..n]), (q[n] * w[n]) * g, z[n] * w[n]);
      DistributeRight(Dot(q[..n], w[..n]), q[n] * w[n], g);
    }
  }

  lemma DistributeRight(a: int, b: int, g: int)
    ensures (a + b) * g == a * g + b * g
  {
  }

  lemma DividedTerm(p: int, q: int, z: int, w: int, g: int, v: int)
    requires Cong(p, v * g, 1) && Cong(p, q, z * v)
    ensures Cong(p, (q * w) * g, z * w)
  {
    CongScale(p, w * g, q, z * v);
    CongScale(p, z * w, v * g, 1);
    Regroup(q, z, w, g, v);
    CongTrans(p, (q * w) * g, (z * w) * (v * g), z * w);
  }

  lemma Regroup(q: int, z: int, w: int, g: int, v: int)
    ensures (w * g) * q == (q * w) * g
    ensures (w * g) * (z * v) == (z * w) * (v * g)
  {
    MulInterchange(w, g, z, v);
    assert (w * z) * (g * v) == (z * w) * (v * g);
  }

  /** The h query against the quotient: its value at tau, times tau^m - 1, over delta. */
  lemma {:induction false} QuotientQuery(p: int, q: Vec, h: Vec, tau: int, z: int, g: int, v: int)
    requires |q| == |h| && Cong(p, v * g, 1)
    requires forall i :: 0 <= i < |q| ==> Cong(p, q[i], Pow(tau, i) * (z * v))
    ensures Cong(p, Dot(q, h) * g, Eval(h, tau) * z)
  {
    if q == [] {
      CongRefl(p, 0);
    } else {
      var n := |q| - 1;
      QuotientQuery(p, q[..n], h[..n], tau, z, g, v);
      assert h == h[..n] + [h[n]];
      EvalConcat(h[..n], [h[n]], tau);
      assert Eval([h[n]], tau) == h[n] + tau * Eval([], tau);
      MulAssoc(Pow(tau, n), z, v);
      DividedTerm(p, q[n], Pow(tau, n) * z, h[n], g, v);
      CongAdd(p, Dot(q[..n], h[..n]) * g, Eval(h[..n], tau) * z, (q[n] * h[n]) * g, (Pow(tau, n) * z) * h[n]);
      DistributeRight(Dot(q[..n], h[..n]), q[n] * h[n], g);
      TopTerm(Eval(h[..n], tau), Pow(tau, n), h[n], z);
    }
  }

  lemma TopTerm(e: int, q: int, h: int, z: int)
    ensures e * z + (q * z) * h == (e + q * h) * z
  {
  }

  lemma {:induction false} DotThree(x: Vec, y: Vec, z: Vec, v: Vec, w: Vec, b: int, a: int)
    requires |x| == |y| == |z| == |v| == |w|
    requires forall i :: 0 <= i < |x| ==> v[i] == b * x[i] + a * y[i] + z[i]
    ensures Dot(v, w) == b * Dot(x, w) + a * Dot(y, w) + Dot(z, w)
  {
    if x != [] {
      var n := |x| - 1;
      DotThree(x[..n], y[..n], z[..n], v[..n], w[..n], b, a);
      ThreeMore(b, a, x[n], y[n], z[n], w[n], Dot(x[..n], w[..n]), Dot(y[..n], w[..n]));
    }
  }

  lemma ThreeMore(b: int, a: int, x: int, y: int, z: int, w: int, dx: int, dy: int)
    ensures (b * x + a * y + z) * w == b * (x * w) + a * (y * w) + z * w
    ensures b * (dx + x * w) == b * dx + b * (x * w) && a * (dy + y * w) == a * dy + a * (y * w)
  {
    DistributeRight(b * x, a * y, w);
    DistributeRight(b * x + a * y, z, w);
    MulAssoc(b, x, w);
    MulAssoc(a, y, w);
  }

  ghost function LinearVec(I: Instance, t: Trapdoor): (r: Vec)
    requires I.F.p > 1
    ensures |r| == I.n
  {
    seq(I.n, i requires 0 <= i => I.LinearAt(t, i))
  }

  lemma SideTermsKnown(I: Instance, side: Side, w: Vec)
    requires I.Valid() && |w| == I.n
    ensures TermsBelow(Terms(I.cs, side), I.nin, |w|)
  {
    TermsKnown(I.cs, side, I.nin, I.n);
  }

  /** A(tau), B(tau) or C(tau) for the assignment w. */
  ghost function SideAt(I: Instance, side: Side, w: Vec, x: int): int
    requires I.Valid() && |w| == I.n
  {
    SideTermsKnown(I, side, w);
    I.AtPoint(I.Rows(side, w), x)
  }

  /** Summed over all variables, the linear parts give beta * A + alpha * B + C. */
  lemma LinearSum(I: Instance, t: Trapdoor, w: Vec)
    requires I.Valid() && |w| == I.n
    ensures Dot(LinearVec(I, t), w) ==
      t.beta * SideAt(I, SideA, w, t.tau) + t.alpha * SideAt(I, SideB, w, t.tau) + SideAt(I, SideC, w, t.tau)
  {
    hide SideAt, ColumnsAt, LinearVec, Dot, Instance.Valid;
    var all: seq<nat> := seq(I.n, i requires 0 <= i => i);
    ValidPrime(I);
    assert Pick(w, all) == w;
    LinearVecParts(I, t, all);
    AllVariables(I, SideA, all, w, t.tau);
    AllVariables(I, SideB, all, w, t.tau);
    AllVariables(I, SideC, all, w, t.tau);
    hide Pick;
    DotThree(ColumnsAt(I, SideA, all, t.tau), ColumnsAt(I, SideB, all, t.tau), ColumnsAt(I, SideC, all, t.tau),
             LinearVec(I, t), w, t.beta, t.alpha);
  }

  lemma ValidPrime(I: Instance)
    requires I.Valid()
    ensures I.F.p > 1
  {
  }

  lemma LinearVecParts(I: Instance, t: Trapdoor, all: seq<nat>)
    requires I.F.p > 1 && |all| == I.n && forall i :: 0 <= i < I.n ==> all[i] == i
    ensures forall i :: 0 <= i < I.n ==>
      LinearVec(I, t)[i] ==
        t.beta * ColumnsAt(I, SideA, all, t.tau)[i] + t.alpha * ColumnsAt(I, SideB, all, t.tau)[i]
        + ColumnsAt(I, SideC, all, t.tau)[i]
  {
    hide Instance.ColumnAt, Instance.LinearAt;
    forall i | 0 <= i < I.n
      ensures LinearVec(I, t)[i] ==
        t.beta * ColumnsAt(I, SideA, all, t.tau)[i] + t.alpha * ColumnsAt(I, SideB, all, t.tau)[i]
          + ColumnsAt(I, SideC, all, t.tau)[i]
    {
      LinearParts(I, t, i);
    }
  }

  lemma LinearParts(I: Instance, t: Trapdoor, i: nat)
    requires I.F.p > 1
    ensures I.LinearAt(t, i) ==
      t.beta * I.ColumnAt(SideA, i, t.tau) + t.alpha * I.ColumnAt(SideB, i, t.tau) + I.ColumnAt(SideC, i, t.tau)
  {
    hide Instance.ColumnAt;
  }

  lemma AllVariables(I: Instance, side: Side, all: seq<nat>, w: Vec, x: int)
    requires I.Valid() && |w| == I.n && |all| == I.n && forall i :: 0 <= i < I.n ==> all[i] == i
    ensures Dot(ColumnsAt(I, side, all, x), Pick(w, all)) == SideAt(I, side, w, x)
  {
    SideTermsKnown(I, side, w);
    forall t | t in Terms(I.cs, side) ensures VarOf(t.index, I.nin) in all {
      assert all[VarOf(t.index, I.nin)] == VarOf(t.index, I.nin);
    }
    ColumnsGiveRows(I, side, all, w, x);
  }

  /** A query over the variables of a side sums to the polynomial of that side. */
  lemma SideQuery(I: Instance, side: Side, query: Vec, ks: seq<nat>, w: Vec, x: int)
    requires I.Valid() && |w| == I.n && IsKeyList(Terms(I.cs, side), I.nin, ks) && |query| == |ks|
    requires forall k :: 0 <= k < |query| ==> Cong(I.F.p, query[k], I.ColumnAt(side, ks[k], x))
    ensures Below(ks, |w|) && Cong(I.F.p, Dot(query, Pick(w, ks)), SideAt(I, side, w, x))
  {
    SideTermsKnown(I, side, w);
    KeyListCovers(Terms(I.cs, side), I.nin, ks, |w|);
    ColumnsGiveRows(I, side, ks, w, x);
    CongVecRefl(I.F.p, Pick(w, ks));
    CongDot(I.F.p, query, Pick(w, ks), ColumnsAt(I, side, ks, x), Pick(w, ks));
  }

  // ---------------------------------------------------------- the identity

  /** The blinding cancels: what is left of a * b - c * delta. */
  lemma BlindingCancels(al: int, be: int, d: int, A: int, B: int, h: int, l: int, r: int, s: int)
    ensures (al + A + d * r) * (be + B + d * s)
            - ((B + d * s + be) * r + h + l + (al + A + d * r) * s - d * (r * s)) * d
         == (al + A) * (be + B) - h * d - l * d
  {
    var x, y := al + A, be + B;
    var rd, sd := d * r, d * s;
    assert (x + rd) * (y + sd) == x * y + x * sd + rd * y + rd * sd;
    assert ((y + sd) * r) * d == rd * y + rd * sd;
    assert ((x + rd) * s) * d == x * sd + rd * sd;
    assert (d * (r * s)) * d == rd * sd;
    var c1, c2, c3 := (y + sd) * r, (x + rd) * s, d * (r * s);
    assert (c1 + h + l + c2 - c3) * d == c1 * d + h * d + l * d + c2 * d - c3 * d;
  }

  /** The pairing equation in terms of the polynomials at tau. */
  lemma AcceptanceIdentity(p: int, a: int, b: int, c: int, al: int, be: int, g: int, d: int,
                           A: int, B: int, C: int, h: int, l: int, acc: int, r: int, s: int, hz: int, L: int, P: int)
    requires Cong(p, a, al + A + d * r) && Cong(p, b, be + B + d * s)
    requires Cong(p, c, (B + d * s + be) * r + h + l + a * s - d * (r * s))
    requires Cong(p, h * d, hz) && Cong(p, l * d, L) && Cong(p, acc * g, P)
    requires P + L == be * A + al * B + C
    ensures Cong(p, a * b - acc * g - c * d - al * be, A * B - C - hz)
  {
    var a0, b0 := al + A + d * r, be + B + d * s;
    var c0 := (B + d * s + be) * r + h + l + a0 * s - d * (r * s);
    ReplaceA(p, c, a, a0, s, (B + d * s + be) * r + h + l, d * (r * s));
    CongMul(p, a, a0, b, b0);
    CongScale(p, d, c, c0);
    Commute(d, c, c0);
    CongSub(p, a * b, a0 * b0, c * d, c0 * d);
    BlindingCancels(al, be, d, A, B, h, l, r, s);
    assert Cong(p, a * b - c * d, (al + A) * (be + B) - h * d - l * d);
    Gathered(p, a * b - c * d, al, be, A, B, C, h * d, l * d, acc * g, hz, L, P);
  }

  lemma ReplaceA(p: int, c: int, a: int, a0: int, s: int, u: int, v: int)
    requires Cong(p, c, u + a * s - v) && Cong(p, a, a0)
    ensures Cong(p, c, u + a0 * s - v)
  {
    hide Cong;
    CongScale(p, s, a, a0);
    Commute(s, a, a0);
    CongRefl(p, u - v);
    CongAdd(p, u - v, u - v, a * s, a0 * s);
    CongTrans(p, c, u + a * s - v, u + a0 * s - v);
  }

  lemma Gathered(p: int, x: int, al: int, be: int, A: int, B: int, C: int, hd: int, ld: int, ag: int, hz: int, L: int,
                 P: int)
    requires Cong(p, x, (al + A) * (be + B) - hd - ld)
    requires Cong(p, hd, hz) && Cong(p, ld, L) && Cong(p, ag, P) && P + L == be * A + al * B + C
    ensures Cong(p, x - ag - al * be, A * B - C - hz)
  {
    hide Cong;
    var y := (al + A) * (be + B);
    assert y == al * be + al * B + be * A + A * B;
    CongRefl(p, y);
    CongSub(p, y, y, hd, hz);
    CongSub(p, y - hd, y - hz, ld, L);
    CongTrans(p, x, y - hd - ld, y - hz - L);
    CongSub(p, x, y - hz - L, ag, P);
    CongRefl(p, al * be);
    CongSub(p, x - ag, y - hz - L - P, al * be, al * be);
  }

  /** The proof equations with the key's points replaced by the trapdoor. */
  lemma InTrapdoor(p: int, pf: Proof, vk: VerificationKey, r: int, s: int, dA: int, dB1: int, dB2: int, dH: int,
                   dL: int, al: int, be: int, d: int, A: int, B: int)
    requires ProofEquations(p, pf, vk, r, s, dA, dB1, dB2, dH, dL)
    requires Cong(p, vk.alphaG1, al) && Cong(p, vk.betaG1, be) && Cong(p, vk.betaG2, be)
    requires Cong(p, vk.deltaG1, d) && Cong(p, vk.deltaG2, d)
    requires Cong(p, dA, A) && Cong(p, dB1, B) && Cong(p, dB2, B)
    ensures Cong(p, pf.a, al + A + d * r)
    ensures Cong(p, pf.b, be + B + d * s)
    ensures Cong(p, pf.c, (B + d * s + be) * r + dH + dL + pf.a * s - d * (r * s))
  {
    hide Cong;
    PointSum(p, pf.a, vk.alphaG1, al, dA, A, vk.deltaG1, d, r);
    PointSum(p, pf.b, vk.betaG2, be, dB2, B, vk.deltaG2, d, s);
    var x := dB1 + vk.deltaG1 * s + vk.betaG1;
    CongRefl(p, x);
    PointSum(p, x, dB1, B, vk.betaG1, be, vk.deltaG1, d, s);
    CongScale(p, r, x, B + d * s + be);
    Commute(r, x, B + d * s + be);
    CongScale(p, r * s, vk.deltaG1, d);
    Commute(r * s, vk.deltaG1, d);
    var u := dH + dL + pf.a * s;
    CongRefl(p, u);
    CongAdd(p, x * r, (B + d * s + be) * r, u, u);
    CongSub(p, x * r + u, (B + d * s + be) * r + u, vk.deltaG1 * (r * s), d * (r * s));
    CongTrans(p, pf.c, x * r + u - vk.deltaG1 * (r * s), (B + d * s + be) * r + u - d * (r * s));
  }

  lemma PointSum(p: int, a: int, x: int, x': int, y: int, y': int, d: int, d': int, r: int)
    requires Cong(p, a, x + y + d * r) && Cong(p, x, x') && Cong(p, y, y') && Cong(p, d, d')
    ensures Cong(p, a, x' + y' + d' * r)
  {
    hide Cong;
    CongScale(p, r, d, d');
    Commute(r, d, d');
    CongAdd(p, x, x', y, y');
    CongAdd(p, x + y, x' + y', d * r, d' * r);
    CongTrans(p, a, x + y + d * r, x' + y' + d' * r);
  }

  /** The verifier's equation is the identity's left side, read modulo the key's points. */
  lemma EquationIffZero(p: int, pf: Proof, acc: int, vk: VerificationKey, t: Trapdoor, z: int)
    requires Cong(p, vk.alphaG1, t.alpha) && Cong(p, vk.betaG2, t.beta)
    requires Cong(p, vk.gammaG2, t.gamma) && Cong(p, vk.deltaG2, t.delta)
    requires Cong(p, pf.a * pf.b - acc * t.gamma - pf.c * t.delta - t.alpha * t.beta, z)
    ensures PairingEquation(p, pf, acc, vk) <==> Cong(p, z, 0)
  {
    var x, y := vk.alphaG1 * vk.betaG2, pf.a * pf.b - acc * vk.gammaG2 - pf.c * vk.deltaG2;
    CongMul(p, vk.alphaG1, t.alpha, vk.betaG2, t.beta);
    CongScale(p, acc, vk.gammaG2, t.gamma);
    CongScale(p, pf.c, vk.deltaG2, t.delta);
    CongRefl(p, pf.a * pf.b);
    CongSub(p, pf.a * pf.b, pf.a * pf.b, acc * vk.gammaG2, acc * t.gamma);
    CongSub(p, pf.a * pf.b - acc * vk.gammaG2, pf.a * pf.b - acc * t.gamma, pf.c * vk.deltaG2, pf.c * t.delta);
    var y' := pf.a * pf.b - acc * t.gamma - pf.c * t.delta;
    CongSub(p, y, y', x, t.alpha * t.beta);
    CongTrans(p, y - x, y' - t.alpha * t.beta, z);
    CongDifference(p, x, y, z);
  }

  lemma CongDifference(p: int, x: int, y: int, z: int)
    requires Cong(p, y - x, z)
    ensures Cong(p, x, y) <==> Cong(p, z, 0)
  {
    if Cong(p, x, y) {
      CongRefl(p, y);
      CongSub(p, y, y, x, y);
      CongSym(p, y - x, z);
      CongTrans(p, z, y - x, 0);
    }
    if Cong(p, z, 0) {
      CongTrans(p, y - x, z, 0);
      CongRefl(p, x);
      CongAdd(p, y - x, 0, x, x);
      CongSym(p, y, x);
    }
  }

  // ------------------------------------------------------- the theorems

  /** A transposed system fits the prover. */
  lemma QapOfSystemFits(I: Instance, qap: QAP)
    requires I.Valid() && IsQap(qap, I.cs, I.nin)
    ensures QapFits(qap, I.n, |I.cs|) && QapFits(qap, I.n, Pow2(I.e))
  {
    GroupingFits(I, SideA, qap.a);
    GroupingFits(I, SideB, qap.b);
    GroupingFits(I, SideC, qap.c);
    TermsKnown(I.cs, SideA, I.nin, I.n);
    TermsKnown(I.cs, SideB, I.nin, I.n);
    KeyListCovers(Terms(I.cs, SideA), I.nin, qap.aConstraints, I.n);
    KeyListCovers(Terms(I.cs, SideB), I.nin, qap.bConstraints, I.n);
  }

  lemma {:induction false} GroupRows(v: seq<Term>, p: nat, i: nat, m: nat)
    requires forall t :: t in v ==> t.row < m
    ensures forall k :: 0 <= k < |Group(v, p, i)| ==> Group(v, p, i)[k].1 < m
  {
    if v != [] {
      assert v[|v| - 1] in v;
      GroupRows(v[..|v| - 1], p, i, m);
    }
  }

  lemma GroupingFits(I: Instance, side: Side, g: Groups)
    requires I.Valid() && IsGrouping(Terms(I.cs, side), I.nin, g)
    ensures GroupsFit(g, I.n, |I.cs|)
  {
    var v := Terms(I.cs, side);
    TermsKnown(I.cs, side, I.nin, I.n);
    forall k | 0 <= k < |g| ensures g[k].0 < I.n && forall j :: 0 <= j < |g[k].1| ==> g[k].1[j].1 < |I.cs| {
      GroupOfTerm(v, I.nin, g[k].0);
      GroupRows(v, I.nin, g[k].0, |I.cs|);
    }
  }

  /** The rows the prover computes are the values of the constraints. */
  lemma ProverRows(I: Instance, side: Side, g: Groups, w: Vec)
    requires I.Valid() && IsGrouping(Terms(I.cs, side), I.nin, g) && |w| == I.n
    ensures GroupsFit(g, |w|, Pow2(I.e)) && TermsBelow(Terms(I.cs, side), I.nin, |w|)
    ensures RowsOf(g, w, Pow2(I.e)) == I.Rows(side, w)
  {
    GroupingFits(I, side, g);
    SideTermsKnown(I, side, w);
    forall u: nat | u < Pow2(I.e) ensures RowsOf(g, w, Pow2(I.e))[u] == I.Rows(side, w)[u] {
      TranspositionPreservesRows(Terms(I.cs, side), I.nin, g, w, u);
    }
  }

  ghost function Quot(I: Instance, w: Vec): (r: Vec)
    requires I.Valid() && |w| == I.n
    ensures |r| == Pow2(I.e)
  {
    SideTermsKnown(I, SideA, w);
    SideTermsKnown(I, SideB, w);
    SideTermsKnown(I, SideC, w);
    Reduce(I.F.p, QuotientVec(I.F.p, DomainRoot(I.F, I.e), I.F.gen,
      Reduce(I.F.p, I.Rows(SideA, w)), Reduce(I.F.p, I.Rows(SideB, w)), Reduce(I.F.p, I.Rows(SideC, w))))
  }

  lemma ProverQuotientIsQuot(I: Instance, qap: QAP, w: Vec)
    requires I.Valid() && IsQap(qap, I.cs, I.nin) && |w| == I.n
    ensures QapFits(qap, |w|, Pow2(I.e)) && ProverQuotient(I.F, qap, w, I.e) == Quot(I, w)
  {
    hide QuotientVec, ProverQuotient;
    QapOfSystemFits(I, qap);
    ProverRows(I, SideA, qap.a, w);
    ProverRows(I, SideB, qap.b, w);
    ProverRows(I, SideC, qap.c, w);
    ProverQuotientIsQuotient(I.F, qap, w, I.e);
  }

  /** A * B - C - H * (X^m - 1) at tau, H without its top coefficient. */
  ghost function Defect(I: Instance, w: Vec, tau: int): int
    requires I.Valid() && |w| == I.n
  {
    SideAt(I, SideA, w, tau) * SideAt(I, SideB, w, tau) - SideAt(I, SideC, w, tau)
    - Eval(Quot(I, w)[..Pow2(I.e) - 1], tau) * (Pow(tau, Pow2(I.e)) - 1)
  }

  /** The identity the trapdoor sees: A * B - C = H * (X^m - 1) at tau. */
  ghost predicate IdentityAt(I: Instance, w: Vec, tau: int)
    requires I.Valid() && |w| == I.n
  {
    Cong(I.F.p, Defect(I, w, tau), 0)
  }

  /** The sum of the public part of the key. */
  lemma PublicSum(I: Instance, params: Parameters, qap: QAP, t: Trapdoor, w: Vec)
    requires I.Valid() && FromTrapdoor(I, params, qap, t) && |w| == I.n && w[0] == 1
    ensures Cong(I.F.p, InputPoint(params.vk.ic, w[1..I.nin]) * t.gamma, Dot(LinearVec(I, t)[..I.nin], w[..I.nin]))
  {
    hide Instance.LinearAt, Cong, Inverse;
    var ic := params.vk.ic;
    assert ic == [ic[0]] + ic[1..] && w[..I.nin] == [1] + w[1..I.nin];
    DotConcat([ic[0]], [1], ic[1..], w[1..I.nin]);
    DotSnoc([], [], ic[0], 1);
    assert [] + [ic[0]] == [ic[0]] && [] + [1] == [1];
    InverseOf(I.F.p, t.gamma);
    DotDivided(I.F.p, ic, LinearVec(I, t)[..I.nin], w[..I.nin], t.gamma, Inverse(I.F.p, t.gamma));
  }

  lemma InverseOf(p: int, g: int)
    requires Prime(p) && !Cong(p, g, 0)
    ensures Cong(p, Inverse(p, g) * g, 1)
  {
    InverseCorrect(p, g);
    Commute(g, Inverse(p, g), 0);
  }

  lemma PrivateSum(I: Instance, params: Parameters, qap: QAP, t: Trapdoor, w: Vec)
    requires I.Valid() && FromTrapdoor(I, params, qap, t) && |w| == I.n
    ensures Cong(I.F.p, Dot(params.l, w[I.nin..]) * t.delta, Dot(LinearVec(I, t)[I.nin..], w[I.nin..]))
  {
    hide Instance.LinearAt;
    InverseOf(I.F.p, t.delta);
    forall i | 0 <= i < |params.l| ensures LinearVec(I, t)[I.nin..][i] == I.LinearAt(t, I.nin + i) {}
    DotDivided(I.F.p, params.l, LinearVec(I, t)[I.nin..], w[I.nin..], t.delta, Inverse(I.F.p, t.delta));
  }

  lemma QuotientSum(I: Instance, params: Parameters, qap: QAP, t: Trapdoor, h: Vec)
    requires I.Valid() && FromTrapdoor(I, params, qap, t) && |h| <= |params.h|
    ensures Cong(I.F.p, Dot(params.h[..|h|], h) * t.delta, Eval(h, t.tau) * (Pow(t.tau, Pow2(I.e)) - 1))
  {
    hide Pow, Eval, Cong;
    InverseOf(I.F.p, t.delta);
    QuotientQuery(I.F.p, params.h[..|h|], h, t.tau, Pow(t.tau, Pow2(I.e)) - 1, t.delta, Inverse(I.F.p, t.delta));
  }

  /** The three elements of a proof in terms of the trapdoor and the polynomials at tau. */
  lemma ProofAtTau(I: Instance, params: Parameters, qap: QAP, t: Trapdoor, w: Vec, pf: Proof, r: int, s: int, dH: int,
                   dL: int)
    requires I.Valid() && IsQap(qap, I.cs, I.nin) && FromTrapdoor(I, params, qap, t)
    requires |w| == I.n && Below(qap.aConstraints, |w|) && Below(qap.bConstraints, |w|)
    requires ProofEquations(I.F.p, pf, params.vk, r, s,
                   Dot(params.aG1, Pick(w, qap.aConstraints)),
                   Dot(params.bG1, Pick(w, qap.bConstraints)), Dot(params.bG2, Pick(w, qap.bConstraints)), dH, dL)
    ensures Cong(I.F.p, pf.a, t.alpha + SideAt(I, SideA, w, t.tau) + t.delta * r)
    ensures Cong(I.F.p, pf.b, t.beta + SideAt(I, SideB, w, t.tau) + t.delta * s)
    ensures Cong(I.F.p, pf.c,
                 (SideAt(I, SideB, w, t.tau) + t.delta * s + t.beta) * r + dH + dL + pf.a * s - t.delta * (r * s))
  {
    hide SideAt, Dot, Instance.ColumnAt, Instance.LinearAt, Pow, ProofEquations, Cong;
    SideQuery(I, SideA, params.aG1, qap.aConstraints, w, t.tau);
    SideQuery(I, SideB, params.bG1, qap.bConstraints, w, t.tau);
    SideQuery(I, SideB, params.bG2, qap.bConstraints, w, t.tau);
    InTrapdoor(I.F.p, pf, params.vk, r, s, Dot(params.aG1, Pick(w, qap.aConstraints)),
               Dot(params.bG1, Pick(w, qap.bConstraints)), Dot(params.bG2, Pick(w, qap.bConstraints)), dH, dL,
               t.alpha, t.beta, t.delta, SideAt(I, SideA, w, t.tau), SideAt(I, SideB, w, t.tau));
  }

  /** The public and the private part of the key together give beta * A + alpha * B + C. */
  lemma LinearHalves(I: Instance, t: Trapdoor, w: Vec)
    requires I.Valid() && |w| == I.n
    ensures Dot(LinearVec(I, t)[..I.nin], w[..I.nin]) + Dot(LinearVec(I, t)[I.nin..], w[I.nin..]) ==
      t.beta * SideAt(I, SideA, w, t.tau) + t.alpha * SideAt(I, SideB, w, t.tau) + SideAt(I, SideC, w, t.tau)
  {
    hide SideAt, Dot, LinearVec;
    var z := LinearVec(I, t);
    LinearSum(I, t, w);
    DotConcat(z[..I.nin], w[..I.nin], z[I.nin..], w[I.nin..]);
    assert z[..I.nin] + z[I.nin..] == z && w[..I.nin] + w[I.nin..] == w;
  }

  /** The difference of the two sides of the pairing equation is the defect of the identity. */
  lemma EquationAtTau(I: Instance, params: Parameters, qap: QAP, t: Trapdoor, w: Vec, pf: Proof, r: int, s: int)
    requires I.Valid() && IsQap(qap, I.cs, I.nin) && FromTrapdoor(I, params, qap, t)
    requires |w| == I.n && w[0] == 1 && Below(qap.aConstraints, |w|) && Below(qap.bConstraints, |w|)
    requires IsProof(I.F.p, pf, params, qap, w, I.nin, Quot(I, w)[..Pow2(I.e) - 1], r, s)
    ensures Cong(I.F.p,
                 pf.a * pf.b - InputPoint(params.vk.ic, w[1..I.nin]) * t.gamma - pf.c * t.delta - t.alpha * t.beta,
                 Defect(I, w, t.tau))
  {
    hide Quot, ProofEquations, SideAt, Dot, QueryDot, Eval, Pow, LinearVec, InputPoint;
    var h := Quot(I, w)[..Pow2(I.e) - 1];
    FullQuery(params.aG1, w, qap.aConstraints);
    FullQuery(params.bG1, w, qap.bConstraints);
    FullQuery(params.bG2, w, qap.bConstraints);
    var dH, dL := Dot(params.h[..|h|], h), Dot(params.l, w[I.nin..]);
    ProofAtTau(I, params, qap, t, w, pf, r, s, dH, dL);
    PublicSum(I, params, qap, t, w);
    PrivateSum(I, params, qap, t, w);
    QuotientSum(I, params, qap, t, h);
    LinearHalves(I, t, w);
    AcceptanceIdentity(I.F.p, pf.a, pf.b, pf.c, t.alpha, t.beta, t.gamma, t.delta,
                       SideAt(I, SideA, w, t.tau), SideAt(I, SideB, w, t.tau), SideAt(I, SideC, w, t.tau),
                       dH, dL, InputPoint(params.vk.ic, w[1..I.nin]), r, s,
                       Eval(h, t.tau) * (Pow(t.tau, Pow2(I.e)) - 1),
                       Dot(LinearVec(I, t)[I.nin..], w[I.nin..]), Dot(LinearVec(I, t)[..I.nin], w[..I.nin]));
  }

  /**
   The verifier accepts what the prover returns if and only if the identity of
   the polynomials holds at the trapdoor, whatever the assignment.
   */
  lemma AcceptedIffIdentity(I: Instance, params: Parameters, qap: QAP, t: Trapdoor, w: Vec, pf: Proof, r: int, s: int)
    requires I.Valid() && IsQap(qap, I.cs, I.nin) && FromTrapdoor(I, params, qap, t)
    requires |w| == I.n && w[0] == 1 && Below(qap.aConstraints, |w|) && Below(qap.bConstraints, |w|)
    requires IsProof(I.F.p, pf, params, qap, w, I.nin, Quot(I, w)[..Pow2(I.e) - 1], r, s)
    ensures Accepts(I.F.p, pf, w[1..I.nin], params.vk) <==> IdentityAt(I, w, t.tau)
  {
    hide Quot, ProofEquations, PairingEquation, Defect, Dot, InputPoint, Pow, Pick;
    EquationAtTau(I, params, qap, t, w, pf, r, s);
    EquationIffZero(I.F.p, pf, InputPoint(params.vk.ic, w[1..I.nin]), params.vk, t, Defect(I, w, t.tau));
  }

  /** The assignment satisfies every constraint in the field. */
  ghost predicate Satisfies(I: Instance, w: Vec)
    requires I.Valid() && |w| == I.n
  {
    forall c :: c in I.cs ==> Holds(I.F.p, c, I.nin, w)
  }

  /** Then the values on the domain satisfy A * B = C, padding included. */
  lemma RowsSatisfied(I: Instance, w: Vec)
    requires I.Valid() && |w| == I.n && Satisfies(I, w)
    ensures TermsBelow(Terms(I.cs, SideA), I.nin, |w|) && TermsBelow(Terms(I.cs, SideB), I.nin, |w|)
    ensures TermsBelow(Terms(I.cs, SideC), I.nin, |w|)
    ensures Satisfied(I.F.p, Reduce(I.F.p, I.Rows(SideA, w)), Reduce(I.F.p, I.Rows(SideB, w)),
                      Reduce(I.F.p, I.Rows(SideC, w)))
  {
    SideTermsKnown(I, SideA, w);
    SideTermsKnown(I, SideB, w);
    SideTermsKnown(I, SideC, w);
    var p := I.F.p;
    var a, b, c := I.Rows(SideA, w), I.Rows(SideB, w), I.Rows(SideC, w);
    forall u: nat | u < Pow2(I.e) ensures Cong(p, (a[u] % p) * (b[u] % p), c[u] % p) {
      RowSatisfied(I, w, u);
      ReducedProduct(p, a[u], b[u], c[u]);
    }
  }

  lemma RowSatisfied(I: Instance, w: Vec, u: nat)
    requires I.Valid() && |w| == I.n && Satisfies(I, w) && u < Pow2(I.e)
    ensures TermsBelow(Terms(I.cs, SideA), I.nin, |w|) && TermsBelow(Terms(I.cs, SideB), I.nin, |w|)
    ensures TermsBelow(Terms(I.cs, SideC), I.nin, |w|)
    ensures Cong(I.F.p, I.Rows(SideA, w)[u] * I.Rows(SideB, w)[u], I.Rows(SideC, w)[u])
  {
    hide RowSum, LcValue, Terms;
    SideTermsKnown(I, SideA, w);
    SideTermsKnown(I, SideB, w);
    SideTermsKnown(I, SideC, w);
    RecordedRow(I.cs, SideA, I.nin, w, u);
    RecordedRow(I.cs, SideB, I.nin, w, u);
    RecordedRow(I.cs, SideC, I.nin, w, u);
    if u >= |I.cs| { CongRefl(I.F.p, 0); } else { assert Holds(I.F.p, I.cs[u], I.nin, w); }
  }

  lemma ReducedProduct(p: int, a: int, b: int, c: int)
    requires p > 0 && Cong(p, a * b, c)
    ensures Cong(p, (a % p) * (b % p), c % p)
  {
    ModCong(p, a);
    ModCong(p, b);
    ModCong(p, c);
    CongMul(p, a % p, a, b % p, b);
    CongTrans(p, (a % p) * (b % p), a * b, c);
    CongTrans(p, (a % p) * (b % p), c, c % p);
  }

  /** Interpolating residues gives the same value as interpolating the rows. */
  lemma AtPointReduced(I: Instance, v: Vec, x: int)
    requires I.F.p > 1
    ensures Cong(I.F.p, I.AtPoint(Reduce(I.F.p, v), x), I.AtPoint(v, x))
  {
    var p, w := I.F.p, DomainRoot(I.F, I.e);
    ReduceCong(p, v);
    CongInverseTransform(p, w, Reduce(p, v), v);
    CongRefl(p, x);
    CongEval(p, InverseTransform(p, w, Reduce(p, v)), InverseTransform(p, w, v), x, x);
  }

  /** `truncate` drops nothing: the top coefficient of the quotient is zero. */
  lemma TruncateDropsZero(I: Instance, w: Vec)
    requires I.Valid() && |w| == I.n && Satisfies(I, w)
    ensures Quot(I, w)[Pow2(I.e) - 1] == 0
  {
    hide QuotientVec, Numerator, TimesVanishing, InverseTransform, Pow;
    var p, m := I.F.p, Pow2(I.e);
    RowsSatisfied(I, w);
    DomainOf(I.F, I.e);
    var a, b, c := Reduce(p, I.Rows(SideA, w)), Reduce(p, I.Rows(SideB, w)), Reduce(p, I.Rows(SideC, w));
    ExactQuotient(p, DomainRoot(I.F, I.e), I.F.gen, I.e, a, b, c);
    CongMod(p, QuotientVec(p, DomainRoot(I.F, I.e), I.F.gen, a, b, c)[m - 1], 0);
    SmallMod(p, 0);
  }

  lemma EvalZeroTop(h: Vec, x: int)
    requires h != [] && h[|h| - 1] == 0
    ensures Eval(h[..|h| - 1], x) == Eval(h, x)
  {
    assert h == h[..|h| - 1] + [0];
    EvalConcat(h[..|h| - 1], [0], x);
    assert Eval([0], x) == 0 + x * Eval([], x);
  }

  /** A satisfying assignment makes the identity hold at every point. */
  lemma IdentityOfSatisfied(I: Instance, w: Vec, tau: int)
    requires I.Valid() && |w| == I.n && Satisfies(I, w)
    ensures IdentityAt(I, w, tau)
  {
    hide QuotientVec, InverseTransform, Eval, Pow, Numerator, TimesVanishing;
    var p, m := I.F.p, Pow2(I.e);
    var root := DomainRoot(I.F, I.e);
    RowsSatisfied(I, w);
    DomainOf(I.F, I.e);
    var at, bt, ct := Reduce(p, I.Rows(SideA, w)), Reduce(p, I.Rows(SideB, w)), Reduce(p, I.Rows(SideC, w));
    var q := QuotientVec(p, root, I.F.gen, at, bt, ct);
    ExactQuotient(p, root, I.F.gen, I.e, at, bt, ct);
    var n := DomainNumerator(p, root, at, bt, ct);
    CongRefl(p, tau);
    CongEval(p, n, TimesVanishing(q), tau, tau);
    EvalTimesVanishing(q, tau);
    EvalNumerator(InverseTransform(p, root, at), InverseTransform(p, root, bt), InverseTransform(p, root, ct), tau);
    AtPointReduced(I, I.Rows(SideA, w), tau);
    AtPointReduced(I, I.Rows(SideB, w), tau);
    AtPointReduced(I, I.Rows(SideC, w), tau);
    ReduceCong(p, q);
    CongEval(p, q, Reduce(p, q), tau, tau);
    TruncateDropsZero(I, w);
    EvalZeroTop(Quot(I, w), tau);
    Replaced(p, I.AtPoint(at, tau), SideAt(I, SideA, w, tau), I.AtPoint(bt, tau), SideAt(I, SideB, w, tau),
             I.AtPoint(ct, tau), SideAt(I, SideC, w, tau), Eval(q, tau), Eval(Reduce(p, q), tau), Pow(tau, m) - 1);
  }

  lemma Replaced(p: int, a: int, a': int, b: int, b': int, c: int, c': int, h: int, h': int, z: int)
    requires Cong(p, a * b - c, h * z)
    requires Cong(p, a, a') && Cong(p, b, b') && Cong(p, c, c') && Cong(p, h, h')
    ensures Cong(p, a' * b' - c' - h' * z, 0)
  {
    CongMul(p, a, a', b, b');
    CongSub(p, a * b, a' * b', c, c');
    CongSym(p, a * b - c, a' * b' - c');
    CongScale(p, z, h, h');
    Commute(z, h, h');
    CongTrans(p, a' * b' - c', a * b - c, h * z);
    CongTrans(p, a' * b' - c', h * z, h' * z);
    CongRefl(p, h' * z);
    CongSub(p, a' * b' - c', h' * z, h' * z, h' * z);
  }

  /**
   Perfect completeness: a proof made from a satisfying assignment whose first
   input is one is accepted on the remaining inputs, for every trapdoor and all
   blinding scalars.
   */
  lemma PerfectCompleteness(I: Instance, params: Parameters, qap: QAP, t: Trapdoor, w: Vec, pf: Proof, r: int, s: int)
    requires I.Valid() && IsQap(qap, I.cs, I.nin) && FromTrapdoor(I, params, qap, t)
    requires |w| == I.n && w[0] == 1 && Satisfies(I, w)
    requires QapFits(qap, |w|, Pow2(I.e))
    requires IsProof(I.F.p, pf, params, qap, w, I.nin, ProverQuotient(I.F, qap, w, I.e)[..Pow2(I.e) - 1], r, s)
    ensures Accepts(I.F.p, pf, w[1..I.nin], params.vk)
  {
    ProverQuotientIsQuot(I, qap, w);
    IdentityOfSatisfied(I, w, t.tau);
    AcceptedIffIdentity(I, params, qap, t, w, pf, r, s);
  }

  lemma PreconditionsOfProver(I: Instance, params: Parameters, qap: QAP, t: Trapdoor)
    requires I.Valid() && IsQap(qap, I.cs, I.nin) && FromTrapdoor(I, params, qap, t)
    requires LeastExp(|I.cs|, I.e) && I.e < 32
    ensures |I.cs| <= Pow2(I.F.s) && |I.cs| <= Pow2(31) && QapFits(qap, I.n, |I.cs|) && QapFits(qap, I.n, Pow2(I.e))
    ensures forall e: nat :: LeastExp(|I.cs|, e) ==> e == I.e
    ensures Provable(I.F, params, qap, I.n - I.nin, I.e)
  {
    hide Pow, Prime, GroupsFit, Instance.ColumnAt, Instance.LinearAt, Inverse, LeastExp, Cong, ExactOrder;
    GeneratorOffDomain(I.F, I.e);
    OnlyExp(|I.cs|, I.e);
    QapOfSystemFits(I, qap);
    Pow2Mono(I.e, I.F.s);
    Pow2Mono(I.e, 31);
  }

  /** The prover and the verifier run one after the other. */
  method ProveThenVerify(I: Instance, params: Parameters, qap: QAP, ghost t: Trapdoor, inputs: Vec, aux: Vec, r: int,
                         s: int)
    returns (proof: Proof, accepted: bool)
    requires I.Valid() && IsQap(qap, I.cs, I.nin) && FromTrapdoor(I, params, qap, t)
    requires LeastExp(|I.cs|, I.e) && I.e < 32
    requires |inputs| == I.nin && |inputs + aux| == I.n && inputs[0] == 1
    ensures Satisfies(I, inputs + aux) ==> accepted
    ensures accepted <==> IdentityAt(I, inputs + aux, t.tau)
  {
    hide Quot, ProverQuotient, IsProof, Accepts, IdentityAt, Satisfies, Pow2, Provable, LeastExp, FromTrapdoor;
    ghost var w := inputs + aux;
    PreconditionsOfProver(I, params, qap, t);
    var made := CreateProof(I.F, params, inputs, aux, r, s, qap, |I.cs|);
    proof := made.value;
    var v := VerifyProof(I.F.p, proof, inputs[1..], params.vk);
    accepted := v.Ok?;
    assert inputs[1..] == w[1..I.nin];
    ProverQuotientIsQuot(I, qap, w);
    AcceptedIffIdentity(I, params, qap, t, w, proof, r, s);
    if Satisfies(I, w) { IdentityOfSatisfied(I, w, t.tau); }
  }

  /** One set of parameters serves every extraction of the QAP, whatever the order of its groups. */
  lemma ParametersServeAll(I: Instance, params: Parameters, q1: QAP, q2: QAP, t: Trapdoor)
    requires I.Valid() && IsQap(q1, I.cs, I.nin) && IsQap(q2, I.cs, I.nin)
    requires FromTrapdoor(I, params, q1, t)
    ensures FromTrapdoor(I, params, q2, t)
  {
    hide IsGrouping, IsKeyList, Instance.ColumnAt, Instance.LinearAt, Pow, Inverse, Cong;
    KeyListUnique(Terms(I.cs, SideA), I.nin, q1.aConstraints, q2.aConstraints);
    KeyListUnique(Terms(I.cs, SideB), I.nin, q1.bConstraints, q2.bConstraints);
  }

  /**
   From a circuit to the verdict: the assignments and the QAP are extracted, the
   proof is made and verified. If the witnesses satisfy the circuit's own
   constraints, the verdict is acceptance. The parameters may come from an earlier
   extraction: its groups can have come out in another order.
   */
  method ProveCircuit(I: Instance, calls: seq<Call>, params: Parameters, ghost setupQap: QAP, ghost t: Trapdoor, r: int,
                      s: int)
    returns (result: Result<bool, SynthesisError>)
    requires I.Valid() && I.cs == SystemOf(calls) && I.nin == CountInputs(calls)
    requires AllAssigned(calls) ==> I.n == I.nin + |AuxValues(calls)|
    requires IsQap(setupQap, I.cs, I.nin) && FromTrapdoor(I, params, setupQap, t)
    requires LeastExp(|I.cs|, I.e) && I.e < 32
    ensures result.Ok? <==> AllAssigned(calls)
    ensures result.Ok? && AllHold(CircuitConstraints(calls), I.F.p, I.nin, InputValues(calls) + AuxValues(calls)) ==>
      result.value
  {
    hide FromTrapdoor, IsQap, IdentityAt, Instance.Valid, LeastExp, AllHold;
    var cs := ExtractAssignments(calls);
    if cs.Err? { return Err(cs.error); }
    var inputs, aux := cs.value.inputAssignment, cs.value.auxAssignment;
    var qap := ExtractCircuit(calls);
    ParametersServeAll(I, params, setupQap, qap.value, t);
    FirstInput(calls);
    var proof, accepted := ProveThenVerify(I, params, qap.value, t, inputs, aux, r, s);
    SystemHoldsIff(calls, I.F.p, inputs + aux);
    SatisfiesIs(I, inputs + aux);
    result := Ok(accepted);
  }

  lemma SatisfiesIs(I: Instance, w: Vec)
    requires I.Valid() && |w| == I.n
    ensures Satisfies(I, w) <==> AllHold(I.cs, I.F.p, I.nin, w)
  {
  }
}
