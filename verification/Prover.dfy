/**
 Proof creation, from crates/groth16/src/prover.rs.

 A group element is the scalar it is a multiple of the generator by, so adding
 points is adding scalars and `mul` is multiplication in the field; this is
 what the argument of section 3.2 of Groth's paper is stated over.
 */
module Prover {
  import opened Modular
  import opened Polynomials
  import opened Dft
  import opened Fft
  import opened Quotient
  import opened Circuit
  import opened Wrappers

  datatype Proof = Proof(a: int, b: int, c: int)

  datatype VerificationKey = VerificationKey(
    alphaG1: int,
    betaG1: int, betaG2: int,
    gammaG2: int,
    deltaG1: int, deltaG2: int,
    ic: Vec)

  datatype Parameters = Parameters(
    vk: VerificationKey,
    h: Vec, l: Vec,
    aG1: Vec, bG1: Vec, bG2: Vec)

  /** The sum of the products of corresponding entries. */
  ghost function Dot(x: Vec, y: Vec): int
    requires |x| == |y|
  {
    if x == [] then 0
    else Dot(x[..|x| - 1], y[..|y| - 1]) + x[|x| - 1] * y[|y| - 1]
  }

  /** The values of the variables ks. */
  ghost function Pick(w: Vec, ks: seq<nat>): (r: Vec)
    requires Below(ks, |w|)
    ensures |r| == |ks|
    ensures forall k :: 0 <= k < |ks| ==> r[k] == w[ks[k]]
  {
    seq(|ks|, k requires 0 <= k < |ks| => w[ks[k]])
  }

  // --------------------------------------------------------- the rows

  /** Every variable of g is assigned and every row is inside the domain. */
  ghost predicate GroupsFit(g: Groups, n: nat, m: nat) {
    forall k :: 0 <= k < |g| ==> g[k].0 < n && forall e :: 0 <= e < |g[k].1| ==> g[k].1[e].1 < m
  }

  ghost function RowsOf(g: Groups, w: Vec, m: nat): (r: Vec)
    requires GroupsFit(g, |w|, m)
    ensures |r| == m
    ensures forall u :: 0 <= u < m ==> r[u] == GroupsRow(g, w, u)
  {
    seq(m, u requires 0 <= u < m => GroupsRow(g, w, u))
  }

  lemma AddEntry(p: int, out: int, total: int, x: int, c: int, now: int)
    requires p > 0 && Cong(p, out, total) && now == (out + (c * x) % p) % p
    ensures Cong(p, now, total + c * x)
  {
    ModCong(p, c * x);
    CongAdd(p, out, total, (c * x) % p, c * x);
    ModCong(p, out + (c * x) % p);
    CongTrans(p, now, out + (c * x) % p, total + c * x);
  }

  /** The inner loop of `eval`: one variable with value x. */
  method EvalEntries(p: int, output: array<int>, es: seq<(int, nat)>, x: int, ghost before: Vec)
    requires p > 0 && InField(p, output[..]) && CongVec(p, output[..], before)
    requires forall e :: 0 <= e < |es| ==> es[e].1 < output.Length
    modifies output
    ensures InField(p, output[..])
    ensures forall u :: 0 <= u < output.Length ==> Cong(p, output[u], before[u] + EntrySum(es, x, u))
  {
    for j := 0 to |es|
      invariant InField(p, output[..])
      invariant forall u :: 0 <= u < output.Length ==> Cong(p, output[u], before[u] + EntrySum(es[..j], x, u))
    {
      var (c, u) := es[j];
      assert es[..j + 1] == es[..j] + [(c, u)];
      forall v: nat | v < output.Length
        ensures EntrySum(es[..j + 1], x, v) == EntrySum(es[..j], x, v) + if v == u then c * x else 0
      {
        EntrySumSnoc(es[..j], c, u, x, v);
      }
      hide EntrySum;
      AddEntry(p, output[u], before[u] + EntrySum(es[..j], x, u), x, c, (output[u] + (c * x) % p) % p);
      output[u] := (output[u] + (c * x) % p) % p;
    }
    assert es[..|es|] == es;
  }

  /** The nested `eval`: adds to every row the terms of all variables. */
  method EvalGroups(p: int, inputs: Vec, aux: Vec, output: array<int>, g: Groups)
    requires p > 0 && GroupsFit(g, |inputs + aux|, output.Length)
    requires output[..] == Zeros(output.Length)
    modifies output
    ensures output[..] == Reduce(p, RowsOf(g, inputs + aux, output.Length))
  {
    ghost var w := inputs + aux;
    ghost var n := output.Length;
    CongVecRefl(p, Zeros(n));
    for k := 0 to |g|
      invariant InField(p, output[..])
      invariant forall u :: 0 <= u < n ==> Cong(p, output[u], GroupsRow(g[..k], w, u))
    {
      var (i, es) := g[k];
      assert g[..k + 1][..k] == g[..k];
      var x := if i < |inputs| then inputs[i] else aux[i - |inputs|];
      ghost var before := RowsOf(g[..k], w, n);
      EvalEntries(p, output, es, x, before);
      assert forall u :: 0 <= u < n ==> GroupsRow(g[..k + 1], w, u) == before[u] + EntrySum(es, x, u);
    }
    assert g[..|g|] == g;
    ReduceInField(p, output[..]);
    ReduceEqual(p, output[..], RowsOf(g, w, n));
  }

  ghost predicate QapFits(qap: QAP, n: nat, m: nat) {
    && GroupsFit(qap.a, n, m) && GroupsFit(qap.b, n, m) && GroupsFit(qap.c, n, m)
    && Below(qap.aConstraints, n) && Below(qap.bConstraints, n)
  }

  // What the loops compute at each step, with the root of whatever order `fft_params` returned.

  /** From values on the domain to values on the coset. */
  ghost function NetOnCoset(F: PrimeField, w: int, e: nat, v: Vec): (r: Vec)
    requires F.p > 1 && |v| == Pow2(e)
    ensures |r| == |v|
  {
    CosetFftOf(F.p, w, F.gen, e, IfftOf(F.p, w, e, v))
  }

  /** A * B - C on the coset. */
  ghost function NetSides(F: PrimeField, w: int, e: nat, a: Vec, b: Vec, c: Vec): (r: Vec)
    requires F.p > 1 && |a| == |b| == |c| == Pow2(e)
    ensures |r| == |a|
  {
    Reduce(F.p, SubVec(Reduce(F.p, MulVec(NetOnCoset(F, w, e, a), NetOnCoset(F, w, e, b))), NetOnCoset(F, w, e, c)))
  }

  /** Values on the coset times 1 / (g^m - 1), as coefficients. */
  ghost function NetDivided(F: PrimeField, w: int, e: nat, n: Vec): (r: Vec)
    requires F.p > 1 && |n| == Pow2(e)
    ensures |r| == |n|
  {
    IcosetFftOf(F.p, w, F.gen, e, Reduce(F.p, ScaleVec(Inverse(F.p, Pow(F.gen, |n|) - 1), n)))
  }

  /** The coefficients the prover takes for the quotient, for any assignment w. */
  ghost function ProverQuotient(F: PrimeField, qap: QAP, w: Vec, exp: nat): (r: Vec)
    requires F.p > 1 && QapFits(qap, |w|, Pow2(exp))
    ensures |r| == Pow2(exp)
  {
    var m := Pow2(exp);
    NetDivided(F, DomainRoot(F, exp), exp,
      NetSides(F, DomainRoot(F, exp), exp,
               Reduce(F.p, RowsOf(qap.a, w, m)), Reduce(F.p, RowsOf(qap.b, w, m)), Reduce(F.p, RowsOf(qap.c, w, m))))
  }

  // ------------------------------------------------------- the quotient

  lemma CongMulVec(p: int, a: Vec, b: Vec, c: Vec, d: Vec)
    requires |a| == |b| && CongVec(p, a, c) && CongVec(p, b, d)
    ensures CongVec(p, MulVec(a, b), MulVec(c, d))
  {
    forall i | 0 <= i < |a| ensures Cong(p, a[i] * b[i], c[i] * d[i]) { CongMul(p, a[i], c[i], b[i], d[i]); }
  }

  lemma CongSubVec(p: int, a: Vec, b: Vec, c: Vec, d: Vec)
    requires |a| == |b| && CongVec(p, a, c) && CongVec(p, b, d)
    ensures CongVec(p, SubVec(a, b), SubVec(c, d))
  {
    forall i | 0 <= i < |a| ensures Cong(p, a[i] - b[i], c[i] - d[i]) { CongSub(p, a[i], c[i], b[i], d[i]); }
  }

  /** From values on the domain to values on the coset, in place. */
  method ToCoset(F: PrimeField, a: array<int>, omega: int, exp: nat)
    requires F.Valid() && InField(F.p, a[..]) && 0 < omega < F.p
    requires a.Length == Pow2(exp) && exp < 32
    modifies a
    ensures a[..] == NetOnCoset(F, omega, exp, old(a[..])) && InField(F.p, a[..])
  {
    hide IfftOf, CosetFftOf, InverseTransform, CosetTransform, Pow2, HalfTurn;
    Ifft(F, a, omega, exp);
    CosetFft(F, a, omega, exp);
  }

  /** At a root of the right order the network does interpolate and evaluate. */
  lemma NetOnCosetIs(F: PrimeField, w: int, e: nat, v: Vec)
    requires F.Valid() && 0 < w < F.p && |v| == Pow2(e) && InField(F.p, v) && HalfTurn(F.p, w, e)
    ensures NetOnCoset(F, w, e, v) == Reduce(F.p, OnCoset(F, w, v))
  {
    hide IfftOf, CosetFftOf, InverseTransform, CosetTransform, Pow2, HalfTurn;
    var c := InverseTransform(F.p, w, v);
    IfftOfInverse(F.p, w, e, v);
    CosetFftOfTransform(F.p, w, F.gen, e, Reduce(F.p, c));
    ReduceCong(F.p, c);
    CongCosetTransform(F.p, w, F.gen, Reduce(F.p, c), c);
    ReduceEqual(F.p, CosetTransform(w, F.gen, Reduce(F.p, c)), CosetTransform(w, F.gen, c));
  }

  /** a[i] := a[i] * b[i] for all entries. */
  method MultiplyInPlace(p: int, a: array<int>, b: array<int>)
    requires p > 0 && a != b && a.Length == b.Length
    modifies a
    ensures a[..] == Reduce(p, MulVec(old(a[..]), b[..]))
  {
    ghost var a1, b1 := a[..], b[..];
    for i := 0 to a.Length
      invariant b[..] == b1
      invariant forall j :: 0 <= j < a.Length ==> a[j] == if j < i then (a1[j] * b1[j]) % p else a1[j]
    {
      a[i] := (a[i] * b[i]) % p;
    }
    assert a[..] == Reduce(p, MulVec(a1, b1));
  }

  lemma ProductReduced(p: int, a: Vec, b: Vec, x: Vec, y: Vec)
    requires p > 0 && |x| == |y| && a == Reduce(p, x) && b == Reduce(p, y)
    ensures Reduce(p, MulVec(a, b)) == Reduce(p, MulVec(x, y))
  {
    ReduceCong(p, x);
    ReduceCong(p, y);
    CongMulVec(p, a, b, x, y);
    ReduceEqual(p, MulVec(a, b), MulVec(x, y));
  }

  lemma DifferenceReduced(p: int, a: Vec, b: Vec, x: Vec, y: Vec)
    requires p > 0 && |x| == |y| && a == Reduce(p, x) && b == Reduce(p, y)
    ensures Reduce(p, SubVec(a, b)) == Reduce(p, SubVec(x, y))
  {
    ReduceCong(p, x);
    ReduceCong(p, y);
    CongSubVec(p, a, b, x, y);
    ReduceEqual(p, SubVec(a, b), SubVec(x, y));
  }

  /** The coset values of the polynomial whose values on the domain of omega are v. */
  ghost function OnCoset(F: PrimeField, omega: int, v: Vec): (r: Vec)
    requires F.p > 1
    ensures |r| == |v|
  {
    CosetTransform(omega, F.gen, InverseTransform(F.p, omega, v))
  }

  lemma PowerLeast(e: nat)
    ensures LeastExp(Pow2(e), e)
  {
    forall k: nat | Pow2(e) <= Pow2(k) ensures e <= k {
      if k < e { Pow2Mono(k, e); }
    }
  }

  lemma ResiduesInField(p: int, a: Vec)
    requires p > 0
    ensures InField(p, Reduce(p, a))
  {
  }

  lemma FieldPrime(F: PrimeField)
    requires F.Valid()
    ensures F.p > 1
  {
  }

  /** `coset_mul_assign`: both factors moved to the coset and multiplied there. */
  method CosetMulAssign(F: PrimeField, a: array<int>, b0: Vec, ghost e: nat)
    requires F.Valid() && InField(F.p, a[..]) && InField(F.p, b0)
    requires a.Length == |b0| == Pow2(e) && e < 32
    modifies a
    ensures InField(F.p, a[..])
    ensures a[..] ==
      Reduce(F.p, MulVec(NetOnCoset(F, DomainRoot(F, e), e, old(a[..])), NetOnCoset(F, DomainRoot(F, e), e, b0)))
    ensures e <= F.s ==>
      a[..] == Reduce(F.p, MulVec(OnCoset(F, DomainRoot(F, e), old(a[..])), OnCoset(F, DomainRoot(F, e), b0)))
  {
    hide Reduce, MulVec, HalfTurn, LeastExp, OnCoset, NetOnCoset, Pow2, InField, PrimeField.Valid;
    FieldPrime(F);
    var b := new int[|b0|](i requires 0 <= i < |b0| => b0[i]);
    assert b[..] == b0;
    var omega, m, exp := FftParams(F, a.Length);
    OnlyExp(a.Length, exp);
    PowerLeast(e);
    ghost var a0 := a[..];
    ToCoset(F, a, omega, exp);
    ToCoset(F, b, omega, exp);
    ghost var a1, b1 := a[..], b[..];
    MultiplyInPlace(F.p, a, b);
    ResiduesInField(F.p, MulVec(a1, b1));
    if e <= F.s {
      NetOnCosetIs(F, omega, e, a0);
      NetOnCosetIs(F, omega, e, b0);
      ProductReduced(F.p, a1, b1, OnCoset(F, omega, a0), OnCoset(F, omega, b0));
    }
  }

  /** The values of the three sides of the constraints on the domain. */
  method DomainValues(p: int, inputs: Vec, aux: Vec, g: Groups, m: nat) returns (v: array<int>)
    requires p > 0 && GroupsFit(g, |inputs + aux|, m)
    ensures fresh(v) && v.Length == m && InField(p, v[..])
    ensures v[..] == Reduce(p, RowsOf(g, inputs + aux, m))
  {
    v := new int[m](_ => 0);
    EvalGroups(p, inputs, aux, v, g);
  }

  lemma NetSidesAre(F: PrimeField, w: int, e: nat, a: Vec, b: Vec, c: Vec)
    requires F.Valid() && 0 < w < F.p && HalfTurn(F.p, w, e) && |a| == |b| == |c| == Pow2(e)
    requires InField(F.p, a) && InField(F.p, b) && InField(F.p, c)
    ensures NetSides(F, w, e, a, b, c) == Reduce(F.p, CosetSides(F.p, w, F.gen, a, b, c))
  {
    hide CosetTransform, InverseTransform, NetOnCoset, Pow2, HalfTurn, InField;
    var x, y := MulVec(OnCoset(F, w, a), OnCoset(F, w, b)), OnCoset(F, w, c);
    NetOnCosetIs(F, w, e, a);
    NetOnCosetIs(F, w, e, b);
    NetOnCosetIs(F, w, e, c);
    ProductReduced(F.p, NetOnCoset(F, w, e, a), NetOnCoset(F, w, e, b), OnCoset(F, w, a), OnCoset(F, w, b));
    DifferenceReduced(F.p, Reduce(F.p, x), Reduce(F.p, y), x, y);
  }

  lemma NetDividedIs(F: PrimeField, w: int, e: nat, n: Vec)
    requires F.Valid() && 0 < w < F.p && HalfTurn(F.p, w, e) && |n| == Pow2(e)
    ensures NetDivided(F, w, e, Reduce(F.p, n)) == Reduce(F.p, CosetQuotient(F.p, w, F.gen, n))
  {
    hide IcosetFftOf, InverseCosetTransform, Pow2, Pow, HalfTurn, Inverse;
    var z := Inverse(F.p, Pow(F.gen, |n|) - 1);
    var v := ScaleVec(z, n);
    ReduceCong(F.p, n);
    CongScaleVec(F.p, z, Reduce(F.p, n), n);
    ReduceEqual(F.p, ScaleVec(z, Reduce(F.p, n)), v);
    ReduceCong(F.p, v);
    IcosetFftOfInverse(F.p, w, F.gen, e, Reduce(F.p, v));
    CongInverseCosetTransform(F.p, w, F.gen, Reduce(F.p, v), v);
    ReduceEqual(F.p, InverseCosetTransform(F.p, w, F.gen, Reduce(F.p, v)), InverseCosetTransform(F.p, w, F.gen, v));
  }

  /** On a field with a domain of that size the prover's coefficients are the quotient vector of the rows. */
  lemma ProverQuotientIsQuotient(F: PrimeField, qap: QAP, w: Vec, exp: nat)
    requires F.Valid() && exp <= F.s && QapFits(qap, |w|, Pow2(exp))
    ensures var m := Pow2(exp);
      ProverQuotient(F, qap, w, exp) == Reduce(F.p, QuotientVec(F.p, DomainRoot(F, exp), F.gen,
        Reduce(F.p, RowsOf(qap.a, w, m)), Reduce(F.p, RowsOf(qap.b, w, m)), Reduce(F.p, RowsOf(qap.c, w, m))))
  {
    hide NetSides, NetDivided, CosetSides, CosetQuotient, RowsOf, Pow2, HalfTurn, ExactOrder, GroupsFit,
         PrimeField.Valid;
    FieldPrime(F);
    var m, root := Pow2(exp), DomainRoot(F, exp);
    var a, b, c := Reduce(F.p, RowsOf(qap.a, w, m)), Reduce(F.p, RowsOf(qap.b, w, m)), Reduce(F.p, RowsOf(qap.c, w, m));
    ResiduesInField(F.p, RowsOf(qap.a, w, m));
    ResiduesInField(F.p, RowsOf(qap.b, w, m));
    ResiduesInField(F.p, RowsOf(qap.c, w, m));
    DomainRootOrder(F, exp);
    NetSidesAre(F, root, exp, a, b, c);
    NetDividedIs(F, root, exp, CosetSides(F.p, root, F.gen, a, b, c));
  }

  /** A * B - C on the coset, in place of at, from values on the domain. */
  method MoveToCoset(F: PrimeField, at: array<int>, bt: array<int>, ct: array<int>, omega: int, exp: nat)
    requires F.Valid() && exp < 32 && omega == DomainRoot(F, exp) && 0 < omega < F.p
    requires at.Length == bt.Length == ct.Length == Pow2(exp) && at != ct
    requires InField(F.p, at[..]) && InField(F.p, bt[..]) && InField(F.p, ct[..])
    modifies at, ct
    ensures at[..] == NetSides(F, omega, exp, old(at[..]), old(bt[..]), old(ct[..]))
  {
    hide Reduce, SubVec, MulVec, OnCoset, NetOnCoset, Pow2, InField, PrimeField.Valid;
    FieldPrime(F);
    CosetMulAssign(F, at, bt[..], exp);
    ToCoset(F, ct, omega, exp);
    SubEvalDomain(F.p, at, ct[..]);
  }

  /** Division by g^m - 1 on the coset and back to coefficients; the inversion panics when that is zero. */
  method DivideOnCoset(F: PrimeField, at: array<int>, omega: int, exp: nat) returns (ok: bool)
    requires F.Valid() && exp < 32 && 0 < omega < F.p && at.Length == Pow2(exp)
    modifies at
    ensures ok <==> !Cong(F.p, Pow(F.gen, Pow2(exp)), 1)
    ensures ok ==> at[..] == NetDivided(F, omega, exp, old(at[..]))
  {
    hide IcosetFftOf, InverseCosetTransform, Pow2, Pow, HalfTurn, Inverse, Cong;
    var zinv := VanishingInverse(F, at.Length);
    if zinv.None? { return false; }
    ScaleInPlace(F.p, at, zinv.value);
    IcosetFft(F, at, omega, exp);
    ok := true;
  }

  lemma LeastFits(l: nat, e: nat, k: nat)
    requires LeastExp(l, e) && l <= Pow2(k)
    ensures l <= Pow2(e) && e <= k
  {
  }

  /** The values of the three sides, padded with zeros to the m points of the domain. */
  method ConstraintValues(p: int, inputs: Vec, aux: Vec, qap: QAP, m: nat)
    returns (at: array<int>, bt: array<int>, ct: array<int>)
    requires p > 0 && QapFits(qap, |inputs + aux|, m)
    ensures fresh(at) && fresh(bt) && fresh(ct) && at != bt && at != ct && bt != ct
    ensures at.Length == bt.Length == ct.Length == m
    ensures InField(p, at[..]) && InField(p, bt[..]) && InField(p, ct[..])
    ensures at[..] == Reduce(p, RowsOf(qap.a, inputs + aux, m))
    ensures bt[..] == Reduce(p, RowsOf(qap.b, inputs + aux, m))
    ensures ct[..] == Reduce(p, RowsOf(qap.c, inputs + aux, m))
  {
    hide Reduce, RowsOf, InField;
    at := DomainValues(p, inputs, aux, qap.a, m);
    bt := DomainValues(p, inputs, aux, qap.b, m);
    ct := DomainValues(p, inputs, aux, qap.c, m);
  }

  /** The `h` block up to the coefficients of the quotient: none exactly when the inversion panics. */
  method QuotientCoefficients(F: PrimeField, inputs: Vec, aux: Vec, qap: QAP, numConstraints: nat)
    returns (h: Option<array<int>>)
    requires F.Valid() && numConstraints <= Pow2(31)
    requires forall exp: nat :: LeastExp(numConstraints, exp) ==> QapFits(qap, |inputs + aux|, Pow2(exp))
    ensures exists exp: nat :: LeastExp(numConstraints, exp)
    ensures forall exp: nat :: LeastExp(numConstraints, exp) ==>
      && (h.Some? <==> !Cong(F.p, Pow(F.gen, Pow2(exp)), 1))
      && (exp <= F.s ==> h.Some?)
      && (h.Some? ==> h.value[..] == ProverQuotient(F, qap, inputs + aux, exp))
  {
    hide Pow, Pow2, NetSides, NetDivided, RowsOf, Cong, Reduce, HalfTurn, ExactOrder, InField, QapFits, GroupsFit,
         LeastExp, PrimeField.Valid;
    FieldPrime(F);
    var omega, m, e := FftParams(F, numConstraints);
    LeastFits(numConstraints, e, 31);
    GeneratorOffDomain(F, e);
    var at, bt, ct := ConstraintValues(F.p, inputs, aux, qap, m);
    MoveToCoset(F, at, bt, ct, omega, e);
    var ok := DivideOnCoset(F, at, omega, e);
    h := if ok then Some(at) else None;
    OnlyExp(numConstraints, e);
  }

  lemma GeneratorOffDomain(F: PrimeField, e: nat)
    requires F.Valid()
    ensures e <= F.s ==> !Cong(F.p, Pow(F.gen, Pow2(e)), 1)
  {
  }

  /** 1 / (g^m - 1), the inverse of the divisor on the coset. */
  method VanishingInverse(F: PrimeField, m: nat) returns (zinv: Option<int>)
    requires F.Valid()
    ensures zinv.Some? <==> !Cong(F.p, Pow(F.gen, m), 1)
    ensures zinv.Some? ==> zinv.value == Inverse(F.p, Pow(F.gen, m) - 1)
  {
    var t := FieldPow(F.p, F.gen, m);
    t := (t - 1) % F.p;
    LessOne(F.p, Pow(F.gen, m), t);
    if t == 0 { return None; }
    zinv := Some(F.Invert(t));
    InverseOfCongruent(F.p, t, Pow(F.gen, m) - 1);
  }

  lemma LessOne(p: int, x: int, t: int)
    requires p > 1 && t == (x % p - 1) % p
    ensures Cong(p, t, x - 1) && (t == 0 <==> Cong(p, x, 1))
  {
    ModCong(p, x);
    CongRefl(p, 1);
    CongSub(p, x % p, x, 1, 1);
    ModCong(p, x % p - 1);
    CongTrans(p, t, x % p - 1, x - 1);
    if t == 0 {
      CongSym(p, 0, x - 1);
      CongAdd(p, x - 1, 0, 1, 1);
    }
    if Cong(p, x, 1) {
      CongSub(p, x, 1, 1, 1);
      CongTrans(p, t, x - 1, 0);
      CongEqual(p, t, 0);
    }
  }

  lemma InverseOfCongruent(p: int, a: int, b: int)
    requires p > 1 && Cong(p, a, b)
    ensures Inverse(p, a) == Inverse(p, b)
  {
    CongMod(p, a, b);
  }

  method ScaleInPlace(p: int, a: array<int>, z: int)
    requires p > 1
    modifies a
    ensures a[..] == Reduce(p, ScaleVec(z, old(a[..]))) && InField(p, a[..])
  {
    ghost var n := a[..];
    for i := 0 to a.Length
      invariant forall j :: 0 <= j < a.Length ==> a[j] == if j < i then (z * n[j]) % p else n[j]
    {
      Commute(z, n[i], n[i]);
      a[i] := (a[i] * z) % p;
    }
  }

  lemma Commute(z: int, x: int, y: int)
    ensures z * x == x * z && z * y == y * z
  {
  }

  // ------------------------------------------------------- the assembly

  /** A fold of `acc + x * y` from the identity. */
  method MultiExp(p: int, x: Vec, y: Vec) returns (acc: int)
    requires p > 1 && |x| == |y|
    ensures Cong(p, acc, Dot(x, y))
  {
    acc := 0;
    CongRefl(p, 0);
    for i := 0 to |x|
      invariant Cong(p, acc, Dot(x[..i], y[..i]))
    {
      assert x[..i + 1][..i] == x[..i] && y[..i + 1][..i] == y[..i];
      AddEntry(p, acc, Dot(x[..i], y[..i]), y[i], x[i], (acc + (x[i] * y[i]) % p) % p);
      acc := (acc + (x[i] * y[i]) % p) % p;
    }
    assert x[..|x|] == x && y[..|y|] == y;
  }

  method PickValues(w: Vec, ks: seq<nat>) returns (r: Vec)
    requires Below(ks, |w|)
    ensures r == Pick(w, ks)
  {
    r := seq(|ks|, k requires 0 <= k < |ks| => w[ks[k]]);
  }

  /** The three elements, from the sums over the queries. */
  ghost predicate ProofEquations(p: int, pf: Proof, vk: VerificationKey, r: int, s: int,
                                 dA: int, dB1: int, dB2: int, dH: int, dL: int)
  {
    && Cong(p, pf.a, vk.alphaG1 + dA + vk.deltaG1 * r)
    && Cong(p, pf.b, vk.betaG2 + dB2 + vk.deltaG2 * s)
    && Cong(p, pf.c, (dB1 + vk.deltaG1 * s + vk.betaG1) * r + dH + dL + pf.a * s - vk.deltaG1 * (r * s))
  }

  function Min(a: nat, b: nat): nat {
    if a < b then a else b
  }

  /** The sum of a query over the variables it has points for; `zip` stops at the shorter of the two. */
  ghost function QueryDot(query: Vec, w: Vec, ks: seq<nat>): int
    requires Below(ks, |w|)
  {
    var n := Min(|query|, |ks|);
    Dot(query[..n], Pick(w, ks[..n]))
  }

  lemma FullQuery(query: Vec, w: Vec, ks: seq<nat>)
    requires Below(ks, |w|) && |query| == |ks|
    ensures QueryDot(query, w, ks) == Dot(query, Pick(w, ks))
  {
    assert query[..|ks|] == query && ks[..|ks|] == ks;
  }

  /**
   What a proof is made of, for parameters, an assignment w of which the first
   nin values are inputs, the quotient h without its last coefficient, and the
   blinding scalars r and s.
   */
  ghost predicate IsProof(p: int, pf: Proof, params: Parameters, qap: QAP, w: Vec, nin: nat, h: Vec, r: int, s: int)
    requires nin <= |w| && |params.l| == |w| - nin && |h| <= |params.h|
    requires Below(qap.aConstraints, |w|) && Below(qap.bConstraints, |w|)
  {
    ProofEquations(p, pf, params.vk, r, s,
                   QueryDot(params.aG1, w, qap.aConstraints),
                   QueryDot(params.bG1, w, qap.bConstraints), QueryDot(params.bG2, w, qap.bConstraints),
                   Dot(params.h[..|h|], h), Dot(params.l, w[nin..]))
  }

  /**
   What the code asserts, indexes and unwraps: the lengths of the queries other than
   the G2 one, the points of the H query, and the inverse of g^m - 1.
   */
  ghost predicate Provable(F: PrimeField, params: Parameters, qap: QAP, auxCount: nat, exp: nat) {
    && |params.l| == auxCount && |params.aG1| == |qap.aConstraints| && |params.bG1| == |qap.bConstraints|
    && Pow2(exp) <= |params.h| + 1 && !Cong(F.p, Pow(F.gen, Pow2(exp)), 1)
  }

  lemma ProvableIs(F: PrimeField, params: Parameters, qap: QAP, auxCount: nat, exp: nat)
    ensures Provable(F, params, qap, auxCount, exp) <==>
      && |params.l| == auxCount && |params.aG1| == |qap.aConstraints| && |params.bG1| == |qap.bConstraints|
      && Pow2(exp) <= |params.h| + 1 && !Cong(F.p, Pow(F.gen, Pow2(exp)), 1)
  {
  }

  /**
   The proof for the prover's quotient on the least domain that fits, for any field and
   any lengths; none exactly when the code panics.
   */
  method CreateProof(F: PrimeField, params: Parameters, inputs: Vec, aux: Vec, r: int, s: int, qap: QAP,
                     numConstraints: nat)
    returns (proof: Option<Proof>)
    requires F.Valid() && numConstraints <= Pow2(31)
    requires forall exp: nat :: LeastExp(numConstraints, exp) ==> QapFits(qap, |inputs + aux|, Pow2(exp))
    ensures exists exp: nat :: LeastExp(numConstraints, exp)
    ensures forall exp: nat :: LeastExp(numConstraints, exp) ==>
      (proof.Some? <==> Provable(F, params, qap, |aux|, exp))
    ensures forall exp: nat :: LeastExp(numConstraints, exp) && proof.Some? ==>
      IsProofOf(F, proof.value, params, qap, inputs, aux, exp, r, s)
  {
    hide ProverQuotient, Dot, QueryDot, Pow, Pow2, LeastExp, ProofEquations, Below, Cong, Provable, GroupsFit, IsProof,
         IsProofOf, PrimeField.Valid;
    FieldPrime(F);
    var p := F.p;
    var coefficients := QuotientCoefficients(F, inputs, aux, qap, numConstraints);
    ghost var e: nat :| LeastExp(numConstraints, e);
    OnlyExp(numConstraints, e);
    ProvableIs(F, params, qap, |aux|, e);
    if coefficients.None? { return None; }
    var at := coefficients.value;
    if at.Length > |params.h| + 1 || |aux| != |params.l| { return None; }
    if |params.aG1| != |qap.aConstraints| || |params.bG1| != |qap.bConstraints| { return None; }
    var made := MakeProof(p, params, inputs, aux, r, s, qap, at[..at.Length - 1]);
    IsProofOfIs(F, made, params, qap, inputs, aux, e, r, s);
    proof := Some(made);
  }

  /** A proof for the quotient of the QAP without its last coefficient. */
  ghost predicate IsProofOf(F: PrimeField, pf: Proof, params: Parameters, qap: QAP, inputs: Vec, aux: Vec, exp: nat,
                            r: int, s: int)
  {
    && F.p > 1 && QapFits(qap, |inputs + aux|, Pow2(exp)) && |params.l| == |aux| && Pow2(exp) <= |params.h| + 1
    && IsProof(F.p, pf, params, qap, inputs + aux, |inputs|,
               ProverQuotient(F, qap, inputs + aux, exp)[..Pow2(exp) - 1], r, s)
  }

  lemma IsProofOfIs(F: PrimeField, pf: Proof, params: Parameters, qap: QAP, inputs: Vec, aux: Vec, exp: nat, r: int,
                    s: int)
    requires F.p > 1 && QapFits(qap, |inputs + aux|, Pow2(exp)) && |params.l| == |aux| && Pow2(exp) <= |params.h| + 1
    requires IsProof(F.p, pf, params, qap, inputs + aux, |inputs|,
                     ProverQuotient(F, qap, inputs + aux, exp)[..Pow2(exp) - 1], r, s)
    ensures IsProofOf(F, pf, params, qap, inputs, aux, exp, r, s)
  {
  }

  /** The sums over the queries, and the three elements. */
  method MakeProof(p: int, params: Parameters, inputs: Vec, aux: Vec, r: int, s: int, qap: QAP, truncated: Vec)
    returns (proof: Proof)
    requires p > 1 && |params.l| == |aux| && |truncated| <= |params.h|
    requires Below(qap.aConstraints, |inputs + aux|) && Below(qap.bConstraints, |inputs + aux|)
    ensures IsProof(p, proof, params, qap, inputs + aux, |inputs|, truncated, r, s)
  {
    hide Dot, QueryDot, ProofEquations, Below;
    var augmented := inputs + aux;
    var h := MultiExp(p, params.h[..|truncated|], truncated);
    var l := MultiExp(p, params.l, aux);
    var atG1 := QuerySum(p, params.aG1, augmented, qap.aConstraints);
    var btG1 := QuerySum(p, params.bG1, augmented, qap.bConstraints);
    var btG2 := QuerySum(p, params.bG2, augmented, qap.bConstraints);
    assert augmented[|inputs|..] == aux;
    proof := Assemble(p, params.vk, atG1, btG1, btG2, h, l, r, s,
                      QueryDot(params.aG1, augmented, qap.aConstraints),
                      QueryDot(params.bG1, augmented, qap.bConstraints),
                      QueryDot(params.bG2, augmented, qap.bConstraints),
                      Dot(params.h[..|truncated|], truncated), Dot(params.l, aux));
  }

  lemma OnlyExp(l: nat, e: nat)
    requires LeastExp(l, e)
    ensures forall k: nat :: LeastExp(l, k) ==> k == e
  {
  }

  /** The sum of a query over the variables it has points for. */
  method QuerySum(p: int, query: Vec, w: Vec, ks: seq<nat>) returns (acc: int)
    requires p > 1 && Below(ks, |w|)
    ensures Cong(p, acc, QueryDot(query, w, ks))
  {
    var n := Min(|query|, |ks|);
    var values := PickValues(w, ks[..n]);
    acc := MultiExp(p, query[..n], values);
  }

  /** The three accumulations at the end of `create_proof`. */
  method Assemble(p: int, vk: VerificationKey, atG1: int, btG1: int, btG2: int, h: int, l: int, r: int, s: int,
                  ghost dA: int, ghost dB1: int, ghost dB2: int, ghost dH: int, ghost dL: int) returns (proof: Proof)
    requires p > 1 && Cong(p, atG1, dA) && Cong(p, btG1, dB1) && Cong(p, btG2, dB2) && Cong(p, h, dH) && Cong(p, l, dL)
    ensures ProofEquations(p, proof, vk, r, s, dA, dB1, dB2, dH, dL)
  {
    var a := Blinded(p, vk.alphaG1, atG1, dA, vk.deltaG1, r);
    var b := Blinded(p, vk.betaG2, btG2, dB2, vk.deltaG2, s);
    ghost var u := vk.deltaG1 * s;
    var x := MulPoint(p, vk.deltaG1, vk.deltaG1, s, s);
    var c := AddPoint(p, 0, 0, btG1, dB1);
    c := AddPoint(p, c, dB1, x, u);
    c := AddPoint(p, c, dB1 + u, vk.betaG1, vk.betaG1);
    c := AssembleC(p, c, dB1 + vk.deltaG1 * s + vk.betaG1, r, h, dH, l, dL, a, s, vk.deltaG1);
    proof := Proof(a, b, c);
  }

  /** x + y + d * r, accumulated from the identity. */
  method Blinded(p: int, x: int, y: int, ghost y': int, d: int, r: int) returns (a: int)
    requires p > 1 && Cong(p, y, y')
    ensures Cong(p, a, x + y' + d * r)
  {
    ghost var u := d * r;
    var z := MulPoint(p, d, d, r, r);
    a := AddPoint(p, 0, 0, x, x);
    a := AddPoint(p, a, x, y, y');
    a := AddPoint(p, a, x + y', z, u);
  }

  /** The tail of the accumulation of c. */
  method AssembleC(p: int, c0: int, ghost c0': int, r: int, h: int, ghost h': int, l: int, ghost l': int, a: int,
                   s: int, d: int)
    returns (c: int)
    requires p > 1 && Cong(p, c0, c0') && Cong(p, h, h') && Cong(p, l, l')
    ensures Cong(p, c, c0' * r + h' + l' + a * s - d * (r * s))
  {
    c := MulPoint(p, c0, c0', r, r);
    ghost var t := c0' * r;
    c := AddPoint(p, c, t, h, h');
    c := AddPoint(p, c, t + h', l, l');
    var x := MulPoint(p, a, a, s, s);
    ghost var u := a * s;
    c := AddPoint(p, c, t + h' + l', x, u);
    var y := MulPoint(p, r, r, s, s);
    y := MulPoint(p, d, d, y, r * s);
    c := SubPoint(p, c, t + h' + l' + u, y, d * (r * s));
  }

  // Operations on points, with what the operands stand for.

  method AddPoint(p: int, x: int, ghost x': int, y: int, ghost y': int) returns (z: int)
    requires p > 1 && (x == x' || Cong(p, x, x')) && (y == y' || Cong(p, y, y'))
    ensures z == (x + y) % p && Cong(p, z, x' + y')
  {
    z := AddMod(p, x, y);
    if x == x' { CongRefl(p, x); }
    if y == y' { CongRefl(p, y); }
    CongAdd(p, x, x', y, y');
    ModCong(p, x + y);
    CongTrans(p, z, x + y, x' + y');
  }

  method SubPoint(p: int, x: int, ghost x': int, y: int, ghost y': int) returns (z: int)
    requires p > 1 && Cong(p, x, x') && Cong(p, y, y')
    ensures z == (x - y) % p && Cong(p, z, x' - y')
  {
    z := SubMod(p, x, y);
    CongSub(p, x, x', y, y');
    ModCong(p, x - y);
    CongTrans(p, z, x - y, x' - y');
  }

  method MulPoint(p: int, x: int, ghost x': int, y: int, ghost y': int) returns (z: int)
    requires p > 1 && (x == x' || Cong(p, x, x')) && (y == y' || Cong(p, y, y'))
    ensures z == (x * y) % p && Cong(p, z, x' * y')
  {
    z := MulMod(p, x, y);
    if x == x' { CongRefl(p, x); }
    if y == y' { CongRefl(p, y); }
    CongMul(p, x, x', y, y');
    ModCong(p, x * y);
    CongTrans(p, z, x * y, x' * y');
  }
}
