/**
 The quotient polynomial of crates/groth16/src/prover.rs: from the values of
 A, B and C on the domain, the coefficients of (A * B - C) / (X^m - 1),
 computed on a coset where the divisor is the constant g^m - 1.
 */
module Quotient {
  import opened Modular
  import opened Polynomials
  import opened Dft
  import opened Fft

  /** w generates a domain of 2^e points, and g moves it off the roots of X^m - 1. */
  ghost predicate Domain(p: int, w: int, g: int, e: nat) {
    && Prime(p) && p > 2
    && 0 < w < p && HalfTurn(p, w, e) && Cong(p, Pow(w, Pow2(e)), 1)
    && 0 < g < p && !Cong(p, Pow(g, Pow2(e)), 1)
  }

  lemma DomainOf(F: PrimeField, e: nat)
    requires F.Valid() && e <= F.s
    ensures Domain(F.p, DomainRoot(F, e), F.gen, e)
  {
    DomainRootOrder(F, e);
    DomainRootTurns(F, e);
  }

  /** A * B - C on the coset, from the coefficients. */
  function CosetNumerator(w: int, g: int, a: Vec, b: Vec, c: Vec): (r: Vec)
    requires |a| == |b| == |c|
    ensures |r| == |a|
  {
    SubVec(MulVec(CosetTransform(w, g, a), CosetTransform(w, g, b)), CosetTransform(w, g, c))
  }

  /** A * B - C on the coset, from the values of the three on the domain. */
  function CosetSides(p: int, w: int, g: int, at: Vec, bt: Vec, ct: Vec): (r: Vec)
    requires p > 1 && |at| == |bt| == |ct|
    ensures |r| == |at|
  {
    CosetNumerator(w, g, InverseTransform(p, w, at), InverseTransform(p, w, bt), InverseTransform(p, w, ct))
  }

  /** Values on the coset divided by g^m - 1, as coefficients. */
  function CosetQuotient(p: int, w: int, g: int, n: Vec): (r: Vec)
    requires p > 1
    ensures |r| == |n|
  {
    InverseCosetTransform(p, w, g, ScaleVec(Inverse(p, Pow(g, |n|) - 1), n))
  }

  /** What the prover computes from the values at, bt, ct on the domain. */
  function QuotientVec(p: int, w: int, g: int, at: Vec, bt: Vec, ct: Vec): (r: Vec)
    requires p > 1 && |at| == |bt| == |ct|
    ensures |r| == |at|
  {
    CosetQuotient(p, w, g, CosetSides(p, w, g, at, bt, ct))
  }

  /** The coefficients of A * B - C, padded to twice the length. */
  function Numerator(a: Vec, b: Vec, c: Vec): (r: Vec)
    requires |a| == |b| == |c|
    ensures |r| == 2 * |a|
  {
    SubVec(PolyMul(a, b), c + Zeros(|c|))
  }

  /** The coefficients of h * (X^m - 1), for m = |h|. */
  function TimesVanishing(h: Vec): (r: Vec)
    ensures |r| == 2 * |h|
  {
    ScaleVec(-1, h) + h
  }

  lemma EvalTimesVanishing(h: Vec, x: int)
    ensures Eval(TimesVanishing(h), x) == Eval(h, x) * (Pow(x, |h|) - 1)
  {
    EvalConcat(ScaleVec(-1, h), h, x);
    EvalScale(-1, h, x);
    MinusOne(Eval(h, x), Pow(x, |h|));
  }

  lemma MinusOne(h: int, z: int)
    ensures -1 * h + z * h == h * (z - 1)
  {
  }

  /** The numerator of the polynomials that take the given values on the domain. */
  function DomainNumerator(p: int, w: int, at: Vec, bt: Vec, ct: Vec): (r: Vec)
    requires p > 1 && |at| == |bt| == |ct|
    ensures |r| == 2 * |at|
  {
    Numerator(InverseTransform(p, w, at), InverseTransform(p, w, bt), InverseTransform(p, w, ct))
  }

  lemma EvalNumerator(a: Vec, b: Vec, c: Vec, x: int)
    requires |a| == |b| == |c|
    ensures Eval(Numerator(a, b, c), x) == Eval(a, x) * Eval(b, x) - Eval(c, x)
  {
    EvalSub(PolyMul(a, b), c + Zeros(|c|), x);
    EvalMul(a, b, x);
    EvalConcat(c, Zeros(|c|), x);
    EvalZeros(|c|, x);
  }

  /** The constraints hold: the product of the values is the third value, everywhere. */
  ghost predicate Satisfied(p: int, at: Vec, bt: Vec, ct: Vec)
    requires |at| == |bt| == |ct|
  {
    forall i :: 0 <= i < |at| ==> Cong(p, at[i] * bt[i], ct[i])
  }

  /** The numerator at a point of the domain is the defect of that constraint. */
  lemma NumeratorOnDomain(p: int, w: int, e: nat, at: Vec, bt: Vec, ct: Vec, k: nat)
    requires Prime(p) && p > 2 && 0 < w < p && HalfTurn(p, w, e)
    requires |at| == |bt| == |ct| == Pow2(e) && k < |at|
    ensures Cong(p, Eval(DomainNumerator(p, w, at, bt, ct), Pow(w, k)),
                 at[k] * bt[k] - ct[k])
  {
    hide Eval, Pow, Numerator, InverseTransform, Cong;
    var a, b, c := InverseTransform(p, w, at), InverseTransform(p, w, bt), InverseTransform(p, w, ct);
    var x := Pow(w, k);
    EvalNumerator(a, b, c, x);
    TransformOfInverse(p, w, at, e);
    TransformOfInverse(p, w, bt, e);
    TransformOfInverse(p, w, ct, e);
    assert Transform(w, a)[k] == Eval(a, x) && Transform(w, b)[k] == Eval(b, x) && Transform(w, c)[k] == Eval(c, x);
    CongMul(p, Eval(a, x), at[k], Eval(b, x), bt[k]);
    CongSub(p, Eval(a, x) * Eval(b, x), at[k] * bt[k], Eval(c, x), ct[k]);
  }

  lemma RootPowerIsOne(p: int, w: int, m: nat, k: nat)
    requires Cong(p, Pow(w, m), 1)
    ensures Cong(p, Pow(Pow(w, k), m), 1)
  {
    PowOfPow(w, k, m);
    PowOfPow(w, m, k);
    assert k * m == m * k;
    CongPow(p, Pow(w, m), 1, k);
    PowOne(k);
  }

  /** Division with remainder by X^m - 1: the remainder folds the two halves. */
  function Remainder(n: Vec): (r: Vec)
    requires |n| % 2 == 0
    ensures |r| == |n| / 2
  {
    AddVec(n[..|n| / 2], ScaleVec(1, n[|n| / 2..]))
  }

  /** A polynomial that vanishes on the domain has no remainder. */
  lemma NoRemainder(p: int, w: int, e: nat, n: Vec)
    requires Prime(p) && p > 2 && 0 < w < p && HalfTurn(p, w, e) && Cong(p, Pow(w, Pow2(e)), 1)
    requires |n| == 2 * Pow2(e)
    requires forall k: nat :: k < Pow2(e) ==> Cong(p, Eval(n, Pow(w, k)), 0)
    ensures CongVec(p, Remainder(n), Zeros(Pow2(e)))
  {
    hide Eval, Pow, Remainder, Transform, Prime, Cong, CongVec, HalfTurn, Pow2, Zeros;
    var m := Pow2(e);
    var r := Remainder(n);
    forall k: nat | k < m ensures Cong(p, Transform(w, r)[k], Transform(w, Zeros(m))[k]) {
      RemainderOnDomain(p, w, m, n, k);
    }
    RootInverse(p, w);
    TransformInjective(p, w, Inverse(p, w), r, Zeros(m), e);
  }

  lemma RemainderOnDomain(p: int, w: int, m: nat, n: Vec, k: nat)
    requires |n| == 2 * m && k < m && Cong(p, Pow(w, m), 1) && Cong(p, Eval(n, Pow(w, k)), 0)
    ensures Cong(p, Transform(w, Remainder(n))[k], Transform(w, Zeros(m))[k])
  {
    hide Eval, Pow, Cong;
    var x, r := Pow(w, k), Remainder(n);
    RootPowerIsOne(p, w, m, k);
    EvalFold(p, n[..m], n[m..], x, 1);
    assert n[..m] + n[m..] == n;
    CongSym(p, Eval(n, x), Eval(r, x));
    CongTrans(p, Eval(r, x), Eval(n, x), 0);
    EvalZeros(m, x);
    assert Transform(w, r)[k] == Eval(r, x) && Transform(w, Zeros(m))[k] == 0;
  }

  lemma CosetPoint(p: int, w: int, g: int, m: nat, k: nat)
    requires Cong(p, Pow(w, m), 1)
    ensures Cong(p, Pow(g * Pow(w, k), m), Pow(g, m))
  {
    PowOfProduct(g, Pow(w, k), m);
    RootPowerIsOne(p, w, m, k);
    CongScale(p, Pow(g, m), Pow(Pow(w, k), m), 1);
  }

  /** Where n has no remainder, n is its upper half times x^m - 1. */
  lemma UpperHalf(p: int, n: Vec, m: nat, x: int, s: int)
    requires |n| == 2 * m && CongVec(p, Remainder(n), Zeros(m)) && Cong(p, Pow(x, m), s)
    ensures Cong(p, Eval(n, x), (s - 1) * Eval(n[m..], x))
  {
    hide Eval, Pow;
    var lo, hi := n[..m], n[m..];
    EvalFold(p, lo, hi, x, s);
    assert lo + hi == n;
    var f := AddVec(lo, ScaleVec(s, hi));
    forall i | 0 <= i < m ensures Cong(p, f[i], ScaleVec(s - 1, hi)[i]) {
      assert Remainder(n)[i] == lo[i] + hi[i];
      CongRefl(p, (s - 1) * hi[i]);
      CongAdd(p, lo[i] + hi[i], 0, (s - 1) * hi[i], (s - 1) * hi[i]);
      SplitScale(lo[i], hi[i], s);
    }
    CongRefl(p, x);
    CongEval(p, f, ScaleVec(s - 1, hi), x, x);
    EvalScale(s - 1, hi, x);
    CongTrans(p, Eval(n, x), Eval(f, x), Eval(ScaleVec(s - 1, hi), x));
  }

  lemma SplitScale(lo: int, hi: int, s: int)
    ensures lo + hi + (s - 1) * hi == lo + s * hi
  {
  }

  lemma CosetConstant(p: int, g: int, m: nat)
    requires Prime(p) && !Cong(p, Pow(g, m), 1)
    ensures Cong(p, Inverse(p, Pow(g, m) - 1) * (Pow(g, m) - 1), 1)
  {
    var z := Pow(g, m) - 1;
    if Cong(p, z, 0) {
      CongRefl(p, 1);
      CongAdd(p, z, 0, 1, 1);
    }
    InverseCorrect(p, z);
    assert z * Inverse(p, z) == Inverse(p, z) * z;
  }

  /** The scaled value on the coset is the value of the upper half there. */
  lemma QuotientOnCoset(p: int, w: int, g: int, e: nat, a: Vec, b: Vec, c: Vec, k: nat)
    requires Domain(p, w, g, e) && |a| == |b| == |c| == Pow2(e) && k < |a|
    requires CongVec(p, Remainder(Numerator(a, b, c)), Zeros(|a|))
    ensures Cong(p, Inverse(p, Pow(g, |a|) - 1) * CosetNumerator(w, g, a, b, c)[k],
                 CosetTransform(w, g, Numerator(a, b, c)[|a|..])[k])
  {
    hide Eval, Pow, Numerator, CosetTransform, Inverse, Remainder, Cong;
    var m, n := |a|, Numerator(a, b, c);
    var x, s := g * Pow(w, k), Pow(g, m);
    CosetTransformAt(w, g, a, k);
    CosetTransformAt(w, g, b, k);
    CosetTransformAt(w, g, c, k);
    CosetTransformAt(w, g, n[m..], k);
    EvalNumerator(a, b, c, x);
    assert CosetNumerator(w, g, a, b, c)[k] == Eval(n, x);
    CosetPoint(p, w, g, m, k);
    UpperHalf(p, n, m, x, s);
    CosetConstant(p, g, m);
    Cancelled(p, Inverse(p, s - 1), s - 1, Eval(n[m..], x), Eval(n, x));
  }

  lemma Cancelled(p: int, v: int, z: int, h: int, n: int)
    requires Cong(p, v * z, 1) && Cong(p, n, z * h)
    ensures Cong(p, v * n, h)
  {
    hide Cong;
    CongScale(p, v, n, z * h);
    CongRefl(p, h);
    CongMul(p, v * z, 1, h, h);
    MulAssoc(v, z, h);
    CongTrans(p, v * n, (v * z) * h, h);
  }

  /** The numerator leaves no remainder. */
  ghost predicate Divides(p: int, w: int, at: Vec, bt: Vec, ct: Vec)
    requires p > 1 && |at| == |bt| == |ct|
  {
    CongVec(p, Remainder(DomainNumerator(p, w, at, bt, ct)), Zeros(|at|))
  }

  ghost predicate IsUpperHalf(p: int, w: int, g: int, at: Vec, bt: Vec, ct: Vec)
    requires p > 1 && |at| == |bt| == |ct|
  {
    CongVec(p, QuotientVec(p, w, g, at, bt, ct), DomainNumerator(p, w, at, bt, ct)[|at|..])
  }

  /** With no remainder, the computed vector is the upper half of the numerator. */
  lemma QuotientIsUpperHalf(p: int, w: int, g: int, e: nat, at: Vec, bt: Vec, ct: Vec)
    requires p > 1 && |at| == |bt| == |ct| == Pow2(e) && Divides(p, w, at, bt, ct)
    requires Domain(p, w, g, e)
    ensures IsUpperHalf(p, w, g, at, bt, ct)
  {
    hide Numerator, InverseTransform, CosetTransform, Inverse, Pow, CosetNumerator, Remainder, Cong;
    var a, b, c := InverseTransform(p, w, at), InverseTransform(p, w, bt), InverseTransform(p, w, ct);
    var hi := Numerator(a, b, c)[|at|..];
    var v := ScaleVec(Inverse(p, Pow(g, |at|) - 1), CosetNumerator(w, g, a, b, c));
    forall k | 0 <= k < |at| ensures Cong(p, v[k], CosetTransform(w, g, hi)[k]) {
      QuotientOnCoset(p, w, g, e, a, b, c, k);
    }
    CongInverseCosetTransform(p, w, g, v, CosetTransform(w, g, hi));
    InverseOfCosetTransform(p, w, g, hi, e);
    CongVecTrans(p, InverseCosetTransform(p, w, g, v), InverseCosetTransform(p, w, g, CosetTransform(w, g, hi)), hi);
  }

  /**
   The computed vector is the exact quotient, coefficient for coefficient, if
   and only if every constraint holds.
   */
  lemma ExactQuotient(p: int, w: int, g: int, e: nat, at: Vec, bt: Vec, ct: Vec)
    requires Domain(p, w, g, e) && |at| == |bt| == |ct| == Pow2(e)
    ensures Satisfied(p, at, bt, ct) <==>
      CongVec(p,
        DomainNumerator(p, w, at, bt, ct),
        TimesVanishing(QuotientVec(p, w, g, at, bt, ct)))
    ensures Satisfied(p, at, bt, ct) ==> Cong(p, QuotientVec(p, w, g, at, bt, ct)[|at| - 1], 0)
  {
    if Satisfied(p, at, bt, ct) { QuotientOfSatisfied(p, w, g, e, at, bt, ct); }
    var n := DomainNumerator(p, w, at, bt, ct);
    if CongVec(p, n, TimesVanishing(QuotientVec(p, w, g, at, bt, ct))) {
      forall k | 0 <= k < |at| ensures Cong(p, at[k] * bt[k], ct[k]) {
        DefectVanishes(p, w, e, at, bt, ct, QuotientVec(p, w, g, at, bt, ct), k);
      }
    }
  }

  lemma QuotientOfSatisfied(p: int, w: int, g: int, e: nat, at: Vec, bt: Vec, ct: Vec)
    requires Domain(p, w, g, e) && |at| == |bt| == |ct| == Pow2(e)
    requires Satisfied(p, at, bt, ct)
    ensures CongVec(p,
        DomainNumerator(p, w, at, bt, ct),
        TimesVanishing(QuotientVec(p, w, g, at, bt, ct)))
    ensures Cong(p, QuotientVec(p, w, g, at, bt, ct)[|at| - 1], 0)
  {
    hide Eval, Pow, InverseTransform, QuotientVec, Numerator, Remainder, TimesVanishing, Cong;
    var m := |at|;
    var a, b, c := InverseTransform(p, w, at), InverseTransform(p, w, bt), InverseTransform(p, w, ct);
    var n, h := Numerator(a, b, c), QuotientVec(p, w, g, at, bt, ct);
    forall k: nat | k < m ensures Cong(p, Eval(n, Pow(w, k)), 0) {
      NumeratorOnDomain(p, w, e, at, bt, ct, k);
      CongRefl(p, ct[k]);
      CongSub(p, at[k] * bt[k], ct[k], ct[k], ct[k]);
      CongTrans(p, Eval(n, Pow(w, k)), at[k] * bt[k] - ct[k], 0);
    }
    NoRemainder(p, w, e, n);
    QuotientIsUpperHalf(p, w, g, e, at, bt, ct);
    FromUpperHalf(p, n, h);
    TopOfNumerator(a, b, c);
    assert n[m..][m - 1] == 0;
  }

  /** Without a remainder, the upper half of a vector determines it. */
  lemma FromUpperHalf(p: int, n: Vec, h: Vec)
    requires |n| == 2 * |h| && CongVec(p, Remainder(n), Zeros(|h|)) && CongVec(p, h, n[|h|..])
    ensures CongVec(p, n, TimesVanishing(h))
  {
    hide Cong;
    var m := |h|;
    forall i | 0 <= i < 2 * m ensures Cong(p, n[i], TimesVanishing(h)[i]) {
      if i < m {
        assert Cong(p, Remainder(n)[i], Zeros(m)[i]) && Remainder(n)[i] == n[i] + 1 * n[m..][i];
        assert Cong(p, h[i], n[m..][i]);
        LowerHalf(p, n[i], n[m + i], h[i]);
      } else {
        CongSym(p, h[i - m], n[m..][i - m]);
      }
    }
  }

  lemma LowerHalf(p: int, lo: int, hi: int, h: int)
    requires Cong(p, lo + hi, 0) && Cong(p, h, hi)
    ensures Cong(p, lo, -1 * h)
  {
    CongSub(p, lo + hi, 0, h, hi);
    CongRefl(p, hi);
    CongSub(p, lo + hi, 0, hi, hi);
    CongScale(p, -1, h, hi);
    CongSym(p, -1 * h, -1 * hi);
    CongTrans(p, lo, -1 * hi, -1 * h);
  }

  lemma TopOfNumerator(a: Vec, b: Vec, c: Vec)
    requires |a| == |b| == |c| > 0
    ensures Numerator(a, b, c)[2 * |a| - 1] == 0
  {
    PolyMulTop(a, b);
  }

  lemma DefectVanishes(p: int, w: int, e: nat, at: Vec, bt: Vec, ct: Vec, h: Vec, k: nat)
    requires Prime(p) && p > 2 && 0 < w < p && HalfTurn(p, w, e) && Cong(p, Pow(w, Pow2(e)), 1)
    requires |at| == |bt| == |ct| == |h| == Pow2(e) && k < |at|
    requires CongVec(p, DomainNumerator(p, w, at, bt, ct),
                     TimesVanishing(h))
    ensures Cong(p, at[k] * bt[k], ct[k])
  {
    hide Eval, Pow, InverseTransform, Numerator, TimesVanishing;
    var n := DomainNumerator(p, w, at, bt, ct);
    var x := Pow(w, k);
    NumeratorOnDomain(p, w, e, at, bt, ct, k);
    CongRefl(p, x);
    CongEval(p, n, TimesVanishing(h), x, x);
    EvalTimesVanishing(h, x);
    RootPowerIsOne(p, w, |h|, k);
    Vanishes(p, Eval(h, x), Pow(x, |h|));
    CongTrans(p, Eval(n, x), Eval(TimesVanishing(h), x), 0);
    CongSym(p, Eval(n, x), at[k] * bt[k] - ct[k]);
    CongTrans(p, at[k] * bt[k] - ct[k], Eval(n, x), 0);
    CongRefl(p, ct[k]);
    CongAdd(p, at[k] * bt[k] - ct[k], 0, ct[k], ct[k]);
  }

  lemma Vanishes(p: int, h: int, q: int)
    requires Cong(p, q, 1)
    ensures Cong(p, h * (q - 1), 0)
  {
    CongRefl(p, 1);
    CongSub(p, q, 1, 1, 1);
    CongScale(p, h, q - 1, 0);
  }
}
