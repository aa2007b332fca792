/**
 What the argument shows and hides, over the prover and verifier of
 crates/groth16: the honest prover's proof of a false statement is accepted for
 few trapdoors only, and a proof does not tell which of several satisfying
 assignments it was made from.
 */
module Argument {
  import opened Modular
  import opened Polynomials
  import opened Dft
  import opened Fft
  import opened Quotient
  import opened Circuit
  import opened Synthesis
  import opened Prover
  import opened Verifier
  import opened Completeness

  // ------------------------------------------------ roots of a polynomial

  /** The coefficients of (a(x) - a(t)) / (x - t). */
  function Divided(a: Vec, t: int): (r: Vec)
    requires a != []
    ensures |r| == |a| - 1
  {
    if |a| == 1 then [] else [Eval(a[1..], t)] + Divided(a[1..], t)
  }

  lemma {:induction false} DividedExact(a: Vec, t: int, x: int)
    requires a != []
    ensures Eval(a, x) - Eval(a, t) == (x - t) * Eval(Divided(a, t), x)
  {
    if |a| == 1 {
      assert a[1..] == [];
      assert Divided(a, t) == [];
    } else {
      var b, q := a[1..], Divided(a[1..], t);
      DividedExact(b, t, x);
      assert Divided(a, t)[0] == Eval(b, t) && Divided(a, t)[1..] == q;
      DivisionStep(x, t, Eval(b, x), Eval(b, t), Eval(q, x));
    }
  }

  lemma DivisionStep(x: int, t: int, bx: int, bt: int, q: int)
    requires bx - bt == (x - t) * q
    ensures x * bx - t * bt == (x - t) * (bt + x * q)
  {
    assert x * (bx - bt) == x * ((x - t) * q);
    assert (x - t) * (bt + x * q) == (x - t) * bt + x * ((x - t) * q);
  }

  /** With a root at t, the coefficients vanish when those of the quotient do. */
  lemma {:induction false} VanishesWithQuotient(p: int, a: Vec, t: int)
    requires a != [] && Cong(p, Eval(a, t), 0) && CongVec(p, Divided(a, t), Zeros(|a| - 1))
    ensures CongVec(p, a, Zeros(|a|))
  {
    hide Eval, Cong;
    var b := a[1..];
    assert Eval(a, t) == a[0] + t * Eval(b, t) by { UnfoldEval(a, t); }
    if b == [] {
      UnfoldEval(b, t);
      assert a[0] + t * 0 == a[0];
    } else {
      var q := Divided(b, t);
      assert Divided(a, t)[0] == Eval(b, t) && Divided(a, t)[1..] == q;
      assert Cong(p, Divided(a, t)[0], Zeros(|a| - 1)[0]);
      forall i | 0 <= i < |q| ensures Cong(p, q[i], 0) {
        assert Cong(p, Divided(a, t)[i + 1], Zeros(|a| - 1)[i + 1]);
      }
      VanishesWithQuotient(p, b, t);
      FirstVanishes(p, a[0], t, Eval(b, t));
      forall i | 0 <= i < |a| ensures Cong(p, a[i], 0) {
        if i > 0 { assert Cong(p, b[i - 1], Zeros(|b|)[i - 1]); }
      }
    }
  }

  lemma UnfoldEval(a: Vec, x: int)
    ensures Eval(a, x) == if a == [] then 0 else a[0] + x * Eval(a[1..], x)
  {
  }

  lemma FirstVanishes(p: int, c: int, t: int, b: int)
    requires Cong(p, c + t * b, 0) && Cong(p, b, 0)
    ensures Cong(p, c, 0)
  {
    CongScale(p, t, b, 0);
    CongSub(p, c + t * b, 0, t * b, 0);
  }

  ghost predicate Roots(p: int, a: Vec, ts: set<int>) {
    forall t :: t in ts ==> 0 <= t < p && Cong(p, Eval(a, t), 0)
  }

  lemma Member<T>(ts: set<T>) returns (t: T)
    requires |ts| > 0
    ensures t in ts
  {
    t :| t in ts;
  }

  /** As many roots as coefficients leave only zero. */
  lemma {:induction false} TooManyRoots(p: int, a: Vec, ts: set<int>)
    requires Prime(p) && Roots(p, a, ts) && |ts| >= |a|
    ensures CongVec(p, a, Zeros(|a|))
    decreases |a|
  {
    if a != [] {
      var t := Member(ts);
      var q := Divided(a, t);
      var rest := ts - {t};
      forall x | x in rest ensures Cong(p, Eval(q, x), 0) {
        OtherRoot(p, a, t, x);
      }
      TooManyRoots(p, q, rest);
      VanishesWithQuotient(p, a, t);
    }
  }

  lemma OtherRoot(p: int, a: Vec, t: int, x: int)
    requires Prime(p) && a != [] && 0 <= t < p && 0 <= x < p && x != t
    requires Cong(p, Eval(a, t), 0) && Cong(p, Eval(a, x), 0)
    ensures Cong(p, Eval(Divided(a, t), x), 0)
  {
    hide Eval;
    DividedExact(a, t, x);
    CongSub(p, Eval(a, x), 0, Eval(a, t), 0);
    if Cong(p, x - t, 0) {
      CongRefl(p, t);
      CongAdd(p, x - t, 0, t, t);
      CongEqual(p, x, t);
    }
    NoZeroDivisors(p, x - t, Eval(Divided(a, t), x));
  }

  // ------------------------------------------- proofs of false statements

  /** The coefficients of A * B - C - H * (X^m - 1), H as the prover uses it. */
  ghost function DefectPoly(I: Instance, w: Vec): (r: Vec)
    requires I.Valid() && |w| == I.n
    ensures |r| == 2 * Pow2(I.e)
  {
    SideTermsKnown(I, SideA, w);
    SideTermsKnown(I, SideB, w);
    SideTermsKnown(I, SideC, w);
    SubVec(DomainNumerator(I.F.p, DomainRoot(I.F, I.e), Reduce(I.F.p, I.Rows(SideA, w)),
                           Reduce(I.F.p, I.Rows(SideB, w)), Reduce(I.F.p, I.Rows(SideC, w))),
           TimesVanishing(Quot(I, w)[..Pow2(I.e) - 1] + [0]))
  }

  lemma DefectPolyAt(I: Instance, w: Vec, tau: int)
    requires I.Valid() && |w| == I.n
    ensures Cong(I.F.p, Eval(DefectPoly(I, w), tau), Defect(I, w, tau))
  {
    hide QuotientVec, InverseTransform, Eval, Pow, Numerator, TimesVanishing, Quot, Cong;
    SideTermsKnown(I, SideA, w);
    SideTermsKnown(I, SideB, w);
    SideTermsKnown(I, SideC, w);
    var p, m, root := I.F.p, Pow2(I.e), DomainRoot(I.F, I.e);
    var at, bt, ct := Reduce(p, I.Rows(SideA, w)), Reduce(p, I.Rows(SideB, w)), Reduce(p, I.Rows(SideC, w));
    var h := Quot(I, w)[..m - 1];
    EvalSub(DomainNumerator(p, root, at, bt, ct), TimesVanishing(h + [0]), tau);
    EvalNumerator(InverseTransform(p, root, at), InverseTransform(p, root, bt), InverseTransform(p, root, ct), tau);
    EvalTimesVanishing(h + [0], tau);
    EvalZeroTop(h + [0], tau);
    assert (h + [0])[..|h|] == h;
    AtPointReduced(I, I.Rows(SideA, w), tau);
    AtPointReduced(I, I.Rows(SideB, w), tau);
    AtPointReduced(I, I.Rows(SideC, w), tau);
    SidesCong(p, I.AtPoint(at, tau), SideAt(I, SideA, w, tau), I.AtPoint(bt, tau), SideAt(I, SideB, w, tau),
              I.AtPoint(ct, tau), SideAt(I, SideC, w, tau), Eval(h, tau) * (Pow(tau, m) - 1));
  }

  lemma SidesCong(p: int, a: int, a': int, b: int, b': int, c: int, c': int, z: int)
    requires Cong(p, a, a') && Cong(p, b, b') && Cong(p, c, c')
    ensures Cong(p, a * b - c - z, a' * b' - c' - z)
  {
    CongMul(p, a, a', b, b');
    CongSub(p, a * b, a' * b', c, c');
    CongRefl(p, z);
    CongSub(p, a * b - c, a' * b' - c', z, z);
  }

  /** If the values on the domain satisfy A * B = C, so does the assignment. */
  lemma SatisfiesByRows(I: Instance, w: Vec)
    requires I.Valid() && |w| == I.n
    requires TermsBelow(Terms(I.cs, SideA), I.nin, |w|) && TermsBelow(Terms(I.cs, SideB), I.nin, |w|)
    requires TermsBelow(Terms(I.cs, SideC), I.nin, |w|)
    requires Satisfied(I.F.p, Reduce(I.F.p, I.Rows(SideA, w)), Reduce(I.F.p, I.Rows(SideB, w)),
                       Reduce(I.F.p, I.Rows(SideC, w)))
    ensures Satisfies(I, w)
  {
    hide RowSum, LcValue, Terms, Cong;
    var p := I.F.p;
    var a, b, c := I.Rows(SideA, w), I.Rows(SideB, w), I.Rows(SideC, w);
    forall x | x in I.cs ensures Holds(p, x, I.nin, w) {
      var u :| 0 <= u < |I.cs| && I.cs[u] == x;
      RecordedRow(I.cs, SideA, I.nin, w, u);
      RecordedRow(I.cs, SideB, I.nin, w, u);
      RecordedRow(I.cs, SideC, I.nin, w, u);
      assert Cong(p, Reduce(p, a)[u] * Reduce(p, b)[u], Reduce(p, c)[u]);
      UnreducedProduct(p, a[u], b[u], c[u]);
    }
  }

  lemma UnreducedProduct(p: int, a: int, b: int, c: int)
    requires p > 0 && Cong(p, (a % p) * (b % p), c % p)
    ensures Cong(p, a * b, c)
  {
    ModCong(p, a);
    ModCong(p, b);
    ModCong(p, c);
    CongMul(p, a, a % p, b, b % p);
    CongTrans(p, a * b, (a % p) * (b % p), c % p);
    CongTrans(p, a * b, c % p, c);
  }

  /** A defect that vanishes as a polynomial means that every constraint holds. */
  lemma NoDefectSatisfies(I: Instance, w: Vec)
    requires I.Valid() && |w| == I.n && CongVec(I.F.p, DefectPoly(I, w), Zeros(2 * Pow2(I.e)))
    ensures Satisfies(I, w)
  {
    hide QuotientVec, InverseTransform, Numerator, TimesVanishing, Quot, Cong, Satisfies;
    SideTermsKnown(I, SideA, w);
    SideTermsKnown(I, SideB, w);
    SideTermsKnown(I, SideC, w);
    var p, m, root := I.F.p, Pow2(I.e), DomainRoot(I.F, I.e);
    var at, bt, ct := Reduce(p, I.Rows(SideA, w)), Reduce(p, I.Rows(SideB, w)), Reduce(p, I.Rows(SideC, w));
    var h := Quot(I, w)[..m - 1] + [0];
    EqualByDifference(p, DomainNumerator(p, root, at, bt, ct), TimesVanishing(h));
    DomainOf(I.F, I.e);
    forall k | 0 <= k < m ensures Cong(p, at[k] * bt[k], ct[k]) {
      DefectVanishes(p, root, I.e, at, bt, ct, h, k);
    }
    SatisfiesByRows(I, w);
  }

  lemma EqualByDifference(p: int, a: Vec, b: Vec)
    requires |a| == |b| && CongVec(p, SubVec(a, b), Zeros(|a|))
    ensures CongVec(p, a, b)
  {
    forall i | 0 <= i < |a| ensures Cong(p, a[i], b[i]) {
      assert Cong(p, SubVec(a, b)[i], Zeros(|a|)[i]);
      CongRefl(p, b[i]);
      CongAdd(p, a[i] - b[i], 0, b[i], b[i]);
    }
  }

  /** The top coefficient of the defect is zero whatever the assignment. */
  lemma DefectTop(I: Instance, w: Vec)
    requires I.Valid() && |w| == I.n
    ensures DefectPoly(I, w)[2 * Pow2(I.e) - 1] == 0
  {
    hide QuotientVec, InverseTransform, Numerator, Quot;
    SideTermsKnown(I, SideA, w);
    SideTermsKnown(I, SideB, w);
    SideTermsKnown(I, SideC, w);
    var p, root := I.F.p, DomainRoot(I.F, I.e);
    TopOfNumerator(InverseTransform(p, root, Reduce(p, I.Rows(SideA, w))),
                   InverseTransform(p, root, Reduce(p, I.Rows(SideB, w))),
                   InverseTransform(p, root, Reduce(p, I.Rows(SideC, w))));
    TopOfTimes(Quot(I, w)[..Pow2(I.e) - 1]);
  }

  lemma TopOfTimes(h: Vec)
    ensures TimesVanishing(h + [0])[2 * |h| + 1] == 0
  {
  }

  /** For an assignment that breaks a constraint the identity holds at fewer than 2 m - 1 points of the field. */
  lemma FewPointsFoolTheIdentity(I: Instance, w: Vec, ts: set<int>)
    requires I.Valid() && |w| == I.n && !Satisfies(I, w)
    requires forall t :: t in ts ==> 0 <= t < I.F.p && IdentityAt(I, w, t)
    ensures |ts| < 2 * Pow2(I.e) - 1
  {
    hide DefectPoly, Satisfies, Eval, Defect, Cong;
    var d := DefectPoly(I, w);
    var low := d[..|d| - 1];
    DefectTop(I, w);
    forall t | t in ts ensures Cong(I.F.p, Eval(low, t), 0) {
      DefectPolyAt(I, w, t);
      EvalZeroTop(d, t);
      CongTrans(I.F.p, Eval(d, t), Defect(I, w, t), 0);
    }
    if |ts| >= |low| {
      TooManyRoots(I.F.p, low, ts);
      ZeroWithTop(I.F.p, d);
      NoDefectSatisfies(I, w);
    }
  }

  lemma ZeroWithTop(p: int, d: Vec)
    requires d != [] && d[|d| - 1] == 0 && CongVec(p, d[..|d| - 1], Zeros(|d| - 1))
    ensures CongVec(p, d, Zeros(|d|))
  {
    CongRefl(p, 0);
    forall i | 0 <= i < |d| ensures Cong(p, d[i], 0) {
      if i < |d| - 1 { assert Cong(p, d[..|d| - 1][i], Zeros(|d| - 1)[i]); }
    }
  }

  /** A setup, and what the prover made with it. */
  datatype Attempt = Attempt(t: Trapdoor, params: Parameters, qap: QAP, proof: Proof, r: int, s: int)

  /** The honest prover's proof for the assignment w under an honest setup is accepted. */
  ghost predicate AcceptedAttempt(I: Instance, w: Vec, x: Attempt)
    requires I.Valid() && |w| == I.n
  {
    && 0 <= x.t.tau < I.F.p && IsQap(x.qap, I.cs, I.nin) && FromTrapdoor(I, x.params, x.qap, x.t)
    && QapFits(x.qap, |w|, Pow2(I.e))
    && IsProof(I.F.p, x.proof, x.params, x.qap, w, I.nin, ProverQuotient(I.F, x.qap, w, I.e)[..Pow2(I.e) - 1], x.r, x.s)
    && Accepts(I.F.p, x.proof, w[1..I.nin], x.params.vk)
  }

  ghost function Taus(xs: set<Attempt>): (r: set<int>)
  {
    set x | x in xs :: x.t.tau
  }

  /**
   For an assignment that breaks a constraint the prover's own proof is accepted for
   fewer than 2 m - 1 values of tau, whatever the rest of the trapdoor, the parameters
   and the blinding.
   */
  lemma FalseStatementRarelyAccepted(I: Instance, w: Vec, xs: set<Attempt>)
    requires I.Valid() && |w| == I.n && w[0] == 1 && !Satisfies(I, w)
    requires forall x :: x in xs ==> AcceptedAttempt(I, w, x)
    ensures |Taus(xs)| < 2 * Pow2(I.e) - 1
  {
    hide Satisfies, IdentityAt, Quot, ProverQuotient, IsProof, Accepts, FromTrapdoor, Instance.Valid;
    forall tau | tau in Taus(xs) ensures 0 <= tau < I.F.p && IdentityAt(I, w, tau) {
      var x :| x in xs && x.t.tau == tau;
      assert AcceptedAttempt(I, w, x);
      ProverQuotientIsQuot(I, x.qap, w);
      AcceptedIffIdentity(I, x.params, x.qap, x.t, w, x.proof, x.r, x.s);
    }
    FewPointsFoolTheIdentity(I, w, Taus(xs));
  }

  // -------------------------------------------- what a proof does not show

  /** What to add to a blinding scalar so that the element stays the same when its sum changes from d1 to d2. */
  ghost function Shift(p: int, delta: int, d1: int, d2: int): int
    requires p > 1
  {
    (d1 - d2) * Inverse(p, delta)
  }

  lemma ShiftTimes(p: int, delta: int, d1: int, d2: int)
    requires Prime(p) && !Cong(p, delta, 0)
    ensures Cong(p, d1 - d2, delta * Shift(p, delta, d1, d2))
  {
    assert p > 1;
    hide Prime, Cong, Inverse;
    var v, d := Inverse(p, delta), d1 - d2;
    InverseCorrect(p, delta);
    CongScale(p, d, delta * v, 1);
    CongSym(p, d * (delta * v), d * 1);
    Regrouped(d, delta, v);
  }

  lemma Regrouped(d: int, delta: int, v: int)
    ensures d * (delta * v) == delta * (d * v) && d * 1 == d
  {
  }

  lemma ShiftKeeps(p: int, x: int, delta: int, d1: int, d2: int, r: int)
    requires Prime(p) && !Cong(p, delta, 0)
    ensures Cong(p, x + d1 + delta * r, x + d2 + delta * (r + Shift(p, delta, d1, d2)))
  {
    assert p > 1;
    hide Prime, Cong, Shift;
    ShiftTimes(p, delta, d1, d2);
    var b, e := x + d2 + delta * r, Shift(p, delta, d1, d2);
    CongRefl(p, b);
    CongAdd(p, b, b, d1 - d2, delta * e);
    Spread(delta, r, e);
  }

  lemma Spread(a: int, b: int, c: int)
    ensures a * (b + c) == a * b + a * c
  {
  }

  /** The first two elements and the key leave no choice for the third. */
  lemma ThirdElementFixed(p: int, pf: Proof, other: Proof, x: int, vk: VerificationKey)
    requires Prime(p) && !Cong(p, vk.deltaG2, 0) && other.a == pf.a && other.b == pf.b
    requires PairingEquation(p, pf, x, vk) && PairingEquation(p, other, x, vk)
    ensures Cong(p, pf.c, other.c)
  {
    var k, z, d := vk.alphaG1 * vk.betaG2, pf.a * pf.b - x * vk.gammaG2, vk.deltaG2;
    CongSym(p, k, z - pf.c * d);
    CongTrans(p, z - pf.c * d, k, z - other.c * d);
    CongRefl(p, z);
    CongSub(p, z, z, z - pf.c * d, z - other.c * d);
    Commuted(pf.c, d);
    Commuted(other.c, d);
    CongCancel(p, d, pf.c, other.c);
  }

  /** The blinding scalars that make, from the assignment w2, the proof that r and s make from w1. */
  ghost function BlindingR(I: Instance, params: Parameters, qap: QAP, w1: Vec, w2: Vec, r: int): int
    requires I.F.p > 1 && Below(qap.aConstraints, |w1|) && |w1| == |w2|
  {
    r + Shift(I.F.p, params.vk.deltaG1, QueryDot(params.aG1, w1, qap.aConstraints),
              QueryDot(params.aG1, w2, qap.aConstraints))
  }

  ghost function BlindingS(I: Instance, params: Parameters, qap: QAP, w1: Vec, w2: Vec, s: int): int
    requires I.F.p > 1 && Below(qap.bConstraints, |w1|) && |w1| == |w2|
  {
    s + Shift(I.F.p, params.vk.deltaG2, QueryDot(params.bG2, w1, qap.bConstraints),
              QueryDot(params.bG2, w2, qap.bConstraints))
  }

  /** pf is made from the assignment w by the honest prover with blinding r and s. */
  ghost predicate Made(I: Instance, params: Parameters, qap: QAP, w: Vec, pf: Proof, r: int, s: int)
    requires I.Valid() && |w| == I.n && |params.l| == I.n - I.nin && Pow2(I.e) <= |params.h| + 1
    requires Below(qap.aConstraints, |w|) && Below(qap.bConstraints, |w|)
  {
    IsProof(I.F.p, pf, params, qap, w, I.nin, Quot(I, w)[..Pow2(I.e) - 1], r, s)
  }

  /** Two satisfying assignments with the same public inputs. */
  ghost predicate Twins(I: Instance, w1: Vec, w2: Vec)
    requires I.Valid()
  {
    && |w1| == |w2| == I.n && w1[..I.nin] == w2[..I.nin] && w1[0] == 1
    && Satisfies(I, w1) && Satisfies(I, w2)
  }

  /** The parameters and the QAP fit an instance, and delta is invertible. */
  ghost predicate SetUpFor(I: Instance, params: Parameters, qap: QAP, t: Trapdoor)
    requires I.Valid()
  {
    IsQap(qap, I.cs, I.nin) && FromTrapdoor(I, params, qap, t)
  }

  lemma SetUpFits(I: Instance, params: Parameters, qap: QAP, t: Trapdoor)
    requires I.Valid() && SetUpFor(I, params, qap, t)
    ensures Below(qap.aConstraints, I.n) && Below(qap.bConstraints, I.n)
    ensures |params.l| == I.n - I.nin && Pow2(I.e) <= |params.h| + 1
    ensures |params.vk.ic| == I.nin
    ensures !Cong(I.F.p, params.vk.deltaG1, 0) && !Cong(I.F.p, params.vk.deltaG2, 0)
  {
    hide Instance.LinearAt, Instance.ColumnAt, Inverse, Pow, IsGrouping, IsKeyList, GroupsFit;
    QapOfSystemFits(I, qap);
    NonzeroKept(I.F.p, params.vk.deltaG1, t.delta);
    NonzeroKept(I.F.p, params.vk.deltaG2, t.delta);
  }

  lemma NonzeroKept(p: int, x: int, y: int)
    requires Cong(p, x, y) && !Cong(p, y, 0)
    ensures !Cong(p, x, 0)
  {
    CongSym(p, x, y);
    if Cong(p, x, 0) { CongTrans(p, y, x, 0); }
  }

  /**
   Every proof made from one satisfying assignment is also made from any other with the
   same public inputs, with blinding scalars that differ by a constant: over random
   r and s a proof says nothing about which of the two was used.
   */
  lemma WitnessHidden(I: Instance, params: Parameters, qap: QAP, t: Trapdoor, w1: Vec, w2: Vec, pf: Proof, r: int,
                      s: int)
    requires I.Valid() && SetUpFor(I, params, qap, t) && Twins(I, w1, w2)
    ensures Below(qap.aConstraints, I.n) && Below(qap.bConstraints, I.n)
    ensures |params.l| == I.n - I.nin && Pow2(I.e) <= |params.h| + 1
    ensures Made(I, params, qap, w1, pf, r, s) ==>
      Made(I, params, qap, w2, pf, BlindingR(I, params, qap, w1, w2, r), BlindingS(I, params, qap, w1, w2, s))
  {
    hide Quot, QueryDot, Dot, Pow2, Shift, Below, Satisfies, Instance.Valid, SetUpFor, ProofEquations;
    SetUpFits(I, params, qap, t);
    InstancePrime(I);
    if Made(I, params, qap, w1, pf, r, s) {
      var p, vk := I.F.p, params.vk;
      var g, h := Quot(I, w1)[..Pow2(I.e) - 1], Quot(I, w2)[..Pow2(I.e) - 1];
      var other := Reblinded(p, vk, pf, r, s,
        QueryDot(params.aG1, w1, qap.aConstraints), QueryDot(params.bG1, w1, qap.bConstraints),
        QueryDot(params.bG2, w1, qap.bConstraints), Dot(params.h[..|g|], g), Dot(params.l, w1[I.nin..]),
        QueryDot(params.aG1, w2, qap.aConstraints), QueryDot(params.bG1, w2, qap.bConstraints),
        QueryDot(params.bG2, w2, qap.bConstraints), Dot(params.h[..|h|], h), Dot(params.l, w2[I.nin..]));
      var r', s' := BlindingR(I, params, qap, w1, w2, r), BlindingS(I, params, qap, w1, w2, s);
      assert Made(I, params, qap, w2, other, r', s');
      MadeAccepted(I, params, qap, t, w1, pf, r, s);
      MadeAccepted(I, params, qap, t, w2, other, r', s');
      SameInputs(w1, w2, I.nin);
      ThirdElementFixed(p, pf, other, InputPoint(vk.ic, w1[1..I.nin]), vk);
      ThirdReplaced(p, pf, other, vk, r', s',
        QueryDot(params.aG1, w2, qap.aConstraints), QueryDot(params.bG1, w2, qap.bConstraints),
        QueryDot(params.bG2, w2, qap.bConstraints), Dot(params.h[..|h|], h), Dot(params.l, w2[I.nin..]));
    }
  }

  lemma InstancePrime(I: Instance)
    requires I.Valid()
    ensures Prime(I.F.p) && I.F.p > 1 && 0 < I.nin <= I.n
  {
  }

  lemma SameInputs(w1: Vec, w2: Vec, k: nat)
    requires 0 < k <= |w1| && k <= |w2| && w1[..k] == w2[..k]
    ensures w1[1..k] == w2[1..k] && w1[0] == w2[0]
  {
    assert w1[1..k] == w1[..k][1..] && w2[1..k] == w2[..k][1..];
    assert w1[0] == w1[..k][0] && w2[0] == w2[..k][0];
  }

  lemma MadeAccepted(I: Instance, params: Parameters, qap: QAP, t: Trapdoor, w: Vec, pf: Proof, r: int, s: int)
    requires I.Valid() && SetUpFor(I, params, qap, t) && |w| == I.n && w[0] == 1 && Satisfies(I, w)
    requires |params.l| == I.n - I.nin && Pow2(I.e) <= |params.h| + 1
    requires Below(qap.aConstraints, |w|) && Below(qap.bConstraints, |w|) && Made(I, params, qap, w, pf, r, s)
    ensures PairingEquation(I.F.p, pf, InputPoint(params.vk.ic, w[1..I.nin]), params.vk)
  {
    hide IsProof, Quot, Satisfies, IdentityAt, IsQap, FromTrapdoor, PairingEquation, InputPoint, Below;
    IdentityOfSatisfied(I, w, t.tau);
    AcceptedIffIdentity(I, params, qap, t, w, pf, r, s);
  }

  /** The same first two elements for other sums, with shifted blinding, and the third that goes with them. */
  lemma Reblinded(p: int, vk: VerificationKey, pf: Proof, r: int, s: int,
                  dA: int, dB1: int, dB2: int, dH: int, dL: int,
                  dA': int, dB1': int, dB2': int, dH': int, dL': int)
    returns (other: Proof)
    requires Prime(p) && p > 1 && !Cong(p, vk.deltaG1, 0) && !Cong(p, vk.deltaG2, 0)
    requires ProofEquations(p, pf, vk, r, s, dA, dB1, dB2, dH, dL)
    ensures other.a == pf.a && other.b == pf.b
    ensures ProofEquations(p, other, vk, r + Shift(p, vk.deltaG1, dA, dA'), s + Shift(p, vk.deltaG2, dB2, dB2'),
                           dA', dB1', dB2', dH', dL')
  {
    hide Shift, Prime;
    var r', s' := r + Shift(p, vk.deltaG1, dA, dA'), s + Shift(p, vk.deltaG2, dB2, dB2');
    ShiftKeeps(p, vk.alphaG1, vk.deltaG1, dA, dA', r);
    ShiftKeeps(p, vk.betaG2, vk.deltaG2, dB2, dB2', s);
    CongTrans(p, pf.a, vk.alphaG1 + dA + vk.deltaG1 * r, vk.alphaG1 + dA' + vk.deltaG1 * r');
    CongTrans(p, pf.b, vk.betaG2 + dB2 + vk.deltaG2 * s, vk.betaG2 + dB2' + vk.deltaG2 * s');
    var c := (dB1' + vk.deltaG1 * s' + vk.betaG1) * r' + dH' + dL' + pf.a * s' - vk.deltaG1 * (r' * s');
    CongRefl(p, c);
    other := Proof(pf.a, pf.b, c);
  }

  lemma ThirdReplaced(p: int, pf: Proof, other: Proof, vk: VerificationKey, r: int, s: int, dA: int, dB1: int, dB2: int,
                      dH: int, dL: int)
    requires ProofEquations(p, other, vk, r, s, dA, dB1, dB2, dH, dL)
    requires other.a == pf.a && other.b == pf.b && Cong(p, pf.c, other.c)
    ensures ProofEquations(p, pf, vk, r, s, dA, dB1, dB2, dH, dL)
  {
    CongTrans(p, pf.c, other.c,
              (dB1 + vk.deltaG1 * s + vk.betaG1) * r + dH + dL + pf.a * s - vk.deltaG1 * (r * s));
  }

  /** The blinding scalar that turns a sum into a given element. */
  lemma Unblinded(p: int, delta: int, target: int, x: int, d: int)
    requires Prime(p) && !Cong(p, delta, 0)
    ensures Cong(p, target, x + d + delta * Shift(p, delta, target, x + d))
  {
    assert p > 1;
    hide Prime, Cong, Shift;
    ShiftTimes(p, delta, target, x + d);
    CongRefl(p, x + d);
    CongAdd(p, target - (x + d), delta * Shift(p, delta, target, x + d), x + d, x + d);
  }

  /** The first two elements of the proof are given: the blinding, and the third that goes with them. */
  lemma BlindedTo(p: int, vk: VerificationKey, a: int, b: int, dA: int, dB1: int, dB2: int, dH: int, dL: int)
    returns (other: Proof, r: int, s: int)
    requires Prime(p) && p > 1 && !Cong(p, vk.deltaG1, 0) && !Cong(p, vk.deltaG2, 0)
    ensures other.a == a && other.b == b && ProofEquations(p, other, vk, r, s, dA, dB1, dB2, dH, dL)
  {
    hide Shift, Prime;
    r, s := Shift(p, vk.deltaG1, a, vk.alphaG1 + dA), Shift(p, vk.deltaG2, b, vk.betaG2 + dB2);
    Unblinded(p, vk.deltaG1, a, vk.alphaG1, dA);
    Unblinded(p, vk.deltaG2, b, vk.betaG2, dB2);
    var c := (dB1 + vk.deltaG1 * s + vk.betaG1) * r + dH + dL + a * s - vk.deltaG1 * (r * s);
    CongRefl(p, c);
    other := Proof(a, b, c);
  }

  /** Every accepted proof of a true statement is one the prover makes from each satisfying assignment. */
  lemma AcceptedIsMade(I: Instance, params: Parameters, qap: QAP, t: Trapdoor, w: Vec, pf: Proof)
    returns (r: int, s: int)
    requires I.Valid() && SetUpFor(I, params, qap, t) && |w| == I.n && w[0] == 1 && Satisfies(I, w)
    requires Accepts(I.F.p, pf, w[1..I.nin], params.vk)
    ensures Below(qap.aConstraints, I.n) && Below(qap.bConstraints, I.n)
    ensures |params.l| == I.n - I.nin && Pow2(I.e) <= |params.h| + 1
    ensures Made(I, params, qap, w, pf, r, s)
  {
    hide Quot, QueryDot, Dot, Pow2, Below, Satisfies, Instance.Valid, SetUpFor, ProofEquations;
    SetUpFits(I, params, qap, t);
    InstancePrime(I);
    var p, vk := I.F.p, params.vk;
    var h := Quot(I, w)[..Pow2(I.e) - 1];
    var other;
    other, r, s := BlindedTo(p, vk, pf.a, pf.b,
      QueryDot(params.aG1, w, qap.aConstraints), QueryDot(params.bG1, w, qap.bConstraints),
      QueryDot(params.bG2, w, qap.bConstraints), Dot(params.h[..|h|], h), Dot(params.l, w[I.nin..]));
    assert Made(I, params, qap, w, other, r, s);
    MadeAccepted(I, params, qap, t, w, other, r, s);
    ThirdElementFixed(p, pf, other, InputPoint(vk.ic, w[1..I.nin]), vk);
    ThirdReplaced(p, pf, other, vk, r, s,
      QueryDot(params.aG1, w, qap.aConstraints), QueryDot(params.bG1, w, qap.bConstraints),
      QueryDot(params.bG2, w, qap.bConstraints), Dot(params.h[..|h|], h), Dot(params.l, w[I.nin..]));
  }

  /** pf is made from the assignment w with some blinding. */
  ghost predicate MadeFrom(I: Instance, params: Parameters, qap: QAP, w: Vec, pf: Proof)
    requires I.Valid() && |w| == I.n && |params.l| == I.n - I.nin && Pow2(I.e) <= |params.h| + 1
    requires Below(qap.aConstraints, |w|) && Below(qap.bConstraints, |w|)
  {
    exists r, s :: Made(I, params, qap, w, pf, r, s)
  }

  /** The accepted proofs of a true statement are exactly the prover's. */
  lemma AcceptedIffMade(I: Instance, params: Parameters, qap: QAP, t: Trapdoor, w: Vec, pf: Proof)
    requires I.Valid() && SetUpFor(I, params, qap, t) && |w| == I.n && w[0] == 1 && Satisfies(I, w)
    ensures Below(qap.aConstraints, I.n) && Below(qap.bConstraints, I.n)
    ensures |params.l| == I.n - I.nin && Pow2(I.e) <= |params.h| + 1
    ensures Accepts(I.F.p, pf, w[1..I.nin], params.vk) <==> MadeFrom(I, params, qap, w, pf)
  {
    hide Made, Satisfies, Below, Pow2, Instance.Valid, SetUpFor, PairingEquation, InputPoint;
    SetUpFits(I, params, qap, t);
    InstancePrime(I);
    if Accepts(I.F.p, pf, w[1..I.nin], params.vk) {
      var r, s := AcceptedIsMade(I, params, qap, t, w, pf);
    }
    if r, s :| Made(I, params, qap, w, pf, r, s) { MadeAccepted(I, params, qap, t, w, pf, r, s); }
  }

  /** For satisfying assignments with the same public inputs the sets of proofs are the same. */
  lemma SameProofs(I: Instance, params: Parameters, qap: QAP, t: Trapdoor, w1: Vec, w2: Vec, pf: Proof)
    requires I.Valid() && SetUpFor(I, params, qap, t) && Twins(I, w1, w2)
    ensures Below(qap.aConstraints, I.n) && Below(qap.bConstraints, I.n)
    ensures |params.l| == I.n - I.nin && Pow2(I.e) <= |params.h| + 1
    ensures MadeFrom(I, params, qap, w1, pf) <==> MadeFrom(I, params, qap, w2, pf)
  {
    hide Made, MadeFrom, Satisfies, Below, Pow2, Instance.Valid, SetUpFor, Accepts;
    SetUpFits(I, params, qap, t);
    InstancePrime(I);
    SameInputs(w1, w2, I.nin);
    AcceptedIffMade(I, params, qap, t, w1, pf);
    AcceptedIffMade(I, params, qap, t, w2, pf);
  }

  /** Different blinding makes different proofs. */
  lemma BlindingUnique(I: Instance, params: Parameters, qap: QAP, t: Trapdoor, w: Vec, pf: Proof, r: int, s: int,
                       r': int, s': int)
    requires I.Valid() && SetUpFor(I, params, qap, t) && |w| == I.n
    requires |params.l| == I.n - I.nin && Pow2(I.e) <= |params.h| + 1
    requires Below(qap.aConstraints, |w|) && Below(qap.bConstraints, |w|)
    requires Made(I, params, qap, w, pf, r, s) && Made(I, params, qap, w, pf, r', s')
    ensures Cong(I.F.p, r, r') && Cong(I.F.p, s, s')
  {
    hide Quot, QueryDot, Dot, Pow2, Below, Instance.Valid, SetUpFor;
    SetUpFits(I, params, qap, t);
    InstancePrime(I);
    var p, vk := I.F.p, params.vk;
    SameBlinding(p, pf.a, vk.alphaG1 + QueryDot(params.aG1, w, qap.aConstraints), vk.deltaG1, r, r');
    SameBlinding(p, pf.b, vk.betaG2 + QueryDot(params.bG2, w, qap.bConstraints), vk.deltaG2, s, s');
  }

  lemma SameBlinding(p: int, x: int, d: int, delta: int, r: int, r': int)
    requires Prime(p) && !Cong(p, delta, 0) && Cong(p, x, d + delta * r) && Cong(p, x, d + delta * r')
    ensures Cong(p, r, r')
  {
    CongSym(p, x, d + delta * r);
    CongTrans(p, d + delta * r, x, d + delta * r');
    CongRefl(p, d);
    CongSub(p, d + delta * r, d + delta * r', d, d);
    CongCancel(p, delta, r, r');
  }

  // ----------------------------------------------------------- simulation

  /** A proof without any assignment, by whoever knows the scalars behind the key: any first two elements will do. */
  ghost function Simulated(p: int, vk: VerificationKey, x: int, a: int, b: int): Proof
    requires p > 1
  {
    Proof(a, b, (a * b - x * vk.gammaG2 - vk.alphaG1 * vk.betaG2) * Inverse(p, vk.deltaG2))
  }

  /** It is accepted, whatever the statement. */
  lemma SimulatedAccepted(p: int, vk: VerificationKey, inputs: Vec, a: int, b: int)
    requires Prime(p) && !Cong(p, vk.deltaG2, 0) && |inputs| + 1 == |vk.ic|
    ensures p > 1 && Accepts(p, Simulated(p, vk, InputPoint(vk.ic, inputs), a, b), inputs, vk)
  {
    assert p > 1;
    hide Prime, Cong, Inverse, InputPoint;
    var x, d, v := InputPoint(vk.ic, inputs), vk.deltaG2, Inverse(p, vk.deltaG2);
    var y, k := a * b - x * vk.gammaG2, vk.alphaG1 * vk.betaG2;
    InverseCorrect(p, d);
    CongScale(p, y - k, d * v, 1);
    Regrouped(y - k, d, v);
    Commuted(d, (y - k) * v);
    CongRefl(p, y);
    CongSub(p, y, y, (y - k) * v * d, y - k);
    CongSym(p, y - (y - k) * v * d, k);
  }

  /**
   Zero knowledge: for a true statement the honest proofs are exactly the simulated
   ones, one for every choice of the first two elements, and each is made by one
   choice of the blinding scalars only. Uniform r and s therefore make the same
   proofs, equally often, as uniform a and b.
   */
  lemma SimulatedIsMade(I: Instance, params: Parameters, qap: QAP, t: Trapdoor, w: Vec, a: int, b: int)
    requires I.Valid() && SetUpFor(I, params, qap, t) && |w| == I.n && w[0] == 1 && Satisfies(I, w)
    ensures I.F.p > 1 && |params.vk.ic| == I.nin > 0
    ensures Below(qap.aConstraints, I.n) && Below(qap.bConstraints, I.n)
    ensures |params.l| == I.n - I.nin && Pow2(I.e) <= |params.h| + 1
    ensures MadeFrom(I, params, qap, w, Simulated(I.F.p, params.vk, InputPoint(params.vk.ic, w[1..I.nin]), a, b))
  {
    hide MadeFrom, Satisfies, Below, Pow2, Instance.Valid, SetUpFor, Accepts, Simulated, InputPoint;
    SetUpFits(I, params, qap, t);
    InstancePrime(I);
    SimulatedAccepted(I.F.p, params.vk, w[1..I.nin], a, b);
    AcceptedIffMade(I, params, qap, t, w, Simulated(I.F.p, params.vk, InputPoint(params.vk.ic, w[1..I.nin]), a, b));
  }

  lemma MadeIsSimulated(I: Instance, params: Parameters, qap: QAP, t: Trapdoor, w: Vec, pf: Proof, r: int, s: int)
    requires I.Valid() && SetUpFor(I, params, qap, t) && |w| == I.n && w[0] == 1 && Satisfies(I, w)
    requires |params.l| == I.n - I.nin && Pow2(I.e) <= |params.h| + 1
    requires Below(qap.aConstraints, |w|) && Below(qap.bConstraints, |w|) && Made(I, params, qap, w, pf, r, s)
    ensures I.F.p > 1 && |params.vk.ic| == I.nin > 0
    ensures var sim := Simulated(I.F.p, params.vk, InputPoint(params.vk.ic, w[1..I.nin]), pf.a, pf.b);
      sim.a == pf.a && sim.b == pf.b && Cong(I.F.p, pf.c, sim.c)
  {
    hide Made, Satisfies, Below, Pow2, Instance.Valid, SetUpFor, PairingEquation, InputPoint, Cong, Inverse;
    SetUpFits(I, params, qap, t);
    InstancePrime(I);
    var x := InputPoint(params.vk.ic, w[1..I.nin]);
    MadeAccepted(I, params, qap, t, w, pf, r, s);
    SimulatedAccepted(I.F.p, params.vk, w[1..I.nin], pf.a, pf.b);
    ThirdElementFixed(I.F.p, pf, Simulated(I.F.p, params.vk, x, pf.a, pf.b), x, params.vk);
  }
}
