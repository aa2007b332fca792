/**
 Polynomials and vectors over the integers, as coefficient lists.

 A vector of field elements is a list of residues; `Reduce` takes a list of
 integers to it.  The laws below are exact over the integers, so that only the
 last step of a proof needs `Cong`.
 */
module Polynomials {
  import opened Modular

  type Vec = seq<int>

  /** The value at x of the polynomial with coefficients a, constant term first. */
  function Eval(a: Vec, x: int): int {
    if a == [] then 0 else a[0] + x * Eval(a[1..], x)
  }

  function Reduce(p: int, a: Vec): (r: Vec)
    requires p > 0
    ensures |r| == |a|
    ensures forall i :: 0 <= i < |a| ==> r[i] == a[i] % p
  {
    seq(|a|, i requires 0 <= i < |a| => a[i] % p)
  }

  /** Every entry is a canonical residue. */
  predicate InField(p: int, a: Vec) {
    forall i :: 0 <= i < |a| ==> 0 <= a[i] < p
  }

  ghost predicate CongVec(p: int, a: Vec, b: Vec) {
    |a| == |b| && forall i :: 0 <= i < |a| ==> Cong(p, a[i], b[i])
  }

  function Zeros(n: nat): (r: Vec)
    ensures |r| == n && forall i :: 0 <= i < n ==> r[i] == 0
  {
    seq(n, i => 0)
  }

  function AddVec(a: Vec, b: Vec): (r: Vec)
    requires |a| == |b|
    ensures |r| == |a| && forall i :: 0 <= i < |a| ==> r[i] == a[i] + b[i]
  {
    seq(|a|, i requires 0 <= i < |a| => a[i] + b[i])
  }

  function SubVec(a: Vec, b: Vec): (r: Vec)
    requires |a| == |b|
    ensures |r| == |a| && forall i :: 0 <= i < |a| ==> r[i] == a[i] - b[i]
  {
    seq(|a|, i requires 0 <= i < |a| => a[i] - b[i])
  }

  function MulVec(a: Vec, b: Vec): (r: Vec)
    requires |a| == |b|
    ensures |r| == |a| && forall i :: 0 <= i < |a| ==> r[i] == a[i] * b[i]
  {
    seq(|a|, i requires 0 <= i < |a| => a[i] * b[i])
  }

  function ScaleVec(c: int, a: Vec): (r: Vec)
    ensures |r| == |a| && forall i :: 0 <= i < |a| ==> r[i] == c * a[i]
  {
    seq(|a|, i requires 0 <= i < |a| => c * a[i])
  }

  /** Entry i multiplied by g^i: the coefficients of the polynomial at g * x. */
  function Twist(a: Vec, g: int): (r: Vec)
    ensures |r| == |a| && forall i :: 0 <= i < |a| ==> r[i] == Pow(g, i) * a[i]
  {
    seq(|a|, i requires 0 <= i < |a| => Pow(g, i) * a[i])
  }

  /** Coefficients of the product. */
  function PolyMul(a: Vec, b: Vec): (r: Vec)
    ensures |r| == |a| + |b|
  {
    if a == [] then Zeros(|b|)
    else AddVec(ScaleVec(a[0], b) + Zeros(|a|), [0] + PolyMul(a[1..], b))
  }

  // ------------------------------------------------------- laws of Eval

  lemma MulAssoc(a: int, b: int, c: int)
    ensures a * (b * c) == (a * b) * c && (a * b) * c == (b * a) * c
  {
  }

  lemma Horner(a: int, x: int, e: int, f: int)
    ensures a * f + x * (e * f) == (a + x * e) * f
  {
  }

  lemma SplitPair(a: int, b: int, x: int, e: int, o: int)
    ensures a + x * (b + x * (e + x * o)) == (a + (x * x) * e) + x * (b + (x * x) * o)
  {
  }

  lemma {:induction false} EvalZeros(n: nat, x: int)
    ensures Eval(Zeros(n), x) == 0
  {
    if n > 0 {
      assert Zeros(n)[1..] == Zeros(n - 1);
      EvalZeros(n - 1, x);
    }
  }

  lemma {:induction false} EvalAdd(a: Vec, b: Vec, x: int)
    requires |a| == |b|
    ensures Eval(AddVec(a, b), x) == Eval(a, x) + Eval(b, x)
  {
    if a != [] {
      assert AddVec(a, b)[1..] == AddVec(a[1..], b[1..]);
      EvalAdd(a[1..], b[1..], x);
      assert x * (Eval(a[1..], x) + Eval(b[1..], x)) == x * Eval(a[1..], x) + x * Eval(b[1..], x);
    }
  }

  lemma {:induction false} EvalScale(c: int, a: Vec, x: int)
    ensures Eval(ScaleVec(c, a), x) == c * Eval(a, x)
  {
    if a != [] {
      assert ScaleVec(c, a)[1..] == ScaleVec(c, a[1..]);
      EvalScale(c, a[1..], x);
      assert c * a[0] + x * (c * Eval(a[1..], x)) == c * (a[0] + x * Eval(a[1..], x));
    }
  }

  lemma EvalSub(a: Vec, b: Vec, x: int)
    requires |a| == |b|
    ensures Eval(SubVec(a, b), x) == Eval(a, x) - Eval(b, x)
  {
    assert SubVec(a, b) == AddVec(a, ScaleVec(-1, b));
    EvalAdd(a, ScaleVec(-1, b), x);
    EvalScale(-1, b, x);
  }

  lemma {:induction false} EvalConcat(a: Vec, b: Vec, x: int)
    ensures Eval(a + b, x) == Eval(a, x) + Pow(x, |a|) * Eval(b, x)
  {
    if a == [] {
      assert a + b == b;
    } else {
      assert (a + b)[1..] == a[1..] + b;
      EvalConcat(a[1..], b, x);
      var e, q, f := Eval(a[1..], x), Pow(x, |a| - 1), Eval(b, x);
      assert x * (e + q * f) == x * e + (x * q) * f;
    }
  }

  lemma {:induction false} EvalTwist(a: Vec, g: int, x: int)
    ensures Eval(Twist(a, g), x) == Eval(a, g * x)
  {
    if a != [] {
      var b := Twist(a, g);
      assert b[0] == a[0];
      assert b[1..] == ScaleVec(g, Twist(a[1..], g)) by {
        forall i | 0 <= i < |a| - 1 ensures b[i + 1] == g * Twist(a[1..], g)[i] {
          MulAssoc(g, Pow(g, i), a[i + 1]);
        }
      }
      EvalScale(g, Twist(a[1..], g), x);
      EvalTwist(a[1..], g, x);
      MulAssoc(x, g, Eval(a[1..], g * x));
    }
  }

  lemma {:induction false} EvalMul(a: Vec, b: Vec, x: int)
    ensures Eval(PolyMul(a, b), x) == Eval(a, x) * Eval(b, x)
  {
    if a == [] {
      EvalZeros(|b|, x);
    } else {
      var head, tail := ScaleVec(a[0], b) + Zeros(|a|), PolyMul(a[1..], b);
      EvalAdd(head, [0] + tail, x);
      EvalConcat(ScaleVec(a[0], b), Zeros(|a|), x);
      EvalScale(a[0], b, x);
      EvalZeros(|a|, x);
      assert ([0] + tail)[1..] == tail;
      EvalMul(a[1..], b, x);
      Horner(a[0], x, Eval(a[1..], x), Eval(b, x));
    }
  }

  /** The top coefficient is beyond the degree of the product. */
  lemma {:induction false} PolyMulTop(a: Vec, b: Vec)
    requires |a| > 0 && |b| > 0
    ensures PolyMul(a, b)[|a| + |b| - 1] == 0
  {
    var tail := PolyMul(a[1..], b);
    assert PolyMul(a, b)[|a| + |b| - 1] == tail[|a| + |b| - 2];
    if |a| > 1 { PolyMulTop(a[1..], b); }
  }

  // ------------------------------------------------ even and odd entries

  function Evens(a: Vec): (r: Vec)
    requires |a| % 2 == 0
    ensures |r| == |a| / 2 && forall i :: 0 <= i < |r| ==> r[i] == a[2 * i]
  {
    seq(|a| / 2, i requires 0 <= i < |a| / 2 => a[2 * i])
  }

  function Odds(a: Vec): (r: Vec)
    requires |a| % 2 == 0
    ensures |r| == |a| / 2 && forall i :: 0 <= i < |r| ==> r[i] == a[2 * i + 1]
  {
    seq(|a| / 2, i requires 0 <= i < |a| / 2 => a[2 * i + 1])
  }

  lemma {:induction false} EvalEvenOdd(a: Vec, x: int)
    requires |a| % 2 == 0
    ensures Eval(a, x) == Eval(Evens(a), x * x) + x * Eval(Odds(a), x * x)
  {
    if a != [] {
      var b := a[2..];
      assert Evens(a)[1..] == Evens(b);
      assert Odds(a)[1..] == Odds(b);
      assert a[1..][1..] == b;
      EvalEvenOdd(b, x);
      SplitPair(a[0], a[1], x, Eval(Evens(b), x * x), Eval(Odds(b), x * x));
    }
  }

  // -------------------------------------------------------- congruence

  lemma {:induction false} CongEval(p: int, a: Vec, b: Vec, x: int, y: int)
    requires CongVec(p, a, b) && Cong(p, x, y)
    ensures Cong(p, Eval(a, x), Eval(b, y))
  {
    if a == [] {
      CongRefl(p, 0);
    } else {
      CongEval(p, a[1..], b[1..], x, y);
      CongMul(p, x, y, Eval(a[1..], x), Eval(b[1..], y));
      CongAdd(p, a[0], b[0], x * Eval(a[1..], x), y * Eval(b[1..], y));
    }
  }

  lemma CongVecRefl(p: int, a: Vec)
    ensures CongVec(p, a, a)
  {
    forall i | 0 <= i < |a| ensures Cong(p, a[i], a[i]) { CongRefl(p, a[i]); }
  }

  lemma CongVecSym(p: int, a: Vec, b: Vec)
    requires CongVec(p, a, b)
    ensures CongVec(p, b, a)
  {
    forall i | 0 <= i < |a| ensures Cong(p, b[i], a[i]) { CongSym(p, a[i], b[i]); }
  }

  lemma CongVecTrans(p: int, a: Vec, b: Vec, c: Vec)
    requires CongVec(p, a, b) && CongVec(p, b, c)
    ensures CongVec(p, a, c)
  {
    forall i | 0 <= i < |a| ensures Cong(p, a[i], c[i]) { CongTrans(p, a[i], b[i], c[i]); }
  }

  lemma ReduceCong(p: int, a: Vec)
    requires p > 0
    ensures CongVec(p, Reduce(p, a), a) && CongVec(p, a, Reduce(p, a))
    ensures InField(p, Reduce(p, a))
  {
    forall i | 0 <= i < |a| ensures Cong(p, a[i] % p, a[i]) && Cong(p, a[i], a[i] % p) { ModCong(p, a[i]); }
  }

  /** Congruent vectors have the same residues. */
  lemma ReduceEqual(p: int, a: Vec, b: Vec)
    requires p > 0 && CongVec(p, a, b)
    ensures Reduce(p, a) == Reduce(p, b)
  {
    forall i | 0 <= i < |a| ensures a[i] % p == b[i] % p { CongMod(p, a[i], b[i]); }
  }

  lemma ReduceInField(p: int, a: Vec)
    requires p > 0 && InField(p, a)
    ensures Reduce(p, a) == a
  {
    forall i | 0 <= i < |a| ensures a[i] % p == a[i] { SmallMod(p, a[i]); }
  }
}
