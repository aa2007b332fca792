/**
 The discrete Fourier transform over a prime field, as evaluation at the powers
 of a root of unity, and its inverse.
 */
module Dft {
  import opened Modular
  import opened Polynomials

  function Square(w: int): int { w * w }

  /** The values of the polynomial a at 1, w, w^2, ... */
  function Transform(w: int, a: Vec): (r: Vec)
    ensures |r| == |a|
  {
    seq(|a|, k requires 0 <= k < |a| => Eval(a, Pow(w, k)))
  }

  /** w is a root of unity of order exactly n. */
  ghost predicate ExactOrder(p: int, w: int, n: nat) {
    Cong(p, Pow(w, n), 1) && forall d: nat :: 0 < d < n ==> !Cong(p, Pow(w, d), 1)
  }

  /** Half of the full turn of a 2^e-th root is -1. */
  ghost predicate HalfTurn(p: int, w: int, e: nat) {
    e == 0 || Cong(p, Pow(w, Pow2(e - 1)), -1)
  }

  // ------------------------------------------------------ roots of unity

  lemma OneIsNotMinusOne(p: int)
    requires p > 2
    ensures !Cong(p, 1, -1) && !Cong(p, -1, 1) && !Cong(p, 1, 0) && !Cong(p, -1, 0)
  {
    if Cong(p, 1, -1) { CongRefl(p, 1); CongAdd(p, 1, -1, 1, 1); CongEqual(p, 2, 0) by { assert 1 + 1 == 2; } }
    if Cong(p, -1, 1) { CongSym(p, -1, 1); CongRefl(p, 1); CongAdd(p, 1, -1, 1, 1); CongEqual(p, 2, 0); }
    if Cong(p, 1, 0) { CongEqual(p, 1, 0); }
    if Cong(p, -1, 0) { CongScale(p, -1, -1, 0); CongEqual(p, 1, 0); }
  }

  /** The square of a 2^e-th root is a 2^(e-1)-th root. */
  lemma HalfTurnSquare(p: int, w: int, e: nat)
    requires e > 0 && HalfTurn(p, w, e)
    ensures HalfTurn(p, Square(w), e - 1)
  {
    if e > 1 {
      PowOfProduct(w, w, Pow2(e - 2));
      PowAdd(w, Pow2(e - 2), Pow2(e - 2));
    }
  }

  lemma PowMinusOne(d: nat)
    ensures Pow(-1, d) == if d % 2 == 0 then 1 else -1
  {
  }

  lemma {:induction false} HalfTurnIsOrder(p: int, w: int, e: nat, d: nat)
    requires p > 2 && e > 0 && HalfTurn(p, w, e) && 0 < d < Pow2(e)
    ensures !Cong(p, Pow(w, d), 1)
    decreases e
  {
    OneIsNotMinusOne(p);
    if Cong(p, Pow(w, d), 1) {
      if d % 2 == 0 {
        PowOfProduct(w, w, d / 2);
        PowAdd(w, d / 2, d / 2);
        HalfTurnSquare(p, w, e);
        HalfTurnIsOrder(p, Square(w), e - 1, d / 2);
      } else {
        var h := Pow2(e - 1);
        CongPow(p, Pow(w, d), 1, h);
        PowOne(h);
        PowOfPow(w, d, h);
        CongPow(p, Pow(w, h), -1, d);
        PowMinusOne(d);
        PowOfPow(w, h, d);
        assert d * h == h * d;
        CongSym(p, Pow(w, h * d), 1);
        CongTrans(p, 1, Pow(w, h * d), -1);
      }
    }
  }

  /** A square root of one other than one is minus one. */
  lemma RootOfOne(p: int, x: int)
    requires Prime(p) && Cong(p, x * x, 1) && !Cong(p, x, 1)
    ensures Cong(p, x, -1)
  {
    CongRefl(p, 1);
    CongSub(p, x * x, 1, 1, 1);
    assert (x - 1) * (x + 1) == x * x - 1;
    if Cong(p, x - 1, 0) { CongAdd(p, x - 1, 0, 1, 1); }
    NoZeroDivisors(p, x - 1, x + 1);
    CongSub(p, x + 1, 0, 1, 1);
  }

  lemma HalfTurnTwice(p: int, w: int, e: nat)
    requires e > 0
    ensures Pow(w, Pow2(e)) == Pow(w, Pow2(e - 1)) * Pow(w, Pow2(e - 1)) && Pow2(e - 1) < Pow2(e)
    ensures HalfTurn(p, w, e) ==> Cong(p, Pow(w, Pow2(e)), 1)
  {
    var x := Pow(w, Pow2(e - 1));
    PowAdd(w, Pow2(e - 1), Pow2(e - 1));
    if HalfTurn(p, w, e) { CongMul(p, x, -1, x, -1); }
  }

  /** Order exactly 2^e and a half turn of -1 are the same thing. */
  lemma ExactOrderIffHalfTurn(p: int, w: int, e: nat)
    requires Prime(p) && p > 2 && e > 0
    ensures ExactOrder(p, w, Pow2(e)) <==> HalfTurn(p, w, e)
  {
    HalfTurnTwice(p, w, e);
    hide Pow, Pow2, Prime, Cong;
    if HalfTurn(p, w, e) {
      forall d: nat | 0 < d < Pow2(e) ensures !Cong(p, Pow(w, d), 1) { HalfTurnIsOrder(p, w, e, d); }
    }
    if ExactOrder(p, w, Pow2(e)) {
      RootOfOne(p, Pow(w, Pow2(e - 1)));
    }
  }

  // -------------------------------------------------- the radix-2 split

  /** Entry k of one layer of butterflies over l and r. */
  function Butterfly(l: Vec, r: Vec, w: int, k: nat): int
    requires |l| == |r| && k < 2 * |l|
  {
    if k < |l| then l[k] + Pow(w, k) * r[k] else l[k - |l|] - Pow(w, k - |l|) * r[k - |l|]
  }

  /** Two half-size transforms glued by one layer of butterflies. */
  function Combine(l: Vec, r: Vec, w: int): (b: Vec)
    requires |l| == |r|
    ensures |b| == 2 * |l|
    ensures forall k :: 0 <= k < 2 * |l| ==> b[k] == Butterfly(l, r, w, k)
  {
    seq(2 * |l|, k requires 0 <= k < 2 * |l| => Butterfly(l, r, w, k))
  }

  lemma SplitLow(w: int, a: Vec, k: nat)
    requires |a| % 2 == 0
    ensures Eval(a, Pow(w, k)) == Eval(Evens(a), Pow(Square(w), k)) + Pow(w, k) * Eval(Odds(a), Pow(Square(w), k))
  {
    PowOfProduct(w, w, k);
    EvalEvenOdd(a, Pow(w, k));
  }

  lemma SplitHigh(p: int, w: int, a: Vec, k: nat, h: nat)
    requires |a| % 2 == 0 && Cong(p, Pow(w, h), -1)
    ensures Cong(p, Eval(a, Pow(w, k + h)),
                 Eval(Evens(a), Pow(Square(w), k)) - Pow(w, k) * Eval(Odds(a), Pow(Square(w), k)))
  {
    var x := Pow(w, k);
    PowAdd(w, k, h);
    CongScale(p, x, Pow(w, h), -1);
    CongVecRefl(p, a);
    CongEval(p, a, a, Pow(w, k + h), -x);
    EvalEvenOdd(a, -x);
    Negated(x, Eval(Odds(a), x * x));
    PowOfProduct(w, w, k);
  }

  lemma Negated(x: int, y: int)
    ensures (-x) * (-x) == x * x && (-x) * y == -(x * y)
  {
  }

  lemma SplitAt(p: int, w: int, a: Vec, k: nat)
    requires |a| % 2 == 0 && Cong(p, Pow(w, |a| / 2), -1) && k < |a|
    ensures Cong(p, Transform(w, a)[k], Butterfly(Transform(Square(w), Evens(a)), Transform(Square(w), Odds(a)), w, k))
  {
    hide Eval, Pow, Square;
    var h := |a| / 2;
    var l, r := Transform(Square(w), Evens(a)), Transform(Square(w), Odds(a));
    assert Transform(w, a)[k] == Eval(a, Pow(w, k));
    if k < h {
      assert l[k] == Eval(Evens(a), Pow(Square(w), k)) && r[k] == Eval(Odds(a), Pow(Square(w), k));
      SplitLow(w, a, k);
      CongRefl(p, Transform(w, a)[k]);
    } else {
      var j := k - h;
      assert l[j] == Eval(Evens(a), Pow(Square(w), j)) && r[j] == Eval(Odds(a), Pow(Square(w), j));
      SplitHigh(p, w, a, k - h, h);
    }
  }

  /** A transform is a layer of butterflies over the transforms of the even and odd entries. */
  lemma TransformSplit(p: int, w: int, a: Vec)
    requires |a| % 2 == 0 && Cong(p, Pow(w, |a| / 2), -1)
    ensures CongVec(p, Transform(w, a), Combine(Transform(Square(w), Evens(a)), Transform(Square(w), Odds(a)), w))
  {
    hide Eval, Pow, Square, Butterfly;
    forall k | 0 <= k < |a|
      ensures Cong(p, Transform(w, a)[k],
                   Butterfly(Transform(Square(w), Evens(a)), Transform(Square(w), Odds(a)), w, k))
    {
      SplitAt(p, w, a, k);
    }
  }

  // ------------------------------------------------------- the inverse

  /** An inverse of a 2^e-th root is a 2^e-th root. */
  lemma HalfTurnInverse(p: int, w: int, v: int, e: nat)
    requires HalfTurn(p, w, e) && Cong(p, w * v, 1)
    ensures HalfTurn(p, v, e)
  {
    if e > 0 {
      var h := Pow2(e - 1);
      CongPow(p, w * v, 1, h);
      PowOne(h);
      PowOfProduct(w, v, h);
      var x, y := Pow(w, h), Pow(v, h);
      CongRefl(p, y);
      CongMul(p, x, -1, y, y);
      CongSym(p, x * y, -y);
      CongTrans(p, -y, x * y, 1);
      CongScale(p, -1, -y, 1);
    }
  }

  /** Folding the two halves of b: b at y when y^h is the sign s. */
  lemma EvalFold(p: int, lo: Vec, hi: Vec, y: int, s: int)
    requires |lo| == |hi| && Cong(p, Pow(y, |lo|), s)
    ensures Cong(p, Eval(lo + hi, y), Eval(AddVec(lo, ScaleVec(s, hi)), y))
  {
    EvalConcat(lo, hi, y);
    EvalAdd(lo, ScaleVec(s, hi), y);
    EvalScale(s, hi, y);
    CongRefl(p, Eval(hi, y));
    CongMul(p, Pow(y, |lo|), s, Eval(hi, y), Eval(hi, y));
    CongRefl(p, Eval(lo, y));
    CongAdd(p, Eval(lo, y), Eval(lo, y), Pow(y, |lo|) * Eval(hi, y), s * Eval(hi, y));
  }

  lemma SignOfPower(p: int, v: int, h: nat, l: nat)
    requires Cong(p, Pow(v, h), -1)
    ensures Cong(p, Pow(Pow(v, l), h), if l % 2 == 0 then 1 else -1)
  {
    PowOfPow(v, l, h);
    PowOfPow(v, h, l);
    assert l * h == h * l;
    CongPow(p, Pow(v, h), -1, l);
    PowMinusOne(l);
  }

  lemma ButterflySum(l: Vec, r: Vec, w: int, k: nat)
    requires |l| == |r| && k < |l|
    ensures Butterfly(l, r, w, k) + 1 * Butterfly(l, r, w, k + |l|) == 2 * l[k]
    ensures Butterfly(l, r, w, k) + -1 * Butterfly(l, r, w, k + |l|) == 2 * Twist(r, w)[k]
  {
    var x := Pow(w, k) * r[k];
    assert Butterfly(l, r, w, k) == l[k] + x && Butterfly(l, r, w, k + |l|) == l[k] - x;
  }

  /** Sum and difference of the halves of a butterfly layer. */
  lemma CombineSum(l: Vec, r: Vec, w: int)
    requires |l| == |r|
    ensures AddVec(Combine(l, r, w)[..|l|], ScaleVec(1, Combine(l, r, w)[|l|..])) == ScaleVec(2, l)
    ensures AddVec(Combine(l, r, w)[..|l|], ScaleVec(-1, Combine(l, r, w)[|l|..])) == ScaleVec(2, Twist(r, w))
  {
    hide Butterfly, Twist, Pow;
    var b := Combine(l, r, w);
    var n := |l|;
    forall k | 0 <= k < n
      ensures b[..n][k] + 1 * b[n..][k] == 2 * l[k] && b[..n][k] + -1 * b[n..][k] == 2 * Twist(r, w)[k]
    {
      ButterflySum(l, r, w, k);
      assert b[n..][k] == b[k + n] && b[..n][k] == b[k];
    }
  }

  /** Even entries of the double transform see only the left half transform. */
  lemma FoldEven(p: int, v: int, l: Vec, r: Vec, w: int, i: nat)
    requires |l| == |r| && Cong(p, Pow(v, |l|), -1)
    ensures Cong(p, Eval(Combine(l, r, w), Pow(v, 2 * i)), 2 * Eval(l, Pow(Square(v), i)))
  {
    var b := Combine(l, r, w);
    var lo, hi := b[..|l|], b[|l|..];
    var y := Pow(v, 2 * i);
    SignOfPower(p, v, |l|, 2 * i);
    EvalFold(p, lo, hi, y, 1);
    assert lo + hi == b;
    CombineSum(l, r, w);
    EvalScale(2, l, y);
    PowOfProduct(v, v, i);
    PowAdd(v, i, i);
  }

  lemma UndoTwist(p: int, v: int, w: int, i: nat)
    requires Cong(p, w * v, 1)
    ensures Cong(p, w * Pow(v, 2 * i + 1), Pow(Square(v), i))
  {
    var z := Pow(Square(v), i);
    PowOfProduct(v, v, i);
    PowAdd(v, i, i);
    assert Pow(v, 2 * i + 1) == v * z;
    CongRefl(p, z);
    CongMul(p, w * v, 1, z, z);
    MulAssoc(w, v, z);
  }

  /** Odd entries see only the right one, its twist undone. */
  lemma FoldOdd(p: int, v: int, l: Vec, r: Vec, w: int, i: nat)
    requires |l| == |r| && Cong(p, Pow(v, |l|), -1) && Cong(p, w * v, 1)
    ensures Cong(p, Eval(Combine(l, r, w), Pow(v, 2 * i + 1)), 2 * Eval(r, Pow(Square(v), i)))
  {
    var b := Combine(l, r, w);
    var lo, hi := b[..|l|], b[|l|..];
    var y, z := Pow(v, 2 * i + 1), Pow(Square(v), i);
    SignOfPower(p, v, |l|, 2 * i + 1);
    EvalFold(p, lo, hi, y, -1);
    assert lo + hi == b;
    CombineSum(l, r, w);
    EvalScale(2, Twist(r, w), y);
    EvalTwist(r, w, y);
    UndoTwist(p, v, w, i);
    CongVecRefl(p, r);
    CongEval(p, r, r, w * y, z);
    CongScale(p, 2, Eval(r, w * y), Eval(r, z));
    CongTrans(p, Eval(b, y), 2 * Eval(r, w * y), 2 * Eval(r, z));
  }

  /**
   Transforming with w and then with its inverse v multiplies every entry by
   the length.
   */
  lemma {:induction false} TransformTwice(p: int, w: int, v: int, a: Vec, e: nat)
    requires |a| == Pow2(e) && HalfTurn(p, w, e) && Cong(p, w * v, 1)
    ensures CongVec(p, Transform(v, Transform(w, a)), ScaleVec(|a|, a))
    decreases e
  {
    hide Eval, Pow, Butterfly, Square;
    if e == 0 {
      TransformOne(w, a);
      TransformOne(v, a);
      CongRefl(p, a[0]);
    } else {
      var h := Pow2(e - 1);
      assert |a| == 2 * h;
      HalfTurnInverse(p, w, v, e);
      HalfTurnSquare(p, w, e);
      SquareInverse(p, w, v);
      TransformTwice(p, Square(w), Square(v), Evens(a), e - 1);
      TransformTwice(p, Square(w), Square(v), Odds(a), e - 1);
      forall k | 0 <= k < |a| ensures Cong(p, Transform(v, Transform(w, a))[k], ScaleVec(|a|, a)[k]) {
        TwiceAt(p, w, v, a, h, k);
      }
    }
  }

  lemma TransformOne(w: int, a: Vec)
    requires |a| == 1
    ensures Transform(w, a) == a
  {
    assert Transform(w, a)[0] == Eval(a, 1) == a[0] + 1 * Eval([], 1) by { assert a[1..] == []; }
  }

  lemma SquareInverse(p: int, w: int, v: int)
    requires Cong(p, w * v, 1)
    ensures Cong(p, Square(w) * Square(v), 1)
  {
    CongMul(p, w * v, 1, w * v, 1);
    MulInterchange(w, v, w, v);
  }

  lemma TwiceEven(p: int, w: int, v: int, a: Vec, h: nat, l: Vec, r: Vec, i: nat)
    requires |a| == 2 * h && i < h && |l| == |r| == h && Cong(p, Pow(v, h), -1) && Cong(p, w * v, 1)
    requires CongVec(p, Transform(Square(v), l), ScaleVec(h, Evens(a)))
    ensures Cong(p, Eval(Combine(l, r, w), Pow(v, 2 * i)), ScaleVec(|a|, a)[2 * i])
  {
    hide Eval, Pow, Combine, Square;
    FoldEven(p, v, l, r, w, i);
    Doubled(p, Eval(Combine(l, r, w), Pow(v, 2 * i)), Transform(Square(v), l)[i], h, a[2 * i]);
  }

  lemma TwiceOdd(p: int, w: int, v: int, a: Vec, h: nat, l: Vec, r: Vec, i: nat)
    requires |a| == 2 * h && i < h && |l| == |r| == h && Cong(p, Pow(v, h), -1) && Cong(p, w * v, 1)
    requires CongVec(p, Transform(Square(v), r), ScaleVec(h, Odds(a)))
    ensures Cong(p, Eval(Combine(l, r, w), Pow(v, 2 * i + 1)), ScaleVec(|a|, a)[2 * i + 1])
  {
    hide Eval, Pow, Combine, Square;
    FoldOdd(p, v, l, r, w, i);
    Doubled(p, Eval(Combine(l, r, w), Pow(v, 2 * i + 1)), Transform(Square(v), r)[i], h, a[2 * i + 1]);
  }

  /** One entry of the double transform, from those of half the length. */
  lemma TwiceAt(p: int, w: int, v: int, a: Vec, h: nat, k: nat)
    requires |a| == 2 * h && k < |a| && Cong(p, Pow(w, h), -1) && Cong(p, Pow(v, h), -1) && Cong(p, w * v, 1)
    requires CongVec(p, Transform(Square(v), Transform(Square(w), Evens(a))), ScaleVec(h, Evens(a)))
    requires CongVec(p, Transform(Square(v), Transform(Square(w), Odds(a))), ScaleVec(h, Odds(a)))
    ensures Cong(p, Transform(v, Transform(w, a))[k], ScaleVec(|a|, a)[k])
  {
    hide Eval, Pow, Butterfly, Square;
    var l, r := Transform(Square(w), Evens(a)), Transform(Square(w), Odds(a));
    var c := Eval(Combine(l, r, w), Pow(v, k));
    if k % 2 == 0 { TwiceEven(p, w, v, a, h, l, r, k / 2); } else { TwiceOdd(p, w, v, a, h, l, r, k / 2); }
    TransformSplit(p, w, a);
    CongRefl(p, Pow(v, k));
    CongEval(p, Transform(w, a), Combine(l, r, w), Pow(v, k), Pow(v, k));
    CongTrans(p, Eval(Transform(w, a), Pow(v, k)), c, ScaleVec(|a|, a)[k]);
  }

  lemma Doubled(p: int, c: int, there: int, h: int, x: int)
    requires Cong(p, c, 2 * there) && Cong(p, there, h * x)
    ensures Cong(p, c, (2 * h) * x)
  {
    CongScale(p, 2, there, h * x);
    MulAssoc(2, h, x);
    CongTrans(p, c, 2 * there, (2 * h) * x);
  }

  /** A transform of congruent vectors by congruent roots. */
  lemma CongTransform(p: int, w: int, x: int, a: Vec, b: Vec)
    requires CongVec(p, a, b) && Cong(p, w, x)
    ensures CongVec(p, Transform(w, a), Transform(x, b))
  {
    forall k | 0 <= k < |a| ensures Cong(p, Transform(w, a)[k], Transform(x, b)[k]) {
      CongPow(p, w, x, k);
      CongEval(p, a, b, Pow(w, k), Pow(x, k));
    }
  }

  lemma {:induction false} Pow2Nonzero(p: int, e: nat)
    requires Prime(p) && p > 2
    ensures !Cong(p, Pow2(e), 0)
  {
    if e == 0 {
      OneIsNotMinusOne(p);
    } else {
      Pow2Nonzero(p, e - 1);
      if Cong(p, Pow2(e), 0) {
        if Cong(p, 2, 0) { CongEqual(p, 2, 0); }
        NoZeroDivisors(p, 2, Pow2(e - 1));
      }
    }
  }

  /** A vector is determined by its transform. */
  lemma TransformInjective(p: int, w: int, v: int, a: Vec, b: Vec, e: nat)
    requires Prime(p) && p > 2 && |a| == |b| == Pow2(e) && HalfTurn(p, w, e) && Cong(p, w * v, 1)
    requires CongVec(p, Transform(w, a), Transform(w, b))
    ensures CongVec(p, a, b)
  {
    var n := Pow2(e);
    var ta, tb := Transform(w, a), Transform(w, b);
    CongRefl(p, v);
    CongTransform(p, v, v, ta, tb);
    TransformTwice(p, w, v, a, e);
    TransformTwice(p, w, v, b, e);
    CongVecSym(p, Transform(v, ta), ScaleVec(n, a));
    CongVecTrans(p, ScaleVec(n, a), Transform(v, ta), Transform(v, tb));
    CongVecTrans(p, ScaleVec(n, a), Transform(v, tb), ScaleVec(n, b));
    Pow2Nonzero(p, e);
    forall i | 0 <= i < n ensures Cong(p, a[i], b[i]) {
      assert Cong(p, ScaleVec(n, a)[i], ScaleVec(n, b)[i]);
      CongCancel(p, n, a[i], b[i]);
    }
  }
}
