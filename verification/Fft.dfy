/**
 The number-theoretic transform of crates/groth16/src/poly.rs: an in-place
 radix-2 network over an array of residues, its inverse, and both on a coset.
 */
module Fft {
  import opened Modular
  import opened Polynomials
  import opened Dft

  /**
   The constants of a prime field: the modulus, the exponent of two in the
   order of the root of unity, that root, and the multiplicative generator.
   */
  datatype PrimeField = PrimeField(p: int, s: nat, root: int, gen: int) {
    ghost predicate Valid() {
      && Prime(p) && p > 2 && s > 0
      && 0 < root < p && 0 < gen < p
      && ExactOrder(p, root, Pow2(s))
      && forall e: nat :: e <= s ==> !Cong(p, Pow(gen, Pow2(e)), 1)
    }

    /** `invert().unwrap()`: the inverse of anything but zero, for which the code panics. */
    function Invert(a: int): (r: int)
      requires p > 1
      ensures 0 <= r < p
    {
      Inverse(p, a)
    }
  }

  /** The smallest field with a domain of four points: 8 is a fourth root of unity modulo 13, and 2 generates. */
  lemma SmallField()
    ensures PrimeField(13, 2, 8, 2).Valid()
  {
    assert Pow2(0) == 1 && Pow2(1) == 2 && Pow2(2) == 4;
    Powers(8);
    Powers(2);
    CongMod(13, 8, 1);
    CongMod(13, 64, 1);
    CongMod(13, 512, 1);
    CongMod(13, 4096, 1);
    CongMod(13, 2, 1);
    CongMod(13, 4, 1);
    CongMod(13, 16, 1);
    forall d: nat | 0 < d < 4 ensures !Cong(13, Pow(8, d), 1) {
      assert d == 1 || d == 2 || d == 3;
    }
    forall e: nat | e <= 2 ensures !Cong(13, Pow(2, Pow2(e)), 1) {
      assert e == 0 || e == 1 || e == 2;
    }
  }

  lemma Powers(b: int)
    ensures Pow(b, 1) == b && Pow(b, 2) == b * b && Pow(b, 3) == b * (b * b) && Pow(b, 4) == b * (b * (b * b))
  {
    assert Pow(b, 1) == b * Pow(b, 0);
    assert Pow(b, 2) == b * Pow(b, 1);
    assert Pow(b, 3) == b * Pow(b, 2);
  }

  // ------------------------------------------------------- bit reversal

  /** The l low bits of n in reverse order. */
  function BitRev(n: nat, l: nat): (r: nat)
    ensures r < Pow2(l)
  {
    if l == 0 then 0 else (if n % 2 == 1 then Pow2(l - 1) else 0) + BitRev(n / 2, l - 1)
  }

  method BitReverse(n0: nat, l: nat) returns (r: nat)
    ensures r == BitRev(n0, l)
  {
    r := 0;
    var n := n0;
    for i := 0 to l
      invariant r * Pow2(l - i) + BitRev(n, l - i) == BitRev(n0, l)
    {
      ShiftIn(r, n % 2, Pow2(l - i - 1));
      r := 2 * r + n % 2;
      n := n / 2;
    }
  }

  lemma ShiftIn(r: nat, b: nat, h: nat)
    ensures r * (2 * h) + b * h == (2 * r + b) * h
  {
  }

  lemma {:induction false} BitRevTop(n: nat, l: nat)
    requires l > 0 && n < Pow2(l)
    ensures BitRev(n, l) ==
      if n < Pow2(l - 1) then 2 * BitRev(n, l - 1) else 2 * BitRev(n - Pow2(l - 1), l - 1) + 1
  {
    hide BitRev, Pow2;
    var q := Pow2(l - 1);
    BitRevStep(n, l);
    if l > 1 {
      var h := Pow2(l - 2);
      Halves(n, h);
      BitRevTop(n / 2, l - 1);
      BitRevStep(if n < q then n else n - q, l - 1);
    } else {
      BitRevStep(n / 2, 0);
      BitRevStep(if n < q then n else n - q, 0);
      assert Pow2(0) == 1 by { Pow2Zero(); }
    }
  }

  lemma Pow2Zero()
    ensures Pow2(0) == 1
  {
  }

  lemma BitRevStep(n: nat, l: nat)
    ensures l > 0 ==> BitRev(n, l) == (if n % 2 == 1 then Pow2(l - 1) else 0) + BitRev(n / 2, l - 1)
    ensures l == 0 ==> BitRev(n, l) == 0
    ensures l > 0 ==> Pow2(l) == 2 * Pow2(l - 1)
    ensures l > 1 ==> Pow2(l - 1) == 2 * Pow2(l - 2)
  {
  }

  /** Taking 2 h off a number takes h off its half. */
  lemma Halves(n: nat, h: nat)
    ensures n / 2 < h <==> n < 2 * h
    ensures n >= 2 * h ==> (n - 2 * h) / 2 == n / 2 - h && (n - 2 * h) % 2 == n % 2
  {
  }

  lemma {:induction false} BitRevInvolution(n: nat, l: nat)
    requires n < Pow2(l)
    ensures BitRev(BitRev(n, l), l) == n
  {
    if l > 0 {
      BitRevInvolution(n / 2, l - 1);
      BitRevTop(BitRev(n, l), l);
    }
  }

  /** The permutation that bit reversal of the indices performs. */
  function RevPerm(a: Vec, e: nat): (r: Vec)
    requires |a| == Pow2(e)
    ensures |r| == |a|
    decreases e
  {
    if e == 0 then a else RevPerm(Evens(a), e - 1) + RevPerm(Odds(a), e - 1)
  }

  lemma RevPermHalves(a: Vec, e: nat)
    requires |a| == Pow2(e) && e > 0
    ensures Pow2(e) == 2 * Pow2(e - 1) && |Evens(a)| == |Odds(a)| == Pow2(e - 1)
    ensures RevPerm(a, e) == RevPerm(Evens(a), e - 1) + RevPerm(Odds(a), e - 1)
  {
  }

  lemma {:induction false} RevPermAt(a: Vec, e: nat, k: nat)
    requires |a| == Pow2(e) && k < |a|
    ensures RevPerm(a, e)[k] == a[BitRev(k, e)]
    decreases e
  {
    if e == 0 {
      BitRevStep(k, 0);
    } else {
      BitRevTop(k, e);
      RevPermHalves(a, e);
      hide BitRev, RevPerm, Pow2;
      var h := Pow2(e - 1);
      if k < h { RevPermAt(Evens(a), e - 1, k); } else { RevPermAt(Odds(a), e - 1, k - h); }
    }
  }

  method BitReversePermute(a: array<int>, exp: nat)
    requires a.Length == Pow2(exp)
    modifies a
    ensures a[..] == RevPerm(old(a[..]), exp)
  {
    var n := a.Length;
    ghost var x := a[..];
    for k := 0 to n
      invariant forall i :: 0 <= i < n ==>
        a[i] == if i < k || BitRev(i, exp) < k then x[BitRev(i, exp)] else x[i]
    {
      var rk := BitReverse(k, exp);
      BitRevInvolution(k, exp);
      forall i: nat | i < n ensures BitRev(BitRev(i, exp), exp) == i { BitRevInvolution(i, exp); }
      if k < rk {
        a[rk], a[k] := a[k], a[rk];
      }
    }
    forall k | 0 <= k < n ensures a[k] == RevPerm(x, exp)[k] { RevPermAt(x, exp, k); }
  }

  // ------------------------------------------------- the butterfly network

  /** One stage: every block of 2m entries becomes a layer of butterflies over its halves. */
  function Stage(p: int, x: Vec, m: nat, w: int): (r: Vec)
    requires p > 0 && m > 0
    ensures |r| == |x|
  {
    if |x| < 2 * m then x
    else Reduce(p, Combine(x[..m], x[m..2 * m], w)) + Stage(p, x[2 * m..], m, w)
  }

  /** The first t stages; e is the logarithm of the length the root w belongs to. */
  function Stages(p: int, x: Vec, w: int, e: nat, t: nat): (r: Vec)
    requires p > 0 && t <= e
    ensures |r| == |x|
  {
    if t == 0 then x
    else Stage(p, Stages(p, x, w, e, t - 1), Pow2(t - 1), Pow(w, Pow2(e - t)) % p)
  }

  /** n entries are c blocks of 2m. */
  ghost predicate Blocks(n: nat, m: nat, c: nat) {
    n == c * (2 * m)
  }

  lemma EmptyBlocks(n: nat, m: nat)
    ensures Blocks(n, m, 0) <==> n == 0
  {
  }

  lemma DropBlock(n: nat, m: nat, c: nat)
    requires Blocks(n, m, c) && c > 0
    ensures n >= 2 * m && Blocks(n - 2 * m, m, c - 1)
  {
    assert n == (c - 1) * (2 * m) + 2 * m;
    assert (c - 1) * (2 * m) >= 0;
  }

  lemma {:induction false} StageAppend(p: int, x: Vec, y: Vec, m: nat, w: int, c: nat)
    requires p > 0 && m > 0 && Blocks(|x|, m, c)
    ensures Stage(p, x + y, m, w) == Stage(p, x, m, w) + Stage(p, y, m, w)
  {
    hide Combine, Blocks;
    if c == 0 {
      EmptyBlocks(|x|, m);
      assert x + y == y;
    } else {
      DropBlock(|x|, m, c);
      assert (x + y)[..m] == x[..m] && (x + y)[m..2 * m] == x[m..2 * m];
      assert (x + y)[2 * m..] == x[2 * m..] + y;
      StageAppend(p, x[2 * m..], y, m, w, c - 1);
    }
  }

  lemma StageOne(p: int, l: Vec, r: Vec, w: int)
    requires p > 0 && |l| == |r| > 0
    ensures Stage(p, l + r, |l|, w) == Reduce(p, Combine(l, r, w))
  {
    hide Combine;
    var m := |l|;
    assert (l + r)[..m] == l && (l + r)[m..2 * m] == r && (l + r)[2 * m..] == [];
  }

  lemma {:induction false} StagesAppend(p: int, x: Vec, y: Vec, w: int, e: nat, t: nat, u: nat)
    requires p > 0 && t <= e && t <= u && |x| == Pow2(u)
    ensures Stages(p, x + y, w, e, t) == Stages(p, x, w, e, t) + Stages(p, y, w, e, t)
  {
    hide Stage, Pow;
    if t > 0 {
      StagesAppend(p, x, y, w, e, t - 1, u);
      Pow2Add(u - t, t);
      StageAppend(p, Stages(p, x, w, e, t - 1), Stages(p, y, w, e, t - 1), Pow2(t - 1), Pow(w, Pow2(e - t)) % p,
                  Pow2(u - t));
    }
  }

  lemma CongCombine(p: int, l: Vec, r: Vec, w: int, l': Vec, r': Vec, w': int)
    requires |l| == |r| && CongVec(p, l, l') && CongVec(p, r, r') && Cong(p, w, w')
    ensures CongVec(p, Combine(l, r, w), Combine(l', r', w'))
  {
    hide Pow;
    forall k | 0 <= k < 2 * |l| ensures Cong(p, Butterfly(l, r, w, k), Butterfly(l', r', w', k)) {
      var j := if k < |l| then k else k - |l|;
      CongPow(p, w, w', j);
      CongMul(p, Pow(w, j), Pow(w', j), r[j], r'[j]);
      CongAdd(p, l[j], l'[j], Pow(w, j) * r[j], Pow(w', j) * r'[j]);
      CongSub(p, l[j], l'[j], Pow(w, j) * r[j], Pow(w', j) * r'[j]);
    }
  }

  /** The root of stage t squares to the root of stage t - 1. */
  lemma StageRoot(w: int, e: nat, t: nat)
    requires 0 < t <= e
    ensures Square(Pow(w, Pow2(e - t))) == Pow(w, Pow2(e - (t - 1)))
  {
    PowAdd(w, Pow2(e - t), Pow2(e - t));
  }

  /** After bit reversal, t stages transform a vector of length 2^t. */
  lemma {:induction false} NetworkIsTransform(p: int, a: Vec, w: int, e: nat, t: nat)
    requires p > 0 && t <= e && |a| == Pow2(t) && InField(p, a)
    requires HalfTurn(p, Pow(w, Pow2(e - t)), t)
    ensures Stages(p, RevPerm(a, t), w, e, t) == Reduce(p, Transform(Pow(w, Pow2(e - t)), a))
    decreases t
  {
    hide Stage, Pow, Combine, Square, Transform;
    var u := Pow(w, Pow2(e - t));
    if t == 0 {
      TransformOne(u, a);
      ReduceInField(p, a);
    } else {
      var q := Pow(w, Pow2(e - (t - 1)));
      StageRoot(w, e, t);
      HalfTurnSquare(p, u, t);
      NetworkIsTransform(p, Evens(a), w, e, t - 1);
      NetworkIsTransform(p, Odds(a), w, e, t - 1);
      var l, r := Transform(q, Evens(a)), Transform(q, Odds(a));
      StagesAppend(p, RevPerm(Evens(a), t - 1), RevPerm(Odds(a), t - 1), w, e, t - 1, t - 1);
      StageOne(p, Reduce(p, l), Reduce(p, r), u % p);
      ReduceCong(p, l);
      ReduceCong(p, r);
      ModCong(p, u);
      CongCombine(p, Reduce(p, l), Reduce(p, r), u % p, l, r, u);
      TransformSplit(p, u, a);
      CongVecSym(p, Transform(u, a), Combine(l, r, u));
      CongVecTrans(p, Combine(Reduce(p, l), Reduce(p, r), u % p), Combine(l, r, u), Transform(u, a));
      ReduceEqual(p, Combine(Reduce(p, l), Reduce(p, r), u % p), Transform(u, a));
    }
  }

  lemma {:induction false} RevPermInField(p: int, a: Vec, e: nat)
    requires |a| == Pow2(e) && InField(p, a)
    ensures InField(p, RevPerm(a, e))
  {
    forall k | 0 <= k < |a| ensures 0 <= RevPerm(a, e)[k] < p { RevPermAt(a, e, k); }
  }

  lemma {:induction false} StageInField(p: int, x: Vec, m: nat, w: int)
    requires p > 0 && m > 0 && InField(p, x)
    ensures InField(p, Stage(p, x, m, w))
  {
    hide Combine;
    if |x| >= 2 * m { StageInField(p, x[2 * m..], m, w); }
  }

  /** The network stays in the field whatever the root. */
  lemma {:induction false} StagesInField(p: int, x: Vec, w: int, e: nat, t: nat)
    requires p > 0 && t <= e && InField(p, x)
    ensures InField(p, Stages(p, x, w, e, t))
  {
    hide Stage, Pow;
    if t > 0 {
      StagesInField(p, x, w, e, t - 1);
      StageInField(p, Stages(p, x, w, e, t - 1), Pow2(t - 1), Pow(w, Pow2(e - t)) % p);
    }
  }

  // ------------------------------------------------------- the transforms

  lemma ButterflyResidues(p: int, l: int, r: int, q: int)
    requires p > 0
    ensures (l + (r * (q % p)) % p) % p == (l + q * r) % p
    ensures (l - (r * (q % p)) % p) % p == (l - q * r) % p
  {
    var t := (r * (q % p)) % p;
    ModCong(p, q);
    CongScale(p, r, q % p, q);
    ModCong(p, r * (q % p));
    CongTrans(p, t, r * (q % p), q * r);
    CongRefl(p, l);
    CongAdd(p, l, l, t, q * r);
    CongSub(p, l, l, t, q * r);
    CongMod(p, l + t, l + q * r);
    CongMod(p, l - t, l - q * r);
  }

  /** One layer of butterflies, in the field. */
  ghost function Layer(p: int, l: Vec, r: Vec, w: int): (b: Vec)
    requires p > 0 && |l| == |r|
    ensures |b| == 2 * |l|
  {
    Reduce(p, Combine(l, r, w))
  }

  lemma LayerIs(p: int, l: Vec, r: Vec, w: int)
    requires p > 0 && |l| == |r|
    ensures Layer(p, l, r, w) == Reduce(p, Combine(l, r, w))
  {
  }

  // Field operations on residues.

  function AddMod(p: int, x: int, y: int): int requires p > 0 { (x + y) % p }

  function SubMod(p: int, x: int, y: int): int requires p > 0 { (x - y) % p }

  function MulMod(p: int, x: int, y: int): int requires p > 0 { (x * y) % p }

  lemma LayerEntries(p: int, l: Vec, r: Vec, wm: int, j: nat, w: int, t: int)
    requires p > 0 && |l| == |r| && j < |l| && w == FieldPow(p, wm, j) && t == MulMod(p, r[j], w)
    ensures Layer(p, l, r, wm)[j] == AddMod(p, l[j], t)
    ensures Layer(p, l, r, wm)[|l| + j] == SubMod(p, l[j], t)
  {
    hide Pow;
    ButterflyResidues(p, l[j], r[j], Pow(wm, j));
    assert Combine(l, r, wm)[j] == Butterfly(l, r, wm, j);
    assert Combine(l, r, wm)[|l| + j] == Butterfly(l, r, wm, |l| + j);
  }

  lemma NextPower(p: int, w: int, j: nat)
    requires p > 0
    ensures MulMod(p, FieldPow(p, w, j), w) == FieldPow(p, w, j + 1)
  {
    ModTimes(p, Pow(w, j), w);
  }

  lemma FirstPower(p: int, w: int)
    requires p > 1
    ensures FieldPow(p, w, 0) == 1
  {
    SmallMod(p, 1);
  }

  lemma ModTimes(p: int, x: int, w: int)
    requires p > 0
    ensures ((x % p) * w) % p == (w * x) % p
  {
    ModCong(p, x);
    CongScale(p, w, x % p, x);
    CongMod(p, w * (x % p), w * x);
    assert (x % p) * w == w * (x % p);
  }

  /** The body of the inner loop: entries i and i + m. */
  method ButterflyAt(p: int, a: array<int>, i: nat, m: nat, w: int)
    requires p > 1 && m > 0 && i + m < a.Length
    modifies a
    ensures var t := MulMod(p, old(a[i + m]), w);
      a[..] == old(a[..])[i + m := SubMod(p, old(a[i]), t)][i := AddMod(p, old(a[i]), t)]
  {
    hide MulMod, SubMod, AddMod;
    var t := MulMod(p, a[i + m], w);
    var tmp := SubMod(p, a[i], t);
    a[i + m] := tmp;
    a[i] := AddMod(p, a[i], t);
  }

  /** One round of the inner loop on the block from k on: entries j of both halves, and the next power. */
  method NextButterfly(p: int, a: array<int>, ghost x: Vec, k: nat, m: nat, wm: int, j: nat, w: int) returns (w': int)
    requires p > 1 && j < m && k + 2 * m <= |x| && w == FieldPow(p, wm, j)
    requires BlockState(x, Layer(p, x[k..k + m], x[k + m..k + 2 * m], wm), a[..], k, m, j)
    modifies a
    ensures w' == FieldPow(p, wm, j + 1)
    ensures BlockState(x, Layer(p, x[k..k + m], x[k + m..k + 2 * m], wm), a[..], k, m, j + 1)
  {
    hide Layer, Pow, MulMod, AddMod, SubMod, BlockState, FieldPow;
    ghost var l, r := x[k..k + m], x[k + m..k + 2 * m];
    BlockStep(x, Layer(p, l, r, wm), a[..], k, m, j);
    LayerEntries(p, l, r, wm, j, w, MulMod(p, r[j], w));
    ButterflyAt(p, a, k + j, m, w);
    NextPower(p, wm, j);
    w' := MulMod(p, w, wm);
  }

  /** x with one layer of butterflies applied to the 2m entries from k on. */
  ghost function WithBlock(p: int, x: Vec, k: nat, m: nat, w: int): Vec
    requires p > 0 && k + 2 * m <= |x|
  {
    x[..k] + Layer(p, x[k..k + m], x[k + m..k + 2 * m], w) + x[k + 2 * m..]
  }

  /** The inner loop: one block of 2m entries from k on. */
  method ButterflyBlock(p: int, a: array<int>, k: nat, m: nat, wm: int)
    requires p > 1 && m > 0 && k + 2 * m <= a.Length
    modifies a
    ensures a[..] == WithBlock(p, old(a[..]), k, m, wm)
  {
    ghost var x := a[..];
    ghost var l, r := x[k..k + m], x[k + m..k + 2 * m];
    ghost var b := Layer(p, l, r, wm);
    var w := 1;
    FirstPower(p, wm);
    BlockStart(x, b, k, m);
    hide *;
    for j := 0 to m
      invariant w == FieldPow(p, wm, j)
      invariant BlockState(x, b, a[..], k, m, j)
    {
      w := NextButterfly(p, a, x, k, m, wm, j, w);
    }
    BlockEnd(p, x, a[..], k, m, wm);
  }

  /** After j butterflies: the first j entries of both halves of the block are final, the others untouched. */
  ghost predicate BlockState(x: Vec, b: Vec, now: Vec, k: nat, m: nat, j: nat) {
    && j <= m && |b| == 2 * m && k + 2 * m <= |x| == |now|
    && forall i :: 0 <= i < |x| ==>
      now[i] == if k <= i < k + j || k + m <= i < k + m + j then b[i - k] else x[i]
  }

  lemma BlockStart(x: Vec, b: Vec, k: nat, m: nat)
    requires |b| == 2 * m && k + 2 * m <= |x|
    ensures BlockState(x, b, x, k, m, 0)
  {
  }

  lemma BlockStep(x: Vec, b: Vec, now: Vec, k: nat, m: nat, j: nat)
    requires BlockState(x, b, now, k, m, j) && j < m
    ensures |now| == |x| && k + 2 * m <= |x| && |b| == 2 * m
    ensures now[k + j] == x[k..k + m][j] && now[k + j + m] == x[k + m..k + 2 * m][j]
    ensures BlockState(x, b, now[k + j + m := b[m + j]][k + j := b[j]], k, m, j + 1)
  {
  }

  lemma BlockEnd(p: int, x: Vec, now: Vec, k: nat, m: nat, w: int)
    requires p > 0 && k + 2 * m <= |x|
    requires BlockState(x, Layer(p, x[k..k + m], x[k + m..k + 2 * m], w), now, k, m, m)
    ensures now == WithBlock(p, x, k, m, w)
  {
    hide Layer;
    var b := Layer(p, x[k..k + m], x[k + m..k + 2 * m], w);
    assert now == x[..k] + b + x[k + 2 * m..];
  }

  /** One pass of the middle loop: all blocks of 2m entries. */
  method ButterflyStage(p: int, a: array<int>, m: nat, wm: int, ghost blocks: nat)
    requires p > 1 && m > 0 && Blocks(a.Length, m, blocks)
    modifies a
    ensures a[..] == Stage(p, old(a[..]), m, wm)
  {
    hide *;
    var n := a.Length;
    ghost var x := a[..];
    var k := 0;
    ghost var c := 0;
    StageStart(p, x, m, wm);
    while k < n
      invariant k <= n && Blocks(k, m, c)
      invariant StageState(p, x, a[..], k, m, wm)
      decreases n - k
    {
      BlockFits(k, n, m, c, blocks);
      ghost var y := a[..];
      ButterflyBlock(p, a, k, m, wm);
      BlockDone(p, x, y, k, m, wm, c);
      k := k + 2 * m;
      c := c + 1;
    }
    StageEnd(p, x, a[..], m, wm);
  }

  /** The first k entries have been through the pass. */
  ghost predicate StageState(p: int, x: Vec, now: Vec, k: nat, m: nat, w: int)
    requires p > 0 && m > 0
  {
    k <= |x| == |now| && now[..k] == Stage(p, x[..k], m, w) && now[k..] == x[k..]
  }

  lemma StageStart(p: int, x: Vec, m: nat, w: int)
    requires p > 0 && m > 0
    ensures StageState(p, x, x, 0, m, w) && Blocks(0, m, 0)
  {
    EmptyBlocks(0, m);
  }

  lemma StageEnd(p: int, x: Vec, now: Vec, m: nat, w: int)
    requires p > 0 && m > 0 && StageState(p, x, now, |x|, m, w)
    ensures now == Stage(p, x, m, w)
  {
    hide Stage;
    assert x[..|x|] == x && now[..|x|] == now;
  }

  /** Where two vectors agree from k on, so do the parts of the next block and what follows it. */
  lemma SameParts(x: Vec, y: Vec, k: nat, m: nat)
    requires k + 2 * m <= |x| == |y| && x[k..] == y[k..]
    ensures y[k..k + m] == x[k..k + m] && y[k + m..k + 2 * m] == x[k + m..k + 2 * m]
    ensures y[k + 2 * m..] == x[k + 2 * m..]
  {
    assert y[k..][..m] == y[k..k + m] && y[k..][m..2 * m] == y[k + m..k + 2 * m] && y[k..][2 * m..] == y[k + 2 * m..];
    assert x[k..][..m] == x[k..k + m] && x[k..][m..2 * m] == x[k + m..k + 2 * m] && x[k..][2 * m..] == x[k + 2 * m..];
  }

  /** One more block of the pass is in place. */
  lemma BlockDone(p: int, x: Vec, y: Vec, k: nat, m: nat, w: int, c: nat)
    requires p > 1 && m > 0 && k + 2 * m <= |x| == |y| && Blocks(k, m, c) && StageState(p, x, y, k, m, w)
    ensures StageState(p, x, WithBlock(p, y, k, m, w), k + 2 * m, m, w)
  {
    hide Layer, Stage, Combine, Reduce;
    var l, r := x[k..k + m], x[k + m..k + 2 * m];
    SameParts(x, y, k, m);
    StageAppend(p, x[..k], l + r, m, w, c);
    StageOne(p, l, r, w);
    LayerIs(p, l, r, w);
    assert x[..k + 2 * m] == x[..k] + (l + r);
  }

  lemma BlockFits(k: nat, n: nat, m: nat, c: nat, blocks: nat)
    requires Blocks(k, m, c) && Blocks(n, m, blocks) && k < n
    ensures k + 2 * m <= n && Blocks(k + 2 * m, m, c + 1)
  {
    var d := blocks - c;
    assert n - k == d * (2 * m);
    assert d <= 0 ==> d * (2 * m) <= 0;
    assert d * (2 * m) == (d - 1) * (2 * m) + 2 * m;
    assert (d - 1) * (2 * m) >= 0;
  }

  /** The exponent of the root for blocks of 2m among n entries. */
  function Stride(n: nat, m: nat): nat
    requires m > 0
  {
    FloorDiv(n, 2 * m)
  }

  function FloorDiv(n: nat, d: nat): nat
    requires d > 0
  {
    n / d
  }

  /** `pow_vartime`. */
  function FieldPow(p: int, b: int, e: nat): int
    requires p > 0
  {
    Pow(b, e) % p
  }

  /** What the loops leave for any root: the network after bit reversal. */
  function FftOf(p: int, w: int, e: nat, a: Vec): (r: Vec)
    requires p > 0 && |a| == Pow2(e)
    ensures |r| == |a|
  {
    Stages(p, RevPerm(a, e), w, e, e)
  }

  lemma FftOfInField(p: int, w: int, e: nat, a: Vec)
    requires p > 0 && |a| == Pow2(e) && InField(p, a)
    ensures InField(p, FftOf(p, w, e, a))
  {
    RevPermInField(p, a, e);
    StagesInField(p, RevPerm(a, e), w, e, e);
  }

  /**
   The in-place transform.  For a root whose half turn is -1 it leaves
   a[k] = sum over j of a0[j] * omega^(j * k), in the field.
   */
  method Fft(F: PrimeField, a: array<int>, omega: int, exp: nat)
    requires F.Valid() && InField(F.p, a[..])
    requires a.Length == Pow2(exp) && exp < 32
    modifies a
    ensures a[..] == FftOf(F.p, omega, exp, old(a[..])) && InField(F.p, a[..])
    ensures HalfTurn(F.p, omega, exp) ==> a[..] == Reduce(F.p, Transform(omega, old(a[..])))
  {
    var n := a.Length;
    ghost var x := RevPerm(a[..], exp);
    FftOfInField(F.p, omega, exp, a[..]);
    BitReversePermute(a, exp);
    var m := 1;
    NoStages(F.p, x, omega, exp);
    hide Stages, Stage, FieldPow, Stride, Pow2, Blocks, RevPerm, PrimeField.Valid, InField, HalfTurn, Transform;
    for t := 0 to exp
      invariant m == Pow2(t)
      invariant a[..] == Stages(F.p, x, omega, exp, t)
    {
      NextStage(F.p, x, omega, exp, t);
      var wm := FieldPow(F.p, omega, Stride(n, m));
      ButterflyStage(F.p, a, m, wm, Pow2(exp - t - 1));
      m := m * 2;
    }
    if HalfTurn(F.p, omega, exp) { FftOfTransform(F.p, omega, exp, old(a[..])); }
  }

  lemma NoStages(p: int, x: Vec, w: int, e: nat)
    requires p > 0
    ensures Stages(p, x, w, e, 0) == x && Pow2(0) == 1
  {
  }

  /** Stage t of a transform of 2^e points works on blocks of 2^(t + 1) entries. */
  lemma NextStage(p: int, x: Vec, w: int, e: nat, t: nat)
    requires p > 0 && t < e
    ensures Pow2(t + 1) == 2 * Pow2(t) && Blocks(Pow2(e), Pow2(t), Pow2(e - t - 1))
    ensures Stages(p, x, w, e, t + 1)
      == Stage(p, Stages(p, x, w, e, t), Pow2(t), FieldPow(p, w, Stride(Pow2(e), Pow2(t))))
  {
    hide Stage, Pow, Stride;
    Pow2Add(e - t - 1, t + 1);
    StrideOf(Pow2(e), Pow2(t), Pow2(e - t - 1));
  }

  lemma StrideOf(n: nat, m: nat, c: nat)
    requires m > 0 && n == c * (2 * m)
    ensures Stride(n, m) == c
  {
    DivModUnique(2 * m, n, c, 0);
  }

  lemma FftOfTransform(p: int, w: int, e: nat, a: Vec)
    requires p > 1 && InField(p, a) && |a| == Pow2(e) && HalfTurn(p, w, e)
    ensures FftOf(p, w, e, a) == Reduce(p, Transform(w, a))
  {
    hide Stages, RevPerm, Transform, Pow2, HalfTurn;
    assert Pow(w, Pow2(e - e)) == w by { NoStages(p, a, w, e); assert Pow(w, 1) == w * Pow(w, 0); }
    NetworkIsTransform(p, a, w, e, e);
  }

  // -------------------------------------------------- inverse and coset

  /** What the inverse transform computes: 1/n times the transform at 1/w. */
  function InverseTransform(p: int, w: int, a: Vec): (r: Vec)
    requires p > 1
    ensures |r| == |a|
  {
    ScaleVec(Inverse(p, |a|), Transform(Inverse(p, w), a))
  }

  lemma RootInverse(p: int, w: int)
    requires Prime(p) && 0 < w < p
    ensures Cong(p, w * Inverse(p, w), 1) && Cong(p, Inverse(p, w) * w, 1)
  {
    if Cong(p, w, 0) { CongEqual(p, w, 0); }
    InverseCorrect(p, w);
    assert w * Inverse(p, w) == Inverse(p, w) * w;
  }

  lemma Unscale(p: int, n: int, v: int, t: Vec, a: Vec)
    requires Cong(p, n * v, 1) && CongVec(p, t, ScaleVec(n, a))
    ensures CongVec(p, ScaleVec(v, t), a)
  {
    forall i | 0 <= i < |a| ensures Cong(p, v * t[i], a[i]) {
      assert Cong(p, t[i], ScaleVec(n, a)[i]);
      CongScale(p, v, t[i], n * a[i]);
      CongRefl(p, a[i]);
      CongMul(p, n * v, 1, a[i], a[i]);
      MulAssoc(v, n, a[i]);
      CongTrans(p, v * t[i], (n * v) * a[i], a[i]);
    }
  }

  /** The inverse transform undoes the transform ... */
  lemma InverseOfTransform(p: int, w: int, a: Vec, e: nat)
    requires Prime(p) && p > 2 && 0 < w < p && HalfTurn(p, w, e) && |a| == Pow2(e)
    ensures CongVec(p, InverseTransform(p, w, Transform(w, a)), a)
  {
    RootInverse(p, w);
    TransformTwice(p, w, Inverse(p, w), a, e);
    Pow2Nonzero(p, e);
    InverseCorrect(p, |a|);
    Unscale(p, |a|, Inverse(p, |a|), Transform(Inverse(p, w), Transform(w, a)), a);
  }

  /** ... and is undone by it. */
  lemma TransformOfInverse(p: int, w: int, a: Vec, e: nat)
    requires Prime(p) && p > 2 && 0 < w < p && HalfTurn(p, w, e) && |a| == Pow2(e)
    ensures CongVec(p, Transform(w, InverseTransform(p, w, a)), a)
  {
    var v, n := Inverse(p, w), Inverse(p, |a|);
    RootInverse(p, w);
    HalfTurnInverse(p, w, v, e);
    TransformTwice(p, v, w, a, e);
    Pow2Nonzero(p, e);
    InverseCorrect(p, |a|);
    var t := Transform(v, a);
    Unscale(p, |a|, n, Transform(w, t), a);
    TransformScale(w, n, t);
  }

  lemma TransformScale(w: int, c: int, a: Vec)
    ensures Transform(w, ScaleVec(c, a)) == ScaleVec(c, Transform(w, a))
  {
    forall k | 0 <= k < |a| ensures Transform(w, ScaleVec(c, a))[k] == c * Transform(w, a)[k] {
      EvalScale(c, a, Pow(w, k));
    }
  }

  /** `ifft` undoes `fft` on field vectors, exactly. */
  lemma IfftUndoesFft(F: PrimeField, w: int, a: Vec, e: nat)
    requires F.Valid() && 0 < w < F.p && HalfTurn(F.p, w, e) && |a| == Pow2(e) && InField(F.p, a)
    ensures Reduce(F.p, InverseTransform(F.p, w, Reduce(F.p, Transform(w, a)))) == a
    ensures Reduce(F.p, Transform(w, Reduce(F.p, InverseTransform(F.p, w, a)))) == a
  {
    var p, t, u := F.p, Transform(w, a), InverseTransform(F.p, w, a);
    InverseOfTransform(p, w, a, e);
    ReduceCong(p, t);
    CongInverseTransform(p, w, Reduce(p, t), t);
    CongVecTrans(p, InverseTransform(p, w, Reduce(p, t)), InverseTransform(p, w, t), a);
    ReduceEqual(p, InverseTransform(p, w, Reduce(p, t)), a);
    TransformOfInverse(p, w, a, e);
    ReduceCong(p, u);
    CongRefl(p, w);
    CongTransform(p, w, w, Reduce(p, u), u);
    CongVecTrans(p, Transform(w, Reduce(p, u)), Transform(w, u), a);
    ReduceEqual(p, Transform(w, Reduce(p, u)), a);
    ReduceInField(p, a);
  }

  lemma CongInverseTransform(p: int, w: int, a: Vec, b: Vec)
    requires p > 1 && CongVec(p, a, b)
    ensures CongVec(p, InverseTransform(p, w, a), InverseTransform(p, w, b))
  {
    var v, n := Inverse(p, w), Inverse(p, |a|);
    CongRefl(p, v);
    CongTransform(p, v, v, a, b);
    CongScaleVec(p, n, Transform(v, a), Transform(v, b));
  }

  lemma CongScaleVec(p: int, c: int, a: Vec, b: Vec)
    requires CongVec(p, a, b)
    ensures CongVec(p, ScaleVec(c, a), ScaleVec(c, b))
  {
    forall i | 0 <= i < |a| ensures Cong(p, c * a[i], c * b[i]) { CongScale(p, c, a[i], b[i]); }
  }

  lemma CongTwist(p: int, a: Vec, b: Vec, g: int)
    requires CongVec(p, a, b)
    ensures CongVec(p, Twist(a, g), Twist(b, g))
  {
    forall i | 0 <= i < |a| ensures Cong(p, Pow(g, i) * a[i], Pow(g, i) * b[i]) {
      CongScale(p, Pow(g, i), a[i], b[i]);
    }
  }

  /** Twisting by g and then by its inverse changes nothing. */
  lemma Untwist(p: int, a: Vec, g: int, h: int)
    requires Cong(p, g * h, 1)
    ensures CongVec(p, Twist(Twist(a, g), h), a)
  {
    forall i | 0 <= i < |a| ensures Cong(p, Twist(Twist(a, g), h)[i], a[i]) {
      var x, y := Pow(g, i), Pow(h, i);
      CongPow(p, g * h, 1, i);
      PowOne(i);
      PowOfProduct(g, h, i);
      CongRefl(p, a[i]);
      CongMul(p, x * y, 1, a[i], a[i]);
      MulAssoc(y, x, a[i]);
    }
  }

  /** The values on the coset g, g * w, g * w^2, ... */
  function CosetTransform(w: int, g: int, a: Vec): (r: Vec)
    ensures |r| == |a|
  {
    Transform(w, Twist(a, g))
  }

  /** The coefficients back from the values on the coset. */
  function InverseCosetTransform(p: int, w: int, g: int, a: Vec): (r: Vec)
    requires p > 1
    ensures |r| == |a|
  {
    Twist(InverseTransform(p, w, a), Inverse(p, g))
  }

  /** Entry k of a coset transform is the polynomial at g * w^k. */
  lemma CosetTransformAt(w: int, g: int, a: Vec, k: nat)
    requires k < |a|
    ensures CosetTransform(w, g, a)[k] == Eval(a, g * Pow(w, k))
  {
    EvalTwist(a, g, Pow(w, k));
  }

  lemma CongCosetTransform(p: int, w: int, g: int, a: Vec, b: Vec)
    requires CongVec(p, a, b)
    ensures CongVec(p, CosetTransform(w, g, a), CosetTransform(w, g, b))
  {
    CongTwist(p, a, b, g);
    CongRefl(p, w);
    CongTransform(p, w, w, Twist(a, g), Twist(b, g));
  }

  lemma CongInverseCosetTransform(p: int, w: int, g: int, a: Vec, b: Vec)
    requires p > 1 && CongVec(p, a, b)
    ensures CongVec(p, InverseCosetTransform(p, w, g, a), InverseCosetTransform(p, w, g, b))
  {
    CongInverseTransform(p, w, a, b);
    CongTwist(p, InverseTransform(p, w, a), InverseTransform(p, w, b), Inverse(p, g));
  }

  lemma InverseOfCosetTransform(p: int, w: int, g: int, a: Vec, e: nat)
    requires Prime(p) && p > 2 && 0 < w < p && 0 < g < p && HalfTurn(p, w, e) && |a| == Pow2(e)
    ensures CongVec(p, InverseCosetTransform(p, w, g, CosetTransform(w, g, a)), a)
  {
    var h := Inverse(p, g);
    RootInverse(p, g);
    InverseOfTransform(p, w, Twist(a, g), e);
    CongTwist(p, InverseTransform(p, w, Transform(w, Twist(a, g))), Twist(a, g), h);
    Untwist(p, a, g, h);
    CongVecTrans(p, InverseCosetTransform(p, w, g, CosetTransform(w, g, a)), Twist(Twist(a, g), h), a);
  }

  lemma CosetTransformOfInverse(p: int, w: int, g: int, a: Vec, e: nat)
    requires Prime(p) && p > 2 && 0 < w < p && 0 < g < p && HalfTurn(p, w, e) && |a| == Pow2(e)
    ensures CongVec(p, CosetTransform(w, g, InverseCosetTransform(p, w, g, a)), a)
  {
    var h, b := Inverse(p, g), InverseTransform(p, w, a);
    RootInverse(p, g);
    Untwist(p, b, h, g);
    CongRefl(p, w);
    CongTransform(p, w, w, Twist(Twist(b, h), g), b);
    TransformOfInverse(p, w, a, e);
    CongVecTrans(p, Transform(w, Twist(Twist(b, h), g)), Transform(w, b), a);
  }

  /** `icoset_fft` undoes `coset_fft` on field vectors, exactly, and the other way round. */
  lemma IcosetFftUndoesCosetFft(F: PrimeField, w: int, a: Vec, e: nat)
    requires F.Valid() && 0 < w < F.p && HalfTurn(F.p, w, e) && |a| == Pow2(e) && InField(F.p, a)
    ensures Reduce(F.p, InverseCosetTransform(F.p, w, F.gen, Reduce(F.p, CosetTransform(w, F.gen, a)))) == a
    ensures Reduce(F.p, CosetTransform(w, F.gen, Reduce(F.p, InverseCosetTransform(F.p, w, F.gen, a)))) == a
  {
    var p, g := F.p, F.gen;
    var t, u := CosetTransform(w, g, a), InverseCosetTransform(p, w, g, a);
    InverseOfCosetTransform(p, w, g, a, e);
    ReduceCong(p, t);
    CongInverseCosetTransform(p, w, g, Reduce(p, t), t);
    CongVecTrans(p, InverseCosetTransform(p, w, g, Reduce(p, t)), InverseCosetTransform(p, w, g, t), a);
    ReduceEqual(p, InverseCosetTransform(p, w, g, Reduce(p, t)), a);
    CosetTransformOfInverse(p, w, g, a, e);
    ReduceCong(p, u);
    CongCosetTransform(p, w, g, Reduce(p, u), u);
    CongVecTrans(p, CosetTransform(w, g, Reduce(p, u)), CosetTransform(w, g, u), a);
    ReduceEqual(p, CosetTransform(w, g, Reduce(p, u)), a);
    ReduceInField(p, a);
  }

  /** The scaling loop of `coset_fft` and `icoset_fft`. */
  method TwistInPlace(p: int, a: array<int>, g: int)
    requires p > 1
    modifies a
    ensures a[..] == Reduce(p, Twist(old(a[..]), g))
  {
    ghost var x := a[..];
    var u := 1;
    SmallMod(p, 1);
    assert Pow(g, 0) == 1;
    for i := 0 to a.Length
      invariant u == Pow(g, i) % p
      invariant forall j :: 0 <= j < a.Length ==> a[j] == if j < i then Reduce(p, Twist(x, g))[j] else x[j]
    {
      hide Pow;
      TwistEntry(p, x[i], u, Pow(g, i));
      assert Reduce(p, Twist(x, g))[i] == Twist(x, g)[i] % p;
      a[i] := (a[i] * u) % p;
      NextPower(p, g, i);
      u := (u * g) % p;
    }
  }

  lemma TwistEntry(p: int, x: int, u: int, q: int)
    requires p > 0 && u == q % p
    ensures (x * u) % p == (q * x) % p
  {
    ModCong(p, q);
    CongScale(p, x, u, q);
    CongMod(p, x * u, x * q);
    assert x * q == q * x;
  }

  // What the other loops leave for any root, and what that is when its half turn is -1.

  function IfftOf(p: int, w: int, e: nat, a: Vec): (r: Vec)
    requires p > 1 && |a| == Pow2(e)
    ensures |r| == |a|
  {
    Reduce(p, ScaleVec(Inverse(p, |a|), FftOf(p, Inverse(p, w), e, a)))
  }

  function CosetFftOf(p: int, w: int, g: int, e: nat, a: Vec): (r: Vec)
    requires p > 1 && |a| == Pow2(e)
    ensures |r| == |a|
  {
    FftOf(p, w, e, Reduce(p, Twist(a, g)))
  }

  function IcosetFftOf(p: int, w: int, g: int, e: nat, a: Vec): (r: Vec)
    requires p > 1 && |a| == Pow2(e)
    ensures |r| == |a|
  {
    Reduce(p, Twist(IfftOf(p, w, e, a), Inverse(p, g)))
  }

  lemma IfftOfInverse(p: int, w: int, e: nat, a: Vec)
    requires Prime(p) && 0 < w < p && |a| == Pow2(e) && InField(p, a) && HalfTurn(p, w, e)
    ensures IfftOf(p, w, e, a) == Reduce(p, InverseTransform(p, w, a))
  {
    hide FftOf, Transform, Pow, Inverse, Pow2;
    var v, n := Inverse(p, w), Inverse(p, |a|);
    RootInverse(p, w);
    HalfTurnInverse(p, w, v, e);
    FftOfTransform(p, v, e, a);
    var t := Transform(v, a);
    ReduceCong(p, t);
    CongScaleVec(p, n, Reduce(p, t), t);
    ReduceEqual(p, ScaleVec(n, Reduce(p, t)), ScaleVec(n, t));
  }

  lemma CosetFftOfTransform(p: int, w: int, g: int, e: nat, a: Vec)
    requires p > 1 && |a| == Pow2(e) && HalfTurn(p, w, e)
    ensures CosetFftOf(p, w, g, e, a) == Reduce(p, CosetTransform(w, g, a))
  {
    hide FftOf, Transform, Pow, Pow2, HalfTurn;
    var y := Twist(a, g);
    ReduceCong(p, y);
    FftOfTransform(p, w, e, Reduce(p, y));
    CongRefl(p, w);
    CongTransform(p, w, w, Reduce(p, y), y);
    ReduceEqual(p, Transform(w, Reduce(p, y)), Transform(w, y));
  }

  lemma IcosetFftOfInverse(p: int, w: int, g: int, e: nat, a: Vec)
    requires Prime(p) && 0 < w < p && |a| == Pow2(e) && InField(p, a) && HalfTurn(p, w, e)
    ensures IcosetFftOf(p, w, g, e, a) == Reduce(p, InverseCosetTransform(p, w, g, a))
  {
    hide IfftOf, InverseTransform, Pow, Pow2, HalfTurn, Inverse;
    var h, y := Inverse(p, g), InverseTransform(p, w, a);
    IfftOfInverse(p, w, e, a);
    ReduceCong(p, y);
    CongTwist(p, Reduce(p, y), y, h);
    ReduceEqual(p, Twist(Reduce(p, y), h), Twist(y, h));
  }

  method Ifft(F: PrimeField, a: array<int>, omega: int, exp: nat)
    requires F.Valid() && InField(F.p, a[..]) && 0 < omega < F.p
    requires a.Length == Pow2(exp) && exp < 32
    modifies a
    ensures a[..] == IfftOf(F.p, omega, exp, old(a[..])) && InField(F.p, a[..])
    ensures HalfTurn(F.p, omega, exp) ==> a[..] == Reduce(F.p, InverseTransform(F.p, omega, old(a[..])))
  {
    hide FftOf, InverseTransform, HalfTurn, Pow2;
    var v := F.Invert(omega);
    Fft(F, a, v, exp);
    var minv := F.Invert(a.Length);
    ghost var x := a[..];
    for i := 0 to a.Length
      invariant forall j :: 0 <= j < a.Length ==> a[j] == if j < i then (minv * x[j]) % F.p else x[j]
    {
      Commuted(a[i], minv);
      a[i] := (a[i] * minv) % F.p;
    }
    assert a[..] == Reduce(F.p, ScaleVec(minv, x));
    if HalfTurn(F.p, omega, exp) { IfftOfInverse(F.p, omega, exp, old(a[..])); }
  }

  lemma Commuted(x: int, y: int)
    ensures x * y == y * x
  {
  }

  method CosetFft(F: PrimeField, a: array<int>, omega: int, exp: nat)
    requires F.Valid() && InField(F.p, a[..])
    requires a.Length == Pow2(exp) && exp < 32
    modifies a
    ensures a[..] == CosetFftOf(F.p, omega, F.gen, exp, old(a[..])) && InField(F.p, a[..])
    ensures HalfTurn(F.p, omega, exp) ==> a[..] == Reduce(F.p, CosetTransform(omega, F.gen, old(a[..])))
  {
    hide FftOf, CosetTransform, HalfTurn, Pow2;
    TwistInPlace(F.p, a, F.gen);
    ReduceCong(F.p, Twist(old(a[..]), F.gen));
    Fft(F, a, omega, exp);
    if HalfTurn(F.p, omega, exp) { CosetFftOfTransform(F.p, omega, F.gen, exp, old(a[..])); }
  }

  method IcosetFft(F: PrimeField, a: array<int>, omega: int, exp: nat)
    requires F.Valid() && InField(F.p, a[..]) && 0 < omega < F.p
    requires a.Length == Pow2(exp) && exp < 32
    modifies a
    ensures a[..] == IcosetFftOf(F.p, omega, F.gen, exp, old(a[..])) && InField(F.p, a[..])
    ensures HalfTurn(F.p, omega, exp) ==>
      a[..] == Reduce(F.p, InverseCosetTransform(F.p, omega, F.gen, old(a[..])))
  {
    hide IfftOf, InverseCosetTransform, HalfTurn, Pow2, Inverse;
    Ifft(F, a, omega, exp);
    var g := F.Invert(F.gen);
    ghost var z := a[..];
    TwistInPlace(F.p, a, g);
    ReduceCong(F.p, Twist(z, g));
    if HalfTurn(F.p, omega, exp) { IcosetFftOfInverse(F.p, omega, F.gen, exp, old(a[..])); }
  }

  /** Pointwise a - b, in place. */
  method SubEvalDomain(p: int, a: array<int>, b: seq<int>)
    requires p > 1 && a.Length == |b|
    modifies a
    ensures a[..] == Reduce(p, SubVec(old(a[..]), b))
  {
    ghost var x := a[..];
    for i := 0 to a.Length
      invariant forall j :: 0 <= j < a.Length ==> a[j] == if j < i then (x[j] - b[j]) % p else x[j]
    {
      a[i] := (a[i] - b[i]) % p;
    }
  }

  // ------------------------------------------------- choice of the domain

  /** The root `fft_params` returns for a domain of size 2^exp. */
  function DomainRoot(F: PrimeField, exp: nat): int
    requires F.p > 0
  {
    if exp <= F.s then Pow(F.root, Pow2(F.s - exp)) % F.p else F.root
  }

  lemma {:induction false} RootPower(F: PrimeField, exp: nat, d: nat)
    requires F.p > 0 && exp <= F.s
    ensures Cong(F.p, Pow(DomainRoot(F, exp), d), Pow(F.root, Pow2(F.s - exp) * d))
  {
    ModCong(F.p, Pow(F.root, Pow2(F.s - exp)));
    CongPow(F.p, DomainRoot(F, exp), Pow(F.root, Pow2(F.s - exp)), d);
    PowOfPow(F.root, Pow2(F.s - exp), d);
  }

  lemma DomainRootTurns(F: PrimeField, exp: nat)
    requires F.Valid() && exp <= F.s
    ensures Cong(F.p, Pow(DomainRoot(F, exp), Pow2(exp)), 1)
  {
    hide Pow;
    RootPower(F, exp, Pow2(exp));
    Pow2Add(F.s - exp, exp);
    CongTrans(F.p, Pow(DomainRoot(F, exp), Pow2(exp)), Pow(F.root, Pow2(F.s)), 1);
  }

  lemma DomainRootNoSooner(F: PrimeField, exp: nat, d: nat)
    requires F.Valid() && exp <= F.s && 0 < d < Pow2(exp)
    ensures !Cong(F.p, Pow(DomainRoot(F, exp), d), 1)
  {
    hide Pow;
    var q := Pow2(F.s - exp);
    Pow2Add(F.s - exp, exp);
    SmallerPower(q, d, Pow2(exp));
    if Cong(F.p, Pow(DomainRoot(F, exp), d), 1) {
      RootPower(F, exp, d);
      CongSym(F.p, Pow(DomainRoot(F, exp), d), Pow(F.root, q * d));
      CongTrans(F.p, Pow(F.root, q * d), Pow(DomainRoot(F, exp), d), 1);
    }
  }

  /**
   The root has order exactly the size of the domain if and only if the field
   has a root of that order to offer.
   */
  lemma DomainRootOrder(F: PrimeField, exp: nat)
    requires F.Valid()
    ensures ExactOrder(F.p, DomainRoot(F, exp), Pow2(exp)) <==> exp <= F.s
    ensures exp <= F.s ==> HalfTurn(F.p, DomainRoot(F, exp), exp) && 0 < DomainRoot(F, exp) < F.p
  {
    hide Pow;
    var w := DomainRoot(F, exp);
    if exp > F.s {
      Pow2Mono(F.s, exp);
      assert Cong(F.p, Pow(w, Pow2(F.s)), 1);
    } else {
      DomainRootTurns(F, exp);
      forall d: nat | 0 < d < Pow2(exp) ensures !Cong(F.p, Pow(w, d), 1) { DomainRootNoSooner(F, exp, d); }
      if exp > 0 { ExactOrderIffHalfTurn(F.p, w, exp); }
      RootNonzero(F.p, w, Pow2(exp));
    }
  }

  lemma SmallerPower(q: nat, d: nat, n: nat)
    requires q > 0 && 0 < d < n
    ensures 0 < q * d < q * n
  {
    assert q * (n - d) > 0;
  }

  lemma RootNonzero(p: int, w: int, n: nat)
    requires p > 2 && 0 <= w < p && n > 0 && Cong(p, Pow(w, n), 1)
    ensures 0 < w
  {
    if w == 0 {
      assert Pow(w, n) == 0;
      CongEqual(p, 0, 1);
    }
  }

  /** 2^e is the smallest power of two that is at least l. */
  ghost predicate LeastExp(l: nat, e: nat) {
    l <= Pow2(e) && forall k: nat :: l <= Pow2(k) ==> e <= k
  }

  /**
   The smallest power of two that is at least l, and the root for it.
   */
  method FftParams(F: PrimeField, l: nat) returns (omega: int, m: nat, exp: nat)
    requires F.Valid()
    ensures m == Pow2(exp) && LeastExp(l, exp)
    ensures omega == DomainRoot(F, exp)
    ensures ExactOrder(F.p, omega, m) <==> exp <= F.s
    ensures exp <= F.s ==> HalfTurn(F.p, omega, exp)
    ensures 0 < omega < F.p
  {
    m := 1;
    exp := 0;
    while m < l
      invariant m == Pow2(exp) && (exp > 0 ==> Pow2(exp - 1) < l)
      decreases l - m
    {
      m := m * 2;
      exp := exp + 1;
    }
    forall k: nat | l <= Pow2(k) ensures exp <= k {
      if k < exp { Pow2Mono(k, exp - 1); }
    }
    omega := F.root;
    var i := exp;
    ghost var done := 0;
    SmallMod(F.p, F.root);
    assert Pow(F.root, 1) == F.root * Pow(F.root, 0);
    while i < F.s
      invariant i == exp + done && (exp <= F.s ==> i <= F.s) && (exp > F.s ==> done == 0)
      invariant omega == Pow(F.root, Pow2(done)) % F.p
    {
      SquareResidue(F.p, F.root, Pow2(done));
      omega := (omega * omega) % F.p;
      i := i + 1;
      done := done + 1;
    }
    DomainRootOrder(F, exp);
  }

  lemma SquareResidue(p: int, b: int, e: nat)
    requires p > 0
    ensures ((Pow(b, e) % p) * (Pow(b, e) % p)) % p == Pow(b, 2 * e) % p
  {
    var x := Pow(b, e);
    ModCong(p, x);
    CongMul(p, x % p, x, x % p, x);
    CongMod(p, (x % p) * (x % p), x * x);
    PowAdd(b, e, e);
  }
}
