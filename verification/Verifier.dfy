/**
 The two verifiers: crates/groth16/src/verifier.rs checks the pairing equation
 of the argument, crates/groth16-solana/src/lib.rs checks one product of four
 pairings against the identity, over points given as bytes.

 The pairing of two points is the product of their scalars, and the target
 group is written additively.
 */
module Verifier {
  import opened Wrappers
  import opened Modular
  import opened Polynomials
  import opened Prover

  datatype VerificationError = InvalidProof | InvalidVerifyingKey

  function Pairing(p: int, a: int, b: int): int
    requires p > 0
  {
    (a * b) % p
  }

  /** The point the public inputs select: ic[0] + sum of input_i * ic[i + 1]. */
  ghost function InputPoint(ic: Vec, inputs: Vec): int
    requires |inputs| + 1 == |ic|
  {
    ic[0] + Dot(ic[1..], inputs)
  }

  /** e(alpha, beta) = e(a, b) - e(acc, gamma) - e(c, delta), in exponents. */
  ghost predicate PairingEquation(p: int, pf: Proof, acc: int, vk: VerificationKey) {
    Cong(p, vk.alphaG1 * vk.betaG2, pf.a * pf.b - acc * vk.gammaG2 - pf.c * vk.deltaG2)
  }

  /** What it means for a proof to be accepted for public inputs. */
  ghost predicate Accepts(p: int, pf: Proof, inputs: Vec, vk: VerificationKey) {
    |inputs| + 1 == |vk.ic| && PairingEquation(p, pf, InputPoint(vk.ic, inputs), vk)
  }

  // ------------------------------------------------ the direct verifier

  /** acc + e(x, -y): a pairing with a negated second point. */
  method AddNegatedPairing(p: int, rhs: int, ghost total: int, x: int, ghost x': int, y: int) returns (r: int)
    requires p > 1 && Cong(p, rhs, total) && Cong(p, x, x')
    ensures 0 <= r < p && Cong(p, r, total - x' * y)
  {
    var minus := MulPoint(p, y, y, (-1) % p, -1) by { ModCong(p, -1); }
    ghost var z := x' * (y * -1);
    var e := MulPoint(p, x, x', minus, y * -1);
    assert e == Pairing(p, x, minus);
    r := AddPoint(p, rhs, total, e, z);
    NegateRight(x', y);
  }

  lemma NegateRight(x: int, y: int)
    ensures x * (y * -1) == -(x * y)
  {
  }

  method AccumulateInputs(p: int, ic: Vec, inputs: Vec) returns (acc: int)
    requires p > 1 && |inputs| + 1 == |ic|
    ensures Cong(p, acc, InputPoint(ic, inputs))
  {
    acc := ic[0];
    CongRefl(p, acc);
    ghost var rest := ic[1..];
    for i := 0 to |inputs|
      invariant Cong(p, acc, ic[0] + Dot(rest[..i], inputs[..i]))
    {
      assert rest[..i + 1][..i] == rest[..i] && inputs[..i + 1][..i] == inputs[..i];
      ghost var before := ic[0] + Dot(rest[..i], inputs[..i]);
      ghost var z := rest[i] * inputs[i];
      var t := MulPoint(p, ic[i + 1], rest[i], inputs[i], inputs[i]);
      acc := AddPoint(p, acc, before, t, z);
    }
    assert rest[..|inputs|] == rest && inputs[..|inputs|] == inputs;
  }

  method VerifyProof(p: int, proof: Proof, publicInputs: Vec, vk: VerificationKey)
    returns (r: Result<(), VerificationError>)
    requires p > 1
    ensures r.Ok? <==> Accepts(p, proof, publicInputs, vk)
    ensures r == Err(InvalidVerifyingKey) <==> |publicInputs| + 1 != |vk.ic|
  {
    if |publicInputs| + 1 != |vk.ic| {
      return Err(InvalidVerifyingKey);
    }
    var acc := AccumulateInputs(p, vk.ic, publicInputs);
    ghost var point := InputPoint(vk.ic, publicInputs);
    ghost var ab := proof.a * proof.b;
    var rhs := Pairing(p, proof.a, proof.b);
    ModCong(p, ab);
    rhs := AddNegatedPairing(p, rhs, ab, acc, point, vk.gammaG2);
    rhs := AddNegatedPairing(p, rhs, ab - point * vk.gammaG2, proof.c, proof.c, vk.deltaG2) by { CongRefl(p, proof.c); }
    SameResidue(p, vk.alphaG1 * vk.betaG2, rhs, ab - point * vk.gammaG2 - proof.c * vk.deltaG2);
    if Pairing(p, vk.alphaG1, vk.betaG2) == rhs {
      r := Ok(());
    } else {
      r := Err(InvalidProof);
    }
  }

  lemma SameResidue(p: int, x: int, y: int, y': int)
    requires p > 0 && 0 <= y < p && Cong(p, y, y')
    ensures x % p == y <==> Cong(p, x, y')
  {
    SmallMod(p, y);
    CongMod(p, x, y);
    if Cong(p, x, y) { CongTrans(p, x, y, y'); }
    if Cong(p, x, y') { CongSym(p, y, y'); CongTrans(p, x, y', y); }
  }

  // ---------------------------------------------- the on-chain verifier

  datatype AltBn128Error = InvalidInputData

  datatype Groth16Error =
    | AltBn128Error(error: AltBn128Error)
    | InvalidPublicInputs
    | VerificationFailed

  /** Bytes handed to a curve operation: None when they encode no point. */
  type PointBytes = Option<int>

  datatype ProofBytes = ProofBytes(a: PointBytes, b: PointBytes, c: PointBytes)

  datatype VkBytes = VkBytes(alpha: PointBytes, beta: PointBytes, gamma: PointBytes, delta: PointBytes,
                             ic: seq<PointBytes>)

  function AltBn128Multiplication(p: int, x: PointBytes, scalar: nat): (r: Result<int, AltBn128Error>)
    requires p > 1
  {
    if x.Some? then Ok((x.value * scalar) % p) else Err(InvalidInputData)
  }

  function AltBn128Addition(p: int, x: int, y: PointBytes): (r: Result<int, AltBn128Error>)
    requires p > 1
  {
    if y.Some? then Ok((x + y.value) % p) else Err(InvalidInputData)
  }

  /** Whether the product of the pairings is one; the check of EIP-197. */
  function AltBn128Pairing(p: int, pairs: seq<(PointBytes, PointBytes)>): (r: Result<bool, AltBn128Error>)
    requires p > 1
  {
    if exists k :: 0 <= k < |pairs| && (pairs[k].0.None? || pairs[k].1.None?) then Err(InvalidInputData)
    else Ok(PairingSum(pairs) % p == 0)
  }

  function PairingSum(pairs: seq<(PointBytes, PointBytes)>): int
    requires forall k :: 0 <= k < |pairs| ==> pairs[k].0.Some? && pairs[k].1.Some?
  {
    if pairs == [] then 0
    else pairs[0].0.value * pairs[0].1.value + PairingSum(pairs[1..])
  }

  ghost predicate AllPoints(xs: seq<PointBytes>) {
    forall k :: 0 <= k < |xs| ==> xs[k].Some?
  }

  ghost function Points(xs: seq<PointBytes>): (r: Vec)
    requires AllPoints(xs)
    ensures |r| == |xs| && forall k :: 0 <= k < |xs| ==> r[k] == xs[k].value
  {
    seq(|xs|, k requires 0 <= k < |xs| => xs[k].value)
  }

  datatype Groth16Verifier = Groth16Verifier(p: int, proof: ProofBytes, publicInputs: seq<nat>, vk: VkBytes) {

    static method New(p: int, proof: ProofBytes, publicInputs: seq<nat>, vk: VkBytes)
      returns (r: Result<Groth16Verifier, Groth16Error>)
      ensures r == if |publicInputs| + 1 != |vk.ic| then Err(InvalidPublicInputs)
                   else Ok(Groth16Verifier(p, proof, publicInputs, vk))
    {
      if |publicInputs| + 1 != |vk.ic| {
        return Err(InvalidPublicInputs);
      }
      r := Ok(Groth16Verifier(p, proof, publicInputs, vk));
    }

    /** All the bytes encode points. */
    ghost predicate WellEncoded() {
      && proof.a.Some? && proof.b.Some? && proof.c.Some?
      && vk.alpha.Some? && vk.beta.Some? && vk.gamma.Some? && vk.delta.Some?
      && AllPoints(vk.ic)
    }

    /** The product of the four pairings is the identity. */
    ghost predicate ProductIsOne()
      requires WellEncoded() && |publicInputs| + 1 == |vk.ic|
    {
      Cong(p, proof.a.value * proof.b.value
              + InputPoint(Points(vk.ic), publicInputs) * vk.gamma.value
              + proof.c.value * vk.delta.value
              + vk.alpha.value * vk.beta.value, 0)
    }

    method Verify() returns (r: Result<bool, Groth16Error>)
      requires p > 1 && |publicInputs| + 1 == |vk.ic|
      ensures !WellEncoded() <==> r == Err(Groth16Error.AltBn128Error(InvalidInputData))
      ensures WellEncoded() ==> r == if ProductIsOne() then Ok(true) else Err(VerificationFailed)
    {
      var acc := vk.ic[0];
      if acc.Some? {
        assert Points(vk.ic[..1])[1..] == [];
        CongRefl(p, acc.value);
      }
      for i := 0 to |publicInputs|
        invariant acc.Some? <==> AllPoints(vk.ic[..i + 1])
        invariant acc.Some? ==> Cong(p, acc.value, InputPoint(Points(vk.ic[..i + 1]), publicInputs[..i]))
        invariant i > 0 ==> acc.Some?
      {
        var mulRes := AltBn128Multiplication(p, vk.ic[i + 1], publicInputs[i]);
        if mulRes.Err? { return Err(Groth16Error.AltBn128Error(mulRes.error)); }
        var sum := AltBn128Addition(p, mulRes.value, acc);
        if sum.Err? {
          assert !AllPoints(vk.ic[..i + 1]);
          return Err(Groth16Error.AltBn128Error(sum.error));
        }
        NextInputPoint(p, vk.ic, publicInputs, i, acc.value, sum.value);
        acc := Some(sum.value);
      }
      assert vk.ic[..|publicInputs| + 1] == vk.ic && publicInputs[..|publicInputs|] == publicInputs;

      var input := [(proof.a, proof.b), (acc, vk.gamma), (proof.c, vk.delta), (vk.alpha, vk.beta)];
      var res := AltBn128Pairing(p, input);
      if res.Err? { return Err(Groth16Error.AltBn128Error(res.error)); }
      assert input[0].0.Some? && input[1].0.Some? && input[1].1.Some? && input[2].1.Some? && input[3].0.Some?;
      FourPairings(p, input, InputPoint(Points(vk.ic), publicInputs));
      if !res.value {
        return Err(VerificationFailed);
      }
      r := Ok(true);
    }
  }

  lemma NextInputPoint(p: int, ic: seq<PointBytes>, inputs: seq<nat>, i: nat, acc: int, next: int)
    requires p > 1 && i < |inputs| && |inputs| + 1 == |ic| && AllPoints(ic[..i + 2])
    requires AllPoints(ic[..i + 1]) && Cong(p, acc, InputPoint(Points(ic[..i + 1]), inputs[..i]))
    requires next == ((ic[i + 1].value * inputs[i]) % p + acc) % p
    ensures Cong(p, next, InputPoint(Points(ic[..i + 2]), inputs[..i + 1]))
  {
    var x, y := Points(ic[..i + 1]), Points(ic[..i + 2]);
    assert y[1..][..i] == x[1..] && inputs[..i + 1][..i] == inputs[..i];
    var before, z := InputPoint(x, inputs[..i]), ic[i + 1].value * inputs[i];
    assert InputPoint(y, inputs[..i + 1]) == before + z;
    ModCong(p, z);
    CongAdd(p, z % p, z, acc, before);
    ModCong(p, z % p + acc);
    CongTrans(p, next, z % p + acc, before + z);
  }

  lemma FourPairings(p: int, pairs: seq<(PointBytes, PointBytes)>, point: int)
    requires p > 1 && |pairs| == 4
    requires forall k :: 0 <= k < 4 ==> pairs[k].0.Some? && pairs[k].1.Some?
    requires Cong(p, pairs[1].0.value, point)
    ensures PairingSum(pairs) % p == 0 <==>
      Cong(p, pairs[0].0.value * pairs[0].1.value + point * pairs[1].1.value
              + pairs[2].0.value * pairs[2].1.value + pairs[3].0.value * pairs[3].1.value, 0)
  {
    var x0, x1 := pairs[0].0.value * pairs[0].1.value, pairs[1].0.value * pairs[1].1.value;
    var x2, x3 := pairs[2].0.value * pairs[2].1.value, pairs[3].0.value * pairs[3].1.value;
    assert PairingSum(pairs) == x0 + x1 + x2 + x3 by {
      assert pairs[1..][1..] == pairs[2..] && pairs[2..][1..] == pairs[3..] && pairs[3..][1..] == [];
      assert PairingSum(pairs[3..]) == x3 + PairingSum([]);
      assert PairingSum(pairs[2..]) == x2 + PairingSum(pairs[3..]);
    }
    CongScale(p, pairs[1].1.value, pairs[1].0.value, point);
    var y1 := point * pairs[1].1.value;
    MulAssoc(1, pairs[1].1.value, point);
    CongRefl(p, x0 + x2 + x3);
    CongAdd(p, x1, y1, x0 + x2 + x3, x0 + x2 + x3);
    SmallMod(p, 0);
    CongMod(p, x0 + x1 + x2 + x3, 0);
    if Cong(p, x0 + x1 + x2 + x3, 0) {
      CongSym(p, x0 + x1 + x2 + x3, x0 + y1 + x2 + x3);
      CongTrans(p, x0 + y1 + x2 + x3, x0 + x1 + x2 + x3, 0);
    }
    if Cong(p, x0 + y1 + x2 + x3, 0) {
      CongTrans(p, x0 + x1 + x2 + x3, x0 + y1 + x2 + x3, 0);
    }
  }

  // --------------------------------------------------------- agreement

  /** The same key and proof, in bytes, with a negated as the client sends it. */
  ghost predicate SameStatement(v: Groth16Verifier, pf: Proof, inputs: Vec, vk: VerificationKey) {
    && v.WellEncoded()
    && Cong(v.p, v.proof.a.value, -pf.a) && v.proof.b.value == pf.b && v.proof.c.value == pf.c
    && v.vk.alpha.value == vk.alphaG1 && v.vk.beta.value == vk.betaG2
    && v.vk.gamma.value == vk.gammaG2 && v.vk.delta.value == vk.deltaG2
    && Points(v.vk.ic) == vk.ic
    && CongVec(v.p, v.publicInputs, inputs)
  }

  lemma {:induction false} CongDot(p: int, x: Vec, y: Vec, x': Vec, y': Vec)
    requires |x| == |y| && CongVec(p, x, x') && CongVec(p, y, y')
    ensures Cong(p, Dot(x, y), Dot(x', y'))
  {
    if x == [] {
      CongRefl(p, 0);
    } else {
      var n := |x| - 1;
      CongDot(p, x[..n], y[..n], x'[..n], y'[..n]);
      CongMul(p, x[n], x'[n], y[n], y'[n]);
      CongAdd(p, Dot(x[..n], y[..n]), Dot(x'[..n], y'[..n]), x[n] * y[n], x'[n] * y'[n]);
    }
  }

  /**
   On the same statement the product of four pairings is one exactly when the
   direct verifier accepts, so the two verifiers agree for every input.
   */
  lemma VerifiersAgree(v: Groth16Verifier, pf: Proof, inputs: Vec, vk: VerificationKey)
    requires v.p > 1 && SameStatement(v, pf, inputs, vk) && |v.publicInputs| + 1 == |v.vk.ic|
    ensures v.ProductIsOne() <==> Accepts(v.p, pf, inputs, vk)
  {
    var p := v.p;
    var x, y := InputPoint(vk.ic, v.publicInputs), InputPoint(vk.ic, inputs);
    CongVecRefl(p, vk.ic[1..]);
    CongDot(p, vk.ic[1..], v.publicInputs, vk.ic[1..], inputs);
    CongRefl(p, vk.ic[0]);
    CongAdd(p, vk.ic[0], vk.ic[0], Dot(vk.ic[1..], v.publicInputs), Dot(vk.ic[1..], inputs));
    CongScale(p, vk.gammaG2, x, y);
    CongScale(p, pf.b, v.proof.a.value, -pf.a);
    MovedAcross(p, pf.a, pf.b, v.proof.a.value, x, y, vk.gammaG2, pf.c * vk.deltaG2, vk.alphaG1 * vk.betaG2);
  }

  /** a' = -a: the sum with a' vanishes exactly when the equation with a holds. */
  lemma MovedAcross(p: int, a: int, b: int, a': int, x: int, y: int, g: int, cd: int, ab: int)
    requires Cong(p, b * a', b * -a) && Cong(p, g * x, g * y)
    ensures Cong(p, a' * b + x * g + cd + ab, 0) <==> Cong(p, ab, a * b - y * g - cd)
  {
    var s, t, e := a' * b + x * g + cd + ab, ab - (a * b - y * g - cd), a * b - y * g - cd;
    assert b * a' == a' * b && b * -a == -(a * b) && g * x == x * g && g * y == y * g;
    Rearranged(p, a' * b, a * b, x * g, y * g, cd, ab);
    CongRefl(p, e);
    if Cong(p, s, 0) {
      CongSym(p, s, t);
      CongTrans(p, t, s, 0);
      CongAdd(p, t, 0, e, e);
    }
    if Cong(p, ab, e) {
      CongSub(p, ab, e, e, e);
      CongTrans(p, s, t, 0);
    }
  }

  lemma Rearranged(p: int, u: int, v: int, x: int, y: int, cd: int, ab: int)
    requires Cong(p, u, -v) && Cong(p, x, y)
    ensures Cong(p, u + x + cd + ab, ab - (v - y - cd))
  {
    CongAdd(p, u, -v, x, y);
    CongRefl(p, cd + ab);
    CongAdd(p, u + x, -v + y, cd + ab, cd + ab);
  }
}
