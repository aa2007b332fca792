/**
 From the client to the chain: what packages/albus-core/src/zkp.ts sends for a
 proof, a key and public signals, and what the verifier of crates/groth16-solana
 makes of these bytes.
 */
module Client {
  import opened Wrappers
  import opened Modular
  import opened Polynomials
  import opened LittleEndian
  import opened Prover
  import opened Verifier
  import opened Zkp

  /** A curve as its operations read bytes: the scalar of the point they encode, or that they encode none. */
  datatype Curve = Curve(p: int, g1: Bytes -> PointBytes, g2: Bytes -> PointBytes) {

    /** The opposite of a point has the opposite second coordinate. */
    ghost predicate HasOpposites() {
      forall x, y :: InBaseField(x) && InBaseField(y) ==> Opposites(x, y)
    }

    ghost predicate Opposites(x: int, y: int) {
      var e, f := EncodeG1([x, y, 1]), EncodeG1([x, (-y) % FIELD_PRIME, 1]);
      e.Ok? && f.Ok? && g1(e.value).Some? ==> g1(f.value).Some? && Cong(p, g1(f.value).value, -g1(e.value).value)
    }

    /** The scalars behind affine points. */
    ghost predicate IsG1(point: seq<int>, scalar: int) {
      AffineG1(point) && EncodeG1(point).Ok? && g1(EncodeG1(point).value) == Some(scalar)
    }

    ghost predicate IsG2(point: seq<(int, int)>, scalar: int) {
      AffineG2(point) && EncodeG2(point).Ok? && g2(EncodeG2(point).value) == Some(scalar)
    }

    ghost predicate IsProofData(d: ProofData, pf: Proof) {
      IsG1(d.piA, pf.a) && IsG2(d.piB, pf.b) && IsG1(d.piC, pf.c)
    }

    ghost predicate IsKeyData(k: VerifyingKey, vk: VerificationKey) {
      && IsG1(k.alpha, vk.alphaG1) && IsG2(k.beta, vk.betaG2) && IsG2(k.gamma, vk.gammaG2) && IsG2(k.delta, vk.deltaG2)
      && |k.ic| == |vk.ic| && forall i :: 0 <= i < |k.ic| ==> IsG1(k.ic[i], vk.ic[i])
    }

    /** The verifier on chain over the bytes it is sent. */
    function OnChain(e: EncodedProof, k: EncodedKey, signals: seq<Bytes>): Groth16Verifier {
      Groth16Verifier(p, ProofBytes(g1(e.a), g2(e.b), g1(e.c)), Numbers(signals),
                      VkBytes(g1(k.alpha), g2(k.beta), g2(k.gamma), g2(k.delta), Points(k.ic)))
    }

    function Points(ic: seq<Bytes>): (r: seq<PointBytes>)
      ensures |r| == |ic| && forall i :: 0 <= i < |ic| ==> r[i] == g1(ic[i])
    {
      seq(|ic|, i requires 0 <= i < |ic| => g1(ic[i]))
    }
  }

  /** Public inputs are read big-endian. */
  function Numbers(signals: seq<Bytes>): (r: seq<nat>)
    ensures |r| == |signals| && forall i :: 0 <= i < |signals| ==> r[i] == BeValue(signals[i])
  {
    seq(|signals|, i requires 0 <= i < |signals| => BeValue(signals[i]))
  }

  lemma {:induction false} IcEncoded(ic: seq<seq<int>>)
    requires forall k :: 0 <= k < |ic| ==> AffineG1(ic[k])
    ensures EncodeIc(ic).Ok? && |EncodeIc(ic).value| == |ic|
    ensures forall k :: 0 <= k < |ic| ==> EncodeG1(ic[k]) == Ok(EncodeIc(ic).value[k])
  {
    if ic != [] {
      hide EncodeG1;
      var n := |ic| - 1;
      IcEncoded(ic[..n]);
      AffineG1RoundTrip(ic[n]);
      assert forall k :: 0 <= k < n ==> ic[..n][k] == ic[k];
    }
  }

  /** The first point goes out with the opposite scalar. */
  lemma NegatedScalar(c: Curve, d: ProofData, pf: Proof)
    requires c.HasOpposites() && c.IsProofData(d, pf)
    ensures EncodeProof(d).Ok?
    ensures var e := EncodeProof(d).value;
      && c.g1(e.a).Some? && Cong(c.p, c.g1(e.a).value, -pf.a)
      && c.g2(e.b) == Some(pf.b) && c.g1(e.c) == Some(pf.c)
  {
    hide EncodeG1, EncodeG2, EncodeProof;
    EncodedProofParts(d);
    var x, y := d.piA[0], d.piA[1];
    assert d.piA == [x, y, 1];
    assert c.Opposites(x, y);
  }

  /** What the client sends is the statement it has, with A negated: the hypothesis under which the verifiers agree. */
  lemma SentIsSameStatement(c: Curve, d: ProofData, pf: Proof, k: VerifyingKey, vk: VerificationKey, signals: seq<nat>,
                            bytes: seq<Bytes>)
    requires c.p > 1 && c.HasOpposites() && c.IsProofData(d, pf) && c.IsKeyData(k, vk) && Numbers(bytes) == signals
    ensures EncodeProof(d).Ok? && EncodeVerifyingKey(k).Ok?
    ensures var v := c.OnChain(EncodeProof(d).value, EncodeVerifyingKey(k).value, bytes);
      SameStatement(v, pf, signals, vk) && |v.vk.ic| == |k.ic|
  {
    hide EncodeG1, EncodeG2, EncodeProof, EncodeIc, AffineG1, AffineG2, Curve.HasOpposites, Curve.IsProofData, Cong;
    NegatedScalar(c, d, pf);
    assert forall i :: 0 <= i < |k.ic| ==> c.IsG1(k.ic[i], vk.ic[i]);
    IcEncoded(k.ic);
    var v := c.OnChain(EncodeProof(d).value, EncodeVerifyingKey(k).value, bytes);
    assert forall i :: 0 <= i < |k.ic| ==> v.vk.ic[i] == Some(vk.ic[i]);
    assert Verifier.Points(v.vk.ic) == vk.ic;
    CongVecRefl(c.p, signals);
  }

  /**
   The client sends a proof, its key and its public signals, and the program verifies
   them: it accepts exactly the proofs the direct verifier accepts.
   */
  method SendAndVerify(c: Curve, d: ProofData, ghost pf: Proof, k: VerifyingKey, ghost vk: VerificationKey,
                       signals: seq<nat>)
    returns (accepted: bool)
    requires c.p > 1 && c.HasOpposites() && c.IsProofData(d, pf) && c.IsKeyData(k, vk)
    requires forall i :: 0 <= i < |signals| ==> Fits(signals[i])
    ensures accepted <==> Accepts(c.p, pf, signals, vk)
  {
    hide EncodeProof, EncodeVerifyingKey, Curve.HasOpposites, Curve.IsProofData, Curve.IsKeyData, PairingEquation,
         SameStatement, Fits, BeValue;
    var bytes := EncodePublicSignals(signals);
    assert Numbers(bytes.value) == signals;
    SentIsSameStatement(c, d, pf, k, vk, signals, bytes.value);
    var v := c.OnChain(EncodeProof(d).value, EncodeVerifyingKey(k).value, bytes.value);
    KeySize(c, k, vk);
    var checked := Groth16Verifier.New(v.p, v.proof, v.publicInputs, v.vk);
    if checked.Err? { return false; }
    var verdict := checked.value.Verify();
    accepted := verdict == Ok(true);
    WellEncodedStatement(v, pf, signals, vk);
    VerifiersAgree(v, pf, signals, vk);
  }

  lemma KeySize(c: Curve, k: VerifyingKey, vk: VerificationKey)
    requires c.IsKeyData(k, vk)
    ensures |k.ic| == |vk.ic|
  {
  }

  lemma WellEncodedStatement(v: Groth16Verifier, pf: Proof, inputs: Vec, vk: VerificationKey)
    requires SameStatement(v, pf, inputs, vk)
    ensures v.WellEncoded()
  {
  }

  /** The second coordinate of a point, in place of its scalar: it has opposites. */
  function SecondCoordinate(b: Bytes): PointBytes {
    if |b| == 64 then Some(BeValue(b[32..64])) else None
  }

  lemma SecondCoordinateHasOpposites()
    ensures Curve(FIELD_PRIME, SecondCoordinate, SecondCoordinate).HasOpposites()
  {
    hide EncodeG1, BeValue, Cong;
    var c := Curve(FIELD_PRIME, SecondCoordinate, SecondCoordinate);
    PrimeFits();
    forall x, y | InBaseField(x) && InBaseField(y) ensures c.Opposites(x, y) {
      G1Wire(x, y, 1);
      G1Wire(x, (-y) % FIELD_PRIME, 1);
      ModCong(FIELD_PRIME, -y);
    }
  }
}
