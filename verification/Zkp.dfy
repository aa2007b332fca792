/**
 The client's byte formats, from packages/albus-core/src/zkp.ts: points and
 public signals as big-endian 32-byte limbs, and the negation of A that turns
 the verifier's equation into a product of pairings.
 */
module Zkp {
  import opened Wrappers
  import opened Modular
  import opened LittleEndian

  const FIELD_PRIME: int := 21888242871839275222246405745257275088696311157297823662689037894645226208583

  datatype CodecError = NumberDoesNotFit | PointTooShort | NotANumber

  // ------------------------------------------------------------- limbs

  function Reverse<T>(s: seq<T>): (r: seq<T>)
    ensures |r| == |s| && forall i :: 0 <= i < |s| ==> r[i] == s[|s| - 1 - i]
  {
    seq(|s|, i requires 0 <= i < |s| => s[|s| - 1 - i])
  }

  /** `finiteToBytes`: little-endian, refused when the number does not fit. */
  function FiniteToBytes(n: int): (r: Result<Bytes, CodecError>)
    ensures r.Ok? ==> |r.value| == 32
  {
    if 0 <= n < Pow(256, 32) then Ok(LeBytes(n, 32)) else Err(NumberDoesNotFit)
  }

  function BytesToFinite(b: Bytes): nat {
    LeValue(b)
  }

  /** `bytesToBigInt`: the same bytes read big-endian. */
  function BeValue(b: Bytes): nat {
    LeValue(Reverse(b))
  }

  /** JavaScript's `slice(i, j)` for nonnegative bounds. */
  function Slice<T>(s: seq<T>, i: nat, j: nat): seq<T> {
    var hi := if j < |s| then j else |s|;
    if i < hi then s[i..hi] else []
  }

  lemma ReverseTwice<T>(s: seq<T>)
    ensures Reverse(Reverse(s)) == s
  {
  }

  // ------------------------------------------------------------- points

  /** The coordinates big-endian, one after the other, before truncation. */
  function ConcatBe(p: seq<int>): Result<Bytes, CodecError> {
    if p == [] then Ok([])
    else
      var rest := ConcatBe(p[..|p| - 1]);
      if rest.Err? then rest
      else
        var b := FiniteToBytes(p[|p| - 1]);
        if b.Err? then b else Ok(rest.value + Reverse(b.value))
  }

  function EncodeG1(p: seq<int>): Result<Bytes, CodecError> {
    var r := ConcatBe(p);
    if r.Err? then r else Ok(Slice(r.value, 0, 64))
  }

  function DecodeG1(bytes: Bytes): Result<seq<int>, CodecError> {
    if |bytes| < 64 then Err(PointTooShort)
    else Ok([BytesToFinite(Reverse(bytes[0..32])), BytesToFinite(Reverse(bytes[32..64])), 1])
  }

  function ConcatG2(p: seq<(int, int)>): Result<Bytes, CodecError> {
    if p == [] then Ok([])
    else
      var rest := ConcatG2(p[..|p| - 1]);
      if rest.Err? then rest
      else
        var (c0, c1) := p[|p| - 1];
        var b0 := FiniteToBytes(c0);
        if b0.Err? then b0
        else
          var b1 := FiniteToBytes(c1);
          if b1.Err? then b1 else Ok(rest.value + Reverse(b0.value + b1.value))
  }

  function EncodeG2(p: seq<(int, int)>): Result<Bytes, CodecError> {
    var r := ConcatG2(p);
    if r.Err? then r else Ok(Slice(r.value, 0, 128))
  }

  /** The limbs of one 64-byte chunk: the second coordinate of the pair comes first. */
  function DecodeChunk(bytes: Bytes, i: nat): (int, int) {
    var chunk := Reverse(Slice(bytes, i, i + 64));
    (BytesToFinite(Slice(chunk, 0, 32)), BytesToFinite(Slice(chunk, 32, 64)))
  }

  ghost function DecodeChunks(bytes: Bytes, i: nat): seq<(int, int)>
    decreases |bytes| - i
  {
    if i >= |bytes| then [] else [DecodeChunk(bytes, i)] + DecodeChunks(bytes, i + 64)
  }

  ghost function DecodedG2(bytes: Bytes): Result<seq<(int, int)>, CodecError> {
    if |bytes| < 128 then Err(PointTooShort) else Ok(DecodeChunks(bytes, 0) + [(1, 0)])
  }

  lemma NextChunk(bytes: Bytes, i: nat, front: seq<(int, int)>)
    requires i < |bytes|
    ensures front + DecodeChunks(bytes, i) == (front + [DecodeChunk(bytes, i)]) + DecodeChunks(bytes, i + 64)
  {
    hide DecodeChunk;
  }

  method DecodeG2(bytes: Bytes) returns (r: Result<seq<(int, int)>, CodecError>)
    ensures r == DecodedG2(bytes)
  {
    if |bytes| < 128 {
      return Err(PointTooShort);
    }
    var result := [];
    var i := 0;
    ghost var all := DecodeChunks(bytes, 0);
    while i < |bytes|
      invariant result + DecodeChunks(bytes, i) == all
      decreases |bytes| - i
    {
      var c := DecodeChunk(bytes, i);
      NextChunk(bytes, i, result);
      hide DecodeChunk, DecodeChunks;
      result := result + [c];
      i := i + 64;
    }
    assert result == all;
    r := Ok(result + [(1, 0)]);
  }

  /** `F1Field.neg`, which does not reduce its argument. */
  function FieldNeg(a: int): int {
    if a != 0 then FIELD_PRIME - a else a
  }

  /** `bigintToBytes(n, 32)`; a negative number has no base-16 digits. */
  function BigintToBytes(n: int): Result<Bytes, CodecError> {
    if n < 0 then Err(NotANumber)
    else if n < Pow(256, 32) then Ok(Reverse(LeBytes(n, 32)))
    else Err(NumberDoesNotFit)
  }

  function AltBn128G1Neg(input: Bytes): Result<Bytes, CodecError> {
    var y := Slice(input, 32, |input|);
    if y == [] then Err(NotANumber)
    else
      var n := BigintToBytes(FieldNeg(BeValue(y)));
      if n.Err? then n else Ok(Slice(input, 0, 32) + n.value)
  }

  predicate Fits(n: int) {
    0 <= n < Pow(256, 32)
  }

  predicate InBaseField(n: int) {
    0 <= n < FIELD_PRIME
  }

  /** The prime is a 254-bit number, so every coordinate fits a limb. */
  lemma PrimeFits()
    ensures FIELD_PRIME < Pow(256, 32)
  {
    PowAdd(256, 16, 16);
    PowAdd(256, 8, 8);
    PowAdd(256, 4, 4);
    PowAdd(256, 2, 2);
    assert Pow(256, 1) == 256 * Pow(256, 0);
    assert Pow(256, 2) == 65536;
    assert Pow(256, 4) == 0x1_0000_0000;
    assert Pow(256, 8) == 0x1_0000_0000_0000_0000;
    assert Pow(256, 16) == 0x1_0000_0000_0000_0000_0000_0000_0000_0000;
  }

  /** The limbs of an encoded G1 point. */
  lemma EncodeG1Limbs(x: int, y: int, z: int)
    requires Fits(x) && Fits(y) && Fits(z)
    ensures EncodeG1([x, y, z]) == Ok(Reverse(LeBytes(x, 32)) + Reverse(LeBytes(y, 32)))
  {
    hide Pow, LeBytes;
    var p := [x, y, z];
    assert p[..2] == [x, y] && [x, y][..1] == [x] && [x][..0] == [];
    var lx, ly, lz := Reverse(LeBytes(x, 32)), Reverse(LeBytes(y, 32)), Reverse(LeBytes(z, 32));
    assert ConcatBe([x]) == Ok([] + lx);
    assert ConcatBe([x, y]) == Ok([] + lx + ly);
    assert ConcatBe(p) == Ok([] + lx + ly + lz);
    assert Slice([] + lx + ly + lz, 0, 64) == lx + ly;
  }

  /** Encoding a point and decoding it gives the affine point back. */
  lemma G1RoundTrip(x: int, y: int, z: int)
    requires Fits(x) && Fits(y) && Fits(z)
    ensures EncodeG1([x, y, z]).Ok? && DecodeG1(EncodeG1([x, y, z]).value) == Ok([x, y, 1])
  {
    hide Pow, LeBytes;
    EncodeG1Limbs(x, y, z);
    var lx, ly := LeBytes(x, 32), LeBytes(y, 32);
    var b := Reverse(lx) + Reverse(ly);
    assert b[0..32] == Reverse(lx) && b[32..64] == Reverse(ly);
    ReverseTwice(lx);
    ReverseTwice(ly);
    LeValueOfBytes(x, 32);
    LeValueOfBytes(y, 32);
  }

  /** The 64 bytes of a pair of coordinates, the second one first. */
  function PairBytes(c0: int, c1: int): (r: Bytes)
    requires Fits(c0) && Fits(c1)
    ensures |r| == 64
  {
    Reverse(LeBytes(c0, 32) + LeBytes(c1, 32))
  }

  lemma ConcatG2Snoc(p: seq<(int, int)>, c0: int, c1: int)
    requires ConcatG2(p).Ok? && Fits(c0) && Fits(c1)
    ensures ConcatG2(p + [(c0, c1)]) == Ok(ConcatG2(p).value + PairBytes(c0, c1))
  {
    hide Pow, LeBytes;
    assert (p + [(c0, c1)])[..|p|] == p;
  }

  lemma EncodeG2Limbs(x0: int, x1: int, y0: int, y1: int, z0: int, z1: int)
    requires Fits(x0) && Fits(x1) && Fits(y0) && Fits(y1) && Fits(z0) && Fits(z1)
    ensures EncodeG2([(x0, x1), (y0, y1), (z0, z1)]) ==
      Ok(PairBytes(x0, x1) + PairBytes(y0, y1))
  {
    hide Pow, PairBytes;
    var p1, p2, p3 := [(x0, x1)], [(x0, x1), (y0, y1)], [(x0, x1), (y0, y1), (z0, z1)];
    assert [] + p1 == p1 && p1 + [(y0, y1)] == p2 && p2 + [(z0, z1)] == p3;
    ConcatG2Snoc([], x0, x1);
    ConcatG2Snoc(p1, y0, y1);
    ConcatG2Snoc(p2, z0, z1);
    hide ConcatG2;
    var l1 := PairBytes(x0, x1);
    assert [] + l1 == l1;
    var l2 := l1 + PairBytes(y0, y1);
    var l3 := l2 + PairBytes(z0, z1);
    assert ConcatG2(p3) == Ok(l3);
    assert l3[0..128] == l2;
  }

  lemma ReverseConcat<T>(a: seq<T>, b: seq<T>)
    ensures Reverse(a + b) == Reverse(b) + Reverse(a)
  {
  }

  lemma LimbValue(n: int)
    requires Fits(n)
    ensures BeValue(Reverse(LeBytes(n, 32))) == n
  {
    hide Pow;
    ReverseTwice(LeBytes(n, 32));
    LeValueOfBytes(n, 32);
  }

  /** On the wire each 32 bytes are a number big-endian: first x, then y. */
  lemma G1Wire(x: int, y: int, z: int)
    requires Fits(x) && Fits(y) && Fits(z)
    ensures EncodeG1([x, y, z]).Ok? && |EncodeG1([x, y, z]).value| == 64
    ensures var b := EncodeG1([x, y, z]).value; BeValue(b[0..32]) == x && BeValue(b[32..64]) == y
  {
    hide Pow, LeBytes, BeValue;
    EncodeG1Limbs(x, y, z);
    var b := EncodeG1([x, y, z]).value;
    assert b[0..32] == Reverse(LeBytes(x, 32)) && b[32..64] == Reverse(LeBytes(y, 32));
    LimbValue(x);
    LimbValue(y);
  }

  /** And of each coordinate of G2 the second number comes first. */
  lemma G2Wire(x0: int, x1: int, y0: int, y1: int, z0: int, z1: int)
    requires Fits(x0) && Fits(x1) && Fits(y0) && Fits(y1) && Fits(z0) && Fits(z1)
    ensures var e := EncodeG2([(x0, x1), (y0, y1), (z0, z1)]); e.Ok? && |e.value| == 128
    ensures var b := EncodeG2([(x0, x1), (y0, y1), (z0, z1)]).value;
      && BeValue(b[0..32]) == x1 && BeValue(b[32..64]) == x0
      && BeValue(b[64..96]) == y1 && BeValue(b[96..128]) == y0
  {
    hide Pow, LeBytes, BeValue, Reverse, EncodeG2;
    EncodeG2Limbs(x0, x1, y0, y1, z0, z1);
    var b := EncodeG2([(x0, x1), (y0, y1), (z0, z1)]).value;
    PairLimbs(x0, x1);
    PairLimbs(y0, y1);
    var lx, ly := PairBytes(x0, x1), PairBytes(y0, y1);
    hide PairBytes;
    assert b[0..32] == lx[0..32] && b[32..64] == lx[32..64];
    assert b[64..96] == ly[0..32] && b[96..128] == ly[32..64];
  }

  lemma PairLimbs(c0: int, c1: int)
    requires Fits(c0) && Fits(c1)
    ensures BeValue(PairBytes(c0, c1)[0..32]) == c1 && BeValue(PairBytes(c0, c1)[32..64]) == c0
  {
    hide Pow, LeBytes, BeValue;
    ReverseConcat(LeBytes(c0, 32), LeBytes(c1, 32));
    var b := PairBytes(c0, c1);
    assert b[0..32] == Reverse(LeBytes(c1, 32)) && b[32..64] == Reverse(LeBytes(c0, 32));
    LimbValue(c0);
    LimbValue(c1);
  }

  /** The numbers any 128 bytes are read as. */
  lemma G2Read(b: Bytes)
    requires |b| == 128
    ensures var x0, x1, y0, y1 := BeValue(b[32..64]), BeValue(b[0..32]), BeValue(b[96..128]), BeValue(b[64..96]);
      DecodedG2(b) == Ok([(x0, x1), (y0, y1), (1, 0)])
  {
    hide BeValue, Reverse, BytesToFinite;
    ChunkRead(b, 0);
    ChunkRead(b, 64);
    hide DecodeChunk;
    assert DecodeChunks(b, 128) == [];
    assert DecodeChunks(b, 64) == [DecodeChunk(b, 64)] + DecodeChunks(b, 128);
    assert DecodeChunks(b, 0) == [DecodeChunk(b, 0)] + DecodeChunks(b, 64);
    assert DecodeChunks(b, 0) + [(1, 0)] == [DecodeChunk(b, 0), DecodeChunk(b, 64), (1, 0)];
  }

  lemma ChunkRead(b: Bytes, i: nat)
    requires i + 64 <= |b|
    ensures DecodeChunk(b, i) == (BeValue(b[i + 32..i + 64]), BeValue(b[i..i + 32]))
  {
    var first, second := b[i..i + 32], b[i + 32..i + 64];
    var chunk := Reverse(Slice(b, i, i + 64));
    assert Slice(b, i, i + 64) == first + second;
    ReverseConcat(first, second);
    assert Slice(chunk, 0, 32) == Reverse(second) && Slice(chunk, 32, 64) == Reverse(first);
  }

  lemma ChunkRoundTrip(bytes: Bytes, i: nat, c0: int, c1: int)
    requires Fits(c0) && Fits(c1) && i + 64 <= |bytes|
    requires bytes[i..i + 64] == PairBytes(c0, c1)
    ensures DecodeChunk(bytes, i) == (c0, c1)
  {
    hide Pow, LeBytes;
    var b := LeBytes(c0, 32) + LeBytes(c1, 32);
    assert Slice(bytes, i, i + 64) == bytes[i..i + 64];
    ReverseTwice(b);
    assert Slice(b, 0, 32) == LeBytes(c0, 32) && Slice(b, 32, 64) == LeBytes(c1, 32);
    LeValueOfBytes(c0, 32);
    LeValueOfBytes(c1, 32);
  }

  lemma G2RoundTrip(x0: int, x1: int, y0: int, y1: int, z0: int, z1: int)
    requires Fits(x0) && Fits(x1) && Fits(y0) && Fits(y1) && Fits(z0) && Fits(z1)
    ensures var e := EncodeG2([(x0, x1), (y0, y1), (z0, z1)]);
      e.Ok? && DecodedG2(e.value) == Ok([(x0, x1), (y0, y1), (1, 0)])
  {
    hide Pow, LeBytes;
    EncodeG2Limbs(x0, x1, y0, y1, z0, z1);
    var lx, ly := PairBytes(x0, x1), PairBytes(y0, y1);
    var b := lx + ly;
    assert b[0..64] == lx && b[64..128] == ly;
    ChunkRoundTrip(b, 0, x0, x1);
    ChunkRoundTrip(b, 64, y0, y1);
    assert DecodeChunks(b, 128) == [];
    assert DecodeChunks(b, 64) == [DecodeChunk(b, 64)] + DecodeChunks(b, 128);
    assert DecodeChunks(b, 0) == [DecodeChunk(b, 0)] + DecodeChunks(b, 64);
    assert DecodeChunks(b, 0) + [(1, 0)] == [(x0, x1), (y0, y1), (1, 0)];
  }

  /**
   On an encoded point the byte negation is the negation of the curve: it
   encodes the point with the opposite second coordinate.
   */
  lemma NegationOfEncoded(x: int, y: int, z: int)
    requires Fits(x) && InBaseField(y) && Fits(z)
    ensures Fits(y) && Fits((-y) % FIELD_PRIME) && EncodeG1([x, y, z]).Ok?
    ensures AltBn128G1Neg(EncodeG1([x, y, z]).value) == EncodeG1([x, (-y) % FIELD_PRIME, z])
  {
    hide Pow, LeBytes, EncodeG1, AltBn128G1Neg;
    PrimeFits();
    EncodeG1Limbs(x, y, z);
    EncodeG1Limbs(x, (-y) % FIELD_PRIME, z);
    NegatedLimbs(Reverse(LeBytes(x, 32)), y);
    assert FieldNeg(y) == (-y) % FIELD_PRIME;
  }

  lemma NegatedLimbs(first: Bytes, y: int)
    requires |first| == 32 && InBaseField(y) && Fits(FieldNeg(y)) && Fits(y)
    ensures AltBn128G1Neg(first + Reverse(LeBytes(y, 32))) == Ok(first + Reverse(LeBytes(FieldNeg(y), 32)))
  {
    hide Pow, LeBytes;
    var second := Reverse(LeBytes(y, 32));
    var b := first + second;
    assert Slice(b, 32, |b|) == second && Slice(b, 0, 32) == first;
    ReverseTwice(LeBytes(y, 32));
    LeValueOfBytes(y, 32);
    assert BeValue(second) == y;
  }

  /** The byte negation succeeds exactly on second coordinates up to the prime. */
  lemma NegationDefined(b: Bytes)
    requires |b| == 64
    ensures AltBn128G1Neg(b).Ok? <==> BeValue(b[32..]) <= FIELD_PRIME
    ensures AltBn128G1Neg(b).Ok? ==>
      var r, y := AltBn128G1Neg(b).value, BeValue(b[32..]);
      |r| == 64 && r[..32] == b[..32] && BeValue(r[32..]) == if y == 0 then 0 else FIELD_PRIME - y
  {
    hide Pow, BeValue;
    PrimeFits();
    assert Slice(b, 32, 64) == b[32..] && Slice(b, 0, 32) == b[..32];
    var n := FieldNeg(BeValue(b[32..]));
    if 0 <= n < Pow(256, 32) {
      LimbValue(n);
      var second := Reverse(LeBytes(n, 32));
      assert (b[..32] + second)[32..] == second && (b[..32] + second)[..32] == b[..32];
    }
  }

  // ------------------------------------------------------------- proofs

  datatype ProofData = ProofData(piA: seq<int>, piB: seq<(int, int)>, piC: seq<int>)

  datatype EncodedProof = EncodedProof(a: Bytes, b: Bytes, c: Bytes)

  function EncodeProof(d: ProofData): Result<EncodedProof, CodecError> {
    var e := EncodeG1(d.piA);
    if e.Err? then Err(e.error)
    else
      var a := AltBn128G1Neg(e.value);
      if a.Err? then Err(a.error)
      else
        var b := EncodeG2(d.piB);
        if b.Err? then Err(b.error)
        else
          var c := EncodeG1(d.piC);
          if c.Err? then Err(c.error) else Ok(EncodedProof(a.value, b.value, c.value))
  }

  ghost function DecodedProof(e: EncodedProof): Result<ProofData, CodecError> {
    var n := AltBn128G1Neg(e.a);
    if n.Err? then Err(n.error)
    else
      var a := DecodeG1(n.value);
      if a.Err? then Err(a.error)
      else
        var b := DecodedG2(e.b);
        if b.Err? then Err(b.error)
        else
          var c := DecodeG1(e.c);
          if c.Err? then Err(c.error) else Ok(ProofData(a.value, b.value, c.value))
  }

  method DecodeProof(e: EncodedProof) returns (r: Result<ProofData, CodecError>)
    ensures r == DecodedProof(e)
  {
    var n := AltBn128G1Neg(e.a);
    if n.Err? { return Err(n.error); }
    var a := DecodeG1(n.value);
    if a.Err? { return Err(a.error); }
    var b := DecodeG2(e.b);
    if b.Err? { return Err(b.error); }
    var c := DecodeG1(e.c);
    if c.Err? { return Err(c.error); }
    r := Ok(ProofData(a.value, b.value, c.value));
  }

  /** An affine point of G1 as snarkjs writes it. */
  predicate AffineG1(p: seq<int>) {
    |p| == 3 && InBaseField(p[0]) && InBaseField(p[1]) && p[2] == 1
  }

  predicate AffineG2(p: seq<(int, int)>) {
    && |p| == 3
    && InBaseField(p[0].0) && InBaseField(p[0].1) && InBaseField(p[1].0) && InBaseField(p[1].1)
    && p[2] == (1, 0)
  }

  lemma AffineG1RoundTrip(p: seq<int>)
    requires AffineG1(p)
    ensures EncodeG1(p).Ok? && DecodeG1(EncodeG1(p).value) == Ok(p)
  {
    PrimeFits();
    assert p == [p[0], p[1], p[2]];
    G1RoundTrip(p[0], p[1], p[2]);
  }

  lemma AffineG2RoundTrip(p: seq<(int, int)>)
    requires AffineG2(p)
    ensures EncodeG2(p).Ok? && DecodedG2(EncodeG2(p).value) == Ok(p)
  {
    PrimeFits();
    assert p == [(p[0].0, p[0].1), (p[1].0, p[1].1), (p[2].0, p[2].1)];
    G2RoundTrip(p[0].0, p[0].1, p[1].0, p[1].1, p[2].0, p[2].1);
  }

  /** What the client sends for a proof: A with its second coordinate negated, and B and C as they are. */
  lemma EncodedProofParts(d: ProofData)
    requires AffineG1(d.piA) && AffineG2(d.piB) && AffineG1(d.piC)
    ensures AffineG1([d.piA[0], (-d.piA[1]) % FIELD_PRIME, 1])
    ensures EncodeG1([d.piA[0], (-d.piA[1]) % FIELD_PRIME, 1]).Ok? && EncodeG2(d.piB).Ok? && EncodeG1(d.piC).Ok?
    ensures EncodeProof(d) == Ok(EncodedProof(EncodeG1([d.piA[0], (-d.piA[1]) % FIELD_PRIME, 1]).value,
                                              EncodeG2(d.piB).value, EncodeG1(d.piC).value))
  {
    hide EncodeG1, EncodeG2, DecodeG1, DecodedG2, AltBn128G1Neg;
    var x, y := d.piA[0], d.piA[1];
    assert d.piA == [x, y, 1];
    PrimeFits();
    NegationOfEncoded(x, y, 1);
    AffineG1RoundTrip([x, (-y) % FIELD_PRIME, 1]);
    AffineG1RoundTrip(d.piC);
    AffineG2RoundTrip(d.piB);
  }

  /** Decoding an encoded proof returns it, the negation of A undone. */
  lemma ProofRoundTrip(d: ProofData)
    requires AffineG1(d.piA) && AffineG2(d.piB) && AffineG1(d.piC)
    ensures EncodeProof(d).Ok? && DecodedProof(EncodeProof(d).value) == Ok(d)
  {
    hide EncodeG1, EncodeG2, DecodeG1, DecodedG2, AltBn128G1Neg, FieldNeg, AffineG1, AffineG2;
    NegatedRoundTrip(d.piA);
    AffineG1RoundTrip(d.piC);
    AffineG2RoundTrip(d.piB);
  }

  lemma NegatedTwice(p: int, y: int)
    requires p > 0 && 0 <= y < p
    ensures (-((-y) % p)) % p == y
  {
    if y == 0 {
      DivModUnique(p, 0, 0, 0);
    } else {
      DivModUnique(p, -y, -1, p - y);
      DivModUnique(p, y - p, -1, y);
    }
  }

  /** The first point goes out negated and comes back. */
  lemma NegatedRoundTrip(a: seq<int>)
    requires AffineG1(a)
    ensures EncodeG1(a).Ok? && AltBn128G1Neg(EncodeG1(a).value).Ok?
    ensures AltBn128G1Neg(AltBn128G1Neg(EncodeG1(a).value).value) == EncodeG1(a)
    ensures DecodeG1(EncodeG1(a).value) == Ok(a)
  {
    hide EncodeG1, DecodeG1, AltBn128G1Neg;
    var x, y := a[0], a[1];
    assert a == [x, y, 1];
    PrimeFits();
    NegationOfEncoded(x, y, 1);
    NegationOfEncoded(x, (-y) % FIELD_PRIME, 1);
    NegatedTwice(FIELD_PRIME, y);
    AffineG1RoundTrip(a);
    AffineG1RoundTrip([x, (-y) % FIELD_PRIME, 1]);
  }

  // ------------------------------------------------------ verifying keys

  datatype VerifyingKey = VerifyingKey(
    curve: string, protocol: string, nPublic: int,
    alpha: seq<int>, beta: seq<(int, int)>, gamma: seq<(int, int)>, delta: seq<(int, int)>, ic: seq<seq<int>>)

  datatype EncodedKey = EncodedKey(
    curve: Option<string>, protocol: Option<string>, nPublic: int,
    alpha: Bytes, beta: Bytes, gamma: Bytes, delta: Bytes, ic: seq<Bytes>)

  function EncodeIc(ic: seq<seq<int>>): Result<seq<Bytes>, CodecError> {
    if ic == [] then Ok([])
    else
      var rest := EncodeIc(ic[..|ic| - 1]);
      if rest.Err? then rest
      else
        var p := EncodeG1(ic[|ic| - 1]);
        if p.Err? then Err(p.error) else Ok(rest.value + [p.value])
  }

  function DecodeIc(ic: seq<Bytes>): Result<seq<seq<int>>, CodecError> {
    if ic == [] then Ok([])
    else
      var rest := DecodeIc(ic[..|ic| - 1]);
      if rest.Err? then rest
      else
        var p := DecodeG1(ic[|ic| - 1]);
        if p.Err? then Err(p.error) else Ok(rest.value + [p.value])
  }

  /** The encoded key carries the curve and the stated number of inputs, but not the protocol. */
  function EncodeVerifyingKey(k: VerifyingKey): Result<EncodedKey, CodecError> {
    var a, b, g, d, ic := EncodeG1(k.alpha), EncodeG2(k.beta), EncodeG2(k.gamma), EncodeG2(k.delta), EncodeIc(k.ic);
    if a.Err? then Err(a.error)
    else if b.Err? then Err(b.error)
    else if g.Err? then Err(g.error)
    else if d.Err? then Err(d.error)
    else if ic.Err? then Err(ic.error)
    else Ok(EncodedKey(Some(k.curve), None, k.nPublic, a.value, b.value, g.value, d.value, ic.value))
  }

  ghost function DecodedVerifyingKey(e: EncodedKey): Result<VerifyingKey, CodecError> {
    var a, b, g, d, ic := DecodeG1(e.alpha), DecodedG2(e.beta), DecodedG2(e.gamma), DecodedG2(e.delta), DecodeIc(e.ic);
    if a.Err? then Err(a.error)
    else if b.Err? then Err(b.error)
    else if g.Err? then Err(g.error)
    else if d.Err? then Err(d.error)
    else if ic.Err? then Err(ic.error)
    else Ok(VerifyingKey(
      if e.curve.Some? then e.curve.value else "bn128",
      if e.protocol.Some? then e.protocol.value else "groth16",
      |e.ic| - 1, a.value, b.value, g.value, d.value, ic.value))
  }

  lemma {:induction false} IcRoundTrip(ic: seq<seq<int>>)
    requires forall k :: 0 <= k < |ic| ==> AffineG1(ic[k])
    ensures EncodeIc(ic).Ok? && |EncodeIc(ic).value| == |ic| && DecodeIc(EncodeIc(ic).value) == Ok(ic)
  {
    if ic != [] {
      hide EncodeG1, DecodeG1;
      var n := |ic| - 1;
      IcRoundTrip(ic[..n]);
      AffineG1RoundTrip(ic[n]);
      var e := EncodeIc(ic[..n]).value;
      assert (e + [EncodeG1(ic[n]).value])[..n] == e;
      assert ic == ic[..n] + [ic[n]];
    }
  }

  /** A key comes back with the default protocol and its number of inputs counted from its points. */
  lemma VerifyingKeyRoundTrip(k: VerifyingKey)
    requires AffineG1(k.alpha) && AffineG2(k.beta) && AffineG2(k.gamma) && AffineG2(k.delta)
    requires forall i :: 0 <= i < |k.ic| ==> AffineG1(k.ic[i])
    ensures EncodeVerifyingKey(k).Ok?
    ensures DecodedVerifyingKey(EncodeVerifyingKey(k).value) == Ok(k.(protocol := "groth16", nPublic := |k.ic| - 1))
  {
    hide EncodeG1, EncodeG2, DecodeG1, DecodedG2, EncodeIc, DecodeIc;
    AffineG1RoundTrip(k.alpha);
    AffineG2RoundTrip(k.beta);
    AffineG2RoundTrip(k.gamma);
    AffineG2RoundTrip(k.delta);
    IcRoundTrip(k.ic);
  }

  // ------------------------------------------------------- public signals

  method EncodePublicSignals(signals: seq<int>) returns (r: Result<seq<Bytes>, CodecError>)
    ensures r.Ok? <==> forall i :: 0 <= i < |signals| ==> Fits(signals[i])
    ensures r.Ok? ==> |r.value| == |signals|
    ensures r.Ok? ==> forall i :: 0 <= i < |signals| ==> |r.value[i]| == 32 && BeValue(r.value[i]) == signals[i]
  {
    hide Pow;
    var out := [];
    for i := 0 to |signals|
      invariant |out| == i
      invariant forall j :: 0 <= j < i ==> Fits(signals[j]) && |out[j]| == 32 && BeValue(out[j]) == signals[j]
    {
      var b := FiniteToBytes(signals[i]);
      if b.Err? { return Err(b.error); }
      ReverseTwice(b.value);
      LeValueOfBytes(signals[i], 32);
      out := out + [Reverse(b.value)];
    }
    r := Ok(out);
  }

  method ReverseInPlace(a: array<Byte>)
    modifies a
    ensures a[..] == Reverse(old(a[..]))
  {
    var n := a.Length;
    for i := 0 to n / 2
      invariant forall k :: 0 <= k < n ==>
        a[k] == if k < i || n - i <= k then old(a[n - 1 - k]) else old(a[k])
    {
      a[i], a[n - 1 - i] := a[n - 1 - i], a[i];
    }
  }

  /** How often an array occurs among the first k. */
  function Occurrences(signals: seq<array<Byte>>, a: array<Byte>, k: nat): nat
    requires k <= |signals|
  {
    if k == 0 then 0 else Occurrences(signals, a, k - 1) + if signals[k - 1] == a then 1 else 0
  }

  /** Reversed n times. */
  function Turned(b: Bytes, n: nat): Bytes {
    if n % 2 == 0 then b else Reverse(b)
  }

  lemma TurnedOnce(b: Bytes, n: nat)
    ensures Reverse(Turned(b, n)) == Turned(b, n + 1)
  {
    ReverseTwice(b);
    hide Reverse;
    assert (n + 1) % 2 == 1 - n % 2;
  }

  lemma OccurrencesStep(signals: seq<array<Byte>>, k: nat)
    requires k < |signals|
    ensures forall i :: 0 <= i < |signals| ==>
      Occurrences(signals, signals[i], k + 1)
        == Occurrences(signals, signals[i], k) + if signals[i] == signals[k] then 1 else 0
  {
  }

  /** Reads each signal as it then stands, and reverses the caller's array each time it occurs. */
  method DecodePublicSignals(signals: seq<array<Byte>>) returns (r: seq<nat>)
    modifies set a | a in signals
    ensures |r| == |signals|
    ensures forall i :: 0 <= i < |signals| ==>
      r[i] == BeValue(Turned(old(signals[i][..]), Occurrences(signals, signals[i], i)))
    ensures forall i :: 0 <= i < |signals| ==>
      signals[i][..] == Turned(old(signals[i][..]), Occurrences(signals, signals[i], |signals|))
  {
    hide Reverse, Turned, BeValue, Occurrences, BytesToFinite;
    r := [];
    forall i | 0 <= i < |signals|
      ensures Turned(signals[i][..], Occurrences(signals, signals[i], 0)) == signals[i][..]
    {
      NotTurned(signals, signals[i], signals[i][..]);
    }
    for k := 0 to |signals|
      invariant |r| == k
      invariant forall i :: 0 <= i < k ==>
        r[i] == BeValue(Turned(old(signals[i][..]), Occurrences(signals, signals[i], i)))
      invariant forall i :: 0 <= i < |signals| ==>
        signals[i][..] == Turned(old(signals[i][..]), Occurrences(signals, signals[i], k))
    {
      var a := signals[k];
      ghost var n := Occurrences(signals, a, k);
      ReadReversed(a[..]);
      TurnedOnce(old(a[..]), n);
      OccurrencesStep(signals, k);
      ReverseInPlace(a);
      r := r + [BytesToFinite(a[..])];
    }
  }

  lemma NotTurned(signals: seq<array<Byte>>, a: array<Byte>, b: Bytes)
    ensures Turned(b, Occurrences(signals, a, 0)) == b
  {
  }

  lemma ReadReversed(b: Bytes)
    ensures BytesToFinite(Reverse(b)) == BeValue(b)
  {
  }

  /** Arrays that occur once are read as they were, and left reversed. */
  lemma {:induction false} OccursOnce(signals: seq<array<Byte>>, i: nat, k: nat)
    requires i < |signals| && k <= |signals|
    requires forall j :: 0 <= j < |signals| && j != i ==> signals[j] != signals[i]
    ensures Occurrences(signals, signals[i], k) == if k <= i then 0 else 1
  {
    if k > 0 { OccursOnce(signals, i, k - 1); }
  }

  /**
   Because decoding reverses its argument, decoding the same arrays twice gives
   the same value if and only if the bytes read the same both ways.
   */
  lemma SecondDecode(b: Bytes)
    ensures BeValue(Reverse(b)) == BeValue(b) <==> b == Reverse(b)
  {
    ReverseTwice(b);
    if BeValue(Reverse(b)) == BeValue(b) { LeValueInjective(Reverse(b), b); }
  }

  lemma SecondDecodeOfOne()
    ensures BeValue([0, 1]) == 1 && BeValue(Reverse([0, 1])) == 256
  {
    assert Reverse([0, 1]) == [1, 0] && Reverse([1, 0]) == [0, 1];
    assert LeValue([0]) == 0 && LeValue([1]) == 1;
  }
}
