# Verification of the Albus proof system and stake pool

This project models three parts of the repository in Dafny and proves what they
are for.

**The Groth16 crate** (`crates/groth16`). The in-place radix-2 transform and its
inverse and coset variants, the recording of a circuit and its transposition into
a QAP, the quotient polynomial, proof assembly and the verifier. Field elements
are integers modulo a prime; a group element is the scalar it is a multiple of
the generator by, and the pairing multiplies scalars. The main results are that
the transform is the discrete Fourier transform, that the vector the prover
computes is the exact quotient if and only if every constraint holds, that the
verifier accepts a proof if and only if the polynomial identity holds at the
trapdoor, and from these perfect completeness, zero knowledge, and knowledge soundness
against affine provers (section 3.2 of Groth, "On the Size of Pairing-Based
Non-interactive Arguments", EUROCRYPT 2016).

**The bridge to the chain** (`packages/albus-core/src/zkp.ts`,
`crates/groth16-solana`). Round trips of the byte formats and the order of their limbs,
and agreement of the on-chain verifier, which checks one product of four pairings on a
negated A, with the direct one: over the bytes the client sends, it accepts exactly the
proofs the direct verifier accepts (`Client.SendAndVerify`).

**The stake pool program** (`programs/albus-stake-pool`). The byte-packed vector,
the fixed-point arithmetic, the delayed fees, and the instructions as methods of a
class that holds the pool, the validator list, the accounts and the pool token. The
invariant `Inv` says that the books balance (reserve plus recorded lamports equal
the pool's total plus the reserve's minimum), that every record equals its accounts
and no lamports are elsewhere, that votes are distinct and the list fits its
account, that the mint's supply is the sum of all holdings and at most the recorded
one, and that no fee exceeds one.

Each instruction is specified by the exact condition under which it succeeds (such as
`Increasable` or `SolWithdrawable`), the whole state it leaves, and that a failure leaves
the state as it was.

What is said of the list and of the tokens holds in every state a pool can reach from
its initialisation, over any number of epochs, with update steps, clean-ups, failed
instructions, arbitrary changes of the lamport accounts from outside, and burns and
transfers that holders of pool tokens make on their own (`Runs.Lifetime`). The recorded
supply exceeds the mint's by exactly what holders burnt since the last balance update
(`Runs.SupplyOverRuns`). The rest of `Inv`, the balance of the books, is kept by each
instruction if and only if a guard that can be read before the call holds: an update
step must miss no lamports (`EpochUpdate.Missing`), the clean-up must drop none, and a
withdrawal of SOL must not be paid into one of the pool's own accounts; all other
instructions keep it always (`Runs.Process`). From outside, it is kept if and only if
the pool's own accounts keep their lamports. The value of a token never falls over any
run with positive supply, unless a balance update finds fewer lamports.

Proofs over the field avoid `%`: congruence is an explicit multiple (`Modular.Cong`),
so that only integer identities reach the solver.

| file | content |
|---|---|
| Modular, Polynomials, Dft | congruences, coefficient vectors, the transform as mathematics |
| Fft | `poly.rs`: the loops over arrays, the inverses, the choice of the domain |
| Quotient | the quotient block of `prover.rs` |
| Circuit, Synthesis | `lib.rs`: grouping by variable, the recorder, the two extractions |
| Prover, Verifier | `prover.rs`, `verifier.rs`, and the on-chain verifier |
| Completeness | from circuit to verdict |
| Argument | false statements, and what a proof hides |
| Knowledge | what a prover must know, by comparing coefficients |
| LittleEndian, Zkp | the client's byte formats |
| Client | from the client's bytes to the verdict on chain |
| BigVec | `big_vec.rs` over a byte buffer |
| StakeState, SharePrice, FeeGrowth | `state.rs`: amounts, prices, fees |
| StakeProgram | the stake, system and token programs as moves of lamports and tokens |
| ValidatorList, Books | the list, and its agreement with the accounts |
| EpochUpdate | one record's update, the update steps and the client's chunks |
| Processor | the instructions and the whole epoch update |
| Runs | the dispatch of instructions, and runs over many epochs |

`dafny verify dfyconfig.toml` checks the whole project.

## Findings

The proofs follow the code where it differs from what its documentation says.

- A withdrawal fee check whose second product overflows 128 bits accepts any
  increase, and one whose first product alone overflows refuses an unchanged fee
  (`state.rs:976-984` compares two Options; the comment promises a failure). The
  exact set is `FeeGrowth.AcceptedIff`; the bound on growth holds for terms up to
  2^63 and fails without it (`FeeGrowth.LargeTermsJump`).
- A whole-account withdrawal marks the record for removal although its transient
  stake was only compared with a threshold (`processor.rs:3243-3258`), and the
  clean-up then drops that stake from the books (`Processor.RemovalStrandsTransientStake`,
  `Processor.StrandingHappens`). The clean-up keeps the books if and only if the
  dropped records hold nothing.
- A pool can have tokens but no lamports: when its only validator is removed, the update
  of the same epoch records the cooling stake as zero (`processor.rs:2489-2512`,
  `Processor.ZeroTotalArises`). Deposits are still accepted, and `state.rs:172-174` mints
  the first one for one, so that splitting a deposit can gain tokens, by a factor of
  3_282_881 in `SharePrice.SplitDepositGains`. It gains in no other state, and in this one
  under an exact condition on the two parts (`SharePrice.SplitDepositGainsIff`).
- In a pool with lamports but no tokens the next depositor gets all of them; only there
  does a deposit withdrawn again pay out more (`SharePrice.DepositWithdrawGainsIff`).
- The recorded supply is the mint's only until a holder burns tokens without the pool;
  the next balance update reads it again (`processor.rs:2670-2674`).
- A withdrawal of SOL may name any account as its target (`processor.rs:3577-3587`); with
  one of the pool's own the total falls although the lamports stay with the pool
  (`Books.PaymentKeepsBooksIff`, `Processor.ReserveTargetUnbalances`).
- A refused `push` has already raised the length prefix (`big_vec.rs:136-141`). On
  chain the failed transaction undoes this, and below the maximum number of
  validators it never happens.
- `decodePublicSignals` reverses the caller's arrays, so a second call on the same
  arrays reads other values (`Zkp.SecondDecode`).
- A verifying key loses its protocol and its count of inputs on the way through
  the byte format (`Zkp.VerifyingKeyRoundTrip`).
- `fft_params` returns a root of the right order if and only if the exponent is at
  most S; beyond that it returns the unchanged root of unity.

## Model

| member | source | states |
|---|---|---|
| Fft.BitReverse | crates/groth16/src/poly.rs:24-31 | the shift loop computes the index with its low bits reversed |
| Fft.BitRevInvolution | crates/groth16/src/poly.rs:24-41 | reversing the bits twice gives the index back, so swapping only when `k < rk` moves every entry once |
| Fft.RevPermAt | crates/groth16/src/poly.rs:36-41 | the even/odd decomposition of a vector is the permutation by reversed indices |
| Fft.BitReversePermute | crates/groth16/src/poly.rs:36-41 | the swap loop leaves in place exactly that permutation of the array |
| Dft.TransformSplit | crates/groth16/src/poly.rs:43-63 | the discrete Fourier transform is one butterfly layer over the transforms of the even and the odd entries, when half a turn of the root is -1 |
| Dft.ExactOrderIffHalfTurn | crates/groth16/src/poly.rs:23-64 | a root has order exactly 2^e if and only if its power 2^(e-1) is -1 |
| Fft.ButterflyBlock | crates/groth16/src/poly.rs:47-60 | the innermost loop replaces one block of the array by its butterfly layer and leaves the rest |
| Fft.ButterflyStage | crates/groth16/src/poly.rs:44-63 | one pass of the middle loop does all blocks |
| Fft.NetworkIsTransform | crates/groth16/src/poly.rs:36-63 | bit reversal followed by all passes is the transform, whatever the vector |
| Fft.Fft | crates/groth16/src/poly.rs:23-64 | in place: a[k] becomes the sum of a0[j] * omega^(j k), for every length 2^exp and every root whose half turn is -1 |
| Fft.Ifft | crates/groth16/src/poly.rs:66-72 | in place: 1/n times the transform at the inverse root |
| Fft.SubEvalDomain | crates/groth16/src/poly.rs:74-79 | in place: the entrywise difference |
| Fft.CosetFft | crates/groth16/src/poly.rs:81-89 | in place: the values on the coset g * omega^k |
| Fft.IcosetFft | crates/groth16/src/poly.rs:91-99 | in place: the inverse on the coset |
| Fft.IfftUndoesFft | crates/groth16/src/poly.rs:66-72 | inverse after transform and transform after inverse are the identity on every field vector of length 2^e |
| Fft.IcosetFftUndoesCosetFft | crates/groth16/src/poly.rs:81-99 | the same on the coset, both ways round |
| Fft.FftParams | crates/groth16/src/poly.rs:6-21 | the least power of two at or above l, and the root for it, which has exactly that order if and only if the exponent is at most S |
| Fft.DomainRootOrder | crates/groth16/src/poly.rs:15-18 | repeated squaring of the root of unity gives order exactly 2^exp if and only if exp <= S |
| Fft.SmallField | crates/groth16/src/poly.rs:15-18 | the assumptions on the field are met by an actual field |
| Quotient.ExactQuotient | crates/groth16/src/prover.rs:41-71 | the vector left by the coset steps is H with H * (X^m - 1) = A * B - C, coefficient for coefficient, if and only if every constraint holds; its last entry is then zero |
| Quotient.NoRemainder | crates/groth16/src/prover.rs:51-67 | a polynomial that vanishes on the domain leaves no remainder modulo X^m - 1 |
| Quotient.EvalNumerator | crates/groth16/src/prover.rs:51-54 | the padded coefficient vector is A * B - C at every point |
| Circuit.GroupTerms | crates/groth16/src/lib.rs:114-137 | the map holds exactly the nonempty groups of the triples, in recording order, and the list exactly its keys, without repetition |
| Circuit.Collect | crates/groth16/src/lib.rs:114-141 | the entries in whatever order the map yields them; the constraint list sorted, distinct, and exactly the keys |
| Circuit.KeyListUnique | crates/groth16/src/lib.rs:138-140 | the sorted constraint list is the same whatever order the map yields |
| Circuit.TranspositionPreservesRows | crates/groth16/src/lib.rs:113-155 | grouping by variable preserves meaning: in any order of the groups each row adds up to the value of that constraint's linear combination |
| Circuit.KeyListCovers | crates/groth16/src/lib.rs:69-72 | the constraint lists are distinct valid variables and cover every variable with a term |
| Synthesis.AnalyzeCircuit.AllocAux | crates/groth16/src/lib.rs:183-194 | the next auxiliary variable; only when extracting does the witness closure run, and its failure changes nothing else |
| Synthesis.AnalyzeCircuit.AllocInput | crates/groth16/src/lib.rs:196-207 | the same for a public input |
| Synthesis.AnalyzeCircuit.Enforce | crates/groth16/src/lib.rs:209-243 | the triples of the three linear combinations are recorded under the new constraint's number |
| Synthesis.AnalyzeCircuit.Qap | crates/groth16/src/lib.rs:113-155 | the QAP transposes the recorded constraints |
| Synthesis.RecordedRow | crates/groth16/src/lib.rs:217-242 | row u of the recorded triples is the value of constraint u under every assignment, and rows beyond the last are zero |
| Synthesis.InputRowIsInput | crates/groth16/src/lib.rs:274-281 | under every assignment the row the extractions add for input i is that input on side A and zero on sides B and C |
| Synthesis.ExtractAssignments | crates/groth16/src/lib.rs:262-283 | succeeds exactly when every witness closure does; the system is the circuit's constraints followed by the row of each input (`InputRowIsInput`), the assignments are the closures' values after a leading one |
| Synthesis.ExtractCircuit | crates/groth16/src/lib.rs:285-308 | the QAP of the same system, no closure run; every public input, the leading one included, is in the constraint list of side A and has coefficient 1 in a row of its own |
| Synthesis.SystemHoldsIff | crates/groth16/src/lib.rs:274-281 | the added input rows always hold, so the recorded system holds exactly when the circuit's own constraints do |
| Prover.EvalGroups | crates/groth16/src/prover.rs:19-39 | the nested `eval` leaves in output[u] the sum over all groups of value times coefficient in row u |
| Prover.CosetMulAssign | crates/groth16/src/poly.rs:101-116 | both factors interpolated, moved to the coset and multiplied there |
| Prover.ProverQuotientIsQuotient | crates/groth16/src/prover.rs:41-67 | on a field with a domain of that size, the prover's coefficients are the quotient vector of the rows of the QAP, reduced |
| Prover.QuotientCoefficients | crates/groth16/src/prover.rs:41-67 | for any number of constraints the `h` block leaves what its transforms compute with the root `fft_params` returned, of whatever order, and gives up exactly when g^m - 1 has no inverse, which on a field with such a domain never happens |
| Prover.CreateProof | crates/groth16/src/prover.rs:10-140 | there is a proof exactly when the asserted lengths agree, the H query is long enough and g^m - 1 is invertible; it satisfies the equations of section 3.2 of Groth's paper for the quotient computed, the assignment, and r and s |
| Prover.Assemble | crates/groth16/src/prover.rs:115-139 | the three accumulations add up to those equations |
| Verifier.AccumulateInputs | crates/groth16/src/verifier.rs:17-21 | the loop is ic[0] plus the sum of input_i * ic[i+1] |
| Verifier.VerifyProof | crates/groth16/src/verifier.rs:8-38 | accepts exactly when the lengths fit and the pairing equation holds; the wrong-length error exactly for a wrong length |
| Verifier.Groth16Verifier.New | crates/groth16-solana/src/lib.rs:95-107 | refuses exactly the wrong number of inputs |
| Verifier.Groth16Verifier.Verify | crates/groth16-solana/src/lib.rs:109-147 | a bad encoding anywhere is the syscall's error; otherwise accepts exactly when the product of the four pairings is one |
| Verifier.VerifiersAgree | crates/groth16-solana/src/lib.rs:109-147 | with A negated, the four-term product is one exactly when `verify_proof` accepts the original, for every number of inputs |
| Completeness.EveryTrapdoorHasParameters | crates/groth16/src/lib.rs:26-61 | parameters with the meaning the comments give exist for every trapdoor with invertible gamma and delta |
| Completeness.BlindingCancels | crates/groth16/src/prover.rs:115-133 | the r and s terms of a, b and c cancel in a * b - c * delta |
| Completeness.AcceptedIffIdentity | crates/groth16/src/verifier.rs:8-38 | the verifier accepts what the prover returns if and only if A * B - C - H * Z vanishes at the trapdoor, for every assignment with first input one |
| Completeness.TruncateDropsZero | crates/groth16/src/prover.rs:71 | for a satisfying assignment `truncate` drops a zero |
| Completeness.PerfectCompleteness | crates/groth16/src/prover.rs:10-140 | every proof from a satisfying assignment is accepted, for every trapdoor and all r and s |
| Completeness.ProveThenVerify | crates/groth16/src/verifier.rs:8-38 | `create_proof` never gives up on parameters made for the circuit; followed by `verify_proof` on inputs[1..] it is accepted when the assignment satisfies the system, and exactly when the identity holds at the trapdoor |
| Completeness.ParametersServeAll | crates/groth16/src/lib.rs:26-61 | one set of parameters serves every extraction of a circuit's QAP, in whatever order its groups come out |
| Completeness.ProveCircuit | crates/groth16/src/lib.rs:262-308 | extraction, proof and verification in sequence: a circuit whose witnesses satisfy its own constraints is accepted, with parameters from any extraction of the same circuit |
| Argument.FewPointsFoolTheIdentity | crates/groth16/src/prover.rs:41-71 | for an assignment that breaks a constraint, the identity with the quotient the prover computes holds at fewer than 2 m - 1 points of the field |
| Argument.FalseStatementRarelyAccepted | crates/groth16/src/verifier.rs:8-38 | the prover's own proofs from such an assignment are accepted for fewer than 2 m - 1 values of tau, whatever the rest of the trapdoor, the parameters and the blinding |
| Argument.WitnessHidden | crates/groth16/src/prover.rs:115-133 | a proof made from one satisfying assignment is also made from every other with the same public inputs, with r and s shifted by amounts that do not depend on them |
| Argument.AcceptedIffMade | crates/groth16/src/verifier.rs:8-38 | for a satisfying assignment, the proofs the verifier accepts on its public inputs are exactly those the prover makes from it with some r and s |
| Argument.SameProofs | crates/groth16/src/prover.rs:115-133 | two such assignments have the same set of proofs over all r and s |
| Argument.BlindingUnique | crates/groth16/src/prover.rs:115-133 | a proof comes from one r and one s only, modulo p |
| Argument.SimulatedIsMade | crates/groth16/src/prover.rs:115-133 | zero knowledge: a proof computed from the scalars behind the key and any first two elements, without an assignment, is one the prover makes from every satisfying assignment |
| Argument.MadeIsSimulated | crates/groth16/src/prover.rs:115-133 | and every proof the prover makes from one is the simulated proof of its first two elements |
| Knowledge.AcceptedIffConvinces | crates/groth16/src/verifier.rs:8-38 | elements combined from those of the key are accepted exactly when the pairing equation holds of the combination at the trapdoor |
| Knowledge.StrategyWithoutWitnessFails | crates/groth16/src/verifier.rs:8-38 | knowledge soundness against affine provers: if the coefficients of the L query in c, behind the public inputs, are not a satisfying assignment, the combination is accepted for all alpha, beta, gamma and delta at fewer than 2 m points tau, for an H query of at most m - 1 points |
| Knowledge.StrategyIffWitness | crates/groth16/src/lib.rs:26-61 | on 2 m points or more, public inputs have a combination that is always accepted if and only if they have a satisfying assignment |
| Zkp.G1RoundTrip | packages/albus-core/src/zkp.ts:191-210 | a decoded encoded G1 point is the point |
| Zkp.G1Wire | packages/albus-core/src/zkp.ts:191-199 | on the wire the first 32 bytes are x big-endian, the next y |
| Zkp.G2Wire | packages/albus-core/src/zkp.ts:201-203 | of each coordinate of G2 the second number comes first, each 32 bytes big-endian |
| Zkp.G2Read | packages/albus-core/src/zkp.ts:212-223 | the numbers any 128 bytes are read as |
| Zkp.G2RoundTrip | packages/albus-core/src/zkp.ts:201-223 | the same for G2, with the two limbs of a coordinate swapped on the wire |
| Zkp.DecodeG2 | packages/albus-core/src/zkp.ts:212-223 | the loop over 64-byte chunks, short input refused |
| Zkp.NegationOfEncoded | packages/albus-core/src/zkp.ts:24-28 | negating the bytes is encoding the negated point |
| Zkp.NegationDefined | packages/albus-core/src/zkp.ts:24-28 | on 64 bytes, negation succeeds exactly when the second coordinate y is at most the prime; it keeps the first 32 bytes and writes the prime less y, or zero for zero |
| Zkp.DecodeProof | packages/albus-core/src/zkp.ts:93-105 | computes the decoding the round trip is about |
| Zkp.EncodedProofParts | packages/albus-core/src/zkp.ts:78-84 | what is sent is the encoding of A with its second coordinate negated modulo the prime, and the encodings of B and C |
| Zkp.ProofRoundTrip | packages/albus-core/src/zkp.ts:78-105 | a decoded encoded proof is the proof; with `EncodedProofParts`, A is negated on the way out and again on the way in |
| Zkp.VerifyingKeyRoundTrip | packages/albus-core/src/zkp.ts:135-177 | a decoded encoded key is the key, except that the protocol is reset to its default and the number of inputs is recounted |
| Zkp.EncodePublicSignals | packages/albus-core/src/zkp.ts:111-117 | succeeds exactly when every signal fits 32 bytes, and each result reads back as its signal |
| Zkp.DecodePublicSignals | packages/albus-core/src/zkp.ts:123-129 | reads every signal as its array then stands and reverses the array each time it occurs in the list |
| Zkp.OccursOnce | packages/albus-core/src/zkp.ts:123-129 | an array that occurs once is read as it was and left reversed |
| Zkp.SecondDecode | packages/albus-core/src/zkp.ts:123-129 | decoding the same arrays again gives the same value if and only if the bytes read the same both ways |
| Zkp.SecondDecodeOfOne | packages/albus-core/src/zkp.ts:123-129 | a signal on which it does not |
| Client.NegatedScalar | packages/albus-core/src/zkp.ts:24-28 | on any curve whose opposite points have opposite second coordinates, the A that is sent has the opposite scalar |
| Client.SentIsSameStatement | packages/albus-core/src/zkp.ts:78-84 | the bytes the client sends for a proof, a key and public signals are the statement, with A negated, on which the two verifiers agree |
| Client.SendAndVerify | crates/groth16-solana/src/lib.rs:95-147 | encoding a proof, its key and its public signals and verifying the bytes on chain accepts exactly the proofs `verify_proof` accepts |
| Client.SecondCoordinateHasOpposites | packages/albus-core/src/zkp.ts:24-28 | the assumption on the curve can be met |
| BigVectors.BigVec.Retain | programs/albus-stake-pool/src/big_vec.rs:34-90 | over any buffer and element size: exactly the elements that satisfy the predicate, in order, the length to match, and nothing behind the vector touched |
| BigVectors.BigVec.Compact | programs/albus-stake-pool/src/big_vec.rs:45-84 | the scan with its deferred overlapping moves leaves the kept bytes in front |
| BigVectors.ChunksOfFilter | programs/albus-stake-pool/src/big_vec.rs:34-90 | filtering the bytes element by element is filtering the sequence of elements |
| BigVectors.BigVec.Push | programs/albus-stake-pool/src/big_vec.rs:129-148 | succeeds exactly when there is room and the element is aligned; then it appends and changes nothing else; a refused push has still raised the length |
| BigVectors.BigVec.Find | programs/albus-stake-pool/src/big_vec.rs:151-165 | the first element that satisfies the predicate, or none when none does |
| BigVectors.BigVec.WriteAt | programs/albus-stake-pool/src/big_vec.rs:168-184 | writing through a found reference replaces that element only |
| BigVectors.BigVec.DeserializeSlice | programs/albus-stake-pool/src/big_vec.rs:93-126 | the elements skip .. skip + len; refused exactly when there are not as many or they are not aligned |
| StakeState.FeeWithin | programs/albus-stake-pool/src/state.rs:948-955 | a fee is its share of the amount rounded down, nothing when it has no denominator; one of at most one takes no more than the amount |
| StakeState.ChargedUnique | programs/albus-stake-pool/src/state.rs:948-955 | the amount and the fee determine what is charged |
| StakeState.EveryFeeWithin | programs/albus-stake-pool/src/state.rs:948-955 | no fee of a pool, in place or pending, takes more than the amount |
| SharePrice.MintedShare | programs/albus-stake-pool/src/state.rs:171-181 | the tokens minted are the depositor's share rounded down; one for one when the pool has no lamports or no tokens |
| SharePrice.PaidShare | programs/albus-stake-pool/src/state.rs:185-196 | the lamports paid are the holder's share rounded down, nothing when there are no tokens |
| SharePrice.ConversionsDefined | programs/albus-stake-pool/src/state.rs:171-196 | the two conversions fail exactly where the share does not fit 64 bits |
| SharePrice.PerTokenIsCeiling | programs/albus-stake-pool/src/state.rs:268-275 | the value of one token is rounded up; it exists exactly when there are tokens and total plus supply fit 64 bits |
| SharePrice.SplitExact | programs/albus-stake-pool/src/processor.rs:3054-3074 | the user gets all but the fee, the referrer the percentage of it rounded down, the manager the rest |
| SharePrice.PercentUnique | programs/albus-stake-pool/src/processor.rs:3054-3074 | the percentage and the fee determine the referrer's part |
| SharePrice.DepositKeepsPrice | programs/albus-stake-pool/src/state.rs:171-181 | with positive supply a deposit never lowers the value of a token |
| SharePrice.WithdrawKeepsPrice | programs/albus-stake-pool/src/state.rs:185-196 | a withdrawal never does, also when the lamports are truncated |
| SharePrice.EpochFeeDilution | programs/albus-stake-pool/src/state.rs:250-266 | the tokens f minted for a reward R satisfy f * (T + R) <= fee * (S + f) and T * (S + f) <= S * (T + R), in every branch |
| SharePrice.EpochFeeIsFloor | programs/albus-stake-pool/src/state.rs:250-266 | the fee tokens are the greatest number whose part of the new total is within the fee; nothing without a reward, and the whole reward when the fee is all of the new total |
| SharePrice.EpochFeeDefined | programs/albus-stake-pool/src/state.rs:250-266 | into a pool without tokens the whole reward is minted; otherwise the computation fails exactly where the tokens do not fit 64 bits |
| SharePrice.UpdateKeepsPrice | programs/albus-stake-pool/src/processor.rs:2626-2674 | a balance update whose total did not drop never lowers the value of a token |
| SharePrice.RunKeepsPrice | programs/albus-stake-pool/src/state.rs:171-266 | over any run of deposits, withdrawals and such updates with positive supply, total' * supply >= total * supply' |
| SharePrice.NoExtraction | programs/albus-stake-pool/src/state.rs:171-266 | a run that brings the supply back leaves at least the old total |
| SharePrice.SplitDepositGainsIff | programs/albus-stake-pool/src/state.rs:171-181 | two deposits mint more than one of the same size if and only if the pool has tokens but no lamports, the first deposit l1 is not zero, and l2 * supply >= l1; in every other state never |
| SharePrice.SplitDepositGains | programs/albus-stake-pool/src/state.rs:172-174 | in such a pool one lamport followed by one SOL mints 3_282_881 times the tokens of the two at once |
| Processor.ZeroTotalArises | programs/albus-stake-pool/src/processor.rs:2489-2512 | how a pool comes to have tokens but no lamports: from balanced books its one validator is removed, and the update of the same epoch records its cooling stake as zero |
| SharePrice.DepositWithdrawGainsIff | programs/albus-stake-pool/src/state.rs:171-196 | withdrawing what a deposit minted pays out more than was deposited if and only if the pool had lamports but no tokens and the deposit was not zero |
| SharePrice.WholeAccountWithdrawable | programs/albus-stake-pool/src/processor.rs:3349-3365 | for every account balance L <= T some amount of tokens is worth between L and L plus the rounded-up value of one token |
| SharePrice.ConversionMonotone | programs/albus-stake-pool/src/state.rs:171-181 | a smaller deposit converts whenever a larger one does, to no more tokens |
| SharePrice.SolDepositSplitTotal | programs/albus-stake-pool/src/processor.rs:3050-3074 | once the conversion succeeds no later check of a SOL deposit's split fails, the user pays exactly the SOL deposit fee, the referrer gets the SOL referral percentage of it, and the parts add up |
| SharePrice.StakeDepositSplitTotal | programs/albus-stake-pool/src/processor.rs:2868-2906 | the same for a stake deposit, whose two parts are charged separately and whose referrer gets the stake referral percentage |
| FeeGrowth.AcceptedIff | programs/albus-stake-pool/src/state.rs:960-993 | the exact set of accepted withdrawal fees, with the order in which an overflowed product compares |
| FeeGrowth.VerdictRightIff | programs/albus-stake-pool/src/state.rs:960-993 | the verdict is `new / old <= 3/2` if and only if neither product overflows or the overflowing one is still within the factor |
| FeeGrowth.SmallTermsDecideRight | programs/albus-stake-pool/src/state.rs:960-993 | with terms up to 2^63 the verdict is always right |
| FeeGrowth.OverflowIsAccepted | programs/albus-stake-pool/src/state.rs:960-993 | a fee change by a factor of 2^64 - 1 that is accepted because a product overflows |
| FeeGrowth.OverflowIsRefused | programs/albus-stake-pool/src/state.rs:960-993 | an unchanged fee that is refused because the other product overflows |
| FeeGrowth.WithdrawalFeesWait | programs/albus-stake-pool/src/state.rs:896-919 | a changed epoch or withdrawal fee charges nothing before the second boundary and exactly its value after it |
| FeeGrowth.SetFeeAcceptsIff | programs/albus-stake-pool/src/processor.rs:3808-3813 | exactly which changes are accepted, kind by kind |
| FeeGrowth.DepositFeesAtOnce | programs/albus-stake-pool/src/state.rs:488-505 | deposit and referral fees change at once; a change of any kind touches no other fee |
| FeeGrowth.LandsWhenReady | programs/albus-stake-pool/src/processor.rs:2650-2664 | at a boundary each of the three pending fees takes effect if it has waited for one already, and else waits on |
| FeeGrowth.SetFeeKeepsFeesBounded | programs/albus-stake-pool/src/processor.rs:3808-3813 | every fee in place or pending stays at most one |
| FeeGrowth.FeeGrowthBound | programs/albus-stake-pool/src/processor.rs:2650-2669 | after n boundaries a withdrawal fee is at most max(initial, 1/1000) * (3/2)^floor(n/2), for runs without overflow |
| FeeGrowth.WithdrawalFeesGrowSlowly | programs/albus-stake-pool/src/processor.rs:3791-3816 | the same for both withdrawal fees of a pool over any sequence of fee operations with terms up to 2^63 |
| FeeGrowth.LargeTermsJump | programs/albus-stake-pool/src/state.rs:960-993 | a run of two boundaries that breaks the bound with larger terms |
| ValidatorLists.StatusDowngrades | programs/albus-stake-pool/src/state.rs:626-652 | the two downgrades commute; together they ready every status but Active for removal, and each alone exactly those in which nothing else waits |
| ValidatorLists.MaxValidatorsFits | programs/albus-stake-pool/src/state.rs:801-806 | n validators are within the maximum exactly when 9 + 73 n bytes fit |
| ValidatorLists.PushNeverFails | programs/albus-stake-pool/src/processor.rs:1024-1032 | below the maximum the vector accepts one more record |
| ValidatorLists.RecordedSplit | programs/albus-stake-pool/src/processor.rs:2706 | clean-up takes exactly the recorded lamports of the dropped records off the list |
| ValidatorLists.KeptDistinct | programs/albus-stake-pool/src/processor.rs:2706 | clean-up keeps votes distinct |
| StakeProgram.TransferSupply | programs/albus-stake-pool/src/processor.rs:681-701 | a token transfer keeps the supply; minting and burning change it by the amount |
| Books.RecordStep | programs/albus-stake-pool/src/state.rs:699-730 | changing one record together with its own accounts keeps books and agreement, when the total follows |
| Books.RedelegationKeeps | programs/albus-stake-pool/src/processor.rs:1863-2199 | both halves of a redelegation keep them |
| Books.PaymentKeepsBooksIff | programs/albus-stake-pool/src/processor.rs:3577-3597 | lamports paid out of the reserve, with the total lowered by as much, keep the books if and only if they leave the pool's own accounts |
| Processor.ReserveTargetUnbalances | programs/albus-stake-pool/src/processor.rs:3577-3597 | a withdrawal of SOL into the reserve itself that succeeds from balanced books and leaves them unbalanced |
| Books.CleanupMatches | programs/albus-stake-pool/src/processor.rs:2683-2709 | clean-up keeps the agreement when the dropped records hold nothing |
| Books.NoStrayMatches | programs/albus-stake-pool/src/state.rs:699-730 | records that equal the two accounts they name, with nothing in other derived accounts, agree with all accounts |
| EpochUpdate.UpdateRecordConserves | programs/albus-stake-pool/src/processor.rs:2365-2547 | for an active record with usable accounts every branch puts the lamports of both accounts into the record or the reserve |
| EpochUpdate.ConservedIffNothingMissing | programs/albus-stake-pool/src/processor.rs:2365-2547 | for a record of any status and accounts of any kind, an update loses exactly what the guards of its branches, read before the call, say is missing; so value is conserved if and only if that is nothing, and then the record equals its accounts |
| EpochUpdate.UpdateRecordPlaces | programs/albus-stake-pool/src/processor.rs:2365-2547 | for any status and any accounts, where every lamport of the two accounts ends up, in what state both accounts and the reserve are left, what is recorded and the status; all from the state before |
| EpochUpdate.ActiveStakeStays | programs/albus-stake-pool/src/processor.rs:2460-2488 | an active validator's account keeps its delegation and all but the surplus over delegation and rent, which the reserve gains with idle transient stake and nothing else; stake not ready to merge stays in its account |
| EpochUpdate.DeactivatedIsInactive | programs/albus-stake-pool/src/processor.rs:207-212 | stake deactivated in an epoch counts as inactive from the next one on, or at once if it was delegated in that epoch; stake not deactivated never does |
| EpochUpdate.UpdateSucceeds | programs/albus-stake-pool/src/processor.rs:2365-2547 | an update of a record is never refused while the reserve is a stake account that can hold the lamports of all three |
| EpochUpdate.CountableMissesNothing | programs/albus-stake-pool/src/processor.rs:2365-2547 | of an active record nothing is missed if and only if its accounts are usable |
| EpochUpdate.SlicePlaces | programs/albus-stake-pool/src/processor.rs:2314-2549 | an update step leaves every record whose accounts it was given, and those accounts, as an update of that record alone does from the state before the step, and all others as they were |
| EpochUpdate.SliceSucceeds | programs/albus-stake-pool/src/processor.rs:2314-2549 | a step for listed accounts is never refused while the reserve can hold what the pool has |
| EpochUpdate.SliceIdentities | programs/albus-stake-pool/src/processor.rs:2314-2549 | an update step never changes which validators are listed, whatever the status of their records |
| EpochUpdate.SliceKeepsBooksIff | programs/albus-stake-pool/src/processor.rs:2314-2549 | balanced books stay balanced through an update step, for any account list, if and only if the step misses nothing |
| EpochUpdate.SliceProgress | programs/albus-stake-pool/src/processor.rs:2314-2549 | one update step brings exactly its records up to date, conserves value, leaves all other records as they were |
| EpochUpdate.StakesOfOwn | programs/albus-stake-pool/src/instruction.rs:1394-1420 | looking validators up by vote address gives the accounts of their own records |
| EpochUpdate.UpdateListInstructions | programs/albus-stake-pool/src/instruction.rs:1504-1517 | the instructions cut the list into consecutive chunks of five, each with its own start index, every record in exactly one |
| Processor.StakePoolProgram.Initialize | programs/albus-stake-pool/src/processor.rs:714-960 | succeeds exactly when size, fees, supply and reserve pass the checks; the first total is the reserve less its minimum and is minted to the manager one for one; the new pool is sound |
| Processor.StakePoolProgram.IncreaseValidatorStake | programs/albus-stake-pool/src/processor.rs:1577-1859 | succeeds exactly when the checks pass and the programs carry the stake; lamports plus rent go from the reserve to the transient account, directly or through an ephemeral one, delegated to that validator in this epoch; no other account changes; books kept |
| Processor.FundTransient | programs/albus-stake-pool/src/processor.rs:1726-1849 | when the programs carry the stake, and that a new transient account ends delegated to the validator in this epoch, one in use as it was |
| Processor.StakePoolProgram.DecreaseValidatorStake | programs/albus-stake-pool/src/processor.rs:1260-1573 | succeeds exactly when the checks pass and the programs carry the stake; in all three forms the transient record gains what leaves the validator account plus the rent the reserve paid; the new transient account has the same delegation, stopped; books kept |
| Processor.TopUp | programs/albus-stake-pool/src/processor.rs:1418-1536 | the reserve pays exactly what is missing to the rent; refused exactly when it does not hold more, in a split into a transient account even when nothing is missing |
| Processor.ReleaseStake | programs/albus-stake-pool/src/processor.rs:1396-1559 | exactly when it succeeds, which account pays what in the three forms, and the delegation the transient stake is left with |
| Processor.StakeEpochs | programs/albus-stake-pool/src/processor.rs:215-255 | stake delegated in an epoch passes the check for activating stake in that epoch only, stopped stake the one for deactivating stake in its epoch only |
| Processor.StakePoolProgram.RedelegateStake | programs/albus-stake-pool/src/processor.rs:1863-2199 | succeeds exactly when the checks pass at both validators; one record falls, the other's rises, the sender's transient account keeps the rent the reserve paid and stops, the receiver's is delegated to it in this epoch; never to the same validator; books kept |
| Processor.StakePoolProgram.AddValidator | programs/albus-stake-pool/src/processor.rs:964-1118 | succeeds exactly when there is room, the validator is new and the reserve keeps its minimum; the funded account is delegated to that validator in this epoch, and an active record is appended; the push has room, balanced books or not |
| Processor.StakePoolProgram.RemoveValidator | programs/albus-stake-pool/src/processor.rs:1122-1256 | succeeds exactly for an active validator whose account is delegated to it; marks the record by whether its transient stake must deactivate too, deactivates one account or both, clears preferences; no amounts change |
| Processor.StakePoolProgram.SetPreferredValidator | programs/albus-stake-pool/src/processor.rs:2203-2261 | succeeds exactly for none or an active validator of the list |
| Processor.StakePoolProgram.CleanupRemovedValidatorEntries | programs/albus-stake-pool/src/processor.rs:2683-2709 | keeps exactly the records not removed; books shift by what the dropped ones record and stay sound if and only if that is nothing |
| Processor.RemovalStrandsTransientStake | programs/albus-stake-pool/src/processor.rs:3243-3258 | after a whole-account withdrawal the clean-up drops exactly the transient stake the record still had |
| Processor.StrandingHappens | programs/albus-stake-pool/src/processor.rs:3447-3449 | from balanced books, a decrease by the minimum and a withdrawal of the rest leave books that balance, and that the clean-up unbalances by the whole transient stake |
| Processor.StakePoolProgram.DepositSol | programs/albus-stake-pool/src/processor.rs:2987-3140 | exactly when it succeeds; tokens at the old price, split exactly, lamports to the reserve; arithmetic fails only in the conversion or when total or supply overflow |
| Processor.StakePoolProgram.DepositStake | programs/albus-stake-pool/src/processor.rs:2713-2983 | exactly when it succeeds; the same for a stake account: what the delegation absorbed stays with the validator, the rest goes to the reserve |
| Processor.StakePoolProgram.WithdrawSol | programs/albus-stake-pool/src/processor.rs:3459-3603 | exactly when it succeeds; the tokens not burnt move to the manager: none of the manager's own or when the fee account is unusable, else the SOL withdrawal fee's share rounded down; lamports at the old price from the reserve, which keeps its minimum, to any account; books kept if and only if that is not one of the pool's own |
| Processor.StakePoolProgram.WithdrawStake | programs/albus-stake-pool/src/processor.rs:3144-3455 | exactly when it succeeds; the same with the stake withdrawal fee; lamports from the source the list allows, truncated for a whole account; the record follows |
| Processor.TakeFrom | programs/albus-stake-pool/src/processor.rs:3238-3368 | succeeds exactly for the sources the list allows, with what is taken and the list that is left |
| Processor.SourceOrder | programs/albus-stake-pool/src/processor.rs:3238-3368 | active stake first, then transient stake, and a whole account or the reserve only when no record has enough of either |
| Processor.StakePoolProgram.UpdateValidatorListBalance | programs/albus-stake-pool/src/processor.rs:2265-2552 | for any account list the loop leaves every record whose accounts are given, and those accounts, as `UpdateRecordPlaces` says, and all others as they were; odd or overlong lists are refused; the books keep their balance if and only if nothing is missed |
| Processor.StakePoolProgram.SumBalances | programs/albus-stake-pool/src/processor.rs:2600-2624 | reserve less minimum plus all records, exactly when no record is out of date, the reserve has its minimum and the sum fits |
| Processor.StakePoolProgram.UpdateStakePoolBalance | programs/albus-stake-pool/src/processor.rs:2559-2679 | succeeds exactly when there is such a sum and its fee can be minted; the total is what reserve and records hold, the fee on the gain is minted to the manager, the recorded supply is the mint's again, fees land once an epoch; books sound afterwards |
| Processor.AfterUpdateIsLand | programs/albus-stake-pool/src/processor.rs:2650-2669 | an update lands fees exactly when it enters a new epoch, and then stamps it and keeps the total and supply of the last one |
| EpochUpdate.NothingMissingIff | programs/albus-stake-pool/src/processor.rs:2314-2549 | an update misses nothing of any record if and only if the lamports it misses add up to zero |
| Processor.StakePoolProgram.UpdateWholeList | programs/albus-stake-pool/src/instruction.rs:1504-1517 | the client's list instructions run in order are never refused while the reserve can hold what the pool has; they stamp every record, leave records and accounts as `UpdateRecordPlaces` says, and lose exactly what is missed; when that is nothing, every record ends equal to its accounts |
| Processor.StakePoolProgram.UpdateStakePool | programs/albus-stake-pool/src/instruction.rs:1486-1537 | the client's steps never trip the stale check and set the total to what reserve and accounts held before less the minimum and less exactly what the update misses, for records of any status, with or without merging; when that is nothing, the books then balance if and only if the clean-up drops no lamports; the share price rule holds when the total did not drop |
| Processor.StakePoolProgram.ChangeFee | programs/albus-stake-pool/src/processor.rs:3791-3816 | exactly the change or error of the fee rules, nothing else |
| Runs.OutsideKeepsBooksIff | programs/albus-stake-pool/src/state.rs:699-730 | a change of the accounts from outside keeps the books balanced if and only if the pool's own accounts keep their lamports |
| Runs.Process | programs/albus-stake-pool/src/processor.rs:3877-4116 | dispatches each instruction to its method with its arguments: it succeeds exactly when that does and has done what that does; every instruction, update steps and clean-up included, keeps the list's shape and the token count in every state; it keeps balanced books if and only if it fails or its guard, read before the call, holds; a failed one changes nothing |
| Runs.RunKeepsShape | programs/albus-stake-pool/src/processor.rs:1024-1032 | in every state of every run, over any epochs, instructions, outside changes, and burns and transfers by token holders, votes are distinct, the list fits its account, the mint's supply is the holders' and at most the recorded one |
| Runs.RunKeepsBooks | programs/albus-stake-pool/src/processor.rs:2600-2624 | books balanced at the start are balanced in every state of a run of harmless events, whatever token holders do |
| Runs.SupplyExactIff | programs/albus-stake-pool/src/processor.rs:2670-2674 | the recorded supply is the mint's after an event other than a balance update if and only if it was before and no holder burnt tokens |
| Runs.SupplyOverRuns | programs/albus-stake-pool/src/processor.rs:2670-2674 | over any run the recorded supply exceeds the mint's by exactly what holders burnt since the last balance update |
| Runs.SharePriceOverRuns | programs/albus-stake-pool/src/state.rs:171-266 | over any run with positive recorded supply in which no balance update finds fewer lamports the value of a token does not fall, and back at the old supply the pool holds at least the old total |
| Runs.LandsWithinEpochs | programs/albus-stake-pool/src/processor.rs:2650-2669 | fees land at most once an epoch |
| Runs.WithdrawalFeesOverRuns | programs/albus-stake-pool/src/processor.rs:3791-3816 | over any run of n epochs both withdrawal fees stay within max(initial, 1/1000) * (3/2)^floor(n/2), for fees asked for with terms up to 2^63 |
| Runs.Run | programs/albus-stake-pool/src/processor.rs:3877-4116 | executing any sequence of instructions, outside changes and token movements, under changing clocks, yields such a run |
| Runs.Lifetime | programs/albus-stake-pool/src/processor.rs:714-960 | from initialisation on every state has the list's shape and an exact count of the tokens, both withdrawal fees obey the growth bound, and the books balance if nothing was astray at the start and all events are harmless |

## Left out

- Curve and pairing arithmetic: groups and pairing are the scalars behind them, the
  pairing's product is a sum, and bytes that encode no point are a missing value.
- Fft.Fft: lengths are limited to 2^31, because the code keeps them in 32 bits; the
  wrap-around beyond is not modelled.
- Prover.QuotientCoefficients: at most 2^31 constraints, because the code keeps the
  length in 32 bits.
- Prover.CreateProof: the indices inside the QAP are taken to fit the assignment and the
  domain, as every extracted QAP's do; the code panics when it meets one that does not.
- Knowledge soundness is stated for provers that combine the elements of the key with
  coefficients fixed before the trapdoor, over a field of more than four elements; that
  a prover can do no better rests on hardness assumptions about the groups.
- Knowledge.StrategyWithoutWitnessFails: counts the values of tau at which the rest of
  the trapdoor does not matter; how many whole trapdoors accept is not counted.
- `ffUtils` and `bytesToBigInt` are functions on byte sequences; their word loops are
  in a library that is not part of this model, and so is JavaScript's number parsing.
- Mutable slices of the vector are covered by BigVectors.BigVec.WriteAt.
- BigVectors.BigVec.Find: a misaligned element, on which the code's cast panics, is not
  modelled.
- The byte layout of a record: the processor works on a sequence of records, and BigVec
  proves the vector operations for elements of any size.
- Account, owner, signer, authority, policy and sysvar checks, address derivation
  (distinct seeds give distinct addresses), metadata and authority instructions, and
  the mint's extensions.
- The stake program beyond lamport moves, delegations and their epochs: it may refuse more
  than the model does, for instance a merge of differently delegated stake, which leaves
  the state as it was. The conditions under which an instruction succeeds are exact up to
  such refusals. How much of a
  merged account it adds to the delegation is a parameter (`absorbed`, `delegated`).
- Runs.RunKeepsBooks: not for lamports that outsiders send to the pool's own accounts,
  rewards, or slashing; after those only the list's shape, the tokens and the fee rules
  are stated, until an epoch update balances the books again.
- A withdrawn stake account goes to an account of the user's: only the pool can create
  stake accounts at its own derived addresses.
- The order of error codes where several checks of one instruction fail at once.
- `programs/albus-swap`, `programs/albus`, `programs/albus-transfer`, `crates/solana-verifier`
  and the TypeScript managers: account checks and plumbing around these parts.
