# Verified model of the zk stack and its neighbours

This project models, in Dafny, the hand-written STARK stack of `crates/zk`, the peer line
reader, header codec and block-body cache of `crates/rabbitnet`, and the proof-of-work target
of `crates/rabbitcore`, and proves what they are for.

`dafny verify dfyconfig.toml` checks everything.

## Reading order

Each layer is used by the next.

* **Field.** `Goldilocks` (word arithmetic and reduction), `Residues`, `Powers`, `Primality` (p
  is prime, Fermat, inverses), `RootsOfUnity` (square-and-multiply, roots, domains).
* **Polynomials.** `Polynomials` and `PolynomialOps`, `BitReversal` and
  `NumberTheoreticTransform` (the in-place transform), `TransformInversion`,
  `PolynomialProduct`, `PolynomialDivision`, `Interpolation`; `RawPolynomials` (coefficients as
  they arrive in a proof).
* **Commitments.** `Bytes`, `Merkle`, `MerkleBinding` (what a root binds), `FriProtocol` (what prover
  and verifier do, as functions), `FriCompleteness`, `FriAcceptance` (exactly what is accepted),
  `FriVerdicts` (which error), `FriTranscript` (what is hashed, as flat lists), `FriLoops` (their
  loops), `Challenge`.
* **Circuits.** `TransitionRows`, `SquareChain`, `Tower`; `Words`, `XorshiftAir`,
  `EnhanceConstraints`, `EnhanceProtocol`, `EnhanceLoops`, `EnhanceValues` (over the integers);
  `SatisfyingTraces` (what all constraints together say); `CircuitAcceptance` (acceptance of any
  proof object). `HonestRejections` and `AcceptanceLimits` hold negative results.
* **Beside the stack.** `PowTarget`, `LineFraming`, `BodyCache`, `SyncHeaders` and
  `SyncHeaderTexts` (exactly which texts parse).

Code that loops over mutable state is a method proved against a function; the theorems are
about the functions. The top-level claims join both: `SquareChain.ProveThenVerify`,
`Tower.ProveThenVerify` and `EnhanceLoops.ProveThenVerify` run the modelled prover and verifier.

## What the proofs found

* The bounds in the comments of `Fp::mul` (crates/zk/src/field.rs:41-47) do not justify the
  final cast; tighter ones hold and do (`Goldilocks.FoldBounds`).
* `prove_tower` adds 2^32 − 2 where −1 is meant (crates/zk/src/tower.rs:130). The constant only
  reaches the discarded remainder, so Z is right (`Tower.QuotientIgnoresConstant`).
* The tower's honest proof is rejected when the challenge is the last row, unless the recurrence
  happens to return to its start (`Tower.TowerComplete`, an exact condition;
  `HonestRejections.TowerRejected`, an input). The enhance proof has the analogous condition on
  its 16 rows (`EnhanceProtocol.EnhanceComplete`; `HonestRejections.EnhanceRejected`, an input).
* `verify_enhance` uses the challenge stored in the proof and never derives it again
  (crates/zk/src/enhance.rs:312). Commitments to a satisfying trace are accepted at every
  challenge outside the 16 rows (`EnhanceProtocol.AnyChallengeExact`), so an accepted proof need
  not carry the derived one (`EnhanceProtocol.UnderivedChallengeAccepted`). In the other two
  circuits it must (`SquareChain.AcceptedChallengeIsDerived`, `Tower.AcceptedChallengeIsDerived`).
* A Merkle root binds two openings exactly when their paths take the same turns: then they are
  equal or two messages they hash collide (`MerkleBinding.OpeningBinding`), and otherwise any two
  values go (`MerkleBinding.OpeningsUnbound`). Paths of length k for leaves below 2^k are bound,
  but neither `MerkleTree::verify` nor `fri::verify` checks the length, so one first root can be
  accepted with two values at one point (`AcceptanceLimits.ClaimsUnbound`).
* `fri::verify` does not tie the index of an opening to the point of the query, and the values of
  the constraint check are taken as sent. Acceptance of a claim means that the first root has such
  an opening, and no more (`AcceptanceLimits.ClaimAcceptedExact`); it determines neither the first
  committed table (`AcceptanceLimits.FirstRootUndetermined`) nor the claimed final power, the
  chain's output or the roll (`AcceptanceLimits.ClaimUndetermined`,
  `AcceptanceLimits.OutputUndetermined`, `AcceptanceLimits.RollUndetermined`).
* The enhance circuit does not prove x mod 1000 = r, as its heading says
  (crates/zk/src/enhance.rs:1-6), because the quotient in row 14 may be any field element. A
  trace satisfies all 1024 constraints iff it is the trace of some seed and some roll below
  1024 with (x − r)/1000 taken in the field (`SatisfyingTraces.AllSatisfiedExact`). So every
  seed has satisfying traces for every such roll (`SatisfyingTraces.AnyRollSatisfies`,
  `SatisfyingTraces.RollNotTied`), and their proofs are accepted
  (`SatisfyingTraces.AnyRollAccepted`). The promise holds exactly when r is below 1000 and
  x = 1000·q + r holds over the integers (`SatisfyingTraces.RollTiedExact`).
* Deserialised field words may be p or more. Addition and subtraction of words are modular
  exactly on the ranges of `Goldilocks.AddWordsExact` and `Goldilocks.SubWordsExact`; the
  verifiers are modelled on all words.
* Where comments and code disagree the model follows the code: `TOWER_ROWS` is 128, not 256, and
  the tower's FRI domain has 512 points, not 1024 (crates/zk/src/tower.rs:27, 119, 141); the
  enhance trace has 16 rows, not the 8 of the file's heading (crates/zk/src/enhance.rs:7-20, 82).
* `pow_target_from_difficulty` reads only the low 128 bits of the difficulty. The target is what
  it should be exactly below 2^120, and 2^128 + 1 has the easiest target of all
  (`PowTarget.AcceptanceExact`, `PowTarget.LargeDifficultyCanBeEasy`).
* The receipt index is sound in every reachable state, but complete only while cached bodies
  share no transaction (`BodyCache.StoredIndexExact`; `BodyCache.SharedTransactionIsLost`, an
  input).
* Two error paths are unreachable in a single-threaded cache: the second header validation
  (`BodyCache.SecondCheckNeverFails`) and the missing canonical block
  (`BodyCache.GlobalBodies.StoreBlockBody`).

## Model

| member | source | states |
|---|---|---|
| `Goldilocks.MulWords` | `crates/zk/src/field.rs:36-56` | for all words a and b, canonical or not, the result is a·b mod p in canonical range |
| `Goldilocks.FoldBounds` | `crates/zk/src/field.rs:41-48` | after one fold the value is below 2^96, after two at most 2^65 − 2^33, after three it fits in 64 bits: the final cast loses nothing |
| `Goldilocks.Reduce` | `crates/zk/src/field.rs:37-55` | three folds, the cast and the two conditional subtractions give the canonical residue of every 128-bit product |
| `Goldilocks.AddWordsExact` | `crates/zk/src/field.rs:104-110` | on any two words the carry-and-wrapping-subtract addition is modular iff the sum stays below 2^64 + p |
| `Goldilocks.MulIsModular` | `crates/zk/src/field.rs:137-139` | multiplication of elements is multiplication modulo p |
| `Goldilocks.SubWordsExact` | `crates/zk/src/field.rs:115-121` | on any two words subtraction undoes addition iff b − a ≤ p; beyond that the inner subtraction wraps |
| `Goldilocks.AddOnWords` | `crates/zk/src/field.rs:104-110` | the sum of any two words, as a word: p is subtracted at most once, and 2^64 only beyond 2^64 + p |
| `Goldilocks.SubOnWords` | `crates/zk/src/field.rs:115-121` | the difference of any two words, as a word |
| `Goldilocks.NegOnWords` | `crates/zk/src/field.rs:126-132` | the negation of any word, as a word |
| `Goldilocks.NegWordExact` | `crates/zk/src/field.rs:126-132` | on any word negation is the additive inverse iff the word is at most p |
| `Goldilocks.MulOfResidues` | `crates/zk/src/field.rs:137-139` | multiplication of words is multiplication of their residues |
| `Goldilocks.MulAssociates` | `crates/zk/src/field.rs:36-56` | the reduced product is associative |
| `Goldilocks.MulDistributes` | `crates/zk/src/field.rs:36-56` | and distributes over the reduced sum |
| `Powers.GeneratorToRoot32` | `crates/zk/src/field.rs:93-98` | 7^((p−1)/2^32) is the expected element, computed from the literal constants |
| `Powers.GeneratorHalfOrder` | `crates/zk/src/field.rs:95-98` | 7^((p−1)/2) = −1 |
| `Primality.ModulusIsPrime` | `crates/zk/src/field.rs:13-13` | the modulus has no divisor strictly between 1 and itself |
| `Primality.NoZeroDivisors` | `crates/zk/src/field.rs:13-13` | a product of two non-zero elements is non-zero |
| `Primality.Fermat` | `crates/zk/src/field.rs:58-58` | a^(p−1) = 1 for every non-zero a |
| `Primality.InverseIsExact` | `crates/zk/src/field.rs:59-78` | a^(p−2) is the inverse of every non-zero a, and 0 is mapped to 0 |
| `RootsOfUnity.Power` | `crates/zk/src/field.rs:80-90` | on any base word the 64-step square-and-multiply loop computes the power of its residue |
| `RootsOfUnity.Inverse` | `crates/zk/src/field.rs:59-73` | the same loop with exponent p − 2 returns a true inverse of the reduced word |
| `RootsOfUnity.RootIsPrimitive` | `crates/zk/src/field.rs:93-99` | for k ≤ 32 the 2^(k−1)-th power of root_of_unity(k) is −1 |
| `RootsOfUnity.RootIsGeneratorPower` | `crates/zk/src/field.rs:93-99` | for k ≤ 32 root_of_unity(k) is 7^((p − 1)/2^k) |
| `RootsOfUnity.RootSquared` | `crates/zk/src/field.rs:93-99` | root_of_unity(k)² = root_of_unity(k − 1) |
| `RootsOfUnity.RootOrderExact` | `crates/zk/src/field.rs:93-99` | a power of a primitive root is 1 iff the exponent is a multiple of 2^k |
| `RootsOfUnity.DomainDistinct` | `crates/zk/src/fri.rs:46-55` | the points of a domain are pairwise different |
| `RootsOfUnity.Domain` | `crates/zk/src/fri.rs:46-55` | the running-product loop lists the powers of the root in order |
| `Polynomials.CanonicalUnique` | `crates/zk/src/poly.rs:25-34` | polynomials with equal coefficients have one normal form |
| `Polynomials.EvalTrim` | `crates/zk/src/poly.rs:25-34` | normalising does not change values |
| `Polynomials.EvalConv` | `crates/zk/src/poly.rs:54-77` | the schoolbook convolution is multiplication of polynomial functions |
| `Polynomials.SyntheticDivision` | `crates/zk/src/poly.rs:146-158` | f(x) = (x − r)·q(x) + f(r) |
| `Polynomials.RootsForceZero` | `crates/zk/src/poly.rs:80-98` | a polynomial with as many different roots as coefficients is zero |
| `Polynomials.AgreementForcesEquality` | `crates/zk/src/poly.rs:80-98` | two polynomials with at most n coefficients that agree at n points are equal |
| `Polynomials.EvalEvenOdd` | `crates/zk/src/fri.rs:57-69` | f(x) = E(x²) + x·O(x²) |
| `PolynomialOps.EvalOps` | `crates/zk/src/poly.rs:101-193` | addition, negation, subtraction, scaling and scale_var act on values as their names say |
| `PolynomialOps.FromCoeffs` | `crates/zk/src/poly.rs:25-34` | the popping loop computes the normal form |
| `PolynomialOps.EvalAt` | `crates/zk/src/poly.rs:41-47` | Horner’s loop computes the value |
| `PolynomialOps.EvalMany` | `crates/zk/src/poly.rs:50-52` | one value per point, in order |
| `PolynomialOps.AddPolys` | `crates/zk/src/poly.rs:168-178` | the two accumulation loops compute the coefficientwise sum |
| `PolynomialOps.ScaleVar` | `crates/zk/src/poly.rs:101-109` | the running-power loop computes the coefficients of f(sX) |
| `RawPolynomials.FromWords` | `crates/zk/src/poly.rs:25-34` | the popping loop on words that need not be canonical |
| `RawPolynomials.EvalWordsAt` | `crates/zk/src/poly.rs:41-47` | Horner’s loop on such words |
| `RawPolynomials.EvalTrimWords` | `crates/zk/src/poly.rs:25-47` | normalising words does not change the value |
| `RawPolynomials.TrimWordsExact` | `crates/zk/src/poly.rs:25-34` | exactly the zero words at the top are dropped, but for one word |
| `RawPolynomials.EvalCanonical` | `crates/zk/src/poly.rs:41-47` | on canonical words it is evaluation in the field |
| `RawPolynomials.EvalWordsExact` | `crates/zk/src/poly.rs:40-48` | on any words: the coefficients above the first count by their residues, and the first is added as it is with at most one subtraction of p |
| `BitReversal.BitReverseWord` | `crates/zk/src/poly.rs:234-241` | the shift loop reverses the low log2 bits of a 32-bit word, for log2 ≤ 32 |
| `BitReversal.BitReverseInvolution` | `crates/zk/src/poly.rs:234-241` | bit reversal undoes itself |
| `BitReversal.PermuteByBitReversal` | `crates/zk/src/poly.rs:200-206` | the swap loop permutes the array in place by bit reversal |
| `NumberTheoreticTransform.CombineIsDft` | `crates/zk/src/poly.rs:213-222` | combining the transforms of even and odd parts transforms the whole |
| `NumberTheoreticTransform.Butterfly` | `crates/zk/src/poly.rs:214-221` | the inner loop replaces one block by the combination of its halves and touches nothing else |
| `NumberTheoreticTransform.LayerAdvances` | `crates/zk/src/poly.rs:207-224` | a pass turns transformed blocks of length 2^s into transformed blocks of length 2^(s+1) |
| `NumberTheoreticTransform.LayerRootIndex` | `crates/zk/src/poly.rs:211-211` | the cast of the block length 2^32 to 32 bits is zero, whose 32 trailing zeros still select the right root |
| `NumberTheoreticTransform.BlocksInitially` | `crates/zk/src/poly.rs:200-206` | after bit reversal every element is its own length-one transform |
| `NumberTheoreticTransform.ApplyLayers` | `crates/zk/src/poly.rs:207-224` | all passes together transform the bit-reversed array |
| `NumberTheoreticTransform.Ntt` | `crates/zk/src/poly.rs:197-231` | for every length 2^log2 ≤ 2^32 the array is replaced in place by its discrete Fourier transform, or by the scaled transform at the inverse root |
| `TransformInversion.Orthogonality` | `crates/zk/src/poly.rs:197-231` | row j of the inverse transform against column m of the forward one: the length if j = m, else zero |
| `TransformInversion.InverseUndoesForward` | `crates/zk/src/poly.rs:197-231` | ntt with inv = true undoes ntt with inv = false |
| `TransformInversion.ForwardUndoesInverse` | `crates/zk/src/poly.rs:197-231` | and the other way round |
| `PolynomialProduct.ConvolutionTheorem` | `crates/zk/src/poly.rs:63-75` | pointwise product of transforms, transformed back and truncated, is the convolution |
| `PolynomialProduct.Multiply` | `crates/zk/src/poly.rs:55-77` | mul returns the normalised schoolbook product for all operands, not both empty, with product length ≤ 2^32 |
| `PolynomialDivision.DivisionStep` | `crates/zk/src/poly.rs:131-136` | one step of the long division keeps f = q·d + rem |
| `PolynomialDivision.SubtractShifted` | `crates/zk/src/poly.rs:134-136` | the inner loop subtracts coeff·X^qi·d |
| `PolynomialDivision.DivMod` | `crates/zk/src/poly.rs:112-140` | f = q·d + r with deg r < deg d whenever the leading coefficient is non-zero; division by a zero constant or a longer divisor returns (0, f); with a leading zero the quotient is 0 and f is cut off |
| `PolynomialDivision.DivisionIsExact` | `crates/zk/src/poly.rs:112-140` | the identity holds coefficient by coefficient |
| `PolynomialDivision.RemainderZeroGivesValue` | `crates/zk/src/stark.rs:94-99` | if dividend and divisor vanish at deg d common points, the remainder is zero |
| `PolynomialDivision.DivideByLinearLoop` | `crates/zk/src/poly.rs:146-158` | the carry loop computes the synthetic quotient |
| `Interpolation.LinearProductLaws` | `crates/zk/src/poly.rs:84-87` | a product of linear factors is monic of degree n and takes the product of the differences as values |
| `Interpolation.ProductAtZero` | `crates/zk/src/poly.rs:84-87` | it vanishes exactly at the points |
| `Interpolation.MultiplyLinearFactors` | `crates/zk/src/poly.rs:84-87` | the loop over mul builds that product |
| `Interpolation.Interpolate` | `crates/zk/src/poly.rs:80-98` | on pairwise different points the result has at most n coefficients and takes every prescribed value |
| `Interpolation.InterpolantUnique` | `crates/zk/src/poly.rs:80-98` | it is the only such polynomial |
| `Interpolation.DomainIsDistinct` | `crates/zk/src/poly.rs:80-98` | root-of-unity domains meet the side condition |
| `Interpolation.InterpolantIsInverseTransform` | `crates/zk/src/poly.rs:80-98` | on such a domain interpolation is the inverse transform |
| `Interpolation.RootsDivide` | `crates/zk/src/enhance.rs:211-219` | a polynomial that vanishes at different points is a multiple of their vanishing polynomial |
| `Bytes.BigEndianRoundTrip` | `crates/zk/src/merkle.rs:9-14` | big-endian words can be read back, so leaf encodings are injective |
| `Bytes.BigEndianByte` | `crates/zk/src/merkle.rs:9-14` | byte j of an n-byte big-endian form is the digit of weight 256^(n − 1 − j) |
| `Merkle.NewTree` | `crates/zk/src/merkle.rs:37-61` | the level-by-level loop builds the tree for every power-of-two leaf list |
| `Merkle.AuthPathLoop` | `crates/zk/src/merkle.rs:64-72` | the path loop collects the sibling of every ancestor |
| `Merkle.VerifyLoop` | `crates/zk/src/merkle.rs:75-88` | the verification loop computes the root from leaf and path |
| `Merkle.OpeningVerifies` | `crates/zk/src/merkle.rs:37-88` | for every power-of-two leaf list and index, verify accepts auth_path against the root |
| `MerkleBinding.RootIsHash` | `crates/zk/src/merkle.rs:75-88` | the root that verify reaches is the hash of the first of the messages listed for the opening |
| `MerkleBinding.OpeningBinding` | `crates/zk/src/merkle.rs:75-88` | two accepted openings whose paths take the same turns from the root are the same index, value and path, or the messages they hash at some equal distance from the root differ and have one hash |
| `MerkleBinding.SameTurnsExact` | `crates/zk/src/merkle.rs:75-88` | paths of one length take the same turns iff the indices agree modulo 2^length |
| `MerkleBinding.OpeningUnique` | `crates/zk/src/merkle.rs:75-88` | if the hash is injective on the messages of the two openings, the openings are equal |
| `MerkleBinding.RootBinding` | `crates/zk/src/merkle.rs:113-118` | two lists of 2^k leaves with one root agree at every index, or the messages of their openings there collide |
| `MerkleBinding.OpeningsUnbound` | `crates/zk/src/merkle.rs:75-88` | where the turns differ, every hash has a root under which paths of the given lengths open the two indices to any two values |
| `FriProtocol.Transcript.Absorb` | `crates/zk/src/fri.rs:32-34` | absorbing appends to the state |
| `FriProtocol.Transcript.SqueezeFp` | `crates/zk/src/fri.rs:35-42` | squeezing hashes the state with 32 zero bytes, returns the first word reduced, and makes the hash the new state |
| `FriProtocol.DomainClosed` | `crates/zk/src/fri.rs:156-169` | for x in a domain, −x stays in it, x² lies in the domain of the next layer, and x ≠ 0 |
| `FriLoops.EvenOddSplit` | `crates/zk/src/fri.rs:58-69` | the parity loop computes the even and odd parts |
| `FriLoops.OpenAt` | `crates/zk/src/fri.rs:108-115` | opening finds the index, the value and the path of a domain point |
| `FriLoops.CommitLoop` | `crates/zk/src/fri.rs:127-142` | the commit loop produces the layers, roots and challenges of the specification |
| `FriLoops.QueryLoop` | `crates/zk/src/fri.rs:144-172` | the query loop derives every start from the transcript and opens every layer |
| `FriLoops.Prove` | `crates/zk/src/fri.rs:119-176` | prove computes the specified proof from the transcript state |
| `FriLoops.Verify` | `crates/zk/src/fri.rs:179-255` | on any 64-bit words verify computes the specified verdict |
| `FriVerdicts.ShapeVerdict` | `crates/zk/src/fri.rs:186-195` | a wrong number of roots, more than two final coefficients and a wrong number of queries are reported in this order |
| `FriVerdicts.LayersVerdict` | `crates/zk/src/fri.rs:212-239` | a query is rejected at its first bad layer, with the error of the first failing check there |
| `FriVerdicts.QueriesVerdict` | `crates/zk/src/fri.rs:203-211` | among the queries the first bad one decides; a wrong layer count or a start outside the domain is reported before any layer |
| `FriVerdicts.QueryOrBoundaryVerdict` | `crates/zk/src/fri.rs:203-253` | the verdict of a well-shaped proof is that of its first bad query or, if there is none, of the boundary |
| `FriVerdicts.BoundaryVerdict` | `crates/zk/src/fri.rs:241-253` | the boundary checks in their order, with the panics for a proof without roots and for an index outside the domain |
| `FriTranscript.ChallengesFlat` | `crates/zk/src/fri.rs:35-42` | challenge j is the first word, modulo p, of the hash of the previous digest (at first the state), root j and 32 zero bytes |
| `FriTranscript.QueryPointsFlat` | `crates/zk/src/fri.rs:147-153` | draw i is the hash of the state with all earlier draws appended, and the i-th query point is ω to its first word modulo 2^k |
| `FriTranscript.HonestTranscript` | `crates/zk/src/fri.rs:119-176` | both facts read off the returned proof: its roots give the rounds, the last round starts the draws, the draws give query_starts |
| `FriTranscript.FoldCoefficients` | `crates/zk/src/fri.rs:139-142` | coefficient i of a fold is c_2i + α·c_(2i+1) |
| `FriTranscript.LayersFlat` | `crates/zk/src/fri.rs:127-142` | each layer is the fold of the one before with its challenge, and its root is the Merkle root of its values |
| `FriTranscript.OpensFlat` | `crates/zk/src/fri.rs:156-169` | every opening of a query: the points ±x^(2^j) with their values, and the index 2^64 − 1 after the last layer |
| `FriTranscript.BoundaryOpened` | `crates/zk/src/fri.rs:171-176` | a proof carries a boundary opening iff a point was given, and then the value at that point and its place in the domain |
| `FriCompleteness.FoldLength` | `crates/zk/src/fri.rs:139-142` | a fold halves the number of coefficients, rounded up |
| `FriCompleteness.HonestFold` | `crates/zk/src/fri.rs:231-237` | the values of f at x and −x satisfy the fold equation for the folded polynomial at x² |
| `FriCompleteness.HonestOpen` | `crates/zk/src/fri.rs:108-115` | an honest opening verifies against the root of its layer and carries the value |
| `FriCompleteness.AlphasAgree` | `crates/zk/src/fri.rs:196-201` | the verifier re-derives the prover’s challenges |
| `FriCompleteness.LastIsShort` | `crates/zk/src/fri.rs:142-192` | after k − 1 folds of at most 2^k coefficients at most two remain |
| `FriCompleteness.HonestLayers` | `crates/zk/src/fri.rs:212-239` | every layer of an honest query is accepted, from every start in the domain |
| `FriCompleteness.FriComplete` | `crates/zk/src/fri.rs:119-255` | for 1 ≤ k ≤ 32, at most 2^k coefficients, every hash, query count and transcript: verify accepts prove’s output, with a boundary (k ≥ 2) opened to f’s value |
| `FriCompleteness.BoundaryExact` | `crates/zk/src/fri.rs:241-253` | against a boundary claim the honest proof is accepted iff the claim is f’s value at that point |
| `FriCompleteness.BoundaryBinding` | `crates/zk/src/fri.rs:241-253` | two accepted boundary openings under one root at one point, with paths that take the same turns, are one opening with one value, or two messages they hash at one distance from the root collide |
| `FriAcceptance.FoldExact` | `crates/zk/src/fri.rs:231-237` | for x ≠ 0 and any opened words the fold check holds iff y is canonical and 2·x·y = x·s + α·d for the residues s and d of the words’ sum and difference |
| `FriAcceptance.OperandsInRange` | `crates/zk/src/fri.rs:232-233` | those residues are the field sum and difference where neither operator leaves its range |
| `FriAcceptance.LayersExact` | `crates/zk/src/fri.rs:212-239` | the layer checks of a query hold iff at every layer j, at the point start^(2^j), all openings verify, the last layer matches the final coefficients, and the fold equation holds |
| `FriAcceptance.AlphaAt` | `crates/zk/src/fri.rs:196-201` | challenge j is squeezed after the roots up to j |
| `FriAcceptance.AcceptExact` | `crates/zk/src/fri.rs:179-255` | for every proof object, honest or not, with any 64-bit words: accepted iff shape, every query and layer, and the boundary are as stated |
| `AcceptanceLimits.ClaimAcceptedExact` | `crates/zk/src/fri.rs:179-255` | some accepted proof has a given first root and claims v at the i-th point iff some path opens index i of that root to v |
| `AcceptanceLimits.FirstRootUndetermined` | `crates/zk/src/fri.rs:203-253` | for every table of 2^k words, every index and every query count some accepted proof’s first root commits to that table, with the entry as claim or with none |
| `AcceptanceLimits.ClaimsUnbound` | `crates/zk/src/fri.rs:241-253` | for every hash, k and two values there is a first root accepted with both at the second point of the domain |
| `Challenge.DeriveChallenge` | `crates/zk/src/stark.rs:35-52` | the buffer loops hash the roots and final coefficients of both proofs in order |
| `Challenge.MessageLayout` | `crates/zk/src/stark.rs:35-52` | every root and every final coefficient stands at its place in the hashed message: trace roots, quotient roots, trace coefficients, quotient coefficients |
| `Challenge.MessageBinding` | `crates/zk/src/stark.rs:35-52` | with equal numbers of roots, equal messages have equal roots and equal final coefficients |
| `Challenge.ChallengeBinding` | `crates/zk/src/stark.rs:35-52` | equal challenges mean the same commitments, or two different messages whose hashes have first words that agree modulo p |
| `TransitionRows.BoundaryInDomain` | `crates/zk/src/stark.rs:101-101` | the last row is a domain point |
| `TransitionRows.DomainProduct` | `crates/zk/src/stark.rs:83-93` | the linear factors of the whole domain multiply to X^N − 1 |
| `TransitionRows.DivisionOverRows` | `crates/zk/src/stark.rs:88-99` | dividing a polynomial that vanishes on all rows but the last by their linear factors is exact |
| `SquareChain.PublicB` | `crates/zk/src/stark.rs:158-164` | the loop computes the last element of the integer chain modulo p |
| `SquareChain.ChainIsInteger` | `crates/zk/src/stark.rs:74-78` | element i is the integer chain n ↦ n² + c started at a, modulo p |
| `SquareChain.TraceLoop` | `crates/zk/src/stark.rs:73-78` | the trace loop lists the chain |
| `SquareChain.ConstraintVanishes` | `crates/zk/src/stark.rs:83-87` | an interpolated chain satisfies the transition constraint on every row but the last |
| `SquareChain.QuotientOf` | `crates/zk/src/stark.rs:83-99` | the constraint polynomial divides without remainder, and the debug assertion holds |
| `SquareChain.ProveSquareChain` | `crates/zk/src/stark.rs:66-116` | the prover returns the proof assembled from interpolant and exact quotient |
| `SquareChain.VerifySquareChain` | `crates/zk/src/stark.rs:119-155` | the verifier computes the specified verdict |
| `CircuitAcceptance.ChainAcceptExact` | `crates/zk/src/stark.rs:119-155` | any proof is accepted iff both commitments pass the low-degree test (the trace’s with b claimed at ω^(N−1)), the challenge is the first word of the message’s hash, and q·∏(χ − ω^i) = t′ − t² − c on the opened words |
| `CircuitAcceptance.ChainVerdictExact` | `crates/zk/src/stark.rs:119-155` | which check decides, in order: trace, quotient, challenge, constraint |
| `CircuitAcceptance.ChainChallengeBinds` | `crates/zk/src/stark.rs:119-155` | two accepted proofs of one length with one challenge have the same commitments, or their different messages meet |
| `SquareChain.AcceptedChallengeIsDerived` | `crates/zk/src/stark.rs:138-141` | every accepted proof carries the first word, modulo p, of the hash of the message that lists its commitments |
| `SquareChain.SquareChainComplete` | `crates/zk/src/stark.rs:66-155` | for every secret, constant, 2 ≤ n_log2 ≤ 31, query count and hash the honest proof is accepted for the chain’s output |
| `SquareChain.HonestProofExact` | `crates/zk/src/stark.rs:119-155` | it is accepted for another constant and output iff both are the same field elements |
| `SquareChain.TraceUnique` | `crates/zk/src/stark.rs:80-82` | the chain determines the trace polynomial |
| `SquareChain.ProveThenVerify` | `crates/zk/src/stark.rs:66-164` | proving, computing public_b and verifying always accepts |
| `Tower.SimulateTower` | `crates/zk/src/tower.rs:56-66` | for any number of layers the loop computes the integer recurrence modulo p, with the saturating start |
| `Tower.DifficultyValue` | `crates/zk/src/tower.rs:50-52` | the difficulty polynomial takes the value A·x² + B·x + C modulo p |
| `Tower.TowerIsRecurrence` | `crates/zk/src/tower.rs:56-66` | the power after i layers is the integer recurrence p·(1000 + g) − 1000·(A·x² + B·x + C) from min(1000·initial, 2^64 − 1), modulo p |
| `Tower.TraceLoop` | `crates/zk/src/tower.rs:112-118` | the trace lists the recurrence |
| `Tower.ConstraintVanishes` | `crates/zk/src/tower.rs:121-124` | an interpolated trace satisfies the constraint on rows 0..126 |
| `Tower.ConstraintAtLastRow` | `crates/zk/src/tower.rs:121-124` | on the last row the constraint compares the value after 128 layers with the start |
| `Tower.CastOfMinusOne` | `crates/zk/src/tower.rs:130-130` | the added constant is 2^32 − 2, not −1 |
| `Tower.QuotientIgnoresConstant` | `crates/zk/src/tower.rs:125-134` | whatever constant is added, the quotient by X − ω^127 takes the values of (X^N − 1)/(X − ω^127) |
| `Tower.ZIsRowProduct` | `crates/zk/src/tower.rs:125-134` | hence Z is the product of X − ω^i over the rows but the last |
| `Tower.BuildZ` | `crates/zk/src/tower.rs:125-134` | the block that builds Z returns that product |
| `Tower.FastVanishingIsExact` | `crates/zk/src/tower.rs:189-191` | (χ^128 − 1)·(χ − ω^127)^−1 is that product at χ, except at χ = ω^127, where it is zero |
| `Tower.QuotientOf` | `crates/zk/src/tower.rs:123-140` | the constraint polynomial divides by Z without remainder |
| `Tower.ProveTower` | `crates/zk/src/tower.rs:100-157` | the prover returns the proof assembled from interpolant and exact quotient |
| `Tower.VerifyTower` | `crates/zk/src/tower.rs:160-199` | the verifier computes the specified verdict |
| `CircuitAcceptance.TowerAcceptExact` | `crates/zk/src/tower.rs:160-199` | any proof is accepted iff both commitments pass the low-degree test on 512 points (the trace’s with the claim at ω^127), the challenge is the first word of the message’s hash, and q·Z = t′ − t·(1000 + g) + 1000·(A·χ² + B·χ + C) on the opened words |
| `CircuitAcceptance.TowerVerdictExact` | `crates/zk/src/tower.rs:160-199` | which check decides, in order: trace, quotient, challenge, constraint |
| `CircuitAcceptance.TowerChallengeBinds` | `crates/zk/src/tower.rs:160-199` | two accepted proofs with one challenge have the same commitments, or their different messages meet |
| `Tower.AcceptedChallengeIsDerived` | `crates/zk/src/tower.rs:184-187` | every accepted proof carries the first word, modulo p, of the hash of the message that lists its commitments |
| `Tower.TowerComplete` | `crates/zk/src/tower.rs:100-199` | the honest proof is accepted for the simulated final power iff χ ≠ ω^127 or the recurrence returns to its start after 128 layers |
| `Tower.ClaimExact` | `crates/zk/src/tower.rs:173-180` | the honest proof, offered for another claim, is accepted only if that is the same field element |
| `Tower.ConfigExact` | `crates/zk/src/tower.rs:183-197` | the honest proof, offered for another configuration and claim, is accepted iff the claim is the final power and both configurations step alike from the trace’s value at χ; on the last row, iff the other one steps from the last power to the first |
| `Tower.ProveThenVerify` | `crates/zk/src/tower.rs:56-199` | proving, simulating and verifying accepts under exactly that condition on the returned honest proof’s challenge |
| `HonestRejections.TowerRejected` | `crates/zk/src/tower.rs:160-199` | an input at which it fails: growth p − 1000, zero coefficients, initial power 1, every hash naming row 127 |
| `HonestRejections.RejectedTower` | `crates/zk/src/tower.rs:100-199` | running prover and verifier on that input rejects an honest proof |
| `AcceptanceLimits.OutputUndetermined` | `crates/zk/src/stark.rs:126-153` | for every hash, constant, output, length from 4 to 2^32 and query count some square-chain proof is accepted |
| `AcceptanceLimits.RollUndetermined` | `crates/zk/src/enhance.rs:303-391` | for every hash, public roll and query count from 16 on some enhance proof is accepted |
| `AcceptanceLimits.ClaimUndetermined` | `crates/zk/src/tower.rs:174-198` | for every hash, configuration, claim and query count some proof is accepted |
| `Words.BitOfXor` | `crates/zk/src/enhance.rs:106-112` | bit j of an exclusive or is the parity of the two bits |
| `Words.BitOfShl` | `crates/zk/src/enhance.rs:106-112` | bits under a wrapping left shift |
| `Words.BitOfShr` | `crates/zk/src/enhance.rs:106-112` | bits under a right shift |
| `Words.FromBitsOf` | `crates/zk/src/enhance.rs:62-69` | a word is assembled from its bits |
| `XorshiftAir.BitOfSub` | `crates/zk/src/enhance.rs:106-112` | each sub-step is the exclusive or of two columns |
| `XorshiftAir.LastWordIsRollWord` | `crates/zk/src/enhance.rs:30-43` | nine sub-steps are three rounds of xorshift |
| `XorshiftAir.XorshiftBits` | `crates/zk/src/enhance.rs:30-37` | one round bit by bit: the exclusive or with bit j − 13, then with bit j + 7, then with bit j − 17 |
| `XorshiftAir.BitConstraintExact` | `crates/zk/src/enhance.rs:158-165` | b² − b = 0 holds only for 0 and 1 |
| `XorshiftAir.StepConstraintExact` | `crates/zk/src/enhance.rs:166-179` | on a row of bits the step constraint holds iff the next cell is the bit of the next word |
| `XorshiftAir.AirExact` | `crates/zk/src/enhance.rs:158-179` | a 16×64 trace satisfies the bit and step constraints of rows 0..9 iff those rows are the nine successive sub-steps of one 64-bit seed |
| `XorshiftAir.ModRowHolds` | `crates/zk/src/enhance.rs:180-195` | the mod-1000 row holds on the trace of a seed and its roll |
| `XorshiftAir.TraceSatisfies` | `crates/zk/src/enhance.rs:127-149` | the trace of a seed and its roll satisfies every constraint of a listed shape |
| `EnhanceConstraints.DescriptorsListed` | `crates/zk/src/enhance.rs:151-209` | all 1024 constraints have a listed shape |
| `EnhanceConstraints.Positions` | `crates/zk/src/enhance.rs:156-208` | where every group stands in the list |
| `EnhanceValues.ConstraintIntegers` | `crates/zk/src/enhance.rs:152-208` | the four kinds of constraint as integers modulo p: b² − b, t′ − (a + s − 2as), Σ2^j·x_j − 1000·q − Σ2^i·r_i, and the cell |
| `EnhanceConstraints.TraceSatisfiesAll` | `crates/zk/src/enhance.rs:127-209` | the trace of a seed and its roll satisfies all 1024 constraints |
| `EnhanceConstraints.WordPartExact` | `crates/zk/src/enhance.rs:156-179` | the word-bit and step constraints of that list hold iff rows 0..9 are the sub-steps of one seed |
| `EnhanceConstraints.EvalPolyOf` | `crates/zk/src/enhance.rs:152-208` | every constraint polynomial takes the constraint’s value at every point |
| `EnhanceConstraints.ShiftedRows` | `crates/zk/src/enhance.rs:263-266` | multiplying by ω, ω^−4, ω^−5 moves to rows m + 1, m − 4, m − 5 modulo 16 |
| `EnhanceConstraints.ValueOnRow` | `crates/zk/src/enhance.rs:417-436` | on a domain row the polynomial has the value of the trace’s rows |
| `EnhanceConstraints.QuotientExists` | `crates/zk/src/enhance.rs:236-245` | dividing a satisfied constraint by the vanishing polynomial of its rows leaves no remainder |
| `EnhanceConstraints.PolyOfLength` | `crates/zk/src/enhance.rs:258-262` | no constraint polynomial has more than 31 coefficients |
| `EnhanceProtocol.EvalCombine` | `crates/zk/src/enhance.rs:250-257` | the combined polynomial takes the combined value |
| `EnhanceProtocol.TermIsQuotientShare` | `crates/zk/src/enhance.rs:327-387` | α·C(χ)/Z(χ) is the quotient’s share off the rows of the constraint and zero on them |
| `EnhanceProtocol.SumsAgree` | `crates/zk/src/enhance.rs:311-391` | Q(χ) is the verifier’s sum plus the terms whose rows contain χ |
| `EnhanceProtocol.NothingMissing` | `crates/zk/src/enhance.rs:311-391` | outside the 16-point domain there are no such terms |
| `EnhanceProtocol.TauOnRollRow` | `crates/zk/src/enhance.rs:291-299` | the combined trace on row 10 is the verifier’s expected value |
| `EnhanceProtocol.RollRowInFriDomain` | `crates/zk/src/enhance.rs:258-261` | ω^10 is a point of the 64-point FRI domain |
| `EnhanceProtocol.EnhanceComplete` | `crates/zk/src/enhance.rs:222-392` | with at least 16 queries the honest proof is accepted iff the missing terms cancel, in particular for every χ outside the 16-point domain |
| `EnhanceProtocol.RollExact` | `crates/zk/src/enhance.rs:291-309` | the honest proof, offered for another public roll, is accepted iff its weighted bits have the same sum |
| `EnhanceProtocol.CanonicalWeightedSum` | `crates/zk/src/enhance.rs:311-387` | the sum evaluated on opened words is the field sum when the words are canonical |
| `EnhanceValues.TermOnWords` | `crates/zk/src/enhance.rs:318-387` | a term of the hand-evaluated sum on any opened words: coefficient times constraint times inverse product, operator by operator |
| `EnhanceValues.ProductOnWords` | `crates/zk/src/enhance.rs:320-326` | the product over the rows multiplies up χ − ω^m in order |
| `EnhanceValues.SumOnWords` | `crates/zk/src/enhance.rs:353-369` | the sum over columns adds t_j·2^j in order |
| `EnhanceProtocol.AnyChallengeExact` | `crates/zk/src/enhance.rs:312-392` | commitments to any satisfying trace opened at any χ, derived or not, are accepted iff the missing terms at χ cancel, in particular for every χ outside the 16-point domain |
| `EnhanceProtocol.UnderivedChallengeAccepted` | `crates/zk/src/enhance.rs:312-392` | for every satisfying trace an accepted proof whose challenge is not the derived one |
| `SatisfyingTraces.ModRowExact` | `crates/zk/src/enhance.rs:180-195` | with x in row 9 and the roll in row 10 the modulus row holds iff its quotient cell is the field’s (x − r)/1000 |
| `SatisfyingTraces.AllSatisfiedExact` | `crates/zk/src/enhance.rs:152-209` | a 16×64 trace satisfies all 1024 constraints iff it is the trace of some seed and some roll below 1024 with the field’s quotient in row 14 |
| `SatisfyingTraces.AnyRollSatisfies` | `crates/zk/src/enhance.rs:1-6` | every seed and every roll below 1024 have a satisfying trace, not only the seed’s own roll |
| `SatisfyingTraces.RollNotTied` | `crates/zk/src/enhance.rs:1-6` | for every seed a satisfying trace that shows a roll below 1000 other than x mod 1000 |
| `SatisfyingTraces.RollTiedExact` | `crates/zk/src/enhance.rs:1-6` | the roll of a satisfying trace is x mod 1000 iff it is below 1000 and the modulus row holds over the integers |
| `SatisfyingTraces.HonestTraceWith` | `crates/zk/src/enhance.rs:127-149` | with the seed’s own roll the trace is the one the source builds |
| `SatisfyingTraces.ColumnsExist` | `crates/zk/src/enhance.rs:227-233` | every 16×64 trace has column polynomials |
| `SatisfyingTraces.PolynomialsExact` | `crates/zk/src/enhance.rs:227-245` | columns with exact quotients exist for a trace that shows the roll iff it satisfies all constraints |
| `SatisfyingTraces.AnyRollAccepted` | `crates/zk/src/enhance.rs:222-391` | for every seed and every roll below 1024 there are columns and quotients whose proof is accepted for that roll, whatever the hash, at every χ outside the 16-point domain |
| `EnhanceLoops.WordBits` | `crates/zk/src/enhance.rs:63-69` | the loop lists the 64 bits, lowest first |
| `EnhanceLoops.WordsLoop` | `crates/zk/src/enhance.rs:127-133` | the loop lists the seed and the nine sub-steps |
| `EnhanceLoops.BuildTrace` | `crates/zk/src/enhance.rs:127-149` | the cell-writing loops build exactly the trace of the seed and roll |
| `EnhanceLoops.InterpolateColumns` | `crates/zk/src/enhance.rs:227-233` | one column polynomial per bit, taking the trace’s values |
| `EnhanceLoops.BuildConstraints` | `crates/zk/src/enhance.rs:152-209` | the loops push all 1024 rows-and-polynomial pairs in the order of the list |
| `EnhanceLoops.Vanishing` | `crates/zk/src/enhance.rs:212-219` | the loop multiplies the linear factors of the rows |
| `EnhanceLoops.Quotients` | `crates/zk/src/enhance.rs:236-245` | every constraint gets its exact quotient, and the debug assertion holds |
| `EnhanceLoops.DrawCoefficients` | `crates/zk/src/enhance.rs:246-249` | both sides draw 64 and then 1024 coefficients from an empty transcript |
| `EnhanceValues.CoefficientsFlat` | `crates/zk/src/enhance.rs:246-249` | the coefficients are the first words of one chain of 1088 digests, each the hash of the one before and 32 zero bytes: 64 for the columns, then 1024 for the constraints |
| `EnhanceValues.ExpectedTauIs` | `crates/zk/src/enhance.rs:293-299` | the boundary value is the sum of β_j times bit j of the roll, modulo p |
| `EnhanceLoops.ProveEnhance` | `crates/zk/src/enhance.rs:222-280` | for a seed and its roll the prover returns the proof assembled from columns and quotients |
| `EnhanceLoops.RowProduct` | `crates/zk/src/enhance.rs:320-326` | the closure zc evaluates the vanishing polynomial |
| `EnhanceLoops.SumLoop` | `crates/zk/src/enhance.rs:318-387` | the hand-evaluated groups add up, in order and count, to the weighted sum over the list |
| `EnhanceLoops.VerifyEnhance` | `crates/zk/src/enhance.rs:283-392` | the verifier computes the specified verdict |
| `CircuitAcceptance.EnhanceAcceptExact` | `crates/zk/src/enhance.rs:283-392` | any proof is accepted iff there are at least 16 queries, both commitments pass the low-degree test (on 64 points with the weighed roll bits claimed at ω^10, and on 128 points), at least 64 columns are opened, and the hand-evaluated sum is Q(χ) |
| `CircuitAcceptance.EnhanceVerdictExact` | `crates/zk/src/enhance.rs:283-392` | which check decides, in order: query count, trace, quotient, number of columns, constraint |
| `CircuitAcceptance.EnhanceMessageLayout` | `crates/zk/src/enhance.rs:94-103` | the hashed message is the trace root, the quotient root and the coefficients in eight bytes each |
| `CircuitAcceptance.EnhanceChallengeBinding` | `crates/zk/src/enhance.rs:94-103` | equal challenges mean equal roots and coefficients, or two different messages whose hashes have first words that agree modulo p |
| `CircuitAcceptance.EnhanceChallengeIs` | `crates/zk/src/enhance.rs:264-265` | the honest proof’s challenge is computed from the roots and coefficients that it carries |
| `EnhanceLoops.ProveThenVerify` | `crates/zk/src/enhance.rs:222-392` | proving and verifying accepts for every seed whenever the returned honest proof’s challenge lies outside the 16-point domain |
| `HonestRejections.EnhanceRejected` | `crates/zk/src/enhance.rs:283-392` | an input at which the honest proof is rejected: seed 2^63 and a hash that draws row 11 as challenge and weighs one constraint of that row |
| `HonestRejections.RejectedEnhance` | `crates/zk/src/enhance.rs:222-392` | running prover and verifier on that input rejects an honest proof |
| `PowTarget.AsU128` | `crates/rabbitcore/src/account/account.rs:102-106` | the low half of a 256-bit word |
| `PowTarget.Padded` | `crates/rabbitcore/src/account/account.rs:116-121` | from_big_endian keeps the value of up to 32 bytes |
| `PowTarget.LexIsValueOrder` | `crates/rabbitcore/src/account/account.rs:66-67` | the derived byte order is the order of values |
| `PowTarget.DivideByte` | `crates/rabbitcore/src/block/mod.rs:626-640` | one step of the byte division: within 128 bits, and the clamp to a byte never applies |
| `PowTarget.LongDivision` | `crates/rabbitcore/src/block/mod.rs:624-640` | 32 steps give the quotient of 2^256 − 1 |
| `PowTarget.PowTargetFromDifficulty` | `crates/rabbitcore/src/block/mod.rs:611-631` | all branches, for every 256-bit difficulty: the maximum for zero, zero for an unusable low half, else the quotient by the low half |
| `PowTarget.HashMeetsTarget` | `crates/rabbitcore/src/block/mod.rs:633-635` | a hash meets a target iff its value is at most the target’s |
| `PowTarget.AcceptanceExact` | `crates/rabbitcore/src/block/mod.rs:611-635` | a hash is accepted iff hash·d < 2^256, for all hashes, iff d < 2^120 |
| `PowTarget.TargetExact` | `crates/rabbitcore/src/block/mod.rs:611-631` | the target of every 256-bit difficulty by the values it admits |
| `PowTarget.AcceptanceFailsAbove` | `crates/rabbitcore/src/block/mod.rs:615-621` | for every d ≥ 2^120 a hash on which it fails |
| `PowTarget.MonotoneExact` | `crates/rabbitcore/src/block/mod.rs:611-635` | raising the difficulty to d never admits a new hash iff d < 2^120 or the low half of d is zero or at least 2^120 |
| `PowTarget.LargeDifficultyCanBeEasy` | `crates/rabbitcore/src/block/mod.rs:615-621` | difficulty 2^128 + 1 has the maximal target while 2^120 has target zero |
| `PowTarget.PowCheckExact` | `crates/rabbitcore/src/block/mod.rs:611-635` | end to end on bytes, for difficulties below 2^120 |
| `LineFraming.TcpPeerWire.TakeLine` | `crates/rabbitnet/src/lib.rs:150-162` | a complete line is drained; too long, not UTF-8, or returned |
| `LineFraming.TcpPeerWire.ReadLine` | `crates/rabbitnet/src/lib.rs:147-187` | the loop computes the specified outcome, buffer and remaining events |
| `LineFraming.CallIsFaithful` | `crates/rabbitnet/src/lib.rs:147-187` | a call returns exactly the next line of the stream and leaves the rest, or loses nothing when cancelled, or reports what ends the stream |
| `LineFraming.FramingIndependent` | `crates/rabbitnet/src/lib.rs:128-187` | for any cut into reads and any cancelled calls the outcomes are those of the whole byte stream split at newlines |
| `LineFraming.SameBytesSameLines` | `crates/rabbitnet/src/lib.rs:128-187` | two schedules with the same bytes and the same end give the same outcomes |
| `LineFraming.WrittenLinesAreRead` | `crates/rabbitnet/src/lib.rs:147-187` | written lines are read back exactly, then the end is reported |
| `LineFraming.OutcomeExact` | `crates/rabbitnet/src/lib.rs:146-184` | a call that ends with a result reports exactly what the unsplit stream means: the line, too long, not UTF-8, end, closed mid-frame or failed |
| `LineFraming.CancelledExact` | `crates/rabbitnet/src/lib.rs:146-184` | a call has no result iff nothing it reads completes or overflows a frame, and then it is dropped or left waiting |
| `LineFraming.LeftAfterCall` | `crates/rabbitnet/src/lib.rs:146-184` | what a call leaves: a line that is not UTF-8 is taken off the stream, everything unread at the end stays in the buffer |
| `LineFraming.TooLongExact` | `crates/rabbitnet/src/lib.rs:153-170` | a call that ends with a result reports too long iff the current frame exceeds the limit |
| `LineFraming.BufferBounded` | `crates/rabbitnet/src/lib.rs:164-173` | the buffer never exceeds the limit by more than one chunk |
| `BodyCache.PairsExact` | `crates/rabbitnet/src/lib.rs:814-833` | the pair loop finds nothing iff every receipt belongs to its transaction and block |
| `BodyCache.InsertExact` | `crates/rabbitnet/src/lib.rs:799-866` | a record is accepted iff its version is 1, its receipts belong to it, the first block with its hash has its height and no other roots, and the first block at its height has its hash |
| `BodyCache.ChainAgreesOnMap` | `crates/rabbitnet/src/lib.rs:835-863` | on a chain with different heights and hashes: a block has the record’s height iff it has its hash, and then no other root |
| `BodyCache.RecordErrorExact` | `crates/rabbitnet/src/lib.rs:800-833` | version, length and pair errors in this order, before the chain is consulted |
| `BodyCache.PairErrorExact` | `crates/rabbitnet/src/lib.rs:814-833` | the first pair that does not match decides the error |
| `BodyCache.ChainErrorExact` | `crates/rabbitnet/src/lib.rs:835-863` | the errors against the chain in their order |
| `BodyCache.CommitIs` | `crates/rabbitcore/src/block/mod.rs:132-136` | the commitments of a body replace both roots of a block and nothing else |
| `BodyCache.HeaderExact` | `crates/rabbitcore/src/block/mod.rs:384-404` | validation against a header succeeds iff the pairs are the block’s and both roots are the body’s |
| `BodyCache.SecondCheckNeverFails` | `crates/rabbitnet/src/lib.rs:835-845` | after reconciling, validation against the header cannot fail |
| `BodyCache.GlobalBodies.ValidateInsert` | `crates/rabbitnet/src/lib.rs:799-866` | validation returns the specified first error |
| `BodyCache.GlobalBodies.RemoveBlockReceipts` | `crates/rabbitnet/src/lib.rs:771-779` | the loop removes every receipt’s transaction from the index |
| `BodyCache.GlobalBodies.IndexBlockReceipts` | `crates/rabbitnet/src/lib.rs:761-769` | the loop enters receipts in order, later ones winning |
| `BodyCache.GlobalBodies.RemoveBlockBodies` | `crates/rabbitnet/src/lib.rs:737-759` | bodies, queue and index after a removal |
| `BodyCache.GlobalBodies.PushHash` | `crates/rabbitnet/src/lib.rs:712-725` | the hash moves to the back and the oldest beyond the limit are popped |
| `BodyCache.GlobalBodies.InsertBody` | `crates/rabbitnet/src/lib.rs:703-728` | insertion, replaced receipts and eviction |
| `BodyCache.GlobalBodies.UpdateCommitments` | `crates/rabbitnet/src/lib.rs:781-797` | the first canonical block with the hash gets roots and body |
| `BodyCache.GlobalBodies.StoreBlockBody` | `crates/rabbitnet/src/lib.rs:697-735` | the whole new state and the error of a store; the missing-block error cannot occur; the invariant is kept |
| `BodyCache.StoreResultExact` | `crates/rabbitnet/src/lib.rs:697-701` | a refused or unpersisted store changes nothing and says why |
| `BodyCache.StoredQueue` | `crates/rabbitnet/src/lib.rs:712-728` | the queue after a store: the hash at the back, the others in their order, the oldest gone from a full queue if the hash is new |
| `BodyCache.StoredReceipts` | `crates/rabbitnet/src/lib.rs:703-731` | the index after a store: the record’s last receipt for each transaction, and what was there for transactions of neither the replaced nor the evicted body |
| `BodyCache.StoredBlocks` | `crates/rabbitnet/src/lib.rs:781-797` | the first block with the hash gets both roots and the body, every other block stays |
| `BodyCache.RemovedExact` | `crates/rabbitnet/src/lib.rs:737-759` | removal drops the bodies, their places in the queue and every index entry for one of their transactions, and nothing else |
| `BodyCache.LastReceiptWins` | `crates/rabbitnet/src/lib.rs:761-769` | of receipts of one transaction the last one is indexed |
| `BodyCache.WithoutConcat` | `crates/rabbitnet/src/lib.rs:714-714` | retain filters front to back |
| `BodyCache.RemovedKeeps` | `crates/rabbitnet/src/lib.rs:737-759` | removal keeps the invariant |
| `BodyCache.StoredKeeps` | `crates/rabbitnet/src/lib.rs:697-735` | storing keeps the invariant, makes the body the newest, and indexes its receipts under its block |
| `BodyCache.OnlyOldestEvicted` | `crates/rabbitnet/src/lib.rs:712-728` | a body disappears iff the hash is new, the cache is full and the body is the oldest; others are unchanged |
| `BodyCache.CacheBounded` | `crates/rabbitnet/src/lib.rs:712-725` | never more than 50 000 bodies |
| `BodyCache.ReachableIsValid` | `crates/rabbitnet/src/lib.rs:697-779` | every state reachable by stores, failed stores, removals, resets and chain changes satisfies the invariant |
| `BodyCache.RemovalKeepsComplete` | `crates/rabbitnet/src/lib.rs:737-759` | removing bodies from a completely indexed cache leaves the rest completely indexed |
| `BodyCache.StoredIndexExact` | `crates/rabbitnet/src/lib.rs:697-735` | a store keeps the index complete iff the record’s transactions differ from each other and from those of the bodies cached before it, except the replaced one and, when the cache is full, the oldest |
| `BodyCache.SharedTransactionIsLost` | `crates/rabbitnet/src/lib.rs:697-769` | two accepted records that share a transaction: both bodies stay cached, and one receipt can no longer be found |
| `SyncHeaders.NumberRoundTrip` | `crates/rabbitnet/src/lib.rs:2817-2819` | printed numbers parse back, in decimal and hexadecimal |
| `SyncHeaders.DifficultyRoundTrip` | `crates/rabbitnet/src/lib.rs:2742-2757` | 0x-prefixed hexadecimal difficulties parse back |
| `SyncHeaderTexts.DecimalRoundTrip` | `crates/rabbitnet/src/lib.rs:2742-2757` | decimal difficulties parse back |
| `SyncHeaderTexts.DifficultyExact` | `crates/rabbitnet/src/lib.rs:2742-2757` | a difficulty parses to n iff its trimmed text is decimal for n, or 0x or 0X and hexadecimal for n, or a bare prefix and n is 0; and n < 2^64 |
| `SyncHeaderTexts.UnsignedExact` | `crates/rabbitnet/src/lib.rs:2817-2819` | a number parses to n iff the text is a numeral of n, in either case, with leading zeros and a plus sign allowed; and n is below the limit |
| `SyncHeaderTexts.TrimExact` | `crates/rabbitnet/src/lib.rs:2743-2743` | trimming takes whitespace off both ends and leaves none there |
| `SyncHeaderTexts.WhitespaceExact` | `crates/rabbitnet/src/lib.rs:2743-2743` | the 25 characters that are trimmed |
| `SyncHeaders.HexRoundTrip` | `crates/rabbitnet/src/lib.rs:2732-2740` | hexadecimal decoding undoes encoding |
| `SyncHeaderTexts.HexExact` | `crates/rabbitnet/src/lib.rs:2733-2733` | a text decodes to bytes iff it is their hexadecimal form in either case |
| `SyncHeaders.FixedRoundTrip` | `crates/rabbitnet/src/lib.rs:2732-2761` | prefixed hashes and addresses parse back |
| `SyncHeaderTexts.FixedExact` | `crates/rabbitnet/src/lib.rs:2732-2740` | a text is accepted for exactly the bytes of the right length whose digits it holds, with or without 0x |
| `SyncHeaders.SplitJoin` | `crates/rabbitnet/src/lib.rs:2785-2797` | splitting undoes joining for parts without the separator |
| `SyncHeaderTexts.JoinSplit` | `crates/rabbitnet/src/lib.rs:2794-2797` | and joining undoes splitting |
| `SyncHeaders.PartsRoundTrip` | `crates/rabbitnet/src/lib.rs:2797-2871` | each of the four field layouts parses to the header it abbreviates |
| `SyncHeaderTexts.FieldReadsExact` | `crates/rabbitnet/src/lib.rs:2817-2856` | a field is accepted iff its text stands for some value |
| `SyncHeaderTexts.WrongCount` | `crates/rabbitnet/src/lib.rs:2813-2815` | any other number of fields is an error that names it |
| `SyncHeaderTexts.FirstBadField` | `crates/rabbitnet/src/lib.rs:2798-2856` | the first field that does not parse decides the error |
| `SyncHeaderTexts.AllFieldsRead` | `crates/rabbitnet/src/lib.rs:2798-2871` | otherwise the item is the header whose fields the texts mean, with version 1 and zero roots where left out |
| `SyncHeaders.ParseUndoesFormat` | `crates/rabbitnet/src/lib.rs:2763-2874` | parse(format(headers)) = headers for every list, the empty list and empty extra data included |
| `SyncHeaderTexts.ParseExact` | `crates/rabbitnet/src/lib.rs:2788-2796` | whitespace alone is the empty list; any other text is trimmed and cut at its commas |
| `SyncHeaderTexts.FirstBadItem` | `crates/rabbitnet/src/lib.rs:2794-2873` | the first item that is no header decides the error |
| `SyncHeaderTexts.AllItemsRead` | `crates/rabbitnet/src/lib.rs:2794-2873` | if all items are headers the result lists them |
| `SyncHeaderTexts.PrintedFields` | `crates/rabbitnet/src/lib.rs:2763-2786` | the thirteen texts of a printed header, in order |
| `SyncHeaderTexts.PrintCanonical` | `crates/rabbitnet/src/lib.rs:2767-2782` | printed numbers have no leading zero |
| `SyncHeaders.FormatIsInjective` | `crates/rabbitnet/src/lib.rs:2763-2786` | different lists print differently |
| `SyncHeaders.OlderFormsParse` | `crates/rabbitnet/src/lib.rs:2798-2837` | items without version (then 1) or without roots (then zero) parse |

## Left out

Parameters in place of code that is not modelled:

- Keccak-256: any function from byte strings to 32 bytes; nothing is assumed about it, and binding results name the messages that would have to collide.
- UTF-8 validation, the transactions and receipts roots of a body, and the outcome of writing the sidecar file.
- The socket: a schedule of reads, end, error and cancellation points.

Preconditions that stand for the source's own limits:

- `root_of_unity` and everything on domains: k ≤ 32, as its debug assertion demands.
- `Poly::mul`: operands not both empty (the length would underflow) and product length ≤ 2^32.
- Square chain: 2 ≤ n_log2 ≤ 31, from the boundary opening (which needs a committed layer) and the length of T².
- `prove_enhance`: the roll is the seed's, as its assertion demands.
- `MerkleTree::new`: a power-of-two number of leaves, as its assertion demands.
- `from_big_endian`: at most 32 bytes; longer slices panic.
- Boundary points lie in the domain and k ≥ 2; otherwise `prove` panics.

Not modelled:

- Machine words of lengths and indices: `usize` is 64 bits wide where an index is hashed and unbounded elsewhere.
- Debug builds: the model follows a release build, where arithmetic wraps and inverting zero gives zero. A build with overflow checks stops at 1000 + growth from 2^64 on and at a field subtraction exactly when b − a > p, and one with debug assertions at every inversion of zero.
- Non-canonical words on the prover's side: provers start from reduced inputs and produce reduced words only.
- Panics inside verifiers on malformed proofs: they are verdicts of their own (`Panic`, `MissingColumns`).
- Error texts: errors are values that carry the layer or field index only.
- Soundness: no statement that an accepted proof comes from a trace is made. The modelled checks do not give one on their own, whatever the hash: see `AcceptanceLimits` and `SatisfyingTraces`.
- Serialisation with bincode and JSON (`to_bytes`, `from_bytes`), hexadecimal payloads, and the wire frame around header lists.
- `U256` arithmetic other than construction, the low half and the order.
- Locks and interleaving of the body cache: one single-threaded object; persistence, loading and the canonical chain's own updates are inputs.
- `BodyCache`: receipts and transactions carry their identifiers and an uninterpreted payload.
- The async sync loop, discovery, bans, RPC, CLI, governance, gas and battle rules: easy or input/output code beside the core.
