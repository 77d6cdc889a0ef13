# MCRG / J-PEQT verification

This project models the arithmetic, state and concurrency of the multi-party private set intersection code
and proves what the protocol relies on. Five cores are covered.

- **Query powers.** `PowersDag::configure` chooses how every power of the encrypted query is multiplied together,
  `PowersDag::parallel_apply` runs the choice with any number of lock-free workers, and the sender supplies the
  source powers. `PowersDag`, `ParallelApply`, `ParallelRuns`, `PlaintextPowers`, `QueryPowers`.
- **Polynomials over the plain modulus.** Products of roots, Newton interpolation, batching over the slots, plain
  and Paterson-Stockmeyer evaluation, and what a masked result reveals. `Interpolate`, `SlotPolys`, `Seal`,
  `BatchedPolyn`.
- **FourQ scalars.** The truncated product and decomposition with the lattice behind it, the three recodings, the scalar
  multiplications that use them, Montgomery arithmetic modulo the order and the sliding-window inversion. `Words`,
  `Decomposition`, `Lattice`, `GlvRecode`, `EccMul`, `MlsbRecode`, `Montgomery`, `FixedBase`, `MontgomeryInversion`, `Wnaf`.
- **The receiver's database.** A bin bundle with bins, labels, filters and a derived cache, and the workers that
  fill the bundle sets. `Bins`, `BundleState`, `BinBundle`, `BundleRuns`, `DbInsert`.
- **Reading the results.** Masks, packing and the collecting workers; the J-PEQT and JP-PEQT rings for any number of
  parties; the zero-test circuit and the shared selection. `ResultBlocks`, `MaskLayout`, `ResultWorkers`,
  `ResultMatching`, `ElGamal`, `JPeqt`, `JPeqtRuns`, `ZeroTest`.

`QueryReply` joins the first, second and fourth: from the query to the reply for a bin bundle.

`ModArith`, `BinarySums`, `Group`, `Slots` and `Exceptions` hold what these share: congruences up to Fermat's little
theorem, binary expansions, an abelian group, slot vectors and the C++ exceptions as results. Concurrent code is a
state machine over its atomic steps, and statements about it are about every interleaving; objects whose methods
update fields are classes; loops are loops with invariants. Libraries enter by contract only: a ciphertext is a slot
vector with an NTT flag and a level, a curve point is an element of an abelian group, an approximate-membership
filter has no false negatives, a secure evaluation returns exclusive-or shares of the circuit's output.

## What the code does beyond its comments

- `configure` never checks its default parents (n-1, 1). They name a power outside the targets exactly when no split
  exists (`PowersDag.ParentsAreTargetsIff`); for the targets {1, 3} it succeeds with a parent that is missing
  (`PowersDag.UnusableConfiguration`), and then `parallel_apply` never returns normally
  (`ParallelRuns.FairRunEndsIff`).
- `reset` keeps the nodes, so after a second `configure` `source_nodes` can report a source that is none
  (`PowersDag.LeftoverSource`, exact condition in `PowersDag.SourceNodesExactIff`).
- With ps_low_degree equal to 1 every matching polynomial of degree 2 or more makes the evaluation throw, because x^2
  is then prepared as a high power but read as a low one (`BatchedPolyn.ProcessBinBundleCache`; a bin that fails:
  `BatchedPolyn.LowDegreeOneFails`). The comments of `eval_patstock` write the block length as the low degree where
  the code uses ps_low_degree + 1; the code is followed.
- `recode` and `mLSB_set_recode` represent the next odd number when given an even scalar
  (`GlvRecode.Recode`, `MlsbRecode.MlsbSetRecode`); their callers make the scalar odd first.
- The padding branch of the mask generation adds nothing to the list of plaintexts, so a package index picks its own
  mask exactly when no padded cell precedes it (`MaskLayout.PackIndexIff`); with 1, 2 and 2 caches one evaluation is
  given a wrong mask and another reads past the list (`MaskLayout.PaddingShiftsMasks`).
- The receiver of the shared selection flips its bit once per column, inside the inner loop. A common message means a
  match when the number of columns is odd, and the absence of one when it is even (`ZeroTest.SharedSelect`).

## Model

| member | source | states |
|---|---|---|
| `PowersDag.NoShallowerDerivation` | uMCRG/MCRG/common/apsu/powers.cpp:47-107 | no way of computing a power inside the target set, over any tree of products, is shallower than its node |
| `PowersDag.DepthIsAttained` | uMCRG/MCRG/common/apsu/powers.cpp:47-107 | unfolding the parents of a node is a computation of its power inside the targets of exactly the stored depth, so the depth is minimal |
| `PowersDag.ParentsAreTargetsIff` | uMCRG/MCRG/common/apsu/powers.cpp:47-107 | all parents are targets if and only if every target that is not a source is a sum of two targets |
| `PowersDag.DefaultOnlyWithoutBetter` | uMCRG/MCRG/common/apsu/powers.cpp:62-90 | the unchecked default (n-1, 1) survives only where no other split exists, because every power m has depth at most m-1 |
| `PowersDag.UnusableConfiguration` | uMCRG/MCRG/common/apsu/powers.cpp:47-107 | for sources {1} and targets {1, 3} the configuration has a parent that is no target |
| `PowersDag.SourceNodesExactIff` | uMCRG/MCRG/common/apsu/powers.cpp:133-147 | the reported sources are the given ones if and only if no source of an earlier configuration lies outside the new targets |
| `PowersDag.LeftoverSource` | uMCRG/MCRG/common/apsu/powers.cpp:133-147 | configuring {1, 5} and then {1} still reports 5 as a source |
| `PowersDag.PowersDag.BestParents` | uMCRG/MCRG/common/apsu/powers.cpp:62-90 | the loop finds the shallowest split, starting from the default |
| `PowersDag.PowersDag.ComputeNodes` | uMCRG/MCRG/common/apsu/powers.cpp:52-99 | every target gets a node whose parents sum to it, and the deepest depth is returned |
| `PowersDag.PowersDag.Configure` | uMCRG/MCRG/common/apsu/powers.cpp:22-107 | succeeds exactly on acceptable sets; then the nodes are configured for them, the depth is the deepest node, and nodes outside the targets are untouched; on failure nothing but the reset happens |
| `PowersDag.PowersDag.SourceNodes` | uMCRG/MCRG/common/apsu/powers.cpp:133-147 | throws exactly when not configured, else returns every node without parents |
| `ParallelApply.StepInv` | uMCRG/MCRG/common/apsu/powers.h:159-278 | every atomic step of every worker keeps: nodes are held by at most one worker, func is entered once and only after it was left for both parents, and finished cells hold the right power |
| `ParallelRuns.SafeAtAllTimes` | uMCRG/MCRG/common/apsu/powers.h:159-278 | at every moment of every interleaving func has run at most once per node, parents first, and once a worker has returned all nodes are computed |
| `ParallelRuns.ThrowsOrReturns` | uMCRG/MCRG/common/apsu/powers.h:159-278 | no worker throws on a usable DAG, and none ever returns normally on another |
| `ParallelRuns.FairRunEndsIff` | uMCRG/MCRG/common/apsu/powers.h:159-278 | every fair run of any number of workers ends with everything computed if and only if the DAG is usable |
| `ParallelRuns.ConfiguredGraph` | uMCRG/MCRG/common/apsu/powers.h:159-278 | what configure builds is a graph for the workers, usable exactly when every computed target splits |
| `ParallelRuns.ComputePowersIff` | uMCRG/MCRG/receiver/apsu/receiver_ddh.cpp:454-472 | a fair run over the configured DAG leaves x^n at every target n if and only if every computed target is a sum of two targets |
| `PlaintextPowers.PlaintextPowers.ExponentiateArray` | uMCRG/MCRG/sender/apsu/plaintext_powers.cpp:67-85 | square and multiply in place gives every slot to the exponent modulo the plain modulus; exponent 0 throws |
| `PlaintextPowers.PlaintextPowers.ComputePowers` | uMCRG/MCRG/sender/apsu/plaintext_powers.cpp:86-99 | every source power is filed under its exponent and nothing else changes |
| `PlaintextPowers.KeptStep` | uMCRG/MCRG/sender/apsu/plaintext_powers.cpp:75-82 | one round keeps result times value to the remaining exponent congruent to the whole power |
| `QueryPowers.CreatePowersSet` | uMCRG/MCRG/common/apsu/util/utils.cpp:146-177 | the set is exactly the low powers and the multiples of ps_low_degree + 1 up to the degree, and the two bad parameter cases throw |
| `QueryPowers.QueryTargetsSplit` | uMCRG/MCRG/common/apsu/util/utils.cpp:146-177 | every target of a query is 1 or a sum of two targets, so the DAG of a query is always usable |
| `QueryPowers.QueryPowersComputed` | uMCRG/MCRG/receiver/apsu/receiver_ddh.cpp:454-472 | for accepted parameters every fair run ends and leaves exactly the powers the second half of ComputePowers starts from |
| `Interpolate.TimesMonomialEval` | uMCRG/MCRG/common/apsu/util/interpolate.cpp:27-56 | the in-place product with (x - a), with its carry, evaluates to (x - a) times the polynomial |
| `Interpolate.MulMonicMonomialInplace` | uMCRG/MCRG/common/apsu/util/interpolate.cpp:27-56 | the right-to-left rewriting computes that product in the coefficient vector itself |
| `Interpolate.PolynWithRoots` | uMCRG/MCRG/common/apsu/util/interpolate.cpp:63-80 | the loop gives the monic product of the roots; modulus 0 throws |
| `Interpolate.MonicEval` | uMCRG/MCRG/common/apsu/util/interpolate.cpp:63-80 | its value is the product of the differences to the roots, at every point |
| `Interpolate.MonicVanishesIff` | uMCRG/MCRG/common/apsu/util/interpolate.cpp:63-80 | over a prime field it vanishes exactly on its roots |
| `Interpolate.MonicShape` | uMCRG/MCRG/common/apsu/util/interpolate.cpp:63-80 | it has one more coefficient than roots and leading coefficient 1 |
| `Interpolate.NewtonDifference` | uMCRG/MCRG/common/apsu/util/interpolate.cpp:115-155 | the interpolants of neighbouring ranges of points differ by the divided difference times the common factors |
| `Interpolate.NewtonInterpolates` | uMCRG/MCRG/common/apsu/util/interpolate.cpp:115-187 | the Newton form of points i..i+j takes each value at its point |
| `Interpolate.DividedDifferences` | uMCRG/MCRG/common/apsu/util/interpolate.cpp:108-155 | the table loops fill row i with the divided differences from point i on, and fail exactly on repeated points |
| `Interpolate.Horner` | uMCRG/MCRG/common/apsu/util/interpolate.cpp:157-187 | the Horner loop over in-place monomial products gives the Newton form as one coefficient vector |
| `Interpolate.NewtonInterpolatePolyn` | uMCRG/MCRG/common/apsu/util/interpolate.cpp:87-187 | max(n,1) coefficients that take each value at its point; throws exactly for unequal sizes or a composite modulus, and for repeated points unless all values are 0 |
| `SlotPolys.SplitSum` | uMCRG/MCRG/receiver/apsu/bin_bundle.cpp:208-346 | a polynomial is the sum of its inner blocks times high powers, the low block, the block-leading terms and the constant, also when the degree is a multiple of the block length |
| `BatchedPolyn.BatchedSlot` | uMCRG/MCRG/receiver/apsu/bin_bundle.cpp:375-429 | slot b of the zero-padded batching evaluates polynomial b, and the slots beyond evaluate to 0 |
| `BatchedPolyn.BatchedPlaintextPolyn.constructor` | uMCRG/MCRG/receiver/apsu/bin_bundle.cpp:366-430 | the coefficient of degree k holds that coefficient of every polynomial, in NTT form and at the level the evaluators expect |
| `BatchedPolyn.BatchedPlaintextPolyn.Evaluate` | uMCRG/MCRG/receiver/apsu/bin_bundle.cpp:106-174 | the plain evaluation is the masked value on prepared powers; it throws exactly on too few powers and, with Paterson-Stockmeyer powers, for a degree above ps_low_degree |
| `BatchedPolyn.BatchedPlaintextPolyn.EvaluatePatstock` | uMCRG/MCRG/receiver/apsu/bin_bundle.cpp:192-360 | for every 1 < ps_low_degree < degree it returns what the plain evaluation does, from the low powers and multiples of ps_low_degree + 1 only, pairing equal forms and levels throughout |
| `BatchedPolyn.FormPowers` | uMCRG/MCRG/receiver/apsu/receiver_ddh.cpp:474-525 | the mode switches leave every power in the form and at the level the evaluators expect |
| `BatchedPolyn.ProcessBinBundleCache` | uMCRG/MCRG/receiver/apsu/receiver_ddh.cpp:527-576 | the reply is the masked value whichever evaluator is chosen; it throws exactly when a power is missing and for ps_low_degree 1 with degree at least 2 |
| `BatchedPolyn.LowDegreeOneFails` | uMCRG/MCRG/receiver/apsu/receiver_ddh.cpp:527-576 | a bin with the elements 1 and 2 modulo 7 gets no reply with ps_low_degree 1 and one with 2 |
| `BatchedPolyn.MaskUncoveredIff` | uMCRG/MCRG/receiver/apsu/receiver_ddh.cpp:553-565 | a decrypted slot equals its mask exactly when the query felt is in the bin |
| `Words.Columns` | uMCRG/MCRG/common/apsu/fourq/eccp2.c:256-280 | column n of the product of two four-word numbers holds the word products of weight n |
| `Words.LostCarry` | uMCRG/MCRG/common/apsu/fourq/eccp2.c:270-280 | a wrapped accumulator at weight 2^192 loses only what does not reach the result word |
| `Words.TopWord` | uMCRG/MCRG/common/apsu/fourq/eccp2.c:256-280 | the carries of the columns determine the word at weight 2^256 |
| `Words.MulTruncate` | uMCRG/MCRG/common/apsu/fourq/eccp2.c:256-280 | the result is floor(s*C / 2^256) mod 2^64 for all 256-bit s and C |
| `Decomposition.FirstIsOdd` | uMCRG/MCRG/common/apsu/fourq/eccp2.c:331-341 | sub-scalar 0 is odd for every scalar |
| `Decomposition.Decompose` | uMCRG/MCRG/common/apsu/fourq/eccp2.c:290-351 | each sub-scalar is the low word of the untruncated rounded coordinate, with the fourth basis vector added once more when coordinate 0 is even |
| `Lattice.FactorsDetermined` | uMCRG/MCRG/common/apsu/fourq/eccp2.c:40-64 | the basis vectors stand for 0 modulo the order under weights (1, x, y, z) exactly when x, y, z are the three fixed factors modulo the order |
| `Lattice.CoordinatesFit` | uMCRG/MCRG/common/apsu/fourq/eccp2.c:319-341 | for every 256-bit scalar all four coordinates lie in 0 to 2^64-1, also after the parity correction |
| `Lattice.SubScalarsExact` | uMCRG/MCRG/common/apsu/fourq/eccp2.c:319-341 | hence the wrapping 64-bit arithmetic yields the coordinates themselves |
| `Lattice.SubScalarsStandFor` | uMCRG/MCRG/common/apsu/fourq/eccp2.c:290-341 | for every 256-bit scalar k the four sub-scalars, weighted by 1 and the factors of phi, psi and psi after phi, sum to k modulo the order |
| `GlvRecode.StepExact` | uMCRG/MCRG/common/apsu/fourq/eccp2.c:411-430 | halving with the carry is exact and stays within a bound that shrinks by half, so no carry is lost |
| `GlvRecode.LoopStep` | uMCRG/MCRG/common/apsu/fourq/eccp2.c:411-430 | one turn of the loop keeps all four reconstructions |
| `GlvRecode.Recode` | uMCRG/MCRG/common/apsu/fourq/eccp2.c:397-432 | the 65 signed digits reproduce each of four arbitrary 64-bit sub-scalars exactly (the next odd number for an even first one), digits are at most 7, signs are masks |
| `EccMul.EccPrecomp` | uMCRG/MCRG/common/apsu/fourq/eccp2.c:354-395 | table entry d is P plus the images that the bits of d select |
| `EccMul.DoubleAndAdd` | uMCRG/MCRG/common/apsu/fourq/eccp2.c:467-477 | doubling and adding one looked-up point takes in one more digit of all four sub-scalars |
| `EccMul.CofactorClearing` | uMCRG/MCRG/common/apsu/fourq/eccp2.c:488-507 | the chain of doublings and additions multiplies by 392 |
| `EccMul.Evaluate` | uMCRG/MCRG/common/apsu/fourq/eccp2.c:460-478 | the loop from the top digit down gives the combination the recoded sub-scalars stand for |
| `EccMul.EccMul` | uMCRG/MCRG/common/apsu/fourq/eccp2.c:434-486 | the result is a1*P + a2*phi(P) + a3*psi(P) + a4*psi(phi(P)) for the sub-scalars of k, after cofactor clearing if asked, and hence k*P where phi and psi multiply by the factors the basis determines; nothing is written when validation fails |
| `EccMul.CombinesToProduct` | uMCRG/MCRG/common/apsu/fourq/eccp2.c:434-486 | on a point the order annihilates and on which phi and psi multiply by their factors, the combination over the sub-scalars of k is k*P |
| `Wnaf.OddParts` | uMCRG/MCRG/common/apsu/fourq/eccp2_core.c:740-748 | an odd k is its digit plus 2^w times the rest, the digit is odd and small, and the rest is smaller than k |
| `Wnaf.RestBound` | uMCRG/MCRG/common/apsu/fourq/eccp2_core.c:733-759 | the bound on what is left shrinks by w places, and nothing is left when fewer remain |
| `Wnaf.WnafRecode` | uMCRG/MCRG/common/apsu/fourq/eccp2_core.c:725-761 | for every 64-bit scalar and 2 <= w <= 30: the digits sum to the scalar, each is zero or odd and below 2^(w-1), non-zero ones are at least w apart, and only 65 entries are written |
| `MlsbRecode.ShiftRight` | uMCRG/MCRG/common/apsu/fourq/eccp2_core.c:470-474 | the word-by-word shift halves the number |
| `MlsbRecode.AddBit` | uMCRG/MCRG/common/apsu/fourq/eccp2_core.c:501-511 | the word-by-word addition with carries adds 0 or 1 |
| `MlsbRecode.AboveStep` | uMCRG/MCRG/common/apsu/fourq/eccp2_core.c:488-512 | a digit under a negative sign leaves a carry, and the bound on the rest shrinks by half |
| `MlsbRecode.AboveLoopEnd` | uMCRG/MCRG/common/apsu/fourq/eccp2_core.c:488-512 | for a scalar below 2^249 the last, positive, column takes in the last carry and the rest is 0 |
| `MlsbRecode.MlsbSetRecode` | uMCRG/MCRG/common/apsu/fourq/eccp2_core.c:455-514 | for every 256-bit scalar the signed digits plus 2^250 times the rest are the scalar if odd and the next odd number otherwise; entries above 250 are untouched |
| `FixedBase.Transpose` | uMCRG/MCRG/common/apsu/fourq/eccp2_core.c:401-446 | summing the columns of a table first gives the same number as the whole expansion |
| `FixedBase.ColumnPoint` | uMCRG/MCRG/common/apsu/fourq/eccp2_core.c:401-446 | the point looked up for a column of a block is the multiple the column stands for |
| `FixedBase.CombLoops` | uMCRG/MCRG/common/apsu/fourq/eccp2_core.c:401-446 | the comb loops return the multiple the signed digits stand for |
| `FixedBase.SameMultiple` | uMCRG/MCRG/common/apsu/fourq/eccp2_core.c:397-399 | reducing modulo the order and making the scalar odd does not change the multiple |
| `FixedBase.EccMulFixed` | uMCRG/MCRG/common/apsu/fourq/eccp2_core.c:385-454 | for every 256-bit scalar k the result is k*G in any abelian group in which the order annihilates G |
| `Montgomery.MontgomeryMultiply` | uMCRG/MCRG/common/apsu/fourq/amd64/fp_x64.h:312-343 | ma*mb/2^256 modulo the order, reduced, whenever ma*mb < 2^256*order; no carry is lost in the final subtraction |
| `Montgomery.ToMontgomery` | uMCRG/MCRG/common/apsu/fourq/crypto_util.c:127-131 | the result is the scaled form of any 256-bit number |
| `Montgomery.FromMontgomery` | uMCRG/MCRG/common/apsu/fourq/crypto_util.c:133-139 | leaving the scaled form gives the residue modulo the order |
| `Montgomery.ModuloOrder` | uMCRG/MCRG/common/apsu/fourq/amd64/fp_x64.h:345-354 | every 256-bit number is reduced modulo the order |
| `MontgomeryInversion.ShiftLeft` | uMCRG/MCRG/common/apsu/fourq/crypto_util.c:209-212 | the word-by-word shift multiplies and drops exactly the bits that leave the top |
| `MontgomeryInversion.Window` | uMCRG/MCRG/common/apsu/fourq/crypto_util.c:193-202 | the window is the longest odd run of at most five leading bits |
| `MontgomeryInversion.WindowFits` | uMCRG/MCRG/common/apsu/fourq/crypto_util.c:193-207 | an odd window never takes more bits than are left |
| `MontgomeryInversion.SkipToFirstOne` | uMCRG/MCRG/common/apsu/fourq/crypto_util.c:169-177 | the first loop consumes exactly the leading bit |
| `MontgomeryInversion.Turn` | uMCRG/MCRG/common/apsu/fourq/crypto_util.c:182-215 | every turn moves bits from the shifted exponent to the accumulator, whose exponent is the consumed prefix, and the bit count decreases |
| `MontgomeryInversion.InversionModOrder` | uMCRG/MCRG/common/apsu/fourq/crypto_util.c:141-216 | the result is the scaled form of a^(order-2) |
| `MontgomeryInversion.InverseModOrder` | uMCRG/MCRG/common/apsu/fourq/crypto_util.c:127-216 | with a prime order, entering, inverting and leaving gives the modular inverse of every a that is not 0 modulo the order |
| `Bins.MapPush` | uMCRG/MCRG/receiver/apsu/bin_bundle.cpp:592-619 | appending an element and its label to aligned bins adds that key to the map |
| `Bins.MapSet` | uMCRG/MCRG/receiver/apsu/bin_bundle.cpp:716-750 | replacing labels at the position of an element changes that key only |
| `Bins.MapRemove` | uMCRG/MCRG/receiver/apsu/bin_bundle.cpp:800-825 | erasing an element and the labels at its position removes that key only |
| `BundleState.Inserted` | uMCRG/MCRG/receiver/apsu/bin_bundle.cpp:530-623 | inserting keeps bins, labels and filters in step and writes the labels |
| `BundleState.Overwritten` | uMCRG/MCRG/receiver/apsu/bin_bundle.cpp:670-754 | overwriting keeps them in step and writes the labels |
| `BundleState.Removed` | uMCRG/MCRG/receiver/apsu/bin_bundle.cpp:756-827 | removing keeps them in step and drops the elements |
| `BinBundle.BinBundle.Clear` | uMCRG/MCRG/receiver/apsu/bin_bundle.cpp:881-912 | a cleared bundle is empty, in step, and its cache stale |
| `BinBundle.BinBundle.MultiInsert` | uMCRG/MCRG/receiver/apsu/bin_bundle.cpp:477-527 | unlabeled insertion: the exact results and exceptions, each felt appended to its own bin, and nothing changed on failure or a dry run |
| `BinBundle.BinBundle.MultiInsertLabeled` | uMCRG/MCRG/receiver/apsu/bin_bundle.cpp:530-623 | labeled insertion is all or nothing, rejects elements already present, and returns the largest size or -1 |
| `BinBundle.BinBundle.TryMultiOverwrite` | uMCRG/MCRG/receiver/apsu/bin_bundle.cpp:626-667 | without labels nothing changes except that a present item makes the cache stale |
| `BinBundle.BinBundle.TryMultiOverwriteLabeled` | uMCRG/MCRG/receiver/apsu/bin_bundle.cpp:670-754 | labels of all elements are replaced or of none; the corrupted-state exception cannot happen |
| `BinBundle.BinBundle.TryMultiRemove` | uMCRG/MCRG/receiver/apsu/bin_bundle.cpp:756-827 | all elements go with their labels, the first occurrence each, or nothing changes |
| `BinBundle.BinBundle.TryGetMultiLabel` | uMCRG/MCRG/receiver/apsu/bin_bundle.cpp:829-879 | part l of element i is returned at index n*l + i, exactly when every element is present |
| `BinBundle.BinBundle.RegenPolyns` | uMCRG/MCRG/receiver/apsu/bin_bundle.cpp:975-1026 | every matching polynomial vanishes exactly on its bin and every interpolation polynomial gives the labels |
| `BinBundle.BinBundle.RegenCache` | uMCRG/MCRG/receiver/apsu/bin_bundle.cpp:1028-1041 | regeneration always succeeds and leaves a cache that belongs to the data; a valid cache is kept |
| `BinBundle.BinBundle.GetCache` | uMCRG/MCRG/receiver/apsu/bin_bundle.cpp:925-932 | throws exactly when stale; otherwise the cache belongs to the data |
| `BinBundle.BinBundle.Strip` | uMCRG/MCRG/receiver/apsu/bin_bundle.cpp:1048-1062 | the data go, and the batched polynomials that belonged to them stay |
| `BundleRuns.LookupFindsLastWrite` | uMCRG/MCRG/receiver/apsu/bin_bundle.cpp:530-879 | over every sequence of changes from an empty bundle, an element is present exactly when the last change that touched it wrote it, with the label written then |
| `BundleRuns.CacheFollows` | uMCRG/MCRG/receiver/apsu/bin_bundle.cpp:925-1041 | a valid cache follows the history: matching polynomials vanish exactly on the elements that have a label, and interpolation polynomials take the labels written last |
| `BundleRuns.Perform` | uMCRG/MCRG/receiver/apsu/bin_bundle.cpp:477-1041 | each call, failing or not, answers from the history of changes and the staleness of the cache, and changes the bundle only as its answer says |
| `BundleRuns.Replay` | uMCRG/MCRG/receiver/apsu/bin_bundle.cpp:477-1041 | any sequence of insertions, overwrites, removals, lookups, clears, regenerations and cache reads on a new labeled bundle: every answer is the right one for the calls and answers before it, and the bundle stays coherent with that history |
| `DbInsert.UnpackCuckooIdx` | uMCRG/MCRG/receiver/apsu/receiver_db.cpp:95-108 | bin and bundle index recompose the cuckoo index |
| `DbInsert.AddItemEffect` | uMCRG/MCRG/receiver/apsu/receiver_db.cpp:461-530 | an item lands whole in one bundle, the bin totals gain exactly its felts, and bins stay below the limit |
| `DbInsert.WorkerThrowsIff` | uMCRG/MCRG/receiver/apsu/receiver_db.cpp:505-530 | a worker throws exactly when one of its items is empty or crosses the end of its bundle |
| `DbInsert.ProcessEffect` | uMCRG/MCRG/receiver/apsu/receiver_db.cpp:427-535 | exactly the multiset of inserted felts is added to each bin of the index, and every bin stays below max_bin_size |
| `DbInsert.InsertOrAssignWorker` | uMCRG/MCRG/receiver/apsu/receiver_db.cpp:427-535 | a worker does this sequential work and touches its own bundle index only |
| `DbInsert.CollectIndices` | uMCRG/MCRG/receiver/apsu/receiver_db.cpp:556-577 | the started bundle indices are exactly those of the entries, without repetition |
| `DbInsert.DispatchResult` | uMCRG/MCRG/receiver/apsu/receiver_db.cpp:543-605 | whatever the interleaving of the workers, every bundle index ends with the sequential result and exactly its inserted felts |
| `ResultBlocks.VecToOcBlock` | uMCRG/MCRG/receiver/apsu/receiver_ddh.cpp:49-68 | an even number of felts is packed without overflow when the halves fit in 64 bits |
| `ResultBlocks.BlocksEqualIff` | uMCRG/MCRG/receiver/apsu/receiver_ddh.cpp:49-68 | two items have the same block exactly when they have the same felts |
| `MaskLayout.GenerateMasks` | uMCRG/MCRG/receiver/apsu/receiver_ddh.cpp:241-283 | the loops build the row-major matrix, padded with all ones, and the list of plaintexts of the cells that exist |
| `MaskLayout.PackIndexIff` | uMCRG/MCRG/receiver/apsu/receiver_ddh.cpp:338-364 | bundle_idx + cache_idx*bundle_idx_count is the place of the cell's own mask exactly when no padded cell comes before it, hence always with equal cache counts |
| `MaskLayout.PaddingShiftsMasks` | uMCRG/MCRG/receiver/apsu/receiver_ddh.cpp:338-364 | with 1, 2 and 2 caches one evaluation is given another cell's mask and the next reads past the end of the list |
| `MaskLayout.MatrixAt` | uMCRG/MCRG/receiver/apsu/receiver_ddh.cpp:241-283 | row i of a cell is at cell index times items_per_bundle plus i |
| `ResultWorkers.RangesDisjoint` | uMCRG/MCRG/sender/apsu/sender_ddh.cpp:829-837 | packages of different cells are copied to disjoint ranges |
| `ResultWorkers.StepInv` | uMCRG/MCRG/sender/apsu/sender_ddh.cpp:776-840 | every step of every worker keeps: claims, packages held and copies account for the counter, and no package is held or copied twice |
| `ResultWorkers.NeverStuck` | uMCRG/MCRG/sender/apsu/sender_ddh.cpp:776-840 | once all packages have come no claim waits for a package that does not exist |
| `ResultWorkers.AllCollected` | uMCRG/MCRG/sender/apsu/sender_ddh.cpp:776-840 | when all workers have returned, exactly package_count packages were claimed, and each was copied once, to its place |
| `ResultMatching.ItemRevealed` | uMCRG/MCRG/sender/apsu/sender_ddh.cpp:822-828 | the block of a result item equals the block of its mask exactly when every felt of the query item is in its bin |
| `ResultMatching.CellsMatchIff` | uMCRG/MCRG/sender/apsu/sender_ddh.cpp:776-840 | with equal cache counts, after any complete run the cell of a received package equals the random matrix cell exactly when the item is in the bundle |
| `ResultMatching.EveryCellHasPart` | uMCRG/MCRG/sender/apsu/sender_ddh.cpp:789-840 | as many distinct packages as cells: every cell has one |
| `ResultMatching.EveryEntryDecided` | uMCRG/MCRG/sender/apsu/sender_ddh.cpp:776-840 | with equal cache counts and a package per cell the matrices have the same size, and every entry is decided: equal exactly when that item of the query is in that bundle |
| `QueryReply.StartQuery` | uMCRG/MCRG/sender/apsu/plaintext_powers.cpp:86-99 | configuring a new DAG and computing the sender's source powers gives the initial state of parallel_apply, on exactly the acceptable power sets |
| `QueryReply.QueryEnds` | uMCRG/MCRG/receiver/apsu/receiver_ddh.cpp:454-472 | every fair schedule of the workers on a started query reaches a moment at which all have returned |
| `QueryReply.FullestBin` | uMCRG/MCRG/receiver/apsu/bin_bundle.cpp:375-385 | the degree of the batched polynomials is the size of the fullest bin |
| `QueryReply.AnswerBundle` | uMCRG/MCRG/receiver/apsu/receiver_ddh.cpp:440-576 | from that moment, through the form changes and the bundle's cache, to the reply: none if the cache is stale, a bin is fuller than the powers reach, or ps_low_degree is 1 and a bin holds two elements; else the masked evaluation, in which a slot shows its mask exactly when the query felt is in the bin |
| `ElGamal.Params.ReEncCorrect` | JPEQT/elgamal.h:9-17 | re-encryption keeps the plaintext |
| `ElGamal.Params.DecCorrect` | JPEQT/elgamal.h:20-26 | partial decryption takes one key share off and keeps the plaintext |
| `ElGamal.Params.TestCorrect` | JPEQT/elgamal.h:41-49 | with the last share the test holds exactly when the plaintext annihilates the generator |
| `ElGamal.GetPkHE` | JPEQT/elgamal.h:30-38 | the loop sums the public keys |
| `JPeqt.CombineAtPartyZero` | JPEQT/JPEQT.cpp:69-124 | the loops of party 0 compute the re-encrypted difference of the sums, bin by bin |
| `JPeqt.Permute` | JPEQT/JPEQT.cpp:14-20 | the loop applies the permutation |
| `JPeqt.GetMatches` | JPEQT/JPEQT.cpp:131-139 | the scan lists exactly the bins that pass, so its size is their number |
| `JPeqt.SharedKeyIsSum` | JPEQT/JPEQT.cpp:57-63 | the shared key belongs to the sum of all key shares |
| `JPeqt.ForwardEncrypts` | JPEQT/JPEQT.cpp:101-220 | on the way out the ciphertext of bin j hides the blinded difference of the sums under the full key |
| `JPeqt.BackEncrypts` | JPEQT/JPEQT.cpp:209-226 | on the way back every party takes its share off |
| `JPeqt.OutcomeIsZeroTest` | JPEQT/JPEQT.cpp:24-230 | bin j passes exactly when the product of the blinding factors times the difference of the sums annihilates the generator |
| `JPeqt.JPeqtFindsEqualSums` | JPEQT/JPEQT.cpp:24-230 | with a prime order and non-zero factors: exactly when the sums agree modulo the order |
| `JPeqt.JPeqtFindsEqualIntegers` | JPEQT/JPEQT.cpp:24-230 | with 128-bit inputs and (tn-1)*2^128 <= order: exactly when the sums are equal integers |
| `JPeqt.PermutedMultiset` | JPEQT/JPEQT.cpp:5-20 | permuting with a shuffle of the indices rearranges |
| `JPeqt.PermutingKeepsCount` | JPEQT/JPEQT.cpp:235-440 | with everything else equal, the permutations on the way back do not change how many bins pass |
| `JPeqt.CountsAgreeing` | JPEQT/JPEQT.cpp:24-440 | with a prime order and non-zero factors the count of either protocol is the number of bins whose sums agree modulo the order |
| `JPeqt.JpPeqtSameCount` | JPEQT/JPEQT.cpp:235-440 | two runs on the same inputs, each with its own keys, randomness, factors and permutations, J-PEQT or JP-PEQT, report the same number of matches |
| `JPeqtRuns.OutgoingCorrect` | JPEQT/JPEQT.cpp:24-230 | from the expected messages every party makes the expected message |
| `JPeqtRuns.StepInv` | JPEQT/JPEQT.cpp:24-230 | every move of every party keeps each channel holding exactly the messages between its two ends, in order |
| `JPeqtRuns.NoDeadlock` | JPEQT/JPEQT.cpp:24-230 | while some party has not finished, some party can move |
| `JPeqtRuns.RunsEnd` | JPEQT/JPEQT.cpp:24-230 | no run is longer than the communication of all programs |
| `JPeqtRuns.EveryRunDecides` | JPEQT/JPEQT.cpp:24-230 | every run that cannot go on has finished everywhere with empty channels, and party 0 has the outcome |
| `ZeroTest.JoinStep` | uMCRG/MCRG_diff_large/mcrg_diff_large/Circuit.cpp:23-37 | one AND gate joins two neighbouring blocks and keeps the others |
| `ZeroTest.IsZeroCircuit` | uMCRG/MCRG_diff_large/mcrg_diff_large/Circuit.cpp:3-46 | for every width from 1 on, a power of two or not, output wire 0 is 1 exactly when all inputs are 0 |
| `ZeroTest.NoDifference` | uMCRG/MCRG_diff_large/mcrg_diff_large/ssPEQT_ROT.cpp:59-72 | the tested bits agree exactly when the low parts of the labels are equal |
| `ZeroTest.SharesCountMatches` | uMCRG/MCRG_diff_large/mcrg_diff_large/ssPEQT_ROT.cpp:73-80 | the two row bits differ by the parity of the matching columns |
| `ZeroTest.ReceiverBits` | uMCRG/MCRG_diff_large/mcrg_diff_large/ssPEQT_ROT.cpp:114-122 | the receiver's bit is the exclusive-or of the row, flipped once per column |
| `ZeroTest.SharedSelect` | uMCRG/MCRG_diff_large/mcrg_diff_large/ssPEQT_ROT.cpp:50-127 | both sides hold the same message exactly when the number of matches has the parity of the number of columns |

## Left out

- Libraries (SEAL, Kuku, libOTe, volePSI, Kunlun) appear by contract only: relinearisation, noise, ciphertext size, the inside of oblivious transfer, OKVS and secure evaluation are not part of this model.
- Sockets, files, timers, logging, command lines and FlatBuffers saving and loading: I/O plumbing. Channels are FIFO sequences.
- The curve itself: field arithmetic, point formulas, endomorphism formulas, point encoding and hashing to the curve. Points are elements of an arbitrary abelian group, phi and psi arbitrary functions.
- EccMul.CombinesToProduct: takes as hypothesis that phi and psi multiply the points of the prime subgroup by the factors that the basis determines, because that is a fact about the curve formulas.
- Multi-word multiplication, addition and subtraction inside the Montgomery multiplication are integer operations with explicit wrap-around; shifts and the carry chain of the recoding are modelled word by word.
- The prime subgroup's order is taken to be prime by hypothesis where a theorem needs it.
- QueryPowers.CreatePowersSet: requires that the step past the last high power still fits in the 32-bit counter; beyond that the loop of the source wraps around.
- Wnaf.WnafRecode: covers windows from 2 to 30, for which the 32-bit shift 1 << w is defined.
- ResultBlocks.VecToOcBlock: covers an even number of felts per item, because for an odd number the source reads one element past its input; the modulus is below 2^30, for which the 32-bit shift is defined.
- BinBundle.BinBundle.MultiInsert: the conversion of the result to 32 bits is not modelled, so sizes are unbounded.
- BinBundle.BinBundle.RegenCache: the tasks of the thread pool write disjoint entries and appear as loops; regenerating a stripped bundle with a stale cache is excluded, because the source then reads bins that are gone.
- BinBundle.BinBundle.Strip: requires what RegenCache requires, because it regenerates the cache first.
- BinBundle.BinBundle.constructor: the three argument checks of the source are its precondition.
- DbInsert.InsertOrAssignWorker: bundles in the sets are values (their bins), so aliasing between bundles is not captured; overwriting mode and labeled data are not modelled, because overwriting can fall through to an insertion and the labeled insertion reads past a removed range.
- ReceiverDB::remove and labeled ReceiverDB::insert_or_assign: no clean specification is decided by the code.
- ResultWorkers.NeverStuck: states that a worker can always move, not that a compare-and-swap eventually succeeds.
- JPeqt.JpPeqtSameCount: says nothing about which bins are reported, since the permutations hide that.
- Randomness, secrecy and constant-time behaviour; the unsynchronised appends of the OpenMP loops, which are treated as sequential.
- MCRG.cpp, eccp2_no_endo.c and the Python driver would add only easy or repeated members.
