# Encrypted top-trading-cycle round, modelled at slot level

The repository implements the top-trading-cycle (TTC) mechanism on
homomorphically encrypted data, using OpenFHE's BGV scheme with packed
plaintexts. `main` encrypts every user's preference permutation. It then
runs one round of the mechanism on the server:

1. every user's top available item is found with matrix-vector products
   and a "preserve leading one" predicate;
2. the n-th power of the resulting pointer matrix is computed by
   square-and-multiply over element-wise encrypted matrices;
3. the users on a trading cycle are found with a "not equal zero"
   polynomial;
4. the output and availability vectors are updated.

The model works at the level of the plaintext slots:

- A ciphertext is its slot vector: a `seq<int>` of length `S`, with every
  entry in `[0, p)`.
- `Context(S, p)` stands for the crypto context. `main` uses `p = 65537`.
- `EvalAdd`, `EvalMult`, `EvalRotate`, `EvalAddMany`, `EvalMultMany` and
  `EvalInnerProduct` become slot-wise functions of module `Slots`.
- Encrypting a packed plaintext pads it with zeros (`Pack`).
- Decrypting and re-encrypting ("refresh") keeps the first `slots` slots
  and zeroes the rest.

Modules:

- `ModArith`: modular arithmetic, bits of 32-bit integers, `PowMod`,
  factorials and inverses modulo a prime.
- `Slots`: the slot-wise engine.
- `Matrices`: matrices modulo p, their product, powers and transposes, and
  products of chains of matrices.
- `Packing` (main.cpp): row-, column- and element-wise matrix encodings and
  the conversions between them, and matrix-vector products.
- `CryptoUtilities` (crypto_utilities.cpp): rotation keys and unit masks,
  slot-wise exponentiation, refresh.
- `MatrixOps` (crypto_matrix_operations.cpp): the diagonal
  matrix-vector product and the packed matrix product with its
  precomputed masks.
- `MatPower` (main.cpp): the tree product of 2^k matrices, the
  squarings and `evalMatSqMul`.
- `Predicates` (main.cpp): prefix product, preserve-leading-one and
  not-equal-zero.
- `Round` (main.cpp, `main`): preference matrices, the adjacency matrix,
  the cycle indicator, the output and availability updates, and one full
  round.

Objects whose constructors precompute encrypted constants become classes:

- `InitRotsMasks`
- `InitMatrixMult`
- `InitPrefixMult`
- `InitPreserveLeadOne`
- `InitNotEqualZero`

Loops become methods with invariants. Each method is proved against a
specification function, for example:

- `MatSqMulFixed` returns the element encoding of `A^e`;
- `PreserveLeadOne` returns the one-hot vector of the first set bit;
- `RunRound` gives each user on a cycle the item they point at.

## Model

| member | source | states |
|---|---|---|
| Slots.PackRoundTrip | main.cpp:797-800 | decrypting an encrypted packed plaintext of residues and keeping as many slots as v has gives v back, and two such plaintexts of the same length encrypt to the same slots only when they are equal |
| Slots.MultByMask | main.cpp:947 | multiplying by the unit mask of slot e keeps slot e and zeroes every other slot |
| Slots.RotateUnit | main.cpp:949 | rotating a one-slot ciphertext by pos - target moves its value from slot pos to slot target |
| Slots.AddManyUnits | main.cpp:944-951 | summing one-slot ciphertexts, the i-th at slot i, packs their values into one ciphertext |
| Slots.InnerProductSlot0 | main.cpp:945-946 | slot 0 of the inner product over w slots is the dot product of the first w slots modulo p |
| Slots.MaskedInnerProduct | main.cpp:945-947 | an inner product masked to slot 0 leaves exactly the dot product modulo p in slot 0 |
| Matrices.MatMulAssoc | main.cpp:233-243 | the matrix product modulo p is associative, so regrouping a product tree does not change its value |
| Matrices.MatPowAdd | main.cpp:362-373 | A^a times A^b is A^(a+b) modulo p |
| Matrices.ChainSplit | main.cpp:233-243 | the product of a chain of matrices is the product of the products of any two consecutive parts |
| Matrices.ChainOfPowers | main.cpp:346-359 | a chain of powers of A multiplies to A raised to the sum of the exponents |
| Matrices.VecMatTranspose | main.cpp:477-497 | a vector-matrix product is the matrix-vector product with the transpose |
| Packing.RowEncRoundTrip | main.cpp:131-158 | decoding the row-wise encryption of a matrix gives the matrix back, and the encoding is well formed |
| Packing.ElemEncRoundTrip | main.cpp:131-158 | decoding the element-wise encryption (each entry in slot 0 of its own ciphertext) gives the matrix back |
| Packing.RowToColEnc | main.cpp:83-128 | from row-wise encryptions, the mask, rotate and add steps build exactly the column-wise encryption of the same matrix |
| Packing.EncElem2Rows | main.cpp:131-158 | from element-wise encryptions, the rotations and sums build the row-wise encryption of the same matrix |
| Packing.EncElem2Cols | main.cpp:161-187 | from element-wise encryptions, the rotations and sums build the column-wise encryption of the same matrix |
| Packing.MatrixVecMult | main.cpp:459-474 | the result packs M v modulo p, where M is the matrix the rows encrypt |
| Packing.VecMatrixMult | main.cpp:477-497 | the result packs v M modulo p, where M is the matrix the rows encrypt |
| CryptoUtilities.SymOffsetsMembers | crypto_utilities.cpp:40 | the symmetric offsets generated are exactly the integers strictly between -m and m |
| CryptoUtilities.RotOffsetsCover | crypto_utilities.cpp:37-44 | a rotation key exists for every offset in [-slots, slots] and for every 2^k with k up to ceil(log2 slots) |
| CryptoUtilities.RotOffsetsOnly | crypto_utilities.cpp:37-44 | no rotation key is generated for any other offset |
| CryptoUtilities.UnitMasksAreUnits | crypto_utilities.cpp:48-52 | mask e has a 1 in slot e and 0 everywhere else |
| CryptoUtilities.InitRotsMasks.constructor | crypto_utilities.cpp:35-53 | the object is valid: its rotation offsets are those described above and its masks are the unit masks of the first slots positions |
| CryptoUtilities.MsbFromTop | crypto_utilities.cpp:62-70 | the downward scan returns the bit length of the exponent, at least 1 |
| CryptoUtilities.SquaringsOf | crypto_utilities.cpp:72-77 | squaring k holds x^(2^k) slot by slot |
| CryptoUtilities.SelectBits | crypto_utilities.cpp:79-86 | the squarings selected by the set bits of u multiply to x^u slot by slot |
| CryptoUtilities.Exponentiate | crypto_utilities.cpp:60-87 | the result is x raised, slot by slot modulo p, to the exponent's 32-bit two's-complement value |
| CryptoUtilities.Refresh | crypto_utilities.cpp:89-95 | refreshing keeps the first slots slots and zeroes the rest |
| CryptoUtilities.RefreshIdentity | crypto_utilities.cpp:89-95 | refreshing a ciphertext that is already zero past slots leaves it unchanged |
| CryptoUtilities.RefreshElems | crypto_utilities.cpp:97-109 | ciphertext i holds slot i of the input in its slot 0 and zero elsewhere |
| CryptoUtilities.RefreshElemsRebuild | crypto_utilities.cpp:97-109 | rotating each element back to its position and summing gives the refreshed input, so nothing is lost |
| MatrixOps.DiagMatrixVecMultSlots | crypto_matrix_operations.cpp:5-17 | on replicated diagonals and vector, the rotate, multiply and sum steps give the replicated diagonal-method product |
| MatrixOps.DiagonalMethod | crypto_matrix_operations.cpp:5-17 | the diagonal method computes the matrix-vector product M v modulo p |
| MatrixOps.DiagMatrixVecMultCorrect | crypto_matrix_operations.cpp:5-17 | evalDiagMatrixVecMult on the encrypted diagonals of M returns the replicated M v |
| MatrixOps.SigmaSelectsCell | crypto_matrix_operations.cpp:24-41 | u_sigma[k] selects cell (i, j) exactly when k is the sigma shift of that cell |
| MatrixOps.TauMaskColumn | crypto_matrix_operations.cpp:44-51 | u_tau[d k] is 1 on the cells of column k and 0 elsewhere |
| MatrixOps.StepMasksPartition | crypto_matrix_operations.cpp:53-65 | v1[k] and v2[k - d] split every row: v1 covers the columns below d - k and v2 the rest |
| MatrixOps.FillSigma | crypto_matrix_operations.cpp:24-41 | the loop fills exactly the u_sigma mask for offset k |
| MatrixOps.FillTau | crypto_matrix_operations.cpp:44-51 | the loop fills exactly the u_tau mask for column k |
| MatrixOps.FillSteps | crypto_matrix_operations.cpp:53-65 | the loop fills exactly the v1 and v2 masks for step k |
| MatrixOps.BuildSigmaMasks | crypto_matrix_operations.cpp:24-41 | u_sigma has a key for each k in [-d, d], each holding the replicated mask |
| MatrixOps.BuildTauMasks | crypto_matrix_operations.cpp:44-51 | u_tau has keys d k for k < d, each holding the replicated mask, and no other keys |
| MatrixOps.BuildStepMasks | crypto_matrix_operations.cpp:53-65 | v1 has keys 1..d-1, v2 has keys -(d-1)..-1, and each holds its replicated mask |
| MatrixOps.InitMatrixMult.constructor | crypto_matrix_operations.cpp:19-69 | every precomputed mask map holds its masks and the matrix mask is 1 on the d*d payload slots |
| MatrixOps.PackedProductIsMatMul | crypto_matrix_operations.cpp:78-121 | the sigma, tau and shift steps on flattened matrices give the flattened product A B modulo p |
| MatrixOps.MatrixMultSlots | crypto_matrix_operations.cpp:78-121 | evalMatrixMult on replicated inputs is the replicated packed product |
| MatrixOps.MatrixMultCorrect | crypto_matrix_operations.cpp:78-121 | evalMatrixMult on the replicated encryptions of A and B returns the replicated encryption of A B modulo p |
| MatPower.Mul2PowAcceptsPowersOfTwo | main.cpp:196-202 | for a number of matrices below 2^32, the check on its low 32 bits accepts it exactly when it is a power of two and at least 2 |
| MatPower.ScanLowBits | main.cpp:198-200 | the scan counts the set bits among the low 32 bits of the number of matrices, and its msb position is 1 exactly when bit 0 is set |
| MatPower.PairProduct | main.cpp:208-231 | the base case returns the element encoding of the product of the two matrices |
| MatPower.MaskedProducts | main.cpp:208-231 | entry (i, j) is the inner product of row i and column j masked to slot 0, so the element encoding of A B |
| MatPower.MatrixMul2Pow | main.cpp:190-244 | a result is returned only when the check passes, and it is the element encoding of the product of the whole chain; every accepted count below 2^32 gets a result |
| MatPower.RowsToElems | main.cpp:260-282 | the rows are split into the element-wise encryption of the same matrix |
| MatPower.MatSquarings | main.cpp:247-319 | entry k is the element encoding of A^(2^k), for k up to sqs |
| MatPower.MsbScan | main.cpp:331-333 | the scan gives the bit length of the exponent, or -1 for exponent 0 |
| MatPower.SelectSquarings | main.cpp:339-341 | the selected squarings are the powers A^(2^i) for the set bits i of the exponent |
| MatPower.GroupSquarings | main.cpp:346-359 | the groups of 2^i selected squarings multiply to powers of A whose exponents are the group sums |
| MatPower.Groups | main.cpp:346-359 | the group exponents are positive, sum to the exponent, and there is one group per set bit of the number of selected squarings |
| MatPower.FoldAsWrittenExact | main.cpp:362-373 | the sequential fold multiplies all the groups exactly when there are at most two of them |
| MatPower.FoldedExponent | main.cpp:322-374 | the exponent evalMatSqMul actually applies equals the requested one exactly when there are at most two groups |
| MatPower.MatSqMulExactBelow127 | main.cpp:362-373 | every exponent from 2 to 126 is computed correctly |
| MatPower.MatSqMulAt127 | main.cpp:362-373 | for exponent 127 the groups are 64, 48 and 15 and the fold applies only 63 |
| MatPower.MatSqMulDropsAFactor | main.cpp:362-373 | for a shear matrix modulo 65537, the result for exponent 127 differs from A^127 |
| MatPower.MatSqMul | main.cpp:322-374 | as written: a result exactly when the exponent's 32-bit two's-complement value is at least 2, so every negative exponent yields one despite the comment 'Required: Exponent > 1'; it equals the element encoding of A to the folded exponent |
| MatPower.MatSqMulFixed | main.cpp:322-374 | corrected fold: a result exactly when the exponent's 32-bit two's-complement value u is at least 2, so every negative exponent yields one; it equals the element encoding of A^u |
| Predicates.LeadingOnes | main.cpp:559-560 | the mask is 1 on the first w slots and 0 on the remaining ones |
| Predicates.PrefixLevels | main.cpp:552-562 | there are ceil(log2 slots) levels, rotation step i is 2^i, and mask i is 1 on the first 2^i slots |
| Predicates.InitPrefixMult.constructor | main.cpp:530-543 | rotation keys are generated for the offsets -i for every i below slots |
| Predicates.PrefixRotationsHaveKeys | main.cpp:538-567 | every prefix rotation 2^i is below slots, so its key exists |
| Predicates.PrefixMult | main.cpp:546-575 | slot l holds the product of slots 0..l modulo p, and slots past the range are zero |
| Predicates.InitPreserveLeadOne.constructor | main.cpp:577-609 | the object holds the ones, minus-ones and leading-one encryptions of the first slots positions |
| Predicates.PreserveLeadOne | main.cpp:612-626 | slot l holds x_l times the product of 1 - x_j for j < l, and slot slots gets the spill-over term |
| Predicates.LeadOneIsFirstOne | main.cpp:612-626 | on a 0/1 vector, preserve-leading-one returns the one-hot vector of the first 1, or zero if there is none |
| Predicates.LeadOneAtMostOne | main.cpp:612-626 | the result is 0/1 with at most one 1, sitting at a 1 of the input with only zeros before it |
| Predicates.LeadOneIdempotent | main.cpp:612-626 | applying preserve-leading-one twice is the same as applying it once |
| Predicates.InitNotEqualZero.constructor | main.cpp:629-665 | the object holds 1, the inverse of range! and p - i for i = 1..range, each packed |
| Predicates.RangeDiffs | main.cpp:672-675 | difference i is x + (p - (i + 1)), slot by slot |
| Predicates.NotEqualZero | main.cpp:668-680 | as written: each slot is the not-equal-zero polynomial with the constant chosen by the parity of range |
| Predicates.NotEqualZeroFixed | main.cpp:668-680 | corrected: each slot is 1 - (x-1)...(x-r)/r! for even range too |
| Predicates.FallingVanishes | main.cpp:671-677 | the falling product (v-1)...(v-k) is zero for 1 <= v <= k |
| Predicates.FallingAtZero | main.cpp:671-677 | at v = 0 the falling product is (-1)^k k! |
| Predicates.FallingAtMinusOne | main.cpp:671-677 | at v = -1 the falling product is (-1)^k (k+1)! |
| Predicates.InvFactorialCancels | main.cpp:637-638 | the precomputed constant is the inverse of range! modulo a prime above range |
| Predicates.NezAtZero | main.cpp:668-680 | both the as-written and the corrected polynomial map 0 to 0 |
| Predicates.NezOnRange | main.cpp:678-679 | as written, 1..r maps to 1 for odd r but to p - 1 for even r; the corrected polynomial gives 1 |
| Predicates.NezFixedIndicator | main.cpp:668-680 | on 0..r the corrected polynomial is the indicator of v != 0 |
| Predicates.NezAtMinusOne | main.cpp:678-679 | at p - 1 (the sentinel) the corrected polynomial always gives p - r, and the as-written one does for odd r: neither is an indicator value |
| Round.PointerMatrixIsMat | main.cpp:780-785 | a pointer matrix is a 0/1 matrix with at most one 1 per row, and so is its transpose |
| Round.PreferenceMatrix | main.cpp:780-785 | row j of the preference matrix is the unit vector at the item ranked j-th |
| Round.TransposeByScan | main.cpp:787-792 | the scan that stops at the first 1 of each row builds the transpose |
| Round.TopChoiceIsBest | main.cpp:885-895 | the chosen item is available and every item ranked above it is not, or there is no choice when nothing is available |
| Round.AdjacencyRow | main.cpp:886-894 | the row is the one-hot vector of the user's top available item |
| Round.AdjacencyMatrix | main.cpp:884-895 | the rows are the row-wise encryption of the pointer matrix of all top choices |
| Round.TopChoicesArePointers | main.cpp:884-895 | every top choice is an item or -1 |
| Round.PointerProduct | main.cpp:917 | the product of two pointer matrices is the pointer matrix of following one pointer, then the other |
| Round.PointerPower | main.cpp:917 | the e-th power of a pointer matrix is the pointer matrix of the e-step walks |
| Round.CountPositive | main.cpp:928-929 | a column count is positive exactly when some walk ends at that item |
| Round.ColumnCounts | main.cpp:928 | the all-ones vector times a pointer matrix counts, per item, the walks that end there |
| Round.RefreshRows | main.cpp:909 | every row is refreshed to its first slots slots |
| Round.CycleIndicator | main.cpp:915-938 | corrected (corrected fold and not-equal-zero): u is 1 exactly at the items some n-step walk reaches, and 0 at all other slots |
| Round.Choices | main.cpp:942-951 | t packs, per user, the item the user points at |
| Round.ChoicesAreItems | main.cpp:942-951 | t holds item indices below n and is zero past the users |
| Round.UpdateOutput | main.cpp:952-958 | where u is 1 the output takes t, where u is 0 it keeps its value, and it stays zero past the users |
| Round.UpdateOutputSlots | main.cpp:952-958 | the ciphertext formula t u + o (1 + u (p - 1)) selects t or o slot by slot |
| Round.OneMinusSlots | main.cpp:954-955 | 1 + x (p - 1) is 1 - x modulo p on the users' slots and zero past them |
| Round.UpdatedOutput | main.cpp:952-958 | selecting between item indices and a valid output keeps the output valid |
| Round.AvailabilityAsWritten | main.cpp:959-962 | as written: availability is 1 - NotEqualZero(output) slot by slot |
| Round.AvailabilityAsWrittenValues | main.cpp:959-962 | as written, for odd r: an unassigned user gets availability r + 1, a user given item 0 gets 1, and users given items 1..r get 0 |
| Round.AssignedUnavailable | main.cpp:959-962 | as written, an odd range gives 0 availability to users given items 1..r |
| Round.AvailabilityFixed | main.cpp:959-962 | corrected: availability is 1 - NotEqualZero(output + 1) slot by slot |
| Round.AvailabilityFixedValues | main.cpp:959-962 | corrected, availability is 1 exactly for unassigned users (output p - 1) and 0 for assigned ones |
| Round.NextAvailability | main.cpp:959-962 | the corrected availability of a valid output is the packed vector of unassigned users |
| Round.NextAvailabilityOf | main.cpp:959-962 | corrected (availability from output + 1): the availability step applied to a valid output returns the packed vector of unassigned users |
| Round.UpdateState | main.cpp:952-962 | the output takes t where u is 1 and stays valid, and (corrected availability) the availability marks the users still unassigned |
| Round.RunRound | main.cpp:863-962 | users on a trading cycle receive the item they point at, the others keep their output, and the new availability marks exactly the users still unassigned |

## Left out

- The OpenFHE engine: key generation, encryption noise, relinearisation and
  `ModReduceInPlace` are not modelled. Every ciphertext is exact, and
  reducing the modulus changes no slot. This includes the `ModReduceInPlace`
  on `enc_t` in place of `enc_t_mult_u` (main.cpp:953).
- Key-switching keys are modelled only as the list of rotation offsets
  (`InitRotsMasks.rotIndices`). A rotation is not checked against that list.
  `RotOffsetsCover` and `PrefixRotationsHaveKeys` state separately that the
  needed keys exist.
- I/O is not modelled: printing, decrypt-for-debug blocks, timing (`TIC`,
  `TOC`) and `CryptoOpsLogger`. This covers the print helpers
  (crypto_utilities.cpp:4-32) and the parameter setup of `main` before the
  round. The user preferences hard-coded in `main` become parameters of
  `RunRound`.
- `std::ceil(std::log2(n))` and `std::pow(2, k)` in floating point become
  the exact integer functions `CeilLog2` and `Pow2`.
- `evalMatrixExp` (main.cpp:379-456) is not modelled. `main` does not call
  it: the call is commented out at main.cpp:916 in favour of `evalMatSqMul`.
- The commented-out code in crypto_matrix_operations.cpp (from line 125 on)
  and in `main` (the matrix-exponentiation tests) is not modelled.
- main.cpp's own `InitRotsMasks` (main.cpp:54-78) is not modelled.
  `CryptoUtilities.InitRotsMasks` models the crypto_utilities.cpp version,
  which also generates the power-of-two offsets.
- `main.cpp`'s `evalExponentiate` (main.cpp:499-527) is not modelled. It
  does the same steps as the crypto_utilities.cpp one, and
  `CryptoUtilities.Exponentiate` models that one.
- Refresh: `refreshInPlace` modifies its argument through a reference.
  `Refresh` and `RefreshRows` return the new value instead, which is the
  same thing because nothing aliases a ciphertext.
- `EvalInnerProduct` fills slots other than 0 with values of OpenFHE's
  rotate-and-add tree. They are modelled as cyclic windowed sums. Every
  caller masks the result to slot 0, so only slot 0 matters.
- `repFillSlots` and the diagonal and packed matrix products are modelled
  only when the pattern's period divides the slot count (`Tiles`). The
  source leaves that case undefined.
- `modFactorial` and `modInverse` come from utilities.h, which is not part
  of this model. They are modelled as `ModFactorial` (r! mod p) and
  `ModInverse` (extended Euclid), with their properties proved.
- `MatSqMul`, `MatrixMul2Pow`: the source's `assert`s (main.cpp:333 on the
  exponent, main.cpp:202 on the number of matrices) become `None` results.
  Both checks read only 32 bits. `MatSqMul` returns `None` exactly when
  the exponent's 32-bit two's-complement value is below 2, so every negative
  exponent yields a result despite the comment "Required: Exponent > 1".
  `MatrixMul2Pow` returns `None` when the low 32 bits of the matrix count do
  not form a power of two of at least 2. A result for every accepted count
  is promised only below 2^32; above that, the check can accept a count
  such as 2^32 + 2 whose halves then fail it.
- `Exponentiate`: crypto_utilities.cpp:60-87 has no check on the exponent.
  An exponent of 0 leaves the list of selected squarings empty and reaches
  `EvalMultMany` on it, whose result is not defined here; the model requires
  a non-zero exponent.
- `RunRound` uses the corrected members listed under Findings. For `main`'s
  n = 5 (odd, below 127), `MatSqMul` and `NotEqualZero` agree with their
  corrected forms. The availability update does not (third finding).
- `CycleIndicator`: computes u with `MatSqMulFixed` and `NotEqualZeroFixed`
  instead of the as-written `evalMatSqMul` and `evalNotEqualZero`
  (main.cpp:917, 929). For an even n the source's u holds p - 1 rather than
  1 at the reached items (second finding), and for n with three or more
  groups the source's power is not A^n (first finding).
- `UpdateState`: its availability is the corrected one (`AvailabilityFixed`),
  not the as-written `1 - NotEqualZero(output)` of main.cpp:959-962, which
  gives r + 1 to unassigned users for an odd r and 1 to a user given item 0
  (third finding).
- `NextAvailabilityOf`: the corrected availability step, for the same reason
  as `UpdateState` (third finding).
- `OnCycle` is defined as "reached by an n-step walk along the pointers".
  Its equivalence with lying on a cycle of the pointer graph is not proved.
- The loop over rounds is only a TODO in the source and is not modelled;
  `RunRound` is one round.

## Findings

| source | as written | input that shows it | evidently intended | confidence | as-written member | corrected member |
|---|---|---|---|---|---|---|
| main.cpp:362-373 | the fold loop runs `i < encMatsTemp.size()` while popping from `encMatsTemp`, so with three or more group products some are never multiplied in | exponent 127: the groups are 64, 48 and 15, and the result is A^63; for a shear matrix modulo 65537, A^63 differs from A^127 | multiply every group product, so the result is A^exponent | not executed | MatPower.MatSqMul, MatPower.MatSqMulAt127, MatPower.MatSqMulDropsAFactor | MatPower.MatSqMulFixed |
| main.cpp:678-679 | for an even range r the result is (p - 1) + (x-1)...(x-r)/r!, adding -1 instead of negating the product | r = 2, x = 1: the result is p - 1 instead of 1 | 1 - (x-1)...(x-r)/r!, which is 0 at x = 0 and 1 on 1..r | not executed | Predicates.NotEqualZero, Predicates.NezOnRange | Predicates.NotEqualZeroFixed, Predicates.NezFixedIndicator |
| main.cpp:959-962 | availability is 1 - NotEqualZero(output), but unassigned users hold the sentinel p - 1 and a user can be assigned item 0 | odd r, output p - 1: availability r + 1 instead of 1; output 0 (assigned item 0): availability 1 instead of 0 | 1 exactly for the unassigned users, for example 1 - NotEqualZero(output + 1) | not executed | Round.AvailabilityAsWritten, Round.AvailabilityAsWrittenValues | Round.AvailabilityFixed, Round.AvailabilityFixedValues |
