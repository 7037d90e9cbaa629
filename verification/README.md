# A verified model of the curve arithmetic in `crypto-dbpoe`

The fork of libsecp256k1 in `crypto-dbpoe` does its work in a few places where a
fast form stands for a simple one: signed-digit recodings of scalars, four ways of
multiplying points, field arithmetic on limbs that hold more than they should,
and byte encodings that must be read in exactly one way. These Dafny files model
those places and prove that the fast forms are the simple ones.

## Layout

| files | what they hold |
|---|---|
| `Arith`, `Modular`, `Digits`, `Bits`, `Limbs`, `ByteStrings`, `Convolution`, `Wrappers` | powers of two, residues, digit strings, machine words, limb strings, big-endian bytes, schoolbook multiplication |
| `Scalars`, `Residues`, `CurveGroup`, `GroupWitness` | scalars modulo the group order, congruences, the curve points as a commutative group, and a group that meets the assumptions |
| `SlidingWnaf`, `FixedWnaf`, `ConstWnaf` | the three recodings |
| `OddMultiples`, `Strauss`, `Pippenger`, `EcmultConst`, `EcmultGen` | the multiplications and the blinded generator context |
| `Schedule`, `MultiMul` | window and batch sizes, and the batched multi-multiplication |
| `FieldReduce`, `FieldCanonical`, `FieldNormalize`, `FieldZero`, `FieldLinear` | reduction of field elements, for ten 26-bit and five 52-bit limbs alike |
| `Field10x26`, `FieldColumns`, `FieldMul`, `Field5x52`, `FieldMul52` | field multiplication and squaring for both layouts |
| `FieldPower`, `FieldCongruence`, `Cubes`, `Jacobian`, `StorageTable`, `AffineTable` | square roots and inverses, why no point has y = 0, Jacobian formulas, the generator's table of affine odd multiples and its meaning in the group of the curve |
| `Der`, `DerSignature`, `LaxDer`, `Ecdsa` | signatures: encodings, signing, verifying |
| `PubkeyCodec`, `CurveEquation`, `KeyTweaks` | public key encodings, the curve's equation and that chords and tangents keep to it, key tweaks |

Arrays that the source writes in place are arrays that the methods write in place.
The generator context is a class; the parsers and multiplications are methods.
Each method is proved against functions and predicates of its inputs, and the lemmas
say what those mean.

## Assumptions

The model is that of the build without `USE_ENDOMORPHISM`, with 256-bit digit arrays.

* Points form a commutative group in which N times any point is infinity
  (`CurveGroup.Laws`). Where the source relies on the order being prime, that is a
  further hypothesis (`CurveGroup.PrimeOrder`). `GroupWitness` shows that the group
  laws, and those that `Ecdsa` adds for coordinates, can be met.
* `FieldPower.Fermat` states Fermat's theorem for p. It is where the primality of p
  enters: square roots, inverses and the absence of zero divisors are proved from it.
* `Residues.Inverts` is the contract of `secp256k1_scalar_inverse`: an inverse for
  every nonzero scalar.
* `EcmultGen.Suitable` says that no entry of the comb table is infinity, which the
  source gets from a blinding point of unknown discrete logarithm.
* `AffineTable.ChordAndTangent` states what is classical about the curve: infinity and
  the points with y^2 = x^3 + 7 are a group of prime order N whose addition follows
  chords and tangents. Under it `StorageTable.Regular`, which says that no addition in
  building a table meets two points with the same x, is proved (`AffineTable.IsRegular`).

## Where code and documentation disagree

* `secp256k1_fe_verify` admits magnitudes up to 32 (ten limbs) and 2048 (five limbs),
  but at those magnitudes the first pass of normalization can wrap around a word and
  change the residue. `FieldCanonical.NormalForm` says exactly when the result is
  right, and `MagnitudeTooLarge` gives the element of the last admitted magnitude.
* `secp256k1_der_read_len` converts a `size_t` to an `int`. On inputs of 2 GiB and more
  the converted length is wrong, but no such input is a signature that the parser accepts:
  `DerSignature.SigParse` is proved for inputs of every length.
* The strict and the lax parser differ on negative and oversized integers.
  `LaxDer.LaxAgrees` says exactly when they agree.
* `secp256k1_ecmult_multi_var` takes any count, but its two ceiling divisions can wrap.
  Where the first sum wraps the code divides by zero. Where the second one wraps, every
  batch is empty and the code reports success with all points dropped: 2^63 + 1 points
  with room for one at a time are such an input (`Schedule.PointsLost`).
  `Schedule.CutIsRight` says exactly when the cut is right, and `MultiMul.MultiVar`
  says what comes out in every case.
* The signing function documents that an x coordinate beyond the order must be ruled
  out by the caller, but still puts it into the recovery id; the model follows the code.

## Model

| member | source | states |
|---|---|---|
| Arith.GetBitsIsDivMod | crypto-dbpoe/src/scalar.h:29-33 | reading count bits from offset is (s / 2^offset) mod 2^count |
| SlidingWnaf.Recode | crypto-dbpoe/src/ecmult_impl.h:347-396 | the digits are a width-w non-adjacent form (0 or odd, below 2^(w-1), nonzero ones at least w apart) that stands for the signed scalar where it fits in len-1 bits; the result is the place of the last nonzero digit, at most one more than the bits of the absolute value; the rest of the array is untouched |
| SlidingWnaf.WriteWindow | crypto-dbpoe/src/ecmult_impl.h:366-388 | one nonzero digit with its carry keeps the digits-plus-carry equal to the low bits of the scalar and keeps the shape |
| SlidingWnaf.TakeWindow | crypto-dbpoe/src/ecmult_impl.h:366-388 | the step behind it: the word minus its carry-out preserves value and spacing |
| SlidingWnaf.DigitBound | crypto-dbpoe/src/ecmult_impl.h:372-384 | the signed word is odd and below 2^(w-1) in absolute value |
| SlidingWnaf.Finished | crypto-dbpoe/src/ecmult_impl.h:385-396 | the final carry is 0 when the value fits in len-1 bits, and then the digits stand for the signed scalar |
| FixedWnaf.Recode | crypto-dbpoe/src/ecmult_impl.h:650-716 | exactly one digit for every w bits, each 0 or odd and below 2^w, standing for the scalar plus the skew, for every scalar and width; entries before and after the row are untouched |
| FixedWnaf.TakeWords | crypto-dbpoe/src/ecmult_impl.h:691-713 | the main loop: each word taken in, made odd by borrowing, and folded keeps the value of the bits read so far; entries outside those words are untouched |
| FixedWnaf.TakeAndFold | crypto-dbpoe/src/ecmult_impl.h:692-712 | borrowing from the digit below and the in-place cancellation of 1 or -1 both preserve the value and the digit shape |
| FixedWnaf.FoldedValue | crypto-dbpoe/src/ecmult_impl.h:699-711 | the cancellation of a 1 above a negative digit, or a -1 above a positive one, leaves the value unchanged |
| FixedWnaf.ClearAbove | crypto-dbpoe/src/ecmult_impl.h:675-688 | the position of the last nonzero word, or 0; the words above it, and nothing else, are cleared |
| ConstWnaf.Recode | crypto-dbpoe/src/ecmult_const_impl.h:51-118 | every digit is odd, nonzero and below 2^w; the digits stand for the scalar plus a skew of 1 or 2, up to one multiple of the order, for every scalar including 0 and -1 |
| ConstWnaf.SkewAndSign | crypto-dbpoe/src/ecmult_const_impl.h:64-92 | the number recoded is odd, positive and at most half the order plus 2, and with the sign it is the scalar plus a skew of 1 or 2, up to one multiple of the order |
| ConstWnaf.Step | crypto-dbpoe/src/ecmult_const_impl.h:94-112 | one turn of the loop keeps the value and leaves an odd positive word pending |
| ConstWnaf.FitsWhenSmall | crypto-dbpoe/src/ecmult_const_impl.h:94-117 | the digits have room when size is 256 or one more than the bits of the absolute value |
| EcmultConst.Multiply | crypto-dbpoe/src/ecmult_const_impl.h:120-255 | r = q * A for every scalar and finite point; no doubling and no addition in the loop ever meets infinity where the formula forbids it |
| EcmultConst.TopIsNotZero | crypto-dbpoe/src/ecmult_const_impl.h:189-209 | every accumulated multiplier is odd and too small to be a multiple of the order |
| EcmultConst.ConstGet | crypto-dbpoe/src/ecmult_const_impl.h:16-36 | the constant-time scan returns digit times the point |
| EcmultConst.Unskew | crypto-dbpoe/src/ecmult_const_impl.h:213-254 | the correction subtracts skew times the point |
| OddMultiples.Build | crypto-dbpoe/src/ecmult_impl.h:81-139 | the table holds (2i+1) times the point and nothing before or after it changes |
| OddMultiples.GetIsMultiple | crypto-dbpoe/src/ecmult_impl.h:247-268 | an odd digit in range selects digit times the point, with the index in bounds |
| Strauss.Prepare | crypto-dbpoe/src/ecmult_impl.h:441-471 | the kept digit rows stand for the whole sum; inputs with zero scalars or infinite points contribute nothing |
| Strauss.BuildTables | crypto-dbpoe/src/ecmult_impl.h:473-500 | every kept point gets its table |
| Strauss.Interleave | crypto-dbpoe/src/ecmult_impl.h:531-565 | simultaneous Horner evaluation of all rows and the generator's gives the sum of the recoded values |
| Strauss.PointDigit | crypto-dbpoe/src/ecmult_impl.h:554-559 | a nonzero digit lies within the recorded bits and its table entry is digit times the point |
| Strauss.GeneratorDigit | crypto-dbpoe/src/ecmult_impl.h:560-563 | the same for the generator's table |
| Strauss.Multiply | crypto-dbpoe/src/ecmult_impl.h:422-570 | r = the sum of na[i] * a[i] plus ng * G, for every number of points |
| Strauss.Ecmult | crypto-dbpoe/src/ecmult_impl.h:572-590 | r = na * A + ng * G |
| Strauss.ContextBuild | crypto-dbpoe/src/ecmult_impl.h:285-317 | the context's table holds the odd multiples of G |
| Pippenger.Multiply | crypto-dbpoe/src/ecmult_impl.h:735-810 | r = the sum of sc[i] * pt[i] for any number of points and any bucket window 1 to 12 |
| Pippenger.Prepare | crypto-dbpoe/src/ecmult_impl.h:742-754 | the recoded rows, laid one after the other in the buffer, stand for the whole sum |
| Pippenger.FillBuckets | crypto-dbpoe/src/ecmult_impl.h:759-785 | after one window the buckets, weighted by 1, 3, 5, ..., sum to the digits times their points, skews settled at window 0 |
| Pippenger.Place | crypto-dbpoe/src/ecmult_impl.h:777-784 | an odd digit goes, by its absolute value, to a bucket in bounds with the sign moved to the point |
| Pippenger.AccumulateBuckets | crypto-dbpoe/src/ecmult_impl.h:787-807 | the running sums with the deferred doubling give 2^(window+1) times the accumulator plus the weighted buckets |
| Pippenger.SuffixSums | crypto-dbpoe/src/ecmult_impl.h:791-807 | twice the sum of the running sums above bucket 0 plus the full running sum is the sum of (2j+1) * bucket j |
| Pippenger.DeferredDoubling | crypto-dbpoe/src/ecmult_impl.h:787-807 | the last doubling serves both the window shift and the even parts of the weights |
| Pippenger.AllWindows | crypto-dbpoe/src/ecmult_impl.h:756-808 | Horner evaluation over the windows |
| Schedule.WindowGalois | crypto-dbpoe/src/ecmult_impl.h:816-904 | n <= inv(b) exactly when the window for n is at most b |
| Schedule.RoomFor | crypto-dbpoe/src/ecmult_impl.h:928-936 | n points fit one window's scratch size exactly when n is at most the quotient that the search computes |
| Schedule.PippengerAllocates | crypto-dbpoe/src/ecmult_impl.h:928-973 | the scratch size is the bytes that a batch of n points and G allocates and one more number for each entry |
| Schedule.StraussAllocates | crypto-dbpoe/src/ecmult_impl.h:592-622 | the Strauss scratch size is exactly the bytes that a batch allocates |
| Schedule.PippengerMaxPoints | crypto-dbpoe/src/ecmult_impl.h:1018-1057 | the result and every smaller positive count fit the allocation, each with its own window, and the next count does not |
| Schedule.TryWindow | crypto-dbpoe/src/ecmult_impl.h:1026-1054 | one window of the search keeps that, or ends it rightly |
| Schedule.StraussFits | crypto-dbpoe/src/ecmult_impl.h:592-599 | every count up to the Strauss maximum fits |
| Schedule.CutIsRight | crypto-dbpoe/src/ecmult_impl.h:1115-1126 | the batches are non-empty, none larger than allowed, and cover the n points exactly when neither sum wraps, and then no fewer would do; the division by zero comes exactly where the first sum wraps, and where only the second one does every batch is empty |
| Schedule.HalfIsRight | crypto-dbpoe/src/ecmult_impl.h:1115-1126 | counts up to 2^63 never wrap the second sum |
| Schedule.PointsLost | crypto-dbpoe/src/ecmult_impl.h:1115-1126 | inputs on which every batch is empty, and one that divides by zero |
| Schedule.PlanIsRight | crypto-dbpoe/src/ecmult_impl.h:1106-1128 | every batch of the plan fits the scratch space; the batches cover the points exactly when the second sum does not wrap, and are empty Strauss batches otherwise; Pippenger batches have 160 to 10 million points |
| Schedule.PlanSuffices | crypto-dbpoe/src/ecmult_impl.h:1106-1128 | where one point fits, counts up to 2^63 are cut right on every allocation that leaves the first sum room |
| Schedule.CeilDivBounds | crypto-dbpoe/src/ecmult_impl.h:1115-1126 | the ceiling division is one where it does not wrap |
| Schedule.CeilDivWraps | crypto-dbpoe/src/ecmult_impl.h:1115-1126 | it yields zero exactly when the sum wraps |
| MultiMul.MultiVar | crypto-dbpoe/src/ecmult_impl.h:1088-1140 | for every count and allocation: the naive sum with G counted once, failing exactly with the callback, wherever the batch sizes do not wrap; failure where no point fits, undefined exactly where the code divides by zero, and G's part alone where the second division wraps |
| MultiMul.MultiVarSimple | crypto-dbpoe/src/ecmult_impl.h:1061-1085 | the point-by-point form gives the naive sum, failing exactly with the callback |
| MultiMul.RunBatches | crypto-dbpoe/src/ecmult_impl.h:1129-1139 | the batches partition the points by offset, the first alone counts G, and their sum is the whole; batches of size 0 leave G's part |
| MultiMul.PippengerBatch | crypto-dbpoe/src/ecmult_impl.h:938-1011 | a batch that fits gives its part of the sum, failing exactly with the callback, and one that does not fit fails |
| MultiMul.StraussBatch | crypto-dbpoe/src/ecmult_impl.h:601-638 | the same for Strauss |
| EcmultGen.ComputeComb | crypto-dbpoe/src/ecmult_gen_impl.h:44-101 | prec[j][i] = i * 16^j * G + U_j with the row blinds U_j summing to zero |
| EcmultGen.AddEntry | crypto-dbpoe/src/ecmult_gen_impl.h:136-153 | adding the entry that four bits select extends the sum by those bits and the row's blind |
| EcmultGen.Unblind | crypto-dbpoe/src/ecmult_gen_impl.h:125-157 | after all rows the blinds cancel and the result is gn * G |
| EcmultGen.GenContext.Gen | crypto-dbpoe/src/ecmult_gen_impl.h:125-157 | r = gn * G for every scalar |
| EcmultGen.GenContext.Blind | crypto-dbpoe/src/ecmult_gen_impl.h:160-209 | the starting point is minus the blind times G, before and after |
| EcmultGen.GenContext.Build | crypto-dbpoe/src/ecmult_gen_impl.h:29-102 | building establishes the table and the blinding, and a second build changes nothing |
| EcmultGen.AfterAnyHistory | crypto-dbpoe/src/ecmult_gen_impl.h:29-209 | after any sequence of builds and re-blindings, multiplication gives gn * G |
| FieldReduce.FirstPassValue | crypto-dbpoe/src/field_10x26_impl.h:48-63 | the first pass subtracts a multiple of p and what it loses to wrapping words |
| FieldReduce.AtLeastP | crypto-dbpoe/src/field_10x26_impl.h:68-70 | the three-part test says whether the value is at least p |
| FieldCanonical.NormalForm | crypto-dbpoe/src/field_10x26_impl.h:43-96 | normalization gives the reduced form of the value less the loss: the residue exactly when no addition of the first pass wraps |
| FieldCanonical.SafelyNormalized | crypto-dbpoe/src/field_5x52_impl.h:54-95 | for magnitudes up to 31 and 2047 that is the residue |
| FieldCanonical.MagnitudeFits | crypto-dbpoe/src/field_5x52_impl.h:28-52 | up to those magnitudes the first pass fits |
| FieldCanonical.MagnitudeTooLarge | crypto-dbpoe/src/field_10x26_impl.h:16-41 | at the next magnitude, which is still admitted, it does not |
| FieldCanonical.NoLoss | crypto-dbpoe/src/field_10x26_impl.h:48-63 | there is no loss exactly when no addition wraps |
| FieldCanonical.SecondPassNormalizes | crypto-dbpoe/src/field_10x26_impl.h:72-89 | the second pass subtracts p where the test asked for it, and bit 256 of its sum is the tested condition |
| FieldCanonical.NormalizedUnique | crypto-dbpoe/src/field_10x26_impl.h:43-96 | a residue has only one normalized representation |
| FieldNormalize.Normalize | crypto-dbpoe/src/field_10x26_impl.h:43-96 | in place: the normal form, which is the residue exactly when the first pass fits |
| FieldNormalize.NormalizeVar | crypto-dbpoe/src/field_10x26_impl.h:129-183 | the variable-time form leaves the same limbs |
| FieldNormalize.NormalizeWeak | crypto-dbpoe/src/field_5x52_impl.h:97-119 | magnitude 1, value below 2p, the same residue exactly when the first pass fits |
| FieldNormalize.CarryPass | crypto-dbpoe/src/field_10x26_impl.h:52-61 | the carry lines and the running conjunction of limbs |
| FieldZero.NormalizesToZero | crypto-dbpoe/src/field_10x26_impl.h:185-212 | true exactly when the value less the loss is zero modulo p, hence exactly for zero where the first pass fits |
| FieldZero.NormalizesToZeroVar | crypto-dbpoe/src/field_10x26_impl.h:214-264 | the same with the early exit on limb 0 |
| FieldZero.ZeroVerdict | crypto-dbpoe/src/field_5x52_impl.h:165-186 | after the first pass only the limbs of 0 and of p stand for zero |
| FieldZero.VerdictIsRight | crypto-dbpoe/src/field_10x26_impl.h:185-264 | exactly when the verdict is right: where the first pass fits, or the residue is neither zero nor the number that is lost |
| FieldLinear.NegateElement | crypto-dbpoe/src/field_10x26_impl.h:386-406 | the negative modulo p at magnitude m + 1, no limb wrapping |
| FieldLinear.AddElement | crypto-dbpoe/src/field_10x26_impl.h:426-447 | the sum, magnitudes added, no limb wrapping |
| FieldLinear.MulIntElement | crypto-dbpoe/src/field_5x52_impl.h:389-400 | the multiple, magnitude multiplied, no limb wrapping |
| FieldLinear.CmpVar | crypto-dbpoe/src/field_10x26_impl.h:304-321 | compares the values of normalized elements |
| Convolution.ProductValue | crypto-dbpoe/src/field_10x26_impl.h:498-501 | the column sums px are the limbs of the product |
| FieldColumns.ColumnBound | crypto-dbpoe/src/field_10x26_impl.h:474-493 | no column sum of operands below 2^30 (top limb below 2^26) leaves 64 bits |
| Field10x26.Step | crypto-dbpoe/src/field_10x26_impl.h:524-528 | one column keeps the worth of c and d modulo p and no sum leaves 64 bits |
| Field10x26.Top | crypto-dbpoe/src/field_10x26_impl.h:755-758 | folding d into the top limb keeps the worth modulo p |
| Field10x26.Bottom | crypto-dbpoe/src/field_10x26_impl.h:765-785 | the lowest limbs take up what is above bit 256, r[2] staying below 2^27 |
| Field10x26.FoldColumns | crypto-dbpoe/src/field_10x26_impl.h:503-788 | from the column sums to limbs r[2] < 2^27, r[9] < 2^22, others < 2^26, of the same residue |
| FieldMul.MulInner | crypto-dbpoe/src/field_10x26_impl.h:461-788 | the product modulo p, also where the result overwrites the first factor |
| FieldMul.SqrInner | crypto-dbpoe/src/field_10x26_impl.h:790-1062 | the square modulo p |
| FieldMul.Mul | crypto-dbpoe/src/field_10x26_impl.h:1065-1079 | factors of magnitude up to 8 give a product of magnitude 1 |
| FieldMul.Sqr | crypto-dbpoe/src/field_10x26_impl.h:1081-1092 | the same for squaring |
| Field5x52.First | crypto-dbpoe/src/field_5x52_asm_impl.h:35-76 | columns 3 and 8: the low-register shifts lose nothing and the worth is kept modulo p |
| Field5x52.Second | crypto-dbpoe/src/field_5x52_asm_impl.h:77-121 | column 4, with its top four bits set aside |
| Field5x52.Third | crypto-dbpoe/src/field_5x52_asm_impl.h:122-171 | columns 0 and 5 with those bits joined in |
| Field5x52.Middle | crypto-dbpoe/src/field_5x52_asm_impl.h:172-261 | columns 1 and 6, and 2 and 7 |
| Field5x52.Last | crypto-dbpoe/src/field_5x52_asm_impl.h:262-280 | the additions that drop the carry lose nothing |
| Field5x52.FoldColumns | crypto-dbpoe/src/field_5x52_asm_impl.h:35-280 | from the column sums to limbs of magnitude 1 of the same residue |
| FieldMul52.Mul | crypto-dbpoe/src/field_5x52_asm_impl.h:17-285 | the product modulo p for factors of magnitude up to 8 |
| FieldMul52.Sqr | crypto-dbpoe/src/field_5x52_asm_impl.h:287-500 | the square modulo p |
| FieldPower.RootPower | crypto-dbpoe/src/field_impl.h:51-129 | the addition chain computes the power (p+1)/4 |
| FieldPower.Sqrt | crypto-dbpoe/src/field_impl.h:38-134 | succeeds exactly for squares, with one of the two roots; otherwise yields a root of the negative; the result is always itself a square |
| FieldPower.InversePower | crypto-dbpoe/src/field_impl.h:140-223 | the addition chain computes the power p-2 |
| FieldPower.Inverse | crypto-dbpoe/src/field_impl.h:136-224 | the inverse, and zero for zero |
| Jacobian.AddIsChord | crypto-dbpoe/src/group_impl.h:417-464 | the addition formula follows the affine chord |
| Jacobian.DoubleIsTangent | crypto-dbpoe/src/group_impl.h:304-357 | the doubling formula follows the affine tangent |
| StorageTable.OddMultiples | crypto-dbpoe/src/ecmult_impl.h:141-242 | every entry is (x / (z dz)^2, y / (z dz)^3) of its point, reduced, and nothing beyond the table changes |
| StorageTable.BackwardStep | crypto-dbpoe/src/ecmult_impl.h:200-241 | one round of the backward pass recovers the inverse of the point's z and its affine coordinates from the stored ratio and y |
| StorageTable.FirstPass | crypto-dbpoe/src/ecmult_impl.h:152-185 | the additions leave the z ratios and the y coordinates in the table |
| StorageTable.TableIsOddMultiples | crypto-dbpoe/src/ecmult_impl.h:141-242 | in affine terms the table starts at the point, and each entry is the chord sum of the one before and the tangent double of the point; all the slopes exist |
| AffineTable.IsRegular | crypto-dbpoe/src/ecmult_impl.h:152-185 | in the group of the curve no addition of the builder meets two points of the same x, for tables of up to half the order |
| AffineTable.OneAddition | crypto-dbpoe/src/ecmult_impl.h:172-185 | the addition formula goes from one odd multiple to the next in the group of the curve |
| AffineTable.EntryIsMultiple | crypto-dbpoe/src/ecmult_impl.h:141-242 | entry i is (2i+1) times the point |
| AffineTable.ContextBuild | crypto-dbpoe/src/ecmult_impl.h:285-300 | the builder of the source, in coordinates, gives the table of odd multiples of G that the multiplications rely on |
| Jacobian.OneChord | crypto-dbpoe/src/group_impl.h:417-464 | a chord leads to only one reduced point |
| Jacobian.CrossMultiplied | crypto-dbpoe/src/group_impl.h:249-255 | xr * z^2 = x modulo p exactly when xr is the affine x coordinate |
| Der.ReadLen | crypto-dbpoe/src/ecdsa_impl.h:49-97 | reads exactly the DER length that stands there, for inputs of every size |
| Der.ParseInteger | crypto-dbpoe/src/ecdsa_impl.h:99-143 | accepts exactly a minimally encoded integer and yields its value, or zero where it is negative or not below the order |
| Der.ReadScalar | crypto-dbpoe/src/ecdsa_impl.h:123-141 | skipping zeros, copying and reducing gives that value |
| DerSignature.SigParse | crypto-dbpoe/src/ecdsa_impl.h:145-175 | accepts exactly the DER encodings of two integers; two nonzero scalars come out exactly of what the serializer writes for them |
| DerSignature.SigSerialize | crypto-dbpoe/src/ecdsa_impl.h:177-199 | writes the encoding, or reports the size needed and writes nothing, exactly by the size of the buffer |
| Der.SerializedDenotes | crypto-dbpoe/src/ecdsa_impl.h:177-199 | the encoding is accepted and yields what was encoded |
| Der.OnlySerialized | crypto-dbpoe/src/ecdsa_impl.h:145-175 | any accepted input with two nonzero scalars is byte for byte their encoding |
| Der.IntegerUnique | crypto-dbpoe/src/ecdsa_impl.h:111-118 | minimal contents without a sign bit are the shortest for their number |
| LaxDer.ParseLax | crypto-dbpoe/contrib/lax_der_parsing.c:12-149 | every read is in bounds on every input; it accepts exactly the strings 30 h 02 hr cr 02 hs cs t where h is any length, hr and hs are lengths of cr and cs with any number of leading zeros, and t is anything; the result is the numbers of cr and cs, zeros where one is not below n |
| LaxDer.Reads | crypto-dbpoe/contrib/lax_der_parsing.c:12-149 | every string of that form is read with the numbers of its parts |
| LaxDer.Accepted | crypto-dbpoe/contrib/lax_der_parsing.c:12-149 | every accepted string has that form |
| LaxDer.LaxExtendsStrict | crypto-dbpoe/contrib/lax_der_parsing.c:12-149 | whatever the strict parser accepts, followed by any bytes, the lax one accepts and reads as unsigned numbers |
| LaxDer.LaxKeepsSignature | crypto-dbpoe/contrib/lax_der_parsing.c:12-149 | two nonzero scalars read strictly are read alike |
| LaxDer.LaxAgrees | crypto-dbpoe/contrib/lax_der_parsing.c:12-149 | the two parsers agree on strictly accepted input exactly when both numbers are below the order and without sign bit, or one is not below it and neither is a number from 1 to n - 1 |
| LaxDer.LaxDiffers | crypto-dbpoe/contrib/lax_der_parsing.c:12-149 | an input on which they differ |
| Ecdsa.TwoCandidates | crypto-dbpoe/src/ecdsa_impl.h:237-254 | x mod n = r exactly when x = r, or r < p - n and x = r + n |
| Ecdsa.SigVerify | crypto-dbpoe/src/ecdsa_impl.h:201-269 | accepts exactly when r and s are nonzero and some finite point p with x mod n = r has s p = m G + r Q, by the comparison on Jacobian coordinates that needs no inversion |
| Ecdsa.AcceptsValid | crypto-dbpoe/src/ecdsa_impl.h:219-254 | recomputing the point with the inverse of s accepts exactly the signatures that some point explains without inverses |
| Ecdsa.GejEqX | crypto-dbpoe/src/group_impl.h:249-255 | the comparison in Jacobian coordinates says whether xr is the affine x coordinate |
| Ecdsa.SigSign | crypto-dbpoe/src/ecdsa_impl.h:271-311 | fails exactly when m + r d is zero modulo n; otherwise s is low and solves k s = ±(m + r d), bit 1 of the recovery id tells that x is not below n, and bit 0 the parity of y, turned where s was negated |
| Ecdsa.RecomputesNonce | crypto-dbpoe/src/ecdsa_impl.h:219-224 | verification recomputes the nonce's point, negated where s was flipped |
| Ecdsa.SignedIsAccepted | crypto-dbpoe/src/ecdsa_impl.h:271-311 | every signature made is low and accepted, and the two bits of its recovery id give the overflow and the parity of the recomputed point |
| Ecdsa.SignThenVerify | crypto-dbpoe/src/ecdsa_impl.h:201-311 | signing succeeds exactly when m + r d is not zero modulo n, and then verifying under the signer's key succeeds |
| PubkeyCodec.Parse | crypto-dbpoe/src/eckey_impl.h:17-35 | accepts exactly the octets of points on the curve, compressed (2 or 3 by the parity of y), uncompressed (4) or hybrid (6 or 7 by the parity of y), and yields the point |
| PubkeyCodec.EncodesOctets | crypto-dbpoe/src/eckey_impl.h:17-53 | the encodings octet by octet |
| CurveEquation.OnCurveMeans | crypto-dbpoe/src/group_impl.h:219-229 | a point is taken to be on the curve exactly when y^2 and x^3 + 7 are congruent modulo p |
| CurveEquation.GeneratorOnCurve | crypto-dbpoe/src/group_impl.h:60-72 | the generator's coordinates are on it |
| CurveEquation.ChordStays | crypto-dbpoe/src/group_impl.h:417-464 | the chord through two points of the curve leads to a point of the curve |
| CurveEquation.TangentStays | crypto-dbpoe/src/group_impl.h:304-357 | so does the tangent at one |
| PubkeyCodec.NoZeroY | crypto-dbpoe/src/eckey_impl.h:17-35 | no point of the curve has y = 0, so that the parity of y always tells a point from its negative |
| Cubes.MinusSeven | crypto-dbpoe/src/group_impl.h:219-240 | -7 is no cube modulo p |
| PubkeyCodec.SetXo | crypto-dbpoe/src/group_impl.h:219-240 | the point with the given x and parity of y, where there is one |
| PubkeyCodec.Serialize | crypto-dbpoe/src/eckey_impl.h:37-53 | writes the encoding, nothing for infinity |
| PubkeyCodec.RoundTrip | crypto-dbpoe/src/eckey_impl.h:17-53 | parsing what was serialized gives the point back, in both forms |
| KeyTweaks.PrivkeyTweakAdd | crypto-dbpoe/src/eckey_impl.h:55-61 | the sum, failing exactly when it is zero modulo n |
| KeyTweaks.PubkeyTweakAdd | crypto-dbpoe/src/eckey_impl.h:63-75 | the key plus tweak * G, failing exactly when that is infinity |
| KeyTweaks.PrivkeyTweakMul | crypto-dbpoe/src/eckey_impl.h:77-84 | the product, failing exactly for a zero tweak |
| KeyTweaks.PubkeyTweakMul | crypto-dbpoe/src/eckey_impl.h:86-98 | tweak times the key, failing exactly for a zero tweak |
| KeyTweaks.AddCommutes | crypto-dbpoe/src/eckey_impl.h:55-75 | tweaking and deriving commute, with the same outcome |
| KeyTweaks.MulCommutes | crypto-dbpoe/src/eckey_impl.h:77-98 | the same for multiplication |
| KeyTweaks.SumDerives | crypto-dbpoe/src/eckey_impl.h:55-75 | the derived sum is the sum of the derived keys, infinite exactly for zero |

## Left out

- The branches for `USE_ENDOMORPHISM`, and the lambda split.
- Strauss.ContextBuild: builds on points of the abstract group; the source's builder, in coordinates, is `AffineTable.ContextBuild`.
- OddMultiples.Build: without the z ratios, which are in `StorageTable.FirstPass`.
- Scratch sizes are computed without wrapping: the products of counts and struct sizes are unbounded integers.
- The z coordinates in Strauss multiplication, `ecmult_const` and `ecmult_gen`: points are elements of the group there. Only the storage table is modelled in coordinates.
- Jacobian.AddIsChord: the addition formula for distinct x coordinates and finite operands only; the branches for doubling and infinity are not modelled.
- Ecdsa.SigVerify: the Jacobian coordinates of the recomputed point are some coordinates of it (`Ecdsa.CurveLaws`), not those of the multiplication's last formula.
- Ecdsa.SigSign: takes the nonce as a parameter; its generation and the retry loop around it are not part of this model.
- EcmultGen.GenContext.Blind: takes the scalar that the random generator yields as a parameter; the blinding of z coordinates and the seed's hashing are not modelled.
- FieldNormalize.CarryPass: the unrolled carry lines are a loop over the limbs, and one model serves both layouts.
- Field10x26.FoldColumns: the column sums are computed before the reduction, where the source interleaves the two; no order of effects depends on it.
- Field5x52.FoldColumns: the commented steps on the accumulators c and d, not x86 instructions; a column sum is added as one 128-bit number.
- Der.ReadScalar: `scalar_set_b32` is reduction modulo n with an overflow flag, not limb arithmetic.
- PubkeyCodec.Serialize: coordinates are residues, so the normalization before writing does not show.
- Conversions between limbs and bytes or storage words: they would only add easy members.
- The globalz pass over tables (`ge_globalz_set_table_gej`), batch inversion, and `secp256k1_fe_inv_var` through the number library.
- Scalar limb arithmetic, SHA-256 and RFC 6979, Schnorr, ring signatures and the other modules under `src/modules`.
- Constant time, clearing of memory, manual allocation and failing allocations.
- The Go services, the bridge, the command line, the browser extensions and the dashboard.
