# GEC verification

GEC is a small authenticated-channel library: X25519 key agreement, Ed25519 signatures, AES-GCM encryption, SHA-512,
a station-to-station (STS) key exchange and a counter-based message channel. This project models the code as it is
built for 64-bit little-endian targets without assembler (64-bit limbs, 32-bit units in the Galois field code, the 4K
multiplication table, C table selection) and proves that the dense machine-level code computes what the mathematics or
the standard says, for all inputs and all ways of calling it.

The files follow the program:

- `Words`, `Arith`, `Bytes`: machine words as bounded integers, division facts, little-endian numbers. Assigning to a
  variable of a word type is an obligation that no overflow happens; where the C code relies on wrap-around the model
  writes the modulus out.
- `Modm`, `ModmCodec`, `Recode`: scalars modulo the Ed25519 group order, their encodings, the two digit recodings.
- `Group`, `ScalarMult`, `Ed25519`: curve points as an arbitrary commutative group, the two scalar multiplication
  loops, and signatures on top.
- `Field25519`, `FieldOps`, `Fe`, `Ladder`, `Montgomery`, `Recip`, `Quotient`, `Contract`, `X25519`: ten signed limbs,
  the Montgomery ladder with rotating buffers, what its steps do on the curve, the inversion chain, the quotient it is
  for, canonical encoding, the whole X25519 function.
- `Field51`, `Recip51`, `Contract51`: the five-limb field that the signature code uses.
- `GF128`, `GfPoly`, `GfBlock`, `GfWords`, `GfMul`: the field GF(2^128), its word-level shifts with the overflow table,
  the slow and the table multiplier.
- `Ghash`, `GcmSpec`, `Gcm`, `GcmCtx`, `GcmLaws`: GHASH and one-shot GCM as functions, the incremental context, and
  short messages spelled out in bytes.
- `Sha512`, `HashStream`, `ShaBits`, `ShaLaws`: the compression loops, the buffering hash, and what its words, functions
  and padding are bit by bit.
- `AesKey`, `Modes`: the two key schedules and the block cipher modes, for arbitrary block functions.
- `Counters`, `Channel`, `ConfChannel`, `Sts`, `StsWire`, `StsSystem`, `Session`: counters as bytes, the message
  channel, the confirmation channel, the key exchange as contexts in memory, what it hashes and sends byte by byte,
  systems of such contexts under any schedule, and a whole session from key pairs to delivered messages.

Where code and comment disagree, the model follows the code:

- `fcontract` (GEC-block/src/curve25519-donna.c:514-516) says the borrow out of limb nine is at most one. It is at most
  one exactly when limb nine, less what limb eight borrows from it, is at least -2^25 (`Contract.OwedAtMostOne`); on the
  least limbs within the entry bound it is three (`Contract.BorrowOfThree`). `Contract.BorrowPass` keeps limb zero at
  -57 or above instead of -19, and the final result is still canonical. The last borrow step never finds anything to do.
- `curve25519_square_times` (GEC-block/include/curve25519-donna-64bit.h:178) is commented as `in^(2 * count)`; it
  computes `in^(2^count)`.
- `_read_word32_be` (GEC-block/src/gec.c:23-32) shifts once more after the last byte, so reading back a written counter
  `c` gives `256 c mod 2^32`; `Channel.ReadBack` shows that this is `c` only for zero. The increment
  `_gec_ctr_inc_func` (GEC-block/src/gec.c:43-48) therefore takes a counter to `256 c + 1`: four increments lead to
  0x01010101 from every start and stay there (`ConfChannel.FixedFromFour`), and a 64-byte confidential message leaves
  the counter 0x01010100 (`ConfChannel.AfterMessage`).
- The block term in the guard of `gec_encrypt` (GEC-block/src/gec.c:110) uses `%` where `/` would count blocks; for
  64-byte messages it is 15, and the channel stops after 2^32 - 16 messages.

Bit tricks that compare scalars and limbs, exchange or copy words under a mask, and take the magnitude of a digit are
written with the bit operations of `Words`, and the contract of the member around them says what they amount to. Moves
of whole points under a flag are conditionals, since points are abstract, and so is the sign mask of the borrow passes.
Sequences that the source unrolls with macros are written as short loops or helper methods where that changes nothing.
Alignment tests are arbitrary Boolean parameters, so both branches are proved.

## Model

| member | source | states |
|---|---|---|
| `Modm.Reduce256` | GEC-block/include/modm-donna-64bit.h:42-63 | the borrow chain and masked copy subtract the order exactly once when the value reaches it and leave the limbs alone otherwise, with no word overflow |
| `Words.MaskedCopy64` | GEC-block/include/modm-donna-64bit.h:56-62 | the idiom `r ^= mask & (r ^ t)` keeps or replaces a 64-bit word |
| `Modm.BarrettQuotient` | GEC-block/include/modm-donna-64bit.h:71-85 | the quotient estimate whose low columns are never formed differs from the true product with mu by less than 2^264 + 4 * 2^224 |
| `Modm.BarrettProduct` | GEC-block/include/modm-donna-64bit.h:87-96 | the truncated product is `M * q` modulo 2^264 |
| `Modm.EstimateError` | GEC-block/include/modm-donna-64bit.h:66-108 | the estimate leaves a remainder below three times the order, so two conditional subtractions are enough |
| `Modm.BarrettReduce256` | GEC-block/include/modm-donna-64bit.h:65-108 | for every x below 2^512 given as `x >> 248` and `x mod 2^264` the result is exactly `x mod M` |
| `Modm.MulLimbs` | GEC-block/include/modm-donna-64bit.h:124-148 | the schoolbook columns give both overlapping cuts of the full product |
| `Modm.Mul256` | GEC-block/include/modm-donna-64bit.h:123-150 | the product modulo the order, with the output allowed to be an operand |
| `Modm.Add256` | GEC-block/include/modm-donna-64bit.h:110-121 | the sum of reduced scalars modulo the order |
| `ModmCodec.Expand256` | GEC-block/include/modm-donna-64bit.h:152-187 | any input of at most 64 bytes becomes its little-endian value modulo the order |
| `ModmCodec.ExpandRaw256` | GEC-block/include/modm-donna-64bit.h:189-203 | 32 bytes become limbs of exactly the same number |
| `ModmCodec.Contract256` | GEC-block/include/modm-donna-64bit.h:205-211 | 32 bytes that decode to the number in the limbs |
| `Recode.Ripple` | GEC-block/include/modm-donna-64bit.h:268-274 | the in-place carry adds one at a position of a run of bits, clears that digit, and never leaves the array |
| `Recode.MakeSliding` | GEC-block/include/modm-donna-64bit.h:257-280 | the in-place widening keeps the number and leaves only odd digits of bounded size, `w` apart |
| `Recode.SlidingWindow` | GEC-block/include/modm-donna-64bit.h:240-280 | for every scalar below 2^255 and window 2 to 7 the digits write the scalar, nonzero ones are odd, below 2^(w-1) and at least `w` apart |
| `Recode.Window4` | GEC-block/include/modm-donna-64bit.h:213-238 | for every scalar below 2^255 the signed radix-16 digits lie in [-8, 8] and write the scalar |
| `ScalarMult.OddTable` | GEC-block/include/ed25519-donna-impl-base.h:263-266 | the table loop holds the odd multiples |
| `ScalarMult.TableLookup` | GEC-block/include/ed25519-donna-impl-base.h:280-288 | the index of every recoded digit is in range and picks digit times point, sign included |
| `ScalarMult.DoubleScalarMult` | GEC-block/include/ed25519-donna-impl-base.h:252-294 | in any commutative group the loop returns `[s1]P + [s2]B`, skipping leading zero digits |
| `ScalarMult.MagnitudeWord` | GEC-block/include/ed25519-donna-impl-base.h:304-306 | adding and complementing under the sign mask gives the magnitude of a digit |
| `ScalarMult.WindowEqual` | GEC-block/include/ed25519-donna-impl-base.h:297-300 | the exclusive or less one, shifted down, is the equality flag |
| `ScalarMult.ChooseNiels` | GEC-block/include/ed25519-donna-impl-base.h:303-328 | the scan over a table row returns digit times 256^pos times B |
| `ScalarMult.HexAlternates` | GEC-block/include/ed25519-donna-impl-base.h:334-363 | odd and even digits taken separately make up the scalar |
| `ScalarMult.ScalarMultBase` | GEC-block/include/ed25519-donna-impl-base.h:334-363 | odd digits, four doublings, even digits: the result is `[s]B` |
| `Ed25519.PublicKey` | GEC-block/src/ed25519.c:48-60 | the encoded multiple of the base point by the clamped hashed secret |
| `Ed25519.ExtendedKey` | GEC-block/src/ed25519.c:30-36 | the hash of the secret with its low three bits and top bit cleared, bit 254 set and every other bit kept |
| `Ed25519.SecretScalar` | GEC-block/src/ed25519.c:30-36 | the secret scalar is a multiple of eight in [2^254, 2^255) |
| `Ed25519.ChallengeInput` | GEC-block/src/ed25519.c:38-46 | a challenge is hashed from the packed point, the public key and the message, in that order |
| `Ed25519.OrderIs` | GEC-block/include/modm-donna-64bit.h:17-36 | the modulus of the scalars is 2^252 + 27742317777372353535851937790883648493 |
| `Ed25519.Response` | GEC-block/src/ed25519.c:82-94 | `r + h a` modulo the order, encoded in 32 bytes |
| `Ed25519.Sign` | GEC-block/src/ed25519.c:62-95 | both halves of the signature equation |
| `Ed25519.SignOpen` | GEC-block/src/ed25519.c:97-120 | accepts exactly when the scalar passes the range test, the key unpacks and `R = [S]B - [h]A` |
| `Ed25519.VerificationEquation` | GEC-block/src/ed25519.c:112-119 | the algebra behind verification, for any response reduced modulo the order |
| `Ed25519.SignatureAccepted` | GEC-block/src/ed25519.c:48-120 | every signature made with a secret key verifies under its public key |
| `Ed25519.OtherForms` | GEC-block/src/ed25519.c:97-120 | an accepted signature has another accepted one with the same R if and only if S is below 2^253 - M or at least M, for a base point of order exactly M and an injective packing |
| `Field25519.SquareIsProduct` | GEC-block/src/curve25519-donna.c:342-398 | the squaring formula is the product formula limb by limb |
| `Field25519.ProductBound` | GEC-block/src/curve25519-donna.c:90-197 | limbs below 2^27 give product limbs below 14 * 2^54, within 64 bits |
| `Field25519.PartialSums` | GEC-block/src/curve25519-donna.c:96-197 | every sum of some of the products of a column, in any order and before or after doubling, stays below 14 * 2^54 |
| `Field25519.FullColumns` | GEC-block/src/curve25519-donna.c:96-197 | each limb is the convolution column with the products of two odd limbs counted twice |
| `Field25519.ProductValue` | GEC-block/src/curve25519-donna.c:96-197 | the nineteen limbs stand for the product of the two numbers |
| `FieldOps.FReduceDegree` | GEC-block/src/curve25519-donna.c:199-235 | folding the upper limbs nineteen-fold keeps the number modulo the prime, below 280 * 2^54 |
| `FieldOps.DivByShift` | GEC-block/src/curve25519-donna.c:244-271 | shifts and adds divide with rounding towards zero for both signs |
| `FieldOps.FReduceCoefficients` | GEC-block/src/curve25519-donna.c:273-317 | two carry passes bring every limb below 2^26 and keep the number modulo the prime |
| `FieldOps.FMul` | GEC-block/src/curve25519-donna.c:319-334 | the product modulo the prime, limbs below 2^26, no 64-bit overflow |
| `FieldOps.FSquare` | GEC-block/src/curve25519-donna.c:400-418 | the square modulo the prime, limbs below 2^26, no 64-bit overflow |
| `Ladder.FMonty` | GEC-block/src/curve25519-donna.c:611-696 | the buffers hold the ladder step of section 5 of RFC 7748, limb bounds kept, base coordinate preserved |
| `Ladder.SwapConditional` | GEC-block/src/curve25519-donna.c:698-717 | the masked exchange swaps the first ten limbs when the bit is one and keeps them when it is zero |
| `Ladder.TopBit` | GEC-block/src/curve25519-donna.c:737-740 | the top bit of the shifted byte is the next lower bit of the scalar |
| `Fe.EagerIsRfc` | GEC-block/src/curve25519-donna.c:742-750 | swapping back after each step gives the same points as merging swaps the way the RFC does |
| `Montgomery.StepIs` | GEC-block/src/curve25519-donna.c:631-695 | modulo the prime a step makes ((x^2 - z^2)^2 : 4 x z (x^2 + 486662 x z + z^2)) of (x : z), and (4 (x u - z v)^2 : 4 x1 (x v - z u)^2) of it and (u : v) |
| `Montgomery.TangentLaw` | GEC-block/src/curve25519-donna.c:631-695 | on the curve v^2 = u^3 + 486662 u^2 + u the first pair is the tangent construction cleared of its denominator |
| `Montgomery.ChordLaw` | GEC-block/src/curve25519-donna.c:631-695 | and the second is the product of the coordinates of sum and difference given by the chords |
| `Montgomery.LadderIsMultiple` | GEC-block/src/curve25519-donna.c:719-768 | in any group whose coordinates double and add by those formulas the ladder ends with the multiple of the point that the little-endian scalar names, and the next one |
| `Montgomery.PrimeIs` | GEC-block/src/curve25519-donna.c:480-516 | the prime is 2^255 - 19 |
| `Fe.StepScaled` | GEC-block/src/curve25519-donna.c:618-695 | a step on points scaled by common factors gives the same points scaled by common factors |
| `Fe.TopBitClear` | GEC-block/src/curve25519-donna.c:719-768 | for every scalar with its top bit clear the 256 steps of the code and the 255 steps of RFC 7748 reach the same points, with coordinates that differ by powers of four times the base coordinate |
| `Fe.ZeroBase` | GEC-block/src/curve25519-donna.c:719-768 | with base coordinate zero every ladder of at least one step ends with Z zero |
| `Quotient.RatioScaled` | GEC-block/src/curve25519-donna.c:850-856 | given Fermat's theorem a common factor that is a power of a nonzero element cancels from `X * Z^(p - 2)` |
| `Quotient.SameRatio` | GEC-block/src/curve25519-donna.c:850-856 | so the 256-step and the 255-step ladder give the same quotient, base coordinate zero included |
| `Quotient.RatioIs` | GEC-block/src/curve25519-donna.c:850-856 | given Fermat's theorem the quotient times a nonzero Z is X |
| `Ladder.CMult` | GEC-block/src/curve25519-donna.c:719-768 | for every 32-byte scalar the rotated buffers end with the (X:Z) of the 256-bit RFC ladder, limbs below 2^26 |
| `Recip.Raise` | GEC-block/src/curve25519-donna.c:802-829 | alternating squarings and one product concatenate all-ones exponents |
| `Recip.CRecip` | GEC-block/src/curve25519-donna.c:770-838 | the chain computes the power `p - 2` |
| `Contract.BorrowPass` | GEC-block/src/curve25519-donna.c:480-509 | one borrow pass changes every limb by exactly what it owes and is owed along the chain, leaves only limb zero possibly negative, a second one none, and the number is kept modulo the prime |
| `Contract.OwedAtMostOne` | GEC-block/src/curve25519-donna.c:480-516 | limb nine borrows at most one if and only if what limb eight leaves of it is at least -2^25, and nothing if and only if that is not negative |
| `Contract.OwedBound` | GEC-block/src/curve25519-donna.c:480-516 | no limb ever borrows more than three |
| `Contract.BorrowOfThree` | GEC-block/src/curve25519-donna.c:497-516 | the least limbs within the entry bound make limb nine borrow three in the chain that `BorrowPass` follows |
| `Contract.CarryPass` | GEC-block/src/curve25519-donna.c:532-551 | one carry pass leaves only limb zero possibly too wide, a second one none |
| `Contract.S32Eq` | GEC-block/src/curve25519-donna.c:445-454 | folding and spreading the agreeing bits gives all ones for equal operands and zero otherwise |
| `Contract.EqByFolding` | GEC-block/src/curve25519-donna.c:445-454 | the folded bits keep their top bit exactly when the operands are equal |
| `Contract.FoldTop` | GEC-block/src/curve25519-donna.c:447-452 | one fold makes the top k bits all one exactly when the top 2k bits were |
| `Contract.SubtractPrime` | GEC-block/src/curve25519-donna.c:559-581 | the masked subtraction leaves the value modulo the prime |
| `Contract.PutLimb` | GEC-block/src/curve25519-donna.c:583-608 | a shifted limb is added to the number in the bytes, even where the shift reaches the sign bit |
| `Contract.FContract` | GEC-block/src/curve25519-donna.c:464-609 | for limbs below 2^26 the bytes are the little-endian encoding of the value reduced modulo the prime |
| `X25519.FExpand` | GEC-block/src/curve25519-donna.c:420-440 | the limbs stand for the 32-byte number with its top bit dropped |
| `X25519.Clamp` | GEC-block/src/curve25519-donna.c:846-849 | low three bits and top bit cleared, bit 254 set, other bits kept |
| `X25519.Curve25519Donna` | GEC-block/src/curve25519-donna.c:840-857 | the whole function is the RFC ladder on the clamped scalar, times the inverse of Z, encoded canonically |
| `X25519.ClampedScalar` | GEC-block/src/curve25519-donna.c:846-849 | a clamped scalar is a multiple of eight in [2^254, 2^255) |
| `X25519.ClampedMultiple` | GEC-block/src/curve25519-donna.c:840-857 | in any group with the curve's doubling and differential addition the ladder of the code ends with the multiple of the point by the clamped secret |
| `X25519.ClampedPoint` | GEC-block/src/curve25519-donna.c:840-857 | so on every clamped secret the code reaches the point of section 5 of RFC 7748, up to those powers |
| `X25519.SharedIsRfc` | GEC-block/src/curve25519-donna.c:840-857 | given Fermat's theorem the bytes of the code are those of RFC 7748 for every secret and u-coordinate |
| `Field51.ColumnsValue` | GEC-block/include/curve25519-donna-64bit.h:127-156 | the folded columns add up to the product modulo the prime |
| `Field51.Mul` | GEC-block/include/curve25519-donna-64bit.h:106-171 | limbs below 2^54 multiply without 64 or 128 bit overflow to the product modulo the prime, below 2^54 again, also in place |
| `Field51.SquareColumns` | GEC-block/include/curve25519-donna-64bit.h:195-206 | the doubled terms are the columns of the product with itself |
| `Field51.CarryParallel` | GEC-block/include/curve25519-donna-64bit.h:215-226 | the parallel carries and the pass after them keep the number modulo the prime |
| `Recip51.Square` | GEC-block/include/curve25519-donna-64bit.h:236-284 | a single squaring modulo the prime |
| `Recip51.SquareTimes` | GEC-block/include/curve25519-donna-64bit.h:179-234 | squaring `count` times raises to the power 2^count |
| `Recip51.PowTwo250` | GEC-block/include/curve25519-donna-helpers.h:12-31 | from exponent 2^5 - 1 to 2^250 - 1 in place |
| `Recip51.Reciprocal` | GEC-block/include/curve25519-donna-helpers.h:36-49 | the power `p - 2` |
| `Recip51.PowTwo252m3` | GEC-block/include/curve25519-donna-helpers.h:54-67 | the power 2^252 - 3 |
| `Contract51.Expand` | GEC-block/include/curve25519-donna-64bit.h:287-319 | five limbs of the 32-byte number without its top bit |
| `Contract51.AddNineteen5` | GEC-block/include/curve25519-donna-64bit.h:351-354 | adding nineteen and carrying takes the prime off a value that reaches it |
| `Contract51.Contract` | GEC-block/include/curve25519-donna-64bit.h:324-373 | the canonical 32-byte encoding for limbs below 2^63 |
| `Contract51.EncodingsAgree` | GEC-block/src/curve25519-donna.c:464-609 | the encodings of two numbers are the same bytes exactly when the numbers are congruent, so both contractions agree |
| `GF128.MulCommutes` | GEC-block/src/gf128mul.c:54-88 | the product of section 6.3 of NIST SP 800-38D commutes |
| `GF128.MulAssociates` | GEC-block/src/gcm.c:396-412 | and associates, which the power of the hash key needs |
| `GfPoly.XnEight` | GEC-block/include/gf_mul_lo.h:539-577 | eight products with x are a byte shift plus the product of the eight lost coefficients with x^128 |
| `GfWords.TabIs` | GEC-block/include/gf_mul_lo.h:155-171 | every table entry is the product of its overflow byte with x^128 |
| `GfWords.Mulx1` | GEC-block/include/gf_mul_lo.h:535-555 | the masked word shifts multiply by x |
| `GfWords.Mulx8` | GEC-block/include/gf_mul_lo.h:568-577 | the in-place word shifts multiply by x^8 |
| `GfMul.MulTMD` | GEC-block/src/gf128mul.c:54-88 | the slow multiplier is the field product, also when both buffers are the same |
| `GfMul.Init4kTable` | GEC-block/src/gf128mul.c:332-352 | entry i of the table is the product of the byte i with the key |
| `GfMul.Mul4k` | GEC-block/src/gf128mul.c:374-383 | the table multiplier is the same field product |
| `Ghash.HashConcat` | GEC-block/src/gcm.c:390-425 | hashing on after a prefix multiplies the prefix's hash by the key once per block |
| `Ghash.RaiseSquared` | GEC-block/src/gcm.c:402-412 | squaring the factor halves the number of products |
| `Gcm.HashKey.Times` | GEC-block/src/gcm.c:129-158 | multiplication by the hash key through its table |
| `Gcm.Absorb` | GEC-block/src/gcm.c:203-315 | taking in more bytes, in either alignment branch, gives the hash buffer of all bytes so far |
| `Gcm.IncTail` | GEC-block/src/gcm.c:95-96 | the early-exit loop is the big-endian increment with wrap-around |
| `GcmCtx.HashIv` | GEC-block/src/gcm.c:173-189 | the hash of the padded initialisation vector |
| `GcmCtx.StartCounter` | GEC-block/src/gcm.c:168-193 | the pre-counter block for every vector, with its length cut to 32 bits as the code does before reading the bytes and again in bits |
| `GcmCtx.HashedWhen` | GEC-block/src/gcm.c:174-191 | what is hashed is the input of section 7.1 of NIST SP 800-38D if and only if the vector has fewer than 2^32 bits |
| `GcmCtx.StandardStart` | GEC-block/src/gcm.c:168-193 | for those vectors the pre-counter block is that of the standard |
| `GcmCtx.Context.InitMessage` | GEC-block/src/gcm.c:160-201 | starts a message with empty header and text |
| `GcmCtx.Context.AuthHeader` | GEC-block/src/gcm.c:203-258 | appends to the authenticated header, however it is split over calls |
| `GcmCtx.Context.AuthData` | GEC-block/src/gcm.c:260-315 | appends to the authenticated text |
| `GcmCtx.Context.CryptData` | GEC-block/src/gcm.c:317-376 | adds byte p mod 16 of keystream block p / 16 + 1 to byte p, continuing across calls |
| `GcmCtx.PowerLoop` | GEC-block/src/gcm.c:396-411 | square and multiply raises the header hash past the text blocks |
| `GcmCtx.AddLengths` | GEC-block/src/gcm.c:442-450 | adds the text hash and both 64-bit bit lengths |
| `GcmCtx.Context.ComputeTag` | GEC-block/src/gcm.c:378-478 | the tag is the one-shot tag of everything authenticated, with the return codes for missing encryption |
| `GcmSpec.TagHash` | GEC-block/src/gcm.c:390-466 | separately hashed header and text give the hash of the whole input of the standard |
| `GcmLaws.TagOfNothing` | GEC-block/src/gcm.c:378-478 | the tag of nothing is the encrypted pre-counter block |
| `GcmLaws.TagsDiffer` | GEC-block/src/gcm.c:468-476 | tags of one header and text under two pre-counter blocks differ by the two masks |
| `GcmLaws.TagOfText` | GEC-block/src/gcm.c:378-478 | the tag of one block of text in terms of the block, its length block in bytes, the mask, and the hash key that encrypting sixteen zero bytes makes |
| `GcmLaws.TagOfHeader` | GEC-block/src/gcm.c:378-478 | the same for one block of header |
| `GcmLaws.TagOfBoth` | GEC-block/src/gcm.c:378-478 | and for one block of each |
| `GcmLaws.KeystreamIs` | GEC-block/src/gcm.c:317-376 | under a twelve-byte vector byte p of the keystream is byte p mod 16 of the encryption of the vector and the number p / 16 + 2 |
| `GcmLaws.SealedBlock` | GEC-block/src/gcm.c:508-523 | ciphertext and tag of one block under a twelve-byte vector, with both counter blocks in bytes |
| `GcmLaws.FieldBlocks` | GEC-block/src/gf128mul.c:54-88 | the block that starts with 0x80 is neutral, and x times x^127 is the block that starts with 0xe1 |
| `GcmSpec.CryptTwice` | GEC-block/src/gcm.c:317-376 | the keystream undoes itself |
| `GcmCtx.EncryptMessage` | GEC-block/src/gcm.c:508-523 | ciphertext and tag of the one-shot definition from that pre-counter block, for headers below 2^32 bytes and messages below 2^32 - 15 |
| `GcmCtx.DecryptMessage` | GEC-block/src/gcm.c:525-543 | always decrypts, and returns success exactly when the tag is right |
| `GcmCtx.RoundTrip` | GEC-block/src/gcm.c:508-543 | decryption accepts and undoes encryption for every cipher, vector and tag length, headers below 2^32 bytes and messages below 2^32 - 15 bytes, with one context or two |
| `Sha512.FastForms` | GEC-block/include/ed25519-hash.h:70-71 | choice and majority as written are those of FIPS 180-4 |
| `ShaBits.BigSigma0Bits` | GEC-block/include/ed25519-hash.h:72 | bit i is the sum of bits i + 28, i + 34 and i + 39, taken round |
| `ShaBits.BigSigma1Bits` | GEC-block/include/ed25519-hash.h:73 | bit i is the sum of bits i + 14, i + 18 and i + 41, taken round |
| `ShaBits.Sigma0Bits` | GEC-block/include/ed25519-hash.h:74 | bit i is the sum of bits i + 1 and i + 8, taken round, and of bit i + 7 if there is one |
| `ShaBits.Sigma1Bits` | GEC-block/include/ed25519-hash.h:75 | bit i is the sum of bits i + 19 and i + 61, taken round, and of bit i + 6 if there is one |
| `ShaBits.ChoiceBits` | GEC-block/include/ed25519-hash.h:70 | the bits of the second operand where the first has ones, of the third elsewhere |
| `ShaBits.MajorityBits` | GEC-block/include/ed25519-hash.h:71 | the bits in which the first two operands agree, elsewhere those of the third |
| `ShaBits.SecondRound` | GEC-block/include/ed25519-hash.h:78-99 | the registers after two rounds of the block of "abc", the numbers of the illustration of FIPS 180-4 |
| `ShaBits.ScheduleWord` | GEC-block/include/ed25519-hash.h:76-77 | word 18 of the schedule of that block |
| `ShaBits.FeedForward` | GEC-block/include/ed25519-hash.h:101 | the hash value is added after the eighty rounds |
| `Sha512.StepInPlace` | GEC-block/include/ed25519-hash.h:78-88 | moving the registers one after the other is one round |
| `Sha512.CompressInPlace` | GEC-block/include/ed25519-hash.h:90-101 | the loops compute the compression function of section 6.4 of FIPS 180-4 |
| `HashStream.Tick` | GEC-block/include/ed25519-hash.h:102-103 | the two counter words hold the exact bit count modulo 2^128 |
| `HashStream.State.Blocks` | GEC-block/include/ed25519-hash.h:90-106 | whole blocks are compressed and counted |
| `HashStream.State.Update` | GEC-block/include/ed25519-hash.h:123-151 | the context stands for all bytes so far, however they are split |
| `HashStream.LengthWords` | GEC-block/include/ed25519-hash.h:154-167 | counter words and buffered bytes give the length field of the padding |
| `HashStream.State.Final` | GEC-block/include/ed25519-hash.h:153-178 | the digest of the padded message of section 5.1.2 of FIPS 180-4, in both padding cases |
| `ShaLaws.LoadIs` | GEC-block/include/ed25519-hash.h:45-67 | loading reads the word of a big-endian number and storing writes its bytes |
| `ShaLaws.StoreAllIs` | GEC-block/include/ed25519-hash.h:170-177 | bytes 8 i to 8 i + 8 of the digest are word i, stored |
| `ShaLaws.KnownPads` | GEC-block/include/ed25519-hash.h:153-168 | the padding of the empty message and of "abc" in bytes |
| `ShaLaws.PadInjective` | GEC-block/include/ed25519-hash.h:153-168 | different messages below 2^128 bits are padded differently |
| `HashStream.Hash` | GEC-block/include/ed25519-hash.h:180-186 | the one-call form is the same digest |
| `HashStream.HashChunks` | GEC-block/include/ed25519-hash.h:108-178 | any sequence of updates hashes the concatenation |
| `AesKey.EncryptKey128` | GEC-block/src/aeskey.c:64-96 | the schedule of section 5.2 of FIPS 197 for any word substitution |
| `AesKey.ScheduleWords` | GEC-block/src/aeskey.c:64-96 | every word of the filled array obeys the recurrence of section 5.2 of FIPS 197 with round constant number i / 4, from the words of the key on |
| `AesKey.TwistStep` | GEC-block/src/aeskey.c:133-160 | one addition moves all four running sums to the next round key |
| `AesKey.DecryptKey128` | GEC-block/src/aeskey.c:107-218 | the rewritten schedule holds the round keys in reverse, columns kept, rounds one to nine inversely mixed, for any XOR-linear inverse mix |
| `Modes.Feedback.Crypt` | GEC-block/src/aes_modes.c:420-811 | CFB encryption, CFB decryption and OFB keep register and position of the byte-wise mode, for partial blocks, whole blocks and tails |
| `Modes.ProcessConcat` | GEC-block/src/aes_modes.c:420-811 | splitting the data over calls changes nothing |
| `Modes.Undone` | GEC-block/src/aes_modes.c:420-811 | each direction undoes the other and ends in the same register and position |
| `Modes.WholeBlockIs` | GEC-block/src/aes_modes.c:420-811 | after a whole block the register is the ciphertext block in both CFB directions and the encrypted register in OFB |
| `Modes.IndependentSplits` | GEC-block/src/aes_modes.c:420-811 | the two sides may split the data independently |
| `Modes.Counter.Crypt` | GEC-block/src/aes_modes.c:813-904 | counter mode for any increment, with remembered position 16 standing for position 0 of the next counter, and exactly which counter buffer and position a call leaves |
| `Modes.Counter.CryptAll` | GEC-block/src/aes_modes.c:813-904 | any number of calls give the bytes, counter and position of the calls one after the other |
| `Modes.BothSides` | GEC-block/src/aes_modes.c:813-904 | two contexts at the same point undo each other over independent sequences of calls and end at the same counter and position |
| `Modes.CtrIs` | GEC-block/src/aes_modes.c:813-904 | byte i meets byte (pos + i) mod 16 of the encryption of counter number (pos + i) / 16 |
| `Modes.CtrConcat` | GEC-block/src/aes_modes.c:813-904 | concatenated data is processed as its parts one after the other |
| `Modes.CtrCallsAreOne` | GEC-block/src/aes_modes.c:813-904 | a sequence of calls is one call on the concatenation |
| `Modes.CtrIndependentSplits` | GEC-block/src/aes_modes.c:813-904 | for any block function and increment the two sides may split the data independently, from any remembered positions that mean the same |
| `Modes.CtrTwice` | GEC-block/src/aes_modes.c:813-904 | from one counter and position counter mode undoes itself and ends at the same counter and position |
| `Modes.CbcEncrypt` | GEC-block/src/aes_modes.c:224-319 | chaining, refusing partial blocks |
| `Modes.CbcBlocks` | GEC-block/src/aes_modes.c:224-319 | each ciphertext block is the encryption of its data block plus the ciphertext block before it, or the initial vector |
| `Modes.CbcDecrypt` | GEC-block/src/aes_modes.c:321-418 | unchaining, refusing partial blocks |
| `Modes.CbcUndone` | GEC-block/src/aes_modes.c:224-418 | decryption with the inverse block function undoes encryption and ends on the same chain block |
| `Channel.WriteWord32` | GEC-block/src/gec.c:34-40 | the big-endian encoding |
| `Channel.ReadWord32` | GEC-block/src/gec.c:23-32 | what the code reads is 256 times the number, modulo 2^32 |
| `Channel.ReadBack` | GEC-block/src/gec.c:23-40 | reading back a written counter gives the counter if and only if it is zero |
| `Channel.SymKey.Encrypt` | GEC-block/src/gec.c:108-140 | a success uses the next counter and sends counter, ciphertext and truncated tag; a rollover changes nothing |
| `Channel.SymKey.Decrypt` | GEC-block/src/gec.c:142-172 | success exactly when the tag is right; plaintext or zeros; the counter becomes what is read |
| `Channel.Deliver` | GEC-block/src/gec.c:108-172 | a peer with the same raw key, the sender itself included, recovers every message sent, whatever its own counter, and keeps the counter it read |
| `Channel.DeliverAll` | GEC-block/src/gec.c:108-172 | any sequence of messages that the counter allows arrives |
| `Channel.RunIs` | GEC-block/src/gec.c:108-140 | on a fresh key call i sends with counter i + 1 while i is below 2^32 - 16, and every later call is refused |
| `Channel.NoReuse` | GEC-block/src/gec.c:108-140 | successful calls of a run use different vectors and share no counter block |
| `Counters.BlocksRepeat` | GEC-block/src/gcm.c:95-96 | counter blocks number m and n of one message are the same if and only if m and n agree modulo 2^32 |
| `Counters.IncValue` | GEC-block/src/gcm.c:95-96 | the increment adds one to the big-endian number, modulo what the bytes hold |
| `Channel.SuccessesUpTo` | GEC-block/src/gec.c:108-140 | exactly min(k, 2^32 - 16) of the first k calls succeed |
| `Channel.EncryptAll` | GEC-block/src/gec.c:62-140 | n calls on a fresh key have exactly the events of the run, and each success sends the message under its counter and the salt |
| `ConfChannel.SymKeyConf.CryptConf` | GEC-block/src/gec.c:176-197 | counter mode from the key's counter and remembered position, with the exact counter and position left behind, or rollover with nothing changed |
| `ConfChannel.Exchange` | GEC-block/src/gec.c:176-197 | two keys in the same state undo each other and end in the same state; a refusal changes neither |
| `ConfChannel.ExchangeAll` | GEC-block/src/gec.c:176-197 | for every sequence of messages each one sent is recovered, the codes follow the counters, and the keys stay in step; from a fresh key all are recovered |
| `ConfChannel.NeverRefused` | GEC-block/src/gec.c:176-192 | on a key that started at zero the rollover guard never refuses a message |
| `ConfChannel.RefusedFrom` | GEC-block/src/gec.c:178-184 | whole blocks are refused at the last sixteen counters, and whole blocks and r more bytes at the last r |
| `ConfChannel.WordOf` | GEC-block/src/gec.c:43-48 | the increment acts on the counter word as `256 w + 1` modulo 2^32 and leaves the rest of the buffer |
| `ConfChannel.FixedFromFour` | GEC-block/src/gec.c:23-48 | from the fourth increment on the counter is 0x01010101 from every start |
| `ConfChannel.BlocksCoincide` | GEC-block/src/gec.c:23-48 | two counter blocks of a stream, the earlier one number j, are the same if and only if j is at least four or the last 4 - j bytes of the first counter are all one |
| `ConfChannel.AfterMessage` | GEC-block/src/gec.c:176-197 | a 64-byte message from the start of a block leaves counter 0x01010100 and position 0, whatever the counter was |
| `ConfChannel.SharedKeystream` | GEC-block/src/gec.c:176-197 | two 64-byte messages of a run start from the same counter if and only if neither is the first or the first counter was 0x01010100, and then meet the same keystream throughout |
| `ConfChannel.SharedBlocks` | GEC-block/src/gec.c:176-197 | counter block a of a 64-byte message is counter block b of a later one if and only if a = b, or, for the first message, the last 4 - a bytes of its counter are all one but for a zero at byte b - a |
| `ConfChannel.MeetsFromZeroByte` | GEC-block/src/gec.c:176-197 | for a first counter whose last byte is zero that is: a = b and the counter agrees with 0x01010100 modulo 256^(4 - a) |
| `ConfChannel.MeetsFromZero` | GEC-block/src/gec.c:176-197 | on a fresh key the first message shares exactly its last keystream block with every later one |
| `ConfChannel.WordsAgree` | GEC-block/src/gec.c:43-48 | after a increments counters are the same if and only if they agreed on their last 4 - a bytes |
| `Sts.KdfLoop` | GEC-block/src/gec-ke.c:46-73 | the derived bytes are a prefix of the hashed counter blocks, for every size the 16-bit counter allows, zero included |
| `Sts.StsCtx.ResetCtx` | GEC-block/src/gec-ke.c:34-44 | wipes ephemeral keys and key material, but only the first 24 bytes of each confirmation key |
| `StsWire.ResetIs` | GEC-block/src/gec-ke.c:34-44 | which bytes are zero after a reset and which are kept |
| `Sts.StsCtx.DeriveKeyMaterials` | GEC-block/src/gec-ke.c:75-87 | confirmation keys of both parties and the client key material from one secret |
| `StsWire.InputsDiffer` | GEC-block/src/gec-ke.c:46-73 | hash inputs of different parties or different block numbers differ, whatever the secrets |
| `StsWire.FirstInputs` | GEC-block/include/gec-ke.h:50-52 | the first input of each stream is two zero bytes, the secret, and 0, 1 or 2 for initiator, responder and client |
| `StsWire.DerivedFrom` | GEC-block/src/gec-ke.c:75-87 | each side keys its own direction from its own party's stream, the other from the peer's, and the client material comes from the third |
| `StsWire.SecondMessage` | GEC-block/src/gec-ke.c:159-196 | the responder's message in terms of hash, cipher key, keystream and signature, its own ephemeral key first |
| `StsWire.ThirdMessage` | GEC-block/src/gec-ke.c:203-241 | what the initiator accepts, and its answer and key material |
| `StsWire.LastMessage` | GEC-block/src/gec-ke.c:246-262 | what the responder accepts last, and its key material |
| `Sts.StsCtx.InitiateSts` | GEC-block/src/gec-ke.c:139-153 | the first step on the context in memory is `Initiate` on its value |
| `Sts.StsCtx.RespondSts` | GEC-block/src/gec-ke.c:159-196 | the responder's step is `Respond` |
| `Sts.StsCtx.VerifySig` | GEC-block/src/gec-ke.c:89-101 | the check advances the partner's confirmation key and nothing else |
| `Sts.StsCtx.ResponseAckSts` | GEC-block/src/gec-ke.c:203-241 | the initiator's second step is `ResponseAck` |
| `Sts.StsCtx.FinishSts` | GEC-block/src/gec-ke.c:246-262 | the responder's second step is `Finish` |
| `StsSystem.StepKeepsCtx` | GEC-block/src/gec-ke.c:112-262 | every step keeps ephemeral keys and derived material consistent, and what is handed out is what was derived |
| `StsSystem.SameKeys` | GEC-block/src/gec-ke.c:75-101 | a context and the signer of a signature that covers it derived the same material |
| `StsSystem.Agreement` | GEC-block/src/gec-ke.c:139-262 | in every run, for every schedule and all delivered messages, a party that accepts holds the key material that the holder of the partner's key pair had derived when it signed |
| `StsSystem.Undisturbed` | GEC-block/src/gec-ke.c:139-262 | messages delivered as sent: all four steps succeed with equal key material and both contexts are ready again |
| `StsSystem.ConfCryptIs` | GEC-block/src/gec-ke.c:89-101 | what a step does with a confirmation key is what the confidential channel does with a key at position 0 |
| `StsSystem.RejectedFinish` | GEC-block/src/gec-ke.c:246-262 | a rejected last message leaves the responder waiting with the counter of the partner's confirmation key at 0x01010100; a retry is decrypted at a different counter if and only if the rejected attempt was not refused for rollover and not already at that one |
| `StsSystem.RetryAccepts` | GEC-block/src/gec-ke.c:89-101 | after any number of rejections the next attempt is accepted exactly when it verifies under the keystream of the first counter, if there were none, or of 0x01010100 |
| `StsSystem.CountersBefore` | GEC-block/src/gec-ke.c:139-262 | in every run a responder that waits for the last message has its partner's counter at 0 or 0x01010100, so no message to it is refused for rollover |
| `StsSystem.AckAfterRejections` | GEC-block/src/gec-ke.c:203-241 | after any number of rejected second messages the initiator answers the next one exactly as it would have at first |
| `Session.GenuinePair` | GEC-block/src/gec.c:199-225 | signatures of the exchange made with an Ed25519 key pair verify under its public half |
| `Session.KeyMaterialTo2Channels` | GEC-block/src/gec.c:72-79 | the two halves of the key material key two fresh channels |
| `Session.Exchange` | GEC-block/src/gec-ke.c:139-262 | the four calls on two contexts in memory hand both sides the same 48 bytes |
| `Session.Converse` | GEC-block/src/gec.c:62-225 | from known Ed25519 key pairs through the exchange and both channels every message in either direction arrives |

## Left out

- Table contents: base point multiples, sliding multiples and the SHA-512 round constants are parameters with the
  contract the code relies on; their numbers are not checked. The AES substitution and inverse mix are arbitrary
  functions, the mix XOR-linear.
- Edwards point formulas, point packing and the curve itself: points are an arbitrary commutative group, packing an
  arbitrary injection.
- Primality of 2^255 - 19 and of the group order: inversion is stated as the power `p - 2`.
- `X25519.ClampedMultiple`: that the points of the curve form a group is a hypothesis, as are the doubling and the
  differential addition in it; `Montgomery.TangentLaw` and `Montgomery.ChordLaw` derive the formulas from the curve
  equation where no denominator is zero.
- `X25519.SharedIsRfc`: Fermat's theorem for 2^255 - 19 is a hypothesis, as it is of `Quotient.SameRatio`; that 256 and
  255 steps reach the same points is proved without it.
- `Ed25519.OtherForms`: that the base point has order exactly M and that packing is injective are hypotheses.
- `Ed25519.SignOpen`: the base point is taken to have the group order as a parameter, as the code's tables assume.
- `Session.Converse`: key agreement commutes by hypothesis, which is not proved of X25519.
- `StsSystem.Agreement`: signatures are ideal (what verifies under an honest key was signed under it) and key agreement
  commutes; both are hypotheses, not proved of Ed25519 and X25519. A signature counts as made under the public half of
  the key pair that made it, whatever public key the context was given beside it.
- `Sts.KdfLoop`: sizes whose number of blocks does not fit the 16-bit counter, for which the source's loop does not end.
- `GcmCtx.Context.ComputeTag`: totals of 2^32 - 15 bytes or more, where the 32-bit counts of the source overflow.
- `GcmCtx.RoundTrip`: headers of 2^32 bytes or more and messages of 2^32 - 15 bytes or more, for the same reason; the
  same bounds stand on `GcmCtx.EncryptMessage` and `GcmCtx.DecryptMessage`.
- AES rounds: every mode takes an arbitrary block function; CBC needs an inverse.
- The order of received counters: the check in `gec_decrypt` is commented out in the source.
- The 32-bit limb variants, SSE2 and assembler paths, other field representations and table sizes of the GF(2^128)
  code, VIA ACE branches and the batch helpers: not built for this target.
- Pointer casts between byte and word views: the model converts between the two views explicitly.
- Memory wiping after use, constant-time behaviour, `clear_ctx`, `gec_clear` and `generate`: only easy members.
- Field additions, subtractions and negations on five limbs: they only feed the point formulas.
