# OpenRS: proofs about its algorithms

A model, in Dafny 4.11, of the algorithms OpenRS reads its game cache with and of the ones in the
Crypto++ library it carries, with proofs of what they promise. `dafny verify dfyconfig.toml` checks
everything.

| file | what it models |
|---|---|
| `Bits`, `MachineWords`, `Options`, `OctetStrings`, `ByteStrings` | shifts and bits of numbers, machine words as numbers, strings in pieces, exclusive or, chaining over blocks |
| `Groups`, `SimultaneousMultiply`, `CascadeMultiply`, `GeneralCascade` | multiples in a group: signed sliding windows with buckets, two bases over one table, any number of bases over a heap |
| `QuotientRing`, `NumberTheory`, `BlumBlumShub` | Euclid plain and extended, Fermat's theorem, and the Blum Blum Shub generator with its jump |
| `BaseN`, `BaseNDecode`, `BaseNPipeline` | the base-N encoder, decoder and grouper as filters that append to an output |
| `Authenc`, `CcmHistory`, `CcmAnnouncement`, `Cmac`, `Blake2`, `Adler32` | ChaCha20-Poly1305 and CCM, CMAC, BLAKE2 and Adler-32 as objects fed in pieces |
| `ThreeWay`, `ThreeWayRounds`, `Cham`, `ChamVectors`, `Cast`, `CastNumbers` | ciphers whose decryption is a program of its own |
| `AdvancedBlocks`, `BlockCalls` | the batched SSE loops over many blocks, on one shared memory |
| `AsnLength`, `AsnOid`, `AsnUnsigned`, `DerReencode`, `AsnVectors` | BER and DER lengths, object identifiers, INTEGERs, and re-encoding |
| `ArchiveReader`, `StoreWriter`, `ReferenceTable`, `ReferenceVector` | the linked-block archive reader and the reference table parser of the cache |

Objects the source updates in place are classes or arrays here, and its loops are loops; what a loop
computes is a function, and the laws are lemmas about that function. Exceptions and error returns are
status values or a missing result, and each contract says exactly when they occur. Block ciphers,
compression functions, stream ciphers, one-time authenticators and S-boxes are arbitrary functions, so
the results hold for all of them. Machine words wrap where the source relies on it: the BLAKE2 counter,
the 64-bit totals, the 32-bit block offsets and ids, the 16-bit chunk counter, the overflow guards of
the ASN.1 readers, and all words of the ciphers.

What a specification function means is said once more without it: memory slices for the batched loops
(`BlockCalls`), single bytes and key stream positions for sealing, bits of powers for Blum Blum Shub, a
writer that knows nothing of the reader for the store, sums modulo 2^32 for CAST, fields at their offsets
for BLAKE2, and published octets for CHAM, 3-Way, CCM, the ASN.1 encodings and the reference table.

## Where the source and its promise part

The code is modelled as it is; these results say exactly where it does what it promises.

- `QuotientRing::MultiplicativeInverse` returns 0 for a unit that is not below the modulus
  (`external/cryptopp/algebra.cpp:77`): the first division only swaps the two cells, and the loop then
  takes the modulus for zero and stops. `QuotientRings.QuotientRing.MultiplicativeInverse` has
  the condition, both ways; `QuotientRings.FiveModuloThree` is a case.
- `BlumBlumShub::Seek` reduces its exponent modulo (p-1)(q-1), which is only right when the seed is
  prime to both primes or the reduced exponent is not zero. `BlumBlumShubs.JumpReachesWord` has both
  directions, `BlumBlumShubs.SeekMisses` a case; for Blum primes, those congruent to 3 modulo 4, every
  seed works (`BlumBlumShubs.BlumPrimesAreSafe`).
- CCM lengths may be announced at any time before the message and any number of times
  (`external/cryptopp/ccm.cpp:50-64`). Each announcement starts the authentication anew, so data given
  before is left out of the tag; and its first block takes the nonce from the buffer in which data and
  length octets wait, so these may have replaced it (the assertion against that at line 68 is only there
  in debug builds, and says nothing of the nonce). `CcmHistories.HeaderIsStandard` and
  `CcmHistories.TranscriptIsStandard` say for every order of calls, both ways, when what is authenticated
  is what the standard demands; `CcmHistories.AnnouncedBeforeData` does so for a caller who gives no data
  before the last announcement, and `CcmHistories.FirstIsStandard` has the order the interface intends,
  which always works. `CcmAnnouncements.RunHistory` is any order of calls with the tag that comes out, and
  `CcmAnnouncements.TagDecides` turns the condition into one on tags. Three cases:
  `CcmAnnouncements.CutsMatter` (the tag depends on how early data was cut into calls),
  `CcmAnnouncements.LostDiffers` (early data is not in the tag) and `CcmAnnouncements.TwiceDiffers` (the
  same lengths announced twice).
- `OID::DEREncode` puts two arcs into one octet without a check; an identifier comes back exactly when
  the second arc is below 40 and the octet holds both (`AsnObjectIdentifiers.OidRoundTrip`);
  2.48 does not (`AsnObjectIdentifiers.AnotherIdentifier`).
- 3-Way accepts any number of rounds, but its decryption constant only meets the encryption constants
  after 11 rounds modulo 12 (`ThreeWayCipher.MeetingRounds`); below 12, every other count fails
  (`ThreeWayRounds.OnlyEleven`).
- The batched block loops read a whole batch before they store it, so an output that lies on a later
  input of its batch changes the result (`AdvancedBlocks.SixTwoOneExactly` and
  `AdvancedBlocks.FourOneExactly`, both ways, and `AdvancedBlocks.OverlapDiffers`).
- The archive reader does not look at how much of the last block it could read: a store cut off inside
  the last block is read with zeros in place of what is missing. `ArchiveReaders.ReadIsStored` and
  `ArchiveReaders.ArchiveIsStored` have the condition, both ways, and `ArchiveReaders.CutOffStore` is a
  case.
- The reference table parser reads every digest from the same place and does not pass over it, and keeps
  no slots when the largest id is the largest word; all other tables come back
  (`ReferenceTables.ParseSerialised`, both ways, and `ReferenceTables.DigestMisread`).

## Model

| member | source | states |
|---|---|---|
| SimultaneousMultiplication.WindowSlider.constructor | external/cryptopp/algebra.cpp:208-218 | before any window has been cut, the whole exponent is still to come |
| SimultaneousMultiplication.NextSetBit | external/cryptopp/algebra.cpp:222-233 | the scan stops at a set bit with only zeros before it, or reports that none is left; it never misses a bit of the last word |
| SimultaneousMultiplication.CutWindow | external/cryptopp/algebra.cpp:235-246 | the exponent is exactly one signed odd digit below the window modulus plus a shorter rest; the digit is negative only under fast negation |
| SimultaneousMultiplication.WindowSlider.FindNextWindow | external/cryptopp/algebra.cpp:220-247 | each call takes exactly its own digit off what remains of the exponent, positions strictly increase by at least a window, and the work left decreases |
| SimultaneousMultiplication.OddWindow | external/cryptopp/algebra.cpp:235-247 | for an odd number the low window is odd and below the modulus |
| SimultaneousMultiplication.OddDigit | external/cryptopp/algebra.cpp:237-247 | the digit is odd and below the modulus and the rest smaller than the number, and digit and rest account for it; taking the complement carries exactly one into the rest |
| SimultaneousMultiplication.WindowAccount | external/cryptopp/algebra.cpp:235-247 | the value of an exponent is the window at its position plus the rest above it, however far zeros were skipped |
| SimultaneousMultiplication.BucketInRange | external/cryptopp/algebra.cpp:268-282 | the bucket index window/2 of any window is inside the bucket table |
| SimultaneousMultiplication.OddWeightedUpdate | external/cryptopp/algebra.cpp:282-286 | changing one bucket by d changes the weighted sum by (2k+1)d |
| SimultaneousMultiplication.AddToBucket | external/cryptopp/algebra.cpp:282-286 | one bucket update moves the signed window into the weighted sum of the buckets, in any group |
| SimultaneousMultiplication.AbsorbWindow | external/cryptopp/algebra.cpp:280-288 | absorbing the window that is due keeps buckets plus remaining exponent equal to the whole exponent, and the slider moves on |
| SimultaneousMultiplication.LadderCountsOdd | external/cryptopp/algebra.cpp:299-313 | the collapse ladder counts bucket k exactly 2k+1 times |
| SimultaneousMultiplication.CollapseBuckets | external/cryptopp/algebra.cpp:301-312 | collapsing the buckets gives the sum of (2k+1) times bucket k, also when there is only one bucket |
| SimultaneousMultiplication.VisitSlider | external/cryptopp/algebra.cpp:278-290 | one pass of the inner loop keeps the account of every slider and misses no window at the current position |
| SimultaneousMultiplication.VisitPosition | external/cryptopp/algebra.cpp:277-290 | after the inner loop no unfinished slider has a window at or below the position; notDone says exactly whether one is unfinished |
| SimultaneousMultiplication.OpenSliders | external/cryptopp/algebra.cpp:258-269 | the first windows and empty buckets account for every exponent |
| SimultaneousMultiplication.WindowAhead | external/cryptopp/algebra.cpp:275-297 | while a slider is unfinished its window lies ahead, so the doubling loop ends |
| SimultaneousMultiplication.SweepWindows | external/cryptopp/algebra.cpp:271-297 | the shared doubling loop ends with every exponent wholly in its buckets |
| SimultaneousMultiplication.SimultaneousMultiply | external/cryptopp/algebra.cpp:255-314 | results[i] is exps[i] times the base, for every list of exponents in every group, commutative or not, with fast negation on or off |
| SimultaneousMultiplication.ScalarMultiply | external/cryptopp/algebra.cpp:90-95 | one exponent: the result is that multiple of the base |
| Groups.TimesSum | external/cryptopp/algebra.h:32-114 | multiples of one element add up in any group, negative ones too; the law the fast algorithms rest on |
| Groups.TotalPermuted | external/cryptopp/algebra.cpp:184-200 | in a commutative group a sum does not depend on the order of its terms, so heap operations do not change it |
| CascadeMultiplication.PairSum | external/cryptopp/algebra.cpp:97-170 | sums of two-base combinations add coefficient by coefficient in a commutative group |
| CascadeMultiplication.TimesDistributes | external/cryptopp/algebra.cpp:109-110 | n times a sum of two elements is the sum of the multiples |
| CascadeMultiplication.TimesTimes | external/cryptopp/algebra.cpp:196-196 | a multiple of a multiple is the multiple by the product |
| CascadeMultiplication.FillFirstRow | external/cryptopp/algebra.cpp:118-119 | all odd entries of the first row become multiples of x |
| CascadeMultiplication.FillColumn | external/cryptopp/algebra.cpp:121-122 | one column is filled down from its first entry, every entry read having been filled |
| CascadeMultiplication.FillOddColumns | external/cryptopp/algebra.cpp:120-122 | all odd columns are filled |
| CascadeMultiplication.FillFirstColumn | external/cryptopp/algebra.cpp:124-125 | the odd entries of the first column become multiples of y |
| CascadeMultiplication.FillRow | external/cryptopp/algebra.cpp:127-128 | the even entries of an odd row are filled from their left neighbours |
| CascadeMultiplication.FillOddRows | external/cryptopp/algebra.cpp:126-128 | all odd rows are complete |
| CascadeMultiplication.BuildTable | external/cryptopp/algebra.cpp:104-129 | every entry with an odd coordinate, the only ones ever looked up, holds its combination of x and y; entry 0 is not among them |
| CascadeMultiplication.StripTwos | external/cryptopp/algebra.cpp:142-151 | the common factors of two leave at least one odd digit and move exactly as many doublings behind the addition; the number of doublings before it does not underflow |
| CascadeMultiplication.DoubleRepeatedly | external/cryptopp/algebra.cpp:159-165 | the doubling loops scale both coefficients by a power of two |
| CascadeMultiplication.DigitsValue | external/cryptopp/algebra.cpp:137-138 | the bits gathered since the last window, below the shifted exponent so far, are the exponent shifted to the present position |
| CascadeMultiplication.AddDigits | external/cryptopp/algebra.cpp:142-165 | one window adds its two digits to the doubled result, whether it is the first window or not |
| CascadeMultiplication.FlushDigits | external/cryptopp/algebra.cpp:140-167 | after each window the result is (e1>>i)x + (e2>>i)y |
| CascadeMultiplication.ScanDigits | external/cryptopp/algebra.cpp:131-169 | the whole scan gives e1 x + e2 y |
| CascadeMultiplication.CascadeScalarMultiply | external/cryptopp/algebra.cpp:97-170 | e1 x + e2 y for all non-negative exponents in every commutative group, for each of the three table widths and for two zero exponents |
| GeneralCascade.RootIsLargest | external/cryptopp/algebra.cpp:184-200 | the heap order puts a largest exponent at the root |
| GeneralCascade.MakeHeap | external/cryptopp/algebra.cpp:184-184 | the pairs are rearranged into a heap, none lost or added |
| GeneralCascade.PushHeap | external/cryptopp/algebra.cpp:198-198 | a heap but for its last element becomes a heap again, none lost or added |
| GeneralCascade.PopHeap | external/cryptopp/algebra.cpp:185-199 | the largest exponent goes to the last place and the rest stay a heap, so the next largest is first |
| GeneralCascade.DivisionConserves | external/cryptopp/algebra.cpp:189-196 | dividing the largest exponent by the next and adding the quotient times the base to its base keeps the combination |
| GeneralCascade.DivideLargest | external/cryptopp/algebra.cpp:189-196 | one division keeps the sum of exponent times base and strictly lowers the sum of exponents |
| GeneralCascade.DivideAndRestore | external/cryptopp/algebra.cpp:187-200 | one turn of the loop keeps the combination, restores the heap, and lowers the sum of exponents |
| GeneralCascade.OnlyLastLeft | external/cryptopp/algebra.cpp:187-202 | when all exponents are zero the combination is the identity |
| GeneralCascade.DivideOut | external/cryptopp/algebra.cpp:179-203 | the loop ends and its last multiplication gives the combination the call started with |
| GeneralCascade.GeneralCascadeMultiplication | external/cryptopp/algebra.cpp:172-204 | the sum of exponent times base over one, two or more pairs, in every commutative group |
| QuotientRings.Gcd | external/cryptopp/algebra.cpp:56-68 | a greatest common divisor, and a combination of both arguments, although the three cells rotate |
| QuotientRings.GcdMeaning | external/cryptopp/algebra.cpp:56-68 | what that means: it divides both, and every common divisor divides it |
| QuotientRings.InvertibleByGcd | external/cryptopp/algebra.h:425-426 | a residue has an inverse exactly when its gcd with the modulus is a unit |
| QuotientRings.QuotientRing.IsUnit | external/cryptopp/algebra.h:425-426 | true exactly for the invertible residues |
| QuotientRings.QuotientRing.DivisionStep | external/cryptopp/algebra.cpp:77-85 | one division keeps g = v a (mod m) for both live cells |
| QuotientRings.QuotientRing.SmallEqualsZero | external/cryptopp/algebra.h:401-402 | below the modulus, equality modulo m is equality, so the loop stops where the plain Euclidean one does |
| QuotientRings.QuotientRing.SwapStep | external/cryptopp/algebra.cpp:72-85 | what happens in the first turn when a is not below the modulus |
| QuotientRings.QuotientRing.LoopEnd | external/cryptopp/algebra.cpp:77-87 | the value at the end of the loop is a right answer exactly when -m < a < m, or m = 1, or a is no unit |
| QuotientRings.QuotientRing.DivisionAlgorithm | external/cryptopp/algebra.cpp:78-83 | one turn keeps the loop state and makes the divisor smaller |
| QuotientRings.QuotientRing.MultiplicativeInverse | external/cryptopp/algebra.cpp:70-88 | the result is an inverse of a unit, and 0 for a non-unit, exactly when -m < a < m, or m = 1, or a is no unit; everything that is not below the modulus gets 0 |
| QuotientRings.FiveModuloThree | external/cryptopp/algebra.cpp:77-87 | a unit that the answer 0 is wrong for: 5 modulo 3 |
| NumberTheory.Bezout | external/cryptopp/algebra.cpp:56-68 | every two integers have a gcd that combines them |
| NumberTheory.PrimeDividesFactor | external/cryptopp/blumshub.cpp:55-62 | a prime that divides a product divides a factor |
| NumberTheory.MultiplesPermute | external/cryptopp/blumshub.cpp:55-62 | the multiples of a number prime to p permute the residues |
| NumberTheory.Fermat | external/cryptopp/blumshub.cpp:59-60 | the theorem behind the reduced exponent |
| BlumBlumShubs.ReduceExponent | external/cryptopp/blumshub.cpp:59-60 | reducing an exponent modulo (p-1)(q-1) keeps the power modulo pq exactly when x is prime to both or the reduced exponent is not zero |
| BlumBlumShubs.JumpReachesWord | external/cryptopp/blumshub.cpp:57-60 | the jump reaches word k of the sequence if and only if x0 is prime to p and q, or the reduced exponent is not zero |
| BlumBlumShubs.BlumPrimesAreSafe | external/cryptopp/blumshub.cpp:48-53 | for primes congruent to 3 modulo 4 the jump is right for every seed |
| BlumBlumShubs.WordSquared | external/cryptopp/blumshub.cpp:21-22 | the square of word k is word k+1 |
| BlumBlumShubs.StreamBytesSplit | external/cryptopp/blumshub.cpp:36-40 | the bytes from a position are those that follow in the one sequence |
| BlumBlumShubs.SeekMisses | external/cryptopp/blumshub.cpp:55-62 | primes, a seed and an index whose jump misses: 3, 5, 3 and byte 1 |
| BlumBlumShubs.SeedKeepsPrimes | external/cryptopp/blumshub.cpp:48-53 | squaring the seed keeps which of the two primes divide it |
| BlumBlumShubs.BlumBlumShub.constructor | external/cryptopp/blumshub.cpp:9-53 | a new generator stands at bit 0, and has as many bits to give from each state as the logarithm, rounded down, of the bit length of the modulus |
| BlumBlumShubs.BitsOfStateAre | external/cryptopp/blumshub.cpp:12-12 | the two bit counts give that logarithm, bit length and logarithm both by powers of two |
| BlumBlumShubs.OneBitsOfState | external/cryptopp/blumshub.cpp:12-12 | and no other number is it |
| BlumBlumShubs.Generate | external/cryptopp/blumshub.cpp:9-47 | a whole run from the two factors, seed and size alone: bit j of the output is bit m-1-j%m of the seed squared j/m+2 times modulo their product |
| BlumBlumShubs.SeekAndGenerate | external/cryptopp/blumshub.cpp:9-62 | the same with a jump, for different primes that are 3 modulo 4 |
| BlumBlumShubs.BlumBlumShub.GenerateBit | external/cryptopp/blumshub.cpp:17-26 | the bit at the current position of the sequential generator, which moves on by one, although squaring is put off |
| BlumBlumShubs.BlumBlumShub.GenerateByte | external/cryptopp/blumshub.cpp:28-34 | the next eight bits, first bit highest |
| BlumBlumShubs.BlumBlumShub.GenerateBlock | external/cryptopp/blumshub.cpp:36-40 | the next bytes |
| BlumBlumShubs.BlumBlumShub.Seek | external/cryptopp/blumshub.cpp:55-62 | for different primes, the state is that of word 8 index / maxBits if and only if the exponent reduction is safe, and then the position is bit 8 index; for any other numbers the state is still the power with the reduced exponent |
| BlumBlumShubs.BlumBlumShub.SeekThenGenerate | external/cryptopp/blumshub.cpp:36-62 | whenever the exponent reduction is safe for the index, what is generated after Seek(index) are the bytes that follow the first index ones in the sequential output |
| BaseN.RecutRoundTrip | external/cryptopp/basecode.cpp:48-176 | cutting the bit string of a message into digits of any width and back gives the message |
| BaseN.RecutBit | external/cryptopp/basecode.cpp:56-79 | bit k of the digit string is bit k of the byte string |
| BaseN.BlockSize | external/cryptopp/basecode.cpp:40-43 | the block is the least number of digits that is a whole number of bytes (and the other way round) |
| BaseN.EncoderBlockIsLeast | external/cryptopp/basecode.cpp:40-43 | the least block of the encoder is 8 digits for odd widths, 4 for the widths 2 and 6, 2 for the width 4 |
| BaseN.DecoderBlockIsLeast | external/cryptopp/basecode.cpp:125-127 | the least block of the decoder |
| BaseN.Base64Group | external/cryptopp/basecode.cpp:70-113 | a group of section 4 of RFC 4648: three bytes are four digits, in numbers |
| BaseN.PaddedLengths | external/cryptopp/basecode.cpp:97-108 | the padded lengths of sections 4 and 6 of RFC 4648: four characters for each begun group of three bytes, eight for each begun group of five |
| BaseN.DepositBits | external/cryptopp/basecode.cpp:61-76 | the bits of a byte land at the right places of a digit, wherever the digit stands |
| BaseN.ConsumeBits | external/cryptopp/basecode.cpp:67-71 | what is left of the byte is its remaining bits, moved to the top |
| BaseN.Encoder.IsolatedInitialize | external/cryptopp/basecode.cpp:22-46 | there is an encoder exactly for widths 1 to 7; it starts with an empty message and the least block |
| BaseN.Encoder.Deposit | external/cryptopp/basecode.cpp:61-62 | the current digit gains the next bits of the byte and no other digit changes |
| BaseN.Encoder.SpreadBits | external/cryptopp/basecode.cpp:58-78 | one turn of the bit loop moves as many bits as fit and keeps the buffer index within the block |
| BaseN.Encoder.PutByte | external/cryptopp/basecode.cpp:53-93 | one byte joins the message; full blocks go out as characters |
| BaseN.Encoder.Flush | external/cryptopp/basecode.cpp:82-93 | a full block goes out and starts the next with no bits pending |
| BaseN.Encoder.FinishBlock | external/cryptopp/basecode.cpp:97-108 | the last block is closed, translated and padded to the least block as the encoding of the whole message demands |
| BaseN.Encoder.EndMessage | external/cryptopp/basecode.cpp:95-111 | what has come out is the encoding of the message, padded to the least block |
| BaseN.Encoder.Put2 | external/cryptopp/basecode.cpp:48-113 | however a message is cut into calls, the output at its end is the big-endian bit string cut into digits, translated, and padded to a multiple of the least block |
| BaseNDecoding.Decoder.IsolatedInitialize | external/cryptopp/basecode.cpp:115-131 | there is a decoder exactly for widths 1 to 7, and it starts with an empty message |
| BaseNDecoding.ByteGains | external/cryptopp/basecode.cpp:147-154 | a byte gains exactly the bits of the new digit that fall into it |
| BaseNDecoding.Decoder.Deposit | external/cryptopp/basecode.cpp:147-154 | a digit goes into one or two bytes of the buffer, and no other byte changes; the second index stays inside the block |
| BaseNDecoding.Decoder.PutCharacter | external/cryptopp/basecode.cpp:138-168 | a character of the alphabet adds its digit, any other is skipped |
| BaseNDecoding.Decoder.EndMessage | external/cryptopp/basecode.cpp:170-174 | the complete bytes come out |
| BaseNDecoding.Decoder.Put2 | external/cryptopp/basecode.cpp:133-176 | however the characters are cut into calls, the output at the end is the bytes their digits fill |
| BaseNDecoding.InitializeDecodingLookupArray | external/cryptopp/basecode.cpp:178-197 | each entry is the last alphabet position the character stands for, in either case if wanted, or -1 |
| BaseNDecoding.LookupInverts | external/cryptopp/basecode.cpp:178-197 | with an unambiguous alphabet a character maps to i exactly when it stands for alphabet character i |
| BaseNDecoding.TableInverts | external/cryptopp/basecode.cpp:178-197 | the table inverts the alphabet, and nothing outside the alphabet is a digit |
| BaseNDecoding.EncodeDecode | external/cryptopp/basecode.cpp:48-176 | decoding the encoding gives the message: every width, unambiguous alphabet, padding outside it |
| BaseNDecoding.GroupedConcat | external/cryptopp/basecode.cpp:217-233 | grouping a string in two calls is grouping it in one, with the counter carried over |
| BaseNDecoding.NextGroup | external/cryptopp/basecode.cpp:221-231 | a piece that fits the group goes out as it is, after a separator if the group was full |
| BaseNDecoding.Grouper.PutPiece | external/cryptopp/basecode.cpp:221-231 | one turn of the loop puts out the next part of the grouping |
| BaseNDecoding.Grouper.Put2 | external/cryptopp/basecode.cpp:214-243 | however the characters are cut into calls, the output is the grouping of the whole string and the terminator |
| BaseNDecoding.GroupedMessageDigits | external/cryptopp/basecode.cpp:214-243 | grouping with separators that are no digits changes no digit |
| BaseNDecoding.EncodeGroupDecode | external/cryptopp/basecode.cpp:48-243 | encoding, grouping and decoding give the message |
| BaseNPipelines.EncodePieces | external/cryptopp/basecode.cpp:22-113 | a new encoder, given a message in any pieces, puts out the encoding of the whole, padded to a multiple of the least block; a bad width gives none |
| BaseNPipelines.GroupPieces | external/cryptopp/basecode.cpp:199-243 | a new grouper does the same for the grouping |
| BaseNPipelines.DecodePieces | external/cryptopp/basecode.cpp:115-176 | a new decoder does the same for the decoding |
| BaseNPipelines.RoundTrip | external/cryptopp/basecode.cpp:22-243 | from pieces of a message through encoder, grouper and decoder, cut up anew before each, with the table built from the alphabet: the message comes back |
| AuthenticatedEncryption.AuthenticatedCipher.AuthenticateBlocks | external/cryptopp/ccm.cpp:92-97 | whole blocks are chained, and the length left over is returned; the one-time authenticator takes everything |
| AuthenticatedEncryption.AuthenticatedCipher.AuthenticateData | external/cryptopp/authenc.cpp:11-51 | whatever the lengths, what has been fed in grows by exactly the input, less than a block waits, and all sixteen bytes of the buffer are what the lengths of the calls so far left there |
| AuthenticatedEncryption.AuthenticatedCipher.CompleteBlock | external/cryptopp/authenc.cpp:23-31 | a waiting part is completed and processed |
| AuthenticatedEncryption.AuthenticatedCipher.Wait | external/cryptopp/authenc.cpp:32-37 | a short input joins what waits |
| AuthenticatedEncryption.AuthenticatedCipher.AuthenticateLastBlock | external/cryptopp/chachapoly.cpp:71-85 | the end of a part pads what has been fed in with zeros to a multiple of 16, for either mode |
| AuthenticatedEncryption.AuthenticatedCipher.PutLength | external/cryptopp/ccm.cpp:66-89 | the length of the additional data goes over the front of the buffer in the form its size demands, and the rest of the buffer stays |
| AuthenticatedEncryption.FormatFirstBlock | external/cryptopp/ccm.cpp:61-63 | the block put together in place is flags, the bytes of the data buffer where the nonce was put, and length, for every nonce size |
| AuthenticatedEncryption.AuthenticatedCipher.Resynchronize | external/cryptopp/authenc.cpp:67-78 | a new message starts, or the state or nonce is refused; under CCM the buffer is flags, nonce and zeros |
| AuthenticatedEncryption.AuthenticatedCipher.Resync | external/cryptopp/ccm.cpp:28-48 | the nonce goes into the data buffer, and into no other place that an announcement reads |
| AuthenticatedEncryption.AuthenticatedCipher.UncheckedSpecifyDataLengths | external/cryptopp/ccm.cpp:50-90 | the chaining starts anew with a first block that carries what the buffer holds in place of the nonce, at any time and any number of times; the length octets lie over the buffer; a wrong state is refused |
| AuthenticatedEncryption.AuthenticatedCipher.PutOpening | external/cryptopp/ccm.cpp:60-90 | what has been fed in is the first block with the field of the buffer, the length octets, and what still waited when no additional data is announced |
| AuthenticatedEncryption.AuthenticatedCipher.SpecifyDataLengths | external/cryptopp/cryptlib.cpp:233-245 | too long a message is refused, else the lengths are announced to the mode |
| AuthenticatedEncryption.AuthenticatedCipher.AuthenticateLastHeaderBlock | external/cryptopp/ccm.cpp:99-113 | the header ends padded, and CCM refuses a length other than announced |
| AuthenticatedEncryption.AuthenticatedCipher.AuthenticateLastConfidentialBlock | external/cryptopp/ccm.cpp:115-129 | the body ends padded, and CCM refuses a length other than announced |
| AuthenticatedEncryption.AuthenticatedCipher.Update | external/cryptopp/authenc.cpp:80-107 | additional data joins the header, or the footer once there is a body; every error case, and what a refusal leaves |
| AuthenticatedEncryption.AuthenticatedCipher.ProcessPiece | external/cryptopp/authenc.cpp:128-135 | byte i of a piece is combined with the byte of the key stream at its place plus i, from position 64 on, or 16 under CCM, and the authenticated form joins the transcript whether taken before or after |
| AuthenticatedEncryption.AuthenticatedCipher.ProcessData | external/cryptopp/authenc.cpp:109-139 | the first call ends the header; every error case, with the bytes a refused call still counts; each byte of the output is that of the input combined with the key stream at its place |
| AuthenticatedEncryption.AuthenticatedCipher.TruncatedFinal | external/cryptopp/authenc.cpp:141-184 | the tag over what was fed in, for every sequence of calls and with the nonce bytes the announcements really used, cut to size; the tag of the standard for an orderly message; every error case, and what a refusal leaves |
| AuthenticatedEncryption.AuthenticatedCipher.FinishTag | external/cryptopp/authenc.cpp:157-183 | the end of the message from each state, with the tag over what was fed in |
| AuthenticatedEncryption.FinishIsTag | external/cryptopp/chachapoly.cpp:87-95 | ending a complete feed with lengths or key stream gives the tag of the whole transcript |
| AuthenticatedEncryption.CryptTwice | external/cryptopp/authenc.cpp:128-135 | transforming twice with the same key stream gives the input |
| AuthenticatedEncryption.CryptConcat | external/cryptopp/authenc.cpp:109-139 | transforming in pieces is transforming the whole |
| AuthenticatedEncryption.AuthenticatedCipher.EncryptAndAuthenticate | external/cryptopp/cryptlib.cpp:247-254 | ciphertext and tag of section 2.8 of RFC 8439 or sections 2.2 and 2.3 of RFC 3610, each byte written out with its position in the key stream, or exactly the refusals |
| AuthenticatedEncryption.AuthenticatedCipher.DecryptAndVerify | external/cryptopp/cryptlib.cpp:256-263 | the plaintext byte by byte, accepted if and only if the tag is that of the transcript |
| AuthenticatedEncryption.AuthenticatedCipher.UpdateAll | external/cryptopp/authenc.cpp:80-107 | the header depends only on the concatenation of its pieces |
| AuthenticatedEncryption.AuthenticatedCipher.ProcessAll | external/cryptopp/authenc.cpp:109-139 | output and transcript depend only on the concatenation of the message pieces |
| AuthenticatedEncryption.AuthenticatedCipher.SealPieces | external/cryptopp/authenc.cpp:67-184 | sealing a message whose header and body come in any pieces gives the ciphertext and tag of the whole, byte by byte with the positions in the key stream |
| AuthenticatedEncryption.AuthenticatedCipher.OpenPieces | external/cryptopp/authenc.cpp:67-184 | opening in any pieces gives the plaintext, byte by byte, and accepts exactly the tag of the whole |
| AuthenticatedEncryption.SealThenOpen | external/cryptopp/chachapoly.cpp:97-111 | what was sealed opens to the same message, and only the right tag is accepted |
| AuthenticatedEncryption.CryptIs | external/cryptopp/authenc.cpp:128-135 | transforming is combining byte i with byte i of the key stream behind the block that the tag takes: from position 64 on, under CCM from 16 |
| AuthenticatedEncryption.PolyKeyIs | external/cryptopp/chachapoly.cpp:26-34 | the one-time key is the first 32 bytes of the key stream (section 2.6 of RFC 8439) |
| AuthenticatedEncryption.CipherTakesNextBlock | external/cryptopp/chachapoly.cpp:36-38 | messages under ChaCha20 take none of the block that gives the one-time key |
| AuthenticatedEncryption.SealedIsByBytes | external/cryptopp/ccm.cpp:28-48 | message, ciphertext and tag belong together if and only if each byte of the ciphertext and of the tag is that of the key stream written out with its positions |
| AuthenticatedEncryption.CipherTakesLater | external/cryptopp/ccm.cpp:45-45 | ciphertexts take no byte of the counter stream below position 16 |
| AuthenticatedEncryption.MaskTakesFirst | external/cryptopp/ccm.cpp:131-135 | and tags none from position 16 on |
| AuthenticatedEncryption.PolyPadding | external/cryptopp/chachapoly.cpp:71-95 | the padding and lengths of section 2.8.2 of RFC 8439, octet for octet |
| AuthenticatedEncryption.Limits | external/cryptopp/ccm.h:53-54 | the largest message: 64 (2^32 - 1) bytes under ChaCha20-Poly1305, and under CCM what the length field of the nonce size holds |
| CcmHistories.HeaderParts | external/cryptopp/ccm.cpp:50-90 | for every order of announcing and giving, what is authenticated in front of the message is the opening of the last announcement, with the nonce bytes the buffer then held, what it kept, and the data since |
| CcmHistories.LostFront | external/cryptopp/ccm.cpp:50-90 | losing data in front goes unnoticed by the padding exactly when all is zero and ends in the same block |
| CcmHistories.HeaderIsStandard | external/cryptopp/ccm.cpp:50-113 | for every order of announcing and giving, with the right length announced: the padded header is that of section 2.2 of RFC 3610 if and only if lengths were announced, the buffer still held the nonce at the last announcement, nothing waited that it kept, and what it lost was not missed |
| CcmHistories.TranscriptIsStandard | external/cryptopp/ccm.cpp:28-129 | the same for all that is authenticated, message and all |
| CcmHistories.FirstIsStandard | external/cryptopp/ccm.cpp:28-90 | lengths announced first and once, and then data in any pieces: always the header of the standard |
| CcmHistories.HeldByOctets | external/cryptopp/ccm.cpp:66-89 | after announcements alone, each byte of the buffer is that of the last length long enough to reach it, or of the nonce |
| CcmHistories.AnnouncedBeforeData | external/cryptopp/ccm.cpp:50-90 | with no data before the last announcement the header is the standard if and only if every octet of an earlier length equals the nonce octet in its place, and the last announcement covers what earlier ones left waiting |
| CcmHistories.VectorCounter | external/cryptopp/ccm.cpp:36-38 | the first counter block of packet vector 1 of RFC 3610, octet for octet |
| CcmHistories.VectorBlocks | external/cryptopp/ccm.cpp:60-113 | the blocks B_0 to B_3 of that vector, octet for octet |
| CcmHistories.LengthForms | external/cryptopp/ccm.cpp:70-88 | the three forms of a length at their bounds, octet for octet |
| CcmAnnouncements.RunHistory | external/cryptopp/authenc.cpp:67-184 | a nonce, any order of announcing and giving, the message and the end: refused exactly when the lengths announced last are not those given or a message is too long; else the tag over exactly what that order leaves |
| CcmAnnouncements.StandardTag | external/cryptopp/ccm.cpp:28-129 | after each of the histories of the standard, that tag is the tag of the standard |
| CcmAnnouncements.FieldDecides | external/cryptopp/ccm.cpp:61-64 | under an injective cipher two different fields in place of the nonce always give different tags |
| CcmAnnouncements.TagDecides | external/cryptopp/ccm.cpp:28-129 | under an injective cipher, with no data before the last announcement and nothing kept, the tag is that of the standard if and only if the history is one of the standard |
| CcmAnnouncements.ShortData | external/cryptopp/ccm.cpp:61-63 | a first call of less than a block takes the place of the nonce from its second byte on |
| CcmAnnouncements.CutData | external/cryptopp/authenc.cpp:19-50 | a block given in one call leaves the nonce in the buffer; given in two calls, for every way to cut it, it takes its place |
| CcmAnnouncements.CutsMatter | external/cryptopp/ccm.cpp:50-64 | sixteen bytes before the announcement whose tag depends on how they are cut into calls |
| CcmAnnouncements.LostDiffers | external/cryptopp/ccm.cpp:50-64 | sixteen bytes before the announcement, in one call, whose tag is not that of the standard |
| CcmAnnouncements.TwiceDiffers | external/cryptopp/ccm.cpp:61-72 | the same lengths announced twice, and a tag that is not that of the standard |
| Cmac.DoubledAt | external/cryptopp/cmac.cpp:15-73 | every coefficient of the doubled string is that of multiplication by x modulo the field polynomial |
| Cmac.Doubled | external/cryptopp/cmac.cpp:15-73 | doubling is multiplication by x in the field, for block lengths 8, 16, 32, 64 and 128 |
| Cmac.ReductionBits | external/cryptopp/cmac.cpp:39-67 | the reduction constants are exactly the field polynomials |
| Cmac.ShiftUp | external/cryptopp/cmac.cpp:17-24 | the two-byte carry loop shifts the whole string and returns the bit shifted out |
| Cmac.AddReduction | external/cryptopp/cmac.cpp:39-70 | the constant for the length is added |
| Cmac.MulU | external/cryptopp/cmac.cpp:15-73 | in place, the array becomes its double in the field |
| Cmac.MakeSubkeys | external/cryptopp/cmac.cpp:88-91 | both subkeys, K1 and K2 |
| Cmac.CmacBase.constructor | external/cryptopp/cmac.cpp:79-92 | keyed, with an empty message |
| Cmac.CmacBase.ProcessBlocks | external/cryptopp/cmac.cpp:124-124 | the whole blocks are chained into the register |
| Cmac.CmacBase.FillBlock | external/cryptopp/cmac.cpp:103-119 | the pending block is enciphered only once more data is there |
| Cmac.CmacBase.WholeBlocks | external/cryptopp/cmac.cpp:121-127 | one to blockSize bytes are always held back |
| Cmac.CmacBase.Update | external/cryptopp/cmac.cpp:94-137 | the register and counter stand for the concatenated message: all but the last block chained, the counter 1 to blockSize once there is data |
| Cmac.ShortMac | external/cryptopp/cmac.cpp:139-158 | for a message of at most a block, the one encipherment written out, with padding and subkeys |
| Cmac.HeldMac | external/cryptopp/cmac.cpp:146-152 | finishing the held state is the mac of the whole message |
| Cmac.HoldsFull | external/cryptopp/cmac.cpp:114-118 | a full pending block may be enciphered when more follows |
| Cmac.CmacBase.TruncatedFinal | external/cryptopp/cmac.cpp:139-158 | section 6.2 of NIST SP 800-38B for the message given, cut to size; then ready for the next message |
| Cmac.MacOfPieces | external/cryptopp/cmac.cpp:79-158 | any message in any pieces: the mac depends only on the concatenation |
| Blake2Hashes.StreamedIsRounds | external/cryptopp/blake2.cpp:536-634 | taking a string a block at a time with the last held back is compressing the block list in order, only the last one flagged |
| Blake2Hashes.StreamedStep | external/cryptopp/blake2.cpp:556-561 | a full block may be compressed exactly when more follows |
| Blake2Hashes.StreamedIsHash | external/cryptopp/blake2.cpp:498-502 | a key block put in front of the message gives the block list of section 3.3 of RFC 7693 |
| Blake2Hashes.CounterStep | external/cryptopp/blake2.cpp:661-673 | the two-word counter with the carry test is the exact byte count |
| Blake2Hashes.HoldsBlock | external/cryptopp/blake2.cpp:540-561 | compressing a block that is not the last keeps the account of what has been given |
| Blake2Hashes.HoldsLast | external/cryptopp/blake2.cpp:617-628 | closing the state is hashing all that was given |
| Blake2Hashes.Blake2.constructor | external/cryptopp/blake2.cpp:398-428 | the parameter block with sizes, salt and personalization, and the key block already taken in |
| Blake2Hashes.Blake2.IncrementCounter | external/cryptopp/blake2.cpp:661-673 | the counter counts on exactly |
| Blake2Hashes.Blake2.CompressBlock | external/cryptopp/blake2.cpp:548-549 | counter and compression for a block that is not the last |
| Blake2Hashes.Blake2.CompletePending | external/cryptopp/blake2.cpp:542-553 | the pending block is completed and compressed |
| Blake2Hashes.Blake2.CompressFrom | external/cryptopp/blake2.cpp:555-561 | whole blocks are compressed from the input, and 1 to a block of bytes is left |
| Blake2Hashes.Blake2.Update | external/cryptopp/blake2.cpp:536-571 | what has been given grows by the input, with a full last block held back |
| Blake2Hashes.Blake2.CloseHash | external/cryptopp/blake2.cpp:617-628 | the last block, padded and flagged, gives the hash of everything given |
| Blake2Hashes.Blake2.TruncatedFinal | external/cryptopp/blake2.cpp:611-634 | the hash of everything given, cut to size, and a restart with the key; too large a size is refused |
| Blake2Hashes.Blake2.RestartWith | external/cryptopp/blake2.cpp:474-503 | a custom parameter block and counter |
| Blake2Hashes.SmallFields | external/cryptopp/blake2.h:101-105 | every field of the BLAKE2s parameter block at its offset |
| Blake2Hashes.LargeFields | external/cryptopp/blake2.h:152-156 | every field of the BLAKE2b parameter block at its offset |
| Blake2Hashes.ShortHash | external/cryptopp/blake2.cpp:536-634 | a message that fits a block, without a key, is one compression with its length and the last-block flag |
| Blake2Hashes.HashPieces | external/cryptopp/blake2.cpp:398-634 | any message in any pieces, keyed or not: the hash of section 3.3 of RFC 7693 |
| ThreeWayCipher.RunBack | external/cryptopp/3way.cpp:96-139 | running the rounds on the mirrored output meets the encryption states backwards, one by one |
| ThreeWayCipher.RoundTrip | external/cryptopp/3way.cpp:87-141 | with conjugate layers and opposed keys the whole run is undone |
| ThreeWayCipher.ReverseTwice | external/cryptopp/3way.cpp:24-29 | mirroring the bits of a word twice gives the word |
| ThreeWayCipher.Theta0Undone | external/cryptopp/3way.cpp:50-60 | each word of theta is undone by theta on the mirrored words |
| ThreeWayCipher.Theta0Adds | external/cryptopp/3way.cpp:50-60 | theta is linear |
| ThreeWayCipher.ThetaConjugate | external/cryptopp/3way.cpp:31-60 | mirroring conjugates theta to its inverse |
| ThreeWayCipher.PiGammaPiConjugate | external/cryptopp/3way.cpp:31-47 | mirroring conjugates pi_gamma_pi to its inverse |
| ThreeWayCipher.MuTwice | external/cryptopp/3way.cpp:31-37 | mirroring a block twice gives the block |
| ThreeWayCipher.MuParts | external/cryptopp/3way.cpp:31-37 | the mirror is mu and a byte reversal, in either order |
| ThreeWayCipher.ThetaAddKey | external/cryptopp/3way.cpp:98-101 | theta of a key addition is adding theta of the key with the same round constant |
| ThreeWayCipher.MuAddKey | external/cryptopp/3way.cpp:79-83 | mirroring a key addition |
| ThreeWayCipher.NextBackwards | external/cryptopp/3way.cpp:103-104 | the constant sequence, bit-reversed, runs backwards |
| ThreeWayCipher.ConstantsOpposed | external/cryptopp/3way.cpp:20-21 | the sequence from START_D is the reversed sequence from START_E backwards, whenever their ends meet |
| ThreeWayCipher.KeyUndone | external/cryptopp/3way.cpp:77-84 | the decryption key undoes the encryption key in every round |
| ThreeWayCipher.DecryptEncrypt | external/cryptopp/3way.cpp:87-141 | decryption inverts encryption for every key and block, for every number of rounds where the constants meet |
| ThreeWayCipher.ConstantInCycle | external/cryptopp/3way.cpp:103-104 | the round constants repeat every twelve rounds |
| ThreeWayCipher.MeetingRounds | external/cryptopp/3way.cpp:20-21 | the constants meet if and only if the number of rounds is 11 modulo 12 |
| ThreeWayRounds.FewRoundsDiffer | external/cryptopp/3way.cpp:87-141 | for each number of rounds below eleven, encrypting zero under the zero key and decrypting does not give zero |
| ThreeWayRounds.OnlyEleven | external/cryptopp/3way.cpp:87-141 | of the first twelve numbers of rounds, one for each class modulo 12, exactly eleven gives back every block under every key |
| ThreeWayRounds.KeyWordNumber | external/cryptopp/3way.cpp:74-75 | each key word has four octets of the user key for its digits in base 256, the first one highest |
| ThreeWayRounds.KnownAnswer | external/cryptopp/TestData/3wayval.dat:3-3 | a published ciphertext under a key whose octets all differ |
| ThreeWayRounds.EncryptVector | external/cryptopp/3way.cpp:68-141 | the same from the octets of the key through both objects, and back |
| ThreeWayCipher.ThreeWay.UncheckedSetKey | external/cryptopp/3way.cpp:68-85 | the key words, mirrored through theta for decryption; no rounds are refused |
| ThreeWayCipher.ThreeWay.RunRounds | external/cryptopp/3way.cpp:94-109 | the loop is the run of all rounds with the last key addition and theta |
| ThreeWayCipher.ThreeWay.EncryptBlock | external/cryptopp/3way.cpp:87-112 | the encryption of the block |
| ThreeWayCipher.ThreeWay.DecryptBlock | external/cryptopp/3way.cpp:114-141 | the decryption of the block |
| ThreeWayCipher.EncryptThenDecrypt | external/cryptopp/3way.cpp:68-141 | for 11 rounds, and any number that is 11 modulo 12, the block comes back |
| RoundSequences.BackwardForward | external/cryptopp/cham.cpp:144-194 | undoing the steps in reverse order gives the start |
| RoundSequences.ForwardOpposed | external/cryptopp/cast.cpp:209-235 | a schedule run on the opposed one runs it backwards |
| ChamRounds.RoundUndone | external/cryptopp/cham.cpp:46-93 | each round undoes the other, for any word type with these laws |
| ChamRounds.RoundTrip | external/cryptopp/cham.cpp:138-335 | any number of rounds is undone, both ways |
| ChamRounds.EncryptRound | external/cryptopp/cham.cpp:46-59 | the round in place, its indices taken from the residue |
| ChamRounds.DecryptRound | external/cryptopp/cham.cpp:80-93 | the inverse round in place |
| ChamRounds.EncryptTurn | external/cryptopp/cham.cpp:147-162 | one turn of the unrolled loop is that many rounds |
| ChamRounds.DecryptTurn | external/cryptopp/cham.cpp:178-193 | one turn of the unrolled loop undoes that many rounds |
| ChamRounds.EncryptBlock | external/cryptopp/cham.cpp:138-167 | all rounds |
| ChamRounds.DecryptBlock | external/cryptopp/cham.cpp:169-198 | all rounds backwards |
| ChamRounds.EnterNext | external/cryptopp/cham.cpp:127-133 | entering a key word fills its two places and disturbs no other |
| ChamRounds.UncheckedSetKey | external/cryptopp/cham.cpp:115-136 | the whole subkey table is filled |
| ChamCiphers.Inverse16 | external/cryptopp/cham.cpp:54-92 | 16-bit words have the laws |
| ChamCiphers.Inverse32 | external/cryptopp/cham.cpp:54-92 | 32-bit words have the laws |
| ChamCiphers.Cham64 | external/cryptopp/cham.cpp:115-198 | 80 rounds: the block comes back for every key |
| ChamCiphers.Cham128 | external/cryptopp/cham.cpp:209-335 | 80 or 96 rounds: the block comes back for every key of either size |
| ChamRounds.EnteredIsTable | external/cryptopp/cham.cpp:115-136 | the key table is exactly that of the schedule |
| ChamCiphers.Encrypt64 | external/cryptopp/cham.cpp:138-167 | the ciphertext of CHAM-64 |
| ChamCiphers.Encrypt128 | external/cryptopp/cham.cpp:230-285 | the ciphertext of CHAM-128, for either key size |
| ChamVectors.RoundNumber16 | external/cryptopp/cham.cpp:56-56 | the constant of round n is n modulo 2^16 |
| ChamVectors.RoundNumber32 | external/cryptopp/cham.cpp:56-56 | or modulo 2^32 |
| ChamVectors.TurnByOneOf16 | external/cryptopp/cham.cpp:57-58 | bit j of a 16-bit word turned by 1 is bit j - 1, modulo 16 |
| ChamVectors.TurnByEightOf16 | external/cryptopp/cham.cpp:57-58 | bit j of a 16-bit word turned by 8 is bit j - 8, modulo 16 |
| ChamVectors.TurnByElevenOf16 | external/cryptopp/cham.cpp:127-133 | bit j of a 16-bit word turned by 11 is bit j - 11, modulo 16 |
| ChamVectors.TurnByOneOf32 | external/cryptopp/cham.cpp:57-58 | bit j of a 32-bit word turned by 1 is bit j - 1, modulo 32 |
| ChamVectors.TurnByEightOf32 | external/cryptopp/cham.cpp:57-58 | bit j of a 32-bit word turned by 8 is bit j - 8, modulo 32 |
| ChamVectors.TurnByElevenOf32 | external/cryptopp/cham.cpp:127-133 | bit j of a 32-bit word turned by 11 is bit j - 11, modulo 32 |
| ChamVectors.ElevenOf16 | external/cryptopp/cham.cpp:127-133 | turning by eleven is turning by eight and three times by one |
| ChamVectors.ElevenOf32 | external/cryptopp/cham.cpp:221-226 | the same for 32-bit words |
| ChamVectors.KnownAnswer64 | external/cryptopp/TestVectors/cham.txt:6-8 | the published ciphertext of CHAM-64 |
| ChamVectors.KnownAnswer128 | external/cryptopp/TestVectors/cham.txt:81-83 | that of CHAM-128 with a 128-bit key |
| ChamVectors.KnownAnswer256 | external/cryptopp/TestVectors/cham.txt:153-155 | and with a 256-bit key |
| ChamVectors.EncryptVectors | external/cryptopp/TestVectors/cham.txt:6-155 | all three through the encrypting methods |
| CastCiphers.ApplyTwice | external/cryptopp/cast.cpp:17-32 | a round applied twice is undone, for any S-boxes |
| CastCiphers.ScheduleUndone | external/cryptopp/cast.cpp:36-93 | any schedule of rounds is undone |
| CastCiphers.F | external/cryptopp/cast.cpp:17-32 | the round in place |
| CastCiphers.EncryptRounds | external/cryptopp/cast.cpp:43-61 | 12 or 16 rounds in order |
| CastCiphers.DecryptRounds | external/cryptopp/cast.cpp:73-90 | 12 or 16 rounds in reverse order |
| CastCiphers.RoundsAreHalves | external/cryptopp/cast.cpp:36-64 | the rounds in place are the Feistel rounds of section 2.2 of RFC 2144, with their three types, for any number of rounds |
| CastCiphers.Encrypt128 | external/cryptopp/cast.cpp:36-64 | the block out is the right and left half after 12 or 16 Feistel rounds |
| CastCiphers.Decrypt128 | external/cryptopp/cast.cpp:66-93 | the block out is the swapped result of the reversed rounds |
| CastCiphers.RoundTrip128 | external/cryptopp/cast.cpp:36-93 | CAST-128: the block comes back, for all S-boxes and subkeys and both round counts |
| CastCiphers.Q | external/cryptopp/cast.cpp:197-201 | a forward quad round is four rounds of the schedule |
| CastCiphers.QBar | external/cryptopp/cast.cpp:203-207 | a reverse quad round is four rounds of the schedule |
| CastCiphers.QuadIsRounds | external/cryptopp/cast.cpp:197-207 | a quad round is its four equations in section 2.3 of RFC 2612, forward and reverse |
| CastCiphers.RoundsAreQuads | external/cryptopp/cast.cpp:212-235 | the schedule is six forward quad rounds and then six reverse ones |
| CastCiphers.ProcessBlock256 | external/cryptopp/cast.cpp:212-235 | 48 rounds of the schedule, which are the twelve quad rounds |
| CastNumbers.RotatedBit | external/cryptopp/cast.cpp:17-28 | bit j of a turned word is bit j minus the turn, modulo 32 |
| CastNumbers.RoundOne | external/cryptopp/cast.cpp:17-20 | the first round function as one sum modulo 2^32, on the bytes of the turned sum of key and word |
| CastNumbers.RoundTwo | external/cryptopp/cast.cpp:21-24 | the second, with the key combined and its last table combined |
| CastNumbers.RoundThree | external/cryptopp/cast.cpp:25-28 | the third, with the word taken from the key |
| CastNumbers.AddBit | external/cryptopp/cast.cpp:17-28 | combining is exclusive or, bit by bit |
| MachineWords.BytesAreDigits | external/cryptopp/cast.cpp:17-28 | the four bytes of a word are its digits in base 256 |
| MachineWords.PlusValue | external/cryptopp/cast.cpp:17-28 | sums of words wrap around at 2^32 |
| MachineWords.MinusValue | external/cryptopp/cast.cpp:17-28 | and so do differences |
| CastCiphers.ExchangeStep | external/cryptopp/cast.cpp:280-286 | one exchange swaps the keys of two quads and no other |
| CastCiphers.SwapQuads | external/cryptopp/cast.cpp:274-289 | the loops exchange the keys of quad i and quad 11-i, all of them |
| CastCiphers.RoundSwapped | external/cryptopp/cast.cpp:209-235 | with the swapped table, round i is round 47-i |
| CastCiphers.KeysSwapped | external/cryptopp/cast.cpp:264-289 | the swapped table is a key table again |
| CastCiphers.DecryptEncrypt256 | external/cryptopp/cast.cpp:209-235 | running the schedule of the swapped table undoes the schedule |
| CastCiphers.RoundTrip256 | external/cryptopp/cast.cpp:197-290 | CAST-256: the block comes back, for all S-boxes and key tables |
| AdvancedBlocks.BatchIsSteps | external/cryptopp/adv_simd.h:665-746 | a batch of any width does what the one-block steps do, when none of its outputs lies on an input it has still to read |
| AdvancedBlocks.ClearIsAlike | external/cryptopp/adv_simd.h:665-746 | without a counter and blocks to combine with, a batch whose outputs lie apart does what the one-block loop does for every kernel and every memory if and only if no output lies on a later input of the batch |
| AdvancedBlocks.SixTwoOneExactly | external/cryptopp/adv_simd.h:634-819 | for a whole call without a counter and blocks to combine with, of any length: batches of six and two and single blocks do what the one-block loop does, for every kernel and every memory, if and only if each batch is clear |
| AdvancedBlocks.FourOneExactly | external/cryptopp/adv_simd.h:829-950 | the same for batches of four |
| AdvancedBlocks.SelfCombined | external/cryptopp/adv_simd.h:665-746 | where blocks are combined with, an unclear batch may still be like the one-block loop for every kernel and every memory: the blocks to combine with are the input itself |
| AdvancedBlocks.OverlapDiffers | external/cryptopp/adv_simd.h:634-819 | a call that differs: two blocks, the output one block further on, over zeros |
| AdvancedBlocks.BatchesAreSteps | external/cryptopp/adv_simd.h:667-746 | all batches of a loop do what the one-block steps do, when each of them is clear |
| AdvancedBlocks.SixTwoOneIsSteps | external/cryptopp/adv_simd.h:634-819 | batches of six, of two and single blocks together are the one-block loop, when each batch is clear |
| AdvancedBlocks.FourOneIsSteps | external/cryptopp/adv_simd.h:829-950 | the same for batches of four |
| AdvancedBlocks.PlainStep | external/cryptopp/adv_simd.h:682-743 | one more block in the batch is one more step |
| AdvancedBlocks.CounterStep | external/cryptopp/adv_simd.h:670-681 | the same where the input block is a counter |
| AdvancedBlocks.StepsFrom | external/cryptopp/adv_simd.h:794-816 | batches one after the other are the steps one after the other |
| AdvancedBlocks.AddOneCounts | external/cryptopp/adv_simd.h:672-680 | the 32-bit lane addition is the byte increment of the last byte |
| AdvancedBlocks.LoadBatch | external/cryptopp/adv_simd.h:670-696 | the loads of a batch, and the counter written back |
| AdvancedBlocks.ProcessBatch | external/cryptopp/adv_simd.h:698-730 | the kernel and xor of a batch |
| AdvancedBlocks.StoreBatch | external/cryptopp/adv_simd.h:732-743 | the stores of a batch |
| AdvancedBlocks.ProcessMany | external/cryptopp/adv_simd.h:667-746 | one turn of a batch loop |
| AdvancedBlocks.ProcessOne | external/cryptopp/adv_simd.h:794-816 | one turn of the one-block loop |
| AdvancedBlocks.ProcessBatches | external/cryptopp/adv_simd.h:667-746 | a batch loop does exactly the batches that fit, and leaves less than one |
| AdvancedBlocks.ProcessSingles | external/cryptopp/adv_simd.h:794-818 | the one-block loop does the rest |
| BlockCalls.StepsDo | external/cryptopp/adv_simd.h:794-816 | what the one-block loop leaves, by memory slices: block k of the output is the kernel of the input block, combined before or after the kernel as the mode says, or of the counter with its last byte moved on; the counter ends moved on by all blocks, and every other byte stays |
| BlockCalls.StepsChain | external/cryptopp/adv_simd.h:794-816 | chaining in one place, as CCM and CMAC call it: the block ends as the chaining value over all blocks of the other run |
| BlockCalls.UntangledIsUndisturbed | external/cryptopp/adv_simd.h:655-663 | when the output stays off later inputs, in either direction, nothing is disturbed; disjoint buffers, both in-place calls and the counter are such calls |
| BlockCalls.FitsIsInBounds | external/cryptopp/adv_simd.h:650-663 | buffers that fit the memory, written as three runs, are what every turn of either direction needs |
| BlockCalls.InBoundsFits | external/cryptopp/adv_simd.h:650-663 | and no more than that is asked |
| BlockCalls.AdvancedProcessBlocks6x2 | external/cryptopp/adv_simd.h:634-819 | for every untangled call, in every xor, counter and direction mode and for any length, each output block by memory slices, the counter, and the bytes left alone; for every overlap, the memory of the batches of six, two and one, or of the one-block loop when batches are not allowed; the length left over |
| BlockCalls.AdvancedProcessBlocks4x1 | external/cryptopp/adv_simd.h:829-950 | the same for the widths 4 and 1 |
| AdvancedBlocks.ReverseInPlace | external/cryptopp/adv_simd.h:655-663 | output over input, xor blocks one behind, in reverse: nothing is disturbed |
| AdvancedBlocks.ForwardInPlace | external/cryptopp/adv_simd.h:647-653 | output over input, forward: nothing is disturbed |
| AdvancedBlocks.CounterInPlace | external/cryptopp/adv_simd.h:670-681 | output over the text, counter apart: nothing is disturbed |
| AdvancedBlocks.Disjoint | external/cryptopp/adv_simd.h:634-664 | buffers that do not meet: nothing is disturbed in any mode |
| AdvancedBlocks.UndisturbedIsClear | external/cryptopp/adv_simd.h:665-746 | when nothing is disturbed, every batch of every width is clear |
| AsnLengths.PrecisionIsLeast | external/cryptopp/asn.cpp:30-32 | the byte precision is the least number of octets that hold a value |
| AsnLengths.LongValue | external/cryptopp/asn.cpp:65-74 | the long form gives its value if it fits 64 bits, and the guard rejects exactly the others |
| AsnLengths.DecodeEncodeLength | external/cryptopp/asn.cpp:20-77 | every 64-bit length comes back, and exactly its octets are consumed |
| AsnLengths.LengthIsShortest | external/cryptopp/asn.cpp:20-39 | no other octets that decode to the length are fewer |
| AsnLengths.DERLengthEncode | external/cryptopp/asn.cpp:20-39 | the octets put out, and how many |
| AsnLengths.BERLengthDecode | external/cryptopp/asn.cpp:41-77 | the length, and what is left; truncation and overflow |
| AsnObjectIdentifiers.DecodesArc | external/cryptopp/asn.cpp:314-331 | an arc decodes to its value if it fits 32 bits, and the guard rejects exactly the others |
| AsnObjectIdentifiers.DecodeEncodeArc | external/cryptopp/asn.cpp:307-331 | every 32-bit arc comes back |
| AsnObjectIdentifiers.ArcIsShortest | external/cryptopp/asn.cpp:307-312 | no other octets with that value are fewer |
| AsnObjectIdentifiers.ArcOctetsAre | external/cryptopp/asn.cpp:307-312 | the octets put out are an arc with that value |
| AsnObjectIdentifiers.BitsOfGroups | external/cryptopp/asn.cpp:309-309 | the rounded bit precision is seven bits for each group |
| AsnObjectIdentifiers.FirstShift | external/cryptopp/asn.cpp:309-309 | the first shift of the loop reaches the top group |
| AsnObjectIdentifiers.DecodeEncodeArcs | external/cryptopp/asn.cpp:338-371 | a list of later arcs comes back |
| AsnObjectIdentifiers.DecodeEncodeOid | external/cryptopp/asn.cpp:333-372 | every identifier decodes, with its first two arcs as the shared octet gives them back |
| AsnObjectIdentifiers.OidRoundTrip | external/cryptopp/asn.cpp:333-372 | an identifier comes back if and only if its second arc is below 40 and the shared octet fits |
| AsnObjectIdentifiers.AnotherIdentifier | external/cryptopp/asn.cpp:333-372 | one that does not: 2.48 comes back as 3.8 |
| AsnObjectIdentifiers.EncodeValue | external/cryptopp/asn.cpp:307-312 | the arc octets put out |
| AsnObjectIdentifiers.DecodeValue | external/cryptopp/asn.cpp:314-331 | the arc read, what is left, and the number of octets |
| AsnObjectIdentifiers.OID.DEREncode | external/cryptopp/asn.cpp:333-343 | the identifier put out |
| AsnObjectIdentifiers.OID.BERDecode | external/cryptopp/asn.cpp:345-372 | the identifier read, or exactly the refusals |
| AsnObjectIdentifiers.OID.ReadArcs | external/cryptopp/asn.cpp:363-371 | the later arcs, which must end where the length says |
| AsnUnsigned.ContentsAre | external/cryptopp/asn.h:831-838 | the contents have the value, are not negative, and waste no leading octet (section 8.3 of X.690) |
| AsnUnsigned.ContentsAreShortest | external/cryptopp/asn.h:831-838 | no other non-negative contents with that value are shorter |
| AsnUnsigned.DecodeEncodeUnsigned | external/cryptopp/asn.h:819-899 | every value that fits comes back when it is in range, else is refused, and exactly its octets are consumed |
| AsnUnsigned.FillBuffer | external/cryptopp/asn.h:831-838 | the octets needed end the buffer |
| AsnUnsigned.DEREncodeUnsigned | external/cryptopp/asn.h:820-844 | the element put out, and its length |
| AsnUnsigned.ReadWord | external/cryptopp/asn.h:884-895 | leading zeros are skipped, and a value is refused exactly when it does not fit |
| AsnUnsigned.BERDecodeUnsigned | external/cryptopp/asn.h:856-899 | the value read and what is left, or exactly the refusals |
| DerReencoding.ParseSound | external/cryptopp/asn.cpp:501-577 | what parses is a well-formed element, and its octets are exactly those consumed |
| DerReencoding.ParseComplete | external/cryptopp/asn.cpp:501-577 | every well-formed element parses, and nothing after it is touched |
| DerReencoding.ParseAllSound | external/cryptopp/asn.cpp:527-567 | the same for the parts of an indefinite element up to its end marker |
| DerReencoding.ParseAllComplete | external/cryptopp/asn.cpp:527-567 | every list of parts parses up to its end marker |
| DerReencoding.RewrittenIsSame | external/cryptopp/asn.cpp:271-286 | the rewritten element has the same tags and contents, level by level |
| DerReencoding.SameTreeIsRewritten | external/cryptopp/asn.cpp:271-286 | and it is the only definite element that has |
| DerReencoding.RewrittenOnce | external/cryptopp/asn.cpp:271-286 | the rewritten element is well formed, parses to itself, and is its own rewriting |
| DerReencoding.RewrittenSize | external/cryptopp/asn.cpp:271-286 | it takes at most three times the octets |
| DerReencoding.MessageEnd | external/cryptopp/asn.cpp:624-631 | the encoder puts out tag, shortest length and contents |
| DerReencoding.DERReencode | external/cryptopp/asn.cpp:271-286 | it terminates, succeeds exactly on what parses, consumes exactly that element and puts out its rewriting |
| DerReencoding.ReencodeParts | external/cryptopp/asn.cpp:281-284 | the parts of an indefinite element, one after the other |
| DerReencoding.ReencodeTwice | external/cryptopp/asn.cpp:271-286 | a well-formed element is rewritten to the same tree, and rewriting the result changes nothing |
| AsnVectors.LengthVectors | external/cryptopp/asn.cpp:20-39 | the lengths 38, 201 and 435, octet for octet |
| AsnVectors.EncodeIdentifier | external/cryptopp/asn.cpp:333-344 | the identifier 1.2.840.113549, octet for octet |
| AsnVectors.EncodeNumbers | external/cryptopp/asn.h:820-844 | INTEGER, ENUMERATED and BOOLEAN elements, octet for octet |
| AsnVectors.ReencodeSequence | external/cryptopp/asn.cpp:271-286 | every SEQUENCE of open length that holds an INTEGER is accepted and gets the definite lengths, octet for octet |
| AsnVectors.RefusePrimitive | external/cryptopp/asn.cpp:501-512 | an element whose tag is not constructed may not leave its length open |
| ArchiveReaders.ReadIsPayload | cache/src/index.cpp:81-129 | a successful read is exactly the indexed size, the payloads of the chain in order, each header with its own number, with zeros for what the file does not hold |
| ArchiveReaders.ReadIsStored | cache/src/index.cpp:81-129 | what was read is stored in the chain octet for octet if and only if the file goes on to the end of the last piece; only the last piece can be cut off |
| ArchiveReaders.ArchiveIsStored | cache/src/index.cpp:39-132 | the same for an archive and its index entry |
| ArchiveReaders.CutOffStore | cache/src/index.cpp:119-123 | a store that ends inside the only block of an archive, and is read with zeros at the end |
| ArchiveReaders.VisitedDistinct | cache/src/index.cpp:114-117 | the blocks of a chain are pairwise distinct |
| ArchiveReaders.ReadLaidOut | cache/src/index.cpp:81-129 | a well-laid-out chain is read back |
| ArchiveReaders.OffsetBelow | cache/src/index.cpp:88-88 | below 4 GiB the 32-bit block offset does not wrap |
| ArchiveReaders.ReadStore | cache/src/index.cpp:39-132 | a well-laid-out store below 4 GiB gives its payload, through the index entry |
| ArchiveReaders.NoWrap | cache/src/index.cpp:74-128 | the 16-bit chunk counter does not wrap for a 24-bit size |
| ArchiveReaders.Stream.Read | common/include/openrs/common/ifstream.h:39-47 | a read past the end gives what there is and fails |
| ArchiveReaders.GetCompressedUInt32 | cache/include/openrs/cache/index.h:79-99 | three octets, or zero on failure |
| ArchiveReaders.ReadHeader | cache/src/index.cpp:90-112 | the block header of either size |
| ArchiveReaders.ReadBlock | cache/src/index.cpp:88-123 | one block: refused unless its header names the archive and the chunk |
| ArchiveReaders.FollowsStep | cache/src/index.cpp:81-129 | one block more keeps the account of the chain |
| ArchiveReaders.FollowBlock | cache/src/index.cpp:81-129 | one turn of the loop |
| ArchiveReaders.ReadBlocks | cache/src/index.cpp:72-131 | the loop appends exactly what the chain gives, and ends |
| ArchiveReaders.Index.GetArchiveData | cache/src/index.cpp:39-132 | success and appended octets are those of the store; they are stored in the chain octet for octet exactly when the store does not end inside the last block; the store reader of filestore.cpp is the same loop |
| StoreWriters.HeaderIs | cache/src/index.cpp:90-112 | the reader finds archive, chunk and next block where the writer puts them, in headers of either size |
| StoreWriters.WrittenLaidOut | cache/src/index.cpp:81-129 | a store written octet by octet holds the chain the reader follows |
| StoreWriters.WrittenIsRead | cache/src/index.cpp:39-132 | what is written is read: every archive number of both sizes, every payload below 2^24 octets, every choice of different blocks below 4 GiB |
| StoreWriters.WriteThenRead | cache/src/index.cpp:39-132 | the same through the reader: it appends exactly the payload |
| ReferenceTables.ParseBigSmart | cache/src/referencetable.cpp:21-43 | the two- and four-octet forms come back, -1 included |
| ReferenceTables.ParseNumber | cache/src/referencetable.cpp:76-99 | counts and deltas come back in either protocol |
| ReferenceTables.ParseDeltas | cache/src/referencetable.cpp:87-105 | the running sums undo the deltas |
| ReferenceTables.ParseColumn | cache/src/referencetable.cpp:143-159 | a column comes back |
| ReferenceTables.LargestIs | cache/src/referencetable.cpp:101-104 | the largest id bounds all ids |
| ReferenceTables.FilledIs | cache/src/referencetable.cpp:120-159 | filling a column sets one field of the listed slots and nothing else |
| ReferenceTables.AllFilledHolds | cache/src/referencetable.cpp:110-160 | after all columns each listed id has its own values and every other slot is default |
| ReferenceTables.StampedIs | cache/src/referencetable.cpp:130-141 | setting the digest sets it in the listed slots and changes nothing else |
| ReferenceTables.ParsePlainReferences | cache/src/referencetable.cpp:110-160 | columns without digests come back into the slots |
| ReferenceTables.ParseDigestReferences | cache/src/referencetable.cpp:130-160 | with digests, all slots get the first one, and the checksums and revisions are read where the digests are |
| ReferenceTables.DigestMisread | cache/src/referencetable.cpp:130-150 | a table with one digest whose checksum is read from the digest |
| ReferenceTables.ParseSerialised | cache/src/referencetable.cpp:48-160 | a serialised table of protocol 6 or 7 with increasing ids is always accepted, and comes back, with nothing after it touched, if and only if it has no digests and its largest id is not the largest word; what comes out in the other cases |
| ReferenceTables.Buffer.GetData | cache/src/referencetable.cpp:53-55 | data is there and passed over, or the read fails |
| ReferenceTables.ReadBigSmart | cache/src/referencetable.cpp:21-43 | the value and what is left, or failure |
| ReferenceTables.ReadIds | cache/src/referencetable.cpp:87-105 | the ids, the largest of them, and what is left |
| ReferenceTables.ReferenceTable.FillField | cache/src/referencetable.cpp:120-159 | one column read into the slots |
| ReferenceTables.ReferenceTable.FillDigests | cache/src/referencetable.cpp:130-141 | the digests, all read from the same place |
| ReferenceTables.ReferenceTable.BuildArchiveReferences | cache/src/referencetable.cpp:110-160 | the slots of the table, for every set of flags; none when the number of slots wraps to zero |
| ReferenceTables.ReferenceTable.Load | cache/src/referencetable.cpp:48-108 | the table, or failure exactly when the octets are no table |
| ReferenceTables.LoadSerialised | cache/src/referencetable.cpp:48-160 | serialise and load: each listed id has its values, every other slot is default; with digests, and with the largest word for an id, what comes out instead |
| ReferenceVectors.NumberVectors | cache/src/referencetable.cpp:21-44 | both forms of a number, and minus one, octet for octet |
| ReferenceVectors.LoadVector | cache/src/referencetable.cpp:48-160 | a table given octet for octet, and all its slots |
| Adler32Checksums.ShortChecksum | external/cryptopp/adler32.cpp:8-80 | the checksum of three octets, in numbers |
| Adler32Checksums.SumsConcat | external/cryptopp/adler32.cpp:8-54 | the sums over a concatenation continue those over its first part |
| Adler32Checksums.SumsFromReduced | external/cryptopp/adler32.cpp:24-46 | starting from reduced sums changes nothing modulo 65521 |
| Adler32Checksums.Adler32.AddOdd | external/cryptopp/adler32.cpp:15-27 | the first few octets, reduced |
| Adler32Checksums.AddOctets | external/cryptopp/adler32.cpp:31-38 | up to eight octets raise the sums by no more than fits 32 bits |
| Adler32Checksums.ReduceFirst | external/cryptopp/adler32.cpp:43-44 | one subtraction keeps the first sum reduced |
| Adler32Checksums.Block | external/cryptopp/adler32.cpp:40-46 | the second sum is reduced at least every 0x8000 octets |
| Adler32Checksums.Adler32.AddEights | external/cryptopp/adler32.cpp:29-47 | the unrolled loop: both sums reduced at the end, the second never past 32 bits |
| Adler32Checksums.Adler32.Update | external/cryptopp/adler32.cpp:8-54 | the fields are the definition of section 2.2 of RFC 1950 for all octets so far |
| Adler32Checksums.Adler32.TruncatedFinal | external/cryptopp/adler32.cpp:56-80 | the checksum, cut to size, and a reset |
| Adler32Checksums.ChecksumOf | external/cryptopp/adler32.cpp:8-80 | any octets in any pieces: the checksum of section 2.2 of RFC 1950 |

## Left out

- BlockCalls.AdvancedProcessBlocks6x2: block by block in memory slices for calls whose outputs stay off later inputs, and for chaining in one place; for other overlaps the memory is described through the batches.
- BlockCalls.AdvancedProcessBlocks4x1: the same calls.
- ThreeWayCipher.DecryptEncrypt: decryption inverts encryption when the round count is 11 modulo 12; each of the other eleven classes modulo 12 has its least count shown to fail, and the larger counts of those classes have no example of their own.
- AdvancedBlocks.SixTwoOneExactly: for calls without a counter and without blocks to combine with, whose outputs lie apart; in the other modes a clear batch is shown to be enough, and `AdvancedBlocks.SelfCombined` shows that it is not always needed there.
- AdvancedBlocks.FourOneExactly: the same calls.
- AuthenticatedEncryption.AuthenticatedCipher.TruncatedFinal: when CCM refuses to end a message at once, because of the message length and after its header was already padded, the state left is described, but further calls on it are only followed from the next nonce on.
- AuthenticatedEncryption.AuthenticatedCipher.SpecifyDataLengths: without the footer length, which both modes refuse unless it is zero.
- CcmAnnouncements.TagDecides: no data before the last announcement, and nothing kept; without that, what is authenticated still differs, but whether the tags do depends on the cipher.
- Debug assertions (`external/cryptopp/trap.h:39-47`), which are compiled out unless a debug macro is set: no contract relies on them.
- DerReencoding.DERReencode: states nothing about the output when the input does not parse, and asks that three times the input fits 64-bit lengths; the destructors that finish a decoder or encoder after an exception are not modelled.
- DerReencoding.ReencodeParts: states nothing about the output after a failure.
- AsnLengths.BERLengthDecode: states nothing about what is left in the queue after a failure; the octets read so far are gone.
- AsnObjectIdentifiers.DecodeValue: the same.
- AsnObjectIdentifiers.OID.BERDecode: the same, and nothing about the values, of which some may have been read.
- AsnObjectIdentifiers.OID.ReadArcs: the same.
- AsnUnsigned.BERDecodeUnsigned: the same as for lengths.
- AsnUnsigned.DEREncodeUnsigned: for words of up to eight octets, with lengths below 2^64.
- AsnObjectIdentifiers.OID.DEREncode: for identifiers of at least two arcs, as its assertion asks, with contents below 2^64 octets.
- BaseN.Encoder.IsolatedInitialize: the alphabet has one character for each digit; the source takes a pointer and cannot check it.
- BaseNDecoding.Decoder.IsolatedInitialize: entries of the table below 256 are digits of the given width; the source does not check them.
- BaseNPipelines.DecodePieces: the same tables.
- BlumBlumShubs.BlumBlumShub.constructor: a modulus of at least 2; a smaller one has no bits to give.
- BlumBlumShubs.BlumBlumShub.Seek: (p-1)(q-1) is positive, since the source throws when it is zero; says nothing about the state for numbers that are not different primes.
- Cmac.CmacBase.constructor: the buffer of three blocks is three arrays, and block lengths are the five the source has field polynomials for.
- Blake2Hashes.HashPieces: both variants at once through their parameters; the compression function is arbitrary, so its mixing rounds and SIMD versions are not modelled.
- CastCiphers.RoundTrip256: for any table of 96 subkeys with turns below 32; the key schedules of CAST-128 and CAST-256 and the S-box tables are left out.
- ReferenceTables.ReferenceTable.Load: without protocol 5, where the source reads through a pointer it never set; the digest of a slot that none was set for is empty here, and not initialised in the source.
- ArchiveReaders.Index.GetArchiveData: what is left in the output after a failure is not described; the weak pointers to the streams are taken to be there and not bad, and the two streams are different.
- The store reader in `cache/src/filestore.cpp`, line by line the same loop as the index reader, has no copy of its own.
- The rule that a group operation may return a reference to a shared member (`external/cryptopp/algebra.h:19-25`): group elements are values here.
- The heap functions of the standard library: modelled by methods whose contracts are those of the C++ standard.
- Serialising blocks of 3-Way, CHAM and CAST to and from bytes, and the exclusive or with a second block: blocks are words.
- Unrolled rounds and macros appear as short loops or calls in the same order.
- The filter macros, channels and blocking of the Crypto++ pipeline: filters append to an output sequence.
- `Integer` arithmetic itself, modular exponentiation and Montgomery form: numbers and `PowMod`.
- `EncodedObjectFilter`, whose tag byte is consumed before the element is transferred (`external/cryptopp/asn.cpp:416-418`).
- The AltiVec batch loop, whose counter advances by six for four blocks (`external/cryptopp/adv_simd.h:1028`).
- XChaCha20-Poly1305, EAX and GCM, the other users of the authenticated state machine.
- Files, archives inside a container, compression and the command-line parts of the cache reader: easy members or code not shown.
