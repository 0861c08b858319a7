# Verification of the proxy's Crypto++ core and wire formats

This project models the algorithms that the proxy and its bundled Crypto++ rely on, and proves that the
fast, streaming and in-place code computes what its simple definitions say.

- **Groups, scalar multiplication and inversion** (`BitMath`, `AbelianGroups`, `WindowSliders`,
  `ScalarMultiplication`, `CascadeMultiplication`, `Heaps`, `GeneralCascade`, `Euclid`, `Fields`,
  `ParallelInversion`, `Chords`, `EllipticCurves`, `ProjectiveDoublings`, `EcpMultiplication`,
  `FixedBasePrecomputation`). Every multiplication routine equals repeated addition
  (`AbelianGroups.Multiple`) in an arbitrary abelian group. The group is a value that carries its
  operations; the axioms are the only assumption (`IsAbelian`, which the integers meet). For the curve
  only associativity is assumed (`IsCurve`, which a curve of seven points over three elements meets); closure,
  identity, inverses and commutativity are proved. The field is any one of odd characteristic (`IsField`, which the
  reals meet).
- **Filters and codecs** (`ByteStrings`, `BlockQueues`, `BufferedFilters`, `StreamTransformations`,
  `PaddedMessages`, `BitStrings`, `BaseCodes`, `TextCodecs`, `BaseTexts`). A message cut up in any way gives the
  result of the whole message, decoding undoes encoding, and the result is what the standards spell out.
- **Authenticators and checksums** (`BlockChaining`, `CbcMacs`, `Cmacs`, `AuthenticatedCiphers`,
  `MacFormats`, `Adler32`). The cipher is any function on blocks and the key stream any function of vector and
  position; digests depend only on the concatenated input and are those of the standards.
- **ASN.1** (`BerLengths`, `BerTrees`, `DerReencoding`, `Asn1Values`, `WireBytes`). What the encoders
  write, the decoders read, and it is what X.690 asks for, octet by octet.
- **The proxy's packets** (`ByteBuffers`, `Frames`, `ProxyPackets`, `ProxyBytes`). Framing, sequence numbers and
  encryption undo each other, up to exact sizes.

Objects that the source updates are classes with its fields; ghost fields record what has been put in so
far, and each class's `Valid` ties the two together. Pointers into a buffer are indices, output streams are
returned sequences, exceptions are result values, and values that come from outside (random vectors, the
time, the bytes a connection delivers) are parameters.

Where the code does less than one might expect, the exact condition is proved: `OidRoundTrip` (second arc
below 40 and first octet at most 255, so 2.48 and the like do not come back), `UnsignedRoundTrip` (the Boolean
tag keeps only zero or not), `RoundTripUnpadded` (zeros stay behind), `DeliveredExactlyWhenFits`,
`SequencedRoundTrip`, `OpensExactlyWhenSizeShows` and `ArrivesExactlyWhenFits` (16-bit sizes and a 15-bit
length field), `MultiplicativeInverse` (zero when there is no inverse), `ReencodingMakesDer` (`DERReencode` copies a
value of definite length as it is, so its result denotes the same tree but need not be in DER inside) and
`StringConstructorAgrees` (the string constructor of `SequencedPacket` parses into a temporary object and discards
it). `FortyEight`, `BooleanTwo`, `ThirteenBits`, `ShortestLost` and `CopiedInside` show an input for each kind of loss.

`dafny verify dfyconfig.toml` checks the whole project.

## Model

| member | source | states |
|---|---|---|
| WindowSliders.WindowSlider.constructor | Dependencies/CryptoPP/algebra.cpp:208-217 | a new slider is about to visit exactly the digits of the exponent, for the window size given or chosen from the exponent's length |
| WindowSliders.WindowSlider.FindNextWindow | Dependencies/CryptoPP/algebra.cpp:219-246 | moves from one digit of the recoding to the next, or finishes when there is none; the exponent never runs away although negation adds the window modulus back |
| WindowSliders.WindowSlider.TakeWindow | Dependencies/CryptoPP/algebra.cpp:234-245 | the window taken at a position is its digit, negated when cheap and the next bit is set, and the exponent left accounts for it |
| WindowSliders.SkipClearBits | Dependencies/CryptoPP/algebra.cpp:221-232 | finds the next set bit from a position on, or that there is none; it stops behind the last word of the exponent |
| WindowSliders.RestIsSmaller | Dependencies/CryptoPP/algebra.cpp:234-242 | after each window a strictly smaller number remains, also when the window was negated: why there are finitely many digits |
| WindowSliders.WindowFound | Dependencies/CryptoPP/algebra.cpp:234-245 | shift, mask and conditional negation at the next set bit split off the first digit of the recoding and leave the recoding of the rest |
| WindowSliders.RecodeWellFormed | Dependencies/CryptoPP/algebra.cpp:219-246 | every digit is odd, of size below 2^windowSize, positive without fast negation, and at least windowSize bits above the one before |
| WindowSliders.WellFormedAt | Dependencies/CryptoPP/algebra.cpp:219-246 | the same of any digit and all later ones by index: strictly increasing positions at least windowSize apart |
| WindowSliders.RecodeSum | Dependencies/CryptoPP/algebra.cpp:206-252 | the signed sum of digit times 2^position is the exponent |
| WindowSliders.SliderDigits | Dependencies/CryptoPP/algebra.cpp:206-252 | shape and sum together for any exponent and window size |
| ScalarMultiplication.SimultaneousMultiply | Dependencies/CryptoPP/algebra.cpp:254-313 | in any abelian group, with or without fast negation, every result is its exponent times the base, for every list of exponents, zero included |
| ScalarMultiplication.ScalarMultiply | Dependencies/CryptoPP/algebra.cpp:90-95 | exponent times base, by the simultaneous form on one exponent |
| ScalarMultiplication.Start | Dependencies/CryptoPP/algebra.cpp:262-268 | a fresh slider on its first digit and buckets of zeros account for the whole exponent |
| ScalarMultiplication.StartAll | Dependencies/CryptoPP/algebra.cpp:257-268 | every exponent starts accounted for, each with its own slider and buckets |
| ScalarMultiplication.AddWindow | Dependencies/CryptoPP/algebra.cpp:279-287 | at a digit's position the current power (or its inverse) goes into the right bucket, and buckets plus remaining digits still make the exponent |
| ScalarMultiplication.DigitIntoBucket | Dependencies/CryptoPP/algebra.cpp:281-285 | bucket (digit/2) stands for digit times position power in the weighted sum, for either sign |
| ScalarMultiplication.PassBit | Dependencies/CryptoPP/algebra.cpp:274-289 | one pass over all exponents at a bit position keeps each accounted for, and stops only when all have finished |
| ScalarMultiplication.PassAllBits | Dependencies/CryptoPP/algebra.cpp:270-296 | when the loop ends, the buckets of every exponent alone make it up, g having stayed 2^position times the base |
| ScalarMultiplication.CollectBuckets | Dependencies/CryptoPP/algebra.cpp:300-311 | the suffix-sum pass computes the sum of (2j+1) times bucket j |
| ScalarMultiplication.SuffixesWeigh | Dependencies/CryptoPP/algebra.cpp:304-310 | weights 2j+1 are twice the sum of suffix sums plus the suffix sum itself |
| CascadeMultiplication.CascadeScalarMultiply | Dependencies/CryptoPP/algebra.cpp:97-170 | e1 x + e2 y for all e1, e2 and whatever window size is picked |
| CascadeMultiplication.BuildTable | Dependencies/CryptoPP/algebra.cpp:103-129 | fills exactly the slots i + 2^w j with an odd index, each with i x + j y; slots start empty, so none is read before it is filled |
| CascadeMultiplication.Scan | Dependencies/CryptoPP/algebra.cpp:131-169 | at the end of the scan the result is the combination of the whole exponents |
| CascadeMultiplication.EndWindow | Dependencies/CryptoPP/algebra.cpp:142-166 | at each window end the result is (e1>>i) x + (e2>>i) y, and only filled slots are looked up |
| CascadeMultiplication.FirstWindow | Dependencies/CryptoPP/algebra.cpp:99-154 | the first window that is ended is not zero, so the first lookup is of a filled slot |
| CascadeMultiplication.Doublings | Dependencies/CryptoPP/algebra.cpp:159-165 | n doublings multiply both coefficients by 2^n |
| CascadeMultiplication.ReadingBit | Dependencies/CryptoPP/algebra.cpp:137-138 | the powers accumulated are the exponent bits between window end and position |
| Heaps.PushHeap | Dependencies/CryptoPP/algebra.cpp:198 | restores the heap after its last element changed, keeping the elements |
| Heaps.PopHeap | Dependencies/CryptoPP/algebra.cpp:199 | moves the largest element last and leaves a heap before it, keeping the elements |
| Heaps.MakeHeap | Dependencies/CryptoPP/algebra.cpp:184 | makes a heap of the same elements |
| Heaps.RootIsLargest | Dependencies/CryptoPP/algebra.cpp:184-199 | no element of a heap is larger than its first |
| GeneralCascade.GeneralCascadeMultiplication | Dependencies/CryptoPP/algebra.cpp:172-204 | the sum of exponent times base over any non-empty list, whatever the elements are permuted to |
| GeneralCascade.LongCascade | Dependencies/CryptoPP/algebra.cpp:180-202 | the Euclid cascade over three or more terms returns their sum and terminates |
| GeneralCascade.StepKeepsSum | Dependencies/CryptoPP/algebra.cpp:189-196 | replacing the largest exponent by its remainder and adding quotient times its base to the next keeps the sum; the exponents' total falls by what was taken |
| GeneralCascade.FinishStep | Dependencies/CryptoPP/algebra.cpp:190-199 | one step keeps the sum and the largest-last arrangement and strictly decreases the exponent total |
| GeneralCascade.StepBounds | Dependencies/CryptoPP/algebra.cpp:189-199 | the changed elements before the last are still a heap and no exponent exceeds the former largest |
| GeneralCascade.Absorb | Dependencies/CryptoPP/algebra.cpp:193-196 | the shortcut for quotient one adds the same as the multiplication |
| GeneralCascade.OnlyLastLeft | Dependencies/CryptoPP/algebra.cpp:187-202 | when the next largest exponent is zero, the last term alone is the sum |
| Euclid.Gcd | Dependencies/CryptoPP/algebra.cpp:56-68 | a greatest common divisor of any two integers, through the rotating index loop |
| Euclid.StepKeepsDivisors | Dependencies/CryptoPP/algebra.cpp:61-65 | one step does not change the common divisors |
| Euclid.MultiplicativeInverse | Dependencies/CryptoPP/algebra.cpp:70-88 | for 0 <= a < m and m > 1 the result is an inverse exactly when a and m are coprime, and otherwise zero, and then no inverse exists |
| Euclid.LiveStep | Dependencies/CryptoPP/algebra.cpp:77-85 | both live pairs keep v a + u m = g, so v a = g modulo m |
| Euclid.InverseNeedsCoprime | Dependencies/CryptoPP/algebra.cpp:87 | an inverse modulo m exists only for numbers coprime to m |
| ParallelInversion.ParallelInvert | Dependencies/CryptoPP/ecp.cpp:250-285 | every element of any array is replaced by its own inverse, zeros included when the inverse of zero is zero, recursing on half as many |
| ParallelInversion.PairInverse | Dependencies/CryptoPP/ecp.cpp:268-281 | the product's inverse is zero exactly when a factor is zero; otherwise times the other factor it is each factor's inverse |
| EllipticCurves.SumCommutes | Dependencies/CryptoPP/ecp.cpp:218-233 | point addition is commutative in any field |
| EllipticCurves.OppositeLaws | Dependencies/CryptoPP/ecp.cpp:205-233 | the inverse point is on the curve and sums with the point to the identity |
| EllipticCurves.DoubleIsSum | Dependencies/CryptoPP/ecp.cpp:222-223 | adding a point to itself is doubling it |
| EllipticCurves.SumOnCurve | Dependencies/CryptoPP/ecp.cpp:218-248 | the sum of two points of the curve is on the curve, the double of one included, in any field of odd characteristic |
| EllipticCurves.PointsOnLine | Dependencies/CryptoPP/ecp.cpp:225-245 | the line of the slope that is computed, through P and Q or the tangent at P, meets the curve in P, Q and the inverse of the sum, and nowhere else |
| EllipticCurves.SumAndBack | Dependencies/CryptoPP/ecp.cpp:218-248 | a sum, also a double, with the inverse of one of its terms is the other term, when their x differ: the sum has the right sign |
| EllipticCurves.RealDoubling | Dependencies/CryptoPP/ecp.cpp:235-248 | on y^2 = x^3 - 2 over the reals twice (3, 5) is (1.29, -0.383) |
| EllipticCurves.CurveIsAbelian | Dependencies/CryptoPP/ecp.cpp:200-248 | the curve's points form an abelian group, given only that sums are associative: closure, identity, inverses and commutativity are proved |
| EllipticCurves.SmallCurveSums | Dependencies/CryptoPP/ecp.cpp:218-248 | the seven points of y^2 = x^3 - x + 1 over the field of three elements add as the numbers modulo seven |
| EllipticCurves.SmallCurveIsCurve | Dependencies/CryptoPP/ecp.cpp:203-248 | that curve meets what is assumed of curves, with these operations |
| Chords.MeetsCubic | Dependencies/CryptoPP/ecp.cpp:225-230 | a line through a point of the curve meets it in another point exactly when its slope and the two x satisfy a quadratic equation |
| Chords.ThirdPoint | Dependencies/CryptoPP/ecp.cpp:227-242 | t^2 - x1 - x2 satisfies that equation for both points |
| Chords.OnlyThirdPoint | Dependencies/CryptoPP/ecp.cpp:227-242 | and only this x and the second point's do |
| ProjectiveDoublings.DoublingIsAffine | Dependencies/CryptoPP/ecp.cpp:316-332 | in every field of odd characteristic one projective doubling is the affine doubling of (X/Z^2, Y/Z^3), infinity included |
| ProjectiveDoublings.FiniteDoubling | Dependencies/CryptoPP/ecp.cpp:316-332 | the same for points with non-zero Y and Z, where the tangent formula applies |
| ProjectiveDoublings.ProjectiveDoubling.constructor | Dependencies/CryptoPP/ecp.cpp:299-314 | starts at the given affine point with aZ4 sixteenY4 = a Z^4 |
| ProjectiveDoublings.ProjectiveDoubling.Double | Dependencies/CryptoPP/ecp.cpp:316-332 | keeps aZ4 sixteenY4 = a Z^4 over every run, doubles the affine point, and keeps Z zero once it is |
| EcpMultiplication.SimultaneousMultiply | Dependencies/CryptoPP/ecp.cpp:373-457 | for every list of exponents k >= 1 each result is exactly k P, and the mutual recursion terminates |
| EcpMultiplication.ScalarMultiply | Dependencies/CryptoPP/ecp.cpp:351-359 | k P for every k, short exponents by the group's own algorithm |
| EcpMultiplication.GeneralCascadeMultiplication | Dependencies/CryptoPP/algebra.cpp:172-204 | the cascade over curve points whose exponents have at most five bits, as the window size guarantees: the recursion ends |
| EcpMultiplication.LongCascade | Dependencies/CryptoPP/algebra.cpp:180-202 | the cascade loop on curve points, feeding back only quotients and remainders below 32 |
| EcpMultiplication.CascadeStep | Dependencies/CryptoPP/algebra.cpp:186-201 | one step of the loop on curve points keeps the sum and the bound of 32, and lowers the total of the exponents |
| EcpMultiplication.Absorb | Dependencies/CryptoPP/algebra.cpp:193-196 | adds quotient times base; the quotient is below 32 |
| EcpMultiplication.ShortExponent | Dependencies/CryptoPP/ecp.cpp:354-355 | an exponent below 32 has at most five bits, so it takes the branch that does not recurse |
| EcpMultiplication.ConvertBases | Dependencies/CryptoPP/ecp.cpp:422-433 | batched conversion gives every collected point its affine coordinates, leaving infinity alone |
| EcpMultiplication.CascadeSum | Dependencies/CryptoPP/ecp.cpp:435-454 | the cascade built from windows, indices and signs sums to the digits' sum times P |
| EcpMultiplication.MultiplyAll | Dependencies/CryptoPP/ecp.cpp:435-456 | every exponent's cascade is built from its windows and evaluates to its multiple |
| FixedBasePrecomputation.FixedBase.SetBase | Dependencies/CryptoPP/eprecomp.cpp:12-24 | keeps precomputed multiples only when the converted base is unchanged |
| FixedBasePrecomputation.FixedBase.Precompute | Dependencies/CryptoPP/eprecomp.cpp:26-40 | for storage >= 1 there are that many bases, each the previous one times 2^windowSize |
| FixedBasePrecomputation.FixedBase.PrepareCascade | Dependencies/CryptoPP/eprecomp.cpp:67-88 | the terms appended sum to exponent times base, for signed and unsigned digits alike |
| FixedBasePrecomputation.SignedDigit | Dependencies/CryptoPP/eprecomp.cpp:79-83 | a digit replaced by its complement times the inverse base, with a carry, is the same multiple |
| FixedBasePrecomputation.UnsignedDigit | Dependencies/CryptoPP/eprecomp.cpp:77-85 | a digit and the rest of the exponent times the next base are the exponent times this one |
| FixedBasePrecomputation.FixedBase.Exponentiate | Dependencies/CryptoPP/eprecomp.cpp:90-96 | exponent times the base that was set, in the group the caller sees, through the conversions in and out |
| FixedBasePrecomputation.FixedBase.CascadeExponentiate | Dependencies/CryptoPP/eprecomp.cpp:98-108 | e1 b1 + e2 b2 in the group the caller sees, over the bases of two tables |
| FixedBasePrecomputation.ConvertedMultiple | Dependencies/CryptoPP/eprecomp.cpp:95 | a conversion that respects addition and undoes the conversion in carries multiples over |
| FixedBasePrecomputation.FixedBaseMultiple | Dependencies/CryptoPP/eprecomp.cpp:12-96 | a new table, its base set, precomputed with any storage >= 1 and used: exponent times base in the caller's group, with conversions or without |
| FixedBasePrecomputation.FixedBaseCombination | Dependencies/CryptoPP/eprecomp.cpp:12-108 | the same for two tables: e1 b1 + e2 b2 |
| BlockQueues.BlockQueue.ResetQueue | Dependencies/CryptoPP/filters.cpp:236-243 | an empty queue of the new capacity |
| BlockQueues.BlockQueue.GetBlock | Dependencies/CryptoPP/filters.cpp:245-257 | the oldest whole block in one piece, never around the end, or nothing |
| BlockQueues.BlockQueue.GetContigousBlocks | Dependencies/CryptoPP/filters.cpp:259-268 | the oldest bytes as far as wanted, present and in one piece |
| BlockQueues.BlockQueue.GetAll | Dependencies/CryptoPP/filters.cpp:270-279 | all bytes in order, whether or not they go around the end |
| BlockQueues.BlockQueue.Put | Dependencies/CryptoPP/filters.cpp:281-290 | appends at the end of the contents, around the end of the buffer if need be: with the getters, a FIFO |
| BlockQueues.RingTake | Dependencies/CryptoPP/filters.cpp:249-266 | what moving the begin pointer takes is the front of the ring, and the rest stays |
| BlockQueues.RingPut | Dependencies/CryptoPP/filters.cpp:284-289 | what writing behind the last byte adds is the input at the ring's end |
| BufferedFilters.FilterWithBufferedInput.Create | Dependencies/CryptoPP/filters.cpp:297-304 | a filter exactly for sizes that are possible |
| BufferedFilters.FilterWithBufferedInput.Put | Dependencies/CryptoPP/filters.cpp:328-416 | whatever the pieces, the calls made so far are a partial cut of the message so far, and complete at the message's end |
| BufferedFilters.FilterWithBufferedInput.TakeFirst | Dependencies/CryptoPP/filters.cpp:337-348 | the first block goes out as soon as it is complete, and the queue is set up for blocks |
| BufferedFilters.FilterWithBufferedInput.PutMiddle | Dependencies/CryptoPP/filters.cpp:350-398 | all whole blocks but the last bytes go out in order; the queue holds the rest and never exceeds its capacity |
| BufferedFilters.FilterWithBufferedInput.DrainBytes | Dependencies/CryptoPP/filters.cpp:352-369 | the case of blocks of one byte: two pieces from the ring at most, then from the input |
| BufferedFilters.FilterWithBufferedInput.DrainBlocks | Dependencies/CryptoPP/filters.cpp:370-395 | the case of larger blocks: from the queue, one block completed across, then from the input |
| BufferedFilters.FilterWithBufferedInput.EndMessage | Dependencies/CryptoPP/filters.cpp:401-414 | the rest goes to LastPut, also when nothing came, and the filter is as new |
| BufferedFilters.ChunkingIsIrrelevant | Dependencies/CryptoPP/filters.cpp:328-416 | however a message was cut on the way in, first, middle and last parts are those of the one-shot cut |
| BufferedFilters.SplitIsUnique | Dependencies/CryptoPP/filters.cpp:350-398 | only one number of middle bytes meets the blocking and keep-back conditions |
| BufferedFilters.LastLength | Dependencies/CryptoPP/filters.h:186-189 | the length given to LastPut meets its documented contract in all three cases |
| BufferedFilters.QueueIsLargeEnough | Dependencies/CryptoPP/filters.cpp:343 | (2B+L-2)/B blocks hold what is ever kept back and a block being completed |
| StreamTransformations.StreamTransformationFilter.Put | Dependencies/CryptoPP/filters.cpp:328-416 | any pieces of a message give, at its end, the output, state and error of the message transformed in one go |
| StreamTransformations.StreamTransformationFilter.NextPut | Dependencies/CryptoPP/filters.cpp:589-620 | middle blocks run through the cipher, whose state and output stay those of the bytes so far |
| StreamTransformations.StreamTransformationFilter.LastPut | Dependencies/CryptoPP/filters.cpp:622-712 | pads and encrypts, or decrypts and unpads, the last block, or refuses it, by scheme |
| StreamTransformations.StreamTransformationFilter.LastUnpadded | Dependencies/CryptoPP/filters.cpp:628-660 | zeros or nothing are added, and an incomplete block without padding is refused with the error of its direction |
| StreamTransformations.StreamTransformationFilter.PadAndEncrypt | Dependencies/CryptoPP/filters.cpp:668-685 | PKCS and one-and-zeros padding always make a whole block more or complete one |
| StreamTransformations.StreamTransformationFilter.DecryptAndUnpad | Dependencies/CryptoPP/filters.cpp:686-706 | strips padding that padding could have made and refuses all other |
| StreamTransformations.UnpadInvertsPad | Dependencies/CryptoPP/filters.cpp:662-706 | unpadding accepts a block exactly when padding makes it, and returns what was padded |
| StreamTransformations.RoundTrip | Dependencies/CryptoPP/filters.cpp:555-712 | for any invertible cipher and every message, decrypting undoes encrypting with PKCS (section 6.3 of RFC 5652) or one-and-zeros padding, and both reach the same state |
| StreamTransformations.RoundTripUnpadded | Dependencies/CryptoPP/filters.cpp:628-660 | without padding, or with zeros, the message comes back exactly when it fills its blocks |
| StreamTransformations.ProcessConcatenation | Dependencies/CryptoPP/filters.cpp:596-613 | running the cipher over pieces of whole blocks is running it over all of them |
| StreamTransformations.TransformMessage | Dependencies/CryptoPP/filters.cpp:328-416 | a new filter fed a message in any pieces computes the one-shot transformation |
| StreamTransformations.EncryptAndDecrypt | Dependencies/CryptoPP/filters.cpp:555-712 | encryption at one end and decryption at the other, each cutting its input its own way, return the message |
| StreamTransformations.ProcessOneBlock | Dependencies/CryptoPP/filters.cpp:589-613 | a block is encrypted or decrypted by itself from the state before it |
| PaddedMessages.EncryptedPkcs | Dependencies/CryptoPP/filters.cpp:673-677 | with PKCS padding the output is the cipher run once over the message and k octets of value k, where k completes the last block and is a whole block behind a message that fills its blocks |
| PaddedMessages.EncryptedOneAndZeros | Dependencies/CryptoPP/filters.cpp:678-685 | with one-and-zeros padding it is the cipher run over the message, the octet 0x80 and zeros up to a whole block |
| PaddedMessages.EncryptedZeros | Dependencies/CryptoPP/filters.cpp:633-642 | with zeros padding it is the cipher run over the message and the fewest zeros that fill its blocks |
| PaddedMessages.EncryptedUnpadded | Dependencies/CryptoPP/filters.cpp:628-660 | without padding it is the cipher run over a message that fills its blocks, and any other is refused |
| PaddedMessages.DecryptedPkcs | Dependencies/CryptoPP/filters.cpp:686-706 | decryption gives a message exactly when the data are whole blocks and the cipher decrypts them to the message and k octets of value k |
| PaddedMessages.DecryptedOneAndZeros | Dependencies/CryptoPP/filters.cpp:686-706 | or to the message, the octet 0x80 and zeros |
| PaddedMessages.DecryptedUnpadded | Dependencies/CryptoPP/filters.cpp:628-660 | without padding or with zeros it gives all that the cipher decrypts, of whole blocks only |
| BaseCodes.Encoder.Create | Dependencies/CryptoPP/basecode.cpp:13-37 | an encoder exactly for letters of 1 to 7 bits |
| BaseCodes.Encoder.constructor | Dependencies/CryptoPP/basecode.cpp:31-36 | the block size found by the loop is the smallest whole number of bytes in letters |
| BaseCodes.Encoder.PackByte | Dependencies/CryptoPP/basecode.cpp:47-70 | a byte's eight bits are appended to the bits in the buffer's cells, across cell ends |
| BaseCodes.PackPiece | Dependencies/CryptoPP/basecode.cpp:49-69 | one round of the inner loop moves as many bits as the cell takes, losing none |
| BaseCodes.Encoder.PutByte | Dependencies/CryptoPP/basecode.cpp:42-85 | after each byte, letters put out and bits held make up the message so far; full buffers go out |
| BaseCodes.Encoder.ToLetters | Dependencies/CryptoPP/basecode.cpp:75-80 | digits are replaced by their letters in place |
| BaseCodes.Encoder.Finish | Dependencies/CryptoPP/basecode.cpp:86-102 | what goes out at the end completes the encoding, with padding to a whole block where there is padding |
| BaseCodes.Encoder.Put | Dependencies/CryptoPP/basecode.cpp:39-104 | any pieces of a message encode to the encoding of section 4 of RFC 4648 for the alphabet |
| BaseCodes.Decoder.Create | Dependencies/CryptoPP/basecode.cpp:106-122 | a decoder exactly for letters of 1 to 7 bits, with any lookup table |
| BaseCodes.Decoder.constructor | Dependencies/CryptoPP/basecode.cpp:116-121 | the block size found by the loop is the smallest whole number of letters in bytes |
| BaseCodes.WriteLetter | Dependencies/CryptoPP/basecode.cpp:137-145 | a letter's bits are appended to the bits in the byte cells, over a cell end if need be; bits that are too many for a letter are or-ed into the byte it begins in |
| BaseCodes.StreamOfLetters | Dependencies/CryptoPP/basecode.cpp:136-145 | values that fit their bits are spelled in full, one after the other |
| BaseCodes.Decoder.PutCharacter | Dependencies/CryptoPP/basecode.cpp:127-160 | after each character, bytes put out and bits held make up the letters so far; what is no letter is skipped |
| BaseCodes.Decoder.Put | Dependencies/CryptoPP/basecode.cpp:124-167 | any pieces of a text decode to the bytes its letters make up, incomplete bits dropped at the end |
| BaseCodes.DecodeEncoding | Dependencies/CryptoPP/basecode.cpp:39-167 | letters decode to the message they encode, whatever that is no letter lies between them |
| BaseCodes.ValuesOfEncoding | Dependencies/CryptoPP/basecode.cpp:86-132 | the decoder sees exactly the encoder's digits; padding outside the alphabet has no value |
| BitStrings.DigitsUnique | Dependencies/CryptoPP/basecode.cpp:49-69 | only one digit string spells given bits with less than a digit of zeros added |
| BitStrings.OctetsUnique | Dependencies/CryptoPP/basecode.cpp:134-166 | the bytes read off a byte string's bits are that byte string, also with up to seven bits more |
| BitStrings.PackMore | Dependencies/CryptoPP/basecode.cpp:53-66 | or-ing bits into the free end of a cell appends them to what the cells hold |
| TextCodecs.InitializeDecodingLookupArray | Dependencies/CryptoPP/basecode.cpp:169-188 | the table finds the letter each character stands for, in either case if asked, and -1 for all others |
| TextCodecs.TableInverts | Dependencies/CryptoPP/basecode.cpp:173-187 | the table gives every character the value of the letter it stands for exactly when the alphabet is unambiguous, which is what the assertions check; it then inverts the alphabet |
| TextCodecs.Grouper.PutGroup | Dependencies/CryptoPP/basecode.cpp:212-222 | fills up the group, with the separator first when it is full |
| TextCodecs.Grouper.Put | Dependencies/CryptoPP/basecode.cpp:205-234 | any pieces of a text come out grouped as the whole text, with the terminator at its end |
| TextCodecs.ValuesOfGroups | Dependencies/CryptoPP/basecode.cpp:205-234 | separators outside the alphabet change no letter's value or order |
| TextCodecs.DecodingUndoesGroupedEncoding | Dependencies/CryptoPP/basecode.cpp:39-234 | encoding, grouping and decoding give every message back, for 1 to 7 bits a letter, any unambiguous alphabet, and padding, separator and terminator outside it |
| TextCodecs.EncodeText | Dependencies/CryptoPP/basecode.cpp:39-234 | an encoder attached to a grouper, fed any pieces, computes the grouped encoding of the message |
| TextCodecs.DecodeText | Dependencies/CryptoPP/basecode.cpp:124-167 | a decoder fed any pieces computes the decoding of the text |
| TextCodecs.Base64RoundTrip | Dependencies/CryptoPP/base64.cpp:8-27 | Base64 without line breaks or with lines of any length is read back, for every message |
| BaseTexts.EncodingIs | Dependencies/CryptoPP/basecode.cpp:39-104 | a text is the letters of digits that spell the message's bits with less than a digit of zeros added, and then padding characters, as few as make the letters whole bytes; none without a padding character |
| BaseTexts.EncodesBase64 | Dependencies/CryptoPP/base64.cpp:8-27 | every character of the Base64 text of every message: four for three bytes, and at the end two with == for one byte and three with = for two (section 4 of RFC 4648) |
| BaseTexts.Base64Length | Dependencies/CryptoPP/base64.cpp:8-27 | Base64 text has four characters for every three bytes begun |
| BaseTexts.AlphabetRows | Dependencies/CryptoPP/base64.cpp:8-9 | the alphabet is A to Z, a to z, 0 to 9, + and / |
| BaseTexts.Base64Vectors | Dependencies/CryptoPP/base64.cpp:8-27 | "f" is "Zg==" and "fo" is "Zm8=" (section 10 of RFC 4648), and FB EF FF is "++//" |
| BaseTexts.CaseIgnored | Dependencies/CryptoPP/basecode.cpp:173-187 | without regard to case a letter stands for itself and for the character 32 away that is the same letter |
| BaseTexts.GroupsAreLines | Dependencies/CryptoPP/basecode.cpp:205-234 | a grouped text is lines of the group size, the last one not empty, with the separator between them only |
| BlockChaining.AdvancedProcessBlocks | Dependencies/CryptoPP/cryptlib.cpp:134-170 | with the register as input and output and the data xor-ed in: the register is chained over the whole blocks, and the number of bytes left over is returned |
| BlockChaining.AbsorbMore | Dependencies/CryptoPP/authenc.cpp:11-46 | a stream can be absorbed in pieces: only chaining value and unchained bytes matter |
| BlockChaining.AbsorbBlocks | Dependencies/CryptoPP/cryptlib.cpp:153-167 | chaining whole blocks ahead gives the same state, as long as enough is kept back |
| BlockChaining.ClosedIsChain | Dependencies/CryptoPP/ccm.cpp:108-113 | ending a stream with a zero-filled block is chaining the zero-padded stream |
| BlockChaining.FoldMore | Dependencies/CryptoPP/cmac.cpp:68-72 | xor-ing input behind the octets already folded in appends it to them |
| CbcMacs.CbcMac.Update | Dependencies/CryptoPP/cbcmac.cpp:16-41 | any pieces leave the state of the message so far |
| CbcMacs.CbcMac.PutOctet | Dependencies/CryptoPP/cbcmac.cpp:22-24 | one octet is folded in, and a complete block processed |
| CbcMacs.CbcMac.ProcessBuf | Dependencies/CryptoPP/cbcmac.cpp:54-58 | the register goes through the cipher and the counter is reset |
| CbcMacs.CbcMac.TruncatedFinal | Dependencies/CryptoPP/cbcmac.cpp:43-52 | the first octets of the chain over the zero-padded message, then a fresh start; too large a size is refused |
| Cmacs.MulU | Dependencies/CryptoPP/cmac.cpp:11-41 | doubles a key of any size in place, by byte pairs with alternating carries, and refuses exactly a carry out of a size other than 8, 16 and 32 |
| Cmacs.DoubledBits | Dependencies/CryptoPP/cmac.cpp:11-41 | doubling is, on bit strings, the shift and conditional reduction of section 6.1 of NIST SP 800-38B |
| Cmacs.ShiftedLeftBits | Dependencies/CryptoPP/cmac.cpp:15-21 | the byte-wise shift drops the first bit and appends a zero |
| Cmacs.DeriveSubkeys | Dependencies/CryptoPP/cmac.cpp:48-55 | the register's other two blocks become both subkeys, unless a doubling is refused |
| Cmacs.Cmac.Create | Dependencies/CryptoPP/cmac.cpp:43-56 | setting the key derives the subkeys and starts an empty message; a cipher is refused exactly when one of the doublings is |
| Cmacs.UsualSizes | Dependencies/CryptoPP/cmac.cpp:26-36 | no cipher with blocks of 8, 16 or 32 bytes is refused |
| Cmacs.Cmac.TopUp | Dependencies/CryptoPP/cmac.cpp:66-79 | a block begun is topped up, and processed only when more follows |
| Cmacs.Cmac.TakeBlocks | Dependencies/CryptoPP/cmac.cpp:81-87 | all blocks but the last one, which may be full, are processed |
| Cmacs.Cmac.Update | Dependencies/CryptoPP/cmac.cpp:58-97 | any pieces leave the state of the message so far |
| Cmacs.Cmac.FinishBlock | Dependencies/CryptoPP/cmac.cpp:106-112 | the last block, marked and padded if incomplete, with its subkey, goes through the cipher |
| Cmacs.Cmac.TruncatedFinal | Dependencies/CryptoPP/cmac.cpp:99-118 | the first octets of the MAC of section 6.2 of SP 800-38B, then a fresh start; too large a size is refused |
| Cmacs.MacOfAbsorbed | Dependencies/CryptoPP/cmac.cpp:58-112 | the MAC depends on the message only through chaining value and last block |
| Cmacs.MacOfPieces | Dependencies/CryptoPP/cmac.cpp:58-118 | for every cipher that is not refused and every split of a message into updates, the one-shot MAC |
| MacFormats.MacOfWholeBlocks | Dependencies/CryptoPP/cmac.cpp:106-112 | with L the encrypted zero block, the MAC of a message of whole blocks, not empty, chains it with its last block xor-ed with L doubled |
| MacFormats.MacOfPartBlock | Dependencies/CryptoPP/cmac.cpp:106-112 | that of any other message chains its whole blocks and then, xor-ed with L doubled twice, the rest of its bits, a one and zeros |
| MacFormats.ReductionBits | Dependencies/CryptoPP/cmac.cpp:25-32 | the constants for blocks of 8 and 16 bytes are u^4 + u^3 + u + 1 and u^7 + u^2 + u + 1 |
| MacFormats.SubkeyVector1 | Dependencies/CryptoPP/cmac.cpp:11-41 | the first subkey of section 4 of RFC 4493 from its L |
| MacFormats.SubkeyVector2 | Dependencies/CryptoPP/cmac.cpp:11-41 | the second subkey from the first, with a reduction |
| BlockChaining.ChainConcatenation | Dependencies/CryptoPP/cryptlib.cpp:152-167 | whole blocks are chained one after the other |
| BlockChaining.OneBlock | Dependencies/CryptoPP/cryptlib.cpp:152-158 | one block is xor-ed into the state and goes through the cipher |
| MacFormats.PaddedIs | Dependencies/CryptoPP/ccm.cpp:108-113 | a padded stream is the stream and zeros, as few as make whole blocks |
| AuthenticatedCiphers.Ccm.AuthenticateData | Dependencies/CryptoPP/authenc.cpp:11-46 | the CBC state and the buffered bytes absorb the input |
| AuthenticatedCiphers.Ccm.Create | Dependencies/CryptoPP/ccm.cpp:11-26 | exactly for block size 16 and even digest sizes from 4 to 16 |
| AuthenticatedCiphers.Ccm.Resynchronize | Dependencies/CryptoPP/authenc.cpp:62-73 | a nonce of 7 to 13 bytes starts a message; another length leaves only the key set |
| AuthenticatedCiphers.Ccm.StartCounter | Dependencies/CryptoPP/ccm.cpp:37-46 | the counter block is A_0 of section 2.3 of RFC 3610 and the key stream starts at S_1 |
| AuthenticatedCiphers.Ccm.SpecifyDataLengths | Dependencies/CryptoPP/cryptlib.cpp:197-209 | lengths are accepted exactly when they are in range and the nonce is set, and what the CBC state and the waiting bytes become; otherwise nothing changes |
| AuthenticatedCiphers.Ccm.UncheckedSpecifyDataLengths | Dependencies/CryptoPP/ccm.cpp:51-91 | in the right state the first block is chained and the header length waits in the buffer, also when lengths are announced again after data |
| AuthenticatedCiphers.Ccm.PutFirstBlock | Dependencies/CryptoPP/ccm.cpp:62-65 | the block written is B_0 of section 2.2 of RFC 3610, though the length is written over eight bytes first |
| AuthenticatedCiphers.Ccm.PutLengthPrefix | Dependencies/CryptoPP/ccm.cpp:67-90 | the header's length is encoded in 2, 6 or 10 octets |
| AuthenticatedCiphers.WordSuffix | Dependencies/CryptoPP/ccm.cpp:63-64 | the nonce leaves of the eight length bytes exactly the length in its own field |
| AuthenticatedCiphers.Ccm.Update | Dependencies/CryptoPP/authenc.cpp:75-102 | header before the message, footer after it, an error in the wrong state or when the message length is not the announced one |
| AuthenticatedCiphers.Ccm.ProcessData | Dependencies/CryptoPP/authenc.cpp:104-134 | encrypts or decrypts with the key stream and authenticates the plaintext in either direction; exactly when it is refused, and how |
| AuthenticatedCiphers.Ccm.AuthenticateLastHeaderBlock | Dependencies/CryptoPP/ccm.cpp:100-114 | closes the header, if its length is the announced one |
| AuthenticatedCiphers.Ccm.AuthenticateLastConfidentialBlock | Dependencies/CryptoPP/ccm.cpp:116-130 | closes the message, if its length is the announced one |
| AuthenticatedCiphers.Ccm.TruncatedFinal | Dependencies/CryptoPP/authenc.cpp:136-176 | exactly when it succeeds, announced or not, and that the result is the closed CBC state under S_0; after announced lengths it is the tag of RFC 3610 |
| AuthenticatedCiphers.MessageStateIsMac | Dependencies/CryptoPP/ccm.cpp:93-130 | the final CBC state is the CBC-MAC of B_0, padded header and padded message of section 2.2 of RFC 3610 |
| AuthenticatedCiphers.CryptInverts | Dependencies/CryptoPP/authenc.cpp:123-129 | decryption with the same nonce undoes encryption |
| AuthenticatedCiphers.Run | Dependencies/CryptoPP/cryptlib.cpp:211-227 | announced, fed in any pieces and finished: the ciphertext and tag of RFC 3610, refused exactly when a length cannot be announced |
| AuthenticatedCiphers.EncryptAndDecrypt | Dependencies/CryptoPP/authenc.cpp:62-176 | encryption at one end and decryption at the other, each cutting header and text its own way, return the message and the same tag |
| MacFormats.BlocksArePrefixFree | Dependencies/CryptoPP/ccm.cpp:51-130 | for one tag size and lengths that fit their fields, the formatted blocks of one nonce, header and message are a prefix of another's only when all three are the same |
| MacFormats.FlagsFields | Dependencies/CryptoPP/ccm.cpp:62 | the first octet is a clear bit, the header bit 0x40, three bits with half the tag size less one, and three with the size of the length less one |
| MacFormats.FirstBlockReads | Dependencies/CryptoPP/ccm.cpp:62-64 | the first block tells the nonce, whether there is a header, and the message's length |
| MacFormats.PrefixUnique | Dependencies/CryptoPP/ccm.cpp:67-90 | the header's length can be read off the front of what follows, in each of its three forms |
| MacFormats.PacketVector1 | Dependencies/CryptoPP/ccm.cpp:37-91 | with the sizes of packet vector #1 in section 8 of RFC 3610, B_0 is 59, the nonce, 00 17, B_1 begins with 00 08, and A_0 is 01, the nonce, 00 00 |
| MacFormats.KeystreamUse | Dependencies/CryptoPP/ccm.cpp:37-46 | the tag takes the key stream from A_0 at position 0 and the message from position 16 |
| MacFormats.Powers | Dependencies/CryptoPP/ccm.h:41-44 | the limits of lengths of two to eight octets |
| Adler32.Adler32.Update | Dependencies/CryptoPP/adler32.cpp:8-54 | for every length and split, the fields are the byte-by-byte sums modulo 65521; no 32-bit word overflows, as every operation on one is checked |
| Adler32.AddUntilAligned | Dependencies/CryptoPP/adler32.cpp:15-22 | up to seven bytes first, whose sums stay in their words |
| Adler32.AddEight | Dependencies/CryptoPP/adler32.cpp:31-38 | eight bytes without a reduction add a bounded amount |
| Adler32.UpdateEight | Dependencies/CryptoPP/adler32.cpp:29-47 | a single subtraction reduces s1 and s2 is reduced in time |
| Adler32.StillBounded | Dependencies/CryptoPP/adler32.cpp:40-46 | reducing s2 when the remaining length is a multiple of 0x8000 keeps it in bounds in between |
| Adler32.RoomForEight | Dependencies/CryptoPP/adler32.cpp:31-46 | the bound leaves room in 32 bits for eight bytes more |
| Adler32.AddByte | Dependencies/CryptoPP/adler32.cpp:19-20 | unreduced sums stay congruent to those of section 2.2 of RFC 1950 |
| Adler32.Adler32.TruncatedFinal | Dependencies/CryptoPP/adler32.cpp:56-75 | the checksum's first bytes, s2 before s1, then a fresh start; more than four bytes are refused |
| Adler32.ChecksumSums | Dependencies/CryptoPP/adler32.cpp:8-54 | s1 is one more than the sum of the bytes and s2 their number and the sum of the bytes weighted by how many follow, both modulo 65521 |
| Adler32.ChecksumVectors | Dependencies/CryptoPP/adler32.cpp:56-75 | nothing has the checksum 00 00 00 01, and "a" 00 62 00 62 |
| BerLengths.DERLengthEncode | Dependencies/CryptoPP/asn.cpp:16-35 | length octets of section 8.1.3 of X.690 for every 64-bit length |
| BerLengths.BERLengthDecode | Dependencies/CryptoPP/asn.cpp:37-73 | reads definite and indefinite lengths and tells truncation and overflow |
| BerLengths.LengthRoundTrip | Dependencies/CryptoPP/asn.cpp:16-73 | every 64-bit length is read back, whatever follows it |
| BerLengths.ReadBigEndian | Dependencies/CryptoPP/asn.cpp:59-70 | the overflow check never refuses a 64-bit word |
| BerTrees.DERGeneralEncoder.MessageEnd | Dependencies/CryptoPP/asn.cpp:502-509 | tag, length and contents go behind the outer queue |
| BerTrees.EncodeNode | Dependencies/CryptoPP/asn.cpp:480-509 | encoders inside encoders write the DER of a tree |
| BerTrees.BeginDecoder | Dependencies/CryptoPP/asn.cpp:386-397 | opens on the expected tag, refusing a primitive value of indefinite length, and limits reading to a definite length |
| BerTrees.EndDecoder | Dependencies/CryptoPP/asn.cpp:437-451 | closes only when a definite length is used up or the end-of-contents octets are next |
| BerLengths.Source.Take | Dependencies/CryptoPP/asn.cpp:453-478 | reading through nested decoders reduces what is left at every level |
| BerLengths.LimitReduced | Dependencies/CryptoPP/asn.cpp:453-478 | the innermost limit stays the smallest of all as they are reduced together |
| BerTrees.DecodeAll | Dependencies/CryptoPP/asn.cpp:410-420 | values up to the decoder's end, exactly when the contents parse |
| BerTrees.DecodeNode | Dependencies/CryptoPP/asn.cpp:374-451 | a value read through a decoder of its own is the tree its bytes denote, with nothing else taken, exactly when they denote one |
| BerTrees.ParseDer | Dependencies/CryptoPP/asn.cpp:386-509 | every tree in DER, whatever its tags, denotes itself and leaves nothing over |
| BerTrees.WriteAndRead | Dependencies/CryptoPP/asn.cpp:374-509 | a tree written by the encoders and read by the decoders comes back, with nothing left over |
| BerTrees.DERReencode | Dependencies/CryptoPP/asn.cpp:201-216 | copies a value of definite length and reencodes the inside of one of indefinite length, or fails |
| BerTrees.ReencodingKeepsTree | Dependencies/CryptoPP/asn.cpp:201-216 | a value that denotes a tree is reencoded as bytes that denote the same tree |
| BerTrees.ReencodingIsStable | Dependencies/CryptoPP/asn.cpp:201-216 | what has been reencoded is not changed by reencoding it |
| BerTrees.ReencodedSize | Dependencies/CryptoPP/asn.cpp:201-216 | reencoding at most triples the size |
| DerReencoding.ReencodingMakesDer | Dependencies/CryptoPP/asn.cpp:201-216 | the result is the DER of its tree exactly when every constructed value that is copied has, down to its leaves, definite lengths in the fewest octets |
| DerReencoding.DerInFrontIsDer | Dependencies/CryptoPP/asn.cpp:201-216 | bytes are the DER of the tree they denote exactly when every header in them has a definite length in the fewest octets |
| DerReencoding.DerSize | Dependencies/CryptoPP/asn.cpp:201-216 | the DER of a tree has at most five times the octets of any BER of it |
| DerReencoding.CopiedInside | Dependencies/CryptoPP/asn.cpp:206-207 | 30 04 30 80 00 00 is copied unchanged, though the DER of its tree is 30 02 30 00 |
| Asn1Values.EncodeValue | Dependencies/CryptoPP/asn.cpp:218-223 | the seven-bit groups of a 32-bit word, from the highest that is not zero |
| Asn1Values.DecodeValue | Dependencies/CryptoPP/asn.cpp:225-240 | reads one arc in a 32-bit word that drops what is shifted out |
| Asn1Values.Base128RoundTrip | Dependencies/CryptoPP/asn.cpp:218-240 | decoding undoes encoding for every 32-bit word |
| Asn1Values.OID.DEREncode | Dependencies/CryptoPP/asn.cpp:242-252 | tag, length and contents with the first two arcs in one octet |
| Asn1Values.OID.BERDecode | Dependencies/CryptoPP/asn.cpp:254-281 | reads the arcs, refusing one that reaches past the length |
| Asn1Values.OidRoundTrip | Dependencies/CryptoPP/asn.cpp:242-281 | an identifier comes back exactly when its second arc is below 40 and its first two fit one octet |
| Asn1Values.FortyEight | Dependencies/CryptoPP/asn.cpp:242-281 | 2.48 comes back as 3.8 |
| Asn1Values.DEREncodeUnsigned | Dependencies/CryptoPP/asn.h:295-320 | the fewest octets that leave the number non-negative (section 8.3.2 of X.690) |
| Asn1Values.BERDecodeUnsigned | Dependencies/CryptoPP/asn.h:326-356 | a number with this tag that fits its word and range, also with leading zeros |
| Asn1Values.UnsignedRoundTrip | Dependencies/CryptoPP/asn.h:295-356 | decoding undoes encoding exactly for numbers in range and, with the Boolean tag, for 0 and 255 |
| Asn1Values.BooleanTwo | Dependencies/CryptoPP/asn.h:300-304 | with the Boolean tag, 2 comes back as 255 |
| WireBytes.LengthOctetsAre | Dependencies/CryptoPP/asn.cpp:16-35 | a length below 0x80 is one octet; any other is 0x80 and the number of its octets, and these big-endian without a zero in front (section 10.1 of X.690) |
| WireBytes.LengthRead | Dependencies/CryptoPP/asn.cpp:49-71 | a counted length is read, leading zeros included, as the number its octets make up exactly when that fits 64 bits, and is an overflow otherwise |
| WireBytes.TagBits | Dependencies/CryptoPP/asn.h:12-44 | the constructed bit is 0x20, and the tags of Booleans and identifiers are 1 and 6 |
| WireBytes.UnsignedOctetsAre | Dependencies/CryptoPP/asn.h:295-320 | an unsigned number's octets make it up, have a clear top bit and do not begin with nine zero bits |
| WireBytes.UnsignedRead | Dependencies/CryptoPP/asn.h:326-356 | a number is read from any octets that make it up exactly when it fits its word and is in range |
| WireBytes.Base128Is | Dependencies/CryptoPP/asn.cpp:218-223 | an arc's septets make it up; all octets but the last have the top bit, and the first is not 0x80 (section 8.19.2 of X.690) |
| WireBytes.ValueVectors | Dependencies/CryptoPP/asn.h:295-320 | lengths 127, 201 and 435 are 7F, 81 C9 and 82 01 B3; INTEGER 128 is 02 02 00 80, and BOOLEANs are 01 01 FF and 01 01 00 |
| WireBytes.IdentifierVector | Dependencies/CryptoPP/asn.cpp:242-252 | 1.2.840.113549 is 06 06 2A 86 48 86 F7 0D |
| WireBytes.TreeVector | Dependencies/CryptoPP/asn.cpp:480-509 | a sequence of INTEGER 5 and a Boolean is 30 06 02 01 05 01 01 FF |
| WireBytes.IndefiniteVector | Dependencies/CryptoPP/asn.cpp:386-451 | 30 80 02 01 05 01 01 FF 00 00 denotes that tree |
| ByteBuffers.ByteBuffer.Append | Proxy/ByteBuffer.h:237-251 | writes at the write position, extends the storage with zeros if need be, and appends when the position is at the end |
| ByteBuffers.ByteBuffer.Read | Proxy/ByteBuffer.h:197-204 | reads at the read position exactly as far as the 16-bit size allows, and fails otherwise |
| ByteBuffers.WordRoundTrip32 | Proxy/SequencedPacket.cpp:29-31 | words survive storing, loading and swapping |
| Frames.GetContentsWithSize | Proxy/TCPVariableLengthPacket.cpp:25-44 | one size byte up to 0x7f, otherwise two with the top bit set, then what the 16-bit size shows of the payload |
| Frames.StripHeader | Proxy/TCPVariableLengthPacket.cpp:8-23 | drops one or two header bytes by the first one's top bit; too short a packet is refused |
| Frames.ReceivePacket | Proxy/stprog.cpp:216-280 | the next whole frame of the stream, header put back, or the end |
| Frames.ReceivePackets | Proxy/stprog.cpp:216-290 | the loop cuts a stream into its frames |
| Frames.CutIsPrefix | Proxy/stprog.cpp:409-489 | the packets, put together, are the stream up to an incomplete frame |
| Frames.CutOfFrames | Proxy/stprog.cpp:216-290 | any sequence of payloads up to 0x7FFF bytes, framed and concatenated, is cut into exactly those frames |
| Frames.FrameFound | Proxy/TCPVariableLengthPacket.cpp:8-44 | a frame is found whole whatever follows it, and without its header is its payload |
| Frames.DeliveredExactlyWhenFits | Proxy/TCPVariableLengthPacket.cpp:25-44 | a payload comes out of its own frame exactly when it has at most 0x7FFF bytes |
| ProxyPackets.SequencedPacket.GetDataWithHeader | Proxy/SequencedPacket.cpp:52-60 | state and both 12-bit numbers big-endian in front of the data |
| ProxyPackets.SequencedPacket.Parse | Proxy/SequencedPacket.cpp:24-42 | numbers and data out of a packet; one without a header is refused |
| ProxyPackets.SequencedPacket.FromString | Proxy/SequencedPacket.cpp:44-50 | the packet is empty and its numbers are what the memory held, whatever the string |
| ProxyPackets.StringConstructorAgrees | Proxy/SequencedPacket.cpp:24-50 | that is the packet that was sent exactly when it had no data and the memory already held its numbers |
| ProxyPackets.SequencedRoundTrip | Proxy/SequencedPacket.cpp:24-60 | parsing undoes adding the header exactly for 12-bit numbers and packets whose size fits 16 bits |
| ProxyPackets.ThirteenBits | Proxy/SequencedPacket.cpp:24-60 | the number 4096 comes back as 0 |
| ProxyPackets.EncryptedPacket.ToCipherText | Proxy/EncryptedPacket.cpp:91-138 | vector and ciphertext of checksum, length, time and payload; nothing is not encrypted |
| ProxyPackets.EncryptedPacket.FromCipherText | Proxy/EncryptedPacket.cpp:33-89 | the payload if decryption, checksum and length agree, and which of them fails otherwise |
| ProxyPackets.OpensExactlyWhenSizeShows | Proxy/EncryptedPacket.cpp:33-138 | a sealed payload opens to itself exactly up to 65493 bytes, where the packet's size fits 16 bits |
| ProxyPackets.FrameLimit | Proxy/EncryptedPacket.cpp:117-138 | the sealed packet fits a frame exactly up to 32725 bytes of payload |
| ProxyPackets.TcpStack | Proxy/stprog.cpp:216-290 | any sequence of payloads up to 32725 bytes, sealed, framed and concatenated, is cut, stripped and opened to those payloads |
| ProxyPackets.ArrivesExactlyWhenFits | Proxy/stprog.cpp:216-290 | a payload arrives through the whole stack exactly when it has at most 32725 bytes |
| ProxyPackets.UdpStack | Proxy/EncryptedPacket.cpp:33-138 | sequence numbers and data inside an encrypted datagram come back exactly when the numbers have 12 bits and the data at most 65489 bytes |
| ProxyPackets.ShortestLost | Proxy/EncryptedPacket.cpp:33-138 | the first sizes that are lost: 32726 bytes over TCP, 65494 in a packet, 0x8000 in a frame |
| ProxyBytes.FrameBytes | Proxy/TCPVariableLengthPacket.cpp:25-44 | a frame is the size in one octet below 0x80, otherwise 0x80 and its high octet and then its low one, and the payload |
| ProxyBytes.FrameRead | Proxy/stprog.cpp:216-280 | a size is read from one or two octets, also when one would do, and a frame is there when that many octets follow |
| ProxyBytes.SequencedBytes | Proxy/SequencedPacket.cpp:52-60 | a sequenced packet is the state, twelve bits of remote and twelve of local number, and the data |
| ProxyBytes.SealedBytes | Proxy/EncryptedPacket.cpp:91-138 | an encrypted packet is the vector and the cipher run over checksum, length, time and payload, both numbers lowest octet first, filled up with k octets of value k |
| ProxyBytes.OpensAs | Proxy/EncryptedPacket.cpp:33-89 | what a packet with any contents opens to, and which check refuses it: checksum, length and time are taken off in this order |
| ProxyBytes.OpensExactlyWhenCarried | Proxy/EncryptedPacket.cpp:33-89 | a packet opens to a payload exactly when its ciphertext decrypts to these octets for that payload and some time |

## Left out

- EcpMultiplication.SimultaneousMultiply: exponents are at least 1, because a zero exponent makes an empty cascade, which the source does not define; the conversion to and from Montgomery form (ecp.cpp:363-371) is not modelled, and the points' z coordinates are copied out and back where the source iterates over them in place.
- Bignum and field arithmetic (`Integer`, `ModularArithmetic`, Montgomery form): numbers are unbounded and the field is abstract.
- Associativity of the curve's addition: assumed, as for any abelian group; closure is proved.
- FixedBasePrecomputation: reading and writing the precomputed bases (`Load`, `Save`) would add an ASN.1 list of opaque elements.
- Elements that a vector or array holds before they are assigned: empty slots in the cascade's table, zeros in buffers.
- BufferedFilters.FilterWithBufferedInput.Put: blocking calls only; non-blocking output, resume points, channels, hard flushes and `ForceNextPut` are not modelled, and the calls to the derived filter are returned as a list.
- StreamTransformations.StreamTransformationFilter.NextPut: the sizes of the pieces handed to the cipher, which depend on the attached filter, are not modelled because pieces of whole blocks make no difference; ciphers with a last block of their own size (ciphertext stealing) and stream ciphers are left out.
- The cipher modes of `modes.cpp`, block ciphers, and key schedules: the cipher is any invertible function with a state.
- TextCodecs.InitializeDecodingLookupArray: letters are ASCII letters; the assertions that an alphabet is unambiguous are a premise of the round trip.
- Cmacs.Reduction: the constant for blocks of 32 bytes is the one in the code, which no part of NIST SP 800-38B gives.
- BlockChaining.AdvancedProcessBlocks: the flags the authenticators use; counter mode, output increments and reverse direction belong to the modes.
- AuthenticatedCiphers.Ccm.ProcessData: length totals are unbounded where the source has 64 bits.
- Asn1Values.BERDecodeUnsigned: an indefinite length, for which the source goes on with an uninitialised length, is a failure.
- DerReencoding.ReencodingMakesDer: the value is shorter than a fifth of 2^64 octets, so that the lengths in its DER fit their word.
- BerTrees.DecodeNode: chooses raw contents or trees by the tag, as callers of the decoder do; multi-octet tags do not exist in the source. The address of an empty vector's first element, which some callers form, is not modelled.
- `EncodedObjectFilter`, X.509 and PKCS #8 structures, strings and bit strings: they combine what is modelled here.
- ProxyPackets.SequencedPacket.Parse: a packet of fewer than four bytes is refused, which the source only asserts (ByteBuffer.h:182-185); with assertions compiled out it reads past the end instead.
- ProxyPackets.EncryptedPacket.ToCipherText: the checksum is any four-byte function, and the cipher any with blocks of 16.
- Sockets, threads, pipes, logging, opcodes, RSA, MD5, random numbers and the login handshakes: input and output, or code that is not part of this model.
