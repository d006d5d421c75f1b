# Verified models of the izanagi cryptographic arithmetic

This project models the C arithmetic library under `pkg/izanagi/src`, with the
scalar arithmetic of its Ed25519 code, and the second Base58 codec in
`src/Utils/Base58.hpp`, and proves that their loops over limbs, digits, bits and
bytes compute what they are meant to compute.

`dafny verify dfyconfig.toml` checks everything.

## How the model is built

* Machine words are the subset types `u8`, `u32`, `u64` of module `Words`. Every
  unsigned operation that could wrap goes through `W32` or `W64`, which keep the
  low bits; that the exact result is wanted and fits is proved where it is used.
  `x & mask` is written `%`, `x >> n` is `/`, a test of one bit is `/` and `%`,
  and `|` is the function `Bits.Or`, which is proved to be a sum for disjoint bits.
* Limb, digit and byte buffers that the C code overwrites are arrays, and the
  methods carry the code's loops; buffers that are only read are sequences. The
  number in nine 29-bit limbs is `Limbs.Value`, the number in a big-endian digit
  string is `Digits.Num`.
* Each method is proved against a mathematical statement (an equation between
  numbers, a congruence, a text), and the text-valued ones against a separate
  specification: `Base58Spec`, `Blake256Spec`, `FormatSpec`, `Bip39Text`.
* What those specifications say is proved in other terms beside them: the alphabet
  in character literals and the numbers a Base58 text and its bytes write
  (`Base58Spec.Alphabet`, `StandsFor`), the padding of BLAKE-256 in bits and its
  start values as square roots (`Blake256Spec.PaddedBits`, `InitialIs`), the amount
  that a formatted text reads back as (`FormatMeaning.FormattedMeans`), the order of
  dictionaries (`Bip39Words.CompareIs`).

The parts:

| part | modules |
|---|---|
| numbers, congruences, digit and bit strings | `Arith`, `Words`, `Bits`, `Digits`, `BitStrings`, `BigEndian`, `Limbs` |
| bignum.c | `Bignum`, `BignumReduce`, `BignumMultiply`, `BignumPower`, `Fermat`, `PolynomialRoots`, `BignumLegendre`, `AlmostInverse`, `BignumInverse`, `BignumBytes`, `BignumDivide`, `FormatSpec`, `FormatMeaning`, `BignumFormat` |
| base58.c and Base58.hpp | `Base58Spec`, `Base58Size`, `DigitPass`, `Base58C`, `Base58CDecode`, `Base58Cpp`, `Base58Check` |
| blake256.c | `Blake256Spec`, `Blake256`, `Blake256Final`, `Blake256Context` |
| bip39.c | `Bip39Words`, `Bip39Text`, `Bip39` |
| bip32.c | `Bip32Path`, `Bip32Nodes`, `Bip32Keys`, `Bip32Cache` |
| the scalar loops of ecdsa.c | `SignedWindow`, `EcdsaMultiply`, `EcdsaScalar` |
| modm-donna-32bit.c | `LimbProducts`, `Modm`, `ModmMultiply`, `ModmExpand` |
| shared types | `Options`, `Hashes` |

## Results worth knowing

* `BignumPower.Sqrt` rests on Fermat's little theorem, which `Fermat` proves from
  the binomial theorem. `BignumLegendre.Legendre` decides squares for every prime:
  `x^((p - 1) / 2) - 1` has no room for roots beside the squares, by the root count
  of `PolynomialRoots`.
* `BignumInverse.InverseFast` needs `x` to be zero or invertible;
  `BignumInverse.PrimeModulus` shows that a prime modulus always gives that.
* The two Base58 decoders disagree in exactly one case without white space, the
  empty text with a limit of 0 (`Base58Cpp.DecodersAgree`): b58tobin rejects an
  empty buffer, DecodeBase58 never compares an empty text with its limit.
* An honest Base58Check text makes b58check read past its buffer exactly when
  payload and checksum are all zero bytes (`Base58Check.HonestStaysInside`), as for
  one zero byte under a hash that maps it to zeros (`ZeroPayloadRunsOut`). `B58Check`
  reports whether all its reads were inside. The memory behind the buffer is a
  parameter, and then decides whether decoding works.
* `Bip39.Check` accepts a phrase exactly when it is the phrase of 16, 24 or 32
  bytes, although `Bip39.FromData` also generates phrases for 20 and 28 bytes; the
  checker rejects all of those (`Bip39.AcceptedLengths`).
* `Bip32Cache.Cache.Session` runs any sequence of cached derivations and cache
  clearings on a node in place, and gets from every one what derivation without a
  cache gives, with a key in range. The retry loops of bip32.c have no bound; that
  those on the way end is a hypothesis about the node and path at hand
  (`Bip32Nodes.PathEnds`), which holds wherever derivation succeeds (`SuccessEnds`).
* point_multiply and scalar_multiply treat `k == 0` differently: the first returns 1
  (`EcdsaMultiply.PointMultiply`), the second 0 (`EcdsaScalar.ScalarMultiply`).
* mul256_modm reduces the product modulo `2^510` and is right exactly for products
  below that (`ModmMultiply.Multiply` and `RightBelow`), as all products of reduced
  factors are (`ReducedFactors`).
* inverse_mod_power_two documents `1/a % 2**n`, but for `n == 1` the result is not
  masked, and it is below `2^n` only for `a == 1` (`BignumInverse.UnmaskedInverse`).

Where comments and code differ otherwise the code is followed: bn_long_division
documents `d <= 61304` but asserts `d < 61304`, which is stricter than its
arithmetic needs; bn_fast_mod documents that only the top limb may be unnormalised
but is proved for all 32-bit limbs.

## Model

| member | source | states |
|---|---|---|
| Bignum.Add | pkg/izanagi/src/bignum.c:1402-1426 | the sum of two normalized numbers is exact and normalized, also when both are the same array |
| Bignum.AddI | pkg/izanagi/src/bignum.c:1450-1481 | adding a word is exact and normalized |
| Bignum.Subtract | pkg/izanagi/src/bignum.c:1581-1620 | the difference is exact when it is not negative, and off by 2^261 otherwise, under every aliasing |
| Bignum.IsLess | pkg/izanagi/src/bignum.c:281-289 | the comparison of limb comparison strings is the comparison of the numbers |
| Bignum.IsZero | pkg/izanagi/src/bignum.c:261-267 | true exactly for 0 |
| Bignum.IsOne | pkg/izanagi/src/bignum.c:271-277 | true exactly for 1 |
| Bignum.CMov | pkg/izanagi/src/bignum.c:305-316 | the result is the chosen case, under every aliasing |
| Bignum.LShift | pkg/izanagi/src/bignum.c:405-411 | doubles, modulo 2^261 |
| Bignum.RShift | pkg/izanagi/src/bignum.c:418-424 | halves, rounding down |
| BignumBytes.ReadBe | pkg/izanagi/src/bignum.c:95-108 | 32 big-endian bytes become a normalized number of the same value |
| BignumBytes.WriteBe | pkg/izanagi/src/bignum.c:137-148 | a number below 2^256 becomes the 32 bytes that stand for it |
| BignumReduce.Mod | pkg/izanagi/src/bignum.c:547-555 | a partly reduced number becomes its residue |
| BignumReduce.FastMod | pkg/izanagi/src/bignum.c:740-829 | any nine 32-bit limbs become a normalized congruent number below 2 * prime |
| BignumReduce.FastBounds | pkg/izanagi/src/bignum.c:740-829 | the estimate from the top limb leaves between 0 and 2 * prime |
| BignumReduce.MultK | pkg/izanagi/src/bignum.c:529-540 | k times a normalized number for k up to 8, reduced below 2 * prime although the limbs are not normalized in between |
| BignumReduce.AddMod | pkg/izanagi/src/bignum.c:1432-1443 | a congruent sum below 2 * prime |
| BignumReduce.MultHalf | pkg/izanagi/src/bignum.c:472-523 | twice the result is x, or x + prime for odd x |
| BignumMultiply.ColumnsAreProduct | pkg/izanagi/src/bignum.c:561-604 | the 17 columns of limb products add up to the product of the numbers |
| BignumMultiply.MultiplyLong | pkg/izanagi/src/bignum.c:561-604 | the 18 normalized limbs are the exact product, and the 64-bit accumulator never overflows |
| BignumMultiply.Estimate | pkg/izanagi/src/bignum.c:611-701 | the quotient estimate of a reduction step from the two top limbs is exact |
| BignumMultiply.ReduceStep | pkg/izanagi/src/bignum.c:611-701 | subtracts (res / 2^(256 + 29 d)) * prime * 2^(29 d), without overflow or underflow, and leaves less than 2 * prime * 2^(29 d) |
| BignumMultiply.Reduce | pkg/izanagi/src/bignum.c:707-720 | nine steps leave a congruent number below 2 * prime |
| BignumMultiply.Multiply | pkg/izanagi/src/bignum.c:726-734 | a normalized number congruent to k * x and below 2 * prime, whenever k * x < 2^519, also for k and x the same array |
| BignumPower.PowerMod | pkg/izanagi/src/bignum.c:838-873 | a partly reduced number congruent to x^e, with the early exit on the last limb, also when the result overwrites x |
| Fermat.FermatLittle | pkg/izanagi/src/bignum.c:877-902 | a^p is a modulo a prime p, the fact bn_sqrt relies on |
| BignumPower.RootOfSquare | pkg/izanagi/src/bignum.c:877-902 | for a prime that is 3 mod 4 the power (p + 1) / 4 of a square is a root of it |
| BignumPower.Sqrt | pkg/izanagi/src/bignum.c:884-902 | the result is reduced, and for such a prime its square is x exactly when x is a square |
| BignumLegendre.EulerSquare | pkg/izanagi/src/bignum.c:1622-1653 | the power (p - 1) / 2 of a square is 1 |
| PolynomialRoots.FewRoots | pkg/izanagi/src/bignum.c:1622-1653 | modulo a prime a polynomial has at most as many incongruent roots as its degree, the reason why no other number has that power 1 |
| BignumLegendre.EulerConverse | pkg/izanagi/src/bignum.c:1622-1653 | for every odd prime only squares have that power 1 |
| BignumLegendre.Legendre | pkg/izanagi/src/bignum.c:1630-1653 | for every prime in the range, 0 exactly for multiples, 1 exactly for the other squares, and otherwise -1 |
| BignumInverse.InverseStep | pkg/izanagi/src/bignum.c:908-929 | squaring the factor keeps acc * a congruent to 1 - (a - 1)^(2 i) |
| BignumInverse.InverseModPowerTwo | pkg/izanagi/src/bignum.c:908-929 | an inverse of odd a modulo 2^n for n from 1 to 32, which is below 2^n exactly for n > 1 or a = 1 |
| BignumInverse.UnmaskedInverse | pkg/izanagi/src/bignum.c:908-929 | for a = 3 and n = 1 the result is 0xFFFFFFFF and not 1 |
| BignumInverse.DivideBase | pkg/izanagi/src/bignum.c:937-997 | 2^29 times the result is congruent to x; fully and partly reduced numbers stay so |
| AlmostInverse.StepKeeps | pkg/izanagi/src/bignum.c:1127-1231 | every round keeps u s + v r = prime, x s = v 2^k and x r = -u 2^k modulo prime, coprimality, and halves u v |
| AlmostInverse.RunEnds256 | pkg/izanagi/src/bignum.c:1127-1231 | 522 rounds reach v = 1 with s below the prime |
| BignumInverse.Round | pkg/izanagi/src/bignum.c:1127-1231 | one constant-flow round on limbs is one round on numbers, and leaves s alone once finished |
| BignumInverse.AlmostInverseLoop | pkg/izanagi/src/bignum.c:1127-1231 | the loop ends with the s and k of 522 rounds on numbers |
| BignumInverse.DividePower | pkg/izanagi/src/bignum.c:1127-1231 | divides by 2^k modulo the prime, by limbs and then by halves |
| BignumInverse.InverseFast | pkg/izanagi/src/bignum.c:1127-1231 | the result is reduced, 0 for multiples of the modulus, and otherwise the inverse |
| BignumInverse.PrimeModulus | pkg/izanagi/src/bignum.c:1120-1126 | modulo a prime every number is invertible or a multiple |
| BignumDivide.DivideLimb | pkg/izanagi/src/bignum.c:1658-1709 | one step of short division neither overflows a word nor leaves a quotient limb above 2^29, for all d up to the documented 61304 |
| BignumDivide.LongDivision | pkg/izanagi/src/bignum.c:1658-1709 | x = q d + r with r < d and q normalized, also in place |
| EcdsaMultiply.Recode | pkg/izanagi/src/ecdsa.c:431-445 | the recoded scalar is k + 2^256, less the order for even k, odd and exact in 32-bit limbs |
| SignedWindow.TailIs | pkg/izanagi/src/ecdsa.c:453-462 | the signed digits of an odd number, weighted by powers of 16, add up to it less 2^256 |
| EcdsaMultiply.NextBits | pkg/izanagi/src/ecdsa.c:502-514 | the five bits read at every step, within a limb or across two, are the next window of the recoded scalar |
| EcdsaMultiply.Magnitude | pkg/izanagi/src/ecdsa.c:515-517 | index bits and sign give an odd digit below 16 in absolute value |
| EcdsaMultiply.Evaluate | pkg/izanagi/src/ecdsa.c:484-527 | the loop with its deferred negations adds up all 64 digits |
| EcdsaMultiply.PointMultiply | pkg/izanagi/src/ecdsa.c:410-533 | for 0 < k < order the multiple computed is congruent to k modulo the order; otherwise the status is 1 |
| EcdsaScalar.ShiftFour | pkg/izanagi/src/ecdsa.c:602-607 | the limb loop divides by 16 in place |
| EcdsaScalar.FrontTail | pkg/izanagi/src/ecdsa.c:568-582 | the digits below any position and those from it on make all of the sum |
| EcdsaScalar.Entry | pkg/izanagi/src/ecdsa.c:584-593 | the table entry at the masked low bits is the next digit times its power of 16, up to its sign |
| EcdsaScalar.SignChange | pkg/izanagi/src/ecdsa.c:608-616 | the parity of the masked low bits tells whether the sign changes |
| EcdsaScalar.EvaluateUp | pkg/izanagi/src/ecdsa.c:595-621 | the loop over the shrinking scalar, with its deferred negations, adds up all 64 digits |
| EcdsaScalar.ScalarMultiply | pkg/izanagi/src/ecdsa.c:536-627 | with the documented table the multiple computed is congruent to k modulo the order for every k below it; otherwise the status is 1 |
| LimbProducts.Product | pkg/izanagi/src/ed25519-donna/modm-donna-32bit.c:193-236 | all the sums of limb products with the same index sum, weighted, are the product of the numbers |
| Modm.OrderIs | pkg/izanagi/src/ed25519-donna/modm-donna-32bit.c:7-26 | the modulus is 2^252 + 27742317777372353535851937790883648493 |
| Modm.SubtractLimbs | pkg/izanagi/src/ed25519-donna/modm-donna-32bit.c:28-48 | nine lines with a borrow subtract exactly, up to the last borrow |
| Modm.Reduce | pkg/izanagi/src/ed25519-donna/modm-donna-32bit.c:33-61 | subtracts m exactly when the number is not below it |
| Modm.Quotient | pkg/izanagi/src/ed25519-donna/modm-donna-32bit.c:73-95 | q3 is the column sum without its low 54 bits, with no 64-bit overflow |
| Modm.MuProduct | pkg/izanagi/src/ed25519-donna/modm-donna-32bit.c:73-95 | the columns that are left out of the first product are below 2^244 |
| Modm.LowProduct | pkg/izanagi/src/ed25519-donna/modm-donna-32bit.c:97-116 | r2 is the product with m modulo 2^264 |
| Modm.Barrett | pkg/izanagi/src/ed25519-donna/modm-donna-32bit.c:63-133 | with those columns left out the estimate is still at most two too small, so that two subtractions of m are enough |
| Modm.BarrettReduce | pkg/izanagi/src/ed25519-donna/modm-donna-32bit.c:63-133 | for every number below 2^512 the result is its residue modulo the group order, also in place |
| ModmMultiply.Multiply | pkg/izanagi/src/ed25519-donna/modm-donna-32bit.c:192-236 | the product modulo 2^510, reduced, for all normalized factors, also when the result overwrites one |
| ModmMultiply.RightBelow | pkg/izanagi/src/ed25519-donna/modm-donna-32bit.c:192-236 | that is the product modulo the order exactly for products below 2^510 |
| ModmMultiply.ReducedFactors | pkg/izanagi/src/ed25519-donna/modm-donna-32bit.c:192-236 | products of reduced factors are below 2^510 |
| ModmExpand.LittleIs | pkg/izanagi/src/ed25519-donna/modm-donna-32bit.c:238-258 | little-endian bytes write the number of the reversed bytes |
| ModmExpand.Straddle | pkg/izanagi/src/ed25519-donna/modm-donna-32bit.c:261-285 | two shifted words make a limb of the upper bits of the one and the lower bits of the other |
| ModmExpand.LowLimbs | pkg/izanagi/src/ed25519-donna/modm-donna-32bit.c:261-270 | the limbs of the sixteen words modulo 2^264 |
| ModmExpand.HighLimbs | pkg/izanagi/src/ed25519-donna/modm-donna-32bit.c:276-285 | the limbs of the sixteen words divided by 2^248 |
| ModmExpand.Expand | pkg/izanagi/src/ed25519-donna/modm-donna-32bit.c:238-288 | any at most 64 little-endian bytes become their residue modulo the group order |
| FormatSpec.GroupedIs | pkg/izanagi/src/bignum.c:1736-1759 | a separator after every third digit from the right makes groups of three |
| FormatSpec.ShortFractionIs | pkg/izanagi/src/bignum.c:1736-1759 | dropping zero digits from the right is stripping zeros and then the point |
| FormatMeaning.DecimalMeans | pkg/izanagi/src/bignum.c:1736-1759 | the digits of a number have no leading zero, and read as the number |
| FormatMeaning.GroupedMeans | pkg/izanagi/src/bignum.c:1736-1759 | counted from the right every fourth character is the separator, and the others are the digits in order |
| FormatMeaning.FractionMeans | pkg/izanagi/src/bignum.c:1736-1759 | the fraction digits, read at their place, are the number behind the point; all of them are written if trailing zeros are wanted, and otherwise the last one is not zero |
| FormatMeaning.FormattedMeans | pkg/izanagi/src/bignum.c:1736-1759 | the number between prefix and suffix reads as the amount times or divided by the power of ten, rounded down |
| BignumFormat.TextIs | pkg/izanagi/src/bignum.c:1734-1875 | the prototype's text in the pieces in which the code writes it after scaling |
| BignumFormat.ScaleDown | pkg/izanagi/src/bignum.c:1788-1796 | dividing by 10 until the exponent is 0 is one division by the power, also with the early exit for 0 |
| BignumFormat.AddFraction | pkg/izanagi/src/bignum.c:1818-1837 | the fraction digits and the point, from the right, or a zeroed buffer |
| BignumFormat.AddInteger | pkg/izanagi/src/bignum.c:1839-1864 | the grouped integer digits, from the right, or a zeroed buffer |
| BignumFormat.Format | pkg/izanagi/src/bignum.c:1734-1875 | the prototype's text with its terminator and its length, or 0 and a zeroed buffer exactly when it does not fit |
| Base58Spec.Alphabet | pkg/izanagi/src/base58.c:31-47 | the digits are the characters 0-9, A-Z and a-z without 0, I, O and l, in the order of their codes |
| Base58Spec.StandsFor | pkg/izanagi/src/base58.c:52-186 | a text decodes to bytes, and they encode to it, exactly when both write the same number and start with as many ones as zero bytes |
| Base58Spec.DecodeEncode | pkg/izanagi/src/base58.c:52-186 | decoding an encoding gives the bytes back, leading zeros included |
| Base58Spec.EncodeDecode | pkg/izanagi/src/base58.c:52-186 | encoding what was decoded gives the text back |
| Base58Spec.EncodeInjective | pkg/izanagi/src/base58.c:148-186 | no two byte strings have the same text |
| Base58Size.EncodeFits | pkg/izanagi/src/base58.c:156 | 138 / 100 base-58 digits per byte and one more are enough, from 256^8 <= 58^11 |
| Base58Size.DecodeFits | src/Utils/Base58.hpp:104 | 733 / 1000 bytes per digit and one more are enough, from 58^71 <= 256^52 |
| Base58C.EncodePass | pkg/izanagi/src/base58.c:161-169 | one pass is 256 * number + byte with no carry lost, and reaches the first digit only when the number needs it |
| Base58C.EncodeDigits | pkg/izanagi/src/base58.c:156-170 | the digit buffer holds the number of the bytes |
| Base58C.B58Enc | pkg/izanagi/src/base58.c:148-186 | writes the specified text and terminator exactly when they fit, and reports the size in both cases |
| Base58CDecode.DecodePass | pkg/izanagi/src/base58.c:87-91 | one pass over 32-bit words is 58 * number + digit with what does not fit in the carry |
| Base58CDecode.WordsFit | pkg/izanagi/src/base58.c:92-97 | the mask test on the first word finds exactly the numbers with too many bytes |
| Base58CDecode.FillWords | pkg/izanagi/src/base58.c:79-98 | the words hold the number exactly when all characters are digits and the number fits the buffer |
| Base58CDecode.WordsToBytes | pkg/izanagi/src/base58.c:100-112 | the words, the first one perhaps partial, become bytes of the same number |
| Base58CDecode.B58ToBin | pkg/izanagi/src/base58.c:52-128 | succeeds exactly for valid texts whose bytes fit a non-empty buffer, and leaves the decoded bytes at its end |
| Base58Cpp.AppendDigit | src/Utils/Base58.hpp:114-121 | one pass is m * number + digit, the carry is 0 at the end, and the digit count covers all digits in use |
| Base58Cpp.SignificantDigits | src/Utils/Base58.hpp:114-122 | the digit count is the number of significant bytes |
| Base58Cpp.SpacesAre | src/Utils/Base58.hpp:70-74 | white space is space, tab, line feed, vertical tab, form feed and carriage return |
| Base58Cpp.TrimIs | src/Utils/Base58.hpp:91-132 | trimming takes away white space only, and all of it at both ends |
| Base58Cpp.DecodeBase58 | src/Utils/Base58.hpp:88-140 | accepts exactly the trimmed texts that decode within the limit, and yields their bytes |
| Base58Cpp.DecodeBase58String | src/Utils/Base58.hpp:183-190 | the same for strings, of which those with a NUL are rejected |
| Base58Cpp.EncodeBase58 | src/Utils/Base58.hpp:142-181 | the same text as b58enc for every byte string |
| Base58Cpp.DecodersAgree | src/Utils/Base58.hpp:88-140 | without white space both decoders accept the same texts, except the empty one with limit 0 |
| Base58Check.B58Check | pkg/izanagi/src/base58.c:130-146 | the first byte exactly for a right checksum and as many zero bytes in memory as leading ones, else -4, -1 or -3; reads behind the buffer exactly for bytes that are all zero and all matched by ones under a right checksum |
| Base58Check.EncodeCheck | pkg/izanagi/src/base58.c:188-202 | the text of payload and checksum with its size, or 0 for more than 128 bytes or a small buffer |
| Base58Check.DecodeCheck | pkg/izanagi/src/base58.c:204-221 | the payload of a checked text of up to the given length, otherwise 0 with the output untouched; for bytes that are all zero the byte behind the buffer decides |
| Base58Check.ZerosAndOnes | pkg/izanagi/src/base58.c:139-143 | the leading-zero check passes what b58tobin produced, unless all its bytes are zero and the next one in memory is too |
| Base58Check.PayloadIs | pkg/izanagi/src/base58.c:130-146 | a text has a payload exactly when it decodes to it and the first four bytes of its hash |
| Base58Check.PayloadOfEncoding | pkg/izanagi/src/base58.c:188-221 | decoding undoes encoding for every hash function |
| Base58Check.EncodingOfPayload | pkg/izanagi/src/base58.c:188-221 | only the encoding of a payload decodes to it |
| Base58Check.HonestStaysInside | pkg/izanagi/src/base58.c:139-143 | for an honest text the reads of b58check stay inside the buffer unless payload and checksum are all zero |
| Base58Check.ZeroPayloadRunsOut | pkg/izanagi/src/base58.c:139-143 | the payload of one zero byte is such a text for a hash that maps it to zeros |
| Base58Check.RoundTrip | pkg/izanagi/src/base58.c:188-221 | encoding and decoding 1 to 128 bytes returns them exactly when payload and checksum are not all zero or the byte behind the buffer is not, and no byte behind the buffer is read exactly when they are not all zero |
| Blake256.SplitInvariant | pkg/izanagi/src/blake256.c:124-157 | two calls leave the same state as one call on the concatenation |
| Blake256.AnyCut | pkg/izanagi/src/blake256.c:124-157 | any way of cutting the input leaves the same state |
| Blake256.CountsBlocks | pkg/izanagi/src/blake256.c:124-157 | the two counter words count 512 bits per compressed block modulo 2^64 |
| Blake256Context.Context.constructor | pkg/izanagi/src/blake256.c:111-122 | a fresh context has taken in nothing |
| Blake256Context.Context.Feed | pkg/izanagi/src/blake256.c:124-157 | the buffered loop leaves the state of the specification, whatever the counter |
| Blake256Context.Context.Update | pkg/izanagi/src/blake256.c:124-157 | the context stays where one call on everything so far would have brought it |
| Blake256Spec.InitialIs | pkg/izanagi/src/blake256.c:111-122 | the start values are the fractional parts of the square roots of the first eight primes |
| Blake256Spec.PaddedBits | pkg/izanagi/src/blake256.c:159-194 | in bits: the message, a one, the fewest zeros that fill the blocks, a one, and the 64-bit message length |
| Blake256Spec.ChainedNext | pkg/izanagi/src/blake256.c:124-157 | every block is compressed with the number of message bits up to its end, or 0 if it has none, low word first |
| Blake256Spec.OutputIs | pkg/izanagi/src/blake256.c:195-202 | the output bytes are the chain words in order, most significant byte first |
| Blake256Spec.Be64Is | pkg/izanagi/src/blake256.c:160-167 | the length field is the number of message bits, most significant byte first |
| Blake256Final.Rewinds | pkg/izanagi/src/blake256.c:169-194 | the subtractions before a call cancel its 512 and leave the message bits, and no wrap disturbs the high word |
| Blake256Final.FinishShort | pkg/izanagi/src/blake256.c:169-194 | up to 55 buffered bytes give one block with the message's bit count |
| Blake256Final.FinishEmpty | pkg/izanagi/src/blake256.c:169-194 | no buffered bytes give one block with a null counter |
| Blake256Final.FinishLong | pkg/izanagi/src/blake256.c:169-194 | more than 55 buffered bytes give two blocks, the second with a null counter |
| Blake256Final.FinishedIsHash | pkg/izanagi/src/blake256.c:159-203 | for every message below 2^64 bits the padding calls yield the hash of the one-shot definition |
| Blake256Context.Context.Final | pkg/izanagi/src/blake256.c:159-203 | the output is the hash of everything taken in, 32 bytes that write the last chain value |
| Blake256Context.HashOf | pkg/izanagi/src/blake256.c:205-210 | the one-call interface computes the hash, 32 bytes that write the last chain value |
| Bip39Words.CompareIs | pkg/izanagi/src/bip39.c:237-252 | words are compared at their first difference, and a prefix comes first |
| Bip39Words.FindWord | pkg/izanagi/src/bip39.c:237-252 | binary search finds the position of a word, or -1 for any other text |
| Bip39Words.IndexOfWord | pkg/izanagi/src/bip39.c:237-252 | the position found for a word of the list is its own |
| Bip39Text.SplitJoin | pkg/izanagi/src/bip39.c:130-143 | splitting at spaces undoes joining with spaces |
| Bip39Text.SplitPieces | pkg/izanagi/src/bip39.c:130-143 | the pieces contain no space, and single spaces between them give the text back |
| Bip39Text.JoinSnoc | pkg/izanagi/src/bip39.c:89-93 | one word more is one space and that word |
| Bip39Text.SplitCount | pkg/izanagi/src/bip39.c:106-114 | there is one word more than there are spaces |
| BitStrings.BitsNumber | pkg/izanagi/src/bip39.c:84-88 | the bits of a byte string, most significant first, write its number |
| Bip39.ReadIndex | pkg/izanagi/src/bip39.c:84-88 | the bit loop reads the 11-bit number |
| Bip39.FromData | pkg/izanagi/src/bip39.c:66-97 | writes the phrase for 16, 20, 24, 28 or 32 bytes of entropy inside the static buffer, and refuses every other length |
| Bip39.PutIndex | pkg/izanagi/src/bip39.c:148-153 | the bit loop appends the 11 bits of an index |
| Bip39.BitStringSlice | pkg/izanagi/src/bip39.c:148-153 | eleven bits at a time, the bit string holds the indices |
| Bip39.ToBits | pkg/izanagi/src/bip39.c:101-163 | 11 bits per word exactly for 12 to 24 words of the list, a multiple of three, separated by single spaces; otherwise 0 and no output |
| Bip39.BitsOfPhrase | pkg/izanagi/src/bip39.c:66-163 | the bits of a generated phrase are the entropy and the first len / 4 checksum bits, for all five lengths |
| Bip39.Unpacked | pkg/izanagi/src/bip39.c:66-163 | bytes with those bits start with the entropy and carry the checksum bits behind it |
| Bip39.PhraseOfBits | pkg/izanagi/src/bip39.c:165-184 | a mnemonic with the right checksum bits is the phrase of the entropy in it |
| Bip39.Check | pkg/izanagi/src/bip39.c:165-184 | accepts exactly the phrases generated from 16, 24 or 32 bytes |
| Bip39.AcceptedLengths | pkg/izanagi/src/bip39.c:165-184 | of the generated phrases those for 16, 24 and 32 bytes are accepted, and those for 20 and 28 bytes are not |
| Bip32Path.DeriveSnoc | pkg/izanagi/src/bip32.c:392-395 | derivation along a longer path is one more step after the shorter one |
| Bip32Path.DeriveStops | pkg/izanagi/src/bip32.c:392-395 | a failed step is the outcome of the whole path |
| Bip32Keys.KeyInRange | pkg/izanagi/src/bip32.c:164-168 | true exactly for keys from 1 to n - 1 |
| Bip32Keys.AcceptedSeed | pkg/izanagi/src/bip32.c:163-173 | the retry loop, keyed with the curve's name and fed with the seed and then the rejected MACs, ends with the first MAC whose left half is in range |
| Bip32Keys.ChildKey | pkg/izanagi/src/bip32.c:232-247 | an attempt fails exactly for I_L >= n or a zero sum, and otherwise gives (I_L + parent) mod n |
| Bip32Keys.AcceptedKey | pkg/izanagi/src/bip32.c:231-254 | the retry loop ends with the first acceptable MAC, and its key is in range |
| Bip32Keys.HDNode.FromXprv | pkg/izanagi/src/bip32.c:110-143 | succeeds exactly for a known curve and a key in range, and otherwise changes nothing |
| Bip32Keys.HDNode.FromSeed | pkg/izanagi/src/bip32.c:145-182 | key and chain code are the first acceptable MAC, of the seed or of the MAC rejected before, and the key is in range |
| Bip32Keys.HDNode.FillPublicKey | pkg/izanagi/src/bip32.c:436-475 | the public key of the private key is set, or nothing changes |
| Bip32Keys.HDNode.PrivateCkd | pkg/izanagi/src/bip32.c:196-271 | the private key is hashed for indices from 2^31 on and the public key below, where it can fail; the child key is (I_L + parent) mod n for the first acceptable MAC and stays in range, with chain code, depth and child number |
| Bip32Keys.HDNode.FingerprintOf | pkg/izanagi/src/bip32.c:184-194 | fills in the public key where there is one, and gives the number of the first four bytes of its hash, without a wrap |
| Bip32Nodes.ChildOk | pkg/izanagi/src/bip32.c:196-271 | every child of a node in range is in range |
| Bip32Keys.HDNode.Ckd | pkg/izanagi/src/bip32.c:273-282 | one derivation on the node, if its retry loop ends, is one derivation on its value |
| Bip32Nodes.PathIsSum | pkg/izanagi/src/bip32.c:196-271 | along any path the key stays in range, and is the first key plus the left halves of the accepted MACs, modulo n |
| Bip32Keys.HDNode.DerivePath | pkg/izanagi/src/bip32.c:392-395 | a loop of derivations on a node does that, if the retry loops on this path end |
| Bip32Keys.SeedThenPath | pkg/izanagi/src/bip32.c:145-271 | a node from a seed and any private derivations after it: in range, and the first accepted left half plus those of the path |
| Bip32Keys.XprvThenPath | pkg/izanagi/src/bip32.c:110-271 | the same for an imported private key |
| Bip32Nodes.PlainIsDerive | pkg/izanagi/src/bip32.c:390-414 | the fingerprint on the way makes no difference to the last child |
| Bip32Nodes.SuccessEnds | pkg/izanagi/src/bip32.c:231-254 | where derivation along a path succeeds, every retry loop on the way ends, so that this hypothesis leaves out no successful run |
| Bip32Nodes.PlainFingerprint | pkg/izanagi/src/bip32.c:357-410 | the fingerprint is that of the parent's public key if it is wanted and the parent is reached, and otherwise left alone |
| Bip32Nodes.PlainIsSum | pkg/izanagi/src/bip32.c:350-414 | the key that hdnode_private_ckd_cached leaves is in range, and the sum of the left halves |
| Bip32Cache.Cache.Clear | pkg/izanagi/src/bip32.c:343-348 | no root and no entry is left |
| Bip32Cache.Cache.Find | pkg/izanagi/src/bip32.c:375-387 | a hit loads the node that plain derivation reaches; a miss means that no entry matches, and changes nothing |
| Bip32Cache.Cache.Save | pkg/izanagi/src/bip32.c:396-405 | fills the slot at the index, moves the index on, and touches no other slot |
| Bip32Cache.Cache.ToParent | pkg/izanagi/src/bip32.c:363-406 | found or derived, the node becomes the parent of the last step, which is in the cache afterwards |
| Bip32Cache.Cache.PrivateCkdCached | pkg/izanagi/src/bip32.c:350-414 | result and node in place are those of plain derivation, the fingerprint is that of the parent's public key exactly if wanted, the parent is cached afterwards, and other slots survive for the same root |
| Bip32Cache.Cache.Session | pkg/izanagi/src/bip32.c:331-414 | in any run of requests every result is that of plain derivation, with the key in range and the sum of the left halves along its path |

## Left out

* SHA-256, HMAC-SHA512, PBKDF2, the public key of a private key and the BLAKE-256 compression function: arbitrary functions, so the results hold for every choice of them; a null counter is passed to the compression function as a zero counter, which its exclusive-or makes the same.
* Point arithmetic of ecdsa.c: points are written as multiples of the point that is multiplied; that the precomputed table of scalar_multiply holds the multiples its comment lists is a hypothesis; signing, public derivation, the field and group arithmetic of Ed25519, Cardano derivation (compiled out by default), NEM and Ethereum addresses, serialisation of extended keys.
* Constant flow, constant memory access, `volatile` and memory wiping: masks are read as selections, and only the values are modelled.
* Overflow of `size_t` and `int` lengths: lengths and positions are unbounded numbers; negative `int` lengths are not modelled.
* NULL pointers for texts and outputs; a NULL prefix or suffix of bn_format is an empty text.
* The variants of bn_inverse_fast that are compiled out, bn_inverse_slow, bn_cnegate, bn_subtractmod, bn_subi, bn_bitcount, bn_digitcount, bit setting, little-endian conversion and printing: easy members or dead code beside the ones above.
* The BIP-39 word list: any 2048 strictly sorted words of one to eight letters; mnemonic_to_seed, its cache, word completion and the random generator.
* Lookup of a curve by its name, and the tail of the output buffer behind what bn_format returns.
* Bignum.Subtract: for a negative difference the C function promises nothing; the model states the value it leaves.
* Bip32Keys.AcceptedKey: the retry loop has no bound in the source, so that an acceptable attempt exists for this node and index is a hypothesis; likewise for AcceptedSeed, FromSeed, PrivateCkd and Ckd. DerivePath, SeedThenPath, XprvThenPath and the cache ask it of the nodes on the path only.
* Bip32Cache.Cache.PrivateCkdCached: paths of at most nine steps, because longer ones overrun the path array of a slot.
* Bip32Cache.Cache: the padding bytes of a node that memcmp also compares appear as the parameter sameBytes; a pointer to a curve is a value with an identity.
* Modm.SubtractLimbs: the source writes its nine lines out for every subtraction, and every sum of a column; the model has one method for the former and the function Column for the latter. Addition, subtraction, negation, comparison, windows and output of Ed25519 scalars are left out as easier members.
