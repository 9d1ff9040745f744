# Verification of the simulation's algorithms and protocols

Dafny models of the algorithmic core of the drone simulation's repository, with proofs. Two
groups of code are modelled:

* the vendored Boost headers that hold real algorithms: the CRC engine (`crc.hpp`), rational
  numbers and the binary gcd under them (`rational.hpp`, `common_factor_rt.hpp`), and two
  tokenizers (`token_functions.hpp`);
* the repository's own synchronisation: the start-up barrier over Redis (`RedisUtils.cpp`), the
  tick barrier over semaphores (`main.cpp`), and the scanner's thread barrier
  (`ThreadUtils.cpp`).

`dafny verify dfyconfig.toml` checks everything.

## How the model is built

| file | content |
|---|---|
| `BitWords.dfy`, `Wrappers.dfy` | machine words of any width, bit by bit; values that may be missing |
| `CrcDivision.dfy` | the two one-bit division steps; linearity; what lets several bits be done at once |
| `CrcRemainder.dfy` | polynomial division over GF(2), defined on its own; the bit-steps compute it; augmented against unaugmented |
| `CrcBurst.dfy` | which errors cannot go unseen |
| `CrcDetail.dfy`, `CrcDrivers.dfy` | the procedures, the table and the byte-fed loops of `crc.hpp` |
| `CrcChecksum.dfy` | the promised checksum, the table-driven one, and exactly when they are equal |
| `CrcComputers.dfy` | the classes `crc_basic` and `crc_optimal`, `crc`, `augmented_crc` |
| `CrcStandards.dfy`, `CrcCheckValues.dfy` | the named formulas and their check values |
| `IntegerGcd.dfy`, `Coprime.dfy` | the mixed binary gcd, C++ division, coprimality, fractions as real numbers |
| `Rational.dfy`, `RationalBounds.dfy` | the class `rational`; gcd and lcm of fractions; bounded integer types |
| `CharSeparator.dfy`, `EscapedList.dfy` | the two tokenizers, each against a one-pass reference |
| `StartupBarrier.dfy`, `TickBarrier.dfy`, `ThreadBarrier.dfy` | the three barriers as interleaved steps |

Code that changes state is modelled by classes, arrays and loops. Every method is proved against
a function, and the function against a definition that owes nothing to the code: polynomial
division with its unique remainder for the CRC, real numbers for the fractions, a recursive split
or parse for the tokenizers. The barriers are state machines whose theorems speak of all runs.

A register of the CRC engine is a word of `width` bits of which the low `bits` are in use;
`value_type` is often wider than the polynomial, so the bits above are modelled too. For at most
8 bits the register is one byte (`uint_fast8_t` on the usual platforms, and the `unsigned char`
that the sub-byte reflector works on).

## Where the code and what is said about it differ

The model follows the code.

* `crc.hpp:260` and `crc.hpp:1946` put no condition on the start value. `AgreementExact` shows
  the one that is needed: nothing above a reflected register wider than a byte.
* `crc.hpp:479-487` describes `reflect_sub_byte` as `reflect_unsigned` done faster. It also
  clears the bits above those it reverses; the model keeps the two apart.
* `crc.hpp:2279` admits any order in `augmented_crc`. Its body (line 2328) names the byte-wise
  driver, which demands at least 8 (line 1300), and so does `AugmentedCrc`.
* `crc_xmodem_type` (`crc.hpp:137`) has a divisor that is a multiple of x, and misses errors
  the others detect.
* `rational.hpp:519` says the sum avoids overflow: `SumMayOverflowMidway` gives a sum that fits
  and an intermediate product that does not, and `CombineExact` says when all of them fit.
  Line 523 says gcd(b,c) = 1 where gcd(c,d) = 1 is meant and needed.
* `char_separator::reset` (`token_functions.hpp:457`) does nothing. Each `token_iterator` works on
  a copy of the separator it is given, so iterators are right however often one is reused
  (`TokenizeEach`); an object whose `operator()` is called directly for a second text is not, and
  `SecondRun` says when.
* `res/doc/Relazione.md:281` says an internal semaphore synchronises all scanner threads at
  every tick. `LockstepExactly` shows that `ThreadSemaphore` keeps two or more threads together
  in no such sense: a released permit may be taken by a thread of the next round. And
  `LeavingStrandsExactly` gives the one test `remove_thread` would need and does not make.
* `src/main.cpp:9-10` says each process registers and then waits for the others. The barrier
  itself enforces no order between registrations and removals; the theorems assume it, and
  `SafeUnorderedExactly` shows why. Nor does it let everybody through: `AllThroughExactly` and
  `ThroughExactly` say whom it does. No caller of the barrier is in the present sources.

## Model

| member | source | states |
|---|---|---|
| `CrcDivision.FeedConcat` | libs/boost/crc.hpp:1863-1876 | A run over a message is the run over its second part started from the register its first part left. |
| `CrcDivision.FeedLinear` | libs/boost/crc.hpp:582-613 | The whole run is linear in the pair (register, message): exclusive-or of inputs gives exclusive-or of results, for every polynomial, width and length. |
| `CrcDivision.FeedAtTop` | libs/boost/crc.hpp:994-999 | Up to n incoming bits may be combined with the top of the register before any shift; zeros shifted in afterwards give the same register. |
| `CrcDivision.FeedByLookup` | libs/boost/crc.hpp:1183-1193 | One look-up, one shift and one exclusive-or equal k single-bit steps from any register, where the entry is the remainder of (leaving bits xor incoming bits). |
| `CrcDivision.AugFeedSplit` | libs/boost/crc.hpp:1152-1162 | In the augmented form, incoming bits wait unmixed at the low end while zeros do the division at the top. |
| `CrcRemainder.DivisionUnique` | libs/boost/crc.hpp:582-613 | Modulo-2 division by x^n + poly has one quotient and one remainder only: the independent definition the engines are measured against. |
| `CrcRemainder.FeedIsTheRemainder` | libs/boost/crc.hpp:582-613 | A word is the remainder of start * x^k + message * x^n exactly when it is the register the unaugmented bit-steps leave. |
| `CrcRemainder.AugFeedIsTheRemainder` | libs/boost/crc.hpp:704-729 | A word is the remainder of start * x^k + message exactly when it is the register the augmented bit-steps leave. |
| `CrcRemainder.AugmentedAgrees` | libs/boost/crc.hpp:2287-2308 | For any start value, the augmented run of the message and n zeros is the unaugmented run from that start value followed by n zeros: the conversion of start values the documentation says it does not provide. |
| `CrcRemainder.ResidueIsZero` | libs/boost/crc.hpp:2309-2313 | Following the message by n bits leaves zero if and only if those bits are its checksum, highest coefficient first. |
| `CrcBurst.ZerosKeepNonZero` | libs/boost/crc.hpp:597-609 | If the constant coefficient is 1, shifting in zeros never turns a non-zero register into zero. |
| `CrcBurst.BurstIsDetected` | libs/boost/crc.hpp:582-613 | If the constant coefficient is 1, two equally long different bit strings that differ only within n consecutive bits leave different registers, from any start value. |
| `CrcBurst.BurstGoesUnseen` | libs/boost/crc.hpp:582-613 | If it is 0, there is an n-bit error that leaves the register as if there had been none. |
| `CrcBurst.DetectsBurstsExactly` | libs/boost/crc.hpp:582-613 | Over all byte messages, bursts of at most n bits are detected if and only if the constant coefficient is 1. |
| `CrcDetail.ReflectUnsigned` | libs/boost/crc.hpp:417-431 | The two-mask swap loop reverses exactly the low word_length bits and leaves all others alone. |
| `CrcDetail.ReflectOptionally` | libs/boost/crc.hpp:515-519 | Reverses the low bits when asked to, and otherwise returns its argument. |
| `CrcDetail.MakeByteReflectionTable` | libs/boost/crc.hpp:442-452 | The loop, which ends when the unsigned char counter wraps, fills all 256 entries, each with the mirror image of its index. |
| `CrcDetail.ReflectByte` | libs/boost/crc.hpp:469-475 | The mirror image of the byte. |
| `CrcDetail.ReflectSubByte` | libs/boost/crc.hpp:489-490 | Reverses the low bits and drops the others, which its documentation (like reflect_unsigned) does not say. |
| `CrcDetail.CrcModuloWordUpdate` | libs/boost/crc.hpp:582-613 | On a register wider than the polynomial, stray bits included: the result is the division of the low bits by the word in reading order, and everything above is zero. |
| `CrcDetail.AugmentedCrcModuloWordUpdate` | libs/boost/crc.hpp:704-729 | The low bits of the result are the straight-up division of the low bits of the register by the word in reading order, whatever is above them. |
| `CrcDrivers.MakePartialXorProductsTable` | libs/boost/crc.hpp:1003-1022 | After the loop every one of the 2^SubOrder entries holds the remainder of its own index word, mirrored throughout when reflect is set. |
| `CrcDrivers.SlotUnique` | libs/boost/crc.hpp:1018 | No two dividends are stored at the same place, reflected or not: the loop overwrites nothing. |
| `CrcDrivers.SlotExists` | libs/boost/crc.hpp:1018 | Every place of the table belongs to some dividend: the loop leaves no gap. |
| `CrcDrivers.TableIsLinear` | libs/boost/crc.hpp:1003-1022 | The entry of an exclusive-or is the exclusive-or of the entries. |
| `CrcDrivers.DirectStepDivides` | libs/boost/crc.hpp:1183-1193 | One direct look-up step does the eight bit-steps of its byte, highest bit first, whatever stray bits the register has above the polynomial. |
| `CrcDrivers.ReflectedStepMirrors` | libs/boost/crc.hpp:1276-1287 | One reflected look-up step on a mirrored register gives the mirror image of the direct division fed the same byte lowest bit first. |
| `CrcDrivers.AugmentedStepDivides` | libs/boost/crc.hpp:1152-1162 | One augmented look-up step does the eight augmented bit-steps of its byte. |
| `CrcDrivers.ReflectedAugmentedStepMirrors` | libs/boost/crc.hpp:1243-1254 | The same for a mirrored register and a byte read lowest bit first. |
| `CrcDrivers.DirectByteCrcUpdate` | libs/boost/crc.hpp:1178-1196 | The count-down loop over a real table makes the direct look-up step once per byte, in order. |
| `CrcDrivers.ReflectedByteCrcUpdate` | libs/boost/crc.hpp:1271-1290 | The count-down loop over a real table makes the reflected look-up step once per byte, in order. |
| `CrcDrivers.SubByteCrcUpdate` | libs/boost/crc.hpp:1391-1398 | The loop both sub-byte classes run divides by every byte in turn, in the reading order of the class. |
| `CrcDrivers.AugmentedByteCrcUpdate` | libs/boost/crc.hpp:1147-1165 | The low bits of the result are the augmented division of the start value by the whole message. |
| `CrcDrivers.ReflectedAugmentedByteCrcUpdate` | libs/boost/crc.hpp:1238-1257 | The count-down loop over a real table makes the reflected augmented look-up step once per byte, in order, from any register. |
| `CrcDrivers.ReflectedAugmentedRunMirrors` | libs/boost/crc.hpp:1238-1257 | From a mirrored register with no stray bits that run stays the mirror image of the augmented division of the message read lowest bit first. |
| `CrcDrivers.AugmentedSubByteCrcUpdate` | libs/boost/crc.hpp:1360-1373 | The loop of the augmented sub-byte classes: the low bits of the result are the augmented division of the low bits of the start value. |
| `CrcDrivers.ReflectedAugmentedSubByteCrcUpdate` | libs/boost/crc.hpp:1444-1459 | Turning the register round before and after gives the mirror image of the augmented division, and drops what overflowed. |
| `CrcChecksum.ResetHolds` | libs/boost/crc.hpp:2065-2076 | A start value without stray bits, through either reflector, gives a register that stands for it. |
| `CrcChecksum.UpdateHolds` | libs/boost/crc.hpp:1533-1539 | Whichever driver is selected by order and reflection, its register goes on standing for the remainder of everything fed to it. |
| `CrcChecksum.DriversMirror` | libs/boost/crc.hpp:1271-1290 | The reflected driver run on a reflected register is the reflection of the direct driver run on reflected bytes, for every message length. |
| `CrcChecksum.FinishHolds` | libs/boost/crc.hpp:2144-2151 | A register that stands for a remainder gives the checksum and the interim value of that remainder. |
| `CrcChecksum.FinishOfShown` | libs/boost/crc.hpp:2144-2151 | Output processing and the interim value read only the low bits of the register, stray bits or not. |
| `CrcChecksum.FinishBits` | libs/boost/crc.hpp:1925-1934 | Bit by bit: each bit of the checksum is the remainder bit of its place, or of the mirrored place, against the bit of the mask, and nothing is above. |
| `CrcChecksum.FinishInjective` | libs/boost/crc.hpp:1925-1934 | Output processing loses nothing: equal checksums come from equal remainders. |
| `CrcChecksum.OptimalAgrees` | libs/boost/crc.hpp:2129-2151 | The table-driven checksum equals the bit-wise one for every width, polynomial, start value without stray bits, mask, pair of reflection flags and message. |
| `CrcChecksum.StrayBitShows` | libs/boost/crc.hpp:1271-1290 | A bit above a reflected register wider than a byte is shifted into it by a long enough message and spoils the checksum. |
| `CrcChecksum.AgreementExact` | libs/boost/crc.hpp:2129-2151 | The two computations agree on all messages if and only if the start value has no bits above a reflected register wider than a byte. |
| `CrcChecksum.MirrorsAugmentedExactly` | libs/boost/crc.hpp:1238-1257 | The reflected augmented run divides every message, from a given start value, if and only if that value has no bits above the order. |
| `CrcChecksum.ResumeAgrees` | libs/boost/crc.hpp:1696-1708 | Taking the interim remainder and starting another computer from it gives the checksum of both parts together. |
| `CrcChecksum.ChecksumDetectsBurstsExactly` | libs/boost/crc.hpp:1925-1934 | No two equally long messages that differ within n consecutive processed bits share a checksum, if and only if the lowest coefficient is 1. |
| `CrcComputers.CrcBasic.constructor` | libs/boost/crc.hpp:1591-1605 | Keeps the six parameters and starts from the initial remainder. |
| `CrcComputers.CrcBasic.GetInterimRemainder` | libs/boost/crc.hpp:1709-1717 | The remainder so far, with zeros above it. |
| `CrcComputers.CrcBasic.Reset` | libs/boost/crc.hpp:1732-1741 | Makes the given value the remainder, and changes no parameter. |
| `CrcComputers.CrcBasic.ResetInitial` | libs/boost/crc.hpp:1755-1763 | Makes the initial remainder given at construction the remainder again. |
| `CrcComputers.CrcBasic.ProcessBit` | libs/boost/crc.hpp:1772-1781 | One step of the division. |
| `CrcComputers.CrcBasic.ProcessBits` | libs/boost/crc.hpp:1798-1815 | One step for each of the low bit_length bits, highest first, whatever the bits above them. |
| `CrcComputers.CrcBasic.ProcessByte` | libs/boost/crc.hpp:1828-1837 | Eight steps, in the order the reflection flag asks for. |
| `CrcComputers.CrcBasic.ProcessBlock` | libs/boost/crc.hpp:1863-1876 | The division of the old remainder by exactly the bytes between the two pointers. |
| `CrcComputers.CrcBasic.ProcessBytes` | libs/boost/crc.hpp:1898-1911 | The same for a whole buffer. |
| `CrcComputers.CrcBasic.Checksum` | libs/boost/crc.hpp:1925-1934 | Each bit of the result is the remainder bit of its place, or of the mirrored place if asked, against the bit of the mask; zeros above, whatever the stray bits. |
| `CrcComputers.CrcOptimal.constructor` | libs/boost/crc.hpp:1959-1969 | Makes the table for the formula and a register that shows the start value, stray bits dropped. |
| `CrcComputers.CrcOptimal.DoReflect` | libs/boost/crc.hpp:928-951 | Each of the three reflectors on any register, stray bits included. |
| `CrcComputers.CrcOptimal.GetInterimRemainder` | libs/boost/crc.hpp:2037-2049 | The remainder the register shows, unreflected, with zeros above it, stray bits or not. |
| `CrcComputers.CrcOptimal.Reset` | libs/boost/crc.hpp:2065-2076 | Makes the given value the remainder shown, as documented; the table is untouched. |
| `CrcComputers.CrcOptimal.ProcessByte` | libs/boost/crc.hpp:2084-2095 | The one-byte case of the run. |
| `CrcComputers.CrcOptimal.ProcessBlock` | libs/boost/crc.hpp:2103-2116 | The run over exactly the bytes between the two pointers. |
| `CrcComputers.CrcOptimal.ProcessBytes` | libs/boost/crc.hpp:2124-2137 | Through whichever of the four loops applies, the run that UpdateHolds proves to be the division. |
| `CrcComputers.CrcOptimal.Checksum` | libs/boost/crc.hpp:2140-2151 | The same for the remainder the table-driven register shows. |
| `CrcComputers.Crc` | libs/boost/crc.hpp:2253-2267 | For a clean start value: the result, with the mask taken off and the order undone, is the remainder of start * x^k + block * x^n by the divisor; zeros above. |
| `CrcComputers.ConcatJoins` | libs/boost/crc.hpp:1696-1708 | Chunks make up the message: one chunk is itself, and lists of chunks follow one another. |
| `CrcComputers.BothComputers` | libs/boost/crc.hpp:1696-1708 | Both classes, fed one message in any chunks and each saved and resumed after any of them, end with the same checksum: that of the whole message. |
| `CrcComputers.ResumeHolds` | libs/boost/crc.hpp:2037-2076 | Starting again from the remainder shown restores the meaning of the register. |
| `CrcComputers.ResumeBasic` | libs/boost/crc.hpp:1696-1741 | get_interim_remainder followed by reset leaves the remainder of crc_basic as it was. |
| `CrcComputers.ResumeOptimal` | libs/boost/crc.hpp:2037-2076 | get_interim_remainder followed by reset leaves what the register of crc_optimal stands for as it was. |
| `CrcComputers.SameTableEitherWay` | libs/boost/crc.hpp:1000-1001 | The check the source leaves to do: building an entry with the augmented division, n zeros behind the dividend, gives the same entry. |
| `CrcComputers.AugmentedCrc` | libs/boost/crc.hpp:2318-2331 | The straight-up division of the start value by the block, for every order the byte-wise driver admits. |
| `CrcComputers.AugmentedCrcAgrees` | libs/boost/crc.hpp:2304-2308 | When 8 divides n: extending the block by n/8 zero bytes gives the unaugmented remainder of the block from the converted start value. |
| `CrcComputers.ResidueConfirms` | libs/boost/crc.hpp:2309-2316 | When 8 divides n: extending the block by n/8 bytes gives zero if and only if those bytes are its checksum in big-endian order. |
| `CrcStandards.StandardsAgree` | libs/boost/crc.hpp:127-143 | For each named formula, on any word wide enough, the table-driven and bit-wise checksums agree on every message. |
| `CrcStandards.StandardsDetectBursts` | libs/boost/crc.hpp:127-143 | Each named formula detects all bursts up to its order, except crc_xmodem_type, whose divisor 0x8408 has constant coefficient 0. |
| `CrcCheckValues.CheckValues` | libs/boost/crc.hpp:127-143 | Each named formula, by either computation and on any word wide enough, gives the characters 123456789 its published check value (for crc_32_type 0xCBF43926). |
| `IntegerGcd.GcdDivides` | libs/boost/integer/common_factor_rt.hpp:444-452 | The gcd divides both numbers. |
| `IntegerGcd.GcdGreatest` | libs/boost/integer/common_factor_rt.hpp:444-452 | Every common divisor divides the gcd. |
| `IntegerGcd.MakeOdd` | libs/boost/integer/common_factor_rt.hpp:129-142 | Shifts out exactly the factors of two, and counts them. |
| `IntegerGcd.GcdShared` | libs/boost/integer/common_factor_rt.hpp:344 | Of the factors of two stripped from both sides, the gcd has just the smaller number. |
| `IntegerGcd.ReduceKeepsGcd` | libs/boost/integer/common_factor_rt.hpp:348-351 | One round of the loop keeps the gcd, and leaves exactly one of the two even. |
| `IntegerGcd.OneSideStripped` | libs/boost/integer/common_factor_rt.hpp:354-355 | Stripping both sides of a pair of which one is odd and one even changes no gcd. |
| `IntegerGcd.MixedBinaryGcd` | libs/boost/integer/common_factor_rt.hpp:331-360 | The mixed binary algorithm returns the gcd of its arguments, zero included, and always ends. |
| `IntegerGcd.TruncDivMod` | libs/boost/rational.hpp:800-803 | Quotient and remainder of C++ division recombine, and the remainder has the size of that of the absolute values. |
| `IntegerGcd.GcdOfExact` | libs/boost/integer/common_factor_rt.hpp:444-452 | On a type no narrower than int with minimum lo, integer::gcd is the gcd of the absolute values, and is undefined exactly when lo meets 0, -1 or itself. |
| `RationalNumbers.NormalizedUnique` | libs/boost/rational.hpp:868-873 | Normal form is canonical: two normalised pairs have the same value if and only if they have the same fields. |
| `RationalNumbers.SumStaysNormal` | libs/boost/rational.hpp:522-535 | Dividing only by gcd(numerator, g) leaves the sum in lowest terms: the argument of the comment, proved. |
| `RationalNumbers.SumIsExact` | libs/boost/rational.hpp:541-546 | The shortened sum has the value of the full one, over a positive denominator. |
| `RationalNumbers.ProductStaysNormal` | libs/boost/rational.hpp:577-581 | Crosswise reduction alone leaves the product in lowest terms. |
| `RationalNumbers.ProductIsExact` | libs/boost/rational.hpp:577-581 | The crosswise reduced product has the value of the full one. |
| `RationalNumbers.CompareCycles` | libs/boost/rational.hpp:815-841 | Different whole parts decide the order; equal ones leave it to the remainders, and an expansion that ends first decides it. |
| `RationalNumbers.FloorDecides` | libs/boost/rational.hpp:389-393 | n/d is below an integer if and only if its floor is. |
| `RationalNumbers.Rational.FromInteger` | libs/boost/rational.hpp:184-186 | An integer over 1 is in normal form and has the integer's value. |
| `RationalNumbers.Rational.Create` | libs/boost/rational.hpp:189-193 | Any pair but a zero denominator gives a normalised number of that value; a zero denominator is bad_rational. |
| `RationalNumbers.Rational.Normalize` | libs/boost/rational.hpp:885-916 | Reduces to normal form and keeps the value; fails exactly on a zero denominator and then changes nothing. |
| `RationalNumbers.Rational.AddAssign` | libs/boost/rational.hpp:516-549 | Exactly the sum, in normal form, also when the operand is the same object. |
| `RationalNumbers.Rational.SubAssign` | libs/boost/rational.hpp:551-568 | Exactly the difference, in normal form, also when the operand is the same object. |
| `RationalNumbers.Rational.MulAssign` | libs/boost/rational.hpp:570-583 | Exactly the product, in normal form, also when the operand is the same object. |
| `RationalNumbers.Rational.DivAssign` | libs/boost/rational.hpp:585-612 | Exactly the quotient, in normal form; throws exactly for a zero divisor and then changes nothing. |
| `RationalNumbers.Rational.AddInt` | libs/boost/rational.hpp:292-297 | Exactly the sum with an integer, still in normal form without any reduction. |
| `RationalNumbers.Rational.SubInt` | libs/boost/rational.hpp:298-303 | Exactly the difference, still in normal form without any reduction. |
| `RationalNumbers.Rational.MulInt` | libs/boost/rational.hpp:304-312 | Exactly the product with an integer, in normal form. |
| `RationalNumbers.Rational.DivInt` | libs/boost/rational.hpp:313-333 | Exactly the quotient by an integer, in normal form; throws exactly for zero and then changes nothing. |
| `RationalNumbers.Rational.Equals` | libs/boost/rational.hpp:868-873 | Comparing fields is comparing values. |
| `RationalNumbers.Rational.Less` | libs/boost/rational.hpp:783-866 | The paired continued-fraction loop ends and returns whether this value is the smaller real number, negative operands included; on a type with minimum lo no quotient, remainder or sum in it leaves the range. |
| `RationalNumbers.Rational.LessThanInt` | libs/boost/rational.hpp:378-394 | Comparing the floor with an integer decides whether the value is below it, and computing the floor never leaves the range of the type. |
| `RationalBounds.InnerGcdIsGcd` | libs/boost/rational.hpp:413-416 | On signed arguments with the truncated remainder, inner_gcd is the gcd up to sign. |
| `RationalBounds.IsNormalizedDecides` | libs/boost/rational.hpp:429-435 | is_normalized decides the invariant exactly. |
| `RationalBounds.LcmTimesGcd` | libs/boost/integer/common_factor_rt.hpp:430-439 | lcm times gcd is the absolute product; lcm is zero exactly when an argument is. |
| `RationalBounds.GcdAlreadyReduced` | libs/boost/rational.hpp:1014-1026 | The pair gcd_evaluator builds is already in normal form. |
| `RationalBounds.LcmAlreadyReduced` | libs/boost/rational.hpp:1028-1040 | The pair lcm_evaluator builds is already in normal form. |
| `RationalBounds.GcdMeasures` | libs/boost/rational.hpp:1014-1026 | Each argument is an integer multiple of a non-zero gcd of fractions. |
| `RationalBounds.GcdTimesLcm` | libs/boost/rational.hpp:1014-1040 | The gcd of two fractions times their lcm is the absolute value of their product. |
| `RationalBounds.SumsAgree` | libs/boost/rational.hpp:516-549 | Both groupings of a sum end with the same numerator and denominator. |
| `RationalBounds.ProductsAgree` | libs/boost/rational.hpp:570-583 | Both groupings of a product end with the same numerator and denominator. |
| `RationalBounds.ProductDistributes` | libs/boost/rational.hpp:516-583 | Both sides of the distributive law end with the same numerator and denominator. |
| `RationalBounds.CombineExact` | libs/boost/rational.hpp:516-568 | On a bounded type operator+= and operator-= give the reduced result if and only if the two cross products, their sum or difference, and the reduced denominator fit; otherwise they are undefined. |
| `RationalBounds.SumSwaps` | libs/boost/rational.hpp:516-549 | Swapping the operands of operator+= changes neither the result nor whether there is one. |
| `RationalBounds.DifferenceIsSum` | libs/boost/rational.hpp:551-568 | Subtracting has the outcome of adding the opposite, except where a product is at the very end of the range. |
| `RationalBounds.ProductFormsOnlyTheResult` | libs/boost/rational.hpp:570-583 | Every product operator*= forms is already a field of the reduced result, and every factor is no larger than an operand. |
| `RationalBounds.MulExact` | libs/boost/rational.hpp:570-583 | On a bounded type operator*= gives the reduced result if and only if that result fits, and is undefined otherwise. |
| `RationalBounds.QuotientFormsTheResult` | libs/boost/rational.hpp:602-605 | Every product operator/= forms is a field of the reduced result, up to the sign of the divisor. |
| `RationalBounds.DivExact` | libs/boost/rational.hpp:585-612 | On a bounded type operator/= by a non-zero number gives the reduced result if and only if the dividend is zero, or the result fits, the numerators have a gcd, and the minimum need not change its sign. |
| `RationalBounds.SumMayOverflowMidway` | libs/boost/rational.hpp:519-543 | On every signed type no narrower than int there are two operands whose sum is 1/2 and for which operator+= is undefined. |
| `RationalBounds.AddIntLikeFraction` | libs/boost/rational.hpp:292-303 | On a bounded type adding or subtracting an integer gives just what the fraction i/1 would, defined in just the same cases. |
| `RationalBounds.MulIntLikeFraction` | libs/boost/rational.hpp:304-312 | The same for multiplying by an integer. |
| `RationalBounds.DivIntLikeFraction` | libs/boost/rational.hpp:313-333 | The same for dividing by an integer, zero included. |
| `RationalBounds.ConstructionExact` | libs/boost/rational.hpp:885-916 | On a bounded type no narrower than int: exactly which pairs throw, exactly which are undefined, and all others give a normalised pair in range with the value asked for. |
| `CharSeparators.CharSeparator.constructor` | libs/boost/token_functions.hpp:434-455 | A fresh separator has put out nothing. |
| `CharSeparators.CharSeparator.Reset` | libs/boost/token_functions.hpp:457 | Changes nothing, so what an earlier run left stays. |
| `CharSeparators.CharSeparator.ScanWord` | libs/boost/token_functions.hpp:522-523 | Stops at the first character after the start that delimits, or at the end. |
| `CharSeparators.CharSeparator.NextDroppingEmpty` | libs/boost/token_functions.hpp:470-491 | Delivers the next non-empty field or kept delimiter of the split still ahead, and false exactly when there is none. |
| `CharSeparators.CharSeparator.NextKeepingEmpty` | libs/boost/token_functions.hpp:492-526 | Delivers the next field of the split still ahead, empty ones included, and false exactly when there is none. |
| `CharSeparators.CharSeparator.Next` | libs/boost/token_functions.hpp:459-529 | Each call takes exactly the first element off what is still ahead and makes 2 * remaining + (output not done) smaller; false exactly when nothing is ahead. |
| `CharSeparators.CharSeparator.CallUntilDone` | libs/boost/token_functions.hpp:459-529 | Calling operator() on one object until it answers false ends and yields exactly what was ahead; under keep_empty_tokens it leaves the flag set. |
| `CharSeparators.CharSeparator.Tokenize` | libs/boost/token_iterator.hpp:53-80 | A token_iterator runs on its own copy: it yields what was ahead of this object, nothing for an empty text, and leaves this object as it is. |
| `CharSeparators.TokenizeEach` | libs/boost/token_iterator.hpp:70-80 | Any number of token_iterators over one separator: under either policy the tokens of each run are the one-pass split of its text. |
| `CharSeparators.SplitWord` | libs/boost/token_functions.hpp:519-525 | A maximal run of plain characters is one field of the split. |
| `CharSeparators.SplitCount` | libs/boost/token_functions.hpp:492-526 | The split has 1 + delimiters + kept delimiters tokens. |
| `CharSeparators.SplitConserves` | libs/boost/token_functions.hpp:410-415 | The fields joined give back the text without its dropped delimiters, in order. |
| `CharSeparators.NonEmptyConserves` | libs/boost/token_functions.hpp:470-491 | Dropping empty fields loses no character and leaves no empty token. |
| `CharSeparators.NonEmptyKeeps` | libs/boost/token_functions.hpp:470-491 | Every non-empty field is kept, as often as it was there. |
| `CharSeparators.ListsDecide` | libs/boost/token_functions.hpp:434-447 | Made from two lists, under either policy: no token holds a dropped character, every kept one is a token of its own, and the tokens joined are the text without the dropped characters; the policy decides for characters in both lists. |
| `CharSeparators.DefaultDecides` | libs/boost/token_functions.hpp:449-455 | Made without lists: no token holds white space, every punctuation mark is a token of its own, and nothing else is lost. |
| `CharSeparators.SecondRun` | libs/boost/token_functions.hpp:457 | A run begun with the flag set, under keep_empty_tokens, is right if and only if its text begins with a plain character; otherwise exactly its first, empty, field is missing. |
| `CharSeparators.RunTwice` | libs/boost/token_functions.hpp:457-529 | Calling one object directly, to the end of a first text and after reset() over a second, makes the second such a run. |
| `EscapedLists.EscapedListSeparator.constructor` | libs/boost/token_functions.hpp:153-158 | A fresh separator owes no blank field. |
| `EscapedLists.EscapedListSeparator.Reset` | libs/boost/token_functions.hpp:160 | Forgets an owed blank field. |
| `EscapedLists.EscapedListSeparator.DoEscape` | libs/boost/token_functions.hpp:127-149 | Adds what the escaped character stands for and stays on it; throws at the end of the text and on any other character. |
| `EscapedLists.EscapedListSeparator.Next` | libs/boost/token_functions.hpp:162-199 | Each call takes exactly the first field off the parse still ahead; it ends exactly when nothing is owed, and throws exactly when the parse does with no complete field before. |
| `EscapedLists.EscapedListSeparator.CallUntilDone` | libs/boost/token_functions.hpp:162-199 | Calling operator() on one object until it answers false or throws ends and yields exactly what was ahead. |
| `EscapedLists.EscapedListSeparator.Tokenize` | libs/boost/token_iterator.hpp:53-80 | A token_iterator resets its own copy and yields the one-pass parse of the text: all complete fields, and the exception that ended it. |
| `EscapedLists.EscapeMeaning` | libs/boost/token_functions.hpp:127-149 | An escaped n is a line break whatever the roles; an escaped character with a role is itself; any other, or none, is an exception. |
| `EscapedLists.SeparatorFirst` | libs/boost/token_functions.hpp:180-193 | A separator separates outside quotes and is an ordinary character inside, even if it is a quote as well. |
| `EscapedLists.ParseEncoded` | libs/boost/token_functions.hpp:162-199 | For disjoint roles and a style that need not escape n: any non-empty list of fields, written bare, in quotes, or in quotes with raw separators, and joined, parses back to itself, empty and trailing empty fields included. |
| `EscapedLists.ParseThenRest` | libs/boost/token_functions.hpp:162-199 | Fields before a separator are delivered, whatever follows it, exceptions included. |
| `EscapedLists.ParseOpenQuote` | libs/boost/token_functions.hpp:191-198 | A quote that is never closed is no error. |
| `EscapedLists.NIsLost` | libs/boost/token_functions.hpp:131-134 | In a style that has to escape n, the field n comes back as a line break. |
| `EscapedLists.RoundTripExact` | libs/boost/token_functions.hpp:127-199 | For disjoint roles, in each of the three styles, every list survives the round trip if and only if the style need not escape n. |
| `EscapedLists.RoundTrip` | libs/boost/token_iterator.hpp:53-80 | A token_iterator over the encoded text returns the list it was made from; only the text of a single blank bare field is empty and yields nothing. |
| `StartupBarrier.InvStep` | utils/RedisUtils.cpp:46-105 | Every command of every process keeps the invariant: the set holds the names of those registered and not yet removed, and nothing opens before all are. |
| `StartupBarrier.InvRun` | utils/RedisUtils.cpp:46-105 | The invariant holds after every interleaving in which registrations precede removals, for any set of processes. |
| `StartupBarrier.BarrierIsSafe` | utils/RedisUtils.cpp:53-105 | In every such interleaving nobody returns 0 before all have removed themselves, nobody is refused, and sim_running is set only while the set is empty. |
| `StartupBarrier.BarrierEndsOpen` | utils/RedisUtils.cpp:64-105 | When nothing more can happen sim_running is set, somebody came through, and whoever did not is a subscriber the message missed. |
| `StartupBarrier.RunningMeansZeroSeen` | utils/RedisUtils.cpp:66-72 | In any run, sim_running is set only after some process was told that the set is empty. |
| `StartupBarrier.SomebodyCountsZero` | utils/RedisUtils.cpp:64-79 | Once every process has its count, with registrations first and distinct names, at least one of them was told zero. |
| `StartupBarrier.RankStep` | utils/RedisUtils.cpp:46-105 | Every command that can be given leaves its process with fewer to give, a woken subscriber included. |
| `StartupBarrier.EveryRunEnds` | utils/RedisUtils.cpp:46-105 | Without any fairness: no run has more than six commands for each process. |
| `StartupBarrier.CanFinish` | utils/RedisUtils.cpp:46-105 | Every run can be carried on, by at most six commands for each process, to a state where nothing more can happen; an orderly run in order. |
| `StartupBarrier.CanOpen` | utils/RedisUtils.cpp:53-105 | Every orderly run of distinct names can be carried on until sim_running is set and somebody has returned 0. |
| `StartupBarrier.ThroughExactly` | utils/RedisUtils.cpp:64-105 | In any run, whatever the names and the order: once nothing more can happen, a process has returned 0 if and only if it counted zero or was subscribed at the moment of a publication. |
| `StartupBarrier.RefusedExactly` | utils/RedisUtils.cpp:57-63 | In any run, a process has returned 1 if and only if it looked for itself in the set and was not there. |
| `StartupBarrier.SharedNameIsUnsafe` | utils/RedisUtils.cpp:46-48 | Two processes with one name: there is an interleaving in which one returns 0 and the other has not removed itself. |
| `StartupBarrier.SafeExactlyWhenDistinct` | utils/RedisUtils.cpp:46-105 | With registrations first, the barrier is safe in all interleavings if and only if the names are distinct. |
| `StartupBarrier.LateRegistrationIsUnsafe` | utils/RedisUtils.cpp:53-79 | Without that order one process opens the barrier while another has not even started. |
| `StartupBarrier.SafeUnorderedExactly` | utils/RedisUtils.cpp:46-105 | With no order assumed, the barrier is safe in all interleavings if and only if there is at most one process. |
| `StartupBarrier.WakeUpCanBeMissed` | utils/RedisUtils.cpp:76-103 | Among two or more processes with distinct names, registered first, any one can subscribe after the last message and wait for ever while all others return. |
| `StartupBarrier.AllThroughExactly` | utils/RedisUtils.cpp:53-105 | With distinct names and registrations first, every run that has come to its end has let everybody through if and only if there is at most one process. |
| `TickBarrier.InvStep` | src/main.cpp:185-201 | Every step of main and of every worker keeps the accounts: each semaphore holds what was posted to it and not yet taken. |
| `TickBarrier.InvRun` | src/main.cpp:166-201 | The accounts hold in every state of every run, for any number of workers and ticks. |
| `TickBarrier.Lockstep` | src/main.cpp:185-201 | In every reachable state each worker has completed tick_n or tick_n + 1 ticks, and exactly all of them once main has. |
| `TickBarrier.InsideTheTick` | src/main.cpp:185-201 | In every reachable state a worker inside a tick is inside the one main is at, after main posted to it and before main waited for it. |
| `TickBarrier.NobodyInsideAtTheCount` | src/main.cpp:194-199 | When main counts, and between rounds, no worker is inside a tick. |
| `TickBarrier.WorkersTogether` | src/main.cpp:185-201 | Any two workers are within one tick of each other. |
| `TickBarrier.SomebodyMoves` | src/main.cpp:185-201 | Before the last tick is over somebody can always move. |
| `TickBarrier.EndIsComplete` | src/main.cpp:185-201 | When nobody can move, main and all workers have done all ticks and every semaphore is back at zero. |
| `TickBarrier.StepsLeftStep` | src/main.cpp:185-201 | Every step, whoever makes it, uses up exactly one of the steps left. |
| `TickBarrier.EveryRunEnds` | src/main.cpp:185-201 | Without any fairness: a run of k workers and n ticks has at most n * (5k + 1) steps, and has come to its end if and only if it has made that many. |
| `ThreadBarrier.InvStep` | src/Scanner/ThreadUtils.cpp:80-116 | Whoever arrives, goes on, joins or leaves: everyone blocked is either still being counted or has a permit to take. |
| `ThreadBarrier.StuckExactly` | src/Scanner/ThreadUtils.cpp:80-116 | In every reachable state, with threads joining and leaving, nobody can go on if and only if the waiting count equals the number of active threads. |
| `ThreadBarrier.ReleaseExactly` | src/Scanner/ThreadUtils.cpp:102-110 | With threads joining and leaving: permits are released exactly when the last member arrives and all earlier permits are used up, one for each member, and then all are inside sync(). |
| `ThreadBarrier.RoundsAreWhole` | src/Scanner/ThreadUtils.cpp:94-116 | With a fixed membership, in every reachable state, the permits taken and left are a whole number of rounds, and the waiting count is what the arrivals leave over. |
| `ThreadBarrier.NeverStuck` | src/Scanner/ThreadUtils.cpp:94-116 | With a fixed membership some thread can always move. |
| `ThreadBarrier.UnboundedDrift` | src/Scanner/ThreadUtils.cpp:94-116 | For every m there is a run in which one thread has passed m ticks and another none. |
| `ThreadBarrier.LockstepExactly` | src/Scanner/ThreadUtils.cpp:94-116 | The threads stay within one tick of each other in every run if and only if there is at most one. |
| `ThreadBarrier.LeavingStrandsExactly` | src/Scanner/ThreadUtils.cpp:88-92 | In every reachable state, remove_thread() leaves the others stuck if and only if all of them, and only they, are waiting; otherwise somebody can go on. |
| `ThreadBarrier.OnlyLeavingStrands` | src/Scanner/ThreadUtils.cpp:80-116 | Nothing but leaving strands threads that are there; from then on only a new thread can act, and its arrival releases everybody. |
| `ThreadBarrier.LeavingStrandsTheRest` | src/Scanner/ThreadUtils.cpp:88-92 | For every membership of two or more and every thread in it, there is a run in which its leaving strands all others. |

## Left out

- Redis itself: connections, time-outs, exceptions and unknown messages; one command is one atomic step.
- More than one process may see an empty set and publish; how many do is not stated.
- Processes: `fork`, `kill`, `waitpid`, signals, sleeps, interrupted semaphore waits, and named semaphores left over from an earlier run (all start at 0).
- What the workers do within a tick, the drones, waves, charging, message queues, monitors and the database: a worker is its wait, its tick and its post.
- IntegerGcd.GcdOfExact: on types narrower than int, whose remainders are computed in int, the minimum has a remainder by -1; they are not modelled.
- RationalBounds.ConstructionExact: likewise types narrower than int, where the minimum as a numerator wraps instead of being undefined.
- RationalBounds.SumMayOverflowMidway: likewise types narrower than int, whose cross products are formed in int.
- RationalNumbers.Rational.Normalize: the class computes with integers of unlimited range, so the minimum as a denominator is left to RationalBounds.ConstructionExact.
- Rational input and output, conversions between integer types, `++` and `--`, unary minus, `abs`, and the operators derived from `<` and `==`: each is one line over what is proved.
- `Stein_gcd` and `Euclid_gcd`, which `integer::gcd` does not select for the built-in integer types, the bit-scan forms of make_odd on some compilers, and the variadic and compile-time forms of gcd and lcm.
- CrcComputers.CrcOptimal.constructor: the table is made for each object, where the original keeps one static table per formula.
- The limit of 64 bits on the order of a CRC: words of any width are modelled.
- Bytes of other than 8 bits.
- `offset_separator` and the deprecated `char_delimiters_separator`: simpler than the two tokenizers chosen.
- The tokenizers on single-pass input iterators, where the token is collected character by character and not cut out of the text.
- Locale-dependent classification: `ispunct` and `isspace` are parameters.
- `utils/LogUtils.cpp`, `utils/utils.cpp`, `src/globals.h`: formatting, string conversion of a small enumeration, plain records and constants.
- The other Boost headers (`multi_array.hpp`, `multi_index_container.hpp` and so on): forwarding includes, traits and macros.
