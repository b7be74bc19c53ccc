# Models of the benchmark components

Dafny models of the components of this repository that carry an algorithm or a protocol, and
proofs about them.  `dafny verify dfyconfig.toml` checks everything.

**Checksums** (`crc.hpp`).  Registers are bit sequences as wide as the built-in type the library
picks for an order, lowest bit first.  `Division` has the bit loops in the two styles, `Tables`,
`Reflection` and `Updates` the look-up tables and byte loops, `CrcComputers` the two classes and
the one-shot functions.  `Linearity` and `TableDriven` reduce bytes to bits, `Gf2` and
`PolynomialMeaning` say what the bits mean, `ReflectedAugmented`, `CrcTheorems`,
`AugmentedTheorems` and `CrcOutputs` draw the conclusions.

**Rational numbers** (`rational.hpp`).  `NumberTheory` and `RationalLemmas` are the mathematics,
`Rationals` the class with its compound operators and comparisons, `RationalGcds` the normal-form
test and gcd/lcm of fractions.

**Peak-to-trough analysis** (`compute_ptt.c`).  `Instances` groups the sorted rows, `PeakToTrough`
is the sliding window, `WorkerPool` the threads as a step machine in every interleaving.

**Incremental ingestion** (`alibaba-cluster-trace-mem.py`).  `Ingestion` has the run that writes a
batch file and then the metadata, with every place where it can die; `IngestionRuns` is about
sequences of runs.

**Framed calls through a proxy** (`load-balancing/proxy`).  `Frames` and `Rpc` are the functions
on streams and buffers; `ProxyMachines` cuts the three programs into steps, `RpcSteps` shows that
the steps add up to the calls, and `ProxyRuns`, `ProxySimulation` and `ProxyLimits` are about all
runs.

**Request rate** (`spinhttpsrv`).  `RequestRate` has the two buckets, against the full history of
calls.

## What the code does otherwise than its text says

- `crc.hpp:1234-1253`: the reflected byte loop shifts bits above the order down into the
  remainder.  With reflected input and an order above 8 that is not 16, 32 or 64,
  `crc_optimal` and `crc_basic` disagree, unless the initial remainder has no bits above the order
  and the caller supplies the leading coefficient with the polynomial where the type has room for
  it.  The claim that an interrupted computation
  can be resumed (lines 1659-1671 and 1999-2039) fails for `crc_optimal` in just the same cases.
  `TableDrivenIsBitwiseIff` and `OptimalResumesIff` give the exact condition, `WrongMessageFails`
  a message for every failing set of the ordinary kind.
- `crc.hpp:864-877`: the sub-byte reflector is said to keep the upper bits; it clears them.
- `crc.hpp:963-964` asks whether the table is right for augmented division too.  It is
  (`TableServesBothStyles`), and so are the loops that read it, under the same condition when
  reflected.
- `compute_ptt.c:109`: a window with a nonpositive minimum counts for nothing, so with such
  values the five-minute result can be below the one-minute result (`NotMonotoneWithZero`);
  `NeverLowersIff` says for which timestamps and signs it cannot.
- `alibaba-cluster-trace-mem.py:440-444`: a run that finds nothing new analyses the directory as
  it is, including a batch file whose run died before the metadata (`AnalysisExactIff`,
  `DeadBatchAnalysed`); so does `--load-from` (lines 406-411), right after that run.
- `alibaba-cluster-trace-mem.py:426`: a reset that dies while it removes the directory can leave
  metadata without their batch files, or stale batch files without metadata (`TornRemovalIff`).
- `alibaba-cluster-trace-mem.py:137-138`: as many unreadable files at the head of the list as
  `--n-files` allows keep all that follows them out for good (`HasDataIff`, `TakenInIff`).
- `spinhttpsrv/main.go:120-152`: the previous bucket is that of the preceding window whatever is
  called just when the block of calls before the last one is that window's (`ExactAtTheseTimesIff`).
  A skipped window, or a call that takes effect late because the time is read outside the mutex,
  can break that; in order of time `OrderedExactAtTheseTimesIff` says which windows may be skipped.
- `rpc.go:11-19`: a number of calls that is negative or does not fit 32 bits is announced as
  another number, and the exchange then never completes (`ProxyLimits.CompletesIff`), except that
  a negative multiple of 2^32 stands for none.

## Model

| member | source | states |
|---|---|---|
| `CrcTheorems.TableDrivenIsBitwiseIff` | ray/cpp/ray-latency-test/thirdparty/include/boost/crc.hpp:1925-2114 | The table-driven computer gives the bit-wise checksum of every message if and only if the input is unreflected, or the order is below a byte, or the register holds nothing above its significant bits (nothing but the leading coefficient, in the divisor) |
| `CrcTheorems.FullRegisterIsFaithful` | ray/cpp/ray-latency-test/thirdparty/include/boost/crc.hpp:303-314 | For orders 8, 16, 32 and 64 the two computers agree on every message, whatever the other five parameters |
| `CrcTheorems.NamedTypesAreFaithful` | ray/cpp/ray-latency-test/thirdparty/include/boost/crc.hpp:92-109 | The named types, CRC-32 among them, give the bit-wise checksum of every message |
| `CrcTheorems.WrongMessageFails` | ray/cpp/ray-latency-test/thirdparty/include/boost/crc.hpp:1234-1253 | For every reflected-input CRC above a byte, strictly between two register widths and with nothing stored above the order, a two-byte message on which table and bit-wise form disagree |
| `CrcOutputs.BasicChecksumBits` | ray/cpp/ray-latency-test/thirdparty/include/boost/crc.hpp:1888-1897 | For every message, bit i of the checksum is bit i of the remainder, or the one that mirrors it, xored with bit i of the final value; above the order there is nothing |
| `CrcOutputs.OptimalChecksumBits` | ray/cpp/ray-latency-test/thirdparty/include/boost/crc.hpp:2102-2114 | The same of the table-driven computer, in terms of bit-wise division, for faithful parameters |
| `CrcOutputs.OptimalRegisterBits` | ray/cpp/ray-latency-test/thirdparty/include/boost/crc.hpp:2102-2114 | And in terms of its own register for any parameters, mirrored when just one end is reflected |
| `CrcOutputs.ResidueLaw` | ray/cpp/ray-latency-test/thirdparty/include/boost/crc.hpp:1888-1897 | For whole bytes and reflection of both ends or neither, a message followed by its own checksum has a checksum that depends on the parameters only |
| `CrcOutputs.OptimalResidueLaw` | ray/cpp/ray-latency-test/thirdparty/include/boost/crc.hpp:2102-2114 | The same of the table-driven computer |
| `CrcOutputs.MessageBitsAt` | ray/cpp/ray-latency-test/thirdparty/include/boost/crc.hpp:1791-1800 | The order of processing: byte after byte, each from its lowest bit up or its highest bit down |
| `CrcOutputs.InterimRemaindersAgree` | ray/cpp/ray-latency-test/thirdparty/include/boost/crc.hpp:1999-2012 | The two computers have the same interim remainder after every message, for faithful parameters |
| `CrcOutputs.Crc32Parameters` | ray/cpp/ray-latency-test/thirdparty/include/boost/crc.hpp:107-109 | The coefficients of the CRC-32 polynomial, and both values all ones |
| `CrcOutputs.Crc16Parameters` | ray/cpp/ray-latency-test/thirdparty/include/boost/crc.hpp:92-105 | The coefficients and values of the 16-bit types |
| `CrcOutputs.Crc32OfNothing` | ray/cpp/ray-latency-test/thirdparty/include/boost/crc.hpp:107-109 | The CRC-32 of the empty message is zero |
| `CrcTheorems.OutputsEqualIff` | ray/cpp/ray-latency-test/thirdparty/include/boost/crc.hpp:1888-1897 | Output reflection, final xor and masking neither hide nor invent a difference of the registers: checksums are equal exactly when the low bits correspond, mirrored when input is reflected |
| `CrcTheorems.BasicResumes` | ray/cpp/ray-latency-test/thirdparty/include/boost/crc.hpp:1659-1704 | A bit-wise computer loaded with the interim remainder after a continues with b to the checksum of a + b |
| `CrcTheorems.OptimalResumesIff` | ray/cpp/ray-latency-test/thirdparty/include/boost/crc.hpp:1999-2039 | The same for the table-driven computer, for all a and b, if and only if the parameters satisfy the condition above |
| `AugmentedTheorems.InterimRemainderCharacterized` | ray/cpp/ray-latency-test/thirdparty/include/boost/crc.hpp:1659-1680 | The interim remainder is the one polynomial of degree below n that is congruent to init*x^L + M*x^n modulo the divisor over GF(2), for a register of any width and any L submitted bits |
| `AugmentedTheorems.TableServesBothStyles` | ray/cpp/ray-latency-test/thirdparty/include/boost/crc.hpp:957-985 | The entry built with the unaugmented step is the one the augmented step needs, unreflected and reflected: the open question of the file, settled |
| `AugmentedTheorems.AugmentedRemainder` | ray/cpp/ray-latency-test/thirdparty/include/boost/crc.hpp:2250-2280 | Augmented division of a message followed by n zero bits is unaugmented division of the message; followed by n check bits it is zero exactly for the remainder |
| `AugmentedTheorems.ZeroBytesGiveChecksum` | ray/cpp/ray-latency-test/thirdparty/include/boost/crc.hpp:2267-2294 | augmented_crc of a message and Bits/8 zero bytes is the plain crc of the message |
| `AugmentedTheorems.CheckedMessageIsZeroIff` | ray/cpp/ray-latency-test/thirdparty/include/boost/crc.hpp:2267-2294 | augmented_crc of a message and a big-endian check value is zero if and only if the value is the plain crc |
| `AugmentedTheorems.InitialRemainderConversion` | ray/cpp/ray-latency-test/thirdparty/include/boost/crc.hpp:2250-2280 | An augmented run from an initial remainder is an unaugmented run from that remainder pushed through n zero bits |
| `AugmentedTheorems.AugmentedResumes` | ray/cpp/ray-latency-test/thirdparty/include/boost/crc.hpp:2252-2254 | A block may be read in several runs, each given what the one before returned |
| `AugmentedTheorems.BurstErrorDetected` | ray/cpp/ray-latency-test/thirdparty/include/boost/crc.hpp:548-576 | Two messages that differ in a burst of at most n bits have different remainders, if the divisor has a constant term |
| `TableDriven.DirectUpdateDivides` | ray/cpp/ray-latency-test/thirdparty/include/boost/crc.hpp:1141-1159 | The unreflected byte loop leaves the bit-wise remainder in the low bits, for every order from 8 up, register width and message |
| `TableDriven.AugDirectUpdateDivides` | ray/cpp/ray-latency-test/thirdparty/include/boost/crc.hpp:1110-1128 | The same for the augmented style |
| `TableDriven.ReflectedUpdateDivides` | ray/cpp/ray-latency-test/thirdparty/include/boost/crc.hpp:1234-1253 | The reflected byte loop on a mirrored register leaves the mirrored bit-wise remainder, in all bits, when nothing is held above the order |
| `TableDriven.AugReflectedUpdateDivides` | ray/cpp/ray-latency-test/thirdparty/include/boost/crc.hpp:1201-1220 | The same for the augmented style |
| `TableDriven.ReflectedUpdateDividesIff` | ray/cpp/ray-latency-test/thirdparty/include/boost/crc.hpp:1234-1253 | The reflected loop is right for every message exactly when register and divisor hold nothing above the order but the leading coefficient |
| `ReflectedAugmented.AugReflectedUpdateDividesIff` | ray/cpp/ray-latency-test/thirdparty/include/boost/crc.hpp:1201-1220 | The same for the augmented style, from any given register |
| `ReflectedAugmented.AugDivisorShows` | ray/cpp/ray-latency-test/thirdparty/include/boost/crc.hpp:1201-1220 | Started from zero, a loop that shows the right low bits after every message has a divisor with nothing above the order but the leading coefficient |
| `TableDriven.IndistinguishableMeansEqual` | ray/cpp/ray-latency-test/thirdparty/include/boost/crc.hpp:1234-1253 | Two reflected registers whose low bits agree after every message are equal in every bit: what is stored above the order always surfaces |
| `Linearity.StepsLinear` | ray/cpp/ray-latency-test/thirdparty/include/boost/crc.hpp:548-576 | Bit-wise division distributes over xor, in register and message |
| `Linearity.AugStepsLinear` | ray/cpp/ray-latency-test/thirdparty/include/boost/crc.hpp:667-692 | The same for the augmented style |
| `Linearity.PartialProduct` | ray/cpp/ray-latency-test/thirdparty/include/boost/crc.hpp:1141-1159 | k steps on any register are a shift of its rest plus the partial product chosen by the leading bits and the input |
| `Linearity.AugPartialProduct` | ray/cpp/ray-latency-test/thirdparty/include/boost/crc.hpp:1110-1128 | k augmented steps use the same partial products, indexed by the leading bits alone |
| `Linearity.StepsLowBits` | ray/cpp/ray-latency-test/thirdparty/include/boost/crc.hpp:548-576 | The low n bits never depend on the uncleared bits above them |
| `PolynomialMeaning.StepsMeaning` | ray/cpp/ray-latency-test/thirdparty/include/boost/crc.hpp:548-576 | The loop computes a residue of init*x^L + M*x^n |
| `PolynomialMeaning.AugStepsMeaning` | ray/cpp/ray-latency-test/thirdparty/include/boost/crc.hpp:667-692 | The augmented loop computes a residue of init*x^L + M |
| `PolynomialMeaning.RemainderCharacterized` | ray/cpp/ray-latency-test/thirdparty/include/boost/crc.hpp:548-692 | Existence and uniqueness of the remainder, both styles |
| `Gf2.MulMonomial` | ray/cpp/ray-latency-test/thirdparty/include/boost/crc.hpp:548-576 | What multiplication of polynomials means: with MulAdds, a multiple is a sum of shifted copies |
| `Reflection.ReflectUnsigned` | ray/cpp/ray-latency-test/thirdparty/include/boost/crc.hpp:383-397 | The two-mask swap loop reverses the low word_length bits and nothing else |
| `Reflection.ReflectIsInvolution` | ray/cpp/ray-latency-test/thirdparty/include/boost/crc.hpp:383-397 | Reflecting twice changes nothing |
| `Reflection.MakeByteReflectionTable` | ray/cpp/ray-latency-test/thirdparty/include/boost/crc.hpp:408-418 | All 256 entries are the reversed indices |
| `Reflection.ReflectSubByte` | ray/cpp/ray-latency-test/thirdparty/include/boost/crc.hpp:455-456 | The shifted table look-up is the reflection with the upper bits cleared |
| `Reflection.SubByteAgreesIff` | ray/cpp/ray-latency-test/thirdparty/include/boost/crc.hpp:864-877 | Swap loop and shifted look-up agree on the low bits, and on the whole byte exactly when its upper bits were clear |
| `Division.CrcModuloWordUpdate` | ray/cpp/ray-latency-test/thirdparty/include/boost/crc.hpp:548-576 | The masked loop is the sequence of division steps over the word, highest or lowest bit first |
| `Division.CrcModuloUpdate` | ray/cpp/ray-latency-test/thirdparty/include/boost/crc.hpp:614-620 | One bit, one step |
| `Division.AugmentedCrcModuloWordUpdate` | ray/cpp/ray-latency-test/thirdparty/include/boost/crc.hpp:667-692 | The masked loop of the augmented style likewise |
| `Tables.MakePartialXorProductsTable` | ray/cpp/ray-latency-test/thirdparty/include/boost/crc.hpp:966-985 | Every index, reflected or not, holds its partial product when the loop over dividends ends |
| `Updates.DirectCrcUpdate` | ray/cpp/ray-latency-test/thirdparty/include/boost/crc.hpp:1141-1159 | The loop over the bytes equals the recursive table-driven update |
| `Updates.ReflectedCrcUpdate` | ray/cpp/ray-latency-test/thirdparty/include/boost/crc.hpp:1234-1253 | The same, right-shifting |
| `Updates.DirectAugmentedCrcUpdate` | ray/cpp/ray-latency-test/thirdparty/include/boost/crc.hpp:1110-1128 | The same, augmented |
| `Updates.ReflectedAugmentedCrcUpdate` | ray/cpp/ray-latency-test/thirdparty/include/boost/crc.hpp:1201-1220 | The same, augmented and right-shifting |
| `Updates.SubByteCrcUpdate` | ray/cpp/ray-latency-test/thirdparty/include/boost/crc.hpp:1407-1451 | Below a byte: reflect, divide the whole block bit by bit, reflect back |
| `Updates.SubByteAugmentedCrcUpdate` | ray/cpp/ray-latency-test/thirdparty/include/boost/crc.hpp:1323-1362 | The same, augmented |
| `CrcTheorems.AugSubByteDivides` | ray/cpp/ray-latency-test/thirdparty/include/boost/crc.hpp:1323-1362 | Its low bits are those of bit-wise augmented division, mirrored on the way in and out when reflected |
| `CrcOutputs.RegWidthIsLeast` | ray/cpp/ray-latency-test/thirdparty/include/boost/crc.hpp:155 | Registers have the least of the built-in widths that hold the order |
| `CrcComputers.CrcBasic.constructor` | ray/cpp/ray-latency-test/thirdparty/include/boost/crc.hpp:1554-1568 | Establishes the invariant with nothing processed |
| `CrcComputers.CrcBasic.GetInterimRemainder` | ray/cpp/ray-latency-test/thirdparty/include/boost/crc.hpp:1659-1680 | Low bits of the division of everything submitted |
| `CrcComputers.CrcBasic.ResetTo` | ray/cpp/ray-latency-test/thirdparty/include/boost/crc.hpp:1682-1704 | Fresh start from a given remainder, parameters kept |
| `CrcComputers.CrcBasic.Reset` | ray/cpp/ray-latency-test/thirdparty/include/boost/crc.hpp:1706-1726 | Fresh start from the initial remainder |
| `CrcComputers.CrcBasic.ProcessBit` | ray/cpp/ray-latency-test/thirdparty/include/boost/crc.hpp:1735-1744 | Keeps register = division of all submitted bits |
| `CrcComputers.CrcBasic.ProcessBits` | ray/cpp/ray-latency-test/thirdparty/include/boost/crc.hpp:1761-1778 | Submits the low bits, highest first |
| `CrcComputers.CrcBasic.ProcessByte` | ray/cpp/ray-latency-test/thirdparty/include/boost/crc.hpp:1791-1800 | Submits eight bits in the order reflection asks for |
| `CrcComputers.CrcBasic.ProcessBlock` | ray/cpp/ray-latency-test/thirdparty/include/boost/crc.hpp:1826-1839 | Submits the message bits of the block |
| `CrcComputers.CrcBasic.ProcessBytes` | ray/cpp/ray-latency-test/thirdparty/include/boost/crc.hpp:1861-1874 | Submits the message bits of the first byteCount bytes |
| `CrcComputers.CrcBasic.Checksum` | ray/cpp/ray-latency-test/thirdparty/include/boost/crc.hpp:1888-1897 | Output processing of the division of all submitted bits |
| `CrcComputers.CrcOptimal.constructor` | ray/cpp/ray-latency-test/thirdparty/include/boost/crc.hpp:1922-1932 | Loads the register reflected when input is |
| `CrcComputers.CrcOptimal.GetInterimRemainder` | ray/cpp/ray-latency-test/thirdparty/include/boost/crc.hpp:1999-2012 | The update over all submitted bytes, reflected back and masked |
| `CrcComputers.CrcOptimal.Reset` | ray/cpp/ray-latency-test/thirdparty/include/boost/crc.hpp:2014-2039 | Fresh start from a given remainder |
| `CrcComputers.CrcOptimal.ProcessBytes` | ray/cpp/ray-latency-test/thirdparty/include/boost/crc.hpp:2087-2100 | Keeps register = table-driven update of all submitted bytes, however they were split |
| `CrcComputers.CrcOptimal.ProcessByte` | ray/cpp/ray-latency-test/thirdparty/include/boost/crc.hpp:2047-2058 | A block of one byte |
| `CrcComputers.CrcOptimal.Checksum` | ray/cpp/ray-latency-test/thirdparty/include/boost/crc.hpp:2102-2114 | Output processing of the update over all submitted bytes |
| `CrcComputers.OptimalUpdateConcat` | ray/cpp/ray-latency-test/thirdparty/include/boost/crc.hpp:2087-2100 | Splitting a message anywhere leaves the register the same, in all widths |
| `CrcComputers.Crc` | ray/cpp/ray-latency-test/thirdparty/include/boost/crc.hpp:2216-2230 | The one-shot function is the table-driven checksum of the buffer |
| `CrcComputers.AugmentedCrc` | ray/cpp/ray-latency-test/thirdparty/include/boost/crc.hpp:2281-2294 | The one-shot augmented function likewise |
| `Rationals.Rational.Normalize` | ray/cpp/ray-latency-test/thirdparty/include/boost/rational.hpp:885-916 | Lowest terms, positive denominator, same value; a zero denominator and one that cannot be negated are the only refusals |
| `Rationals.SingularIff` | ray/cpp/ray-latency-test/thirdparty/include/boost/rational.hpp:885-916 | The second refusal happens exactly for the least representable denominator and a nonzero coprime numerator |
| `Rationals.Rational.Create` | ray/cpp/ray-latency-test/thirdparty/include/boost/rational.hpp:188-193 | The checked constructor: the value n/d in lowest terms, or the refusal |
| `Rationals.Rational.AddAssign` | ray/cpp/ray-latency-test/thirdparty/include/boost/rational.hpp:515-549 | Exact sum, in lowest terms although only gcd(numerator, g) is divided out; also when the operand is the object itself |
| `Rationals.Rational.SubtractAssign` | ray/cpp/ray-latency-test/thirdparty/include/boost/rational.hpp:551-568 | Exact difference, likewise |
| `Rationals.Rational.MultiplyAssign` | ray/cpp/ray-latency-test/thirdparty/include/boost/rational.hpp:570-583 | Exact product in lowest terms by cross gcds |
| `Rationals.Rational.DivideAssign` | ray/cpp/ray-latency-test/thirdparty/include/boost/rational.hpp:585-612 | Exact quotient in lowest terms with positive denominator; division by zero refused without change |
| `Rationals.Rational.AddInt` | ray/cpp/ray-latency-test/thirdparty/include/boost/rational.hpp:292-297 | Exact sum with an integer, no gcd needed |
| `Rationals.Rational.SubtractInt` | ray/cpp/ray-latency-test/thirdparty/include/boost/rational.hpp:298-303 | Exact difference with an integer |
| `Rationals.Rational.MultiplyInt` | ray/cpp/ray-latency-test/thirdparty/include/boost/rational.hpp:304-312 | Exact product with an integer in lowest terms |
| `Rationals.Rational.DivideInt` | ray/cpp/ray-latency-test/thirdparty/include/boost/rational.hpp:313-333 | Exact quotient by an integer in lowest terms; zero refused without change |
| `Rationals.Rational.LessThan` | ray/cpp/ray-latency-test/thirdparty/include/boost/rational.hpp:782-866 | The continued-fraction comparison ends, decides a*d < c*b, and every intermediate value stays within the bounds of the four fields' type |
| `Rationals.Rational.GreaterThan` | ray/cpp/ray-latency-test/thirdparty/include/boost/rational.hpp:374 | The mirrored comparison |
| `Rationals.Rational.Equals` | ray/cpp/ray-latency-test/thirdparty/include/boost/rational.hpp:868-873 | Field-wise equality is equality of values |
| `Rationals.Rational.LessThanInt` | ray/cpp/ray-latency-test/thirdparty/include/boost/rational.hpp:378-394 | Comparison by the floor agrees with the order of values |
| `Rationals.Rational.GreaterThanInt` | ray/cpp/ray-latency-test/thirdparty/include/boost/rational.hpp:395-399 | Greater than an integer, in the same order of values |
| `Rationals.Rational.EqualsInt` | ray/cpp/ray-latency-test/thirdparty/include/boost/rational.hpp:400-404 | Equality with an integer is equality of values |
| `Rationals.FloorDivide` | ray/cpp/ray-latency-test/thirdparty/include/boost/rational.hpp:797-812 | Truncating division corrected to the floor, all values in range |
| `NumberTheory.TruncatingDivision` | ray/cpp/ray-latency-test/thirdparty/include/boost/rational.hpp:797-812 | The quotients are truncated towards zero: the remainder is smaller than the divisor and has the sign of the dividend |
| `Rationals.RemaindersDecide` | ray/cpp/ray-latency-test/thirdparty/include/boost/rational.hpp:814-866 | With equal quotients the reciprocals of the remainders decide in reverse |
| `NumberTheory.LowestTermsUnique` | ray/cpp/ray-latency-test/thirdparty/include/boost/rational.hpp:868-873 | A value has one pair in lowest terms |
| `RationalLemmas.SumLowestTerms` | ray/cpp/ray-latency-test/thirdparty/include/boost/rational.hpp:515-549 | The number theory behind the partial gcd of the sum |
| `RationalLemmas.ProductLowestTerms` | ray/cpp/ray-latency-test/thirdparty/include/boost/rational.hpp:570-583 | And behind the cross gcds of the product |
| `RationalGcds.InnerGcdIsGcd` | ray/cpp/ray-latency-test/thirdparty/include/boost/rational.hpp:413-416 | The recursive gcd with sign-following remainders is the gcd up to sign |
| `RationalGcds.IsNormalizedIff` | ray/cpp/ray-latency-test/thirdparty/include/boost/rational.hpp:429-435 | The test accepts exactly d > 0 and gcd 1 |
| `RationalGcds.FractionGcd` | ray/cpp/ray-latency-test/thirdparty/include/boost/rational.hpp:1014-1026 | gcd of numerators over lcm of denominators is in lowest terms, divides both operands, and is divided by every common divisor |
| `RationalGcds.FractionLcm` | ray/cpp/ray-latency-test/thirdparty/include/boost/rational.hpp:1028-1040 | The dual statement |
| `RationalGcds.GcdOfValues` | ray/cpp/ray-latency-test/thirdparty/include/boost/rational.hpp:1014-1026 | In terms of values: the gcd goes into both numbers, and every rational number that goes into both goes into it |
| `RationalGcds.LcmOfValues` | ray/cpp/ray-latency-test/thirdparty/include/boost/rational.hpp:1028-1040 | Both numbers go into the lcm, and it goes into every rational number that both go into |
| `RationalGcds.IntegerMultipleIff` | ray/cpp/ray-latency-test/thirdparty/include/boost/rational.hpp:1014-1040 | The integer statements say what the values are to each other |
| `RationalGcds.GcdEvaluate` | ray/cpp/ray-latency-test/thirdparty/include/boost/rational.hpp:1014-1026 | The evaluator never throws and returns just that fraction |
| `RationalGcds.LcmEvaluate` | ray/cpp/ray-latency-test/thirdparty/include/boost/rational.hpp:1028-1040 | Likewise |
| `RationalGcds.Negate` | ray/cpp/ray-latency-test/thirdparty/include/boost/rational.hpp:508-513 | Unary minus: the negated value, never refused |
| `PeakToTrough.SlidingMaxPtt` | compute_ptt_c/compute_ptt.c:93-115 | The two-pointer loop equals the brute-force maximum of 1 and max/min over every full backward window with positive minimum |
| `PeakToTrough.ExtremesUnique` | compute_ptt_c/compute_ptt.c:103-108 | The scan's extremes are those of the window |
| `PeakToTrough.MaxRatioBounds` | compute_ptt_c/compute_ptt.c:93-115 | For positive values no ratio of two samples at most the window apart, in either order, exceeds the result |
| `PeakToTrough.MaxRatioAttained` | compute_ptt_c/compute_ptt.c:93-115 | And some such pair attains it |
| `PeakToTrough.NeverLowersIff` | compute_ptt_c/compute_ptt.c:93-115 | For any signs of the values: whatever the positive values are, the other window does not lower the result, if and only if every two samples that share a window with positive minimum share such a window of the other length |
| `PeakToTrough.SharedRatioBounds` | compute_ptt_c/compute_ptt.c:103-112 | No ratio of two samples that share a window with positive minimum exceeds the result |
| `PeakToTrough.SharedRatioAttained` | compute_ptt_c/compute_ptt.c:103-112 | A result above one is such a ratio |
| `PeakToTrough.MaxRatioMonotone` | compute_ptt_c/compute_ptt.c:133-136 | Hence, when all values are positive, the five-minute result is never below the one-minute result |
| `PeakToTrough.NotMonotoneWithZero` | compute_ptt_c/compute_ptt.c:133-136 | With a zero value the five-minute result can be below the one-minute result |
| `Instances.Instance.Push` | compute_ptt_c/compute_ptt.c:58-68 | Appends to both buffers through reallocation, contents kept |
| `Instances.LoadRows` | compute_ptt_c/compute_ptt.c:257-282 | Every row lands in exactly one instance, in order; instances have distinct identifiers and ascending, nonempty samples |
| `Instances.InstancesDistinct` | compute_ptt_c/compute_ptt.c:265-282 | No two groups of a sorted input share an identifier |
| `Instances.GroupAscends` | compute_ptt_c/compute_ptt.c:265-282 | Each group meets what the sliding window needs |
| `WorkerPool.ChunksPartition` | compute_ptt_c/compute_ptt.c:302-313 | For any number of threads from 1 to the number of instances every instance is in exactly one chunk |
| `WorkerPool.ChunkSizeIsCeiling` | compute_ptt_c/compute_ptt.c:302-304 | The chunk size is the least that covers all instances |
| `WorkerPool.ChunkIsStretch` | compute_ptt_c/compute_ptt.c:305-311 | Chunk t is the t-th stretch of that size, cut off at the end |
| `WorkerPool.Clamp` | compute_ptt_c/compute_ptt.c:295-296 | The number of threads is the one asked for, moved to the nearest end of 1 to the number of instances if it lies outside |
| `WorkerPool.NextInv` | compute_ptt_c/compute_ptt.c:128-140 | Every step of any worker or the poller keeps: the counter is the number of instances counted, each of which has both results written |
| `WorkerPool.PollingIsSafe` | compute_ptt_c/compute_ptt.c:315-328 | In every interleaving the counter never runs ahead, and polling ends only when all results are written |
| `WorkerPool.WorkerCanStep` | compute_ptt_c/compute_ptt.c:128-140 | Until everything is counted some worker can move |
| `WorkerPool.WorkIsBounded` | compute_ptt_c/compute_ptt.c:128-140 | No run holds more than three worker steps per instance, and as many just when everything is counted; the next poll then ends |
| `WorkerPool.ComputePtt` | compute_ptt_c/compute_ptt.c:133-136 | The call on an instance gives what the worker machine writes |
| `WorkerPool.RowsToRatios` | compute_ptt_c/compute_ptt.c:128-328 | From sorted rows to results: when polling ends, the first result of each group of rows is one or the greatest ratio of two of its samples within 60000 ms of a later one, all samples between being positive, the second the same for 300000 ms, and the second is not below the first when all values are positive |
| `IngestionRuns.ExactlyOnceAfterRuns` | scripts/alibaba-cluster-trace-mem.py:420-460 | After any sequence of runs, wherever they died: the metadata record a duplicate-free history; the batch files are what was committed if and only if no reset died having lost one while the metadata survived, or the metadata went later; then they hold every complete row as often as the processed files do, and no other row; with no such death the dataset is consistent |
| `IngestionRuns.IngestAll` | scripts/alibaba-cluster-trace-mem.py:420-460 | The same of the program itself, run after run on one dataset |
| `IngestionRuns.StepKeeps` | scripts/alibaba-cluster-trace-mem.py:420-460 | What one run keeps: bookkeeping always, intact batch files exactly unless it loses one |
| `Ingestion.Dataset.Ingest` | scripts/alibaba-cluster-trace-mem.py:420-460 | What one run makes of the dataset, for every option and every place where it can die |
| `Ingestion.Dataset.Append` | scripts/alibaba-cluster-trace-mem.py:435-460 | What each outcome of an appending run leaves in batch files and history |
| `Ingestion.AppendedKeeps` | scripts/alibaba-cluster-trace-mem.py:453-460 | After an appending run, dead or not, the committed batch files are intact exactly if they were before; a committing run overwrites an uncommitted batch |
| `Ingestion.TornRemovalIff` | scripts/alibaba-cluster-trace-mem.py:423-429 | A reset that dies half-way leaves a consistent dataset exactly when the metadata outlived no committed batch file, or, being gone, were outlived by none beyond the first |
| `Ingestion.LoadCsvFiles` | scripts/alibaba-cluster-trace-mem.py:96-166 | Whatever the order of completion: every selected readable file once, with its rows |
| `Ingestion.SelectedComeFirst` | scripts/alibaba-cluster-trace-mem.py:117-141 | A limited run takes the new files that come first in the listing, as many as the limit allows |
| `Ingestion.SelectedCount` | scripts/alibaba-cluster-trace-mem.py:137-141 | A positive limit is the number of files taken, if there are as many; any other limit does not limit |
| `Ingestion.NoneKnown` | scripts/alibaba-cluster-trace-mem.py:446-451 | The duplicate check never fires |
| `Ingestion.CommitRecords` | scripts/alibaba-cluster-trace-mem.py:457-460 | The new metadata record the history with one more batch, still without duplicates |
| `Ingestion.CommitKeepsIntact` | scripts/alibaba-cluster-trace-mem.py:453-460 | Batch and metadata written in that order leave the batch files as intact as they were |
| `Ingestion.BatchFileUncommitted` | scripts/alibaba-cluster-trace-mem.py:453-455 | A batch file written without metadata, whole or torn, disturbs nothing committed |
| `Ingestion.FilteredRows` | scripts/alibaba-cluster-trace-mem.py:173-186 | A batch keeps every row with a timestamp and a utilization as often as it occurs, and no other |
| `Ingestion.ExactlyOnce` | scripts/alibaba-cluster-trace-mem.py:453-460 | Intact batch files 0..next_batch_idx-1 hold every complete row as often as the processed files do, and no incomplete one |
| `Ingestion.AnalysisExactIff` | scripts/alibaba-cluster-trace-mem.py:405-444 | An analysis of the whole directory sees exactly those rows if and only if no rows lie at or beyond the index of the next batch |
| `Ingestion.DeadBatchAnalysed` | scripts/alibaba-cluster-trace-mem.py:440-444 | Two runs after which the batch of a dead run is analysed |
| `Ingestion.HasDataIff` | scripts/alibaba-cluster-trace-mem.py:137-161 | With any limit, a run has something to commit exactly when one of the first new files, as many as the limit allows, can be read |
| `IngestionRuns.TakenInIff` | scripts/alibaba-cluster-trace-mem.py:137-156 | When runs with limit k are repeated often enough over a fixed directory, a new file is taken in if and only if it can be read and fewer than k new unreadable files precede it |
| `IngestionRuns.RunAdvances` | scripts/alibaba-cluster-trace-mem.py:137-160 | What such a run does to the set of processed files |
| `Ingestion.CatchesUp` | scripts/alibaba-cluster-trace-mem.py:137-156 | An unlimited run takes in every readable file not processed before, and no other |
| `ProxyRuns.EveryRunFinishes` | load-balancing/proxy/cmd/netproxy/main.go:38-53 | Every run of client, proxy and server takes 4 + 24*nrpc steps and can only stop when all three loops are done, nothing unread, buffers unchanged, byte counts nrpc*(payload + address) |
| `ProxyRuns.ProxyIsInvisible` | load-balancing/proxy/cmd/netproxy/main.go:38-53 | Finished runs with and without the proxy leave client and server in the same states, having exchanged the same bytes |
| `ProxySimulation.EveryStateIsReachedDirectly` | load-balancing/proxy/cmd/netproxy/main.go:38-53 | At every moment: whatever state a run through the proxy has reached, a direct run reaches with the same client and server, which have written and read the same bytes |
| `ProxyLimits.CompletesIff` | load-balancing/proxy/cmd/server/main.go:24-39 | For any number of calls and any payload, the exchange can complete exactly when the calls to make are announced as they are and fit the buffers |
| `ProxyLimits.CallsAreAnnounced` | load-balancing/proxy/rpc/rpc.go:11-19 | A client cannot complete more calls than 32 bits announce, whatever it sends |
| `ProxyRuns.OversizeRefused` | load-balancing/proxy/cmd/netproxy/main.go:38-53 | Every run with a call that does not fit ends within eleven steps with the proxy failed; the server has been told the number of calls and nothing else, the client nothing |
| `ProxyRuns.NextInv` | load-balancing/proxy/rpc/rpc.go:21-76 | Every step of any machine keeps all three where the protocol has them |
| `ProxyRuns.SomeStepPossible` | load-balancing/proxy/cmd/client/main.go:56-71 | No deadlock: until all are done some machine can move |
| `ProxyRuns.StreamsAreFrames` | load-balancing/proxy/rpc/rpc.go:11-76 | The streams are the number of calls and two frames per call one way, one frame per call back |
| `Frames.LittleEndianRoundTrip` | load-balancing/proxy/frame/frame.go:9-22 | Encoding and decoding a 32-bit number |
| `Frames.LittleEndianBytes` | load-balancing/proxy/frame/frame.go:17-22 | Byte k on the wire is n / 256^k modulo 256: the lowest first |
| `Frames.FromLittleEndianValue` | load-balancing/proxy/frame/frame.go:9-15 | The value of any four bytes |
| `Frames.ReadUint32` | load-balancing/proxy/frame/frame.go:9-15 | Four bytes off the stream, with their value, lowest byte first |
| `Frames.WriteUint32` | load-balancing/proxy/frame/frame.go:17-22 | The four bytes that are appended to the stream, lowest first |
| `Frames.FrameBytes` | load-balancing/proxy/frame/frame.go:46-57 | Every byte of a frame |
| `Frames.ReadFrameInto` | load-balancing/proxy/frame/frame.go:24-44 | Reads one frame into the buffer, or fails by case, with the exact rest of stream and buffer |
| `Frames.WriteFrame` | load-balancing/proxy/frame/frame.go:46-57 | Appends length and payload |
| `Frames.FrameRoundTripIff` | load-balancing/proxy/frame/frame.go:24-57 | A written frame reads back whole exactly when it fits buffer and length field |
| `Rpc.NumberOfCallsArrivesIff` | load-balancing/proxy/rpc/rpc.go:11-19 | The announced number arrives unchanged exactly when it fits 32 bits |
| `Rpc.RequestRoundTrip` | load-balancing/proxy/rpc/rpc.go:21-76 | What a caller writes parses back, with nothing of what follows touched |
| `Rpc.ClientRPC` | load-balancing/proxy/rpc/rpc.go:21-36 | Two frames out, one of the same size in, by case |
| `Rpc.ProxyRPC` | load-balancing/proxy/rpc/rpc.go:38-60 | Relays the parsed request and the reply; nothing is sent for a bad request |
| `Rpc.ServeRPC` | load-balancing/proxy/rpc/rpc.go:62-76 | Answers a request with its payload and reports both lengths |
| `RpcSteps.ServerStepsServe` | load-balancing/proxy/cmd/server/main.go:33-38 | Six steps of the server machine are one ServeRPC: answer, count and rest of the stream |
| `RpcSteps.ProxyStepsRelay` | load-balancing/proxy/cmd/netproxy/main.go:47-53 | Twelve steps of the proxy machine are one ProxyRPC, for good and bad requests and replies |
| `RequestRate.Srv.UpdateRequestRate` | kubernetes/elasticity/cmd/spinhttpsrv/main.go:129-139 | Keeps: the two integers count the last block of same-bucket calls and the block before it |
| `RequestRate.Srv.GetRequestRate` | kubernetes/elasticity/cmd/spinhttpsrv/main.go:141-152 | The reported rate is one fifth of the count of the previous block; in order of time and without five seconds skipped, five times the rate is the number of requests from 5000*(k-1) up to 5000*k milliseconds, where k is the window of the reading |
| `RequestRate.Srv.MaybeClearRequestRateL` | kubernetes/elasticity/cmd/spinhttpsrv/main.go:120-127 | Switching clears the new bucket and leaves the other alone |
| `RequestRate.BucketIsWindowParity` | kubernetes/elasticity/cmd/spinhttpsrv/main.go:136 | The bucket of a time is the parity of its five-second window |
| `RequestRate.WindowOfTime` | kubernetes/elasticity/cmd/spinhttpsrv/main.go:135-136 | Window w is the time from 5000*w up to 5000*(w+1) milliseconds |
| `RequestRate.RateOverTimes` | kubernetes/elasticity/cmd/spinhttpsrv/main.go:120-152 | The reported count as requests between two times in milliseconds |
| `RequestRate.RateIsExactIff` | kubernetes/elasticity/cmd/spinhttpsrv/main.go:141-152 | For every history, in order or not: the reported count and the lost requests make up those of the preceding window and the stale ones; the rate is exact if and only if as many are lost as are stale |
| `RequestRate.ExactAtTheseTimesIff` | kubernetes/elasticity/cmd/spinhttpsrv/main.go:120-152 | The rate is exact whichever calls are requests, if and only if the previous block consists of just the calls of the preceding window |
| `RequestRate.OrderedRateIsExactIff` | kubernetes/elasticity/cmd/spinhttpsrv/main.go:141-152 | In order of time: never below the requests of the preceding window, and equal to them if and only if the previous block holds no older request |
| `RequestRate.OrderedExactAtTheseTimesIff` | kubernetes/elasticity/cmd/spinhttpsrv/main.go:120-152 | In order of time the called windows decide: exact whichever calls are requests if and only if, the preceding window having been called, nothing was before it or the last window before it has the parity of this one, or, it not having been called, all calls have that parity |
| `RequestRate.RateIsExact` | kubernetes/elasticity/cmd/spinhttpsrv/main.go:141-152 | Calls in the two preceding windows suffice, whatever was skipped before |
| `RequestRate.RateIsExactWithoutGaps` | kubernetes/elasticity/cmd/spinhttpsrv/main.go:120-152 | In every ordered run that skips no window the rate is that of the preceding window |
| `RequestRate.SkippedWindowsReportStale` | kubernetes/elasticity/cmd/spinhttpsrv/main.go:120-152 | With two windows skipped, the requests of three windows ago are reported instead of none |
| `RequestRate.LateCallLosesRequests` | kubernetes/elasticity/cmd/spinhttpsrv/main.go:129-139 | One call that takes effect late makes all others of its window disappear from the rate |

## Left out

- AddAssign: the compound operators of rational.hpp are on unbounded integers; only the comparisons and `normalize` take account of the bounds of the type.
- Normalize: negating the least numerator overflows in the source; the model negates it exactly. The refusal for the denominator is modelled.
- LessThan: the bounds are those of any type that holds the four fields and zero; the wider type of a mixed comparison is not modelled.
- Gcd and Lcm of boost/integer are not part of this model's source; they are the nonnegative mathematical functions.
- rational.hpp: stream input and output, constructor overloads and narrowing checks, increment and decrement, conversions, `abs`, and the text of exceptions; an exception is an outcome value.
- RegWidthIsLeast: boost's `fast` integer types are taken to be the least ones, as they are unless a platform says otherwise.
- crc.hpp: words above 64 bits, `operator()`, iterator and stream use, `process_block` on raw pointers (a block is a byte sequence), the deprecated accessors.
- MakePartialXorProductsTable: `get_table` keeps one static table per parameter set; the model builds the table in each call, with the same contents. Likewise for the byte reflection table.
- SlidingMaxPtt: values and ratios are reals, not doubles; timestamps do not overflow; NaN is not modelled.
- LoadRows: the sorted order is the query's, taken as given; a grouped instance is copied into the vector by value, and duplicated strings and freed memory are not modelled.
- PollingIsSafe: memory is sequentially consistent, as the full barriers of the atomic additions give it; thread creation and joining are not modelled, nor is the reading of arguments.
- CompletesIff: with calls to make, an address of 2^32 bytes or more is not covered; the address is a command-line argument that is also dialed (cmd/client/main.go:22-36), which no system lets grow that long.
- Ingest: one input directory, metadata written in one step, distinct base names in the listing order that the sort gives; batch files are multisets of rows (parquet, the sort within a batch and the CSV reader are not modelled); the non-incremental mode is left out.
- EveryRunFinishes: streams are reliable and lose nothing; a write is one step, a read takes its bytes in one step; dialing, timeouts, closing and the timing output are left out. The server's division of its byte count by the number of calls (cmd/server/main.go:41), which panics for zero calls, comes after the loop and is not modelled.
- ClientRPC: the content of a stream is all that will ever arrive; waiting is modelled in ProxyMachines. A payload of 2^32 bytes or more is truncated in its length field as in the source.
- The proxies `pipeproxy` and the copies under `tls` run the same loops and are not modelled again.
- UpdateRequestRate: time is a nonnegative number of milliseconds and counts are unbounded; the mutex makes each call one step; logging is left out.
- The other scripts and benchmark programs (lambda, netperf, cgroups, spin, websrv, docker, ray, graphing, `cmd/lb`) are loops around system calls and services.
