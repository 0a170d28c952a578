# A verified model of the PSI core

This project is a Dafny model of the self-contained core of a private set
intersection (PSI) implementation built on the SEAL homomorphic-encryption
library. The model covers:

- **Modular arithmetic** (`polynomials.dfy`, module `Polynomials`):
  - `modexp` is square-and-multiply with 64-bit products;
  - `polynomial_from_roots` builds, in place, the coefficients of
    (x - r0)(x - r1)... modulo a modulus.
- **Windowing** (`windowing.dfy`, module `WindowingScheme`), which lets the
  receiver obtain y, y^2, ..., y^max_power from few ciphertexts:
  - the `Windowing` class derives the window width 2^l - 1 and the window count;
  - `prepare` lays out y^(2^(l*i) * j) at slot i*width + j - 1;
  - `compute_powers` fills the `powers` array from the windows.

  A ciphertext is its plaintext vector in `prepare`, and the exponent of y it
  encrypts in `compute_powers`, so a homomorphic multiplication adds exponents.
- **Hash-table placement** (`hashing.dfy`, module `Hashing`):
  - the AES-based `aes_hash` and `loc_aes_hash`;
  - cuckoo hashing into 2^m one-slot buckets;
  - "complete" hashing into 2^m buckets of `capacity` slots each, followed by
    a shuffle inside every bucket.

  AES is a function parameter.
- **Random values** (`random.dfy`, module `Random`): `random_bits`,
  `random_integer` and `random_nonzero_integer` over a `Generator` class. The
  generator stands for SEAL's `UniformRandomGenerator` as a finite stream of
  32-bit draws.
- **Test-set generators** (`test_utils.dfy`, module `TestUtils`):
  - distinct sender sets;
  - labels;
  - receiver sets with a given percentage of matches, shuffled in place.
- **Wire format** (`networking.dfy`, module `Net`): the `Networking` class reads
  and writes big-endian integers, the hello magic, vectors, 2-D vectors and
  length-prefixed SEAL objects. The socket is two byte sequences: `incoming` is
  consumed by reads, and `outgoing` is appended to by writes. A frame the source
  would reject with an `assert` reads as an `Err`.
- **Benchmark reporter** (`aggregate_benchmarks.dfy`, module `Benchmarks`):
  - the case catalogue;
  - the skip given on the command line;
  - parsing the benchmark's output into non-empty lines and tab-separated runs;
  - the match ratio;
  - average, variance, minimum and maximum over exact reals.

`bits.dfy` (module `Bits`) states the machine words and bit operators on
natural numbers:

- `x >> s` is `x / 2^s`;
- `x & (2^s - 1)` is `x % 2^s`;
- `^` and `|` are recursive functions over the binary digits.

Wrap-around at 2^64 is written out wherever an expression of the modelled files can overflow; `MUL_MOD`, whose definition is not part of this model, is the exact product reduced modulo the modulus (see "## Left out").

## Model

| member | source | states |
|---|---|---|
| `Bits.Word` | src/random.cpp:8 | `lo \| (hi << 32)` of two 32-bit draws is hi * 2^32 + lo, a 64-bit word |
| `Bits.WordHalves` | src/networking.cpp:41-50 | the two 32-bit halves come back out of such a word (high by division, low by remainder) |
| `Polynomials.ModExp` | src/polynomials.cpp:3-13 | for exponent > 0 the result is below the modulus, and it is base^exponent mod modulus whenever base is below 2^32 and modulus is at most 2^32 (so the 64-bit products cannot wrap; at base 2^32 the first square is 2^64, which wraps to 0); for exponent 0 it is the unreduced 1, even for modulus 1 |
| `Polynomials.PowMod` | src/polynomials.cpp:7-9 | reducing the base modulo m does not change b^e mod m, which is why the loop may reduce `base` each step |
| `Polynomials.MultiplyByLinear` | src/polynomials.cpp:21-26 | one pass of the outer loop turns the coefficients of P (degree i) into those of P(x) * (x - root) mod modulus, every entry below the modulus, entries past i + 1 untouched |
| `Polynomials.PolynomialFromRoots` | src/polynomials.cpp:15-30 | the result has \|roots\| + 1 entries, is [1] for no roots, otherwise has every entry below the modulus, is monic when modulus > 1, equals the integer coefficients of the product of (x - roots[i]) reduced mod modulus (modulus <= 2^32), and so vanishes mod modulus at every root |
| `Polynomials.EvalMulLinear` | src/polynomials.cpp:23-26 | evaluating p(x) * (x - r) gives p(x) times (x - r) |
| `Polynomials.EvalProductPolyAtRoot` | src/polynomials.cpp:19-27 | the product of the linear factors is 0 at each of its roots |
| `Polynomials.EvalCongruent` | src/polynomials.cpp:24-26 | coefficient-wise congruent polynomials take congruent values |
| `Polynomials.RootsAreZeros` | src/polynomials.cpp:19-28 | coefficients congruent to the product's vanish mod m at every root |
| `Polynomials.FinalCoefficients` | src/polynomials.cpp:24-26 | coefficients already below m and congruent to the product's are exactly the product's reduced mod m |
| `Random.Generator.constructor` | src/random.cpp:5-8 | a generator starts at the beginning of its stream of draws |
| `Random.Generator.Generate` | src/random.cpp:8 | each call returns the next draw of the stream and advances by one; an exhausted stream returns None and stays put |
| `Random.RandomBits` | src/random.cpp:5-12 | consumes two draws and returns the top `bits` bits of the word whose low half is the first draw and high half the second (0 for bits = 0, see "## Left out"); None when fewer than two draws remain |
| `Random.DrawBelow` | src/random.cpp:8-11 | a value of `bits` bits is below 2^bits |
| `Random.TopBitsBelow` | src/random.cpp:10 | `word >> (64 - bits)` of a 64-bit word is below 2^bits |
| `Random.TopBitsSpan` | src/random.cpp:10 | the shift keeps the top bits: r * 2^(64-bits) <= word < (r + 1) * 2^(64-bits) |
| `Random.TopBitsAsWritten` | src/random.cpp:10 | as the hardware executes the shift, bits = 0 returns the whole word and every other width agrees with `TopBits` |
| `Random.BitsForLimit` | src/random.cpp:18-21 | the k-increment loop, bounded at 64, ends with k = `LeastBits(limit, 0)` |
| `Random.LeastBits` | src/random.cpp:18-21 | the exponent searched upwards from k stays between k and 64 |
| `Random.LeastBitsEnough` | src/random.cpp:18-21 | below 64, the k found satisfies limit <= 2^k |
| `Random.LeastBitsLeast` | src/random.cpp:18-21 | no smaller exponent does: limit > 2^j for every j below the k found |
| `Random.OneShiftedAsWritten` | src/random.cpp:19 | `1ULL << k` as executed equals 2^k for k < 64 |
| `Random.LimitLoopAsWritten` | src/random.cpp:19-21 | for a limit above 2^63 the loop guard holds for every k, so the loop as written never exits |
| `Random.RandomInteger` | src/random.cpp:14-29 | an accepted value is below the limit and is the top k bits of the last two draws, with k the least exponent for the limit; limit 0 accepts nothing |
| `Random.RandomNonzeroInteger` | src/random.cpp:31-38 | an accepted value lies strictly between 0 and the limit |
| `Random.RandomIntegerOfOneAsWritten` | src/random.cpp:19-26 | with limit 1, k = 0, and as written every nonzero word is rejected |
| `Random.RandomIntegerOfOne` | src/random.cpp:19-26 | with the corrected shift, limit 1 accepts 0 from the first draw |
| `WindowingScheme.Windowing.constructor` | src/windowing.cpp:13-28 | for l > 0 the width is 2^l - 1 and the count is the least c >= 1 with 2^(c*l) > max_power |
| `WindowingScheme.Windowing.Prepare` | src/windowing.cpp:30-76 | with l = 0, one window holding the input; otherwise width * count windows, slot s holding y^(2^(l*i) * j) mod modulus elementwise (s = i*width + j - 1), and the input left as y^(2^(l*(count-1))) |
| `WindowingScheme.PrepareWindowed` | src/windowing.cpp:45-75 | the windowed branch of `prepare` produces that layout level by level |
| `WindowingScheme.PrepareLevel` | src/windowing.cpp:48-74 | one level fills its width slots and raises the input to the power 2^l unless it is the last level |
| `WindowingScheme.FillWindow` | src/windowing.cpp:53-67 | the slots of window i receive the input to the powers 1..width, the others are untouched |
| `WindowingScheme.MultiplyElementwise` | src/windowing.cpp:63-65 | each entry becomes the product of the two entries mod modulus |
| `WindowingScheme.RaiseElementwise` | src/windowing.cpp:71-73 | each entry becomes its `modexp` power, below the modulus and the true power mod modulus for 32-bit entries |
| `WindowingScheme.MulPowAll` | src/windowing.cpp:61-65 | multiplying y^(E*j) elementwise by y^E gives y^(E*(j+1)) mod m |
| `WindowingScheme.RaiseAll` | src/windowing.cpp:69-73 | raising y^(2^(l*i)) to the power 2^l gives y^(2^(l*(i+1))) mod m |
| `WindowingScheme.Windowing.ComputePowers` | src/windowing.cpp:78-127 | powers[0] is never written; with l = 0 every powers[k] (k >= 1) becomes k times the exponent of the single window, i.e. y^k; with l > 0 the first min(width, \|powers\| - 1) powers are copied windows, only indices whose leading digit is at most l are written, and for l = 1 with the `prepare` layout every power below 2^count becomes y^k |
| `WindowingScheme.PowersFromSingleWindow` | src/windowing.cpp:83-93 | the l = 0 branch, whose square branch is unreachable because `i & 2 == 0` is `i & 0`, makes powers[k] = y^k |
| `WindowingScheme.Windowing.FillWindowPowers` | src/windowing.cpp:94-125 | with a digit bound b, the copies come first, indices not covered by digits up to b keep their contents, and b = width with the `prepare` layout yields powers[k] = y^k below 2^(l*count) |
| `WindowingScheme.FillLevel` | src/windowing.cpp:104-124 | window i writes only indices whose leading digit in window i is at most b, and completes all powers below 2^(l*(i+1)) when b is the width |
| `WindowingScheme.FillDigit` | src/windowing.cpp:105-123 | digit j of window i writes only indices j*2^(l*i) .. j*2^(l*i) + 2^(l*i) - 1, and, given all powers below j*2^(l*i), completes all powers below (j+1)*2^(l*i) under the `prepare` layout |
| `WindowingScheme.WindowBasePow2` | src/windowing.cpp:110 | the window weight is `1 << (l * i)` |
| `WindowingScheme.SlotExponent` | src/windowing.cpp:58 | slot i*width + j - 1 holds exponent 2^(l*i) * j |
| `WindowingScheme.SlotInRange` | src/windowing.cpp:45-58 | every slot written lies inside width * count windows |
| `WindowingScheme.AsWrittenSkipsPower` | src/windowing.cpp:105 | with l = 2 and two windows, power 12 is not covered by the as-written digit loop but is covered when the digits run to the width |
| `WindowingScheme.Windowing.ComputePowersCorrected` | src/windowing.cpp:94-125 | with the digit loop running to the width, every power below min(\|powers\|, 2^(l*count)) becomes y^k |
| `Hashing.AesHash` | src/hashing.cpp:9-13 | the hash asserts bits < 64 and is below 2^bits |
| `Hashing.LocAesHash` | src/hashing.cpp:15-17 | the bucket index is below 2^m |
| `Hashing.LocAesHashRecovers` | src/hashing.cpp:15-17 | the value is its high bits followed by the bucket index xor the hash of the high bits, so the low bits need not be stored |
| `Hashing.LocAesHashInjective` | src/hashing.cpp:15-17 | two values with the same high bits and key share a bucket only if they are equal |
| `Hashing.ContentsUpdate` | src/hashing.cpp:43 | storing a slot trades the item displaced for the item stored |
| `Hashing.Rehash` | src/hashing.cpp:48-51 | a displaced item's new seed index differs from its old one and is below the seed count |
| `Hashing.Insert` | src/hashing.cpp:33-53 | the eviction loop adds exactly the item to the table's contents and keeps every occupied bucket holding a slot its seed sends there |
| `Hashing.InsertInput` | src/hashing.cpp:32-53 | one input under a random seed index is added to the contents |
| `Hashing.CuckooHash` | src/hashing.cpp:19-57 | from empty buckets, on success the table holds exactly the inputs, each in the bucket `loc_aes_hash` of its seed sends it to |
| `Hashing.PairsCount` | src/hashing.cpp:77-78 | the placement order lists each input under each seed index, as often as it occurs |
| `Hashing.PlaceSlot` | src/hashing.cpp:79-88 | a slot goes to the next free slot of its bucket, or the bucket already holds `capacity` slots |
| `Hashing.Write` | src/hashing.cpp:87-88 | slot `capacity * loc + used[loc]` is written and the bucket's fill goes up by one |
| `Hashing.PlaceInput` | src/hashing.cpp:78-89 | one input under every seed index is placed, or some bucket overflows |
| `Hashing.PlaceAll` | src/hashing.cpp:73-90 | placement succeeds exactly when every bucket has room for the slots that belong to it, and then each bucket starts with those slots in input order |
| `Hashing.SwapInRegion` | src/hashing.cpp:99 | a swap inside a bucket keeps its multiset and touches nothing outside it |
| `Hashing.ShuffleBucket` | src/hashing.cpp:95-100 | the shuffle of one bucket keeps its multiset of slots and leaves every other bucket as it was |
| `Hashing.ShuffleBuckets` | src/hashing.cpp:94-101 | every bucket keeps its multiset of slots |
| `Hashing.CompleteHash` | src/hashing.cpp:59-104 | returns false, without drawing, exactly when some bucket would receive more than `capacity` slots; on success each bucket holds, in some order, the slots (s, i) whose seed i sends s there, then what it held before |
| `Hashing.LayoutFilled` | src/hashing.cpp:77-90 | after placement every bucket is its placed slots followed by its old contents |
| `Hashing.PlacedCount` | src/hashing.cpp:77-90 | a bucket receives (s, i) as often as s occurs in the inputs when seed i sends s there, and nothing else |
| `TestUtils.MatchesExact` | src/test_utils.cpp:36 | without wrap-around `matches` is the percentage of the input count rounded down |
| `TestUtils.MatchesAtMost` | src/test_utils.cpp:36 | a percentage of at most 100 asks for at most the input count |
| `TestUtils.BitsBelow` | src/test_utils.cpp:13 | a value of `bits` bits is drawn from two draws |
| `TestUtils.FreshBits` | src/test_utils.cpp:12-14 | the do-while loop returns a value of `bits` bits not seen before |
| `TestUtils.GenerateRandomSenderSet` | src/test_utils.cpp:5-18 | the entries are pairwise distinct and each is below 2^bits; a failure means the draws ran out |
| `TestUtils.GenerateRandomLabels` | src/test_utils.cpp:20-27 | slot j receives the value of draws 2j and 2j + 1, below 2^bits |
| `TestUtils.Candidate` | src/test_utils.cpp:40-42 | a candidate is a sender input for slots below `matches` and a value of `bits` bits otherwise |
| `TestUtils.FreshCandidate` | src/test_utils.cpp:39-43 | the do-while loop returns such a candidate not seen before |
| `TestUtils.FillReceiverSet` | src/test_utils.cpp:35-46 | distinct entries, the first `matches` sender inputs and the rest values of `bits` bits |
| `TestUtils.Shuffle` | src/test_utils.cpp:48-51 | the swap loop keeps the multiset of entries and their distinctness |
| `TestUtils.SwapPermutes` | src/test_utils.cpp:50 | a swap keeps the multiset and distinctness |
| `TestUtils.GenerateRandomReceiverSet` | src/test_utils.cpp:29-52 | the entries are distinct, each is a sender input or a value below 2^bits, and at least min(matches, \|inputs\|) of them are sender inputs |
| `TestUtils.MatchedValues` | src/test_utils.cpp:39-51 | a permutation of a distinct sequence whose first m entries are sender inputs holds at least m sender inputs |
| `Net.DecodeDisjoint` | src/networking.cpp:25-28 | or-ing the shifted bytes is adding them: the big-endian value |
| `Net.ParseU32` | src/networking.cpp:21-29 | a read succeeds exactly when four bytes are there, and consumes them |
| `Net.ParseU64` | src/networking.cpp:41-45 | a read succeeds exactly when eight bytes are there, and consumes them |
| `Net.ParseHello` | src/networking.cpp:52-54 | an accepted hello consumes eight bytes |
| `Net.ParseHeader` | src/networking.cpp:80-81 | an accepted vector header consumes the magic and the count |
| `Net.ParseBlob` | src/networking.cpp:60-67 | without a SEAL context a blob read fails |
| `Net.ParseMany` | src/networking.cpp:83-85 | a run of n reads yields n elements |
| `Net.U32RoundTrip` | src/networking.cpp:21-39 | `read_uint32` returns what `write_uint32` sent and consumes exactly its four bytes |
| `Net.U32Onto` | src/networking.cpp:21-39 | every four bytes are the encoding of the value they decode to |
| `Net.U64RoundTrip` | src/networking.cpp:41-50 | `read_uint64` returns what `write_uint64` sent |
| `Net.HelloRoundTrip` | src/networking.cpp:52-58 | `read_hello` accepts what `write_hello` sends |
| `Net.HelloRejects` | src/networking.cpp:52-54 | any other uint64 is rejected as a bad magic |
| `Net.ManyRoundTrip` | src/networking.cpp:83-94 | elements that each read back are read back in order from their concatenated encodings |
| `Net.VectorRoundTrip` | src/networking.cpp:79-94 | a vector frame with a count below 2^32 reads back whole |
| `Net.U64sRoundTrip` | src/networking.cpp:79-94 | `read_uint64s` returns what `write_uint64s` sent |
| `Net.BlobRoundTrip` | src/networking.cpp:60-77 | a framed object reads back with the same magic and a context, consuming exactly the frame |
| `Net.BlobOtherMagic` | src/networking.cpp:60-67 | a frame is rejected as a bad magic when read as another kind |
| `Net.CiphertextsRoundTrip` | src/networking.cpp:96-111 | `read_ciphertexts` returns what `write_ciphertexts` sent |
| `Net.Ciphertexts2DRoundTrip` | src/networking.cpp:113-128 | `read_ciphertexts_2d` returns what `write_ciphertexts_2d` sent |
| `Net.ManyFromIsMany` | src/networking.cpp:83-85 | the front-to-back loop reads the same run as `ParseMany` |
| `Net.Networking.constructor` | src/networking.cpp:13-15 | a connection starts with nothing written, empty buffers and no SEAL context |
| `Net.Networking.SetSealContext` | src/networking.cpp:17-19 | sets whether a context is present and nothing else |
| `Net.Networking.ReadU32` | src/networking.cpp:21-29 | returns `ParseU32` of the stream and consumes what it read |
| `Net.Networking.WriteU32` | src/networking.cpp:31-39 | appends the four big-endian bytes |
| `Net.Networking.ReadU64` | src/networking.cpp:41-45 | returns `ParseU64` of the stream and consumes what it read |
| `Net.Networking.WriteU64` | src/networking.cpp:47-50 | appends the high half, then the low half |
| `Net.Networking.ReadHello` | src/networking.cpp:52-54 | returns `ParseHello` of the stream |
| `Net.Networking.WriteHello` | src/networking.cpp:56-58 | appends the magic `PRIVCATS` |
| `Net.Networking.ReadHeader` | src/networking.cpp:80-81 | reads a magic and a count as `ParseHeader` does |
| `Net.Networking.ReadU64s` | src/networking.cpp:79-86 | returns `ParseU64s` of the stream |
| `Net.Networking.ReadU64Run` | src/networking.cpp:83-85 | the loop reads n uint64s one after the other |
| `Net.Networking.ReadU64Step` | src/networking.cpp:84 | one pass of that loop extends the values read or reports the run's failure |
| `Net.Networking.WriteU64s` | src/networking.cpp:88-94 | appends `vui8`, the count, then each value |
| `Net.Networking.ReadBlob` | src/networking.cpp:60-67 | returns `ParseBlob` of the stream, given the context |
| `Net.Networking.WriteBlob` | src/networking.cpp:69-77 | appends the magic, the buffer length truncated to 32 bits and that many buffer bytes; the write and the explicit `consume` each drop that many bytes from the buffer, so what is left is the buffer past twice the length (nothing if shorter) |
| `Net.Networking.ReadCiphertext` | src/networking.cpp:60-67 | reads a `cipt` frame |
| `Net.Networking.WriteCiphertext` | src/networking.cpp:69-77 | with an empty buffer, appends the `cipt` frame of the object |
| `Net.Networking.ReadPublicKey` | src/networking.cpp:130-137 | reads a `pkey` frame |
| `Net.Networking.WritePublicKey` | src/networking.cpp:139-147 | with an empty buffer, appends the `pkey` frame of the key |
| `Net.Networking.ReadRelinKeys` | src/networking.cpp:149-156 | reads a `reln` frame |
| `Net.Networking.WriteRelinKeys` | src/networking.cpp:158-166 | with an empty buffer, appends the `reln` frame of the keys |
| `Net.Networking.ReadCiphertexts` | src/networking.cpp:96-103 | returns `ParseCiphertexts` of the stream |
| `Net.Networking.ReadCiphertextRun` | src/networking.cpp:100-102 | the loop reads n `cipt` frames one after the other |
| `Net.Networking.ReadCiphertextStep` | src/networking.cpp:101 | one pass of that loop extends the frames read or reports the run's failure |
| `Net.Networking.WriteCiphertexts` | src/networking.cpp:105-111 | appends `vcip`, the count, then each `cipt` frame |
| `Net.Networking.ReadCiphertexts2D` | src/networking.cpp:113-120 | returns `ParseCiphertexts2D` of the stream |
| `Net.Networking.ReadRowRun` | src/networking.cpp:117-119 | the loop reads n `vcip` frames one after the other |
| `Net.Networking.ReadRowStep` | src/networking.cpp:118 | one pass of that loop extends the rows read or reports the run's failure |
| `Net.Networking.WriteCiphertexts2D` | src/networking.cpp:122-128 | appends `vvci`, the count, then each row as a whole `vcip` frame |
| `Net.Networking.WriteRow` | src/networking.cpp:125-127 | one row's frame follows the rows before it |
| `Benchmarks.CasesPaired` | scripts/aggregate_benchmarks.py:8-28 | twelve cases in pairs differing only in `labeled`, 0 then 1, all with 32-bit items, ten iterations and a non-empty receiver set |
| `Benchmarks.TrimStart` | scripts/aggregate_benchmarks.py:35 | `int` drops leading whitespace (tab, line feed, vertical tab, form feed, carriage return, space): a suffix, only such characters dropped, and none left in front |
| `Benchmarks.TrimEnd` | scripts/aggregate_benchmarks.py:35 | `int` drops trailing whitespace likewise |
| `Benchmarks.SeparatorNotStripped` | scripts/aggregate_benchmarks.py:35 | `ParseInt`, the model of `int`: a field with a leading 0x1c file separator, such as "\x1c7", is not an integer: `int` raises `ValueError` |
| `Benchmarks.ParseIntNoDigit` | scripts/aggregate_benchmarks.py:35 | `int` of a text with no digit raises `ValueError` |
| `Benchmarks.ParseShow` | scripts/aggregate_benchmarks.py:68 | `ParseInt`, the model of `int`, inverts `str`: `int(str(n)) == n` for every integer |
| `Benchmarks.Split` | scripts/aggregate_benchmarks.py:33 | `split` gives at least one piece and no piece holds the separator |
| `Benchmarks.JoinSplit` | scripts/aggregate_benchmarks.py:33 | joining the pieces gives the text back |
| `Benchmarks.SplitJoin` | scripts/aggregate_benchmarks.py:36 | splitting joined separator-free parts gives the parts back |
| `Benchmarks.NonEmpty` | scripts/aggregate_benchmarks.py:33 | the filter keeps only non-empty pieces, each one of the original pieces |
| `Benchmarks.NonEmptyAppend` | scripts/aggregate_benchmarks.py:33 | the filter keeps the order of the pieces |
| `Benchmarks.Lines` | scripts/aggregate_benchmarks.py:33 | every kept line is non-empty and holds no newline |
| `Benchmarks.LinesOfOutput` | scripts/aggregate_benchmarks.py:33 | the lines read from an output written line by line are exactly the lines written |
| `Benchmarks.Float` | scripts/aggregate_benchmarks.py:35 | `float(x[i])` is an `IndexError` past the last field, an error for no number, and the number otherwise |
| `Benchmarks.Divide` | scripts/aggregate_benchmarks.py:35 | true division succeeds exactly for a non-zero size, and the quotient times the size is the count |
| `Benchmarks.ParseRun` | scripts/aggregate_benchmarks.py:35-36 | a line gives a run exactly when it has four fields, the first three parse as floats, the fourth as an integer and the receiver set is non-empty; the run holds those three floats and the fourth field over the receiver size |
| `Benchmarks.ShortLineFails` | scripts/aggregate_benchmarks.py:35-36 | a line with fewer than four tab fields raises an error |
| `Benchmarks.Each` | scripts/aggregate_benchmarks.py:35-36 | the comprehension succeeds exactly when every element does, and then puts the result of element i at position i |
| `Benchmarks.Values` | scripts/aggregate_benchmarks.py:54 | one value per run |
| `Benchmarks.Min` | scripts/aggregate_benchmarks.py:59 | `min` is one of the values and below all of them |
| `Benchmarks.Max` | scripts/aggregate_benchmarks.py:60 | `max` is one of the values and above all of them |
| `Benchmarks.Avg` | scripts/aggregate_benchmarks.py:48 | `avg` has a value exactly for a non-empty list and raises `ZeroDivisionError` for an empty one |
| `Benchmarks.Deviation` | scripts/aggregate_benchmarks.py:51 | the sum of squared deviations is not negative |
| `Benchmarks.Variance` | scripts/aggregate_benchmarks.py:49-51 | the value under `sqrt` exists exactly for two or more values (one value divides by zero) and is not negative |
| `Benchmarks.SumBounds` | scripts/aggregate_benchmarks.py:48 | the sum lies between count * lower bound and count * upper bound |
| `Benchmarks.AvgBetween` | scripts/aggregate_benchmarks.py:48-60 | min <= avg <= max |
| `Benchmarks.Summarize` | scripts/aggregate_benchmarks.py:53-61 | one column's figures exist exactly for two or more values; then min <= avg <= max, the variance is not negative, and min and max are values bounding all of them |
| `Benchmarks.ReportOk` | scripts/aggregate_benchmarks.py:33-61 | `Report`, the computation of `run_case`: a case's report exists exactly when every line parses and there are at least two lines |
| `Benchmarks.ReportColumns` | scripts/aggregate_benchmarks.py:53-61 | `Report`, the computation of `run_case`: a report holds four entries, entry i the figures of column i |
| `Benchmarks.EachColumn` | scripts/aggregate_benchmarks.py:53 | over the four columns, the result for column i is at position i |
| `Benchmarks.ReportMatches` | scripts/aggregate_benchmarks.py:35-61 | each line's match count over the receiver size lies between the reported minimum and maximum of the match column |
| `Benchmarks.RunCase` | scripts/aggregate_benchmarks.py:30-63 | the loop over the four columns produces the report, or the first exception |
| `Benchmarks.SuffixFrom` | scripts/aggregate_benchmarks.py:70 | `xs[start:]` is a suffix, of length \|xs\| - start for a non-negative start and -start for a negative one, clamped |
| `Benchmarks.SuffixFromEnd` | scripts/aggregate_benchmarks.py:70 | a start of -n, 0 < n <= \|xs\|, takes the last n cases |
| `Benchmarks.Selected` | scripts/aggregate_benchmarks.py:65-70 | without exactly one argument all cases run; the only failure is a `ValueError` from that argument |
| `Benchmarks.SelectedArgument` | scripts/aggregate_benchmarks.py:66-70 | one argument that parses as an integer selects `CASES` from there on |
| `Benchmarks.SelectedSkip` | scripts/aggregate_benchmarks.py:66-70 | the argument `str(n)` runs the cases from index n on (none past the end) |
| `Benchmarks.CaseReport` | scripts/aggregate_benchmarks.py:31 | a failing benchmark process raises `CalledProcessError`; otherwise the case's report |
| `Benchmarks.RunAll` | scripts/aggregate_benchmarks.py:65-71 | a bad argument is a `ValueError`; otherwise `main` gives the reports (`Reports`) of the selected cases, in order, stopping at the first exception |

## Left out

- AES-128 is a function parameter (`Hashing.Cipher`): the low word of the encryption of (0, value) under the key (0, seed). src/aes.cpp is not part of this model.
- SEAL is not modelled:
  - in `prepare`, encoding and encryption are the identity;
  - in `compute_powers`, a ciphertext is its exponent of y, multiplication adds exponents, and relinearisation does nothing;
  - `save` and `load` are opaque byte strings (`Net.Blob`), and a successful `load` is taken to consume exactly the framed bytes.
- `MUL_MOD` is not defined in the modelled files. `WindowingScheme.MultiplyElementwise` takes it to be the exact product reduced modulo the modulus, as a 128-bit intermediate product gives. A `(a * b) % modulus` on `uint64_t` would wrap the product first; the two agree whenever the product is below 2^64, which holds for the 32-bit modulus under which `WindowingScheme.Windowing.Prepare` states its powers.
- The random generator is a finite stream of draws. Every method that draws reports `None` or `false` once the stream runs out. A real generator never runs out, and the model proves nothing about the distribution: not uniformity, and not the success probability of cuckoo hashing.
- `Random.RandomBits`: for bits = 0 it returns 0, the 0-bit value that src/random.h promises, and not the result of the shift as written at src/random.cpp:10. That shift is by 64 bits, which is undefined; x86 returns the whole word (`Random.TopBitsAsWritten`, and the second row of "## Findings"). `Random.RandomInteger` with limit 1 inherits this: it accepts 0 from the first two draws, while the code as written rejects every nonzero word. So do its callers `Hashing.InsertInput` (a single seed, src/hashing.cpp:35-36) and `TestUtils.FillReceiverSet` (a one-element sender set, src/test_utils.cpp:41). The direct callers of `Random.RandomBits` with a `bits` argument of 0 inherit it as well: `TestUtils.FreshBits`, `TestUtils.GenerateRandomSenderSet`, `TestUtils.GenerateRandomLabels` and, through them, `TestUtils.Candidate` give 0 where the code as written returns the whole 64-bit word.
- `Random.RandomInteger`: see the line above; with limit 1 it follows the corrected 0-bit shift.
- `Random.RandomBits`: the two `generate()` calls at src/random.cpp:8 are operands of `|`, whose evaluation order C++ leaves unspecified; the model takes the first call as the low half.
- Termination of the rejection and eviction loops is not claimed. Each loop stops when the finite stream ends. With a single seed, `Hashing.Rehash` never accepts a draw.
- Boost.Asio is two byte sequences. A short read or a failed `assert` is an `Err` (`ShortRead`, `BadMagic`, `NoContext`) instead of an abort.
- `Polynomials.ModExp`: the value b^e mod m is stated only for a base below 2^32 and a modulus of at most 2^32. Beyond that the 64-bit products can wrap (base 2^32 squares to 2^64, which wraps to 0); the model computes the wrap but states only that the result is below the modulus.
- `Polynomials.PolynomialFromRoots`: the coefficients are related to the product polynomial only for a modulus of at most 2^32, for the same reason.
- `WindowingScheme.Windowing.Prepare`: the powers are stated only for a modulus of at most 2^32 and 32-bit inputs. The constructor's precondition keeps every shift `1ull << (c * l)` below 64 bits.
- `WindowingScheme.Windowing.constructor`: with l = 0 the source leaves width and count uninitialised; the model sets them to 0.
- `Hashing.CuckooHash` assumes m <= 30 and fewer than 2^32 - 1 seeds, so that `1 << m` does not overflow `int` and a seed index never collides with the hash index of the `BUCKET_EMPTY` marker.
- `Hashing.CompleteHash` assumes m <= 30 and a table of exactly capacity * 2^m slots; the wrap of `capacity << m` modulo 2^64 is not modelled.
- `Hashing.CompleteHash`: when it returns false, the state of the partly filled table (placements are not rolled back) is not described.
- `Net.Networking.WriteBlob`: the frame is stated exactly only when the write buffer starts empty and the object is smaller than 2^32 bytes. Otherwise the model appends only what the source writes: the first (length mod 2^32) bytes. Of the buffer, only the part past twice that length survives, because both the streambuf write and the explicit `consume` drop bytes.
- `Net.Networking.WriteCiphertext`, `Net.Networking.WritePublicKey`, `Net.Networking.WriteRelinKeys`, `Net.Networking.WriteCiphertexts`, `Net.Networking.WriteCiphertexts2D`: stated only when the write buffer starts empty and every object is smaller than 2^32 bytes (the frame round trips need that).
- Python floats are exact reals. `float(text)` is a function parameter, and `math.sqrt` is not modelled: `Benchmarks.Variance` is the value under the square root.
- `subprocess.run` is a function parameter from a case to the benchmark's standard output, with `None` for a non-zero exit. The `print` output is not modelled, including the reports printed before a later case fails.
- `Benchmarks.ParseInt` covers ASCII only: an optional sign, digits, and surrounding tab, line feed, vertical tab, form feed, carriage return or space. Underscores between digits, and non-ASCII digits or whitespace, which Python's `int` also accepts, are not modelled.
- The `.decode()` at scripts/aggregate_benchmarks.py:33 is folded into the `benchmark` parameter, which yields the output as text. The `UnicodeDecodeError` raised for output that is not valid UTF-8 is not modelled.

## Findings

| source | as written | input that shows it | evidently intended | confidence | as-written member | corrected member |
|---|---|---|---|---|---|---|
| src/windowing.cpp:105 | the digit loop of `compute_powers` runs `j <= window_size` | l = 2, max_power 15 (two windows), 16 powers: powers[12] = y^(3*4) is never written | `j <= window_width`, every digit of the window, as the comment at lines 106-109 describes | high; not executed | `WindowingScheme.AsWrittenSkipsPower` | `WindowingScheme.Windowing.ComputePowersCorrected` |
| src/random.cpp:10 | `result >> (64 - bits)` with bits = 0 shifts a 64-bit value by 64 (undefined; x86 returns the word unchanged) | `random_integer(random, 1)`: k = 0, and every nonzero draw is rejected | 0 bits keep nothing: the result is 0 | high; not executed | `Random.RandomIntegerOfOneAsWritten` | `Random.RandomIntegerOfOne` |
| src/random.cpp:19 | `while (limit > (1ULL << k)) k++` | limit = 2^63 + 1: the shift wraps at k = 64 and the guard never fails | stop at k = 64 | medium; not executed | `Random.LimitLoopAsWritten` | `Random.BitsForLimit` |
