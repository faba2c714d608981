# BloomFilter.NET in Dafny

This project models the core of BloomFilter.NET in Dafny: the generic Bloom filter `BloomFilter<T>` and the `BitArray` helpers it uses for equality and hash codes.

A filter holds the following:

- a bit array `BitSet` of `Size` bits;
- a number `K` of hash positions per element;
- an `ExpectedNumberOfElements`;
- a running `Count` of additions.

The filter works as follows:

- **Hashes.** An element's bytes are hashed into `K` C# `int` values. Each round digests `salt ++ data` with MD5. The salt is a byte that starts at 0 and wraps after 255. Each 16-byte digest is then cut into four big-endian 32-bit words.
- **Positions.** Each hash picks the bit `Math.Abs(hash % Size)`.
- **Add.** `Add` sets those bits and counts the element.
- **Contains.** `Contains` reports true when all of them are set.
- **Other operations.** `Clear`, `GetBit`, `SetBit`, `Equals` and `GetHashCode` complete the class.
- **Bit-array helpers.** `BitArrayEquals` compares two bit arrays 32 bits at a time. `GetBitArrayHashCode` and `BitArrayHashCode` fold the bits and the array's properties with `hash = 61 * hash + x` from the seed 7.

The project has four modules, one per file:

- `CSharpInt` (`csharp_int.dfy`) models the C# `int` semantics the library relies on:
  - unchecked wrap-around modulo 2^32 (`Wrap`) and `Count++` (`Increment`);
  - the truncating remainder `%` (`TruncRem`), which differs from Dafny's Euclidean `%` on negative hashes;
  - `Math.Abs` (`MathAbs`).
- `Hashing` (`hashing.dfy`) models `CreateHashes`, `CreateHash` and the string overloads:
  - The three nested loops are methods. Each is proved against the specification function `HashAt`, and `Hashes` collects the first `count` of them.
  - MD5 is a parameter: any function from bytes to 16 bytes.
- `BitArrayFunctions` (`bit_array_functions.dfy`) models the three static helpers. They are loops proved against the folds `ContentHash` and `StructuralHash`, and against bit-for-bit equality `BitsEqual`.
- `Bloom` (`bloom_filter.dfy`) is the class `BloomFilter<T>`:
  - Its `BitSet` is an `array<bool>` that the methods update in place.
  - What the bits become is specified by `Inserted` (positions set to true) and `InsertedEach` (one insertion per element, in order).
  - The element's text encoding (`ToString` and UTF-8) is the parameter `toBytes`. The digest is the parameter `digest`.

Exceptions are modelled as results, not as preconditions:

- **Divide by zero.** `hash % Size` throws when `Size` is 0 and there is a hash. This gives `Fail(DivideByZero)` and `Err(DivideByZero)`. `Indexable()` is the condition that excludes it.
- **Argument out of range.** `BitArray.Set`/`Get` throw ArgumentOutOfRangeException on a position outside the array. This gives `Fail(ArgumentOutOfRange)` and `Err(ArgumentOutOfRange)`.
  - `GetBit` and `SetBit` throw it for any bit outside `[0, Size)`.
  - `Add` and `Contains` compute positions below `Size`. They can hit it only when the four-argument constructor was given a bit array shorter than `Size`. `Valid()` is the condition that excludes this.

An exception in `Add` or `AddAll` keeps the bits set before it. For `Add` the model states exactly which bits those are; for `AddAll` it states only that no bit is cleared (see "## Left out").

## Model

| member | source | states |
|---|---|---|
| CSharpInt.Wrap | BloomFilter/BloomFilter.cs:207-212 | unchecked `int` arithmetic: the result is the one `int` congruent to the exact value modulo 2^32, and the exact value itself when it fits |
| CSharpInt.IncrementIsWrap | BloomFilter/BloomFilter.cs:136 | `Count++` is addition of one modulo 2^32 (`int.MaxValue` goes to `int.MinValue`) |
| CSharpInt.IncrementsAdd | BloomFilter/BloomFilter.cs:139-143 | `n` increments of `Count` add `n` and wrap once |
| CSharpInt.TruncRem | BloomFilter/BloomFilter.cs:135 | C#'s `%` has the magnitude of `\|a\| mod b` and the sign of the dividend |
| CSharpInt.MathAbs | BloomFilter/BloomFilter.cs:135 | `Math.Abs` is non-negative and is `x` or `-x`; it is defined except on `int.MinValue` |
| Hashing.ShiftLeft8 | BloomFilter/BloomFilter.cs:92 | `h <<= 8` is `h * 256` wrapped, with the low eight bits zero, so that `\|=` with a byte adds it |
| Hashing.ShiftInByte | BloomFilter/BloomFilter.cs:92-93 | one shift-and-or step on a wrapped value is the wrapped value of `256 * v + b` |
| Hashing.PackIsWrappedBigEndian | BloomFilter/BloomFilter.cs:89-94 | packing bytes into an `int` gives the low 32 bits of their big-endian value, as a signed `int` |
| Hashing.BigEndianValueOfFour | BloomFilter/BloomFilter.cs:89-94 | the big-endian value of four bytes is `b0*2^24 + b1*2^16 + b2*2^8 + b3` |
| Hashing.HashInRound | BloomFilter/BloomFilter.cs:80-97 | hash `4*round + i` is word `i` of the digest of `[salt of round] ++ data` |
| Hashing.HashAtIsBigEndianWord | BloomFilter/BloomFilter.cs:68-100 | entry `i` is the wrapped big-endian word at bytes `4*(i mod 4)` to `4*(i mod 4)+3` of the digest of `[(i div 4) mod 256] ++ data` |
| Hashing.Hashes | BloomFilter/BloomFilter.cs:70 | asking for `count` hashes gives exactly `count` values |
| Hashing.HashesExtend | BloomFilter/BloomFilter.cs:95-96 | one more hash appends `HashAt(n)` and keeps the earlier ones |
| Hashing.HashesPrefix | BloomFilter.Tests/BloomFilterFixture.cs:57-72 | for `a <= b`, the first `a` hashes are a prefix of the first `b` |
| Hashing.HashesRepeatEvery1024 | BloomFilter/BloomFilter.cs:73-83 | the salt is a byte, so hash `i + 1024` equals hash `i` |
| Hashing.ReadWord | BloomFilter/BloomFilter.cs:89-94 | the innermost loop builds the packed big-endian word `i` of the digest |
| Hashing.ReadRound | BloomFilter/BloomFilter.cs:87-97 | one round stores the digest's words from index `4*round`, stopping after four words or at the end of the result, and leaves the later entries alone |
| Hashing.CreateHashes | BloomFilter/BloomFilter.cs:68-100 | the result is exactly the first `hashes` values of `HashAt` |
| Hashing.CreateHash | BloomFilter/BloomFilter.cs:63-66 | the hash is the first big-endian word of the digest of `[0] ++ data`, which is entry 0 of `CreateHashes(data, 1)` |
| Hashing.CreateHashOfText | BloomFilter/BloomFilter.cs:53-61 | hashing text is hashing its encoded bytes |
| BitArrayFunctions.CombineStep | BloomFilterDotNet/BitArrayFunctions.cs:12-16 | the fold over one more value is one more `61 * hash + x` step |
| BitArrayFunctions.GetBitArrayHashCode | BloomFilterDotNet/BitArrayFunctions.cs:8-18 | the loop returns the wrapped fold from 7 of `61 * hash + (b ? 1 : 0)` over the bits in order |
| BitArrayFunctions.BitArrayHashCode | BloomFilterDotNet/BitArrayFunctions.cs:20-30 | the result is the fold of IsSynchronized (0), Count, Length, IsReadOnly (0) and the content hash, in that order |
| BitArrayFunctions.CombineFive | BloomFilterDotNet/BitArrayFunctions.cs:22-27 | the fold over five values is the five `Mix` steps written out |
| BitArrayFunctions.CombineFour | BloomFilter/BloomFilter.cs:207-211 | the fold over four values is the four `Mix` steps written out |
| BitArrayFunctions.BitsEqualIsEquality | BloomFilterDotNet/BitArrayFunctions.cs:32-50 | bit-for-bit equality (same length, same bit at each position) is sequence equality, and so is reflexive and symmetric |
| BitArrayFunctions.EqualArraysHashEqual | BloomFilterDotNet/BitArrayFunctions.cs:8-30 | equal bit arrays have equal content hashes and equal structural hashes |
| BitArrayFunctions.ContentHashFixture | BloomFilterDotNet.Tests/BitArrayFunctionsFixture.cs:10-35 | the content hash of 1110 is 97151650 and that of 0110 is 96924669, so they differ |
| BitArrayFunctions.ContentHashAllFalseFive | BloomFilterDotNet.Tests/BitArrayFunctionsFixture.cs:15-34 | five false bits hash to 1617206811, which is 7 * 61^5 wrapped and differs from the hash of 1110 |
| BitArrayFunctions.WordCount | BloomFilterDotNet/BitArrayFunctions.cs:39-41 | `ceil(n / 32)` words hold `n` bits with fewer than 32 left over |
| BitArrayFunctions.PackBitsInjective | BloomFilterDotNet/BitArrayFunctions.cs:40-42 | two runs of bits of one length pack to the same word only if they are equal |
| BitArrayFunctions.WordEnd | BloomFilterDotNet/BitArrayFunctions.cs:39-42 | each word covers a non-empty run of at most 32 bits inside the array |
| BitArrayFunctions.WordsDetermineBits | BloomFilterDotNet/BitArrayFunctions.cs:39-49 | arrays of one length whose words all agree are equal |
| BitArrayFunctions.BitArrayEquals | BloomFilterDotNet/BitArrayFunctions.cs:32-50 | the result is true exactly when the lengths agree and every bit agrees; different lengths give false |
| Bloom.Index | BloomFilter/BloomFilter.cs:135 | `Math.Abs(hash % Size)` is `\|hash\| mod Size`, a valid index below `Size` |
| Bloom.Indices | BloomFilter/BloomFilter.cs:133-135 | with bits, there is one index per hash and each is below `Size` |
| Bloom.FirstOutOfRange | BloomFilter/BloomFilter.cs:134-135 | the walk over positions sets every position before the returned one, and that one is past the end of the bits |
| Bloom.FirstOutOfRangeIs | BloomFilter/BloomFilter.cs:134-135 | the stopping point is unique: any index with valid positions before it and an invalid one at it is that point |
| Bloom.InsertedEachSnoc | BloomFilter/BloomFilter.cs:141-142 | adding one more element inserts its positions into the bits the earlier elements produced |
| Bloom.InsertedSetsPositions | BloomFilter/BloomFilter.cs:134-135 | after inserting valid positions, every one of them is set |
| Bloom.InsertedChangesOnlyPositions | BloomFilter/BloomFilter.cs:134-135 | inserting clears no bit and changes no bit outside the inserted positions |
| Bloom.InsertedSnoc | BloomFilter/BloomFilter.cs:134-135 | inserting one more valid position is setting that one bit |
| Bloom.InsertedNothing | BloomFilter/BloomFilter.cs:134 | inserting no positions leaves the bits as they were |
| Bloom.InsertedEachCovers | BloomFilter/BloomFilter.cs:139-143 | a sequence of additions never clears a bit |
| Bloom.InsertedPrefixCovers | BloomFilter/BloomFilter.cs:139-143 | additions followed by an addition stopped part-way still clear no bit |
| Bloom.AllSetPreserved | BloomFilter/BloomFilter.cs:150-161 | positions found set stay set under any later insertions |
| Bloom.NoFalseNegatives | BloomFilter/BloomFilter.cs:131-161 | once an element's positions are inserted, they are all found set after any further additions |
| Bloom.InsertedEachSetsAll | BloomFilter/BloomFilter.cs:139-169 | after adding each element of a collection, every element's positions are set |
| Bloom.ClearedFindsNothing | BloomFilter/BloomFilter.cs:150-161 | all-false bits contain no element that has at least one position |
| Bloom.BloomFilter.constructor | BloomFilter/BloomFilter.cs:25-33 | the filter has the given size, expected number and `K`, a fresh array of `Size` clear bits, and `Count` 0 |
| Bloom.BloomFilter.WithBits | BloomFilter/BloomFilter.cs:47-51 | the filter takes the caller's bit array itself (aliased, not copied) and the given count |
| Bloom.BloomFilter.Positions | BloomFilter/BloomFilter.cs:133-135 | with bits or no hashes, an element has `K` positions, all below `Size` |
| Bloom.BloomFilter.PositionsOfEach | BloomFilter/BloomFilter.cs:141-142 | entry `i` is the positions of element `i` of the collection |
| Bloom.BloomFilter.SetHashBits | BloomFilter/BloomFilter.cs:134-135 | the loop sets exactly the hash positions. It fails with DivideByZero exactly when there are hashes and no bits, changing nothing. It fails with ArgumentOutOfRange exactly when some position is past the end, having set the positions before the first such one |
| Bloom.BloomFilter.AddBytes | BloomFilter/BloomFilter.cs:131-137 | on success the bits are the old bits with the element's positions set and `Count` is incremented. It fails with DivideByZero iff there are hashes and no bits. It never fails when the array has `Size` bits and indexing is possible (`Size > 0` or `K == 0`). After a failure `Count` is unchanged and the bits are as stated for `SetHashBits` |
| Bloom.BloomFilter.Add | BloomFilter/BloomFilter.cs:126-129 | the same as `AddBytes`, for the element's bytes |
| Bloom.BloomFilter.AddAll | BloomFilter/BloomFilter.cs:139-143 | on success the bits are each element's positions inserted in order and `Count` is incremented once per element. It fails with DivideByZero iff some element would be hashed with no bits. No bit is ever cleared. It never fails when the array has `Size` bits and indexing is possible (`Size > 0` or `K == 0`) |
| Bloom.BloomFilter.ContainsBytes | BloomFilter/BloomFilter.cs:150-161 | changes nothing. When it answers, the answer is true iff every position is set. It errs with DivideByZero iff there are hashes and no bits. It answers whenever the positions are in range |
| Bloom.BloomFilter.Contains | BloomFilter/BloomFilter.cs:145-148 | the same as `ContainsBytes`, for the element's bytes |
| Bloom.BloomFilter.ContainsAll | BloomFilter/BloomFilter.cs:163-169 | changes nothing. When it answers, the answer is true iff every element has all its positions set. It errs with DivideByZero iff an element would be hashed with no bits |
| Bloom.BloomFilter.Clear | BloomFilter/BloomFilter.cs:120-124 | every bit becomes false and `Count` becomes 0 |
| Bloom.BloomFilter.GetBit | BloomFilter/BloomFilter.cs:171-174 | inside the array it returns that bit; outside it, ArgumentOutOfRange |
| Bloom.BloomFilter.SetBit | BloomFilter/BloomFilter.cs:176-179 | inside the array exactly that bit becomes `value`; outside it, ArgumentOutOfRange and nothing changes |
| Bloom.BloomFilter.Equals | BloomFilter/BloomFilter.cs:186-203 | true iff expected number, `K` and `Size` agree and the bit arrays hold the same bits (`Count` takes no part) |
| Bloom.BloomFilter.GetHashCode | BloomFilter/BloomFilter.cs:205-213 | the wrapped fold from 7 of `Size`, expected number, `K` and the bit array's structural hash |
| Bloom.EqualsIsEquivalence | BloomFilter/BloomFilter.cs:186-203 | `Equals` is reflexive, symmetric and transitive |
| Bloom.EqualFiltersHaveEqualHashCodes | BloomFilter/BloomFilter.cs:186-213 | filters that are `Equals` have equal `GetHashCode` |
| Bloom.AddedElementIsFound | BloomFilter.Tests/BloomFilterFixture.cs:186-197 | after `Add(x)` and any later `AddAll`, `Contains(x)` is true |
| Bloom.AddedCollectionIsFound | BloomFilter.Tests/BloomFilterFixture.cs:199-212 | after `AddAll(c)`, `ContainsAll(c)` is true |
| Bloom.AddAllCounts | BloomFilter.Tests/BloomFilterFixture.cs:396-417 | adding `\|c\|` elements to an empty filter makes `Count` equal `\|c\|` |
| Bloom.SetThenGet | BloomFilter.Tests/BloomFilterFixture.cs:243-273 | `SetBit(i, v)` then `GetBit(i)` gives `v`, and every other bit reads as before |
| Bloom.ClearedFilterFindsNothing | BloomFilter.Tests/BloomFilterFixture.cs:175-184 | after `Clear()` every bit reads false, `Count` is 0 and no element is found |
| Bloom.SameAdditionsKeepEquality | BloomFilter.Tests/BloomFilterFixture.cs:74-106 | equal filters stay equal when the same elements are added to both |
| Bloom.ClearedFiltersAreEqual | BloomFilter.Tests/BloomFilterFixture.cs:108-129 | cleared filters of one shape are `Equals` and have equal hash codes, whatever was added before |

## Left out

- The floating-point constructors are not modelled; the model constructor takes `Size` and `k` already computed. This covers:
  - `Size = ceil(c * n)`;
  - `K` from `Math.Round`/`Math.Log` or from a false-positive probability;
  - the field `ExpectedBitsPerElement`.
- The false-positive probabilities and `GetBitsPerElement` are left out. They are floating-point formulas with no effect on the bits.
- MD5 is the parameter `digest`, any function from bytes to 16 bytes. The `MemoryStream` plumbing is replaced by the digest input `[salt] ++ data`.
- `ToString` and the UTF-8 encoding are the parameter `toBytes`. Hashing a string therefore agrees with hashing its bytes by construction.
- The digest is a per-filter constant, not a static instance shared by all filters. Equality scenarios require both filters to use the same one.
- The shared MD5 instance is not thread-safe, and concurrency is not modelled.
- `Equals` receives a `BloomFilter<T>`. Its checks for `null` and for a different runtime type (reflection) are not modelled.
- A negative `Size` or `k` is excluded by the types. In C#, a negative `Size` makes `new BitArray(Size)` throw ArgumentOutOfRangeException in the constructor. A negative `k` makes every `Add`/`Contains` throw OverflowException at `new int[hashes]` in `CreateHashes`.
- `BitArray.CopyTo` is modelled by filling each word with the unsigned value of its 32 bits (`Word`). A signed `int` word is equal to another exactly when its bit pattern is, so the comparison is unaffected.
- `IsSynchronized` and `IsReadOnly` of a `BitArray` are the constant false.
- Bloom.BloomFilter.AddAll: on a failure after the first element, it states only that no bit is cleared. It does not say which earlier elements were fully added. Each `Add` it calls does state this.
- Bloom.BloomFilter.ContainsBytes: when a position is past the end of a bit array shorter than `Size`, it does not say whether `Ok(false)` (an earlier clear bit) or `Err(ArgumentOutOfRange)` comes first.
- Bloom.BloomFilter.Contains: the same as `ContainsBytes`.
- Bloom.BloomFilter.ContainsAll: the same, for each element in turn; it states no more than that it answers when the array has `Size` bits and indexing is possible.
- The hash-code test's inequalities for differently sized filters are not modelled. They depend on the floating-point `K` and on hashes of 100-bit arrays, and are not a property of every input.
- The random-input tests (GUID strings, random bytes) and the statistical false-positive test are not modelled. The no-false-negative properties hold for every input instead.
- `IBloomFilter.cs` holds signatures only and is not part of this model.

## Notes on the source

Nothing in the code rejects a `Size` of 0 or checks a caller-supplied bit array, and the model follows the code:

- A `Size` of 0 is not rejected by the constructor. For example, `new BloomFilter<T>(0.0, n, k)` with `k > 0` has `Size` 0, since `Math.Ceiling(0.0 * n)` is 0. Every `Add` or `Contains` then throws DivideByZeroException from `hash % Size`, and the model carries this as `DivideByZero`.
  - With `bitSetSize` 0, the two-argument constructor also rounds `K` to 0. So it computes no hash and throws nothing.
- The four-argument constructor does not copy the caller's `BitArray` or check its length. A shorter array makes `Add` throw part-way, after setting some bits. The model carries this as `ArgumentOutOfRange`, with the bits set before the first out-of-range position.
- The salt is a `byte`. With `K > 1024`, hashes repeat, and the positions after the first 1024 add nothing (`HashesRepeatEvery1024`).
- `Count++` is unchecked, and after `int.MaxValue` additions it wraps to `int.MinValue` (`IncrementIsWrap`).
