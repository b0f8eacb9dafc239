# libanalytics sketches in Dafny

This project models the probabilistic-sketch core of the `libanalytics` Java library and proves properties of that model. The modelled classes are:

- **The hash values.** `hash.Hash32Bits` and `hash.Hash64Bits` provide `divideBy`, `mod`, `getLeastSignificantBits`, `getMostSignificantBits`, `equals` and `compareTo`. Two legacy copies are also modelled: `algorithms.hash.Hash32Bits` and `algorithms.hashers.Hash32Bits`. Their bit extractors are stubs that return 0.
- **`PackedBitsSet`**: `setSize` slots of `bitSize` bits, packed into a `long[]`, where a slot may straddle two words. Two copies exist, in `collections` and `structures`. They differ only in the name of one private helper (`setIthBitInBucket` in `structures`) and in the getters that `structures` lacks. The class `PackedBits.PackedBitsSet` models both; where the `structures` copy matters, a row cites the `collections` lines and names the matching `structures` lines. The two round-trip examples cite the `structures` copy, whose tests they come from.
- **b-bit MinHash (`bBitMinHash`)**: keeps the low bits of each minimum hash in a `PackedBitsSet` and estimates the Jaccard index as the fraction of agreeing slots.
- **`MinHash`**: a bounded `TreeSet` of the smallest hashes. It supports add, merge, a pairwise estimator and the static estimator over many sketches.
- **`OddSketch`**: a parity bit vector with the symmetric-difference and Jaccard estimators.
- **`CountMinSketch`**: a matrix of `long` counters with add and point query.

Java semantics are modelled explicitly in module `Java` (`java.dfy`):

- `int` and `long` are integer subset types, with wrap-around where the source overflows.
- `/` and `%` truncate toward zero.
- Shift counts are masked.
- Exceptions are values. A call returns `Result` (`Ok(value)` or `Throws(exception)`) or `Status` (`Done` or `Threw(exception)`).
- A `float` or `double` quotient is kept as a `Ratio` of its integer numerator and denominator.

A `long` word is modelled as its 64 bits (`Bits`, `bits.dfy`).

State that the source updates in place is modelled imperatively:

- The `long[]` of `PackedBitsSet` and the counter matrix of `CountMinSketch` are Dafny arrays.
- `MinHash` and `OddSketch` are classes whose fields the methods reassign.

Each method is proved against a pure function of the old state. The lemmas then state what those functions mean:

- read-after-write, for one slot and for slots filled in order;
- which other slots a write disturbs;
- the parity of the flipped buckets;
- symmetry of the estimators;
- bounds of the estimates.

Where the source behaves unexpectedly, the model follows the code as written, and so do the lemmas about it:

- **Packed writes.** A straddling `setIthBits` clears `bitSize` bits of the next word, not only its own. A `bitSize` of 31 rejects every value, because `1 << 31` is negative. For a `bitSize` of at most 30, negative values pass the value check and are sign-extended.
- **`CountMinSketch.addHashed`.** It doubles the selected cell and ignores `count`.
- **`OddSketch`.** A negative hash that the size does not divide gives a negative bucket, which `xorIthBit` rejects.

## Model

| member | source | states |
|---|---|---|
| HashBits.Hash32Bits.DivideBy | src/main/java/com/inigoillan/libanalytics/hash/Hash32Bits.java:22-25 | throws `ArithmeticException` exactly for divisor 0; otherwise the quotient truncated toward zero, and `INT_MIN / -1` wraps to `INT_MIN` |
| HashBits.Hash32Bits.Mod | src/main/java/com/inigoillan/libanalytics/hash/Hash32Bits.java:27-30 | throws `ArithmeticException` exactly for divisor 0; otherwise smaller than the divisor in magnitude and of the hash's sign |
| HashBits.Hash32Bits.LeastSignificantBits | src/main/java/com/inigoillan/libanalytics/hash/Hash32Bits.java:32-39 | `IllegalArgumentException` exactly for bits >= 32; otherwise the hash modulo 2^(bits mod 32), a value in [0, 2^(bits mod 32)) |
| HashBits.Hash32Bits.MostSignificantBits | src/main/java/com/inigoillan/libanalytics/hash/Hash32Bits.java:41-46 | `IllegalArgumentException` exactly for bits > 32; a zero shift count gives the hash itself, any other shift s the unsigned 32-bit value divided by 2^s |
| HashBits.Hash32Bits.Equals | src/main/java/com/inigoillan/libanalytics/hash/Hash32Bits.java:56-69 | true exactly for a 32-bit hash with the same value |
| HashBits.Hash32Bits.CompareTo | src/main/java/com/inigoillan/libanalytics/hash/Hash32Bits.java:81-84 | zero exactly for equal hashes; the plain difference whenever it fits in an `int` |
| HashBits.Hash64Bits.DivideBy | src/main/java/com/inigoillan/libanalytics/hash/Hash64Bits.java:21-24 | the division of the low 32 bits: the 32-bit hash's `divideBy` on the cast value, and the same as on the hash itself when it fits in an `int` |
| HashBits.Hash64Bits.Mod | src/main/java/com/inigoillan/libanalytics/hash/Hash64Bits.java:26-29 | the remainder of the low 32 bits, as for `divideBy` |
| HashBits.Hash64Bits.LeastSignificantBits | src/main/java/com/inigoillan/libanalytics/hash/Hash64Bits.java:31-38 | `IllegalArgumentException` exactly for bits >= 64; otherwise the hash modulo 2^(bits mod 32), since the mask is an `int` |
| HashBits.Hash64Bits.MostSignificantBits | src/main/java/com/inigoillan/libanalytics/hash/Hash64Bits.java:40-45 | `IllegalArgumentException` exactly for bits > 64; a zero shift gives the hash, any other shift s the unsigned 64-bit value divided by 2^s |
| HashBits.Hash64Bits.Equals | src/main/java/com/inigoillan/libanalytics/hash/Hash64Bits.java:55-68 | true exactly for a 64-bit hash with the same value |
| HashBits.Hash64Bits.CompareTo | src/main/java/com/inigoillan/libanalytics/hash/Hash64Bits.java:80-83 | 0 for equal hashes, and 0 exactly when the difference is a multiple of 2^32 |
| HashBits.DivideByModIdentity | src/main/java/com/inigoillan/libanalytics/hash/Hash32Bits.java:22-30 | for every non-zero divisor both succeed and `(h / d) * d + h % d == h` in `int` arithmetic |
| HashBits.LeastSignificantBitsSplit | src/main/java/com/inigoillan/libanalytics/hash/Hash32Bits.java:32-39 | for k < 32 the low k bits plus 2^k times the floor quotient rebuild the hash |
| HashBits.MostSignificantBitsRange | src/main/java/com/inigoillan/libanalytics/hash/Hash32Bits.java:41-46 | for 1 <= bits <= 31 the top bits lie in [0, 2^bits) |
| HashBits.LeastSignificantBits64Period | src/main/java/com/inigoillan/libanalytics/hash/Hash64Bits.java:31-38 | asking a 64-bit hash for bits + 32 low bits returns the same as asking for bits |
| HashBits.CompareTo32Overflow | src/main/java/com/inigoillan/libanalytics/hash/Hash32Bits.java:81-84 | `INT_MAX` and -1 each compare below the other, so `compareTo` is no order |
| HashBits.CompareTo64Collision | src/main/java/com/inigoillan/libanalytics/hash/Hash64Bits.java:80-83 | 2^32 and 0 compare equal although they are distinct hashes |
| HashBits.DivideBy64Truncates | src/main/java/com/inigoillan/libanalytics/hash/Hash64Bits.java:21-24 | 2^32 + 5 divided by 1 gives 5: the high half is lost |
| HashBits.LeastSignificantBitsExamples | src/main/java/com/inigoillan/libanalytics/hash/Hash32Bits.java:32-39 | 255 keeps 7 in 3 bits and 0 in 0 bits; -255 keeps 1 in 5 bits |
| HashBits.LeastSignificantBits64Examples | src/main/java/com/inigoillan/libanalytics/hash/Hash64Bits.java:31-38 | a 64-bit hash gives the same low bits as the 32-bit tests expect, and asking for 32 bits masks nothing in, giving 0 |
| HashBits.MostSignificantBitsNone | src/main/java/com/inigoillan/libanalytics/hash/Hash32Bits.java:41-46 | asking for 0 top bits shifts by 32, which Java reduces to 0, so the whole hash comes back |
| HashBits.MostSignificantBits32Examples | src/main/java/com/inigoillan/libanalytics/hash/Hash32Bits.java:41-46 | the top 30 bits of 256 are 64; with 32 bits `INT_MIN` is returned unchanged; the top 5 bits of `INT_MAX` are 15 and of -1 are 31 |
| HashBits.MostSignificantBits64Examples | src/main/java/com/inigoillan/libanalytics/hash/Hash64Bits.java:40-45 | the top 62 bits of 256 are 64, and with 64 bits `LONG_MIN` is returned unchanged |
| HashBits.MostSignificantBits64TopExamples | src/main/java/com/inigoillan/libanalytics/hash/Hash64Bits.java:40-45 | the top 5 bits of `LONG_MAX` are 15 and of -1 are 31 |
| AlgorithmsHash.Hash32Bits.DivideBy | src/main/java/com/inigoillan/libanalytics/algorithms/hash/Hash32Bits.java:16-19 | the same Java `int` division as the `hash` package, throwing exactly for divisor 0 |
| AlgorithmsHash.Hash32Bits.Mod | src/main/java/com/inigoillan/libanalytics/algorithms/hash/Hash32Bits.java:21-24 | the same Java `int` remainder as the `hash` package, throwing exactly for divisor 0 |
| AlgorithmsHash.Hash32Bits.LeastSignficantBits | src/main/java/com/inigoillan/libanalytics/algorithms/hash/Hash32Bits.java:26-29 | a stub that answers 0 for every argument |
| AlgorithmsHash.Hash32Bits.MostSignificantBits | src/main/java/com/inigoillan/libanalytics/algorithms/hash/Hash32Bits.java:31-34 | a stub that answers 0 for every argument |
| AlgorithmsHash.Hash32Bits.CompareTo | src/main/java/com/inigoillan/libanalytics/algorithms/hash/Hash32Bits.java:46-49 | the `hash` package's comparison, overflow included; zero exactly for equal hashes |
| AlgorithmsHash.StubsDiffer | src/main/java/com/inigoillan/libanalytics/algorithms/hash/Hash32Bits.java:26-29 | for the hash 255 the stub gives 0 where the `hash` package gives 7 |
| AlgorithmsHashers.Hash32Bits.DivideBy | src/main/java/com/inigoillan/libanalytics/algorithms/hashers/Hash32Bits.java:10-13 | the `algorithms.hash` copy's division: truncated quotient, except that `INT_MIN / -1` wraps |
| AlgorithmsHashers.Hash32Bits.Mod | src/main/java/com/inigoillan/libanalytics/algorithms/hashers/Hash32Bits.java:15-18 | the `algorithms.hash` copy's remainder, the truncating remainder of the hash |
| AlgorithmsHashers.Hash32Bits.LeastSignficantBits | src/main/java/com/inigoillan/libanalytics/algorithms/hashers/Hash32Bits.java:20-23 | the same stub as the `algorithms.hash` copy |
| AlgorithmsHashers.Hash32Bits.MostSignificantBits | src/main/java/com/inigoillan/libanalytics/algorithms/hashers/Hash32Bits.java:25-28 | the same stub as the `algorithms.hash` copy |
| AlgorithmsHashers.ModRange | src/main/java/com/inigoillan/libanalytics/algorithms/hashers/Hash32Bits.java:15-18 | for a positive size the remainder lies in (-size, size) and is non-negative exactly when the hash is non-negative or the remainder is 0 |
| PackedBits.WordCount | src/main/java/com/inigoillan/libanalytics/collections/PackedBitsSet.java:28-29 | the array length is ceil(bitSize * setSize / 64) words |
| PackedBits.Bucket | src/main/java/com/inigoillan/libanalytics/collections/PackedBitsSet.java:114-116 | the word holding a slot's first bit, floor(position * bitSize / 64); the `structures` copy does the same at lines 102-104 |
| PackedBits.LastBitBucket | src/main/java/com/inigoillan/libanalytics/collections/PackedBitsSet.java:118-120 | the word holding the slot's last bit, computed from `((position + 1) * bitSize) - 1` in `int` arithmetic; the `structures` copy does the same at lines 106-108 |
| PackedBits.Offset | src/main/java/com/inigoillan/libanalytics/collections/PackedBitsSet.java:44 | the slot's first bit within its word, `(position * bitSize) % 64` with `int` wrap-around |
| PackedBits.NegativeBucket | src/main/java/com/inigoillan/libanalytics/collections/PackedBitsSet.java:114-116 | a negative position has a negative bucket |
| PackedBits.OffsetValue | src/main/java/com/inigoillan/libanalytics/collections/PackedBitsSet.java:44 | without overflow the offset is position * bitSize mod 64 |
| PackedBits.Layout | src/main/java/com/inigoillan/libanalytics/collections/PackedBitsSet.java:40-45 | a slot starts at `Offset` of word `Bucket` and ends in that word or the next; it stays in one word exactly when offset + bitSize <= 64 |
| PackedBits.LongLowOnesValue | src/main/java/com/inigoillan/libanalytics/collections/PackedBitsSet.java:64 | `(1L << n) - 1` holds the n mod 64 low ones |
| PackedBits.MergeWordBits | src/main/java/com/inigoillan/libanalytics/collections/PackedBitsSet.java:59-71 | below the offset the word is kept, the next bitSize bits take the value's bits, and above them the sign-extended value's bits are ORed in |
| PackedBits.ExtractWordValue | src/main/java/com/inigoillan/libanalytics/collections/PackedBitsSet.java:100-107 | reading bits bits at offset gives the unsigned value of exactly those bits |
| PackedBits.WriteInBucket | src/main/java/com/inigoillan/libanalytics/collections/PackedBitsSet.java:59-71 | an index outside the array throws `IndexOutOfBoundsException` and changes nothing; otherwise only that word changes |
| PackedBits.ReadInBucket | src/main/java/com/inigoillan/libanalytics/collections/PackedBitsSet.java:100-107 | throws `IndexOutOfBoundsException` exactly for an index outside the array |
| PackedBits.ReadInBucketValue | src/main/java/com/inigoillan/libanalytics/collections/PackedBitsSet.java:100-107 | inside the array the read is the unsigned value of the addressed bits |
| PackedBits.WriteSlot | src/main/java/com/inigoillan/libanalytics/collections/PackedBitsSet.java:37-57 | `IllegalArgumentException` exactly when `(1 << bitSize) > value` fails, with nothing changed; a negative position or a first word past the array gives `IndexOutOfBoundsException` with nothing changed; no other exception |
| PackedBits.WriteParts | src/main/java/com/inigoillan/libanalytics/collections/PackedBitsSet.java:40-56 | the only failure after the checks is an index out of the array; a first word outside it changes nothing |
| PackedBits.ReadSlot | src/main/java/com/inigoillan/libanalytics/collections/PackedBitsSet.java:78-98 | `IllegalArgumentException` exactly when setSize < position, so position == setSize passes; a negative position or a first word past the array gives `IndexOutOfBoundsException` |
| PackedBits.ReadParts | src/main/java/com/inigoillan/libanalytics/collections/PackedBitsSet.java:81-97 | the only failure after the check is an index out of the array |
| PackedBits.SlotInOneWord | src/main/java/com/inigoillan/libanalytics/collections/PackedBitsSet.java:114-120 | a slot inside one word is the bitSize bits of word `Bucket` from `Offset` up |
| PackedBits.SlotInTwoWords | src/main/java/com/inigoillan/libanalytics/collections/PackedBitsSet.java:114-120 | a straddling slot is the top 64 - offset bits of word `Bucket` followed by the low bits of the next word |
| PackedBits.ReadPartsStraddle | src/main/java/com/inigoillan/libanalytics/collections/PackedBitsSet.java:88-96 | a straddling read of two words in the array recombines the top of the first and the bottom of the second into one unsigned value |
| PackedBits.ReadSlotValue | src/main/java/com/inigoillan/libanalytics/collections/PackedBitsSet.java:78-98 | a read that passes the check and stays in the array returns the unsigned value of the slot's bits |
| PackedBits.RepresentableValues | src/main/java/com/inigoillan/libanalytics/collections/PackedBitsSet.java:38 | the value check passes exactly for bitSize <= 30 and value < 2^bitSize, so for bitSize <= 30 every negative value passes; for bitSize 31 `1 << 31` is negative and every value fails |
| PackedBits.WritePartsStraddle | src/main/java/com/inigoillan/libanalytics/collections/PackedBitsSet.java:47-56 | a straddling write puts the value's low bits at the top of the first word, and clears bitSize bits at the bottom of the next word before ORing in the rest; it fails exactly when the next word is outside the array |
| PackedBits.WriteSlotBit | src/main/java/com/inigoillan/libanalytics/collections/PackedBitsSet.java:37-71 | a representable write of a slot in the array completes, and every global bit becomes what `WrittenBit` says: kept outside the slot's words and below the slot, the value's bits from the slot start to the cleared end, ORed above |
| PackedBits.WriteEffect | src/main/java/com/inigoillan/libanalytics/collections/PackedBitsSet.java:37-71 | the whole bit-level effect of a write, with the start, cleared end and word boundary of the run of bits it sets |
| PackedBits.WriteThenRead | src/main/java/com/inigoillan/libanalytics/collections/PackedBitsSet.java:37-98 | reading back a slot just written returns the value modulo 2^bitSize, which is the value itself when it is non-negative |
| PackedBits.WriteKeepsOtherSlots | src/main/java/com/inigoillan/libanalytics/collections/PackedBitsSet.java:37-71 | writing a non-negative value leaves every other slot's bits unchanged, except the next slot when the written one straddles two words |
| PackedBits.WriteKeepsSlot | src/main/java/com/inigoillan/libanalytics/collections/PackedBitsSet.java:37-71 | a slot other than the written one and its successor reads back unchanged after a non-negative write |
| PackedBits.ExtractZero | src/main/java/com/inigoillan/libanalytics/collections/PackedBitsSet.java:100-107 | any run of bits read out of a zero word has value 0 |
| PackedBits.FreshReadsZero | src/main/java/com/inigoillan/libanalytics/collections/PackedBitsSet.java:20-30 | every read of a freshly built all-zero array that does not throw returns 0 |
| PackedBits.WriteAll | src/main/java/com/inigoillan/libanalytics/collections/PackedBitsSet.java:37-57 | filling slots 0 .. n-1 in order with `setIthBits` keeps the array length |
| PackedBits.WrittenReadsBack | src/main/java/com/inigoillan/libanalytics/collections/PackedBitsSet.java:37-98 | for bitSize <= 30 a representable value written into a slot inside the array reads back as itself |
| PackedBits.LaterWriteKeepsRead | src/main/java/com/inigoillan/libanalytics/collections/PackedBitsSet.java:37-98 | writing slot p leaves what any earlier slot q < p reads |
| PackedBits.WriteAllThenRead | src/main/java/com/inigoillan/libanalytics/collections/PackedBitsSet.java:37-98 | after filling slots 0 .. n-1 in order with values below 2^bitSize, every slot reads back the value written to it, even where a later slot straddles |
| PackedBits.StraddlingRoundTripExample | src/main/java/com/inigoillan/libanalytics/structures/PackedBitsSet.java:35-91 | in the 4-word array of a set of ten 20-bit slots, a value written to slot 3, which straddles words 0 and 1, reads back unchanged |
| PackedBits.OneBitRoundTripExample | src/main/java/com/inigoillan/libanalytics/structures/PackedBitsSet.java:35-91 | a 1-bit set: writing 1 at position 32 and reading it back gives 1 |
| PackedBits.StraddlingWriteClobbersNext | src/main/java/com/inigoillan/libanalytics/collections/PackedBitsSet.java:52-56 | a straddling write clears the low 64 - offset bits of the next slot, whatever non-negative value is written |
| PackedBits.WriteClobbersNext | src/main/java/com/inigoillan/libanalytics/collections/PackedBitsSet.java:52-56 | the next slot's value after a straddling write is its old value with its low 64 - offset bits cleared |
| PackedBits.PartialStraddlingWrite | src/main/java/com/inigoillan/libanalytics/collections/PackedBitsSet.java:52-56 | a straddling write into the last word throws `IndexOutOfBoundsException`, but only after writing the value's low bits into that word |
| PackedBits.PartialWrite | src/main/java/com/inigoillan/libanalytics/collections/PackedBitsSet.java:52-56 | the partial write keeps every earlier word and sets the top bits of the last word |
| PackedBits.NegativeWriteSetsHigherBits | src/main/java/com/inigoillan/libanalytics/collections/PackedBitsSet.java:59-71 | a negative value passes the check and is sign-extended: every bit above the slot up to the end of its word becomes 1 |
| PackedBits.PackedBitsSet.constructor | src/main/java/com/inigoillan/libanalytics/collections/PackedBitsSet.java:20-30 | bitSize and setSize as given, and ceil(bitSize * setSize / 64) zero words |
| PackedBits.PackedBitsSet.Create | src/main/java/com/inigoillan/libanalytics/collections/PackedBitsSet.java:20-30 | `IllegalArgumentException` exactly unless 0 < bitSize < 32 and setSize > 0; otherwise a fresh all-zero array of `WordCount` words, with `getBitSize` and `getSetSize` returning the arguments; the `structures` copy does the same at lines 23-33 |
| PackedBits.PackedBitsSet.SetIthBits | src/main/java/com/inigoillan/libanalytics/collections/PackedBitsSet.java:37-57 | the status and the array afterwards are exactly those of `WriteSlot` on the array before; the `structures` copy does the same at lines 35-55 |
| PackedBits.PackedBitsSet.SetIthBitsAt | src/main/java/com/inigoillan/libanalytics/collections/PackedBitsSet.java:40-56 | the writes once bucket, last bucket and offset are known, as `WriteParts` states them |
| PackedBits.PackedBitsSet.SetIthBitsInBucket | src/main/java/com/inigoillan/libanalytics/collections/PackedBitsSet.java:59-71 | the status and the array afterwards are those of `WriteInBucket`; the `structures` copy does the same at lines 57-69 |
| PackedBits.PackedBitsSet.GetIthBits | src/main/java/com/inigoillan/libanalytics/collections/PackedBitsSet.java:78-98 | the result is `ReadSlot` of the current array; nothing changes; the `structures` copy does the same at lines 71-91 |
| PackedBits.PackedBitsSet.GetIthBitsAt | src/main/java/com/inigoillan/libanalytics/collections/PackedBitsSet.java:81-97 | the reads once bucket, last bucket and offset are known, as `ReadParts` states them |
| PackedBits.PackedBitsSet.GetIthBitsInBucket | src/main/java/com/inigoillan/libanalytics/collections/PackedBitsSet.java:100-107 | the result is `ReadInBucket` of the current array; the `structures` copy does the same at lines 93-100 |
| BBitMinHash.StoredBits | src/main/java/com/inigoillan/libanalytics/algorithms/minhash/bBitMinHash.java:25-29 | the stored value is the hash modulo 2^bitsSize, in [0, 2^bitsSize) |
| BBitMinHash.SlotReads | src/main/java/com/inigoillan/libanalytics/algorithms/minhash/bBitMinHash.java:40-44 | the n reads the estimator makes, one per position |
| BBitMinHash.SlotReadsAt | src/main/java/com/inigoillan/libanalytics/algorithms/minhash/bBitMinHash.java:40-44 | read i of the sequence is `getIthBits(i)` |
| BBitMinHash.EqualReads | src/main/java/com/inigoillan/libanalytics/algorithms/minhash/bBitMinHash.java:40-44 | the count of agreeing positions never exceeds the number of positions |
| BBitMinHash.Estimate | src/main/java/com/inigoillan/libanalytics/algorithms/minhash/bBitMinHash.java:31-47 | `IllegalArgumentException` when the bit sizes or set sizes differ; otherwise a ratio over the set size with numerator in [0, setSize] |
| BBitMinHash.EqualReadsThrowsOn | src/main/java/com/inigoillan/libanalytics/algorithms/minhash/bBitMinHash.java:40-44 | once a read throws the loop's outcome is that exception, however many positions follow |
| BBitMinHash.EqualReadsSymmetric | src/main/java/com/inigoillan/libanalytics/algorithms/minhash/bBitMinHash.java:40-44 | the count is symmetric when both sketches throw at the same positions with the same exceptions |
| BBitMinHash.EqualReadsSelf | src/main/java/com/inigoillan/libanalytics/algorithms/minhash/bBitMinHash.java:40-44 | a sketch agrees with itself at every position |
| BBitMinHash.UnsignedInjective | src/main/java/com/inigoillan/libanalytics/algorithms/minhash/bBitMinHash.java:40-44 | two bit strings of equal length with the same unsigned value are equal, so equal reads mean equal slots |
| BBitMinHash.EqualReadsCountsAgreeingSlots | src/main/java/com/inigoillan/libanalytics/algorithms/minhash/bBitMinHash.java:40-44 | inside the `int` range of the index arithmetic no read throws and the loop counts exactly the positions whose slots hold the same bits |
| BBitMinHash.CountStep | src/main/java/com/inigoillan/libanalytics/algorithms/minhash/bBitMinHash.java:40-44 | one more position adds 1 exactly when its two slots hold the same bits |
| BBitMinHash.ReadSlotThrowsAlike | src/main/java/com/inigoillan/libanalytics/algorithms/minhash/bBitMinHash.java:40-44 | whether a read throws, and what, depends only on the number of words |
| BBitMinHash.EstimateSymmetric | src/main/java/com/inigoillan/libanalytics/algorithms/minhash/bBitMinHash.java:31-47 | the estimate of a against b equals that of b against a |
| BBitMinHash.EstimateSelf | src/main/java/com/inigoillan/libanalytics/algorithms/minhash/bBitMinHash.java:31-47 | a sketch compared with itself gives setSize / setSize whenever no read throws |
| BBitMinHash.EstimateCountsAgreeingSlots | src/main/java/com/inigoillan/libanalytics/algorithms/minhash/bBitMinHash.java:31-47 | for sketches within the `int` index range the estimate is the agreeing slots over the set size |
| BBitMinHash.EqualReadsThrowsFromRead | src/main/java/com/inigoillan/libanalytics/algorithms/minhash/bBitMinHash.java:40-44 | an exception out of the loop is the exception of one of the reads |
| BBitMinHash.EstimateThrowsOnlyOutOfBounds | src/main/java/com/inigoillan/libanalytics/algorithms/minhash/bBitMinHash.java:31-47 | sketches of matching shape fail only with `IndexOutOfBoundsException` |
| BBitMinHash.BBitMinHash.constructor | src/main/java/com/inigoillan/libanalytics/algorithms/minhash/bBitMinHash.java:20-23 | a fresh packed set of the given bit and set size, all zero |
| BBitMinHash.BBitMinHash.Create | src/main/java/com/inigoillan/libanalytics/algorithms/minhash/bBitMinHash.java:20-23 | throws `IllegalArgumentException` exactly when the packed set rejects the sizes; otherwise a fresh all-zero sketch |
| BBitMinHash.BBitMinHash.SetHashed | src/main/java/com/inigoillan/libanalytics/algorithms/minhash/bBitMinHash.java:25-29 | the status and the words afterwards are those of writing `StoredBits` of the hash into the slot |
| BBitMinHash.BBitMinHash.Reads | src/main/java/com/inigoillan/libanalytics/algorithms/minhash/bBitMinHash.java:40-44 | one read per position of the set |
| BBitMinHash.BBitMinHash.CountAt | src/main/java/com/inigoillan/libanalytics/algorithms/minhash/bBitMinHash.java:40-44 | one pass of the loop extends the count over one more position |
| BBitMinHash.BBitMinHash.EstimateJaccardIndex | src/main/java/com/inigoillan/libanalytics/algorithms/minhash/bBitMinHash.java:31-47 | the result is `Estimate` of the two sketches' words; neither sketch changes |
| BBitMinHash.SetHashedAt31Throws | src/main/java/com/inigoillan/libanalytics/algorithms/minhash/bBitMinHash.java:25-29 | a 31-bit sketch stores nothing: every `setHashed` throws `IllegalArgumentException` and changes nothing |
| BBitMinHash.SetHashedThenRead | src/main/java/com/inigoillan/libanalytics/algorithms/minhash/bBitMinHash.java:25-29 | for bitsSize <= 30, after `setHashed(p, h)` slot p reads back as h mod 2^bitsSize |
| BBitMinHash.StoredBitsExamples | src/main/java/com/inigoillan/libanalytics/algorithms/minhash/bBitMinHash.java:25-29 | a 1-bit sketch stores 0 for hash 0 and 1 for hash 1 |
| BBitMinHash.Agreements | src/main/java/com/inigoillan/libanalytics/algorithms/minhash/bBitMinHash.java:40-44 | the number of positions below n at which two value sequences agree is at most n |
| BBitMinHash.WrittenSlotValue | src/main/java/com/inigoillan/libanalytics/algorithms/minhash/bBitMinHash.java:25-29 | after `setHashed` has filled positions 0 .. n-1 in order, slot q holds the value written there |
| BBitMinHash.AgreeingStep | src/main/java/com/inigoillan/libanalytics/algorithms/minhash/bBitMinHash.java:40-44 | two slots holding the values v and w agree exactly when v == w |
| BBitMinHash.AgreeingSlotsOfWrites | src/main/java/com/inigoillan/libanalytics/algorithms/minhash/bBitMinHash.java:40-44 | over two sketches filled position by position, the slots agree exactly where the stored values do |
| BBitMinHash.EstimateOfWrites | src/main/java/com/inigoillan/libanalytics/algorithms/minhash/bBitMinHash.java:25-47 | two sketches filled position by position estimate the number of positions with equal stored values over the set size |
| BBitMinHash.EstimateExamples | src/main/java/com/inigoillan/libanalytics/algorithms/minhash/bBitMinHash.java:25-47 | 1-bit sketches of [0, 1] against [1, 0] estimate 0 / 2, and against [1, 1] give 1 / 2 |
| MinHash.Union | src/main/java/com/inigoillan/libanalytics/algorithms/minhash/MinHash.java:58-62 | x is in the union exactly when it is in either operand; the union is at least as long as each |
| MinHash.Take | src/main/java/com/inigoillan/libanalytics/algorithms/minhash/MinHash.java:96-100 | the result is a prefix of length min(|s|, k) |
| MinHash.UnionSorted | src/main/java/com/inigoillan/libanalytics/algorithms/minhash/MinHash.java:58-62 | the union of two sorted duplicate-free sequences is sorted and duplicate-free |
| MinHash.UnionCommutes | src/main/java/com/inigoillan/libanalytics/algorithms/minhash/MinHash.java:88-94 | the union does not depend on the order of its operands |
| MinHash.TakeUnion | src/main/java/com/inigoillan/libanalytics/algorithms/minhash/MinHash.java:58-62 | trimming an operand to its k smallest first does not change the j <= k smallest of the union |
| MinHash.UnionPresent | src/main/java/com/inigoillan/libanalytics/algorithms/minhash/MinHash.java:58-62 | adding a value already present changes nothing |
| MinHash.UnionAboveAll | src/main/java/com/inigoillan/libanalytics/algorithms/minhash/MinHash.java:58-62 | adding a value above every present one appends it |
| MinHash.TakeSmallest | src/main/java/com/inigoillan/libanalytics/algorithms/minhash/MinHash.java:96-100 | the kept prefix is sorted and every value kept is below every value dropped |
| MinHash.SortedUnique | src/main/java/com/inigoillan/libanalytics/algorithms/minhash/MinHash.java:241-252 | a sorted duplicate-free sequence is determined by its set of values |
| MinHash.SortedSameSet | src/main/java/com/inigoillan/libanalytics/algorithms/minhash/MinHash.java:241-252 | two such sequences are equal exactly when their sets are |
| MinHash.SortedCard | src/main/java/com/inigoillan/libanalytics/algorithms/minhash/MinHash.java:114-131 | a sorted duplicate-free sequence has as many distinct values as positions |
| MinHash.CountInIsIntersection | src/main/java/com/inigoillan/libanalytics/algorithms/minhash/MinHash.java:114-131 | counting the values of one set held by the other gives the size of the intersection |
| MinHash.PairEstimateBounds | src/main/java/com/inigoillan/libanalytics/algorithms/minhash/MinHash.java:114-131 | the pairwise estimate lies in [0, 1], and its denominator is the smaller size when both sets are non-empty |
| MinHash.PairEstimateSymmetric | src/main/java/com/inigoillan/libanalytics/algorithms/minhash/MinHash.java:114-131 | the pairwise estimate is symmetric, and a non-empty set against itself gives 1 |
| MinHash.UnionAll | src/main/java/com/inigoillan/libanalytics/algorithms/minhash/MinHash.java:152-156 | the union of all sketches is at least as long as each |
| MinHash.UnionAllSorted | src/main/java/com/inigoillan/libanalytics/algorithms/minhash/MinHash.java:152-156 | the union of all sketches is sorted and holds exactly the values some sketch holds |
| MinHash.MinSize | src/main/java/com/inigoillan/libanalytics/algorithms/minhash/MinHash.java:152-156 | k starts at `Integer.MAX_VALUE` and is at most every maximum size |
| MinHash.MaxLength | src/main/java/com/inigoillan/libanalytics/algorithms/minhash/MinHash.java:152-156 | the largest size starts at `Integer.MIN_VALUE` and bounds every set's size |
| MinHash.MinSizeAttained | src/main/java/com/inigoillan/libanalytics/algorithms/minhash/MinHash.java:152-156 | the minimum is the start value or one of the maximum sizes |
| MinHash.MaxLengthAttained | src/main/java/com/inigoillan/libanalytics/algorithms/minhash/MinHash.java:152-156 | the maximum is the start value or the size of one of the sets |
| MinHash.CountInAllBound | src/main/java/com/inigoillan/libanalytics/algorithms/minhash/MinHash.java:161-182 | the count of values held by every sketch is at most the number of values polled |
| MinHash.SmallestCountBounds | src/main/java/com/inigoillan/libanalytics/algorithms/minhash/MinHash.java:158-161 | k is at least 1 and at most the size of the union, so every `pollFirst` returns a value |
| MinHash.MultiEstimateOf | src/main/java/com/inigoillan/libanalytics/algorithms/minhash/MinHash.java:141-184 | with every sketch non-empty the estimate is the count over k of the k smallest union values held by every sketch |
| MinHash.MultiEstimateBounds | src/main/java/com/inigoillan/libanalytics/algorithms/minhash/MinHash.java:141-184 | the static estimate lies in [0, 1], over a k that no maximum size is below |
| MinHash.MultiEstimateSingle | src/main/java/com/inigoillan/libanalytics/algorithms/minhash/MinHash.java:141-184 | a single non-empty sketch within its capacity has static estimate 1 |
| MinHash.CountInAllOwn | src/main/java/com/inigoillan/libanalytics/algorithms/minhash/MinHash.java:172-178 | every value of a sketch is held by that one sketch |
| MinHash.MinHash.constructor | src/main/java/com/inigoillan/libanalytics/algorithms/minhash/MinHash.java:41-45 | an empty set with the given maximum size |
| MinHash.MinHash.Create | src/main/java/com/inigoillan/libanalytics/algorithms/minhash/MinHash.java:41-45 | `IllegalArgumentException` exactly for maxSize <= 0; otherwise an empty sketch |
| MinHash.MinHash.RemoveExtra | src/main/java/com/inigoillan/libanalytics/algorithms/minhash/MinHash.java:96-100 | the set becomes its maxSize smallest values |
| MinHash.MinHash.AddHashed | src/main/java/com/inigoillan/libanalytics/algorithms/minhash/MinHash.java:58-62 | the set becomes the maxSize smallest of the old set with the hash added; maxSize does not change |
| MinHash.AddPresentKeeps | src/main/java/com/inigoillan/libanalytics/algorithms/minhash/MinHash.java:58-62 | adding a hash already held leaves a sketch within capacity as it was |
| MinHash.AddAboveFullKeeps | src/main/java/com/inigoillan/libanalytics/algorithms/minhash/MinHash.java:58-62 | adding a hash above every value of a full sketch leaves it as it was |
| MinHash.MergeCommutes | src/main/java/com/inigoillan/libanalytics/algorithms/minhash/MinHash.java:71-81 | merging a with b gives the same capacity and set as merging b with a |
| MinHash.MinHash.MergeHelper | src/main/java/com/inigoillan/libanalytics/algorithms/minhash/MinHash.java:88-94 | maxSize becomes the smaller of the two, and the set the that many smallest values of the union |
| MinHash.MinHash.Merge | src/main/java/com/inigoillan/libanalytics/algorithms/minhash/MinHash.java:71-81 | a fresh sketch with the smaller capacity holding that many smallest values of the union |
| MinHash.MinHash.Equals | src/main/java/com/inigoillan/libanalytics/algorithms/minhash/MinHash.java:241-252 | true exactly for the same set of values and the same maxSize |
| MinHash.MinHash.EstimateJaccardIndex | src/main/java/com/inigoillan/libanalytics/algorithms/minhash/MinHash.java:114-131 | equal to the pairwise estimate of the two sets: 0 when either is empty, else the intersection over the smaller size |
| MinHash.ElemsOf | src/main/java/com/inigoillan/libanalytics/algorithms/minhash/MinHash.java:152-156 | the sets the sketches hold, in order |
| MinHash.MaxSizesOf | src/main/java/com/inigoillan/libanalytics/algorithms/minhash/MinHash.java:152-156 | the sketches' maximum sizes, each positive |
| MinHash.AllContain | src/main/java/com/inigoillan/libanalytics/algorithms/minhash/MinHash.java:172-178 | true exactly when every sketch holds the value |
| MinHash.Gather | src/main/java/com/inigoillan/libanalytics/algorithms/minhash/MinHash.java:152-156 | returns the union of all sets, the least maximum size and the largest set size |
| MinHash.GatherStep | src/main/java/com/inigoillan/libanalytics/algorithms/minhash/MinHash.java:152-156 | one more sketch adds its set to the union, lowers k by its maximum size and raises the largest size by its set's size |
| MinHash.CountSmallest | src/main/java/com/inigoillan/libanalytics/algorithms/minhash/MinHash.java:161-182 | counts the first k values of the union that every sketch holds |
| MinHash.EstimateJaccardIndexOfAll | src/main/java/com/inigoillan/libanalytics/algorithms/minhash/MinHash.java:141-195 | the result is the static estimate: `IllegalArgumentException` for no sketches, 0 when one is empty; the varargs overload gives the same result (lines 193-195) |
| OddSketch.Toggle | src/main/java/com/inigoillan/libanalytics/algorithms/oddsketch/OddSketch.java:115-120 | bit i changes and no other bit does |
| OddSketch.Xor | src/main/java/com/inigoillan/libanalytics/algorithms/oddsketch/OddSketch.java:103-109 | a bit is set exactly when it is set in one of the two vectors and not the other |
| OddSketch.ToggleTwice | src/main/java/com/inigoillan/libanalytics/algorithms/oddsketch/OddSketch.java:43-48 | flipping a bit twice restores the vector |
| OddSketch.ToggleCommutes | src/main/java/com/inigoillan/libanalytics/algorithms/oddsketch/OddSketch.java:43-48 | two flips commute |
| OddSketch.XorSymmetric | src/main/java/com/inigoillan/libanalytics/algorithms/oddsketch/OddSketch.java:103-109 | the XOR does not depend on the order of its operands |
| OddSketch.XorEmpty | src/main/java/com/inigoillan/libanalytics/algorithms/oddsketch/OddSketch.java:103-109 | the XOR is empty exactly when the two vectors are equal |
| OddSketch.ParityOdd | src/main/java/com/inigoillan/libanalytics/algorithms/oddsketch/OddSketch.java:43-48 | bit i is set exactly when bucket i was flipped an odd number of times |
| OddSketch.ParityOrderIndependent | src/main/java/com/inigoillan/libanalytics/algorithms/oddsketch/OddSketch.java:43-48 | the vector depends only on which buckets were flipped how often, not on the order |
| OddSketch.ParityAppend | src/main/java/com/inigoillan/libanalytics/algorithms/oddsketch/OddSketch.java:103-109 | flipping one history after another leaves the XOR of the two vectors |
| OddSketch.ParityTwice | src/main/java/com/inigoillan/libanalytics/algorithms/oddsketch/OddSketch.java:43-48 | flipping a bucket twice in a row leaves no trace |
| OddSketch.CheckIndex | src/main/java/com/inigoillan/libanalytics/algorithms/oddsketch/OddSketch.java:116-117 | passes exactly for 0 <= i < size, otherwise `IllegalArgumentException` |
| OddSketch.AddBits | src/main/java/com/inigoillan/libanalytics/algorithms/oddsketch/OddSketch.java:43-48 | size 0 throws `ArithmeticException`; a remainder outside [0, size) throws `IllegalArgumentException`; otherwise the bucket `hash % size` is flipped |
| OddSketch.AddBitsFails | src/main/java/com/inigoillan/libanalytics/algorithms/oddsketch/OddSketch.java:43-48 | for a positive size the add fails exactly for a negative hash that the size does not divide |
| OddSketch.AddBitsTwice | src/main/java/com/inigoillan/libanalytics/algorithms/oddsketch/OddSketch.java:43-48 | adding the same hash twice restores the vector |
| OddSketch.AddBitsCommute | src/main/java/com/inigoillan/libanalytics/algorithms/oddsketch/OddSketch.java:43-48 | two adds that succeed give the same vector in either order |
| OddSketch.InnerNotPositiveReal | src/main/java/com/inigoillan/libanalytics/algorithms/oddsketch/OddSketch.java:94-97 | for non-zero size the integer test agrees with `1 - 2d/n <= 0` on reals |
| OddSketch.SelfNotZero | src/main/java/com/inigoillan/libanalytics/algorithms/oddsketch/OddSketch.java:94-97 | difference 0 never takes the 0.0 branch for a positive size |
| OddSketch.OddSketch.constructor | src/main/java/com/inigoillan/libanalytics/algorithms/oddsketch/OddSketch.java:31-38 | a clear vector, the given size and no additions |
| OddSketch.OddSketch.Create | src/main/java/com/inigoillan/libanalytics/algorithms/oddsketch/OddSketch.java:31-38 | `IllegalArgumentException` exactly for size <= 0; otherwise a clear vector of that size |
| OddSketch.OddSketch.GetBucket | src/main/java/com/inigoillan/libanalytics/algorithms/oddsketch/OddSketch.java:111-113 | throws `ArithmeticException` exactly for size 0; otherwise smaller than the size in magnitude, and negative only for a negative hash that the size does not divide |
| OddSketch.OddSketch.XorIthBit | src/main/java/com/inigoillan/libanalytics/algorithms/oddsketch/OddSketch.java:115-120 | flips bit i when 0 <= i < size, otherwise throws `IllegalArgumentException` and changes nothing |
| OddSketch.OddSketch.AddHashed | src/main/java/com/inigoillan/libanalytics/algorithms/oddsketch/OddSketch.java:43-48 | the vector becomes `AddBits` of the old one and the counter moves (with `int` wrap-around) only on success; the vector stays the parity of the flipped buckets |
| OddSketch.OddSketch.SetSize | src/main/java/com/inigoillan/libanalytics/algorithms/oddsketch/OddSketch.java:128-133 | the size changes first; a negative size then throws `NegativeArraySizeException` with the vector unchanged; otherwise the vector is cleared; `elementsAdded` is not reset |
| OddSketch.OddSketch.ComputeSymmetricDifference | src/main/java/com/inigoillan/libanalytics/algorithms/oddsketch/OddSketch.java:103-109 | the number of bits set in exactly one of the two vectors |
| OddSketch.OddSketch.ComputeJaccardIndex | src/main/java/com/inigoillan/libanalytics/algorithms/oddsketch/OddSketch.java:85-101 | `IllegalArgumentException` exactly when the sizes or counts differ; 0.0 exactly when `1 - 2d/n <= 0`; otherwise the logarithmic estimate of d, the count and the size |
| OddSketch.SymmetricDifferenceOfHistories | src/main/java/com/inigoillan/libanalytics/algorithms/oddsketch/OddSketch.java:103-109 | the difference counts the buckets the two histories together flipped an odd number of times |
| OddSketch.SymmetricDifferenceSymmetric | src/main/java/com/inigoillan/libanalytics/algorithms/oddsketch/OddSketch.java:103-109 | the difference is symmetric |
| OddSketch.SymmetricDifferenceZero | src/main/java/com/inigoillan/libanalytics/algorithms/oddsketch/OddSketch.java:103-109 | the difference is 0 exactly for equal vectors |
| OddSketch.SameBucketsNoDifference | src/main/java/com/inigoillan/libanalytics/algorithms/oddsketch/OddSketch.java:103-109 | two sketches that flipped the same buckets, in any order, have difference 0 |
| OddSketch.SetBitsBelowSize | src/main/java/com/inigoillan/libanalytics/algorithms/oddsketch/OddSketch.java:43-48 | every set bit of a sketch whose flips all passed the index check lies in [0, size) |
| OddSketch.JaccardSymmetric | src/main/java/com/inigoillan/libanalytics/algorithms/oddsketch/OddSketch.java:85-101 | the estimator's outcome does not depend on which sketch it is called on |
| OddSketch.JaccardSelf | src/main/java/com/inigoillan/libanalytics/algorithms/oddsketch/OddSketch.java:85-101 | a sketch against itself gives the logarithmic estimate with difference 0 |
| OddSketch.DisjointExample | src/main/java/com/inigoillan/libanalytics/algorithms/oddsketch/OddSketch.java:85-101 | buckets 1-4 against 6-9 in ten bins differ in 8 bits, which takes the 0.0 branch |
| CountMinSketch.Bucket | src/main/java/com/inigoillan/libanalytics/algorithms/countminsketch/CountMinSketch.java:76-77 | a bucket is below the row length; it fails exactly when `mod` throws or gives a negative index, and always for 0 columns |
| CountMinSketch.NoColumnsNoBucket | src/main/java/com/inigoillan/libanalytics/algorithms/countminsketch/CountMinSketch.java:76-77 | with no columns every hash's bucket throws |
| CountMinSketch.FirstFailure | src/main/java/com/inigoillan/libanalytics/algorithms/countminsketch/CountMinSketch.java:73-80 | the rows before it all succeed and its own bucket throws |
| CountMinSketch.RowsStatus | src/main/java/com/inigoillan/libanalytics/algorithms/countminsketch/CountMinSketch.java:66-81 | done exactly when there is one hash per row, at least one row and every bucket succeeds; `IllegalArgumentException` for a wrong hash count |
| CountMinSketch.NoColumnsFails | src/main/java/com/inigoillan/libanalytics/algorithms/countminsketch/CountMinSketch.java:66-81 | a sketch with no columns refuses every add and query |
| CountMinSketch.NonNegativeHashesSucceed | src/main/java/com/inigoillan/libanalytics/algorithms/countminsketch/CountMinSketch.java:66-81 | non-negative 32-bit hashes on a sketch with columns always succeed |
| CountMinSketch.Doubled | src/main/java/com/inigoillan/libanalytics/algorithms/countminsketch/CountMinSketch.java:77-79 | 0 stays 0, and a value in range doubles exactly |
| CountMinSketch.CountMinSketch.constructor | src/main/java/com/inigoillan/libanalytics/algorithms/countminsketch/CountMinSketch.java:32-41 | numRows rows of numCols zero counters |
| CountMinSketch.CountMinSketch.Create | src/main/java/com/inigoillan/libanalytics/algorithms/countminsketch/CountMinSketch.java:32-41 | throws `NegativeArraySizeException` exactly when a row is allocated with a negative length; otherwise max(numRows, 0) rows of zeros |
| CountMinSketch.CountMinSketch.NumCols | src/main/java/com/inigoillan/libanalytics/algorithms/countminsketch/CountMinSketch.java:136-138 | the row length, and `IndexOutOfBoundsException` exactly for a sketch without rows |
| CountMinSketch.CountMinSketch.AddHashed | src/main/java/com/inigoillan/libanalytics/algorithms/countminsketch/CountMinSketch.java:66-81 | the status is `RowsStatus`; each selected cell of the rows before the first failure doubles, every other cell is unchanged; an all-zero sketch stays all zero |
| CountMinSketch.CountMinSketch.AddHashedOnce | src/main/java/com/inigoillan/libanalytics/algorithms/countminsketch/CountMinSketch.java:55-57 | the same effect as `addHashed(1, hashes)` |
| CountMinSketch.CountMinSketch.EstimatePointQuery | src/main/java/com/inigoillan/libanalytics/algorithms/countminsketch/CountMinSketch.java:94-113 | throws exactly when `RowsStatus` does, with its exception; otherwise the least of the selected cells, one of them, and 0 on an all-zero sketch; nothing changes |

## Left out

- Floating point:
  - `OddSketch.estimateSetSize` (logarithms and `Math.round`) is not modelled.
  - In `computeJaccardIndex` the branch `1 + n/(4k) ln(inner)` is kept as the value `LogEstimate(d, k, n)` of its integer inputs. Only the `inner <= 0.0` test is modelled exactly, with NaN and infinity for `n == 0`, and it is related to real arithmetic.
  - The estimators of `bBitMinHash` and `MinHash` return the numerator and denominator of their `float` / `double` quotient.
- `MinHash.MinHash`: the `TreeSet<K>` holds integers in their natural order. `Hash32Bits.compareTo` can overflow and so is no order (`HashBits.CompareTo32Overflow`). The tree order that comparison would induce is not modelled.
- `MinHash.SIZE_NOT_ZERO` is modelled as what it tests: whether a set is empty (the `exists` in `MinHash.MultiEstimate`).
- `MinHash.EstimateJaccardIndexOfAll` also stands for the varargs overload. `pollFirst` never runs out, because k is at most the size of the union (`MinHash.SmallestCountBounds`). So the `NullPointerException` catch of the static estimator is unreachable and is left out.
- `toString`, every `hashCode` and the binary-string helpers of `PackedBitsSet` are left out: they only format text or hash for collections. The `equals` methods modelled are those of the two hashes and of `MinHash`.
- The Guava adapters `Guava32BitHasher` and `Guava64BitHasher`, `bBitMinHashBuilder`, `GenericOddSketch` and `CountMinSketchUtils` are outside the modelled core.
- Getters are fields or constants of the model:
  - `getBitSize` and `getSetSize` of `PackedBitsSet`;
  - `getSize` of the hashes, the constant 32 in both `algorithms` copies;
  - `getSize` and `getSketch` of `OddSketch`;
  - `getNumRows` of `CountMinSketch`.
  - `getLongSizeInBits` is the constant 64.
- The read-after-write and frame lemmas hold only where the index arithmetic does not overflow: `(position + 1) * bitSize <= INT_MAX` (`PackedBits.NoOverflow`), or `n * bitSize <= INT_MAX` over the first n slots. These lemmas are `PackedBits.WriteThenRead`, `PackedBits.WriteKeepsOtherSlots`, `PackedBits.WriteKeepsSlot`, `PackedBits.WriteAllThenRead`, `BBitMinHash.EqualReadsCountsAgreeingSlots` and `BBitMinHash.EstimateCountsAgreeingSlots`. Beyond that bound the source's `int` offset and last-bucket arithmetic wraps around. The model keeps that wrapped arithmetic, but nothing is proved about reads and writes there.
- `CountMinSketch.setNumRows` and `setNumCols` have empty bodies and are not modelled.
- `CountMinSketch.CountMinSketch`: the `ArrayList<long[]>` is one `array2`, so rows cannot alias one another and cannot have different lengths. The source never builds such rows.
- `OddSketch.OddSketch`: the `BitSet` is the set of indices of its set bits. Its growth and capacity are not modelled.
- Some helpers exist only in the model: `BBitMinHash.CountAt`, `MinHash.Gather`, `MinHash.CountSmallest`, `MinHash.AllContain`, `PackedBits.PackedBitsSet.SetIthBitsAt` and `GetIthBitsAt`. Each is a loop body, loop or branch of one source method, split out for the proof.
- `OddSketch` `merge`, `estimateJaccardIndex` and `equals`, and `CountMinSketch.query`, are not in the source and so are not modelled.
- The constructors require their arguments to pass the source's checks. The `Create` methods model the checks themselves.
- `MinHash.MultiEstimate` (the static estimator) and `MinHash.PairEstimate` are ghost functions, since they are defined on sets.
