# Bloom filters over int words, in Dafny

This project models the Java library `com.lethe_river.bloom`. The library has three parts.

- **`BloomConfig` and `BloomFilter`.** A config fixes a list of hash functions `T -> int`
  and a size `filterBytes`. It then creates filters: `int[filterBytes / 4]` arrays in which each
  hash sets the bit `hash(t) & hashFilter`, where `hashFilter = filterBytes * 8 - 1`.
  A filter supports these operations:
  - adding and clearing;
  - testing whether an element may be present;
  - testing whether it contains another filter of the same config;
  - union;
  - export as a byte array, a byte stream or a binary string;
  - cloning and equality.
- **`Bloom32` and `Bloom64`.** These are single-word filters. One int hash is cut into `k`
  fields of 5 (or 6) bits by repeated arithmetic shifts. Each field sets one bit of an `int`
  (or a `long`).
- **`BloomFilterSet`.** This is a `Set` that keeps a `BloomFilter` of its elements. Membership and
  inclusion tests can then say "no" without consulting the backing set.

## Model structure

Each module follows one part of the library.

- `bits.dfy` (`Bits`) holds bit-level arithmetic on natural numbers: bit test, AND, OR, XOR and
  powers of two.
- `java_lang.dfy` (`JavaLang`) holds Java's 32-bit `int` and its two's-complement `&`. It also
  holds the two exceptions the library throws (`IllegalArgumentException` and
  `UnsupportedOperationException`), as the `Failure` side of a `Result`.
- Ints are modelled as mathematical integers in `-2^31 .. 2^31-1`. A filter word is the int's
  unsigned 32-bit pattern (`Word`), so bit 31 is an ordinary bit.
- `words.dfy` (`Words`) holds the multi-word filter as a `seq<Word>`: bit positions, the
  word-wise OR and the word-wise containment `(a[i] & b[i]) == b[i]`.
- `encoding.dfy` (`Encoding`) holds big-endian byte export and binary strings.
- `bloom_spec.dfy` (`BloomSpec`) is the specification of what a config does, as values.
  - `Scheme` is a config's hash list, size and mask.
  - `Positions(t)` gives the bit indices of an element.
  - `SetBits` is the `add` loop.
  - `ElementBits` and `CollectionBits` give the filters of an element and of a collection.
  - `MayContain` is `contains`.
- `bloom.dfy` (`Bloom`) holds the classes `BloomConfig` and `BloomFilter`.
  - Each filter is a class over an `array<Word>` that its methods update in place.
  - Every method is proved against the `BloomSpec` functions.
- `byte_streams.dfy` (`ByteStreams`) holds the `InputStream` of `toByteStream` as a class with a
  cursor and a four-byte cache.
- `int_filter.dfy` (`IntFilter`) and `long_filter.dfy` (`LongFilter`) hold `Bloom32` and
  `Bloom64`. They are immutable generators, so they are datatypes. `getFilter` keeps its loop as
  a method proved equal to the filter of the hash's fields.
- `bloom_filter_set.dfy` (`BloomSets`) holds `BloomFilterSet` as a class.
  - Its ghost field `added` records the elements in the order their bits were set.
  - Its invariant `Valid()` says two things: the filter is exactly the filter of `added`, and the
    backing set is exactly the elements of `added`. A set that satisfies it is called consistent.
  - The weaker invariant `Covered()` says only that every element of the backing set has all its
    bits set in the filter. This is what `contains` needs to answer `false` safely.
  - `add`, `addAll` and `clear` work on any set, consistent or not. `add` and `addAll` keep both
    invariants, and `clear` makes any set consistent.

Configs are compared by reference, as `BloomConfig` inherits `Object.equals`. Two configs with
the same hashes and size are therefore incompatible, as the documentation's "generated from the
same `BloomConfig`" says. `BloomFilter.equals` compares configs with `equals` and does not call
`checkConfig`, so `equals` across configs returns `false` where `contains` and `union` throw.

In one place the code does not do what its documentation says: `toByteStream` does not yield the
bytes of `toByteArray`. The model follows the code; see the findings below.

The mask `filterBytes * 8 - 1` works as a modulus only when `8 * filterBytes` is a power of two.
For other sizes some positions can never be set: with 12 bytes, word 1 is never touched
(`BloomSpec.TwelveBytesSkipWord1`). The constructor accepts such sizes, so the model does too.

## Model

| member | source | states |
|---|---|---|
| JavaLang.Wrap | BloomFilter/src/com/lethe_river/bloom/BloomConfig.java:44 | an int expression is reduced to the 32-bit two's-complement range, as Java int arithmetic does |
| JavaLang.Unsigned | BloomFilter/src/com/lethe_river/bloom/BloomConfig.java:72 | the 32-bit pattern of an int: the int itself when non-negative, otherwise the int plus 2^32 |
| JavaLang.And | BloomFilter/src/com/lethe_river/bloom/BloomConfig.java:72 | `x & y` on ints is the AND of the two's-complement patterns; with a non-negative mask `y` it lies in `0..y` |
| Words.Zeros | BloomFilter/src/com/lethe_river/bloom/BloomConfig.java:61 | `new int[n]` is `n` words that are all 0 |
| Words.ZerosHaveNoBits | BloomFilter/src/com/lethe_river/bloom/BloomConfig.java:61 | no position of an all-zero filter is set |
| Words.Mask | BloomFilter/src/com/lethe_river/bloom/BloomConfig.java:73 | `1 << b` for `b < 32` is the word whose only set bit is `b` |
| Words.MaskTest | BloomFilter/src/com/lethe_river/bloom/BloomConfig.java:73 | `w & (1 << b)` is non-zero exactly when bit `b` of `w` is set |
| Words.WordOr | BloomFilter/src/com/lethe_river/bloom/BloomFilter.java:89 | `a | b` has exactly the bits of `a` or `b` |
| Words.SetBit | BloomFilter/src/com/lethe_river/bloom/BloomConfig.java:73 | `filter[p/32] |= 1 << (p%32)` keeps the filter length; `SetBitAt` says which bits it sets |
| Words.SetBitAt | BloomFilter/src/com/lethe_river/bloom/BloomConfig.java:73 | after setting `p`, position `q` is set iff it was set before or `q == p` |
| Words.Or | BloomFilter/src/com/lethe_river/bloom/BloomFilter.java:86-90 | the word-wise OR of two filters of one length has that length |
| Words.OrAt | BloomFilter/src/com/lethe_river/bloom/BloomFilter.java:86-90 | a position of the union is set iff it is set in either operand |
| Words.SameBits | BloomFilter/src/com/lethe_river/bloom/BloomFilter.java:180 | two filters of one length with the same set positions are equal |
| Words.Contains | BloomFilter/src/com/lethe_river/bloom/BloomFilter.java:67-72 | the word loop of `contains(target)`: equal lengths and `(a[i] & b[i]) == b[i]` for every word; `ContainsBits` gives its meaning |
| Words.ContainsBits | BloomFilter/src/com/lethe_river/bloom/BloomFilter.java:67-72 | the word-wise test `(a[i] & b[i]) == b[i]` holds iff every set position of `b` is set in `a` |
| Words.ContainsReflexive | BloomFilter/src/com/lethe_river/bloom/BloomFilter.java:61-73 | every filter contains itself |
| Words.ContainsTransitive | BloomFilter/src/com/lethe_river/bloom/BloomFilter.java:61-73 | containment of filters is transitive |
| Words.ContainsAntisymmetric | BloomFilter/src/com/lethe_river/bloom/BloomFilter.java:61-73 | two filters that contain each other are equal |
| Words.ContainsZeros | BloomFilter/src/com/lethe_river/bloom/BloomFilter.java:61-73 | every filter contains the empty filter |
| Words.OrContains | BloomFilter/src/com/lethe_river/bloom/BloomFilter.java:81-92 | the union contains both operands |
| Words.OrLeast | BloomFilter/src/com/lethe_river/bloom/BloomFilter.java:81-92 | every filter that contains both operands contains their union |
| Words.OrCommutative | BloomFilter/src/com/lethe_river/bloom/BloomFilter.java:81-92 | union is commutative |
| Words.OrAssociative | BloomFilter/src/com/lethe_river/bloom/BloomFilter.java:81-92 | union is associative |
| Words.OrIdempotent | BloomFilter/src/com/lethe_river/bloom/BloomFilter.java:81-92 | the union of a filter with itself is that filter |
| Words.OrZeros | BloomFilter/src/com/lethe_river/bloom/BloomFilter.java:81-92 | the empty filter is the unit of union |
| Encoding.WordBytes | BloomFilter/src/com/lethe_river/bloom/BloomFilter.java:105-107 | an int as four bytes, each below 256, big-endian as `WordRoundTrip` fixes |
| Encoding.WordRoundTrip | BloomFilter/src/com/lethe_river/bloom/BloomFilter.java:105-107 | reading the four bytes of a word back gives the word |
| Encoding.BytesRoundTrip | BloomFilter/src/com/lethe_river/bloom/BloomFilter.java:105-107 | any four bytes are the bytes of the word they encode |
| Encoding.ToBytes | BloomFilter/src/com/lethe_river/bloom/BloomFilter.java:104-110 | the filter as `4 * length` bytes, word by word |
| Encoding.FromBytes | BloomFilter/src/com/lethe_river/bloom/BloomFilter.java:104-110 | decoding a byte array of length `4n` gives `n` words |
| Encoding.ToBytesRoundTrip | BloomFilter/src/com/lethe_river/bloom/BloomFilter.java:104-110 | decoding the exported bytes gives back the filter |
| Encoding.FromBytesRoundTrip | BloomFilter/src/com/lethe_river/bloom/BloomFilter.java:104-110 | encoding the decoded words gives back the bytes |
| Encoding.ToBytesAt | BloomFilter/src/com/lethe_river/bloom/BloomFilter.java:104-110 | byte `4i + k` of the export is byte `k` of word `i` |
| Encoding.LittleEndianInt | BloomFilter/src/com/lethe_river/bloom/BloomConfig.java:163-172 | bytes `s..s+3` assembled least significant first, as a signed int |
| Encoding.Repeat | BloomFilter/src/com/lethe_river/bloom/BloomFilter.java:152-154 | a run of `n` copies of one character |
| Encoding.Digits | BloomFilter/src/com/lethe_river/bloom/BloomFilter.java:149-156 | the `n` binary digits of `x`, most significant first |
| Encoding.DigitsAt | BloomFilter/src/com/lethe_river/bloom/BloomFilter.java:149-156 | the character at index `n - 1 - p` is bit `p` of `x` |
| Encoding.DigitsRoundTrip | BloomFilter/src/com/lethe_river/bloom/BloomFilter.java:149-156 | for `x < 2^n` the digits read back as `x` |
| Encoding.StripZeros | BloomFilter/src/com/lethe_river/bloom/BloomFilter.java:150 | `Integer.toBinaryString`: no longer than its input, not empty for a non-empty input, and not starting with `0` unless it is the single digit `0`; `PadStrip` shows that only leading zeros are dropped |
| Encoding.PadStrip | BloomFilter/src/com/lethe_river/bloom/BloomFilter.java:150-155 | padding the stripped digits with zeros to the old length restores them |
| Encoding.ZeroFill | BloomFilter/src/com/lethe_river/bloom/BloomFilter.java:149-156 | the zero-filled binary string is exactly the `width` digits of the value |
| Encoding.BinaryString | BloomFilter/src/com/lethe_river/bloom/BloomFilter.java:141-147 | the filter's digits, last word first, `32 * length` binary characters |
| Encoding.BinaryStringAt | BloomFilter/src/com/lethe_river/bloom/BloomFilter.java:141-147 | the character at index `32 * length - 1 - p` shows whether position `p` is set |
| BloomSpec.CheckSizeAsWritten | BloomFilter/src/com/lethe_river/bloom/BloomConfig.java:35-45 | the constructor's size check as written: IllegalArgument iff `filterBytes < 1` or not a multiple of 4, otherwise the mask `filterBytes*8-1` in int arithmetic |
| BloomSpec.CheckSize | BloomFilter/src/com/lethe_river/bloom/BloomConfig.java:35-45 | the corrected check: IllegalArgument also above `2^28` bytes; an accepted size gives the mask `8 * filterBytes - 1 >= 0` |
| BloomSpec.CheckSizeAgrees | BloomFilter/src/com/lethe_river/bloom/BloomConfig.java:37-44 | both checks give the same result for every size up to `2^28` |
| BloomSpec.OverflowGivesNegativeIndex | BloomFilter/src/com/lethe_river/bloom/BloomConfig.java:44 | with 0x10000004 bytes the unchanged check accepts the size and the mask is negative, so a bit index can be at most -32 |
| BloomSpec.Position | BloomFilter/src/com/lethe_river/bloom/BloomConfig.java:72 | the bit index `hash & hashFilter` of a non-negative mask is at most the mask |
| BloomSpec.IndexInRange | BloomFilter/src/com/lethe_river/bloom/BloomConfig.java:70-73 | for an accepted size every bit index addresses a word of the `filterBytes / 4` words |
| BloomSpec.PositionWithinMask | BloomFilter/src/com/lethe_river/bloom/BloomConfig.java:72 | the bits of a bit index are bits of the mask |
| BloomSpec.TwelveBytesSkipWord1 | BloomFilter/src/com/lethe_river/bloom/BloomConfig.java:44 | with 12 bytes the mask is 95 and no hash ever reaches word 1: the mask is not a modulus unless `8 * filterBytes` is a power of two |
| BloomSpec.SetBits | BloomFilter/src/com/lethe_river/bloom/BloomConfig.java:71-74 | setting the bit indices one after another keeps the filter length |
| BloomSpec.SetBitsAt | BloomFilter/src/com/lethe_river/bloom/BloomConfig.java:71-74 | afterwards a position is set iff it was set before or it is one of the indices |
| BloomSpec.SetBitsIsOr | BloomFilter/src/com/lethe_river/bloom/BloomConfig.java:71-74 | setting indices is OR-ing in the filter holding only those indices |
| BloomSpec.SetBitsGrows | BloomFilter/src/com/lethe_river/bloom/BloomFilter.java:33-35 | adding never clears a position: the new filter contains the old |
| BloomSpec.SetBitsCount | BloomFilter/src/com/lethe_river/bloom/BloomConfig.java:69-76 | the empty filter with indices set has exactly those indices set, so at most one set position per hash function |
| BloomSpec.IndexImage | BloomFilter/src/com/lethe_river/bloom/BloomConfig.java:69-76 | a sequence of `n` indices names at most `n` distinct positions |
| BloomSpec.AllSetIffContains | BloomFilter/src/com/lethe_river/bloom/BloomFilter.java:51-53 | testing every index of an element is the same as the filter containing the element's own filter |
| BloomSpec.Scheme.Positions | BloomFilter/src/com/lethe_river/bloom/BloomConfig.java:71-72 | one bit index per hash function, in list order, each within the filter |
| BloomSpec.Scheme.ElementBits | BloomFilter/src/com/lethe_river/bloom/BloomConfig.java:69-76 | the filter of one element has `filterBytes / 4` words |
| BloomSpec.ElementBitsAt | BloomFilter/src/com/lethe_river/bloom/BloomConfig.java:69-76 | a position of `getFilter(t)` is set iff it is one of `t`'s bit indices |
| BloomSpec.ElementBitsCount | BloomFilter/src/com/lethe_river/bloom/BloomConfig.java:69-76 | `getFilter(t)` has at most as many set positions as there are hash functions |
| BloomSpec.Scheme.MayContain | BloomFilter/src/com/lethe_river/bloom/BloomFilter.java:51-53 | the element test: every bit index of the element is set; `MayContainIffContains` relates it to filter containment |
| BloomSpec.MayContainIffContains | BloomFilter/src/com/lethe_river/bloom/BloomFilter.java:51-73 | `contains(t)` holds iff the filter contains `getFilter(t)` |
| BloomSpec.Scheme.CollectionBits | BloomFilter/src/com/lethe_river/bloom/BloomConfig.java:83-93 | the filter of a collection has `filterBytes / 4` words |
| BloomSpec.CollectionBitsAppend | BloomFilter/src/com/lethe_river/bloom/BloomConfig.java:86-91 | adding one more element sets exactly its bit indices in the collection's filter |
| BloomSpec.CollectionBitsSnoc | BloomFilter/src/com/lethe_river/bloom/BloomConfig.java:83-93 | the collection's filter with one more element is the union with that element's filter |
| BloomSpec.CollectionBitsAt | BloomFilter/src/com/lethe_river/bloom/BloomConfig.java:83-93 | a position of the collection's filter is set iff some element of the collection has it as a bit index |
| BloomSpec.CollectionBitsSetOnly | BloomFilter/src/com/lethe_river/bloom/BloomConfig.java:83-93 | the collection's filter depends only on which elements it holds, not on order or repetition |
| BloomSpec.CollectionBitsMonotone | BloomFilter/src/com/lethe_river/bloom/BloomConfig.java:83-93 | more elements give a filter that contains the smaller collection's filter |
| BloomSpec.CollectionBitsConcat | BloomFilter/src/com/lethe_river/bloom/BloomConfig.java:83-93 | the filter of `ts + us` is the union of the filters of `ts` and of `us` |
| BloomSpec.OrCollectionStep | BloomFilter/src/com/lethe_river/bloom/BloomFilterSet.java:47-49 | adding one more element of `c` to a filter OR-ed with the filter of a prefix of `c` gives the filter OR-ed with the filter of the longer prefix |
| BloomSpec.MayContainGrows | BloomFilter/src/com/lethe_river/bloom/BloomFilter.java:51-53 | a filter that contains another lets through every element the other lets through |
| BloomSpec.CollectionMayContain | BloomFilter/src/com/lethe_river/bloom/BloomConfig.java:83-93 | no false negatives: every element of the collection may be contained in its filter |
| ByteStreams.IndexBytes | BloomFilter/src/com/lethe_river/bloom/BloomFilter.java:127-130 | the bytes the stream as written yields: the big-endian word indices 0, 1, ..., `n - 1` |
| ByteStreams.IndexBytesAt | BloomFilter/src/com/lethe_river/bloom/BloomFilter.java:127-130 | byte `4i + k` of the stream as written is byte `k` of the index `i` |
| ByteStreams.IndexBytesDiffer | BloomFilter/src/com/lethe_river/bloom/BloomFilter.java:128 | for the one-word filter `[1]` the stream yields 0 where the byte array has 1 |
| ByteStreams.FilterByteStream.Read | BloomFilter/src/com/lethe_river/bloom/BloomFilter.java:122-133 | the stream as written: -1 at the end, otherwise byte `index` of the word-index bytes, in `0..255`, and the cursor advances |
| ByteStreams.WordByteStream.Read | BloomFilter/src/com/lethe_river/bloom/BloomFilter.java:122-133 | the corrected stream: -1 at the end, otherwise byte `index` of `toByteArray()`, and the cursor advances |
| Bloom.Sha256Hashes | BloomFilter/src/com/lethe_river/bloom/BloomConfig.java:119-125 | `hashNum` hash functions, function `i` reading digest bytes `4i..4i+3` |
| Bloom.Sha256HashBytes | BloomFilter/src/com/lethe_river/bloom/BloomConfig.java:163-172 | hash `i` is the int whose big-endian bytes are digest bytes `4i+3, 4i+2, 4i+1, 4i` |
| Bloom.BloomConfig.constructor | BloomFilter/src/com/lethe_river/bloom/BloomConfig.java:35-45 | for a size the corrected check `CheckSize` accepts (Findings row 3): keeps the hash list and size, and the mask is `filterBytes * 8 - 1` |
| Bloom.BloomConfig.Create | BloomFilter/src/com/lethe_river/bloom/BloomConfig.java:35-45 | IllegalArgument exactly for a size the corrected check `CheckSize` rejects (Findings row 3), otherwise a valid config with the given hashes and size |
| Bloom.BloomConfig.WithSha256 | BloomFilter/src/com/lethe_river/bloom/BloomConfig.java:105-131 | IllegalArgument iff `hashNum` is outside `1..8` or the corrected check `CheckSize` rejects the size, otherwise the SHA-256 hashes |
| Bloom.BloomConfig.WithSha256Unsalted | BloomFilter/src/com/lethe_river/bloom/BloomConfig.java:133-135 | the same with an empty salt, and the same corrected size check |
| Bloom.BloomConfig.Empty | BloomFilter/src/com/lethe_river/bloom/BloomConfig.java:60-62 | a fresh filter of this config with `filterBytes / 4` zero words |
| Bloom.BloomConfig.Add | BloomFilter/src/com/lethe_river/bloom/BloomConfig.java:71-74 | the filter becomes the old filter with each hash's bit index set |
| Bloom.BloomConfig.Contains | BloomFilter/src/com/lethe_river/bloom/BloomFilter.java:51-53 | true iff every bit index of the element is set |
| Bloom.BloomConfig.GetFilter | BloomFilter/src/com/lethe_river/bloom/BloomConfig.java:69-76 | a fresh filter with exactly the element's bits |
| Bloom.BloomConfig.GetFilterAll | BloomFilter/src/com/lethe_river/bloom/BloomConfig.java:83-93 | a fresh filter equal to the collection's filter |
| Bloom.BloomFilter.constructor | BloomFilter/src/com/lethe_river/bloom/BloomFilter.java:24-27 | the filter keeps the config and the array it is given, the array itself and not a copy |
| Bloom.BloomFilter.Add | BloomFilter/src/com/lethe_river/bloom/BloomFilter.java:33-35 | sets the element's bits; the new filter contains the old one and reports the element present |
| Bloom.BloomFilter.Clear | BloomFilter/src/com/lethe_river/bloom/BloomFilter.java:40-44 | every word becomes 0 |
| Bloom.BloomFilter.ContainsElement | BloomFilter/src/com/lethe_river/bloom/BloomFilter.java:51-53 | true iff every bit index of the element is set |
| Bloom.BloomFilter.Contains | BloomFilter/src/com/lethe_river/bloom/BloomFilter.java:61-73 | IllegalArgument iff the configs differ, otherwise whether every position of the target is set here |
| Bloom.BloomFilter.Union | BloomFilter/src/com/lethe_river/bloom/BloomFilter.java:81-98 | IllegalArgument iff the configs differ, otherwise a fresh filter of the same config holding the word-wise OR |
| Bloom.BloomFilter.ToByteArray | BloomFilter/src/com/lethe_river/bloom/BloomFilter.java:104-110 | `4 * length` bytes from which the filter decodes back |
| Bloom.BloomFilter.ToByteStream | BloomFilter/src/com/lethe_river/bloom/BloomFilter.java:116-135 | a stream over this filter with its cursor at 0 |
| Bloom.BloomFilter.ToWordByteStream | BloomFilter/src/com/lethe_river/bloom/BloomFilter.java:116-135 | the corrected stream over this filter with its cursor at 0 |
| Bloom.BloomFilter.ToBinaryString | BloomFilter/src/com/lethe_river/bloom/BloomFilter.java:141-147 | the binary string of the filter, last word first |
| Bloom.BloomFilter.Clone | BloomFilter/src/com/lethe_river/bloom/BloomFilter.java:158-161 | a fresh filter of the same config over a fresh copy of the words |
| Bloom.BloomFilter.Equals | BloomFilter/src/com/lethe_river/bloom/BloomFilter.java:168-183 | true iff same config and same words; for valid filters, iff same config and each contains the other |
| IntFilter.Field | BloomFilter/src/com/lethe_river/bloom/Bloom32.java:60-61 | field `i` of the hash, `(hash >> 5i) & 31`, is below 32 |
| IntFilter.HashFilterBits | BloomFilter/src/com/lethe_river/bloom/Bloom32.java:56-64 | bit `p` of the filter of `k` fields is set iff `p` is one of the first `k` fields |
| IntFilter.HashFilterCount | BloomFilter/src/com/lethe_river/bloom/Bloom32.java:56-64 | the set bits are exactly the field values, so at most `k` of them |
| IntFilter.HashFilterNonzero | BloomFilter/src/com/lethe_river/bloom/Bloom32.java:56-64 | with at least one field the filter is not 0 |
| IntFilter.FieldShift | BloomFilter/src/com/lethe_river/bloom/Bloom32.java:61 | adding a multiple of `2^(5n)` to the hash changes none of its first `n` fields |
| IntFilter.FieldBits | BloomFilter/src/com/lethe_river/bloom/Bloom32.java:60-61 | bit `j` of field `i` is bit `5i + j` of a non-negative hash |
| IntFilter.FieldIsHashBits | BloomFilter/src/com/lethe_river/bloom/Bloom32.java:27-28 | for the 6 allowed fields the fields are bits `5i..5i+4` of the hash's 32-bit pattern: the sign bits shifted in never reach them |
| IntFilter.AndLowBits | BloomFilter/src/com/lethe_river/bloom/Bloom32.java:60 | `hash & HASH_FILTER` is field 0 |
| IntFilter.IsContained | BloomFilter/src/com/lethe_river/bloom/Bloom32.java:95-97 | `((sup & sub) ^ sub) == 0` iff every bit of `sub` is in `sup` |
| IntFilter.IsContainedOrder | BloomFilter/src/com/lethe_river/bloom/Bloom32.java:95-97 | containment is reflexive and transitive and every filter contains 0 |
| IntFilter.ToBinaryStringZeroFill | BloomFilter/src/com/lethe_river/bloom/Bloom32.java:115-122 | the 32 binary digits of the filter, which read back as the filter |
| IntFilter.Bloom32.New | BloomFilter/src/com/lethe_river/bloom/Bloom32.java:33-39 | IllegalArgument iff `k` is outside `1..6`, otherwise a generator with that `k` and hash function |
| IntFilter.Bloom32.GetFilter | BloomFilter/src/com/lethe_river/bloom/Bloom32.java:56-64 | the loop computes the filter of the first `k` fields of the hash |
| IntFilter.HashFilter | BloomFilter/src/com/lethe_river/bloom/Bloom32.java:57-63 | the value of the `getFilter` loop: the OR of `1 << field` over the first `k` fields; `HashFilterBits` gives its bits |
| IntFilter.Bloom32.FilterAll | BloomFilter/src/com/lethe_river/bloom/Bloom32.java:71-87 | `getFilter(E...)` and `getFilter(Collection)`: the OR of the elements' filters, starting from 0; `FilterAllBits` gives its bits |
| IntFilter.Bloom32.FilterAllBits | BloomFilter/src/com/lethe_river/bloom/Bloom32.java:71-87 | a bit of `getFilter(objects)` is set iff it is set in the filter of one of the objects |
| IntFilter.Bloom32.NoFalseNegatives | BloomFilter/src/com/lethe_river/bloom/Bloom32.java:71-97 | the collection's filter contains the filter of each of its elements |
| IntFilter.Bloom32.FilterAllSetOnly | BloomFilter/src/com/lethe_river/bloom/Bloom32.java:83-87 | the collection's filter depends only on which elements it holds |
| LongFilter.Field | BloomFilter/src/com/lethe_river/bloom/Bloom64.java:60-61 | field `i` of the hash, `(hash >> 6i) & 63`, is below 64 |
| LongFilter.LongMask | BloomFilter/src/com/lethe_river/bloom/Bloom64.java:60 | `1L << b` for `b < 64` is the long whose only set bit is `b` |
| LongFilter.LongOr | BloomFilter/src/com/lethe_river/bloom/Bloom64.java:60 | `a | b` on longs has the bits of `a` or `b` |
| LongFilter.HashFilterBits | BloomFilter/src/com/lethe_river/bloom/Bloom64.java:56-64 | bit `p` of the filter of `k` fields is set iff `p` is one of the first `k` fields |
| LongFilter.HashFilterCount | BloomFilter/src/com/lethe_river/bloom/Bloom64.java:56-64 | the set bits are exactly the field values, so at most `k` of them |
| LongFilter.HashFilterNonzero | BloomFilter/src/com/lethe_river/bloom/Bloom64.java:56-64 | with at least one field the filter is not 0 |
| LongFilter.HighBitReachable | BloomFilter/src/com/lethe_river/bloom/Bloom64.java:60 | a hash whose first field is 32 or more gives a filter that does not fit in 32 bits |
| LongFilter.FieldShift | BloomFilter/src/com/lethe_river/bloom/Bloom64.java:61 | adding a multiple of `2^(6n)` to the hash changes none of its first `n` fields |
| LongFilter.FieldBits | BloomFilter/src/com/lethe_river/bloom/Bloom64.java:60-61 | bit `j` of field `i` is bit `6i + j` of a non-negative hash |
| LongFilter.FieldIsHashBits | BloomFilter/src/com/lethe_river/bloom/Bloom64.java:26-27 | for the 5 allowed fields the fields are bits `6i..6i+5` of the hash's 32-bit pattern |
| LongFilter.AndLowBits | BloomFilter/src/com/lethe_river/bloom/Bloom64.java:60 | `hash & HASH_FILTER` is field 0 |
| LongFilter.IsContained | BloomFilter/src/com/lethe_river/bloom/Bloom64.java:83-85 | `((sup & sub) ^ sub) == 0L` iff every bit of `sub` is in `sup` |
| LongFilter.IsContainedOrder | BloomFilter/src/com/lethe_river/bloom/Bloom64.java:83-85 | containment is reflexive and transitive and every filter contains 0 |
| LongFilter.ToBinaryStringZeroFill | BloomFilter/src/com/lethe_river/bloom/Bloom64.java:103-110 | the 64 binary digits of the filter, which read back as the filter |
| LongFilter.Bloom64.New | BloomFilter/src/com/lethe_river/bloom/Bloom64.java:32-39 | IllegalArgument iff `k` is outside `1..5`, otherwise a generator with that `k` and hash function |
| LongFilter.Bloom64.GetFilter | BloomFilter/src/com/lethe_river/bloom/Bloom64.java:56-64 | the loop computes the filter of the first `k` fields of the hash |
| LongFilter.HashFilter | BloomFilter/src/com/lethe_river/bloom/Bloom64.java:57-63 | the value of the `getFilter` loop: the OR of `1L << field` over the first `k` fields; `HashFilterBits` gives its bits |
| LongFilter.Bloom64.FilterAll | BloomFilter/src/com/lethe_river/bloom/Bloom64.java:71-75 | `getFilter(Collection)`: the OR of the elements' filters, starting from 0; `FilterAllBits` gives its bits |
| LongFilter.Bloom64.FilterAllBits | BloomFilter/src/com/lethe_river/bloom/Bloom64.java:71-75 | a bit of `getFilter(collection)` is set iff it is set in the filter of one of the elements |
| LongFilter.Bloom64.NoFalseNegatives | BloomFilter/src/com/lethe_river/bloom/Bloom64.java:71-85 | the collection's filter contains the filter of each of its elements |
| LongFilter.Bloom64.FilterAllSetOnly | BloomFilter/src/com/lethe_river/bloom/Bloom64.java:71-75 | the collection's filter depends only on which elements it holds |
| BloomSets.ZeroFilterMissesAll | BloomFilter/src/com/lethe_river/bloom/BloomFilterSet.java:34-37 | with at least one hash function the empty filter reports no element present |
| BloomSets.AddEach | BloomFilter/src/com/lethe_river/bloom/BloomFilterSet.java:47-49 | the loop leaves the union of the filter it started from and the filter of `c` |
| BloomSets.AddCovers | BloomFilter/src/com/lethe_river/bloom/BloomFilterSet.java:40-42 | after `e`'s bits are set, every element that passed the filter still passes, and so does `e` |
| BloomSets.UnionCovers | BloomFilter/src/com/lethe_river/bloom/BloomFilterSet.java:46-50 | after the filter of `c` is OR-ed in, every element that passed still passes, and so does every element of `c` |
| BloomSets.BloomFilterSet.NoFalseNegatives | BloomFilter/src/com/lethe_river/bloom/BloomFilterSet.java:39-57 | a consistent set has no false negatives: every element of the set has all its bits set in the filter (`Covered()`) |
| BloomSets.BloomFilterSet.constructor | BloomFilter/src/com/lethe_river/bloom/BloomFilterSet.java:34-37 | the set is what the supplier gives and the filter is empty; given a hash function, the set is consistent, and has no false negatives, iff the supplied set is empty |
| BloomSets.BloomFilterSet.FromElements | BloomFilter/src/com/lethe_river/bloom/BloomFilterSet.java:34-37 | the corrected constructor: the filter holds every supplied element and the set is consistent |
| BloomSets.BloomFilterSet.Add | BloomFilter/src/com/lethe_river/bloom/BloomFilterSet.java:39-43 | on any set: sets the element's bits and adds it to the set, true iff it was absent; a set without false negatives keeps that property, and a consistent set stays consistent |
| BloomSets.BloomFilterSet.AddAll | BloomFilter/src/com/lethe_river/bloom/BloomFilterSet.java:45-51 | on any set: the filter becomes its union with the filter of `c` and the set gains `c`'s elements, true iff some element was absent; both invariants are kept |
| BloomSets.BloomFilterSet.Clear | BloomFilter/src/com/lethe_river/bloom/BloomFilterSet.java:53-57 | on any set: the set becomes empty and the filter all zero, so the set is then consistent |
| BloomSets.BloomFilterSet.Contains | BloomFilter/src/com/lethe_river/bloom/BloomFilterSet.java:59-69 | true iff the filter admits the element and the set holds it; on a set without false negatives, iff the set holds it |
| BloomSets.BloomFilterSet.ContainsAll | BloomFilter/src/com/lethe_river/bloom/BloomFilterSet.java:80 | for another collection, whether the set holds all of its elements |
| BloomSets.BloomFilterSet.ContainsAllSet | BloomFilter/src/com/lethe_river/bloom/BloomFilterSet.java:71-81 | IllegalArgument iff the configs differ; otherwise true iff this filter contains the other's and the other set is a subset; for consistent sets, iff it is a subset |
| BloomSets.BloomFilterSet.Equals | BloomFilter/src/com/lethe_river/bloom/BloomFilterSet.java:83-92 | true iff same config, same filter and same elements; for consistent sets of one config, iff same elements |
| BloomSets.BloomFilterSet.Size | BloomFilter/src/com/lethe_river/bloom/BloomFilterSet.java:128-131 | the number of elements of the set |
| BloomSets.BloomFilterSet.IsEmpty | BloomFilter/src/com/lethe_river/bloom/BloomFilterSet.java:101-104 | true iff the set has no element |
| BloomSets.BloomFilterSet.Remove | BloomFilter/src/com/lethe_river/bloom/BloomFilterSet.java:153-156 | always UnsupportedOperation; nothing changes |
| BloomSets.BloomFilterSet.RemoveAll | BloomFilter/src/com/lethe_river/bloom/BloomFilterSet.java:158-161 | always UnsupportedOperation; nothing changes |
| BloomSets.BloomFilterSet.RetainAll | BloomFilter/src/com/lethe_river/bloom/BloomFilterSet.java:163-166 | always UnsupportedOperation; nothing changes |

## Left out

- The SHA-256 digest and Java object serialization (`ObjectOutputStream`) are parameters of `WithSha256`: `digest` and `serialize`.
- The digest is not computed once by the first hash into a shared `ByteBuffer` and then read by the others. Instead, each hash function recomputes it for its element. This gives the same values whenever the hashes are applied in list order to one element, as `add` and `contains` do. The sharing between threads is not modelled.
- `NoSuchAlgorithmException` and the `IOException` wrapped in a `RuntimeException` are not modelled: they come from the JDK, not from the library.
- `BloomConfig.add(filter, t)` and `BloomConfig.contains(filter, t)` are called by `BloomFilter` but are not part of `BloomConfig.java`. `Bloom.BloomConfig.Add` and `Bloom.BloomConfig.Contains` model them on the loop of `getFilter` (lines 71-74).
- The one-argument constructors `BloomConfig(hash, filterBytes)`, `Bloom32(k)` and `Bloom64(k)` are not modelled. The last two use `Object.hashCode`; a caller passes the hash function instead.
- `hashCode` overrides, `getClass` and `null` checks in `equals`, and the unchecked casts are not modelled. Types are checked statically here.
- The `main` methods, benchmarks, random-string generators and false-positive rates are not modelled.
- `BloomFilterSet`'s `iterator`, `forEach`, `stream`, `parallelStream`, `spliterator` and `toArray` are not modelled: they only forward to the backing set.
- The backing set of `BloomFilterSet` is a mathematical set using the element type's equality. The supplier is modelled by the set it returns.
- `BloomFilterSet.equals` and `containsAll` are modelled only against another `BloomFilterSet` (`Equals`, `ContainsAllSet`) or, for `containsAll`, a plain collection (`ContainsAll`). Against a plain set, `equals` only forwards to the backing set.
- Two `BloomFilterSet`s with the same elements and different configs are unequal (`BloomSets.BloomFilterSet.Equals`). This departs from the `Set.equals` contract and is stated, not corrected.
- BloomSets.BloomFilterSet.ContainsAllSet and BloomSets.BloomFilterSet.Equals state their exact answer on every set, but they equal the plain set-level answer (subset, equality) only on consistent sets (`Valid()`). The set built by the unchanged constructor from a non-empty set is not consistent.
- Bloom.BloomConfig.Create, Bloom.BloomConfig.WithSha256, Bloom.BloomConfig.WithSha256Unsalted and Bloom.BloomConfig.constructor use the corrected size check `CheckSize` (Findings row 3), not the check of `BloomConfig.java` lines 37-44 as written. Sizes that are multiples of 4 from `0x1000_0004` to `0x7FFF_FFFC` are accepted by the Java code but rejected here. The check as written is `BloomSpec.CheckSizeAsWritten`, and it agrees with `CheckSize` up to `2^28` bytes (`BloomSpec.CheckSizeAgrees`).
- The `Bloom32` constructor, modelled by `IntFilter.Bloom32.New`, accepts `k = 6`, as `Integer.SIZE / HASH_LENGTH` allows. The documentation of the one-argument constructor says `1~5`.
- `FilterByteStream` and `WordByteStream` read `filter` lazily. The model assumes the filter is not changed while a stream is read (its `Read` does not frame the filter's later updates).
- `LongFilter.FieldIsHashBits`: in `Bloom64` field 5 would be bits 30-35, which the `int` hash does not have. The property is stated only for the five allowed fields.
- Integer overflow of `4 * filter.length` in the streams is excluded by their constructors' precondition. It cannot happen for a filter built from an accepted size.

## Findings

| source | as written | input that shows it | evidently intended | confidence | as-written member | corrected member |
|---|---|---|---|---|---|---|
| BloomFilter/src/com/lethe_river/bloom/BloomFilter.java:128 | the stream refills its cache with `index / 4`, the word number, so it yields the bytes of 0, 1, 2, ... whatever the filter holds | the one-word filter `[1]`: byte 3 of the stream is 0, byte 3 of `toByteArray()` is 1 | `buffer.putInt(0, filter[index / 4])`, so the stream yields `toByteArray()` | high, not executed | ByteStreams.IndexBytesDiffer | ByteStreams.WordByteStream.Read |
| BloomFilter/src/com/lethe_river/bloom/BloomFilterSet.java:34-37 | the constructor takes the supplier's set as it is and pairs it with an empty filter | a config with one hash and a supplier returning `{e}`: `contains(e)` is false although the set holds `e` | add every supplied element to the filter | medium, not executed | BloomSets.ZeroFilterMissesAll | BloomSets.BloomFilterSet.FromElements |
| BloomFilter/src/com/lethe_river/bloom/BloomConfig.java:44 | `filterBytes*8-1` is computed in int arithmetic and overflows for sizes above `2^28`, which the check at line 37 accepts | `filterBytes = 0x10000004`: `hashFilter = -0x7FFFFFE1`, and a hash equal to it gives a negative bit index, hence a negative array index | reject sizes whose bit count does not fit in an int | medium, not executed | BloomSpec.OverflowGivesNegativeIndex | BloomSpec.CheckSize |
