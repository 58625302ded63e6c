# Roaring bitmaps in Dafny

A model of the C# Roaring bitmap library (namespaces `RoaringBitmap` and
`Collections.Special`). The library stores a set of 32-bit integers as a
two-level index:

- each value is split into a 16-bit key (its high bits) and a 16-bit low part;
- the index keeps the keys in increasing order, with one container per key;
- a container holds the low parts, either as a sorted `ushort[]` array (at
  most `MaxSize` = 4096 members) or as a 1024-word `ulong` bitmap.

The model follows the source layer by layer. Each module says which source
file it models:

| module | file | models |
|---|---|---|
| `Words` | words.dfy | one 64-bit word: bits, masks, `BitCount(ulong)` as the number of set bits, the lowest-set-bit step of `FillArray` |
| `BitmapWords` | bitmapwords.dfy | a bitmap as a sequence of words: its enumeration, its count, single-bit updates, word-wise operators |
| `Sorted` | sorted.dfy | reference definitions of the two-pointer walks (union, intersection, difference, symmetric difference) and what they hold |
| `Util` | util.dfy | `Internal/Util.cs`: the kernels over `ushort` buffers, `AdvanceUntil`, `HighBits`/`LowBits`, and the joined value |
| `Containers` | containers.dfy | the container datatype shared by both kinds, its validity invariant and its members |
| `BitmapContainers` | bitmapcontainer.dfy | `BitmapContainer.cs`: constructors, `CreateXor`, the `*Internal` word loops, `Contains`, `FillArray`, `Equals` |
| `BitmapOperators` | bitmapops.dfy | the operators of `BitmapContainer.cs` |
| `ArrayContainers` | arraycontainer.dfy | `Internal/ArrayContainer.cs`: `Create`, the operators, `OrArray`/`XorArray`/`AndNotArray`, `Equals` |
| `LegacyArrayContainers` | legacyarray.dfy | the earlier snapshot `ArrayContainer.cs`: the fill-function constructor, `Zero`, its `^` and its stricter `Equals` |
| `ContainerDispatch` | dispatch.dfy | `Container.cs`: the type dispatch of `|`, `&`, `^`, `~`, `AndNot` |
| `RoaringArrays` | roaringarray.dfy | `RoaringArray.cs`: the constructor, enumeration, cardinality, `Equals`, and the merge walks `|`, `&`, `^`, `~` |
| `RoaringBitmaps` | roaringbitmap.dfy | `RoaringBitmap.cs`: `Create`, `Cardinality`, `Equals`, and the delegating operators |

How the code is modelled:

- Containers are immutable once built, so `Container` is a datatype. An array
  container keeps its whole buffer, slack included, because the earlier
  `Equals` compares the slack.
- Each loop that fills a buffer or updates words in place is a method over a
  Dafny `array`. Its contract ties the array to a function of the inputs.
  Lemmas then say what that function holds.
- `RoaringArray` and `RoaringBitmap` have only read-only fields, so they are
  datatypes. Their operators are methods whose loops append pairs to a list.
- C# `int` is the subset type `i32`, and `ushort` is `u16`. Wrap-around is
  written out with `Util.ToInt32`.
- `1UL << v` tests bit `v % 64`, because C# masks the shift count.
- `Container.cs` and `RoaringArray.cs` sit in `namespace RoaringBitmap`,
  where C# name lookup binds `ArrayContainer` to the earlier class in
  `ArrayContainer.cs`. `ContainerDispatch` and `RoaringArrays` bind it to
  the later class in `Internal/ArrayContainer.cs` instead. Two consequences
  follow. The index `Equals` ignores the buffer slack of array containers,
  where the earlier `Equals` compares it (`ArrayContainer.cs:43-69`). And the
  earlier `^`, which downgrades through the xor bitmap, never reaches the
  index. Both earlier behaviours are modelled on their own in
  `LegacyArrayContainers`.

The model keeps these behaviours of the code as written:

- `Array ^ Array` stays an array container in the later snapshot.
- `RoaringArray ^` keeps empty containers.
- The key loop of `RoaringArray ~` stops before key 65535.
- `EqualsInternal` is false for a container of the other kind.
- The index's cardinality is summed in a C# `int` (`RoaringArrays.New`).

Two behaviours are reported under "## Findings". The `int` cardinality is
one. The other is the galloping intersection, which reads `largeSet[0]`
before it checks `largeLength`. That read is modelled on its own, by
`Util.GallopingAsWritten`. The intersection operators above the kernel use
the corrected kernel; "## Left out" says what this leaves out.

## Model

| member | source | states |
|---|---|---|
| Words.BitCount | RoaringBitmap/Internal/Util.cs:17-23 | the count of a word lies in 0..64, and is 0 exactly for the zero word and 64 exactly for the all-ones word |
| Words.PopCountSet | RoaringBitmap/Internal/ArrayContainer.cs:185-199 | setting bit `p` raises the count by one exactly when the bit was clear |
| Words.PopCountClear | RoaringBitmap/Internal/ArrayContainer.cs:218-232 | clearing bit `p` lowers the count by one exactly when the bit was set |
| Words.PopCountToggle | RoaringBitmap/Internal/ArrayContainer.cs:201-215 | toggling bit `p` moves the count by one, up when the bit was clear and down when it was set |
| Words.PopCountNot | RoaringBitmap/BitmapContainer.cs:219-227 | the complement of a word has `64 - count` set bits |
| Words.MaskTest | RoaringBitmap/BitmapContainer.cs:256-259 | `(w & (1UL << p)) != 0` holds exactly when bit `p` of `w` is set |
| Words.LowestStep | RoaringBitmap/BitmapContainer.cs:283-298 | for a non-zero word, `w & (~w + 1)` is the mask of its lowest set bit `j`, `BitCount(t - 1)` is `j`, and `w ^ t` keeps every other bit |
| Words.WordExt | RoaringBitmap/BitmapContainer.cs:65-87 | two words that agree on every bit are equal |
| BitmapWords.EnumerateSpec | RoaringBitmap/BitmapContainer.cs:267-281 | the enumeration of a bitmap lists exactly its set bits, in increasing order, and as many as its count |
| BitmapWords.CountUpdate | RoaringBitmap/Internal/ArrayContainer.cs:185-232 | replacing one word changes the bitmap's count by the difference of the two words' counts |
| BitmapWords.SetBitsSpec | RoaringBitmap/BitmapContainer.cs:37-59 | after the bits of `vals` are set, bit `x` is set exactly when it was set before or `x` is one of the values |
| BitmapWords.ClearBitsSpec | RoaringBitmap/BitmapContainer.cs:37-59 | after the bits of `vals` are cleared, bit `x` is set exactly when it was set before and `x` is none of the values |
| BitmapWords.ToggleBitsSpec | RoaringBitmap/BitmapContainer.cs:106-122 | after the bits of distinct values are toggled, bit `x` is flipped exactly when `x` is one of them |
| BitmapWords.CountSetBits | RoaringBitmap/BitmapContainer.cs:37-59 | setting `n` distinct clear bits adds `n` to the count |
| BitmapWords.CountClearBits | RoaringBitmap/BitmapContainer.cs:37-59 | clearing `n` distinct set bits removes `n` from the count |
| BitmapWords.EnumerateAnd | RoaringBitmap/BitmapContainer.cs:239-247 | the word-wise `&` enumerates exactly the common members |
| BitmapWords.EnumerateOr | RoaringBitmap/BitmapContainer.cs:229-237 | the word-wise `\|` enumerates exactly the members of either bitmap |
| BitmapWords.EnumerateXor | RoaringBitmap/BitmapContainer.cs:199-207 | the word-wise `^` enumerates exactly the members of one bitmap only |
| BitmapWords.EnumerateAndNot | RoaringBitmap/BitmapContainer.cs:209-217 | the word-wise `& ~` enumerates exactly the members of the first bitmap missing from the second |
| BitmapWords.CountNot | RoaringBitmap/BitmapContainer.cs:219-227 | complementing every word of a bitmap complements its count |
| BitmapWords.EnumerateInjective | RoaringBitmap/BitmapContainer.cs:65-87 | two bitmaps of the same length that enumerate the same members are the same words |
| BitmapWords.WordElemsLowest | RoaringBitmap/BitmapContainer.cs:283-298 | one pass of the inner loop of `FillArray` writes the first member of the word, and the word without that bit lists the rest |
| Sorted.UnionSpec | RoaringBitmap/Internal/Util.cs:46-107 | for increasing inputs the union walk is increasing, holds exactly the elements of either input, and is no longer than both together |
| Sorted.IntersectSpec | RoaringBitmap/Internal/Util.cs:179-239 | for increasing inputs the intersection walk is increasing and holds exactly the common elements |
| Sorted.DifferenceSpec | RoaringBitmap/Internal/Util.cs:109-164 | for increasing inputs the difference walk is increasing and holds exactly the elements of the first input missing from the second |
| Sorted.SymDiffSpec | RoaringBitmap/Internal/Util.cs:321-379 | for increasing inputs the symmetric-difference walk is increasing and holds exactly the elements of one input only |
| Sorted.IncreasingExt | RoaringBitmap/Internal/Util.cs:46-379 | two increasing sequences with the same elements are the same sequence, so each walk is fixed by the set it computes |
| Sorted.IntersectComm | RoaringBitmap/Internal/Util.cs:166-177 | the intersection does not depend on the order of its operands, so `IntersectArrays` may swap them for the galloping branch |
| Sorted.UnionComm | RoaringBitmap/Container.cs:13-30 | the union does not depend on the order of its operands, so `Container \|` may route Array\|Bitmap to Bitmap\|Array |
| Sorted.SymDiffComm | RoaringBitmap/Container.cs:51-68 | the symmetric difference does not depend on the order of its operands, so `Container ^` may swap them |
| Sorted.IntersectSkip | RoaringBitmap/Internal/Util.cs:241-290 | skipping elements of one input that are below the head of the other does not change the intersection |
| Sorted.UnionLonger | RoaringBitmap/Internal/ArrayContainer.cs:110-127 | the union is at least as long as either input |
| Util.ToInt32 | RoaringBitmap/RoaringArray.cs:30 | the C# `int` a wider integer wraps to agrees with it modulo 2^32, and equals it inside the `int` range |
| Util.BitCountArray | RoaringBitmap/Internal/Util.cs:30-38 | the accumulated count of an array of words is the sum of the counts of its words |
| Util.ArrayCopy | RoaringBitmap/Internal/Util.cs:41-44 | `length` entries are copied from `input[iStart..]` to `output[oStart..]`, and no other entry of `output` changes |
| Util.UnionArrays | RoaringBitmap/Internal/Util.cs:46-107 | the front of `buffer` holds the union of the two prefixes and its length is returned; the rest of `buffer` is untouched |
| Util.DifferenceArrays | RoaringBitmap/Internal/Util.cs:109-164 | the front of `buffer` holds the difference of the two prefixes and its length is returned; the rest of `buffer` is untouched |
| Util.XorArrays | RoaringBitmap/Internal/Util.cs:321-379 | the front of `buffer` holds the symmetric difference of the two prefixes and its length is returned; the rest of `buffer` is untouched |
| Util.LocalIntersect2By2 | RoaringBitmap/Internal/Util.cs:179-239 | the front of `buffer` holds the intersection of the two prefixes and its length is returned; the rest of `buffer` is untouched |
| Util.OneSidedGallopingIntersect2By2 | RoaringBitmap/Internal/Util.cs:241-290 | with the large side sorted, the galloping walk writes exactly the intersection of the two prefixes (empty when either prefix is empty) |
| Util.IntersectArrays | RoaringBitmap/Internal/Util.cs:166-177 | whichever branch the array lengths choose, the front of `buffer` holds the intersection of the two prefixes (with the corrected galloping kernel; see "## Left out") |
| Util.Gallop | RoaringBitmap/Internal/Util.cs:241-290 | one gallop of the large side moves at least one position, loses no common element, and stops at an entry at least the small value |
| Util.Advance | RoaringBitmap/Internal/Util.cs:256-262 | the large side's next position is past `pos`, keeps the intersection of what remains, and stops at an entry at least the small value |
| Util.SearchSpan | RoaringBitmap/Internal/Util.cs:304-306 | a non-negative result indexes the value inside the span; a negative one is `~i` for the insertion point `i`, before which every entry of a sorted span is smaller and from which every entry is larger |
| Util.BinarySearch | RoaringBitmap/Internal/Util.cs:304 | `Array.BinarySearch` on `array[index..index + length]`: the index of the value, or the complement of its insertion point in a sorted span |
| Util.AdvanceUntil | RoaringBitmap/Internal/Util.cs:298-307 | the result is `pos + 1` when that is past `length`; otherwise it lies in `pos + 1 .. length`, every entry skipped is below `min`, and an entry at the result is at least `min` |
| Util.SplitJoin | RoaringBitmap/Internal/Util.cs:310-319 | `HighBits` and `LowBits` of `(key << 16) \| low` give back the key and the low part |
| Util.JoinSplit | RoaringBitmap/RoaringArray.cs:41-45 | every C# `int` is the join of its `HighBits` and `LowBits` |
| Util.JoinInjective | RoaringBitmap/RoaringArray.cs:41-45 | the join is one to one: different keys or low parts give different values |
| Util.GallopingEmptyLargeSide | RoaringBitmap/Internal/Util.cs:241-253 | an empty large prefix inside a non-empty array: the code as written reads `largeSet[0]`, writes out of range with a buffer sized for the (empty) intersection, and reports three values as common with a larger buffer |
| Containers.Elements | RoaringBitmap/Internal/ArrayContainer.cs:77-83 | the members of a valid container, in enumeration order, increase strictly, are 16-bit values, and number its cardinality |
| Containers.Downgrade | RoaringBitmap/BitmapContainer.cs:128-133 | the tail `Cardinality <= MaxSize ? ArrayContainer.Create(bc) : bc` gives a canonical container with the bitmap's members and count |
| Containers.OnesMembers | RoaringBitmap/BitmapContainer.cs:15-23 | the all-ones bitmap of 1024 words enumerates every value 0..65535 |
| Containers.EnumerateSetBits | RoaringBitmap/Internal/ArrayContainer.cs:185-199 | setting the bits of sorted values in a bitmap gives the union of its members and the values |
| Containers.EnumerateClearBits | RoaringBitmap/Internal/ArrayContainer.cs:218-232 | clearing the bits of sorted values gives the difference of its members and the values |
| Containers.EnumerateToggleBits | RoaringBitmap/Internal/ArrayContainer.cs:201-215 | toggling the bits of sorted values gives the symmetric difference of its members and the values |
| Containers.FromValues | RoaringBitmap/BitmapContainer.cs:37-59 | setting the bits of sorted 16-bit values in an empty bitmap enumerates exactly those values, and counts them |
| Containers.ComplementMembers | RoaringBitmap/BitmapContainer.cs:37-59 | clearing the bits of sorted 16-bit values in a full bitmap leaves exactly the other 16-bit values |
| Containers.ComplementCount | RoaringBitmap/BitmapContainer.cs:37-59 | and leaves `65536 - count` of them |
| BitmapContainers.FullSpec | RoaringBitmap/BitmapContainer.cs:15-23 | `One` is canonical and holds every value 0..65535 |
| BitmapContainers.New | RoaringBitmap/BitmapContainer.cs:37-59 | the constructor fills a zeroed bitmap (an all-ones one when negated) by setting (clearing) the bit of each of the first `cardinality` values, and caches the cardinality the source computes |
| BitmapContainers.NewSpec | RoaringBitmap/BitmapContainer.cs:37-59 | from sorted distinct values it builds a valid container of exactly those values; negated, of exactly the other 16-bit values |
| BitmapContainers.CreateXor | RoaringBitmap/BitmapContainer.cs:106-122 | `CreateXor` toggles the bits of both prefixes in an empty bitmap and caches their count |
| BitmapContainers.CreateXorSpec | RoaringBitmap/BitmapContainer.cs:106-122 | on sorted prefixes that bitmap enumerates exactly their symmetric difference |
| BitmapContainers.Clone | RoaringBitmap/BitmapContainer.cs:135-140 | a fresh array holding the 1024 words, so no operator changes its operands' words |
| BitmapContainers.AndInternal | RoaringBitmap/BitmapContainer.cs:239-247 | every word becomes `first[k] & second[k]`, and the count of the result is returned |
| BitmapContainers.OrInternal | RoaringBitmap/BitmapContainer.cs:229-237 | every word becomes `first[k] \| second[k]`, and the count of the result is returned |
| BitmapContainers.XorInternal | RoaringBitmap/BitmapContainer.cs:199-207 | every word becomes `first[k] ^ second[k]`, and the count of the result is returned |
| BitmapContainers.AndNotInternal | RoaringBitmap/BitmapContainer.cs:209-217 | every word becomes `first[k] & ~second[k]`, and the count of the result is returned |
| BitmapContainers.NotInternal | RoaringBitmap/BitmapContainer.cs:219-227 | every word becomes `~data[k]`, and the count of the result is returned |
| BitmapContainers.Contains | RoaringBitmap/BitmapContainer.cs:250-259 | `Contains(x)` holds exactly when `x` is one of the enumerated members |
| BitmapContainers.FillWord | RoaringBitmap/BitmapContainer.cs:288-295 | the inner loop appends the members of one word, low bit first, and moves `pos` by the word's count |
| BitmapContainers.FillArray | RoaringBitmap/BitmapContainer.cs:283-298 | the front of `data` holds the set bits in increasing order, and the cached cardinality (not the count written) is returned |
| BitmapContainers.Equals | RoaringBitmap/BitmapContainer.cs:65-87 | true exactly when the cardinalities and all 1024 words are equal |
| BitmapContainers.EqualsInternal | RoaringBitmap/BitmapContainer.cs:261-265 | false for every array container; otherwise `Equals` |
| BitmapContainers.EqualsMembers | RoaringBitmap/BitmapContainer.cs:65-87 | for valid bitmap containers, `Equals` holds exactly when they have the same members |
| BitmapOperators.Shrink | RoaringBitmap/BitmapContainer.cs:128-133 | a freshly counted bitmap is returned as is above `MaxSize` and as the array of its members otherwise |
| BitmapOperators.OpAnd | RoaringBitmap/BitmapContainer.cs:128-133 | Bitmap&Bitmap clones `x`'s words, ands in `y`'s and shrinks the result |
| BitmapOperators.AndSpec | RoaringBitmap/BitmapContainer.cs:128-133 | that result is canonical and holds exactly the common members |
| BitmapOperators.OpAndArray | RoaringBitmap/BitmapContainer.cs:142-145 | Bitmap&Array is the array filter with the operands swapped |
| BitmapOperators.AndArraySpec | RoaringBitmap/BitmapContainer.cs:142-145 | that result is a valid array container of exactly the common members, canonical when `y` is |
| BitmapOperators.OpOr | RoaringBitmap/BitmapContainer.cs:147-151 | Bitmap\|Bitmap clones `x`'s words, ors in `y`'s and always returns a bitmap |
| BitmapOperators.OrSpec | RoaringBitmap/BitmapContainer.cs:147-151 | that result is a valid bitmap of exactly the members of either operand, canonical when `x` is |
| BitmapOperators.OpOrArray | RoaringBitmap/BitmapContainer.cs:153-157 | Bitmap\|Array sets `y`'s bits in a clone of `x`'s words and adds the new bits to the cardinality |
| BitmapOperators.OrArraySpec | RoaringBitmap/BitmapContainer.cs:153-157 | that result is a valid bitmap of exactly the union, canonical when `x` is |
| BitmapOperators.OpNot | RoaringBitmap/BitmapContainer.cs:159-164 | `~Bitmap` complements a clone of the words and shrinks the result |
| BitmapOperators.NotSpec | RoaringBitmap/BitmapContainer.cs:159-164 | that result is canonical, holds exactly the 16-bit values `x` lacks, and has `65536 - cardinality` of them |
| BitmapOperators.OpXor | RoaringBitmap/BitmapContainer.cs:170-175 | Bitmap^Bitmap xors `y`'s words into a clone of `x`'s and shrinks the result |
| BitmapOperators.XorSpec | RoaringBitmap/BitmapContainer.cs:170-175 | that result is canonical and holds exactly the members of one operand only |
| BitmapOperators.OpXorArray | RoaringBitmap/BitmapContainer.cs:178-183 | Bitmap^Array toggles `y`'s bits in a clone of `x`'s words, adjusts the cardinality and shrinks the result |
| BitmapOperators.XorArraySpec | RoaringBitmap/BitmapContainer.cs:178-183 | that result is canonical and holds exactly the members of one operand only |
| BitmapOperators.OpAndNot | RoaringBitmap/BitmapContainer.cs:185-190 | `AndNot(Bitmap, Bitmap)` clears `y`'s words from a clone of `x`'s and shrinks the result |
| BitmapOperators.AndNotSpec | RoaringBitmap/BitmapContainer.cs:185-190 | that result is canonical and holds exactly the members of `x` that `y` lacks |
| BitmapOperators.OpAndNotArray | RoaringBitmap/BitmapContainer.cs:192-197 | `AndNot(Bitmap, Array)` clears `y`'s bits in a clone of `x`'s words and shrinks the result |
| BitmapOperators.AndNotArraySpec | RoaringBitmap/BitmapContainer.cs:192-197 | that result is canonical and holds exactly the members of `x` that `y` lacks |
| ArrayContainers.One | RoaringBitmap/Internal/ArrayContainer.cs:13-21 | the static `One` holds 0..4095 in a buffer of 4096 entries and is canonical |
| ArrayContainers.Create | RoaringBitmap/Internal/ArrayContainer.cs:58-61 | the whole array is the content; from increasing values the container is valid and holds exactly them |
| ArrayContainers.CreateFromBitmap | RoaringBitmap/Internal/ArrayContainer.cs:63-69 | the buffer of `bc.Cardinality` entries holds the bitmap's members in increasing order, with `bc`'s cardinality |
| ArrayContainers.CreateFromBitmapDowngrade | RoaringBitmap/BitmapContainer.cs:128-133 | for at most `MaxSize` members that container is the one the bitmap operators downgrade to |
| ArrayContainers.Equals | RoaringBitmap/Internal/ArrayContainer.cs:34-56 | true exactly when the cardinalities match and so do the first `Cardinality` entries; the slack is ignored |
| ArrayContainers.EqualsInternal | RoaringBitmap/Internal/ArrayContainer.cs:71-75 | false for every bitmap container; otherwise `Equals` |
| ArrayContainers.EqualsMembers | RoaringBitmap/Internal/ArrayContainer.cs:34-56 | for valid array containers `Equals` holds exactly when they have the same members |
| ArrayContainers.OpAnd | RoaringBitmap/Internal/ArrayContainer.cs:86-92 | Array&Array is the intersection kernel's output in a zeroed buffer of `Math.Min` of the cardinalities (the corrected kernel; see "## Left out") |
| ArrayContainers.AndSpec | RoaringBitmap/Internal/ArrayContainer.cs:86-92 | that result is a valid array container of exactly the common members, no larger than either operand, canonical when `x` is |
| ArrayContainers.SelectSpec | RoaringBitmap/Internal/ArrayContainer.cs:94-108 | the filter loop keeps, in increasing order, exactly the entries whose membership in the bitmap is the one wanted |
| ArrayContainers.SelectWalks | RoaringBitmap/Internal/ArrayContainer.cs:94-108 | keeping the members of the bitmap is the intersection; keeping the others is the difference |
| ArrayContainers.Filter | RoaringBitmap/Internal/ArrayContainer.cs:94-108 | the `data[pos++]` loop over the first `Cardinality` entries builds the filtered container in a buffer as long as `x`'s |
| ArrayContainers.AndBitmapSpec | RoaringBitmap/Internal/ArrayContainer.cs:94-108 | Array&Bitmap is a valid array container of exactly the members of `x` that `y` holds, canonical when `x` is |
| ArrayContainers.AndNotBitmapSpec | RoaringBitmap/Internal/ArrayContainer.cs:169-183 | `AndNot(Array, Bitmap)` is a valid array container of exactly the members of `x` that `y` lacks, canonical when `x` is |
| ArrayContainers.OpOr | RoaringBitmap/Internal/ArrayContainer.cs:110-127 | Array\|Array is the union kernel's output in a buffer of the summed cardinalities, handed to the bitmap constructor when both the sum and the union exceed `MaxSize` |
| ArrayContainers.OrSpec | RoaringBitmap/Internal/ArrayContainer.cs:110-127 | that result is canonical and holds exactly the members of either operand, so it is a bitmap exactly when the union has more than `MaxSize` members |
| ArrayContainers.OpNot | RoaringBitmap/Internal/ArrayContainer.cs:134-137 | `~Array` is the negated bitmap constructor over the content |
| ArrayContainers.NotSpec | RoaringBitmap/Internal/ArrayContainer.cs:134-137 | that result is a canonical bitmap of exactly the 16-bit values `x` lacks, `65536 - cardinality` of them |
| ArrayContainers.OpXor | RoaringBitmap/Internal/ArrayContainer.cs:139-154 | Array^Array is the xor kernel's output in a buffer of the summed cardinalities; the bitmap built above `MaxSize` is discarded |
| ArrayContainers.XorSpec | RoaringBitmap/Internal/ArrayContainer.cs:139-154 | that result is always a valid array container of exactly the members of one operand only |
| ArrayContainers.XorStaysArray | RoaringBitmap/Internal/ArrayContainer.cs:147-153 | `{0..4095} ^ {4096}` has 4097 members and is still an array container |
| ArrayContainers.OpAndNot | RoaringBitmap/Internal/ArrayContainer.cs:161-167 | `AndNot(Array, Array)` is the difference kernel's output in a buffer of `x`'s cardinality |
| ArrayContainers.AndNotSpec | RoaringBitmap/Internal/ArrayContainer.cs:161-167 | that result is a valid array container of exactly the members of `x` that `y` lacks, canonical when `x` is |
| ArrayContainers.OrArray | RoaringBitmap/Internal/ArrayContainer.cs:185-199 | the caller's bitmap gets the bits of the first `Cardinality` entries set and nothing else changed; the result is the change in its count |
| ArrayContainers.XorArray | RoaringBitmap/Internal/ArrayContainer.cs:201-215 | the caller's bitmap gets those bits toggled and nothing else changed; the result is the change in its count |
| ArrayContainers.AndNotArray | RoaringBitmap/Internal/ArrayContainer.cs:218-232 | the caller's bitmap gets those bits cleared and nothing else changed; the result is the change in its count |
| ArrayContainers.OrStep | RoaringBitmap/Internal/ArrayContainer.cs:191-196 | `bitmap[v >> 6] \|= 1UL << v` sets bit `v`, and the delta is the change in the count |
| ArrayContainers.XorStep | RoaringBitmap/Internal/ArrayContainer.cs:207-212 | `bitmap[v >> 6] ^= 1UL << v` toggles bit `v`, and `1 - 2 * old bit` is the change in the count |
| ArrayContainers.AndNotStep | RoaringBitmap/Internal/ArrayContainer.cs:224-229 | `bitmap[v >> 6] &= ~(1UL << v)` clears bit `v`, and the delta is the change in the count |
| LegacyArrayContainers.Output | RoaringBitmap/ArrayContainer.cs:89-178 | each fill function the operators pass writes a strictly increasing run of 16-bit values |
| LegacyArrayContainers.Run | RoaringBitmap/ArrayContainer.cs:28-32 | applying a fill function writes its output to the front of the buffer, returns its length, and leaves the rest as it was; the functions are those the operators pass (the intersection one at `ArrayContainer.cs:92`, which runs the corrected galloping kernel; see "## Left out") |
| LegacyArrayContainers.WithFill | RoaringBitmap/ArrayContainer.cs:28-32 | the fill constructor allocates a zeroed buffer of the requested capacity and takes the cardinality from the function |
| LegacyArrayContainers.WithFillSpec | RoaringBitmap/ArrayContainer.cs:28-32 | that container is valid and holds exactly what the function wrote |
| LegacyArrayContainers.Initialize | RoaringBitmap/ArrayContainer.cs:12-26 | the static constructor fills 0..4095 and drops it: `Zero` is the empty container with an empty buffer |
| LegacyArrayContainers.CreateFromBitmap | RoaringBitmap/ArrayContainer.cs:76-79 | a valid array container of the bitmap's members in a buffer of the requested size, with the bitmap's cached cardinality |
| LegacyArrayContainers.Equals | RoaringBitmap/ArrayContainer.cs:43-69 | true exactly when the cardinalities and the whole buffers, slack and length included, are equal |
| LegacyArrayContainers.EqualsSeesSlack | RoaringBitmap/ArrayContainer.cs:43-69 | `Zero` and the empty intersection of two disjoint one-member containers hold the same (no) members, but their buffers differ |
| LegacyArrayContainers.OpAnd | RoaringBitmap/ArrayContainer.cs:89-93 | Array&Array gives the same container as in the later snapshot (through the corrected kernel; see "## Left out") |
| LegacyArrayContainers.OpOr | RoaringBitmap/ArrayContainer.cs:111-126 | Array\|Array gives the same container as in the later snapshot |
| LegacyArrayContainers.OpAndNot | RoaringBitmap/ArrayContainer.cs:158-162 | `AndNot(Array, Array)` gives the same container as in the later snapshot |
| LegacyArrayContainers.OpXor | RoaringBitmap/ArrayContainer.cs:138-151 | Array^Array: the array built from the xor bitmap when the cardinalities sum to more than `MaxSize` and the xor has at most `MaxSize` members, else the kernel's output |
| LegacyArrayContainers.XorSpec | RoaringBitmap/ArrayContainer.cs:138-151 | that result is a valid array container of the symmetric difference, canonical exactly when the symmetric difference has at most `MaxSize` members |
| ContainerDispatch.OrSpec | RoaringBitmap/Container.cs:13-30 | for every pair of kinds, `x \| y` holds exactly the members of either; canonical operands give a canonical result |
| ContainerDispatch.AndSpec | RoaringBitmap/Container.cs:32-49 | for every pair of kinds, `x & y` holds exactly the common members; canonical operands give a canonical result (Array&Array through the corrected kernel; see "## Left out") |
| ContainerDispatch.XorSpec | RoaringBitmap/Container.cs:51-68 | `x ^ y` holds exactly the members of one operand only; two arrays give an array, other canonical operands a canonical result |
| ContainerDispatch.AndNotSpec | RoaringBitmap/Container.cs:76-93 | `AndNot(x, y)` holds exactly the members of `x` that `y` lacks; canonical operands give a canonical result |
| ContainerDispatch.NotSpec | RoaringBitmap/Container.cs:70-74 | `~x` holds exactly the 16-bit values `x` lacks, `65536 - cardinality` of them, and is canonical when `x` is |
| ContainerDispatch.NotNot | RoaringBitmap/Container.cs:70-74 | `~~x` has the same members as `x` |
| ContainerDispatch.Equals | RoaringBitmap/BitmapContainer.cs:261-265 | container `Equals` is the typed `Equals` for the same kind and false across kinds |
| ContainerDispatch.SameMembers | RoaringBitmap/Internal/ArrayContainer.cs:71-75 | `Equals` containers hold the same members, and canonical containers with the same members are `Equals` |
| RoaringArrays.New | RoaringBitmap/RoaringArray.cs:20-32 | the index holds the listed pairs (none for a `null` list) and caches the sum of their cardinalities, wrapped to a C# `int` |
| RoaringArrays.HoldsValid | RoaringBitmap/RoaringArray.cs:20-32 | an index built from a list with increasing keys and valid containers is valid |
| RoaringArrays.KeysSorted | RoaringBitmap/RoaringArray.cs:94-97 | the key array of a valid index is sorted, as `Array.BinarySearch` needs |
| RoaringArrays.FindAt | RoaringBitmap/RoaringArray.cs:264-284 | with increasing keys, a key is found at its own position |
| RoaringArrays.MergeKeys | RoaringBitmap/RoaringArray.cs:99-161 | the keys of the `\|`/`^` walk are the union of the two key lists |
| RoaringArrays.MergeFind | RoaringBitmap/RoaringArray.cs:99-161 | a key of one side only keeps that side's container; a shared key gets the two containers combined |
| RoaringArrays.MergeSound | RoaringBitmap/RoaringArray.cs:99-161 | merging lists with increasing keys and valid containers gives such a list |
| RoaringArrays.MergeWalk | RoaringBitmap/RoaringArray.cs:99-161 | the loop of `\|` and `^` appends exactly the merge of the two indexes |
| RoaringArrays.CopyTail | RoaringBitmap/RoaringArray.cs:143-158 | the tail loops append the remaining pairs of one index in order |
| RoaringArrays.Or | RoaringBitmap/RoaringArray.cs:99-161 | `x \| y` is a valid index holding the merge with `Container \|` on shared keys |
| RoaringArrays.Xor | RoaringBitmap/RoaringArray.cs:200-262 | `x ^ y` is a valid index holding the merge with `Container ^`, empty containers included |
| RoaringArrays.OrMembers | RoaringBitmap/RoaringArray.cs:99-161 | `x \| y` holds a pair exactly when `x` or `y` holds it |
| RoaringArrays.XorMembers | RoaringBitmap/RoaringArray.cs:200-262 | `x ^ y` holds a pair exactly when one of `x` and `y` holds it |
| RoaringArrays.MeetSkipLeft | RoaringBitmap/RoaringArray.cs:183-186 | skipping left pairs whose keys are below the right key loses nothing |
| RoaringArrays.MeetSkipRight | RoaringBitmap/RoaringArray.cs:187-190 | skipping right pairs whose keys are below the left key loses nothing |
| RoaringArrays.MeetSound | RoaringBitmap/RoaringArray.cs:163-198 | the keys of the `&` walk increase and come from its left side |
| RoaringArrays.MeetFind | RoaringBitmap/RoaringArray.cs:163-198 | a key is found in the `&` walk exactly when both sides hold it and its intersection is non-empty; then it carries that intersection |
| RoaringArrays.AdvanceUntil | RoaringBitmap/RoaringArray.cs:94-97 | the private `AdvanceUntil` moves past `index` and stops at the first key at least the wanted one, or at the end |
| RoaringArrays.AdvanceLeft | RoaringBitmap/RoaringArray.cs:183-186 | `xPos = x.AdvanceUntil(yKey, xPos)` keeps the invariant of the `&` walk |
| RoaringArrays.AdvanceRight | RoaringBitmap/RoaringArray.cs:187-190 | `yPos = y.AdvanceUntil(xKey, yPos)` keeps the invariant of the `&` walk |
| RoaringArrays.MeetWalk | RoaringBitmap/RoaringArray.cs:163-198 | the loop of `&` builds exactly the walk's list, and leaves it `null` when no intersection is kept |
| RoaringArrays.And | RoaringBitmap/RoaringArray.cs:163-198 | `x & y` is a valid index holding the walk over shared keys with non-empty intersections (through the corrected kernel; see "## Left out") |
| RoaringArrays.AndMembers | RoaringBitmap/RoaringArray.cs:163-198 | `x & y` holds a pair exactly when both hold it |
| RoaringArrays.Flip | RoaringBitmap/RoaringArray.cs:266-281 | a key adds no pair or one pair: `One` for a missing key, the non-empty complement of the stored container otherwise |
| RoaringArrays.FlipAt | RoaringBitmap/RoaringArray.cs:268-280 | what `Array.BinarySearch` reports for the key decides its pairs |
| RoaringArrays.FlipKey | RoaringBitmap/RoaringArray.cs:268-280 | the loop body appends exactly the pairs of key `i` |
| RoaringArrays.ComplementWalk | RoaringBitmap/RoaringArray.cs:264-284 | the key loop runs for `i < ushort.MaxValue` and appends exactly the complement list of keys 0..65534 |
| RoaringArrays.Not | RoaringBitmap/RoaringArray.cs:264-284 | `~x` is a valid index holding the complement list of keys 0..65534 |
| RoaringArrays.ComplementSound | RoaringBitmap/RoaringArray.cs:264-284 | the complement list has increasing keys inside the loop's range |
| RoaringArrays.ComplementFind | RoaringBitmap/RoaringArray.cs:264-284 | a key inside the range carries its flipped container; none outside |
| RoaringArrays.NotMembers | RoaringBitmap/RoaringArray.cs:264-284 | `~x` holds `(key, low)` exactly when `key` is below the loop bound, `low` is 16-bit and `x` does not hold the pair: key 65535 is never emitted |
| RoaringArrays.JoinAll | RoaringBitmap/RoaringArray.cs:41-45 | one container's values are `(key << 16) \| low` for each member, in the container's order |
| RoaringArrays.EnumerateMembers | RoaringBitmap/RoaringArray.cs:36-48 | the enumeration yields `v` exactly when the index holds the pair of `v`'s high and low bits |
| RoaringArrays.EnumerateLength | RoaringBitmap/RoaringArray.cs:36-48 | the enumeration yields as many values as the containers' cardinalities add up to |
| RoaringArrays.EnumerateOrdered | RoaringBitmap/RoaringArray.cs:36-48 | the enumeration strictly increases as unsigned values: by key, then by low part |
| RoaringArrays.Cardinality | RoaringBitmap/RoaringArray.cs:34 | the number of enumerated values, counted without wrapping; the cached `int` is that number wrapped |
| RoaringArrays.ComplementOfEmptyTotal | RoaringBitmap/RoaringArray.cs:264-284 | the complement of the empty index has 65536 members under each key it covers |
| RoaringArrays.EmptyComplementWraps | RoaringBitmap/RoaringArray.cs:30 | `~` of the empty index holds 4294901760 values, but its cached cardinality is -65536 |
| RoaringArrays.Equals | RoaringBitmap/RoaringArray.cs:55-92 | true exactly when the sizes, the keys position by position and the containers by container `Equals` agree |
| RoaringArrays.EqualsMembers | RoaringBitmap/RoaringArray.cs:55-92 | for indexes whose containers are canonical and non-empty, `Equals` holds exactly when they hold the same pairs |
| RoaringArrays.ComplementCompact | RoaringBitmap/RoaringArray.cs:264-284 | `~` keeps containers canonical and non-empty |
| RoaringArrays.MeetCompact | RoaringBitmap/RoaringArray.cs:163-198 | `&` keeps containers canonical and non-empty |
| RoaringArrays.OrCompact | RoaringBitmap/RoaringArray.cs:99-161 | `\|` keeps containers canonical and non-empty |
| RoaringArrays.NotNotEquals | RoaringBitmap.Tests/RoaringBitmapTests.cs:297-306 | for a compact index without key 65535, `~~x` `Equals` `x` |
| RoaringBitmaps.Layout | RoaringBitmap/RoaringBitmap.cs:73-85 | the `foreach` lists one pair per group, with the group's key and container, in group order |
| RoaringBitmaps.Create | RoaringBitmap/RoaringBitmap.cs:67-87 | `Create` builds a valid index that holds exactly the listed pairs of the grouped values |
| RoaringBitmaps.ListGroups | RoaringBitmap/RoaringBitmap.cs:73-85 | the loop appends one key and one container per group and counts them |
| RoaringBitmaps.FromLists | RoaringBitmap/RoaringBitmap.cs:86 | the index built from the parallel lists holds their pairs |
| RoaringBitmaps.LowsOrdered | RoaringBitmap/RoaringBitmap.cs:69-72 | the low parts of a group strictly increase |
| RoaringBitmaps.LowsMembers | RoaringBitmap/RoaringBitmap.cs:69-72 | a low part is in a group exactly when the key and it make up one of the values |
| RoaringBitmaps.RepresentSpec | RoaringBitmap/RoaringBitmap.cs:76-83 | a group of more than `MaxSize` values becomes a bitmap, otherwise an array; either way canonical, non-empty and holding exactly the group's low parts |
| RoaringBitmaps.LayoutSound | RoaringBitmap/RoaringBitmap.cs:67-87 | the listed pairs have increasing keys and canonical non-empty containers |
| RoaringBitmaps.LayoutFind | RoaringBitmap/RoaringBitmap.cs:67-87 | a key carries the container of its group, if it has one |
| RoaringBitmaps.Created | RoaringBitmap/RoaringBitmap.cs:67-87 | the pairs `Create` lists have increasing keys and canonical non-empty containers |
| RoaringBitmaps.CreateMembers | RoaringBitmap/RoaringBitmap.cs:67-87 | `Create(values)` holds `(key, low)` exactly when the value they join to is one of the values |
| RoaringBitmaps.CreateEnumerates | RoaringBitmap/RoaringBitmap.cs:20-23 | enumerating `Create(values)` yields exactly the values |
| RoaringBitmaps.CreateDistinct | RoaringBitmap.Tests/RoaringBitmapTests.cs:279-294 | it yields the distinct values, each once, in increasing unsigned order |
| RoaringBitmaps.CreateCardinality | RoaringBitmap.Tests/RoaringBitmapTests.cs:253-258 | the cardinality of `Create(values)` is the number of distinct values, so 0 for none |
| RoaringBitmaps.DistinctCount | RoaringBitmap/RoaringBitmap.cs:18 | a sequence that strictly increases has as many distinct values as entries |
| RoaringBitmaps.CreateSameValues | RoaringBitmap.Tests/RoaringBitmapTests.cs:245-250 | `Create` of two lists with the same values, in any order and with any repetitions, builds the same index, and the two are `Equals` |
| RoaringBitmaps.Cardinality | RoaringBitmap/RoaringBitmap.cs:18 | the façade's `long Cardinality` is the number of members |
| RoaringBitmaps.SameMembers | RoaringBitmap/RoaringBitmap.cs:30-41 | two indexes hold the same pairs exactly when they enumerate the same values |
| RoaringBitmaps.Equals | RoaringBitmap/RoaringBitmap.cs:30-41 | `Equals` is the indexes' `Equals`; for compact bitmaps it holds exactly when they have the same members |
| RoaringBitmaps.EqualIffSameMembers | RoaringBitmap/RoaringBitmap.cs:30-41 | for compact bitmaps, the indexes are `Equals` exactly when the bitmaps enumerate the same values |
| RoaringBitmaps.Or | RoaringBitmap/RoaringBitmap.cs:95-98 | a value is a member of `x \| y` exactly when it is a member of either; compact operands give a compact result |
| RoaringBitmaps.And | RoaringBitmap/RoaringBitmap.cs:106-109 | a value is a member of `x & y` exactly when it is a member of both; compact operands give a compact result (through the corrected kernel; see "## Left out") |
| RoaringBitmaps.Xor | RoaringBitmap/RoaringBitmap.cs:127-130 | a value is a member of `x ^ y` exactly when it is a member of one operand only |
| RoaringBitmaps.Not | RoaringBitmap/RoaringBitmap.cs:116-119 | a value is a member of `~x` exactly when it is not a member of `x` and its high bits are not 65535; a compact operand gives a compact result |
| RoaringBitmaps.NotNot | RoaringBitmap.Tests/RoaringBitmapTests.cs:297-306 | `~~x` enumerates the same values as `x`, in the same order, when no member has high bits 65535 |
| RoaringBitmaps.SameEnumeration | RoaringBitmap/RoaringBitmap.cs:20-23 | two valid bitmaps with the same members enumerate them in the same order |

## Left out

- `BitCount(ulong)`: its SWAR multiply-shift reduction is not modelled. `Words.BitCount` is stated as the number of set bits.
- Serialization (`Serialize`/`Deserialize` of the containers and the façade): stream I/O. The index-level codec is not part of this model.
- `GetHashCode` overrides: unchecked hash arithmetic with no stated contract.
- `Equals(object)` overrides and `ReferenceEquals` fast paths: object identity is not modelled. A façade is equal to itself through the index comparison anyway.
- `ArraySizeInBytes`: memory accounting only.
- `RoaringBitmap.Optimize` and `RoaringBitmap.AndNot`: they call `RoaringArray` members that are not part of this model.
- RoaringBitmaps.FromLists: the 3-argument `RoaringArray` constructor that `Create` calls is not part of this model. It is taken to build the same index as the list constructor from the same pairs.
- The LINQ pipeline `Distinct().OrderBy().GroupBy(HighBits).OrderBy(Key)` in `Create` is stated by its result (`RoaringBitmaps.Grouped`): for each key in increasing order, the increasing low parts of the values under it. Values are ordered as unsigned readings, which equals LINQ's signed order within each key group.
- `Array.BinarySearch` and `Buffer.BlockCopy`: framework code. They are modelled by their documented results (`Util.BinarySearch`, `Util.ArrayCopy`).
- `yield return` enumerators: modelled as functions returning the sequence of values (`Containers.Elements`, `RoaringArrays.Enumerate`).
- RoaringArrays.Or, RoaringArrays.And, RoaringArrays.Xor, RoaringArrays.Not: stated for valid indexes (keys strictly increasing, containers valid). Every index the library builds is valid.
- The container operators are stated for valid operands (sorted array prefix, cached bitmap count). Every constructor of the library establishes this.
- RoaringBitmaps.Equals: the member-level reading holds for compact bitmaps only (non-empty canonical containers). `^` can keep empty or oversized array containers, and then `Equals` compares representations, as the code does.
- Util.IntersectArrays, ArrayContainers.OpAnd, LegacyArrayContainers.OpAnd, LegacyArrayContainers.Run, ContainerDispatch.AndSpec, RoaringArrays.And, RoaringBitmaps.And: these run on the corrected galloping kernel, which returns 0 when either prefix is empty, so they promise the intersection on every valid input. The code as written throws instead. Take `x = Create(0..199)`: `x ^ x` keeps key 0 as an empty array container with a 400-entry buffer. Then `(x ^ x) & Create(1, 2, 3)` allocates `Math.Min(0, 3)` = 0 entries. It takes the galloping branch (`3 << 6 = 192 < 400`), reads `largeSet[0]`, and writes `buffer[pos++]` (`Util.cs:274`), which throws `IndexOutOfRangeException`. The earlier snapshot reaches the same throw on its own: its `^` (`ArrayContainer.cs:138-151`) also leaves `x ^ x` empty with a 400-entry buffer, and its `&` passes the same kernel as the intersection fill function (`ArrayContainer.cs:92`). The exception path is not modelled. The as-written kernel is `Util.GallopingAsWritten`, and `Util.GallopingEmptyLargeSide` exhibits it.
- RoaringBitmaps.Cardinality: returns the count the façade promises as a `long`, not the wrapped `int` the index caches. See "## Findings".
- Generic `IEnumerable` plumbing (`IEnumerable.GetEnumerator`), the benchmark projects and the test fixtures are not modelled. Tests are only cited as statements of intent.

## Findings

| source | as written | input that shows it | evidently intended | confidence | as-written member | corrected member |
|---|---|---|---|---|---|---|
| RoaringBitmap/Internal/Util.cs:241-253 | `OneSidedGallopingIntersect2By2` checks only `smallLength` and reads `largeSet[0]` even when `largeLength` is 0 | small prefix `[1, 2, 3]` against an empty prefix of a 200-entry array, as an empty array container with slack gives after `^`: an out-of-range write with a buffer sized for the empty intersection, and `[1, 2, 3]` reported as common with a larger buffer | return 0 when either prefix is empty | not executed | Util.GallopingEmptyLargeSide | Util.OneSidedGallopingIntersect2By2 |
| RoaringBitmap/RoaringArray.cs:14,30 | the cardinality is summed into an `int`, and the façade widens that `int` to `long` | `~RoaringBitmap.Create()` holds 65535 full containers, 4294901760 values, but caches -65536 | the façade's `long Cardinality` counts the members; even so, the corrected count of `~RoaringBitmap.Create()` is 4294901760, not the `1L << 32` the test `CardinalityOfFullSet` (RoaringBitmap.Tests/RoaringBitmapTests.cs:261-266) expects, because the `~` loop stops before key 65535 (`RoaringArray.cs:267`), as modelled | not executed | RoaringArrays.EmptyComplementWraps | RoaringArrays.Cardinality |
