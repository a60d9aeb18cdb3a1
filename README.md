# Size classes and the long-to-long hash map of Netty's pooled allocator

This project models two parts of Netty's pooled `ByteBuf` allocator and proves
properties of the models in Dafny.

**`SizeClasses`.** The size-class table of the allocator. A pool chunk of
`chunkSize` bytes is carved into size classes: first 16, 32, 48 and 64 bytes,
then four classes to every doubling (80, 96, 112, 128, 160, ...), up to the
chunk itself. The constructor generates one row per class
(`index, log2Group, log2Delta, nDelta, isMultiPageSize, isSubpage,
log2DeltaLookup`) and counts the classes, the page classes (the classes that
are a whole number of pages) and the subpage classes. It then builds three
lookup arrays:
- class index to size;
- page index to size;
- a table that maps every size up to `lookupMaxSize`, in steps of 16 bytes,
  to its class.

The queries map sizes to classes and back: `size2SizeIdx`, `sizeIdx2size`,
`pageIdx2size`, `pages2pageIdx`, `pages2pageIdxFloor` and `normalizeSize`,
together with the bit-arithmetic versions that compute the same answers
without the tables. An optional `directMemoryCacheAlignment` rounds every
size up to a power-of-two alignment.

**`LongLongHashMap`.** The open-addressing map from `long` keys to `long`
values that a chunk keeps its free runs in. Keys and values share one array:
the key sits at an even slot and its value right after it. Key 0 is kept in
a field of its own. A key is placed within a window of `maxProbe` slot pairs
that starts at its hashed index. When a key finds its window full of other
keys, the array doubles and every pair is re-inserted. `put` also clears an
older copy of the key found further along its window.

Modules:
- `Bits` (bits.dfy): powers of two, `log2` and the modular arithmetic lemmas
  the rest uses.
- `SizeClassMath` (size_class_math.dfy): the closed form of the class
  progression, `newSizeClass`, `alignSizeIfNeeded`, and the compute
  functions. It defines the ceiling index of a size and proves that the
  shift-and-mask arithmetic finds it.
- `SizeClassLayout` (size_class_layout.dfy): which rows carry which flags,
  and what the counters and the page table come to.
- `SizeClassTable` (size_classes.dfy): the class `SizeClasses`, whose
  constructor runs the generation, counting and table-building loops over
  arrays, and whose queries read the arrays. It also holds the lemmas that
  tie the table answers to the computed ones.
- `LongLongMap` (long_long_hash_map.dfy): the class `LongLongHashMap`, over
  an `array<int64>`. Two ghost fields give its meaning: `Contents`, the map
  it stores, and `Pos`, the slot each key sits in.

The size functions read the arrays the constructor built. Their contracts
relate each answer to the closed-form progression
`ScaledSize(base, i) = 2^base * Units(i)`, with `Units` running
1, 2, 3, 4, 5, 6, 7, 8, 10, 12, 14, 16, 20, .... Alignment is applied on
top. The map's methods are specified by `Lookup`, the answer `get` gives
for each key, and keep the slot layout invariant `Layout` on the array.

## Model

Paths are relative to the repository root; `SizeClasses.java` is
`buffer/src/main/java/io/netty/buffer/SizeClasses.java` and
`LongLongHashMap.java` is `buffer/src/main/java/io/netty/buffer/LongLongHashMap.java`.

| member | source | states |
|---|---|---|
| SizeClassMath.CalculateSize | buffer/src/main/java/io/netty/buffer/SizeClasses.java:294-296 | a class is at least its group base 2^log2Group; with at most four deltas a quarter group wide it is at most twice the base, so it stays inside its group |
| SizeClassMath.AlignSizeIfNeeded | buffer/src/main/java/io/netty/buffer/SizeClasses.java:457-463 | no alignment leaves the size alone; otherwise the result is the least multiple of the alignment not below the size (size <= r < size + alignment, r a multiple of it) |
| SizeClassMath.AlignIdempotent | buffer/src/main/java/io/netty/buffer/SizeClasses.java:457-463 | aligning an aligned size changes nothing |
| SizeClassMath.AlignMultiple | buffer/src/main/java/io/netty/buffer/SizeClasses.java:461-462 | a size that is already a multiple of the alignment is returned unchanged |
| SizeClassMath.AlignBelow | buffer/src/main/java/io/netty/buffer/SizeClasses.java:457-463 | aligning never passes a bound that is itself a multiple of the alignment |
| SizeClassMath.MultiPageByDelta | buffer/src/main/java/io/netty/buffer/SizeClasses.java:207-208 | the branch that sets isMultiPageSize without computing the size is right: a delta of at least a page makes the size a whole number of pages |
| SizeClassMath.NewSizeClass | buffer/src/main/java/io/netty/buffer/SizeClasses.java:204-262 | the row keeps the index, group, delta and nDelta it was given; isMultiPageSize holds exactly when the size is a multiple of the page; log2DeltaLookup is either no or the delta |
| SizeClassMath.ClassSizeIsScaled | buffer/src/main/java/io/netty/buffer/SizeClasses.java:142-158 | the size of the row the loops generate for index i is 16 * Units(i), the closed-form progression |
| SizeClassMath.ScaledMonotone | buffer/src/main/java/io/netty/buffer/SizeClasses.java:142-158 | class sizes strictly increase with the index, at every scale |
| SizeClassMath.ClassSizePow2 | buffer/src/main/java/io/netty/buffer/SizeClasses.java:152-158 | class 4k - 21 is exactly 2^k bytes: the last class of each group is a power of two |
| SizeClassMath.ClassSizeBelowPow2 | buffer/src/main/java/io/netty/buffer/SizeClasses.java:152-158 | the class just below 2^k bytes is 7/8 of it |
| SizeClassMath.SizeIdx2SizeCompute | buffer/src/main/java/io/netty/buffer/SizeClasses.java:351-363 | the shift arithmetic gives the unaligned size of class sizeIdx, 16 * Units(sizeIdx) |
| SizeClassMath.PageIdx2SizeCompute | buffer/src/main/java/io/netty/buffer/SizeClasses.java:371-383 | the shift arithmetic gives the size of page class pageIdx, 2^pageShifts * Units(pageIdx) |
| SizeClassMath.ComputeFormula | buffer/src/main/java/io/netty/buffer/SizeClasses.java:352-362 | groupSize + modSize, as the compute functions add them, is the progression's size at any scale |
| SizeClassMath.CeilIndexUnique | buffer/src/main/java/io/netty/buffer/SizeClasses.java:386-415 | a size has at most one ceiling class, the smallest class that holds it |
| SizeClassMath.CeilIndexOfClass | buffer/src/main/java/io/netty/buffer/SizeClasses.java:386-415 | every class size is its own ceiling |
| SizeClassMath.CeilIndexCorrect | buffer/src/main/java/io/netty/buffer/SizeClasses.java:402-414 | the log2, shift and mask arithmetic finds the smallest class holding the size, and that class is the size rounded up to a multiple of the group's step |
| SizeClassMath.CeilIndexBound | buffer/src/main/java/io/netty/buffer/SizeClasses.java:402-414 | the ceiling class never lies beyond a class that already holds the size |
| SizeClassMath.CeilIndexQuantum | buffer/src/main/java/io/netty/buffer/SizeClasses.java:396-399 | a size and that size rounded up to 16 have the same class, so the lookup table needs one entry per 16 bytes |
| SizeClassMath.UnitsIncrement | buffer/src/main/java/io/netty/buffer/SizeClasses.java:330-340 | each class is 2^(log2Delta - 4) lookup entries past the one before: the count of entries newSize2idxTab writes for it |
| SizeClassMath.NormalizeSizeCompute | buffer/src/main/java/io/netty/buffer/SizeClasses.java:479-486 | rounding up by the delta mask gives the size of the smallest class holding the size, which is never below the size |
| SizeClassMath.CeilIndexAligned | buffer/src/main/java/io/netty/buffer/SizeClasses.java:470-476 | the class found for a size that is a multiple of a power-of-two alignment is itself a multiple of the alignment |
| SizeClassMath.PagesCeilIndex | buffer/src/main/java/io/netty/buffer/SizeClasses.java:433-447 | the page arithmetic, whose group test differs from size2SizeIdx's by one, still finds the smallest page class holding pagesSize |
| SizeClassLayout.RowLog2Size | buffer/src/main/java/io/netty/buffer/SizeClasses.java:218-237 | past the first group the row's log2Size is the floor log2 of its size; deltas carry into the next power of two only at the fourth class of a group |
| SizeClassLayout.FirstGroupLog2Size | buffer/src/main/java/io/netty/buffer/SizeClasses.java:229-237 | in the first group the same rule gives 5, 5, 4, 4, not the floor log2 of 16, 32, 48, 64 |
| SizeClassLayout.SubpageAt | buffer/src/main/java/io/netty/buffer/SizeClasses.java:248 | isSubpage holds for exactly the rows 0 .. 4 * pageShifts - 18 |
| SizeClassLayout.SubpageMeaning | buffer/src/main/java/io/netty/buffer/SizeClasses.java:245-248 | isSubpage holds exactly for the classes smaller than two pages |
| SizeClassLayout.LookupAt | buffer/src/main/java/io/netty/buffer/SizeClasses.java:225-256 | log2DeltaLookup is set for exactly the rows 0 .. 27 |
| SizeClassLayout.LookupMeaning | buffer/src/main/java/io/netty/buffer/SizeClasses.java:225-256 | log2DeltaLookup is set exactly for the classes of at most 4096 bytes |
| SizeClassLayout.UnitsPageMultiple | buffer/src/main/java/io/netty/buffer/SizeClasses.java:207-213 | a class is a whole number of pages exactly when it is one of the page rows IsPageClass lists |
| SizeClassLayout.MultiPageAt | buffer/src/main/java/io/netty/buffer/SizeClasses.java:205-215 | isMultiPageSize holds exactly for the classes whose size is a multiple of the page |
| SizeClassLayout.PageClassUnits | buffer/src/main/java/io/netty/buffer/SizeClasses.java:308-319 | the page classes in row order are the page progression: the k-th is 2^pageShifts * Units(k) |
| SizeClassLayout.PageClassAligned | buffer/src/main/java/io/netty/buffer/SizeClasses.java:298-306 | an alignment of at most a page leaves every page class unchanged |
| SizeClassLayout.PageCountRow | buffer/src/main/java/io/netty/buffer/SizeClasses.java:169-171 | the counting loop moves nPSizes on exactly at the multi-page rows |
| SizeClassLayout.SubpageRow | buffer/src/main/java/io/netty/buffer/SizeClasses.java:172-175 | the counting loop moves nSubpages and smallMaxSizeIdx on exactly at the subpage rows |
| SizeClassLayout.LookupRow | buffer/src/main/java/io/netty/buffer/SizeClasses.java:176-178 | the counting loop replaces lookupMaxSize exactly at the lookup rows |
| SizeClassLayout.PageEntry | buffer/src/main/java/io/netty/buffer/SizeClasses.java:314-315 | the next page-table entry is the next size of the page progression |
| SizeClassLayout.ProgressionSnoc | buffer/src/main/java/io/netty/buffer/SizeClasses.java:312-317 | appending the next page size extends the page progression |
| SizeClassTable.ConfigBounds | buffer/src/main/java/io/netty/buffer/SizeClasses.java:120-125 | a modelled configuration has a page of at least 4096 bytes, a chunk of at least a page and at most 2^30 bytes, and an alignment that divides both |
| SizeClassTable.ChunkBoundary | buffer/src/main/java/io/netty/buffer/SizeClasses.java:152-161 | with an alignment of at most an eighth of the chunk 2^c, class 4c - 21 is the first whose aligned size reaches the chunk, and it equals the chunk |
| SizeClassTable.LastClassIsChunk | buffer/src/main/java/io/netty/buffer/SizeClasses.java:160-161 | the last class generated is the chunk, as the constructor's assert says |
| SizeClassTable.FullTableGenerated | buffer/src/main/java/io/netty/buffer/SizeClasses.java:142-161 | with an alignment of at most an eighth of the chunk the loops emit 4c - 20 classes, and every size up to the chunk has its class among them |
| SizeClassTable.LargeAlignmentCutsTable | buffer/src/main/java/io/netty/buffer/SizeClasses.java:152-161 | with 8 KiB pages, a 32 KiB chunk and an 8 KiB alignment the loops emit only 39 classes, and the class computed for a request of exactly the chunk is 39 |
| SizeClassTable.FirstClassSizes | buffer/src/main/java/io/netty/buffer/SizeClasses.java:142-158 | the first twelve classes are 16, 32, 48, 64, 80, 96, 112, 128, 160, 192, 224 and 256 bytes |
| SizeClassTable.SmallCeilExamples | buffer/src/main/java/io/netty/buffer/SizeClasses.java:402-414 | 15 bytes fit class 0, 65 bytes class 4 and 129 bytes class 8 |
| SizeClassTable.FirstGroupRow | buffer/src/main/java/io/netty/buffer/SizeClasses.java:142-145 | the first loop's rows are the closed-form rows 0 .. 3 |
| SizeClassTable.GroupRow | buffer/src/main/java/io/netty/buffer/SizeClasses.java:152-155 | the inner loop's row for step nDelta of a group is the closed-form row of its index |
| SizeClassTable.SizeOfRow | buffer/src/main/java/io/netty/buffer/SizeClasses.java:298-306 | sizeOf of a row is the row's class size, aligned |
| SizeClassTable.LookupMaxBounds | buffer/src/main/java/io/netty/buffer/SizeClasses.java:176-178 | lookupMaxSize is a multiple of 16, at least 16 and at most the last class |
| SizeClassTable.EntryIsCeilIndex | buffer/src/main/java/io/netty/buffer/SizeClasses.java:396-399 | a lookup entry read for a size is that size's ceiling class |
| SizeClassTable.AlignedCeil | buffer/src/main/java/io/netty/buffer/SizeClasses.java:394-414 | the class chosen for an aligned size is a multiple of the alignment |
| SizeClassTable.FloorIndexUnique | buffer/src/main/java/io/netty/buffer/SizeClasses.java:449-451 | a size has at most one floor class, the largest class not above it |
| SizeClassTable.CeilToFloor | buffer/src/main/java/io/netty/buffer/SizeClasses.java:449-451 | stepping back one index when the ceiling class overshoots gives the floor class; otherwise the ceiling is the floor |
| SizeClassTable.LastPageIsChunk | buffer/src/main/java/io/netty/buffer/SizeClasses.java:308-319 | the last page class is the chunk |
| SizeClassTable.EightKiBCounters | buffer/src/main/java/io/netty/buffer/SizeClasses.java:163-179 | for 8 KiB pages and a 16 MiB chunk there are 40 page classes, 35 subpage classes ending at 34, and lookups up to 4096 bytes |
| SizeClassTable.OwnCeilIndex | buffer/src/main/java/io/netty/buffer/SizeClasses.java:402-414 | the arithmetic maps every class size to its own index |
| SizeClassTable.AlignedClass | buffer/src/main/java/io/netty/buffer/SizeClasses.java:457-463 | a class that is a multiple of the alignment keeps its size and maps back to itself |
| SizeClassTable.PagesScale | buffer/src/main/java/io/netty/buffer/SizeClasses.java:428-447 | counting in pages or in bytes of whole pages gives the same ceiling and floor page classes |
| SizeClassTable.OwnPageIndex | buffer/src/main/java/io/netty/buffer/SizeClasses.java:427-454 | the number of pages of a page class has that class as both its ceiling and its floor |
| SizeClassTable.ClassEntries | buffer/src/main/java/io/netty/buffer/SizeClasses.java:330-341 | class i takes 2^(log2Delta - 4) consecutive lookup entries, each standing for a size whose ceiling class is i, and a next class exists while entries remain |
| SizeClassTable.ClassCovers | buffer/src/main/java/io/netty/buffer/SizeClasses.java:330-341 | the entries Units(i - 1) .. Units(i) - 1 of the lookup table all belong to class i |
| SizeClassTable.SizeClasses.constructor | buffer/src/main/java/io/netty/buffer/SizeClasses.java:120-201 | a valid configuration yields a valid table: the closed-form rows, the counters that count them, and the three lookup arrays; the configuration fields are kept |
| SizeClassTable.SizeClasses.ValidFacts | buffer/src/main/java/io/netty/buffer/SizeClasses.java:163-189 | a built table has at least 28 classes and one page class, and a lookupMaxSize between 16 and the chunk |
| SizeClassTable.SizeClasses.ClassFits | buffer/src/main/java/io/netty/buffer/SizeClasses.java:152-161 | every class fits in the chunk, and the last class is the chunk |
| SizeClassTable.SizeClasses.PageFits | buffer/src/main/java/io/netty/buffer/SizeClasses.java:308-319 | every page class fits in the chunk, and the last page class is the chunk |
| SizeClassTable.SizeClasses.SizeIdx2Size | buffer/src/main/java/io/netty/buffer/SizeClasses.java:346-348 | the table gives the class size, aligned |
| SizeClassTable.SizeClasses.SizeIdx2SizeAgrees | buffer/src/main/java/io/netty/buffer/SizeClasses.java:346-363 | the table and the computation agree exactly for the classes that are already multiples of the alignment (the computation ignores the alignment) |
| SizeClassTable.SizeClasses.PageIdx2Size | buffer/src/main/java/io/netty/buffer/SizeClasses.java:366-383 | the page table gives the page class size, a whole number of pages, and agrees with the computation |
| SizeClassTable.SizeClasses.LookupAgrees | buffer/src/main/java/io/netty/buffer/SizeClasses.java:396-399 | for every size up to lookupMaxSize the lookup entry is in the array and is the smallest class holding the size, the class the arithmetic finds |
| SizeClassTable.SizeClasses.CeilIndexInTable | buffer/src/main/java/io/netty/buffer/SizeClasses.java:390-414 | every size up to the chunk has a class in the table |
| SizeClassTable.SizeClasses.Size2SizeIdx | buffer/src/main/java/io/netty/buffer/SizeClasses.java:386-415 | 0 maps to class 0; a size past the chunk maps to nSizes; any other size maps to the smallest class holding the aligned size, whether read from the table or computed |
| SizeClassTable.SizeClasses.Size2SizeIdxMonotone | buffer/src/main/java/io/netty/buffer/SizeClasses.java:386-415 | a larger request never gets a smaller class |
| SizeClassTable.SizeClasses.SizeRoundTrip | buffer/src/main/java/io/netty/buffer/SizeClasses.java:346-415 | the size of a class that is a multiple of the alignment maps back to that class |
| SizeClassTable.SizeClasses.NormalizeAgrees | buffer/src/main/java/io/netty/buffer/SizeClasses.java:471-474 | on the table path the entry read equals normalizeSizeCompute, as the assert there claims |
| SizeClassTable.SizeClasses.NormalizeSize | buffer/src/main/java/io/netty/buffer/SizeClasses.java:466-477 | 0 gets the first class, aligned; any other size gets the smallest class holding the aligned size, which is not below the size, is a multiple of the alignment and stays within 2^30 |
| SizeClassTable.SizeClasses.NormalizeFits | buffer/src/main/java/io/netty/buffer/SizeClasses.java:479-486 | a request of at most 2^30 bytes stays at most 2^30 bytes once aligned and rounded up to its class |
| SizeClassTable.SizeClasses.NormalizeIsClassOfIndex | buffer/src/main/java/io/netty/buffer/SizeClasses.java:466-477 | up to the chunk, normalizeSize is the size of the class size2SizeIdx picks |
| SizeClassTable.SizeClasses.NormalizeIdempotent | buffer/src/main/java/io/netty/buffer/SizeClasses.java:466-486 | normalizing a normalized size changes nothing |
| SizeClassTable.SizeClasses.NormalizeMinimal | buffer/src/main/java/io/netty/buffer/SizeClasses.java:466-486 | no class that holds the request and is a multiple of the alignment is smaller than the result |
| SizeClassTable.SizeClasses.Pages2PageIdxCompute | buffer/src/main/java/io/netty/buffer/SizeClasses.java:427-454 | past the chunk the result is nPSizes; otherwise it is the smallest page class holding the pages or, with floor, the largest page class not above them |
| SizeClassTable.SizeClasses.PageCeilInTable | buffer/src/main/java/io/netty/buffer/SizeClasses.java:433-451 | the computed page index is in the table, and the table entry overshoots the pages exactly when the class has more pages |
| SizeClassTable.SizeClasses.Pages2PageIdx | buffer/src/main/java/io/netty/buffer/SizeClasses.java:418-420 | the smallest page class holding the pages, or nPSizes past the chunk |
| SizeClassTable.SizeClasses.Pages2PageIdxFloor | buffer/src/main/java/io/netty/buffer/SizeClasses.java:423-425 | the largest page class not above the pages, or nPSizes past the chunk |
| SizeClassTable.SizeClasses.FloorCeil | buffer/src/main/java/io/netty/buffer/SizeClasses.java:449-451 | floor and ceiling coincide exactly when the pages make up a page class; otherwise the floor is one below the ceiling |
| SizeClassTable.SizeClasses.PagesRoundTrip | buffer/src/main/java/io/netty/buffer/SizeClasses.java:366-454 | every page class, given as its number of pages, maps back to its own index under both roundings |
| SizeClassTable.SizeClasses.PagesFit | buffer/src/main/java/io/netty/buffer/SizeClasses.java:308-319 | every page class has at least one page and fits in the chunk |
| SizeClassTable.SizeClasses.EightKiBPages | buffer/src/main/java/io/netty/buffer/SizeClasses.java:163-184 | with 8 KiB pages and a 16 MiB chunk the constructor counts 76 classes, 40 page classes and 35 subpage classes, and without alignment looks sizes up to 4096 bytes up in the table |
| SizeClassTable.SizeClasses.SmallClassesExample | buffer/src/main/java/io/netty/buffer/SizeClasses.java:264-272 | without alignment the size table starts 16, 32, 48, 64, 80, ..., 256, and 15, 65 and 129 bytes get classes 0, 4 and 8 |
| SizeClassTable.SizeClasses.BuildRows | buffer/src/main/java/io/netty/buffer/SizeClasses.java:125-179 | the rows array has room for every group; the generated rows are the closed-form rows; the counters count them |
| SizeClassTable.SizeClasses.GenerateSizeClasses | buffer/src/main/java/io/netty/buffer/SizeClasses.java:130-161 | the two generation loops emit the closed-form rows 0 .. 4c - 21, stopping at the first class whose aligned size reaches the chunk |
| SizeClassTable.SizeClasses.GenerateFirstGroup | buffer/src/main/java/io/netty/buffer/SizeClasses.java:142-147 | the first loop writes the rows 0 .. 3 and leaves size at the aligned size of row 3 |
| SizeClassTable.SizeClasses.GenerateGroup | buffer/src/main/java/io/netty/buffer/SizeClasses.java:153-157 | one pass of the inner loop writes the four rows of a group; the new size is below the chunk exactly when more classes follow |
| SizeClassTable.SizeClasses.PutGroupRow | buffer/src/main/java/io/netty/buffer/SizeClasses.java:154-156 | one row of a group is written; its aligned size is below the chunk exactly when it is not the last class |
| SizeClassTable.SizeClasses.PutRow | buffer/src/main/java/io/netty/buffer/SizeClasses.java:143-145 | the row for index n goes to slot n and size becomes its aligned size |
| SizeClassTable.SizeClasses.CountSizeClasses | buffer/src/main/java/io/netty/buffer/SizeClasses.java:163-179 | the counters are the page-class count, the subpage count, the last subpage index and the aligned size of the last lookup row |
| SizeClassTable.SizeClasses.CountRow | buffer/src/main/java/io/netty/buffer/SizeClasses.java:168-178 | counting one more row moves each counter to its value over one more row |
| SizeClassTable.SizeClasses.NewIdx2SizeTab | buffer/src/main/java/io/netty/buffer/SizeClasses.java:264-272 | the size table lists the aligned size of every class |
| SizeClassTable.SizeClasses.PutAlignedSize | buffer/src/main/java/io/netty/buffer/SizeClasses.java:268-269 | entry i becomes the aligned size of class i |
| SizeClassTable.SizeClasses.NewPageIdx2sizeTab | buffer/src/main/java/io/netty/buffer/SizeClasses.java:308-319 | the page table lists the page progression, one entry per page class |
| SizeClassTable.SizeClasses.PutPageEntry | buffer/src/main/java/io/netty/buffer/SizeClasses.java:313-316 | a multi-page row appends the next page size; any other row leaves the table as it was |
| SizeClassTable.SizeClasses.NewSize2idxTab | buffer/src/main/java/io/netty/buffer/SizeClasses.java:321-343 | entry j of the lookup table holds the smallest class of at least 16 * (j + 1) bytes |
| SizeClassTable.SizeClasses.FillClass | buffer/src/main/java/io/netty/buffer/SizeClasses.java:330-341 | one pass of the outer loop fills the entries of class i |
| SizeClassTable.SizeClasses.FillClassEntries | buffer/src/main/java/io/netty/buffer/SizeClasses.java:337-340 | the inner loop writes class i into its entries while they are within lookupMaxSize |
| LongLongMap.ReduceIsMod | buffer/src/main/java/io/netty/buffer/LongLongHashMap.java:114 | the repeated subtraction that models the mask is the remainder |
| LongLongMap.LowBitsCleared | buffer/src/main/java/io/netty/buffer/LongLongHashMap.java:114 | masking with length - 2 gives an even slot of the array |
| LongLongMap.Index | buffer/src/main/java/io/netty/buffer/LongLongHashMap.java:107-116 | the index of a key is an even slot no greater than the mask |
| LongLongMap.Next | buffer/src/main/java/io/netty/buffer/LongLongHashMap.java:70 | the probe step goes to the next even slot and wraps to 0 after the mask |
| LongLongMap.ClearLowBit | buffer/src/main/java/io/netty/buffer/LongLongHashMap.java:136 | clearing bit 0 gives the even number at or just below x |
| LongLongMap.MaxProbeValues | buffer/src/main/java/io/netty/buffer/LongLongHashMap.java:137 | the probe window is 3 pairs at length 32, 4 at 64 and 128, 5 at 256, 6 at 1024 |
| LongLongMap.WindowFits | buffer/src/main/java/io/netty/buffer/LongLongHashMap.java:137 | the window is shorter than the number of slot pairs, so its probes reach distinct slots |
| LongLongMap.ProbeFirst | buffer/src/main/java/io/netty/buffer/LongLongHashMap.java:48 | probe 0 of a key is its index |
| LongLongMap.ProbeStep | buffer/src/main/java/io/netty/buffer/LongLongHashMap.java:70 | one step of the walk moves from probe j to probe j + 1 |
| LongLongMap.ProbeNumOfProbe | buffer/src/main/java/io/netty/buffer/LongLongHashMap.java:48-71 | within half the length, the slot of probe j is reached by probe j and no other |
| LongLongMap.ProbeOfProbeNum | buffer/src/main/java/io/netty/buffer/LongLongHashMap.java:48-71 | every key slot is reached by some probe of every key |
| LongLongMap.SlackShrinks | buffer/src/main/java/io/netty/buffer/LongLongHashMap.java:46-73 | each expansion that a full window forces brings the walk closer to a window it cannot fill, so put terminates |
| LongLongMap.StaleAhead | buffer/src/main/java/io/netty/buffer/LongLongHashMap.java:58-65 | an older copy of the key that the clean-up loop has not reached yet lies further along the window |
| LongLongMap.PairKept | buffer/src/main/java/io/netty/buffer/LongLongHashMap.java:54-55 | writing one pair leaves every other pair as it was |
| LongLongMap.LayoutEmpty | buffer/src/main/java/io/netty/buffer/LongLongHashMap.java:30-37 | a zeroed array stores nothing |
| LongLongMap.LayoutFound | buffer/src/main/java/io/netty/buffer/LongLongHashMap.java:98-100 | a non-zero key slot is the key's own slot and holds its value right after it |
| LongLongMap.LayoutWindow | buffer/src/main/java/io/netty/buffer/LongLongHashMap.java:96-103 | a stored key sits at a probe of its own window |
| LongLongMap.LayoutMissing | buffer/src/main/java/io/netty/buffer/LongLongHashMap.java:96-104 | a key that no probe of its window holds is not stored |
| LongLongMap.LayoutRemove | buffer/src/main/java/io/netty/buffer/LongLongHashMap.java:84-86 | clearing a stored key's slot leaves the layout of the map without that key |
| LongLongMap.LayoutWrite | buffer/src/main/java/io/netty/buffer/LongLongHashMap.java:51-55 | writing the pair at the slot put stopped at gives the layout of the updated map, an older copy excepted |
| LongLongMap.LayoutStale | buffer/src/main/java/io/netty/buffer/LongLongHashMap.java:56-65 | while an older copy remains, it is the only slot out of place |
| LongLongMap.LayoutClear | buffer/src/main/java/io/netty/buffer/LongLongHashMap.java:60-62 | clearing the older copy restores the full layout |
| LongLongMap.PassOver | buffer/src/main/java/io/netty/buffer/LongLongHashMap.java:48-71 | passing a slot taken by another key keeps the stored key ahead of the walk, and counts one more distinct key in the window |
| LongLongMap.PutTarget | buffer/src/main/java/io/netty/buffer/LongLongHashMap.java:50-53 | where put's walk stops, the slot holds the key and its value, or is empty with any stored copy further along |
| LongLongMap.RestrictStep | buffer/src/main/java/io/netty/buffer/LongLongHashMap.java:125-131 | reading slot pair i adds its pair exactly when it is not empty |
| LongLongMap.StoredRestrict | buffer/src/main/java/io/netty/buffer/LongLongHashMap.java:125-131 | the pairs read from the first n slot pairs are the stored pairs that sit there |
| LongLongMap.StoredWithin | buffer/src/main/java/io/netty/buffer/LongLongHashMap.java:125-131 | reading every slot pair gives back exactly the stored map |
| LongLongMap.RestrictAll | buffer/src/main/java/io/netty/buffer/LongLongHashMap.java:125-131 | every stored pair sits somewhere in the array |
| LongLongMap.LongLongHashMap.constructor | buffer/src/main/java/io/netty/buffer/LongLongHashMap.java:30-37 | a new map has 32 slots, mask 30 and window 3, stores nothing, and answers emptyVal for every key including 0 |
| LongLongMap.LongLongHashMap.ComputeMaskAndProbe | buffer/src/main/java/io/netty/buffer/LongLongHashMap.java:134-138 | the mask is the length minus 2 and the window the floor of ln(length); nothing else changes |
| LongLongMap.LongLongHashMap.Locate | buffer/src/main/java/io/netty/buffer/LongLongHashMap.java:81-89 | the window walk finds a key exactly when it is stored, and then at its own slot |
| LongLongMap.LongLongHashMap.Get | buffer/src/main/java/io/netty/buffer/LongLongHashMap.java:92-105 | the value of key 0 is zeroVal; any other key gives its stored value or emptyVal |
| LongLongMap.LongLongHashMap.Remove | buffer/src/main/java/io/netty/buffer/LongLongHashMap.java:76-90 | key 0 resets zeroVal and leaves the array alone; another stored key loses only its key slot; a missing key changes nothing; every other key keeps its answer |
| LongLongMap.LongLongHashMap.Vacate | buffer/src/main/java/io/netty/buffer/LongLongHashMap.java:84-86 | emptying a stored key's slot removes exactly that key from the map |
| LongLongMap.LongLongHashMap.Walk | buffer/src/main/java/io/netty/buffer/LongLongHashMap.java:48-71 | put's walk stops at the key or at an empty slot within the window, or reaches the end of a window full of other keys |
| LongLongMap.LongLongHashMap.Put | buffer/src/main/java/io/netty/buffer/LongLongHashMap.java:39-74 | the previous answer for the key is returned; the key then answers value and every other key keeps its answer; key 0 leaves the array alone; the array only grows |
| LongLongMap.LongLongHashMap.Insert | buffer/src/main/java/io/netty/buffer/LongLongHashMap.java:46-73 | a key other than 0 ends up stored with its value, expanding as often as its window is full |
| LongLongMap.LongLongHashMap.WriteAndNerf | buffer/src/main/java/io/netty/buffer/LongLongHashMap.java:51-66 | writing at the slot the walk stopped at and clearing any older copy stores the pair and returns the previous value |
| LongLongMap.LongLongHashMap.Nerf | buffer/src/main/java/io/netty/buffer/LongLongHashMap.java:56-65 | the clean-up loop clears the older copy if there is one and returns its value, restoring the layout |
| LongLongMap.LongLongHashMap.ClearStale | buffer/src/main/java/io/netty/buffer/LongLongHashMap.java:60-63 | the copy found is the older copy; its key slot alone is emptied and its value is returned |
| LongLongMap.LongLongHashMap.FindStale | buffer/src/main/java/io/netty/buffer/LongLongHashMap.java:58-65 | the search after probe i finds a copy of the key whenever an older copy exists |
| LongLongMap.LongLongHashMap.StorePair | buffer/src/main/java/io/netty/buffer/LongLongHashMap.java:53-55 | the pair goes to its key slot and value slot, and nothing else in the array changes |
| LongLongMap.LongLongHashMap.Grow | buffer/src/main/java/io/netty/buffer/LongLongHashMap.java:122-124 | a zeroed array of twice the length replaces the old one, with mask and window recomputed |
| LongLongMap.LongLongHashMap.Expand | buffer/src/main/java/io/netty/buffer/LongLongHashMap.java:121-132 | the array at least doubles and the map stores exactly what it stored before |
| LongLongMap.LongLongHashMap.Reinsert | buffer/src/main/java/io/netty/buffer/LongLongHashMap.java:126-130 | one step of expand's loop puts back the pair of one old slot |
| LongLongMap.Session | buffer/src/main/java/io/netty/buffer/LongLongHashMap.java:39-105 | on a map whose missing value is -1: put returns the replaced value, key 0 is kept apart, and a removed key answers -1 |

## Left out

- SizeClassTable.SizeClasses.Size2SizeIdx: requires `size >= 0`. A negative size reaches the lookup table at a negative index and throws there; the exception is not modelled.
- SizeClassTable.SizeClasses.NormalizeSize: requires `0 <= size <= 2^30`. A negative size fails as in size2SizeIdx. Above 2^31 - 2^28, `size + delta_mask` wraps around in 32-bit arithmetic; sizes above 2^30 are not modelled.
- SizeClassTable.SizeClasses.Pages2PageIdxCompute, SizeClassTable.SizeClasses.Pages2PageIdx and SizeClassTable.SizeClasses.Pages2PageIdxFloor: require `pages >= 1` and `pages * pageSize < 2^31`. For 0 pages the source takes log2 of -1. Once `pages << pageShifts` wraps around, the source compares a wrapped value with the chunk size. Neither is modelled.
- SizeClassMath.SizeIdx2SizeCompute and SizeClassMath.PageIdx2SizeCompute: the results are unbounded integers. The 32-bit overflow for indices past the table is not modelled.
- SizeClassTable.ValidConfig and SizeClassTable.SizeClasses.constructor: the model accepts only configurations that meet all of these:
  - a page of 2^pageShifts bytes with pageShifts >= 12;
  - a power-of-two chunk of at most 2^30 bytes;
  - no alignment, or a power-of-two alignment of at most a page and at most an eighth of the chunk.

  The source checks none of these itself.
  - With an alignment that is not a power of two, `size & (alignment - 1)` is not a remainder, so alignSizeIfNeeded does not round up.
  - Larger alignments cut the table short (see Findings).
- The `short` casts of the row fields are not modelled. Every field fits a `short` in the modelled configurations.
- The `System.out.println()` calls in the constructor and newSizeClass (SizeClasses.java:146, 200 and 214) print empty lines and are dropped.
- The Java `assert` statements are not modelled as run-time checks. Each is a lemma instead: SizeClassTable.LastClassIsChunk for the one in the constructor, SizeClassTable.SizeClasses.NormalizeAgrees for the one in normalizeSize.
- LongLongMap.MaxProbe and LongLongMap.LongLongHashMap.ComputeMaskAndProbe: `(int) Math.log(length)` is modelled as floor(e * ln 2) for a length of 2^e, with ln 2 replaced by the 15-digit rational LN2_NUM / LN2_DEN. The model does not prove that this rational agrees with the floating-point logarithm. LongLongMap.MaxProbeValues pins the window for the lengths 32 to 1024.
- LongLongMap.Mix: the murmur3 finaliser is written out on unsigned 64-bit patterns. No property of the hash's distribution is stated. The map's contracts hold for any hash.
- LongLongMap.LongLongHashMap.Expand: the new length `array.length * 2` is an unbounded integer. An array length past the Java limit is not modelled.
- LongLongMap.LongLongHashMap.Remove: the value slot of a removed key keeps its old value, as in the source. The model states this (odd slots are unchanged) but attaches no meaning to such a stale value.
- put and expand are split into helper methods: Walk, WriteAndNerf, Nerf, FindStale, ClearStale, StorePair, Grow and Reinsert. Each has its own contract. Together they run the same statements in the same order as the source.
- Thread safety: neither class is thread-safe in the source, and the model is sequential.
- SizeClasses implements the interface SizeClassesMetric. The interface itself is not part of this model.

## Findings

| source | as written | input that shows it | evidently intended | confidence | as-written member | corrected member |
|---|---|---|---|---|---|---|
| buffer/src/main/java/io/netty/buffer/SizeClasses.java:152-161 | The generation loops stop at the first class whose aligned size reaches chunkSize. size2SizeIdx (SizeClasses.java:402-414) computes classes from the unaligned progression. With an alignment above an eighth of the chunk, an earlier class already aligns up to the chunk, so the table ends before the chunk's own class. | pageShifts 13, chunkSize 32768, alignment 8192: class 38 (28672 bytes) aligns to 32768, so only 39 classes are generated. size2SizeIdx(32768) is beyond lookupMaxSize and computes class 39, which equals nSizes, the answer reserved for "larger than a chunk". The constructor's assert still holds, because normalMaxSize is 32768. | Every size up to the chunk has its class in the table, and the chunk's class is the last one generated. | not executed | SizeClassTable.LargeAlignmentCutsTable | SizeClassTable.FullTableGenerated |

The model uses the corrected behaviour. SizeClassTable.ValidConfig admits only alignments of at most an eighth of the chunk. For those, SizeClassTable.FullTableGenerated proves that the loops emit every class up to the chunk.
