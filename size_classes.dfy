/** The size-class table object: a constructor that fills the class rows and
    three lookup arrays in loops, and the queries that translate between
    request sizes, class indices and page indices through those arrays. */
module SizeClassTable {
  import opened Bits
  import opened SizeClassMath
  import opened SizeClassLayout

  /** The configurations modelled: a page of 2^pageShifts >= 4096 bytes, a
      power-of-two chunk of at least one page and at most 2^30 bytes (the
      largest power of two an int holds), and no alignment or a power-of-two
      alignment of at most a page and at most an eighth of the chunk. */
  predicate ValidConfig(pageSize: int, pageShifts: int, chunkSize: int, alignment: int) {
    12 <= pageShifts && pageSize == Pow2(pageShifts)
    && IsPow2(chunkSize) && pageShifts <= Log2(chunkSize) <= 30 && chunkSize <= 0x4000_0000
    && PageAlignment(alignment, pageShifts)
    && (alignment > 0 ==> 8 * alignment <= chunkSize)
  }

  /** The chunk holds at least one page and no more than 2^30 bytes. */
  lemma ConfigBounds(pageSize: int, pageShifts: int, chunkSize: int, alignment: int)
    requires ValidConfig(pageSize, pageShifts, chunkSize, alignment)
    ensures 4096 <= pageSize <= chunkSize <= Pow2(30)
    ensures alignment > 0 ==> pageSize % alignment == 0 && chunkSize % alignment == 0
  {
    var c := Log2(chunkSize);
    Pow2Monotone(pageShifts, c);
    Pow2Monotone(c, 30);
    Pow2Monotone(12, pageShifts);
    Pow2Values();
    if alignment > 0 {
      Pow2IsPow2(pageShifts);
      Pow2Divides(alignment, pageSize);
      Pow2Divides(alignment, chunkSize);
    }
  }

  /** floor is the largest index of the progression at scale 2^base whose
      size does not exceed v. */
  ghost predicate IsFloorIndex(base: nat, v: int, i: nat) {
    ScaledSize(base, i) <= v < ScaledSize(base, i + 1)
  }

  /** The last class generated is the chunk: class 4c - 21 is 2^c bytes,
      and every class before it stays below 2^c after alignment. */
  lemma ChunkBoundary(i: nat, c: nat, alignment: int)
    requires c >= 12 && i <= 4 * c - 21
    requires alignment <= 0 || (IsPow2(alignment) && 8 * alignment <= Pow2(c))
    ensures AlignSizeIfNeeded(ClassSize(i), alignment) < Pow2(c) <==> i < 4 * c - 21
    ensures i == 4 * c - 21 ==> AlignSizeIfNeeded(ClassSize(i), alignment) == Pow2(c)
  {
    if i < 4 * c - 21 {
      BelowChunk(i, c, alignment);
    } else {
      ChunkAligned(c, alignment);
    }
  }

  /** Every class before the chunk, aligned, stays below the chunk. */
  lemma BelowChunk(i: nat, c: nat, alignment: int)
    requires c >= 12 && i < 4 * c - 21
    requires alignment <= 0 || (IsPow2(alignment) && 8 * alignment <= Pow2(c))
    ensures AlignSizeIfNeeded(ClassSize(i), alignment) < Pow2(c)
  {
    var e := Pow2(c - 3);
    assert ClassSize(i) <= 7 * e by {
      ClassSizeBelowPow2(c);
      ClassSizeIsScaled(i);
      ClassSizeIsScaled(4 * c - 22);
      ScaledMonotoneLe(LOG2_QUANTUM, i, 4 * c - 22);
    }
    assert Pow2(c) == 8 * e by {
      Pow2Values();
      Pow2Add(3, c - 3);
    }
  }

  /** The chunk class, 2^c bytes, is left alone by the alignment. */
  lemma ChunkAligned(c: nat, alignment: int)
    requires c >= 12
    requires alignment <= 0 || (IsPow2(alignment) && 8 * alignment <= Pow2(c))
    ensures AlignSizeIfNeeded(ClassSize(4 * c - 21), alignment) == Pow2(c)
  {
    ClassSizePow2(c);
    if alignment > 0 {
      Pow2IsPow2(c);
      Pow2Divides(alignment, Pow2(c));
    }
    AlignMultiple(ClassSize(4 * c - 21), alignment);
  }

  /** What the generation loops need of a valid configuration. */
  lemma ChunkFacts(pageShifts: int, chunkSize: int, alignment: int)
    requires ValidConfig(if pageShifts >= 0 then Pow2(pageShifts) else 0, pageShifts, chunkSize, alignment)
    ensures 12 <= pageShifts <= Log2(chunkSize) <= 30 && chunkSize == Pow2(Log2(chunkSize))
    ensures alignment <= 0 || (IsPow2(alignment) && 8 * alignment <= Pow2(Log2(chunkSize)))
    ensures Pow2(LOG2_SIZE_CLASS_GROUP) == 4
  {
    Pow2Values();
  }

  /** The class generated last, 4c - 21, is the chunk itself. */
  lemma LastClassIsChunk(nSizes: int, c: nat, alignment: int)
    requires c >= 12 && nSizes == 4 * c - 20
    requires alignment <= 0 || (IsPow2(alignment) && 8 * alignment <= Pow2(c))
    ensures AlignSizeIfNeeded(ClassSize(nSizes - 1), alignment) == Pow2(c)
  {
    ChunkBoundary(nSizes - 1, c, alignment);
  }

  /** The number of classes the constructor's generation loops emit for a
      chunk of chunkSize bytes: the first group whole, then class after
      class up to the first whose aligned size reaches chunkSize, which is
      the last one emitted. */
  ghost predicate GeneratesClasses(n: nat, chunkSize: int, alignment: int)
    requires alignment <= 0 || IsPow2(alignment)
  {
    n >= 4 && AlignSizeIfNeeded(ClassSize(n - 1), alignment) >= chunkSize
    && forall i :: 3 <= i < n - 1 ==> AlignSizeIfNeeded(ClassSize(i), alignment) < chunkSize
  }

  /** With an alignment of at most an eighth of the chunk the loops emit
      classes 0 .. 4c - 21, the last being the chunk itself, so every size
      up to the chunk has its class among them. */
  lemma FullTableGenerated(c: nat, alignment: int)
    requires c >= 12
    requires alignment <= 0 || (IsPow2(alignment) && 8 * alignment <= Pow2(c))
    ensures GeneratesClasses(4 * c - 20, Pow2(c), alignment)
    ensures forall s :: 1 <= s <= Pow2(c) ==> CeilIndex(LOG2_QUANTUM, s) < 4 * c - 20
  {
    forall i | 3 <= i <= 4 * c - 21
      ensures AlignSizeIfNeeded(ClassSize(i), alignment) < Pow2(c) <==> i < 4 * c - 21
    {
      ChunkBoundary(i, c, alignment);
    }
    forall s | 1 <= s <= Pow2(c)
      ensures CeilIndex(LOG2_QUANTUM, s) < 4 * c - 20
    {
      ScaledPow2(c);
      CeilIndexCorrect(LOG2_QUANTUM, s);
      CeilIndexBound(LOG2_QUANTUM, s, CeilIndex(LOG2_QUANTUM, s), 4 * c - 21);
    }
  }

  /** An alignment above an eighth of the chunk cuts the table short.  With
      8 KiB pages, a 32 KiB chunk and an 8 KiB alignment, class 38 (28672
      bytes) already aligns up to the chunk, so the loops emit 39 classes;
      a request of exactly the chunk is beyond lookupMaxSize, and the class
      size2SizeIdx computes for it is 39, the count of classes, which
      callers read as "larger than a chunk". */
  lemma LargeAlignmentCutsTable()
    ensures IsPow2(Pow2(13))
    ensures GeneratesClasses(39, Pow2(15), Pow2(13))
    ensures AlignSizeIfNeeded(Pow2(LOG2_MAX_LOOKUP_SIZE), Pow2(13)) < Pow2(15)
    ensures CeilIndex(LOG2_QUANTUM, AlignSizeIfNeeded(Pow2(15), Pow2(13))) == 39
  {
    SmallChunkPowers();
    CutTableClasses();
    assert AlignSizeIfNeeded(Pow2(15), Pow2(13)) == Pow2(15) by {
      Pow2IsPow2(13);
      AlignMultiple(Pow2(15), Pow2(13));
    }
    ChunkClass15();
  }

  /** With an 8 KiB alignment class 38, 28672 bytes, is the first to align
      up to 32 KiB. */
  lemma CutTableClasses()
    ensures IsPow2(8192) && GeneratesClasses(39, 32768, 8192)
  {
    ClassesBelowChunk15();
    assert AlignSizeIfNeeded(ClassSize(38), 8192) == 32768 by {
      Class38();
    }
  }

  /** The page, chunk and lookup bound of the example above. */
  lemma SmallChunkPowers()
    ensures Pow2(13) == 8192 && Pow2(15) == 32768 && Pow2(LOG2_MAX_LOOKUP_SIZE) == 4096
  {
    Pow2Values();
    Pow2Succ(12);
    Pow2Succ(13);
    Pow2Succ(14);
  }

  /** Class 38 is 7 * 4096 bytes. */
  lemma Class38()
    ensures ClassSize(38) == 28672
  {
    ClassSizeBelowPow2(15);
    Pow2Values();
  }

  /** 32 KiB is class 39. */
  lemma ChunkClass15()
    ensures CeilIndex(LOG2_QUANTUM, Pow2(15)) == 39
  {
    ScaledPow2(15);
    CeilIndexCorrect(LOG2_QUANTUM, Pow2(15));
    CeilIndexOfClass(LOG2_QUANTUM, 39);
    CeilIndexUnique(LOG2_QUANTUM, Pow2(15), 39, CeilIndex(LOG2_QUANTUM, Pow2(15)));
  }

  /** Classes 3 .. 37 are at most 24576 bytes, which an 8 KiB alignment
      keeps below 32 KiB. */
  lemma ClassesBelowChunk15()
    ensures IsPow2(8192)
    ensures forall i :: 3 <= i < 38 ==> AlignSizeIfNeeded(ClassSize(i), 8192) < 32768
  {
    Pow2Values();
    Pow2IsPow2(13);
    assert Pow2(13) == 8192;
    ClassSizeIsScaled(37);
    assert Units(37) == Pow2(8) * 6;
    forall i | 3 <= i < 38
      ensures AlignSizeIfNeeded(ClassSize(i), 8192) < 32768
    {
      ClassSizeIsScaled(i);
      ScaledMonotoneLe(LOG2_QUANTUM, i, 37);
      AlignBelow(ClassSize(i), 24576, 8192);
    }
  }

  /** The sizes of the first twelve classes. */
  const FIRST_CLASSES: seq<int> := [16, 32, 48, 64, 80, 96, 112, 128, 160, 192, 224, 256]

  /** 16 to 64 bytes in steps of 16, then four classes to each doubling. */
  lemma FirstClassSizes()
    ensures forall i :: 0 <= i < 12 ==> ClassSize(i) == FIRST_CLASSES[i]
  {
    forall i | 0 <= i < 12
      ensures ClassSize(i) == FIRST_CLASSES[i]
    {
      ClassSizeIsScaled(i);
      Pow2Values();
      if i >= 8 {
        assert Units(i) == 2 * (i - 3);
      } else if i >= 4 {
        assert Units(i) == i + 1;
      }
    }
  }

  /** 15 bytes fit the first class, 65 the fifth and 129 the ninth. */
  lemma SmallCeilExamples()
    ensures IsCeilIndex(LOG2_QUANTUM, 15, 0)
    ensures IsCeilIndex(LOG2_QUANTUM, 65, 4) && IsCeilIndex(LOG2_QUANTUM, 129, 8)
  {
    Pow2Values();
    assert Units(3) == 4 && Units(4) == 5 && Units(7) == 8 && Units(8) == 10;
  }

  /** `x << LOG2_SIZE_CLASS_GROUP`. */
  lemma GroupShift(x: int)
    ensures x * Pow2(LOG2_SIZE_CLASS_GROUP) == 4 * x
  {
    Pow2Values();
  }

  /** The row the inner generation loop emits for step nDelta of the group
      with base 2^log2Group is the closed-form row n. */
  lemma GroupRow(n: nat, log2Group: nat, nDelta: nat, pageShifts: nat)
    requires log2Group >= 6 && 1 <= nDelta <= 4 && n == 4 * (log2Group - 5) + nDelta - 1
    ensures NewSizeClass(n, log2Group, log2Group - 2, nDelta, pageShifts) == Row(n, pageShifts)
  {
    DivModUnique(n, 4, log2Group - 5, nDelta - 1);
  }

  /** The log2Delta of a stored row is that of its index. */
  lemma RowAt(rows: array<SizeClass>, n: nat, pageShifts: nat, i: nat)
    requires i < n <= rows.Length && rows[..n] == Rows(n, pageShifts)
    ensures rows[i] == Row(i, pageShifts)
  {
    assert rows[..n][i] == rows[i];
    RowsAt(n, pageShifts, i);
  }

  lemma RowDeltaAt(rows: array<SizeClass>, n: nat, pageShifts: nat, i: nat)
    requires i < n <= rows.Length && rows[..n] == Rows(n, pageShifts)
    ensures rows[i].log2Delta == Log2DeltaAt(i)
  {
    assert rows[..n][i] == rows[i];
    RowsAt(n, pageShifts, i);
  }

  /** Only a whole number of groups lies between two group starts. */
  lemma FourSteps(a: int, b: int, k: int)
    requires 0 <= k <= 4 && 4 * a + k == 4 * b
    ensures k == 0 || k == 4
  {
    if a < b {
      assert 4 * a + 4 <= 4 * b;
    }
  }

  /** The first n closed-form rows, in index order. */
  function Rows(n: nat, pageShifts: nat): (r: seq<SizeClass>)
    ensures |r| == n
  {
    if n == 0 then [] else Rows(n - 1, pageShifts) + [Row(n - 1, pageShifts)]
  }

  lemma RowsSnoc(n: nat, pageShifts: nat)
    ensures Rows(n + 1, pageShifts) == Rows(n, pageShifts) + [Row(n, pageShifts)]
  {
  }

  /** The aligned size of row n is class n's size aligned. */
  /** s lists the aligned sizes of the first |s| classes. */
  ghost predicate AlignedSizes(s: seq<int>, alignment: int)
    requires alignment <= 0 || IsPow2(alignment)
  {
    forall i :: 0 <= i < |s| ==> s[i] == AlignSizeIfNeeded(ClassSize(i), alignment)
  }

  lemma AlignedSizesSnoc(s: seq<int>, x: int, alignment: int)
    requires alignment <= 0 || IsPow2(alignment)
    requires AlignedSizes(s, alignment) && x == AlignSizeIfNeeded(ClassSize(|s|), alignment)
    ensures AlignedSizes(s + [x], alignment)
  {
  }

  lemma SizeOfRow(n: nat, pageShifts: nat, alignment: int)
    requires alignment <= 0 || IsPow2(alignment)
    ensures SizeOf(Row(n, pageShifts), alignment) == AlignSizeIfNeeded(ClassSize(n), alignment)
  {
  }

  /** Entry i of the first n rows is row i. */
  lemma {:induction false} RowsAt(n: nat, pageShifts: nat, i: nat)
    requires i < n
    ensures Rows(n, pageShifts)[i] == Row(i, pageShifts)
  {
    if i < n - 1 {
      RowsAt(n - 1, pageShifts, i);
    }
  }

  /** The rows of the first group are the closed-form rows 0..3. */
  lemma FirstGroupRow(n: nat, pageShifts: nat)
    requires n < 4
    ensures NewSizeClass(n, LOG2_QUANTUM, LOG2_QUANTUM, n, pageShifts) == Row(n, pageShifts)
  {
  }

  /** lookupMaxSize is 4096 bytes aligned: a multiple of 16 of at least 16
      bytes ... */
  lemma LookupMaxMultiple(alignment: int)
    requires alignment <= 0 || IsPow2(alignment)
    ensures 16 <= AlignSizeIfNeeded(Pow2(LOG2_MAX_LOOKUP_SIZE), alignment)
    ensures AlignSizeIfNeeded(Pow2(LOG2_MAX_LOOKUP_SIZE), alignment) % 16 == 0
  {
    Pow2Values();
    if alignment >= 16 {
      Pow2IsPow2(4);
      Pow2Divides(16, alignment);
      DividesThrough(AlignSizeIfNeeded(4096, alignment), 16, alignment);
    } else if alignment > 0 {
      Pow2IsPow2(12);
      Pow2Divides(alignment, 4096);
      AlignMultiple(4096, alignment);
    }
  }

  /** ... within a chunk of 2^c bytes. */
  lemma LookupMaxInChunk(c: nat, alignment: int)
    requires c >= 12 && (alignment <= 0 || (IsPow2(alignment) && alignment <= Pow2(c)))
    ensures AlignSizeIfNeeded(Pow2(LOG2_MAX_LOOKUP_SIZE), alignment) <= Pow2(c)
  {
    if alignment > 0 {
      Pow2IsPow2(c);
      Pow2Divides(alignment, Pow2(c));
    }
    Pow2Monotone(LOG2_MAX_LOOKUP_SIZE, c);
    AlignBelow(Pow2(LOG2_MAX_LOOKUP_SIZE), Pow2(c), alignment);
  }

  /** What newSize2idxTab needs of the counted lookupMaxSize. */
  lemma LookupMaxBounds(c: nat, alignment: int, nSizes: int)
    requires c >= 12 && nSizes == 4 * c - 20
    requires alignment <= 0 || (IsPow2(alignment) && alignment <= Pow2(c))
    ensures nSizes >= 28
    ensures 16 <= LookupMax(nSizes, alignment) <= ScaledSize(LOG2_QUANTUM, nSizes - 1)
    ensures LookupMax(nSizes, alignment) % 16 == 0
  {
    LookupMaxIsPageLookup(nSizes, alignment);
    LookupMaxMultiple(alignment);
    LookupMaxInChunk(c, alignment);
    LastClassScaled(c, nSizes);
  }

  lemma LastClassScaled(c: nat, nSizes: int)
    requires c >= 6 && nSizes == 4 * c - 20
    ensures ScaledSize(LOG2_QUANTUM, nSizes - 1) == Pow2(c)
  {
    ScaledPow2(c);
  }

  lemma LookupMaxIsPageLookup(n: nat, alignment: int)
    requires n >= 28 && (alignment <= 0 || IsPow2(alignment))
    ensures LookupMax(n, alignment) == AlignSizeIfNeeded(Pow2(LOG2_MAX_LOOKUP_SIZE), alignment)
  {
    ClassSizePow2(LOG2_MAX_LOOKUP_SIZE);
  }

  /** A lookup entry read for size s is the ceiling class of s itself, the
      class the computation finds. */
  lemma EntryIsCeilIndex(s: int, e: int)
    requires s >= 1 && EntryCeil((s - 1) / 16, e)
    ensures IsCeilIndex(LOG2_QUANTUM, s, e) && e == CeilIndex(LOG2_QUANTUM, s)
  {
    CeilIndexQuantum(s, e);
    CeilIndexCorrect(LOG2_QUANTUM, s);
    CeilIndexUnique(LOG2_QUANTUM, s, e, CeilIndex(LOG2_QUANTUM, s));
  }

  /** The class chosen for an aligned size is itself aligned. */
  lemma AlignedCeil(s: nat, alignment: int)
    requires s >= 1 && (alignment <= 0 || IsPow2(alignment))
    requires alignment > 0 ==> s % alignment == 0
    ensures alignment > 0 ==> ScaledSize(LOG2_QUANTUM, CeilIndex(LOG2_QUANTUM, s)) % alignment == 0
  {
    if alignment > 0 {
      CeilIndexAligned(s, alignment);
    }
  }

  /** At most one index is the floor of a given size. */
  lemma FloorIndexUnique(base: nat, v: int, i: nat, j: nat)
    requires IsFloorIndex(base, v, i) && IsFloorIndex(base, v, j)
    ensures i == j
  {
    if i < j {
      ScaledMonotoneLe(base, i + 1, j);
    } else if j < i {
      ScaledMonotoneLe(base, j + 1, i);
    }
  }

  /** From the ceiling index to the floor index: the same index when its
      size is exact, the one below when it overshoots. */
  lemma CeilToFloor(base: nat, v: int, i: nat, size: int)
    requires IsCeilIndex(base, v, i) && v >= Pow2(base) && size == ScaledSize(base, i)
    ensures size > v ==> i >= 1 && IsFloorIndex(base, v, i - 1)
    ensures size <= v ==> IsFloorIndex(base, v, i)
  {
    ScaledMonotone(base, i, i + 1);
  }

  /** The last page class is the chunk: chunkSize / pageSize pages. */
  lemma LastPageIsChunk(c: nat, pageShifts: nat, nSizes: nat, nPSizes: nat)
    requires 12 <= pageShifts <= c && nSizes == 4 * c - 20 && nPSizes == PageCount(nSizes, pageShifts - 4)
    ensures nPSizes >= 1 && ScaledSize(pageShifts, nPSizes - 1) == Pow2(c)
  {
    if c == pageShifts + 1 {
      Pow2Succ(pageShifts);
    } else if c == pageShifts + 2 {
      Pow2Succ(pageShifts);
      Pow2Succ(pageShifts + 1);
    } else if c > pageShifts + 2 {
      LastPageGroup(c - pageShifts - 2, pageShifts);
    }
  }

  lemma LastPageGroup(h: nat, p: nat)
    requires h >= 1 && p >= 12
    ensures PageCount(4 * (p + h + 2) - 20, p - 4) == 4 * h + 4
    ensures ScaledSize(p, 4 * h + 3) == Pow2(p + h + 2)
  {
    UnitsAtGroup(h, 3);
    var A := Pow2(h - 1);
    assert Pow2(h + 2) == 8 * A by {
      Pow2Values();
      Pow2Add(3, h - 1);
    }
    Pow2Add(p, h + 2);
    MulRegroup(Pow2(p), A, 8);
  }

  /** What the queries use of a valid configuration and its counters. */
  lemma CountersFacts(pageSize: int, pageShifts: int, chunkSize: int, alignment: int,
                      nSizes: int, nPSizes: int, lookupMaxSize: int)
    requires ValidConfig(pageSize, pageShifts, chunkSize, alignment)
    requires nSizes == 4 * Log2(chunkSize) - 20 && nPSizes == PageCount(nSizes, pageShifts - 4)
    requires lookupMaxSize == LookupMax(nSizes, alignment)
    ensures 12 <= pageShifts <= Log2(chunkSize) <= 30
    ensures pageSize == Pow2(pageShifts)
    ensures alignment > 0 ==> chunkSize % alignment == 0
    ensures nSizes >= 28 && nPSizes >= 1
    ensures 16 <= lookupMaxSize <= chunkSize && lookupMaxSize % 16 == 0
    ensures Pow2(LOG2_QUANTUM) == 16
    ensures chunkSize <= 0x4000_0000
  {
    var c := Log2(chunkSize);
    ChunkFacts(pageShifts, chunkSize, alignment);
    ConfigBounds(pageSize, pageShifts, chunkSize, alignment);
    Pow2IntRange();
    Pow2Monotone(pageShifts, c);
    LookupMaxBounds(c, alignment, nSizes);
    LastClassScaled(c, nSizes);
    LastPageIsChunk(c, pageShifts, nSizes, nPSizes);
    Pow2Values();
  }

  /** The counters for 8 KiB pages and a 16 MiB chunk. */
  lemma EightKiBCounters()
    ensures PageCount(76, 9) == 40 && SubpageCount(76, 13) == 35 && LastSubpage(76, 13) == 34
    ensures LookupMax(76, 0) == 4096
  {
    ClassSizePow2(12);
    Pow2Values();
  }

  /** Every size of the progression is found as its own ceiling index. */
  lemma OwnCeilIndex(base: nat, i: nat)
    ensures ScaledSize(base, i) >= 1 && CeilIndex(base, ScaledSize(base, i)) == i
  {
    CeilIndexOfClass(base, i);
    if i > 0 {
      UnitsMonotone(0, i);
    }
    CeilIndexCorrect(base, ScaledSize(base, i));
    CeilIndexUnique(base, ScaledSize(base, i), i, CeilIndex(base, ScaledSize(base, i)));
  }

  /** ... and as its own floor index. */
  lemma OwnFloorIndex(base: nat, i: nat, j: nat)
    requires IsFloorIndex(base, ScaledSize(base, i), j)
    ensures j == i
  {
    ScaledMonotone(base, i, i + 1);
    FloorIndexUnique(base, ScaledSize(base, i), i, j);
  }

  /** A class whose size is aligned: aligning it, and aligning it again,
      changes nothing, and its ceiling index is itself. */
  lemma AlignedClass(i: nat, alignment: int)
    requires alignment <= 0 || IsPow2(alignment)
    requires alignment > 0 ==> ClassSize(i) % alignment == 0
    ensures AlignSizeIfNeeded(ClassSize(i), alignment) == ScaledSize(LOG2_QUANTUM, i) >= 1
    ensures AlignSizeIfNeeded(ScaledSize(LOG2_QUANTUM, i), alignment) == ScaledSize(LOG2_QUANTUM, i)
    ensures CeilIndex(LOG2_QUANTUM, ScaledSize(LOG2_QUANTUM, i)) == i
  {
    ClassSizeIsScaled(i);
    AlignMultiple(ClassSize(i), alignment);
    OwnCeilIndex(LOG2_QUANTUM, i);
  }

  /** Counted in pages, a byte size of whole pages has the same ceiling
      and floor in the page progression. */
  lemma PagesScale(pageShifts: nat, pages: int, i: nat)
    ensures IsCeilIndex(pageShifts, pages * Pow2(pageShifts), i) <==> IsCeilIndex(0, pages, i)
    ensures IsFloorIndex(pageShifts, pages * Pow2(pageShifts), i) <==> IsFloorIndex(0, pages, i)
  {
    var P := Pow2(pageShifts);
    ScaleCompare(P, pages, Units(i));
    ScaleCompare(P, Units(i), pages);
    ScaleCompare(P, pages, Units(i + 1));
    if i > 0 {
      ScaleCompare(P, pages, Units(i - 1));
    }
  }

  /** Scaling by a positive factor keeps the order. */
  lemma ScaleCompare(P: int, a: int, b: int)
    requires P >= 1
    ensures a * P < P * b <==> a < b
    ensures a * P <= P * b <==> a <= b
  {
    if a < b {
      MulStrict(P, a, b);
    } else {
      MulMonotone(P, b, a);
    }
  }

  /** A page class's own number of pages has that class as both its
      ceiling and its floor. */
  lemma OwnPageIndex(i: nat, ceil: nat, floor: nat)
    requires IsCeilIndex(0, Units(i), ceil) && IsFloorIndex(0, Units(i), floor)
    ensures ceil == i && floor == i
  {
    CeilIndexOfClass(0, i);
    CeilIndexUnique(0, Units(i), i, ceil);
    OwnFloorIndex(0, i, floor);
  }

  /** A page class's size is its number of pages times the page size. */
  lemma ScaledCommutes(pageShifts: nat, i: nat, pageSize: int)
    requires pageSize == Pow2(pageShifts)
    ensures Units(i) * pageSize == ScaledSize(pageShifts, i)
  {
    MulRegroup(1, Units(i), pageSize);
  }

  class SizeClasses {
    const pageSize: int
    const pageShifts: int
    const chunkSize: int
    const directMemoryCacheAlignment: int

    const nSizes: int
    const nSubpages: int
    const nPSizes: int
    const lookupMaxSize: int
    const smallMaxSizeIdx: int

    const pageIdx2sizeTab: array<int>
    /** Index to size, for every class. */
    const sizeIdx2sizeTab: array<int>
    /** Entry j: the class for sizes in (16 * j, 16 * (j + 1)], up to lookupMaxSize. */
    const size2idxTab: array<int>
    /** The rows [index, log2Group, log2Delta, nDelta, isMultiPageSize,
        isSubPage, log2DeltaLookup]. */
    const sizeClasses: array<SizeClass>

    /** What construction establishes: the rows are the closed-form rows,
        the counters count them, and each lookup array holds what its
        builder promises. */
    ghost predicate Valid()
      reads sizeClasses, sizeIdx2sizeTab, pageIdx2sizeTab, size2idxTab
    {
      ValidConfig(pageSize, pageShifts, chunkSize, directMemoryCacheAlignment)
      && nSizes == 4 * Log2(chunkSize) - 20
      && sizeClasses.Length == 4 * (Log2(chunkSize) - 1)
      && sizeClasses[..nSizes] == Rows(nSizes, pageShifts)
      && nPSizes == PageCount(nSizes, pageShifts - 4)
      && nSubpages == SubpageCount(nSizes, pageShifts)
      && smallMaxSizeIdx == LastSubpage(nSizes, pageShifts)
      && lookupMaxSize == LookupMax(nSizes, directMemoryCacheAlignment)
      && sizeIdx2sizeTab.Length == nSizes
      && AlignedSizes(sizeIdx2sizeTab[..], directMemoryCacheAlignment)
      && pageIdx2sizeTab.Length == nPSizes
      && PageProgression(pageIdx2sizeTab[..], pageShifts)
      && size2idxTab.Length == lookupMaxSize / 16
      && CeilTable(size2idxTab[..])
    }

    constructor (pageSize: int, pageShifts: int, chunkSize: int, directMemoryCacheAlignment: int)
      requires ValidConfig(pageSize, pageShifts, chunkSize, directMemoryCacheAlignment)
      ensures Valid()
      ensures this.pageSize == pageSize && this.pageShifts == pageShifts
      ensures this.chunkSize == chunkSize && this.directMemoryCacheAlignment == directMemoryCacheAlignment
    {
      var rows, n, smallMax, lookupMax, nP, nSub := BuildRows(pageShifts, chunkSize, directMemoryCacheAlignment);
      var idx2Size := NewIdx2SizeTab(rows, n, directMemoryCacheAlignment, pageShifts);
      var pageIdx2Size := NewPageIdx2sizeTab(rows, n, nP, directMemoryCacheAlignment, pageShifts);
      var size2Idx := NewSize2idxTab(lookupMax, rows, n, pageShifts);
      this.sizeClasses := rows;
      this.smallMaxSizeIdx := smallMax;
      this.lookupMaxSize := lookupMax;
      this.nPSizes := nP;
      this.nSubpages := nSub;
      this.nSizes := n;
      this.pageSize := pageSize;
      this.pageShifts := pageShifts;
      this.chunkSize := chunkSize;
      this.directMemoryCacheAlignment := directMemoryCacheAlignment;
      this.sizeIdx2sizeTab := idx2Size;
      this.pageIdx2sizeTab := pageIdx2Size;
      this.size2idxTab := size2Idx;
      new;
    }

    // -------------------------------------------------------------------
    // Queries

    /** What the queries use of a valid table. */
    lemma ValidFacts()
      requires Valid()
      ensures 12 <= pageShifts <= Log2(chunkSize) <= 30
      ensures pageSize == Pow2(pageShifts)
      ensures PageAlignment(directMemoryCacheAlignment, pageShifts)
      ensures directMemoryCacheAlignment > 0 ==> chunkSize % directMemoryCacheAlignment == 0
      ensures nSizes >= 28 && nPSizes >= 1
      ensures 16 <= lookupMaxSize <= chunkSize && lookupMaxSize % 16 == 0
      ensures Pow2(LOG2_QUANTUM) == 16
      ensures chunkSize <= 0x4000_0000
    {
      CountersFacts(pageSize, pageShifts, chunkSize, directMemoryCacheAlignment, nSizes, nPSizes, lookupMaxSize);
    }

    /** Every class fits in the chunk; the last one is the chunk. */
    lemma ClassFits(sizeIdx: int)
      requires Valid() && 0 <= sizeIdx < nSizes
      ensures ScaledSize(LOG2_QUANTUM, sizeIdx) <= chunkSize
      ensures sizeIdx == nSizes - 1 ==> ScaledSize(LOG2_QUANTUM, sizeIdx) == chunkSize
    {
      LastClassScaled(Log2(chunkSize), nSizes);
      ScaledMonotoneLe(LOG2_QUANTUM, sizeIdx, nSizes - 1);
    }

    /** Every page class fits in the chunk; the last one is the chunk. */
    lemma PageFits(pageIdx: int)
      requires Valid() && 0 <= pageIdx < nPSizes
      ensures ScaledSize(pageShifts, pageIdx) <= chunkSize
      ensures pageIdx == nPSizes - 1 ==> ScaledSize(pageShifts, pageIdx) == chunkSize
    {
      LastPageIsChunk(Log2(chunkSize), pageShifts, nSizes, nPSizes);
      ScaledMonotoneLe(pageShifts, pageIdx, nPSizes - 1);
    }

    /** sizeIdx2size: the table's entry for a class is its size, aligned. */
    function SizeIdx2Size(sizeIdx: int): (size: int)
      requires Valid() && 0 <= sizeIdx < nSizes
      reads sizeClasses, sizeIdx2sizeTab, pageIdx2sizeTab, size2idxTab
      ensures size == AlignSizeIfNeeded(ClassSize(sizeIdx), directMemoryCacheAlignment)
    {
      assert sizeIdx2sizeTab[..][sizeIdx] == sizeIdx2sizeTab[sizeIdx];
      sizeIdx2sizeTab[sizeIdx]
    }

    /** sizeIdx2sizeCompute ignores the alignment: it gives the table's
        answer exactly for the classes whose size is already aligned. */
    lemma SizeIdx2SizeAgrees(sizeIdx: int)
      requires Valid() && 0 <= sizeIdx < nSizes
      ensures SizeIdx2Size(sizeIdx) == SizeIdx2SizeCompute(sizeIdx)
              <==> directMemoryCacheAlignment <= 0 || ClassSize(sizeIdx) % directMemoryCacheAlignment == 0
    {
      ClassSizeIsScaled(sizeIdx);
      if directMemoryCacheAlignment > 0 && ClassSize(sizeIdx) % directMemoryCacheAlignment == 0 {
        AlignMultiple(ClassSize(sizeIdx), directMemoryCacheAlignment);
      }
    }

    /** pageIdx2size: the table's entry for a page index is the size
        pageIdx2sizeCompute computes, a whole number of pages. */
    function PageIdx2Size(pageIdx: int): (size: int)
      requires Valid() && 0 <= pageIdx < nPSizes
      reads sizeClasses, sizeIdx2sizeTab, pageIdx2sizeTab, size2idxTab
      ensures size == ScaledSize(pageShifts, pageIdx) == pageSize * Units(pageIdx)
      ensures size == PageIdx2SizeCompute(pageShifts, pageIdx)
    {
      assert pageIdx2sizeTab[..][pageIdx] == pageIdx2sizeTab[pageIdx];
      pageIdx2sizeTab[pageIdx]
    }

    /** The lookup table agrees with the computation: for every size up to
        lookupMaxSize, the entry read for it is the smallest class holding
        it, the class the bit arithmetic finds. */
    lemma LookupAgrees(s: int)
      requires Valid() && 1 <= s <= lookupMaxSize
      ensures 0 <= (s - 1) / 16 < size2idxTab.Length
      ensures size2idxTab[(s - 1) / 16] == CeilIndex(LOG2_QUANTUM, s)
      ensures IsCeilIndex(LOG2_QUANTUM, s, size2idxTab[(s - 1) / 16])
    {
      ValidFacts();
      var j := (s - 1) / 16;
      assert size2idxTab[..][j] == size2idxTab[j];
      EntryIsCeilIndex(s, size2idxTab[j]);
    }

    /** Every size up to the chunk has a class. */
    lemma CeilIndexInTable(s: int)
      requires Valid() && 1 <= s <= chunkSize
      ensures CeilIndex(LOG2_QUANTUM, s) < nSizes
    {
      ValidFacts();
      ClassFits(nSizes - 1);
      CeilIndexCorrect(LOG2_QUANTUM, s);
      CeilIndexBound(LOG2_QUANTUM, s, CeilIndex(LOG2_QUANTUM, s), nSizes - 1);
    }

    /** size2SizeIdx: 0 for 0, nSizes past the chunk, and otherwise the
        smallest class holding the aligned size, whether it is read from
        the lookup table or computed. */
    function Size2SizeIdx(size: int): (sizeIdx: int)
      requires Valid() && size >= 0
      reads sizeClasses, sizeIdx2sizeTab, pageIdx2sizeTab, size2idxTab
      ensures size == 0 ==> sizeIdx == 0
      ensures size > chunkSize ==> sizeIdx == nSizes
      ensures 0 < size <= chunkSize ==>
                0 <= sizeIdx < nSizes
                && IsCeilIndex(LOG2_QUANTUM, AlignSizeIfNeeded(size, directMemoryCacheAlignment), sizeIdx)
                && sizeIdx == CeilIndex(LOG2_QUANTUM, AlignSizeIfNeeded(size, directMemoryCacheAlignment))
    {
      ValidFacts();
      if size == 0 then 0
      else if size > chunkSize then nSizes
      else
        var s := AlignSizeIfNeeded(size, directMemoryCacheAlignment);
        AlignBelow(size, chunkSize, directMemoryCacheAlignment);
        CeilIndexInTable(s);
        CeilIndexCorrect(LOG2_QUANTUM, s);
        if s <= lookupMaxSize then
          LookupAgrees(s);
          size2idxTab[(s - 1) / Pow2(LOG2_QUANTUM)]
        else
          CeilIndex(LOG2_QUANTUM, s)
    }

    /** A larger request never gets a smaller class. */
    lemma Size2SizeIdxMonotone(size: int, size': int)
      requires Valid() && 0 <= size <= size'
      ensures Size2SizeIdx(size) <= Size2SizeIdx(size')
    {
      if 0 < size && size' <= chunkSize {
        ValidFacts();
        var a := directMemoryCacheAlignment;
        var s, s' := AlignSizeIfNeeded(size, a), AlignSizeIfNeeded(size', a);
        AlignBelow(size, s', a);
        CeilIndexBound(LOG2_QUANTUM, s, Size2SizeIdx(size), Size2SizeIdx(size'));
      }
    }

    /** An aligned class size maps back to its own class. */
    lemma SizeRoundTrip(sizeIdx: int)
      requires Valid() && 0 <= sizeIdx < nSizes
      requires directMemoryCacheAlignment <= 0 || ClassSize(sizeIdx) % directMemoryCacheAlignment == 0
      ensures Size2SizeIdx(SizeIdx2Size(sizeIdx)) == sizeIdx
    {
      ValidFacts();
      AlignedClass(sizeIdx, directMemoryCacheAlignment);
      ClassFits(sizeIdx);
      var size := SizeIdx2Size(sizeIdx);
      assert 0 < size == ScaledSize(LOG2_QUANTUM, sizeIdx) <= chunkSize;
      assert Size2SizeIdx(size) == CeilIndex(LOG2_QUANTUM, AlignSizeIfNeeded(size, directMemoryCacheAlignment));
    }

    /** The table path of normalizeSize agrees with normalizeSizeCompute
        for every aligned size up to lookupMaxSize. */
    lemma NormalizeAgrees(s: int)
      requires Valid() && 1 <= s <= lookupMaxSize
      requires directMemoryCacheAlignment > 0 ==> s % directMemoryCacheAlignment == 0
      ensures 0 <= (s - 1) / 16 < size2idxTab.Length
      ensures 0 <= size2idxTab[(s - 1) / 16] < nSizes
      ensures sizeIdx2sizeTab[size2idxTab[(s - 1) / 16]] == NormalizeSizeCompute(s)
    {
      ValidFacts();
      LookupAgrees(s);
      CeilIndexInTable(s);
      var t := CeilIndex(LOG2_QUANTUM, s);
      assert sizeIdx2sizeTab[..][t] == sizeIdx2sizeTab[t];
      ClassSizeIsScaled(t);
      AlignedCeil(s, directMemoryCacheAlignment);
      AlignMultiple(ClassSize(t), directMemoryCacheAlignment);
    }

    /** normalizeSize: the size of the smallest class holding the aligned
        request, a multiple of the alignment; 0 gets the first class. */
    function NormalizeSize(size: int): (r: int)
      requires Valid() && 0 <= size <= 0x4000_0000
      reads sizeClasses, sizeIdx2sizeTab, pageIdx2sizeTab, size2idxTab
      ensures size == 0 ==> r == AlignSizeIfNeeded(ClassSize(0), directMemoryCacheAlignment)
      ensures size > 0 ==>
                r == ScaledSize(LOG2_QUANTUM,
                                CeilIndex(LOG2_QUANTUM, AlignSizeIfNeeded(size, directMemoryCacheAlignment)))
      ensures size > 0 ==> r >= size && (directMemoryCacheAlignment > 0 ==> r % directMemoryCacheAlignment == 0)
      ensures size > 0 ==> r <= 0x4000_0000
    {
      ValidFacts();
      if size == 0 then
        assert sizeIdx2sizeTab[..][0] == sizeIdx2sizeTab[0];
        sizeIdx2sizeTab[0]
      else
        var s := AlignSizeIfNeeded(size, directMemoryCacheAlignment);
        AlignedCeil(s, directMemoryCacheAlignment);
        NormalizeFits(size);
        if s <= lookupMaxSize then
          NormalizeAgrees(s);
          sizeIdx2sizeTab[size2idxTab[(s - 1) / Pow2(LOG2_QUANTUM)]]
        else
          NormalizeSizeCompute(s)
    }

    /** A request of at most 2^30 bytes, aligned and rounded up to its
        class, stays at most 2^30 bytes: 2^30 is itself a class and a
        multiple of every alignment. */
    lemma NormalizeFits(size: int)
      requires Valid() && 1 <= size <= 0x4000_0000
      ensures AlignSizeIfNeeded(size, directMemoryCacheAlignment) <= 0x4000_0000
      ensures ScaledSize(LOG2_QUANTUM, CeilIndex(LOG2_QUANTUM, AlignSizeIfNeeded(size, directMemoryCacheAlignment)))
              <= 0x4000_0000
    {
      ValidFacts();
      Pow2IntRange();
      var a := directMemoryCacheAlignment;
      if a > 0 {
        Pow2IsPow2(30);
        Pow2Monotone(pageShifts, 30);
        Pow2Divides(a, Pow2(30));
      }
      AlignBelow(size, Pow2(30), a);
      var s := AlignSizeIfNeeded(size, a);
      ScaledPow2(30);
      CeilIndexCorrect(LOG2_QUANTUM, s);
      CeilIndexBound(LOG2_QUANTUM, s, CeilIndex(LOG2_QUANTUM, s), 99);
      ScaledMonotoneLe(LOG2_QUANTUM, CeilIndex(LOG2_QUANTUM, s), 99);
    }

    /** normalizeSize is the size of the class size2SizeIdx picks. */
    lemma NormalizeIsClassOfIndex(size: int)
      requires Valid() && 0 <= size <= chunkSize
      ensures NormalizeSize(size) == SizeIdx2Size(Size2SizeIdx(size))
    {
      if size > 0 {
        ValidFacts();
        var s := AlignSizeIfNeeded(size, directMemoryCacheAlignment);
        var t := Size2SizeIdx(size);
        AlignedCeil(s, directMemoryCacheAlignment);
        ClassSizeIsScaled(t);
        AlignMultiple(ClassSize(t), directMemoryCacheAlignment);
      }
    }

    /** Normalizing a normalized size changes nothing. */
    lemma NormalizeIdempotent(size: int)
      requires Valid() && 1 <= size <= 0x4000_0000
      ensures NormalizeSize(NormalizeSize(size)) == NormalizeSize(size)
    {
      ValidFacts();
      var r := NormalizeSize(size);
      var t := CeilIndex(LOG2_QUANTUM, AlignSizeIfNeeded(size, directMemoryCacheAlignment));
      AlignMultiple(r, directMemoryCacheAlignment);
      CeilIndexOfClass(LOG2_QUANTUM, t);
      CeilIndexCorrect(LOG2_QUANTUM, r);
      CeilIndexUnique(LOG2_QUANTUM, r, t, CeilIndex(LOG2_QUANTUM, r));
    }

    /** No aligned class that holds the request is smaller than the one
        normalizeSize returns. */
    lemma NormalizeMinimal(size: int, j: nat)
      requires Valid() && 1 <= size <= 0x4000_0000
      requires ClassSize(j) >= size
      requires directMemoryCacheAlignment <= 0 || ClassSize(j) % directMemoryCacheAlignment == 0
      ensures NormalizeSize(size) <= ClassSize(j)
    {
      ValidFacts();
      var s := AlignSizeIfNeeded(size, directMemoryCacheAlignment);
      AlignBelow(size, ClassSize(j), directMemoryCacheAlignment);
      ClassSizeIsScaled(j);
      CeilIndexCorrect(LOG2_QUANTUM, s);
      CeilIndexBound(LOG2_QUANTUM, s, CeilIndex(LOG2_QUANTUM, s), j);
      ScaledMonotoneLe(LOG2_QUANTUM, CeilIndex(LOG2_QUANTUM, s), j);
    }

    /** pages2pageIdxCompute: nPSizes past the chunk; otherwise the smallest
        page class holding at least `pages` pages or, with `floor`, the
        largest page class holding at most `pages` pages.  Counted in pages,
        the page classes are the progression at scale 2^0. */
    function Pages2PageIdxCompute(pages: int, floor: bool): (pageIdx: int)
      requires Valid() && pages >= 1 && pages * pageSize < 0x8000_0000
      reads sizeClasses, sizeIdx2sizeTab, pageIdx2sizeTab, size2idxTab
      ensures pages * pageSize > chunkSize ==> pageIdx == nPSizes
      ensures pages * pageSize <= chunkSize ==> 0 <= pageIdx < nPSizes
      ensures pages * pageSize <= chunkSize && !floor ==> IsCeilIndex(0, pages, pageIdx)
      ensures pages * pageSize <= chunkSize && floor ==> IsFloorIndex(0, pages, pageIdx)
    {
      var pagesSize := pages * Pow2(pageShifts);
      PagesSizeIs(pages, pagesSize);
      if pagesSize > chunkSize then nPSizes
      else
        PageCeilInTable(pages, pagesSize);
        var pageIdx := PagesCeilIndex(pageShifts, pagesSize);
        CeilToFloor(0, pages, pageIdx, Units(pageIdx));
        if floor && pageIdx2sizeTab[pageIdx] > pagesSize then pageIdx - 1 else pageIdx
    }

    lemma PagesSizeIs(pages: int, pagesSize: int)
      requires Valid() && pagesSize == pages * Pow2(pageShifts)
      ensures pagesSize == pages * pageSize
    {
      ValidFacts();
    }

    /** The page index computed for a number of pages within the chunk is
        in the table and is the ceiling of that number of pages; the table
        entry overshoots the byte size exactly when the class overshoots the
        pages. */
    lemma PageCeilInTable(pages: int, pagesSize: int)
      requires Valid() && pages >= 1 && pagesSize == pages * pageSize <= chunkSize
      ensures pagesSize >= 1
      ensures 0 <= PagesCeilIndex(pageShifts, pagesSize) < nPSizes
      ensures IsCeilIndex(0, pages, PagesCeilIndex(pageShifts, pagesSize))
      ensures pageIdx2sizeTab[PagesCeilIndex(pageShifts, pagesSize)] > pagesSize
              <==> Units(PagesCeilIndex(pageShifts, pagesSize)) > pages
    {
      ValidFacts();
      MulMonotone(pageSize, 1, pages);
      var pageIdx := PagesCeilIndex(pageShifts, pagesSize);
      PageFits(nPSizes - 1);
      CeilIndexBound(pageShifts, pagesSize, pageIdx, nPSizes - 1);
      assert pageIdx2sizeTab[..][pageIdx] == pageIdx2sizeTab[pageIdx];
      PagesScale(pageShifts, pages, pageIdx);
      ScaleCompare(pageSize, pages, Units(pageIdx));
    }

    /** pages2pageIdx: the smallest page class holding at least `pages`
        pages. */
    function Pages2PageIdx(pages: int): (pageIdx: int)
      requires Valid() && pages >= 1 && pages * pageSize < 0x8000_0000
      reads sizeClasses, sizeIdx2sizeTab, pageIdx2sizeTab, size2idxTab
      ensures pages * pageSize > chunkSize ==> pageIdx == nPSizes
      ensures pages * pageSize <= chunkSize ==> 0 <= pageIdx < nPSizes && IsCeilIndex(0, pages, pageIdx)
    {
      Pages2PageIdxCompute(pages, false)
    }

    /** pages2pageIdxFloor: the largest page class holding at most `pages`
        pages. */
    function Pages2PageIdxFloor(pages: int): (pageIdx: int)
      requires Valid() && pages >= 1 && pages * pageSize < 0x8000_0000
      reads sizeClasses, sizeIdx2sizeTab, pageIdx2sizeTab, size2idxTab
      ensures pages * pageSize > chunkSize ==> pageIdx == nPSizes
      ensures pages * pageSize <= chunkSize ==> 0 <= pageIdx < nPSizes && IsFloorIndex(0, pages, pageIdx)
    {
      Pages2PageIdxCompute(pages, true)
    }

    /** Floor and ceiling coincide exactly when the pages make up a page
        class; otherwise the floor is the index just below the ceiling. */
    lemma FloorCeil(pages: int)
      requires Valid() && pages >= 1 && pages * pageSize <= chunkSize
      ensures Pages2PageIdxFloor(pages) == Pages2PageIdx(pages)
              <==> PageIdx2Size(Pages2PageIdx(pages)) == pages * pageSize
      ensures Pages2PageIdxFloor(pages) != Pages2PageIdx(pages)
              ==> Pages2PageIdxFloor(pages) == Pages2PageIdx(pages) - 1
    {
      ValidFacts();
      var c := Pages2PageIdx(pages);
      CeilToFloor(0, pages, c, Units(c));
      if Units(c) > pages {
        FloorIndexUnique(0, pages, c - 1, Pages2PageIdxFloor(pages));
      } else {
        FloorIndexUnique(0, pages, c, Pages2PageIdxFloor(pages));
      }
      ScaleCompare(pageSize, pages, Units(c));
      ScaleCompare(pageSize, Units(c), pages);
    }

    /** Every page class, given as its number of pages, maps back to its
        own page index under both roundings. */
    lemma PagesRoundTrip(pageIdx: int)
      requires Valid() && 0 <= pageIdx < nPSizes
      ensures Units(pageIdx) >= 1 && PageIdx2Size(pageIdx) == Units(pageIdx) * pageSize <= chunkSize
      ensures Pages2PageIdx(Units(pageIdx)) == pageIdx
      ensures Pages2PageIdxFloor(Units(pageIdx)) == pageIdx
    {
      ValidFacts();
      PagesFit(pageIdx);
      var pages := Units(pageIdx);
      OwnPageIndex(pageIdx, Pages2PageIdx(pages), Pages2PageIdxFloor(pages));
    }

    /** Page class pageIdx, counted in pages, is within the chunk. */
    lemma PagesFit(pageIdx: int)
      requires Valid() && 0 <= pageIdx < nPSizes
      ensures 1 <= Units(pageIdx) && Units(pageIdx) * pageSize <= chunkSize
    {
      ValidFacts();
      PageFits(pageIdx);
      if pageIdx > 0 {
        UnitsMonotone(0, pageIdx);
      }
      ScaledCommutes(pageShifts, pageIdx, pageSize);
    }

    /** With 8 KiB pages and a 16 MiB chunk the constructor counts 76
        classes, 40 page classes and 35 subpage classes (0 .. 34), and looks
        up sizes up to 4096 bytes by table when there is no alignment. */
    lemma EightKiBPages()
      requires Valid() && pageShifts == 13 && chunkSize == Pow2(24)
      ensures nSizes == 76 && nPSizes == 40 && nSubpages == 35 && smallMaxSizeIdx == 34
      ensures directMemoryCacheAlignment <= 0 ==> lookupMaxSize == 4096
    {
      Log2Pow2(24);
      EightKiBCounters();
    }

    /** With no alignment the first classes are 16 bytes apart up to 64
        bytes, then four to each doubling; a request gets the first class
        that holds it. */
    lemma SmallClassesExample()
      requires Valid() && directMemoryCacheAlignment <= 0
      ensures nSizes >= 12
      ensures sizeIdx2sizeTab[..12] == FIRST_CLASSES
      ensures Size2SizeIdx(15) == 0 && Size2SizeIdx(65) == 4 && Size2SizeIdx(129) == 8
    {
      ValidFacts();
      Pow2Values();
      Pow2Monotone(12, Log2(chunkSize));
      FirstClassSizes();
      forall i | 0 <= i < 12
        ensures sizeIdx2sizeTab[..12][i] == FIRST_CLASSES[i]
      {
        assert sizeIdx2sizeTab[..][i] == sizeIdx2sizeTab[i];
      }
      SmallCeilExamples();
      CeilIndexUnique(LOG2_QUANTUM, 15, 0, Size2SizeIdx(15));
      CeilIndexUnique(LOG2_QUANTUM, 65, 4, Size2SizeIdx(65));
      CeilIndexUnique(LOG2_QUANTUM, 129, 8, Size2SizeIdx(129));
    }

    /** The constructor up to the three lookup tables: generate the rows,
        then count them. */
    static method BuildRows(pageShifts: int, chunkSize: int, alignment: int)
      returns (sizeClasses: array<SizeClass>, nSizes: int, smallMaxSizeIdx: int, lookupMaxSize: int,
               nPSizes: int, nSubpages: int)
      requires ValidConfig(if pageShifts >= 0 then Pow2(pageShifts) else 0, pageShifts, chunkSize, alignment)
      ensures sizeClasses.Length == 4 * (Log2(chunkSize) - 1)
      ensures nSizes == 4 * Log2(chunkSize) - 20 <= sizeClasses.Length
      ensures sizeClasses[..nSizes] == Rows(nSizes, pageShifts)
      ensures nPSizes == PageCount(nSizes, pageShifts - 4)
      ensures nSubpages == SubpageCount(nSizes, pageShifts)
      ensures smallMaxSizeIdx == LastSubpage(nSizes, pageShifts)
      ensures lookupMaxSize == LookupMax(nSizes, alignment)
      ensures 16 <= lookupMaxSize <= ScaledSize(LOG2_QUANTUM, nSizes - 1) && lookupMaxSize % 16 == 0
    {
      sizeClasses, nSizes := GenerateSizeClasses(pageShifts, chunkSize, alignment);
      smallMaxSizeIdx, lookupMaxSize, nPSizes, nSubpages := CountSizeClasses(sizeClasses, nSizes, alignment, pageShifts);
      LookupMaxBounds(Log2(chunkSize), alignment, nSizes);
    }

    /** The constructor's first two loops: the first group, then whole
        groups until a class reaches chunkSize (which the constructor
        asserts is the last size generated). */
    static method GenerateSizeClasses(pageShifts: int, chunkSize: int, alignment: int)
      returns (sizeClasses: array<SizeClass>, nSizes: int)
      requires ValidConfig(if pageShifts >= 0 then Pow2(pageShifts) else 0, pageShifts, chunkSize, alignment)
      ensures sizeClasses.Length == 4 * (Log2(chunkSize) - 1)
      ensures nSizes == 4 * Log2(chunkSize) - 20 <= sizeClasses.Length
      ensures sizeClasses[..nSizes] == Rows(nSizes, pageShifts)
      ensures alignment <= 0 || IsPow2(alignment)
      ensures GeneratesClasses(nSizes, chunkSize, alignment)
    {
      var c := Log2(chunkSize);
      ChunkFacts(pageShifts, chunkSize, alignment);
      var groupNum := c - (LOG2_QUANTUM - LOG2_SIZE_CLASS_GROUP) + 1;
      GroupShift(groupNum);
      sizeClasses := new SizeClass[groupNum * Pow2(LOG2_SIZE_CLASS_GROUP)];
      var normalMaxSize := -1;
      nSizes := 0;
      var size := 0;
      var log2Group := LOG2_QUANTUM;
      var log2Delta := LOG2_QUANTUM;
      var ndeltaLimit := Pow2(LOG2_SIZE_CLASS_GROUP);

      nSizes, size := GenerateFirstGroup(sizeClasses, log2Group, log2Delta, ndeltaLimit, alignment, pageShifts);

      log2Group := log2Group + LOG2_SIZE_CLASS_GROUP;
      ChunkBoundary(3, c, alignment);
      while size < chunkSize
        invariant 4 <= nSizes <= 4 * c - 20 && sizeClasses.Length == 4 * c - 4
        invariant nSizes == 4 * (log2Group - 5) && log2Delta == log2Group - 2
        invariant size == AlignSizeIfNeeded(ClassSize(nSizes - 1), alignment)
        invariant nSizes > 4 ==> normalMaxSize == size
        invariant size < chunkSize <==> nSizes < 4 * c - 20
        invariant sizeClasses[..nSizes] == Rows(nSizes, pageShifts)
        decreases 4 * c - 20 - nSizes
      {
        nSizes, size, normalMaxSize :=
          GenerateGroup(sizeClasses, nSizes, log2Group, log2Delta, size, chunkSize, alignment, pageShifts, c);
        log2Group := log2Group + 1;
        log2Delta := log2Delta + 1;
      }
      assert nSizes == 4 * c - 20;
      LastClassIsChunk(nSizes, c, alignment);
      assert chunkSize == normalMaxSize;
      assert GeneratesClasses(nSizes, chunkSize, alignment) by {
        FullTableGenerated(c, alignment);
      }
    }

    /** The constructor's first loop: the group of the first four classes,
        16 bytes apart from 16 bytes. */
    static method GenerateFirstGroup(sizeClasses: array<SizeClass>, log2Group: int, log2Delta: int, ndeltaLimit: int,
                                     alignment: int, pageShifts: int)
      returns (nSizes: int, size: int)
      requires log2Group == log2Delta == LOG2_QUANTUM && ndeltaLimit == Pow2(LOG2_SIZE_CLASS_GROUP)
      requires 4 <= sizeClasses.Length && pageShifts >= 0
      requires alignment <= 0 || IsPow2(alignment)
      modifies sizeClasses
      ensures nSizes == 4 && sizeClasses[..nSizes] == Rows(nSizes, pageShifts)
      ensures size == AlignSizeIfNeeded(ClassSize(nSizes - 1), alignment)
    {
      GroupShift(1);
      nSizes, size := 0, 0;
      var nDelta := 0;
      while nDelta < ndeltaLimit
        invariant 0 <= nDelta <= 4 && nSizes == nDelta
        invariant sizeClasses[..nSizes] == Rows(nSizes, pageShifts)
        invariant nSizes > 0 ==> size == AlignSizeIfNeeded(ClassSize(nSizes - 1), alignment)
      {
        FirstGroupRow(nSizes, pageShifts);
        size := PutRow(sizeClasses, nSizes, log2Group, log2Delta, nDelta, alignment, pageShifts);
        nDelta := nDelta + 1;
        nSizes := nSizes + 1;
      }
    }

    /** The constructor's inner generation loop: the classes nDelta = 1..4
        of the group with base 2^log2Group, stopping early once a class
        reaches chunkSize (which, the chunk being a power of two, only the
        group's last class can do). */
    static method GenerateGroup(sizeClasses: array<SizeClass>, nSizes: int, log2Group: int, log2Delta: int,
                                size: int, chunkSize: int, alignment: int, pageShifts: int, ghost c: nat)
      returns (nSizes': int, size': int, normalMaxSize': int)
      requires c >= 12 && pageShifts >= 0 && chunkSize == Pow2(c)
      requires alignment <= 0 || (IsPow2(alignment) && 8 * alignment <= Pow2(c))
      requires sizeClasses.Length == 4 * c - 4
      requires 4 <= nSizes < 4 * c - 20 && nSizes == 4 * (log2Group - 5) && log2Delta == log2Group - 2
      requires size == AlignSizeIfNeeded(ClassSize(nSizes - 1), alignment) && size < chunkSize
      requires sizeClasses[..nSizes] == Rows(nSizes, pageShifts)
      modifies sizeClasses
      ensures nSizes' == nSizes + 4 <= 4 * c - 20
      ensures size' == normalMaxSize' == AlignSizeIfNeeded(ClassSize(nSizes' - 1), alignment)
      ensures size' < chunkSize <==> nSizes' < 4 * c - 20
      ensures sizeClasses[..nSizes'] == Rows(nSizes', pageShifts)
    {
      nSizes', size' := nSizes, size;
      normalMaxSize' := size;
      var ndeltaLimit := Pow2(LOG2_SIZE_CLASS_GROUP);
      GroupShift(1);
      var nDelta := 1;
      while nDelta <= ndeltaLimit && size' < chunkSize
        invariant 1 <= nDelta <= 5 && nSizes' == nSizes + nDelta - 1
        invariant nDelta >= 2 || size' < chunkSize
        invariant nDelta >= 2 ==> normalMaxSize' == size'
        invariant nSizes' <= 4 * c - 20
        invariant size' == AlignSizeIfNeeded(ClassSize(nSizes' - 1), alignment)
        invariant size' < chunkSize <==> nSizes' < 4 * c - 20
        invariant sizeClasses[..nSizes'] == Rows(nSizes', pageShifts)
      {
        size' := PutGroupRow(sizeClasses, nSizes', log2Group, log2Delta, nDelta, alignment, pageShifts, c);
        normalMaxSize' := size';
        nDelta := nDelta + 1;
        nSizes' := nSizes' + 1;
      }
      assert nDelta == 5 by {
        if nDelta < 5 {
          FourSteps(log2Group - 5, c - 5, nDelta - 1);
        }
      }
    }

    /** The inner generation loop's body: row n, step nDelta of the group
        with base 2^log2Group, is stored; its aligned size stays below the
        chunk exactly until the chunk's own class. */
    static method PutGroupRow(sizeClasses: array<SizeClass>, n: int, log2Group: int, log2Delta: int, nDelta: int,
                              alignment: int, pageShifts: int, ghost c: nat)
      returns (size: int)
      requires log2Group >= 6 && 1 <= nDelta <= 4 && n == 4 * (log2Group - 5) + nDelta - 1
      requires log2Delta == log2Group - 2 && pageShifts >= 0
      requires c >= 12 && n <= 4 * c - 21 && n < sizeClasses.Length
      requires alignment <= 0 || (IsPow2(alignment) && 8 * alignment <= Pow2(c))
      requires sizeClasses[..n] == Rows(n, pageShifts)
      modifies sizeClasses
      ensures sizeClasses[..n + 1] == Rows(n + 1, pageShifts)
      ensures size == AlignSizeIfNeeded(ClassSize(n), alignment)
      ensures size < Pow2(c) <==> n < 4 * c - 21
    {
      GroupRow(n, log2Group, nDelta, pageShifts);
      size := PutRow(sizeClasses, n, log2Group, log2Delta, nDelta, alignment, pageShifts);
      ChunkBoundary(n, c, alignment);
    }

    /** The body shared by both generation loops: the row for index n goes
        into slot n, and its aligned size is returned. */
    static method PutRow(sizeClasses: array<SizeClass>, n: int, log2Group: int, log2Delta: int, nDelta: int,
                         alignment: int, pageShifts: int)
      returns (size: int)
      requires 0 <= n < sizeClasses.Length && 0 <= log2Group && 0 <= log2Delta && 0 <= nDelta && 0 <= pageShifts
      requires NewSizeClass(n, log2Group, log2Delta, nDelta, pageShifts) == Row(n, pageShifts)
      requires alignment <= 0 || IsPow2(alignment)
      requires sizeClasses[..n] == Rows(n, pageShifts)
      modifies sizeClasses
      ensures sizeClasses[..n + 1] == Rows(n + 1, pageShifts)
      ensures size == AlignSizeIfNeeded(ClassSize(n), alignment)
    {
      var sizeClass := NewSizeClass(n, log2Group, log2Delta, nDelta, pageShifts);
      ghost var prefix := sizeClasses[..n];
      sizeClasses[n] := sizeClass;
      assert sizeClasses[..n + 1] == prefix + [sizeClass];
      RowsSnoc(n, pageShifts);
      size := SizeOf(sizeClass, alignment);
      SizeOfRow(n, pageShifts, alignment);
    }

    /** The constructor's counting loop over the generated rows. */
    static method CountSizeClasses(sizeClasses: array<SizeClass>, nSizes: int, alignment: int, ghost pageShifts: nat)
      returns (smallMaxSizeIdx: int, lookupMaxSize: int, nPSizes: int, nSubpages: int)
      requires pageShifts >= 12 && (alignment <= 0 || IsPow2(alignment))
      requires 0 <= nSizes <= sizeClasses.Length
      requires sizeClasses[..nSizes] == Rows(nSizes, pageShifts)
      ensures nPSizes == PageCount(nSizes, pageShifts - 4)
      ensures nSubpages == SubpageCount(nSizes, pageShifts)
      ensures smallMaxSizeIdx == LastSubpage(nSizes, pageShifts)
      ensures lookupMaxSize == LookupMax(nSizes, alignment)
    {
      smallMaxSizeIdx, lookupMaxSize, nPSizes, nSubpages := 0, 0, 0, 0;
      var idx := 0;
      while idx < nSizes
        invariant 0 <= idx <= nSizes
        invariant nPSizes == PageCount(idx, pageShifts - 4)
        invariant nSubpages == SubpageCount(idx, pageShifts)
        invariant smallMaxSizeIdx == LastSubpage(idx, pageShifts)
        invariant lookupMaxSize == LookupMax(idx, alignment)
      {
        var sz := sizeClasses[idx];
        RowAt(sizeClasses, nSizes, pageShifts, idx);
        smallMaxSizeIdx, lookupMaxSize, nPSizes, nSubpages :=
          CountRow(sz, idx, alignment, smallMaxSizeIdx, lookupMaxSize, nPSizes, nSubpages, pageShifts);
        idx := idx + 1;
      }
    }

    /** The counting loop's body for row idx. */
    static method CountRow(sz: SizeClass, idx: int, alignment: int,
                           smallMaxSizeIdx: int, lookupMaxSize: int, nPSizes: int, nSubpages: int,
                           ghost pageShifts: nat)
      returns (smallMaxSizeIdx': int, lookupMaxSize': int, nPSizes': int, nSubpages': int)
      requires pageShifts >= 12 && (alignment <= 0 || IsPow2(alignment))
      requires idx >= 0 && sz == Row(idx, pageShifts)
      requires nPSizes == PageCount(idx, pageShifts - 4)
      requires nSubpages == SubpageCount(idx, pageShifts)
      requires smallMaxSizeIdx == LastSubpage(idx, pageShifts)
      requires lookupMaxSize == LookupMax(idx, alignment)
      ensures nPSizes' == PageCount(idx + 1, pageShifts - 4)
      ensures nSubpages' == SubpageCount(idx + 1, pageShifts)
      ensures smallMaxSizeIdx' == LastSubpage(idx + 1, pageShifts)
      ensures lookupMaxSize' == LookupMax(idx + 1, alignment)
    {
      smallMaxSizeIdx', lookupMaxSize', nPSizes', nSubpages' := smallMaxSizeIdx, lookupMaxSize, nPSizes, nSubpages;
      if sz.isMultiPageSize {
        nPSizes' := nPSizes + 1;
      }
      if sz.isSubpage {
        nSubpages' := nSubpages + 1;
        smallMaxSizeIdx' := idx;
      }
      if sz.log2DeltaLookup != 0 {
        lookupMaxSize' := SizeOf(sz, alignment);
      }
      PageCountRow(idx, pageShifts);
      SubpageRow(idx, pageShifts);
      LookupRow(idx, pageShifts, alignment);
    }

    /** newIdx2SizeTab: the aligned size of every row. */
    static method NewIdx2SizeTab(sizeClasses: array<SizeClass>, nSizes: int, alignment: int, ghost pageShifts: nat)
      returns (sizeIdx2sizeTab: array<int>)
      requires alignment <= 0 || IsPow2(alignment)
      requires 0 <= nSizes <= sizeClasses.Length
      requires sizeClasses[..nSizes] == Rows(nSizes, pageShifts)
      ensures sizeIdx2sizeTab.Length == nSizes
      ensures AlignedSizes(sizeIdx2sizeTab[..], alignment)
    {
      sizeIdx2sizeTab := new int[nSizes];
      var i := 0;
      while i < nSizes
        invariant 0 <= i <= nSizes
        invariant AlignedSizes(sizeIdx2sizeTab[..i], alignment)
      {
        var sizeClass := sizeClasses[i];
        RowAt(sizeClasses, nSizes, pageShifts, i);
        PutAlignedSize(sizeIdx2sizeTab, i, sizeClass, alignment, pageShifts);
        i := i + 1;
      }
      assert sizeIdx2sizeTab[..] == sizeIdx2sizeTab[..i];
    }

    /** The size-table loop's body for row i. */
    static method PutAlignedSize(sizeIdx2sizeTab: array<int>, i: int, sizeClass: SizeClass, alignment: int,
                                 ghost pageShifts: nat)
      requires alignment <= 0 || IsPow2(alignment)
      requires 0 <= i < sizeIdx2sizeTab.Length && sizeClass == Row(i, pageShifts)
      requires AlignedSizes(sizeIdx2sizeTab[..i], alignment)
      modifies sizeIdx2sizeTab
      ensures AlignedSizes(sizeIdx2sizeTab[..i + 1], alignment)
    {
      var size := SizeOf(sizeClass, alignment);
      assert size == AlignSizeIfNeeded(ClassSize(i), alignment) by {
        SizeOfRow(i, pageShifts, alignment);
      }
      ghost var prefix := sizeIdx2sizeTab[..i];
      sizeIdx2sizeTab[i] := size;
      assert sizeIdx2sizeTab[..i + 1] == prefix + [size];
      AlignedSizesSnoc(prefix, size, alignment);
    }

    /** newPageIdx2sizeTab: the aligned sizes of the multi-page rows, in
        row order. */
    static method NewPageIdx2sizeTab(sizeClasses: array<SizeClass>, nSizes: int, nPSizes: int, alignment: int,
                                     ghost pageShifts: nat)
      returns (pageIdx2sizeTab: array<int>)
      requires pageShifts >= 12 && PageAlignment(alignment, pageShifts)
      requires 0 <= nSizes <= sizeClasses.Length
      requires sizeClasses[..nSizes] == Rows(nSizes, pageShifts)
      requires nPSizes == PageCount(nSizes, pageShifts - 4)
      ensures pageIdx2sizeTab.Length == nPSizes
      ensures PageProgression(pageIdx2sizeTab[..], pageShifts)
    {
      pageIdx2sizeTab := new int[nPSizes];
      var pageIdx := 0;
      var i := 0;
      while i < nSizes
        invariant 0 <= i <= nSizes
        invariant pageIdx == PageCount(i, pageShifts - 4) <= nPSizes
        invariant PageProgression(pageIdx2sizeTab[..pageIdx], pageShifts)
      {
        PageCountMonotone(i + 1, nSizes, pageShifts - 4);
        var sizeClass := sizeClasses[i];
        RowAt(sizeClasses, nSizes, pageShifts, i);
        pageIdx := PutPageEntry(pageIdx2sizeTab, pageIdx, sizeClass, alignment, i, pageShifts);
        i := i + 1;
      }
      assert pageIdx2sizeTab[..] == pageIdx2sizeTab[..pageIdx];
    }

    /** The page-table loop's body for row i. */
    static method PutPageEntry(pageIdx2sizeTab: array<int>, pageIdx: int, sizeClass: SizeClass, alignment: int,
                               ghost i: nat, ghost pageShifts: nat)
      returns (pageIdx': int)
      requires pageShifts >= 12 && PageAlignment(alignment, pageShifts)
      requires sizeClass == Row(i, pageShifts)
      requires pageIdx == PageCount(i, pageShifts - 4) && PageCount(i + 1, pageShifts - 4) <= pageIdx2sizeTab.Length
      requires PageProgression(pageIdx2sizeTab[..pageIdx], pageShifts)
      modifies pageIdx2sizeTab
      ensures pageIdx' == PageCount(i + 1, pageShifts - 4)
      ensures PageProgression(pageIdx2sizeTab[..pageIdx'], pageShifts)
    {
      PageCountRow(i, pageShifts);
      pageIdx' := pageIdx;
      if sizeClass.isMultiPageSize {
        var size := SizeOf(sizeClass, alignment);
        assert size == ScaledSize(pageShifts, pageIdx) by {
          PageEntry(i, pageShifts, alignment);
        }
        ghost var prefix := pageIdx2sizeTab[..pageIdx];
        pageIdx2sizeTab[pageIdx] := size;
        assert pageIdx2sizeTab[..pageIdx + 1] == prefix + [size];
        ProgressionSnoc(prefix, size, pageShifts);
        pageIdx' := pageIdx + 1;
      }
    }

    /** newSize2idxTab: class i takes the next 2^(log2Delta - 4) entries, so
        entry j ends up holding the smallest class of at least 16 * (j + 1)
        bytes. */
    static method NewSize2idxTab(lookupMaxSize: int, sizeClasses: array<SizeClass>, ghost nSizes: nat,
                                 ghost pageShifts: nat)
      returns (size2idxTab: array<int>)
      requires 16 <= lookupMaxSize && lookupMaxSize % 16 == 0
      requires 1 <= nSizes <= sizeClasses.Length && lookupMaxSize <= ScaledSize(LOG2_QUANTUM, nSizes - 1)
      requires sizeClasses[..nSizes] == Rows(nSizes, pageShifts)
      ensures size2idxTab.Length == lookupMaxSize / 16
      ensures CeilTable(size2idxTab[..])
    {
      assert Pow2(LOG2_QUANTUM) == 16 by {
        Pow2Values();
      }
      size2idxTab := new int[lookupMaxSize / Pow2(LOG2_QUANTUM)];
      var idx := 0;
      var size := 0;
      var i := 0;
      UnitsIncrement(0);
      while size <= lookupMaxSize
        invariant 0 <= i && 0 <= idx <= size2idxTab.Length
        invariant size == if idx == 0 then 0 else 16 * (idx + 1)
        invariant size <= lookupMaxSize ==> idx == (if i == 0 then 0 else Units(i - 1))
        invariant size <= lookupMaxSize ==> i < nSizes
        invariant CeilTable(size2idxTab[..idx])
        decreases lookupMaxSize + 16 - size
      {
        idx, size := FillClass(size2idxTab, lookupMaxSize, sizeClasses, i, idx, size, nSizes, pageShifts);
        i := i + 1;
      }
      assert idx == size2idxTab.Length by {
        assert lookupMaxSize == 16 * (lookupMaxSize / 16);
      }
      assert size2idxTab[..] == size2idxTab[..idx];
    }

    /** The outer loop's body of newSize2idxTab for class i. */
    static method FillClass(size2idxTab: array<int>, lookupMaxSize: int, sizeClasses: array<SizeClass>, i: int,
                            idx: int, size: int, ghost nSizes: nat, ghost pageShifts: nat)
      returns (idx': int, size': int)
      requires 16 <= lookupMaxSize && lookupMaxSize % 16 == 0 && size2idxTab.Length == lookupMaxSize / 16
      requires 0 <= i < nSizes <= sizeClasses.Length && lookupMaxSize <= ScaledSize(LOG2_QUANTUM, nSizes - 1)
      requires sizeClasses[..nSizes] == Rows(nSizes, pageShifts)
      requires 0 <= idx <= size2idxTab.Length && idx == (if i == 0 then 0 else Units(i - 1))
      requires size == (if idx == 0 then 0 else 16 * (idx + 1)) && size <= lookupMaxSize
      requires CeilTable(size2idxTab[..idx])
      modifies size2idxTab
      ensures idx < idx' <= size2idxTab.Length
      ensures size' == (if idx' == 0 then 0 else 16 * (idx' + 1))
      ensures size' <= lookupMaxSize ==> idx' == Units(i) && i + 1 < nSizes
      ensures CeilTable(size2idxTab[..idx'])
    {
      RowDeltaAt(sizeClasses, nSizes, pageShifts, i);
      var log2Delta := sizeClasses[i].log2Delta;
      var times := Pow2(log2Delta - LOG2_QUANTUM);
      ClassEntries(i, idx, nSizes, lookupMaxSize);
      idx', size' := FillClassEntries(size2idxTab, lookupMaxSize, i, idx, size, times);
    }

    /** The inner loop of newSize2idxTab: class i takes the next `times`
        entries, while the entries stay within lookupMaxSize.  Class i is the
        ceiling of every entry in [idx, idx + times). */
    static method FillClassEntries(size2idxTab: array<int>, lookupMaxSize: int, i: int, idx: int, size: int,
                                   times: int)
      returns (idx': int, size': int)
      requires 16 <= lookupMaxSize && lookupMaxSize % 16 == 0 && size2idxTab.Length == lookupMaxSize / 16
      requires 0 <= i && 0 <= idx <= size2idxTab.Length && 0 <= times
      requires size == (if idx == 0 then 0 else 16 * (idx + 1)) && size <= lookupMaxSize
      requires CeilTable(size2idxTab[..idx])
      requires forall j :: idx <= j < idx + times ==> EntryCeil(j, i)
      modifies size2idxTab
      ensures idx <= idx' <= size2idxTab.Length && (times > 0 ==> idx < idx')
      ensures size' == (if idx' == 0 then 0 else 16 * (idx' + 1))
      ensures size' <= lookupMaxSize ==> idx' == idx + times
      ensures CeilTable(size2idxTab[..idx'])
    {
      Pow2Values();
      idx', size' := idx, size;
      var left := times;
      while size' <= lookupMaxSize && left > 0
        invariant idx <= idx' <= size2idxTab.Length && 0 <= left && idx' + left == idx + times
        invariant size' == if idx' == 0 then 0 else 16 * (idx' + 1)
        invariant CeilTable(size2idxTab[..idx'])
      {
        assert EntryCeil(idx', i);
        left := left - 1;
        ghost var prefix := size2idxTab[..idx'];
        size2idxTab[idx'] := i;
        assert size2idxTab[..idx' + 1] == prefix + [i];
        CeilTableSnoc(prefix, i);
        idx' := idx' + 1;
        size' := (idx' + 1) * Pow2(LOG2_QUANTUM);
      }
    }
  }

  /** Class i, whose entries start at idx, takes 2^(log2Delta - 4) of them,
      each one owned by it; when the next entry is still within the table,
      a later class exists. */
  lemma ClassEntries(i: nat, idx: int, nSizes: nat, lookupMaxSize: int)
    requires idx == (if i == 0 then 0 else Units(i - 1))
    requires 1 <= nSizes && lookupMaxSize <= ScaledSize(LOG2_QUANTUM, nSizes - 1)
    ensures Units(i) == idx + Pow2(Log2DeltaAt(i) - LOG2_QUANTUM)
    ensures forall j :: idx <= j < Units(i) ==> EntryCeil(j, i)
    ensures 16 * (Units(i) + 1) <= lookupMaxSize ==> i + 1 < nSizes
  {
    UnitsIncrement(0);
    if i > 0 {
      UnitsIncrement(i - 1);
    }
    ClassCovers(i);
    if 16 * (Units(i) + 1) <= lookupMaxSize {
      LaterClassExists(i, nSizes, lookupMaxSize);
    }
  }

  /** A class whose size is below lookupMaxSize is not the last one. */
  lemma LaterClassExists(i: nat, nSizes: nat, lookupMaxSize: int)
    requires 1 <= nSizes && lookupMaxSize <= ScaledSize(LOG2_QUANTUM, nSizes - 1)
    requires 16 * (Units(i) + 1) <= lookupMaxSize
    ensures i + 1 < nSizes
  {
    if i + 1 >= nSizes {
      assert Pow2(LOG2_QUANTUM) == 16 by {
        Pow2Values();
      }
      ScaledMonotoneLe(LOG2_QUANTUM, nSizes - 1, i);
      assert false;
    }
  }

  /** Entry j of the lookup table, which stands for 16 * (j + 1) bytes,
      belongs to class i. */
  ghost predicate EntryCeil(j: int, i: int) {
    j >= 0 && i >= 0 && IsCeilIndex(LOG2_QUANTUM, 16 * (j + 1), i)
  }

  /** s lists, for each entry j, the class of 16 * (j + 1) bytes. */
  ghost predicate CeilTable(s: seq<int>) {
    forall j :: 0 <= j < |s| ==> EntryCeil(j, s[j])
  }

  lemma CeilTableSnoc(s: seq<int>, i: int)
    requires CeilTable(s) && EntryCeil(|s|, i)
    ensures CeilTable(s + [i])
  {
  }

  /** Class i is the ceiling of the entries Units(i - 1) .. Units(i) - 1 of
      the lookup table, entry j standing for 16 * (j + 1) bytes. */
  lemma ClassCovers(i: nat)
    ensures forall j :: (if i == 0 then 0 else Units(i - 1)) <= j < Units(i) ==> EntryCeil(j, i)
  {
    Pow2Values();
  }
}
