/** The pure part of the allocator's size-class table: how one size class is
    encoded and flagged, how a class index or page index turns into a byte
    size in closed form, and how a byte count turns back into the index of
    the smallest class that can hold it. */
module SizeClassMath {
  import opened Bits

  const LOG2_QUANTUM: nat := 4
  const LOG2_SIZE_CLASS_GROUP: nat := 2
  const LOG2_MAX_LOOKUP_SIZE: nat := 12

  /** One row of the table: [index, log2Group, log2Delta, nDelta,
      isMultiPageSize, isSubPage, log2DeltaLookup].  A log2DeltaLookup of 0
      is the flag value `no`: every class has log2Delta >= LOG2_QUANTUM. */
  datatype SizeClass = SizeClass(
    index: nat,
    log2Group: nat,
    log2Delta: nat,
    nDelta: nat,
    isMultiPageSize: bool,
    isSubpage: bool,
    log2DeltaLookup: nat)

  // ---------------------------------------------------------------------
  // Encoding of a single class

  /** `(1 << log2Group) + (nDelta << log2Delta)`.  A class stays inside its
      group: at most one group width of deltas is added to the base. */
  function CalculateSize(log2Group: nat, nDelta: nat, log2Delta: nat): (size: nat)
    ensures size >= Pow2(log2Group)
    ensures nDelta <= Pow2(LOG2_SIZE_CLASS_GROUP) && log2Delta + LOG2_SIZE_CLASS_GROUP <= log2Group
            ==> size <= Pow2(log2Group + 1)
  {
    var size := Pow2(log2Group) + nDelta * Pow2(log2Delta);
    if nDelta <= Pow2(LOG2_SIZE_CLASS_GROUP) && log2Delta + LOG2_SIZE_CLASS_GROUP <= log2Group then
      DeltasInGroup(log2Group, nDelta, log2Delta);
      size
    else
      size
  }

  lemma DeltasInGroup(log2Group: nat, nDelta: nat, log2Delta: nat)
    requires nDelta <= Pow2(LOG2_SIZE_CLASS_GROUP) && log2Delta + LOG2_SIZE_CLASS_GROUP <= log2Group
    ensures nDelta * Pow2(log2Delta) <= Pow2(log2Group)
  {
    var D, G := Pow2(log2Delta), Pow2(LOG2_SIZE_CLASS_GROUP);
    assert Pow2(LOG2_SIZE_CLASS_GROUP + log2Delta) == G * D by {
      Pow2Add(LOG2_SIZE_CLASS_GROUP, log2Delta);
    }
    MulMonotone(D, nDelta, G);
    assert nDelta * D <= G * D;
    Pow2Monotone(log2Delta + LOG2_SIZE_CLASS_GROUP, log2Group);
  }

  /** Round a size up to the next multiple of a power-of-two alignment
      (`size & (alignment - 1)` is `size % alignment` for such an alignment);
      an alignment of 0 or less leaves the size alone. */
  function AlignSizeIfNeeded(size: nat, alignment: int): (r: nat)
    requires alignment <= 0 || IsPow2(alignment)
    ensures alignment <= 0 ==> r == size
    ensures alignment > 0 ==> size <= r < size + alignment && r % alignment == 0
  {
    if alignment <= 0 then
      size
    else
      var delta := size % alignment;
      if delta == 0 then size
      else
        NextMultiple(size, alignment);
        size + (alignment - delta)
  }

  /** Aligning twice is aligning once. */
  lemma AlignIdempotent(size: nat, alignment: int)
    requires alignment <= 0 || IsPow2(alignment)
    ensures AlignSizeIfNeeded(AlignSizeIfNeeded(size, alignment), alignment)
            == AlignSizeIfNeeded(size, alignment)
  {
  }

  /** A size that is already a multiple of the alignment is left alone. */
  lemma AlignMultiple(size: nat, alignment: int)
    requires alignment <= 0 || IsPow2(alignment)
    requires alignment > 0 ==> size % alignment == 0
    ensures AlignSizeIfNeeded(size, alignment) == size
  {
  }

  /** Aligning never passes a bound that is itself aligned. */
  lemma AlignBelow(size: nat, bound: nat, alignment: int)
    requires alignment <= 0 || IsPow2(alignment)
    requires size <= bound && (alignment > 0 ==> bound % alignment == 0)
    ensures AlignSizeIfNeeded(size, alignment) <= bound
  {
    if alignment > 0 {
      MultipleBelow(AlignSizeIfNeeded(size, alignment), bound, size, alignment);
    }
  }

  function Log2Ndelta(nDelta: nat): nat {
    if nDelta == 0 then 0 else Log2(nDelta)
  }

  /** The class's exponent as the table computes it: `log2Group + 1` when the
      deltas carry into the next power of two, `log2Group` otherwise. */
  function Log2Size(log2Group: nat, log2Delta: nat, nDelta: nat): nat {
    if log2Delta + Log2Ndelta(nDelta) == log2Group then log2Group + 1 else log2Group
  }

  /** The `remove` flag: true for a class that must not be in the lookup
      table even when its exponent is exactly LOG2_MAX_LOOKUP_SIZE. */
  function Remove(log2Group: nat, log2Delta: nat, nDelta: nat): bool {
    Pow2(Log2Ndelta(nDelta)) < nDelta || Log2Size(log2Group, log2Delta, nDelta) == log2Group
  }

  /** The lookup-table rule at the 4096-byte boundary. */
  function Log2DeltaLookup(log2Group: nat, log2Delta: nat, nDelta: nat): nat {
    var log2Size := Log2Size(log2Group, log2Delta, nDelta);
    if log2Size < LOG2_MAX_LOOKUP_SIZE
       || (log2Size == LOG2_MAX_LOOKUP_SIZE && !Remove(log2Group, log2Delta, nDelta))
    then log2Delta
    else 0
  }

  /** A class whose delta is at least a page is a whole number of pages. */
  lemma MultiPageByDelta(log2Group: nat, nDelta: nat, log2Delta: nat, pageShifts: nat)
    requires pageShifts <= log2Delta <= log2Group
    ensures CalculateSize(log2Group, nDelta, log2Delta) % Pow2(pageShifts) == 0
  {
    Pow2Div(pageShifts, log2Group);
    Pow2MultipleMod(nDelta, pageShifts, log2Delta);
    ModSum(Pow2(log2Group), nDelta * Pow2(log2Delta), Pow2(pageShifts));
  }

  /** newSizeClass: one row of the table. */
  function NewSizeClass(index: nat, log2Group: nat, log2Delta: nat, nDelta: nat, pageShifts: nat): (sc: SizeClass)
    ensures sc.index == index && sc.log2Group == log2Group
    ensures sc.log2Delta == log2Delta && sc.nDelta == nDelta
    ensures log2Delta <= log2Group ==>
              (sc.isMultiPageSize <==> CalculateSize(log2Group, nDelta, log2Delta) % Pow2(pageShifts) == 0)
    ensures sc.log2DeltaLookup == 0 || sc.log2DeltaLookup == log2Delta
  {
    var isMultiPageSize :=
      if log2Delta >= pageShifts then true
      else CalculateSize(log2Group, nDelta, log2Delta) % Pow2(pageShifts) == 0;
    var isSubpage := Log2Size(log2Group, log2Delta, nDelta) < pageShifts + 1;
    if log2Delta >= pageShifts && log2Delta <= log2Group then
      MultiPageByDelta(log2Group, nDelta, log2Delta, pageShifts);
      SizeClass(index, log2Group, log2Delta, nDelta, isMultiPageSize, isSubpage,
                Log2DeltaLookup(log2Group, log2Delta, nDelta))
    else
      SizeClass(index, log2Group, log2Delta, nDelta, isMultiPageSize, isSubpage,
                Log2DeltaLookup(log2Group, log2Delta, nDelta))
  }

  /** sizeOf: the (aligned) byte size of a row. */
  function SizeOf(sc: SizeClass, alignment: int): nat
    requires alignment <= 0 || IsPow2(alignment)
  {
    AlignSizeIfNeeded(CalculateSize(sc.log2Group, sc.nDelta, sc.log2Delta), alignment)
  }

  // ---------------------------------------------------------------------
  // The rows the constructor emits, by index

  /** Group 0 is `log2Group = log2Delta = LOG2_QUANTUM` with nDelta 0..3;
      group g >= 1 has log2Group = g + 5, log2Delta = g + 3, nDelta 1..4. */
  function Log2GroupAt(i: nat): nat {
    if i < 4 then LOG2_QUANTUM else i / 4 + LOG2_QUANTUM + LOG2_SIZE_CLASS_GROUP - 1
  }

  function Log2DeltaAt(i: nat): nat {
    if i < 4 then LOG2_QUANTUM else i / 4 + LOG2_QUANTUM - 1
  }

  function NDeltaAt(i: nat): nat {
    if i < 4 then i else i % 4 + 1
  }

  function Row(i: nat, pageShifts: nat): SizeClass {
    NewSizeClass(i, Log2GroupAt(i), Log2DeltaAt(i), NDeltaAt(i), pageShifts)
  }

  /** Unaligned byte size of class i. */
  function ClassSize(i: nat): nat {
    CalculateSize(Log2GroupAt(i), NDeltaAt(i), Log2DeltaAt(i))
  }

  /** Class sizes in units of the first class: 1, 2, 3, 4, then
      2^(g-1) * 5, 6, 7, 8 for group g >= 1.  The same sequence scaled by
      2^LOG2_QUANTUM gives the class sizes and scaled by 2^pageShifts the
      page-class sizes. */
  function Units(i: nat): nat {
    if i < 4 then i + 1 else Pow2(i / 4 - 1) * (i % 4 + 5)
  }

  /** Byte size of index i of the progression whose first element is 2^base. */
  function ScaledSize(base: nat, i: nat): nat {
    Pow2(base) * Units(i)
  }

  lemma ClassSizeIsScaled(i: nat)
    ensures ClassSize(i) == ScaledSize(LOG2_QUANTUM, i)
  {
    if i >= 4 {
      var g, m := i / 4, i % 4;
      assert i == 4 * g + m;
      assert ClassSize(i) == Pow2(g + 5) + (m + 1) * Pow2(g + 3);
      UnitsAtGroup(g, m);
      Pow2Add(LOG2_QUANTUM + 1, g);
      GroupFormula(LOG2_QUANTUM, g, m);
    }
  }

  // ---------------------------------------------------------------------
  // Order of the progression

  lemma {:induction false} UnitsStep(i: nat)
    ensures Units(i) < Units(i + 1)
  {
    if i >= 4 && i % 4 == 3 {
      var g := i / 4;
      assert (i + 1) / 4 == g + 1 && (i + 1) % 4 == 0;
      Pow2Add(1, g - 1);
      assert Units(i + 1) == 2 * Pow2(g - 1) * 5;
    } else if i >= 4 {
      assert (i + 1) / 4 == i / 4 && (i + 1) % 4 == i % 4 + 1;
    }
  }

  lemma {:induction false} UnitsMonotone(i: nat, j: nat)
    requires i < j
    ensures Units(i) < Units(j)
    decreases j - i
  {
    UnitsStep(i);
    if i + 1 < j {
      UnitsMonotone(i + 1, j);
    }
  }

  /** Sizes strictly increase with the index, at any scale. */
  lemma ScaledMonotone(base: nat, i: nat, j: nat)
    requires i < j
    ensures ScaledSize(base, i) < ScaledSize(base, j)
  {
    UnitsMonotone(i, j);
    MulStrict(Pow2(base), Units(i), Units(j));
  }

  lemma ScaledMonotoneLe(base: nat, i: nat, j: nat)
    requires i <= j
    ensures ScaledSize(base, i) <= ScaledSize(base, j)
  {
    if i < j {
      ScaledMonotone(base, i, j);
    }
  }

  /** The class 4k - 21 is exactly 2^k bytes (the last class of group k - 6). */
  lemma ClassSizePow2(k: nat)
    requires k >= 6
    ensures ClassSize(4 * k - 21) == Pow2(k)
  {
    ScaledPow2(k);
    ClassSizeIsScaled(4 * k - 21);
  }

  lemma ScaledPow2(k: nat)
    requires k >= 6
    ensures ScaledSize(LOG2_QUANTUM, 4 * k - 21) == Pow2(k)
  {
    var i := 4 * k - 21;
    DivModUnique(i, 4, k - 6, 3);
    assert Units(i) == Pow2(k - 4) by {
      UnitsGroupEnd(k - 6);
    }
    Pow2Add(LOG2_QUANTUM, k - LOG2_QUANTUM);
  }

  /** The last class of each group is a power of two in units. */
  lemma UnitsGroupEnd(g: nat)
    ensures Units(4 * g + 3) == Pow2(g + 2)
  {
    Pow2Values();
    if g >= 1 {
      DivModUnique(4 * g + 3, 4, g, 3);
      Pow2Add(3, g - 1);
    }
  }

  /** The class just below 2^k is 7/8 of it. */
  lemma ClassSizeBelowPow2(k: nat)
    requires k >= 7
    ensures ClassSize(4 * k - 22) == 7 * Pow2(k - 3)
  {
    var i := 4 * k - 22;
    ClassSizeIsScaled(i);
    assert Pow2(LOG2_QUANTUM) == 16 by { Pow2Values(); }
    var p := Pow2(k - 7);
    assert Units(i) == p * 7 by {
      DivModUnique(i, 4, k - 6, 2);
    }
    assert Pow2(k - 3) == 16 * p by {
      Pow2Values();
      Pow2Add(4, k - 7);
    }
  }

  // ---------------------------------------------------------------------
  // Closed forms used by the table's compute paths

  /** sizeIdx2sizeCompute. */
  function SizeIdx2SizeCompute(sizeIdx: nat): (size: nat)
    ensures size == ScaledSize(LOG2_QUANTUM, sizeIdx)
  {
    ComputeFormula(LOG2_QUANTUM, sizeIdx);
    var group := sizeIdx / Pow2(LOG2_SIZE_CLASS_GROUP);
    var mod := sizeIdx % Pow2(LOG2_SIZE_CLASS_GROUP);
    var groupSize := if group == 0 then 0
                     else Pow2(LOG2_QUANTUM + LOG2_SIZE_CLASS_GROUP - 1) * Pow2(group);
    var shift := if group == 0 then 1 else group;
    var lgDelta := shift + LOG2_QUANTUM - 1;
    var modSize := (mod + 1) * Pow2(lgDelta);
    groupSize + modSize
  }

  /** pageIdx2sizeCompute, for a table built with page size 2^pageShifts. */
  function PageIdx2SizeCompute(pageShifts: nat, pageIdx: nat): (size: nat)
    requires pageShifts >= 1
    ensures size == ScaledSize(pageShifts, pageIdx)
  {
    ComputeFormula(pageShifts, pageIdx);
    var group := pageIdx / Pow2(LOG2_SIZE_CLASS_GROUP);
    var mod := pageIdx % Pow2(LOG2_SIZE_CLASS_GROUP);
    var groupSize := if group == 0 then 0
                     else Pow2(pageShifts + LOG2_SIZE_CLASS_GROUP - 1) * Pow2(group);
    var shift := if group == 0 then 1 else group;
    var log2Delta := shift + pageShifts - 1;
    var modSize := (mod + 1) * Pow2(log2Delta);
    groupSize + modSize
  }

  lemma ComputeFormula(base: nat, i: nat)
    requires base >= 1
    ensures var g, m := i / 4, i % 4;
            (if g == 0 then 0 else Pow2(base + 1) * Pow2(g))
            + (m + 1) * Pow2((if g == 0 then 1 else g) + base - 1)
            == ScaledSize(base, i)
  {
    var g, m := i / 4, i % 4;
    if g >= 1 {
      GroupFormula(base, g, m);
    }
  }

  lemma GroupFormula(base: nat, g: nat, m: nat)
    requires base >= 1 && g >= 1
    ensures Pow2(base + 1) * Pow2(g) + (m + 1) * Pow2(g + base - 1)
            == Pow2(base) * (Pow2(g - 1) * (m + 5))
  {
    var A, B, d := Pow2(base + 1), Pow2(g), Pow2(g + base - 1);
    assert A * B == 4 * d by {
      Pow2Values();
      Pow2Add(base + 1, g);
      Pow2Add(2, g + base - 1);
    }
    assert d == Pow2(base) * Pow2(g - 1) by {
      Pow2Add(base, g - 1);
    }
    GroupSum(A * B, d, Pow2(base), Pow2(g - 1), m);
  }

  /** Four steps of the group base plus m + 1 more make m + 5 steps. */
  lemma GroupSum(x: int, d: int, p: int, q: int, m: int)
    requires x == 4 * d && d == p * q
    ensures x + (m + 1) * d == p * (q * (m + 5))
  {
    assert x + (m + 1) * d == (m + 5) * d;
    MulRegroup(m + 5, p, q);
  }

  // ---------------------------------------------------------------------
  // From a byte count back to a class index

  /** i is the smallest index of the progression at scale 2^base whose size
      is at least v. */
  ghost predicate IsCeilIndex(base: nat, v: int, i: nat) {
    ScaledSize(base, i) >= v && (i == 0 || ScaledSize(base, i - 1) < v)
  }

  /** At most one index is the ceiling of a given size. */
  lemma CeilIndexUnique(base: nat, v: int, i: nat, j: nat)
    requires IsCeilIndex(base, v, i) && IsCeilIndex(base, v, j)
    ensures i == j
  {
    if i < j {
      ScaledMonotoneLe(base, i, j - 1);
    } else if j < i {
      ScaledMonotoneLe(base, j, i - 1);
    }
  }

  /** Every size of the progression is its own ceiling. */
  lemma CeilIndexOfClass(base: nat, i: nat)
    ensures IsCeilIndex(base, ScaledSize(base, i), i)
  {
    if i > 0 {
      ScaledMonotone(base, i - 1, i);
    }
  }

  /** The bit arithmetic shared by size2SizeIdx (base LOG2_QUANTUM) and
      pages2pageIdxCompute (base pageShifts): x = log2(2 * size - 1) is the
      ceiling of log2(size); the group is read from x and the step from the
      two bits of size - 1 below the top bit. */
  function CeilIndexDelta(base: nat, size: nat): nat
    requires size >= 1
  {
    var x := Log2(2 * size - 1);
    if x < LOG2_SIZE_CLASS_GROUP + base + 1 then base else x - LOG2_SIZE_CLASS_GROUP - 1
  }

  function CeilIndex(base: nat, size: nat): nat
    requires size >= 1
  {
    var x := Log2(2 * size - 1);
    var shift := if x < LOG2_SIZE_CLASS_GROUP + base + 1 then 0 else x - (LOG2_SIZE_CLASS_GROUP + base);
    var groupN := shift * Pow2(LOG2_SIZE_CLASS_GROUP);
    var deltaN := ((size - 1) / Pow2(CeilIndexDelta(base, size))) % Pow2(LOG2_SIZE_CLASS_GROUP);
    groupN + deltaN
  }

  lemma DivBounds(a: int, m: int, lo: int, hi: int)
    requires m > 0 && m * lo <= a < m * hi
    ensures lo <= a / m < hi
  {
    var q := a / m;
    DivRange(a, m);
    if q < lo {
      MulMonotone(m, q + 1, lo);
    } else if q >= hi {
      MulMonotone(m, hi, q);
    }
  }

  /** Size of the class with step m in group g >= 1, at scale 2^base. */
  lemma ScaledAt(base: nat, g: nat, m: nat)
    requires g >= 1 && m < 4
    ensures ScaledSize(base, 4 * g + m) == Pow2(base + g - 1) * (m + 5)
  {
    UnitsAtGroup(g, m);
    Pow2Add(base, g - 1);
    Regroup(ScaledSize(base, 4 * g + m), Pow2(base), Units(4 * g + m), Pow2(g - 1), m + 5, Pow2(base + g - 1));
  }

  lemma Regroup(s: int, p: int, u: int, q: int, k: int, r: int)
    requires s == p * u && u == q * k && r == p * q
    ensures s == r * k
  {
    MulRegroup(k, p, q);
  }

  /** The bit arithmetic finds the smallest class that holds `size`, and that
      class's size is `size` rounded up to a multiple of the step 2^delta. */
  lemma CeilIndexCorrect(base: nat, size: nat)
    requires size >= 1
    ensures IsCeilIndex(base, size, CeilIndex(base, size))
    ensures var d := Pow2(CeilIndexDelta(base, size));
            ScaledSize(base, CeilIndex(base, size)) == d * ((size - 1) / d + 1)
  {
    if Log2(2 * size - 1) < base + 3 {
      CeilIndexSmall(base, size);
    } else {
      CeilIndexLarge(base, size);
    }
  }

  lemma CeilIndexSmall(base: nat, size: nat)
    requires size >= 1 && Log2(2 * size - 1) < base + 3
    ensures IsCeilIndex(base, size, CeilIndex(base, size))
    ensures var d := Pow2(CeilIndexDelta(base, size));
            ScaledSize(base, CeilIndex(base, size)) == d * ((size - 1) / d + 1)
  {
    var d := Pow2(base);
    var t := (size - 1) / d;
    SmallIndex(base, size);
    SmallSteps(size - 1, d);
    ScaledSmall(base, t);
  }

  /** A dividend below 4 * d has quotient below 4, bracketed by d * t and
      d * (t + 1). */
  lemma SmallSteps(a: int, d: int)
    requires d >= 1 && 0 <= a < 4 * d
    ensures 0 <= a / d < 4 && (a / d) % 4 == a / d
    ensures d * (a / d) <= a < d * (a / d + 1)
  {
    DivBounds(a, d, 0, 4);
    DivRange(a, d);
  }

  /** The first four sizes of the progression: 1, 2, 3, 4 times 2^base. */
  lemma ScaledSmall(base: nat, t: nat)
    requires t < 4
    ensures ScaledSize(base, t) == Pow2(base) * (t + 1)
    ensures t > 0 ==> ScaledSize(base, t - 1) == Pow2(base) * t
  {
  }

  /** Below the first full group the step is 2^base and the index is the
      number of whole steps below size. */
  lemma SmallIndex(base: nat, size: nat)
    requires size >= 1 && Log2(2 * size - 1) < base + 3
    ensures CeilIndexDelta(base, size) == base
    ensures CeilIndex(base, size) == ((size - 1) / Pow2(base)) % 4
    ensures size - 1 < 4 * Pow2(base)
  {
    var x := Log2(2 * size - 1);
    Pow2Values();
    Pow2Monotone(x + 1, base + 3);
    Pow2Add(3, base);
  }

  lemma CeilIndexLarge(base: nat, size: nat)
    requires size >= 1 && Log2(2 * size - 1) >= base + 3
    ensures IsCeilIndex(base, size, CeilIndex(base, size))
    ensures var d := Pow2(CeilIndexDelta(base, size));
            ScaledSize(base, CeilIndex(base, size)) == d * ((size - 1) / d + 1)
  {
    var x := Log2(2 * size - 1);
    var g := x - base - 2;
    var d := Pow2(x - 3);
    var t := (size - 1) / d;
    LargeQuotient(size, x);
    var i := CeilIndex(base, size);
    assert i == 4 * g + t - 4 && Pow2(CeilIndexDelta(base, size)) == d by {
      CeilIndexLargeValue(base, size);
      DivModUnique(t, 4, 1, t - 4);
    }
    LargeNeighbors(base, g, t);
    CeilBetween(size, d, t, ScaledSize(base, i - 1), ScaledSize(base, i));
  }

  /** The size lies above step t and at most at step t + 1. */
  lemma CeilBetween(size: int, d: int, t: int, below: int, at: int)
    requires d > 0 && d * t <= size - 1 < d * (t + 1) && below == d * t && at == d * (t + 1)
    ensures below < size <= at && at == d * ((size - 1) / d + 1)
  {
    DivModUnique(size - 1, d, t, size - 1 - d * t);
  }

  /** For x = log2(2 * size - 1) >= 3, size lies in (4 * 2^(x-3), 8 * 2^(x-3)]. */
  lemma LargeBounds(size: nat, x: nat)
    requires size >= 1 && x >= 3 && x == Log2(2 * size - 1)
    ensures 4 * Pow2(x - 3) < size <= 8 * Pow2(x - 3)
  {
    Pow2Values();
    Pow2Add(2, x - 3);
    Pow2Add(3, x - 3);
  }

  /** size - 1 lies in step t of the 2^(x-3)-wide steps, 4 <= t < 8. */
  lemma LargeQuotient(size: nat, x: nat)
    requires size >= 1 && x >= 3 && x == Log2(2 * size - 1)
    ensures var d := Pow2(x - 3);
            4 <= (size - 1) / d < 8 && d * ((size - 1) / d) <= size - 1 < d * ((size - 1) / d + 1)
  {
    var d := Pow2(x - 3);
    LargeBounds(size, x);
    DivBounds(size - 1, d, 4, 8);
    DivRange(size - 1, d);
  }

  lemma CeilIndexLargeValue(base: nat, size: nat)
    requires size >= 1 && Log2(2 * size - 1) >= base + 3
    ensures var x := Log2(2 * size - 1);
            CeilIndexDelta(base, size) == x - 3 &&
            CeilIndex(base, size) == 4 * (x - base - 2) + ((size - 1) / Pow2(x - 3)) % 4
  {
    assert Pow2(LOG2_SIZE_CLASS_GROUP) == 4 by {
      Pow2Succ(0);
      Pow2Succ(1);
    }
  }

  /** The class chosen for step t of group g, and the class just below it. */
  lemma LargeNeighbors(base: nat, g: nat, t: nat)
    requires g >= 1 && 4 <= t < 8
    ensures ScaledSize(base, 4 * g + t - 4) == Pow2(base + g - 1) * (t + 1)
    ensures ScaledSize(base, 4 * g + t - 5) == Pow2(base + g - 1) * t
  {
    ScaledAt(base, g, t - 4);
    if t > 4 {
      ScaledAt(base, g, t - 5);
    } else if g >= 2 {
      ScaledAt(base, g - 1, 3);
      Pow2Add(1, base + g - 2);
    } else {
      assert 4 * g + t - 5 == 3;
    }
  }

  /** One step of the progression adds one delta of the next class:
      in units of 2^LOG2_QUANTUM that is 2^(log2Delta - LOG2_QUANTUM). */
  lemma UnitsIncrement(i: nat)
    ensures Units(0) == Pow2(Log2DeltaAt(0) - LOG2_QUANTUM)
    ensures Units(i + 1) == Units(i) + Pow2(Log2DeltaAt(i + 1) - LOG2_QUANTUM)
  {
    var j := i + 1;
    if j >= 4 {
      var g, m := j / 4, j % 4;
      assert Log2DeltaAt(j) - LOG2_QUANTUM == g - 1;
      UnitsAtGroup(g, m);
      var p := Pow2(g - 1);
      if m == 0 && g == 1 {
        assert Units(i) == 4 && Units(j) == p * 5 && p == 1;
      } else if m == 0 {
        UnitsAtGroup(g - 1, 3);
        var q := Pow2(g - 2);
        assert p == 2 * q;
        assert Units(i) == q * 8 && Units(j) == p * 5;
      } else {
        UnitsAtGroup(g, m - 1);
        assert Units(i) == p * (m + 4) && Units(j) == p * (m + 5);
      }
    }
  }

  /** Units of class m + 1 of group g >= 1. */
  lemma UnitsAtGroup(g: nat, m: nat)
    requires g >= 1 && m < 4
    ensures Units(4 * g + m) == Pow2(g - 1) * (m + 5)
  {
    DivModUnique(4 * g + m, 4, g, m);
  }

  /** A ceiling index never lies beyond an index whose size already covers v. */
  lemma CeilIndexBound(base: nat, v: int, i: nat, j: nat)
    requires IsCeilIndex(base, v, i) && v <= ScaledSize(base, j)
    ensures i <= j
  {
    if i > j {
      ScaledMonotoneLe(base, j, i - 1);
    }
  }

  /** Multiples of 16 compare with v as they compare with v rounded up to 16. */
  lemma QuantumCeil(u: nat, v: int)
    requires v >= 1
    ensures 16 * u >= v <==> 16 * u >= 16 * ((v - 1) / 16 + 1)
  {
  }

  /** Every class size is a multiple of 16, so the ceiling class of a size is
      the ceiling class of that size rounded up to 16: the lookup table only
      needs one entry per 16 bytes. */
  lemma CeilIndexQuantum(v: int, i: nat)
    requires v >= 1
    ensures IsCeilIndex(LOG2_QUANTUM, v, i) <==> IsCeilIndex(LOG2_QUANTUM, 16 * ((v - 1) / 16 + 1), i)
  {
    Pow2Values();
    QuantumCeil(Units(i), v);
    if i > 0 {
      QuantumCeil(Units(i - 1), v);
    }
  }

  /** normalizeSizeCompute: `(size + deltaMask) & ~deltaMask` clears the low
      log2Delta bits, that is it rounds size up to a multiple of the step
      2^log2Delta.  The result is the smallest class size not below size. */
  function NormalizeSizeCompute(size: nat): (r: nat)
    requires size >= 1
    ensures r >= size
    ensures r == ScaledSize(LOG2_QUANTUM, CeilIndex(LOG2_QUANTUM, size))
  {
    var delta := Pow2(CeilIndexDelta(LOG2_QUANTUM, size));
    var deltaMask := delta - 1;
    CeilIndexCorrect(LOG2_QUANTUM, size);
    RoundUp(size, delta);
    ((size + deltaMask) / delta) * delta
  }

  lemma RoundUp(size: nat, d: nat)
    requires size >= 1 && d >= 1
    ensures ((size + (d - 1)) / d) * d == d * ((size - 1) / d + 1)
  {
    ModAddMultiple(size - 1, 1, d);
  }

  /** Rounding a multiple of d up to a multiple of d gives it back. */
  lemma RoundUpMultiple(size: nat, d: nat)
    requires size >= 1 && d >= 1 && size % d == 0
    ensures d * ((size - 1) / d + 1) == size
  {
    var s := size / d;
    assert size == d * s;
    DivModUnique(size - 1, d, s - 1, d - 1);
  }

  /** When size is a multiple of a power-of-two alignment, so is the class
      chosen for it: either the step is at least the alignment, or the step
      divides size and size is itself a class. */
  lemma CeilIndexAligned(size: nat, alignment: nat)
    requires size >= 1 && IsPow2(alignment) && size % alignment == 0
    ensures ScaledSize(LOG2_QUANTUM, CeilIndex(LOG2_QUANTUM, size)) % alignment == 0
  {
    var D := CeilIndexDelta(LOG2_QUANTUM, size);
    var d := Pow2(D);
    var e := Log2(alignment);
    CeilIndexCorrect(LOG2_QUANTUM, size);
    DivNonNegative(size - 1, d);
    if D >= e {
      StepMultiple((size - 1) / d + 1, D, e);
    } else {
      SmallerPow2Divides(size, D, e);
      RoundUpMultiple(size, d);
    }
  }

  /** A multiple of 2^D is a multiple of 2^e for e <= D. */
  lemma StepMultiple(k: int, D: nat, e: nat)
    requires k >= 0 && e <= D
    ensures (Pow2(D) * k) % Pow2(e) == 0
  {
    Pow2MultipleMod(k, e, D);
    assert Pow2(D) * k == k * Pow2(D);
  }

  /** A multiple of 2^e is a multiple of 2^D for D <= e. */
  lemma SmallerPow2Divides(x: int, D: nat, e: nat)
    requires D <= e && x % Pow2(e) == 0
    ensures x % Pow2(D) == 0
  {
    Pow2Add(D, e - D);
    ModTransitive(x, Pow2(D), Pow2(e - D));
  }

  /** pages2pageIdxCompute's index, for pagesSize = pages << pageShifts.  Its
      group test is `x < LOG2_SIZE_CLASS_GROUP + pageShifts` where
      size2SizeIdx has `+ 1`; at the one value where the two differ both give
      shift 0, so it is the ceiling index at scale 2^pageShifts. */
  function PagesCeilIndex(pageShifts: nat, pagesSize: nat): (pageIdx: nat)
    requires pagesSize >= 1
    ensures IsCeilIndex(pageShifts, pagesSize, pageIdx)
  {
    var x := Log2(2 * pagesSize - 1);
    var shift := if x < LOG2_SIZE_CLASS_GROUP + pageShifts then 0 else x - (LOG2_SIZE_CLASS_GROUP + pageShifts);
    var group := shift * Pow2(LOG2_SIZE_CLASS_GROUP);
    var log2Delta := if x < LOG2_SIZE_CLASS_GROUP + pageShifts + 1 then pageShifts else x - LOG2_SIZE_CLASS_GROUP - 1;
    var mod := ((pagesSize - 1) / Pow2(log2Delta)) % Pow2(LOG2_SIZE_CLASS_GROUP);
    CeilIndexCorrect(pageShifts, pagesSize);
    group + mod
  }
}
