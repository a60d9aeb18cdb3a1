/** Which rows of the size-class table carry which flags, and what the
    constructor's counters and the page table come to as a consequence.
    Everything here is stated for a page of 2^pageShifts bytes with
    pageShifts >= 12, the smallest page the allocator accepts. */
module SizeClassLayout {
  import opened Bits
  import opened SizeClassMath

  // ---------------------------------------------------------------------
  // Small arithmetic used below

  lemma MulCancel(a: int, x: int, y: int)
    requires a > 0 && a * x == a * y
    ensures x == y
  {
    assert a * (x - y) == 0;
    MulZero(a, x - y);
  }

  /** An odd multiple of 2^e is a multiple of 2^q exactly when e >= q. */
  lemma OddPow2Mod(c: nat, e: nat, q: nat)
    requires c % 2 == 1
    ensures (c * Pow2(e)) % Pow2(q) == 0 <==> e >= q
  {
    if e >= q {
      Pow2MultipleMod(c, q, e);
    } else {
      OddNotMultiple(c, e, q);
    }
  }

  lemma OddNotMultiple(c: nat, e: nat, q: nat)
    requires c % 2 == 1 && e < q
    ensures (c * Pow2(e)) % Pow2(q) != 0
  {
    var E, R := Pow2(e), Pow2(q - e - 1);
    assert Pow2(q) == E * (2 * R) by {
      Pow2Add(e, q - e);
    }
    OddNotMultipleCore(c, E, R);
  }

  lemma OddNotMultipleCore(c: int, E: int, R: int)
    requires c % 2 == 1 && E > 0 && R > 0
    ensures (c * E) % (E * (2 * R)) != 0
  {
    var P := E * (2 * R);
    if (c * E) % P == 0 {
      var k := (c * E) / P;
      assert c * E == P * k by {
        DivRange(c * E, P);
      }
      HalfOfEven(c, E, R, k);
      assert false;
    }
  }

  lemma HalfOfEven(c: int, E: int, R: int, k: int)
    requires E > 0 && c * E == (E * (2 * R)) * k
    ensures c == 2 * (R * k)
  {
    assert (E * (2 * R)) * k == E * (2 * (R * k));
    assert E * c == E * (2 * (R * k));
    MulCancel(E, c, 2 * (R * k));
  }

  /** Scaling both sides by the same positive factor keeps divisibility. */
  lemma ScaledDivides(c: int, x: int, y: int)
    requires c > 0 && y > 0
    ensures (c * x) % (c * y) == 0 <==> x % y == 0
  {
    if x % y == 0 {
      var k := x / y;
      assert x == y * k;
      assert c * x == (c * y) * k;
      MulModZero(k, c * y);
    }
    if (c * x) % (c * y) == 0 {
      var k := (c * x) / (c * y);
      assert c * x == (c * y) * k by {
        DivRange(c * x, c * y);
      }
      assert c * x == c * (y * k);
      MulCancel(c, x, y * k);
      MulModZero(k, y);
    }
  }

  // ---------------------------------------------------------------------
  // The flags of row i

  /** The exponent newSizeClass computes for a row past the first group is
      the floor log2 of the row's size; deltas carry into the next power of
      two only at the fourth class of a group. */
  lemma RowLog2Size(i: nat)
    requires i >= 4
    ensures Log2Size(Log2GroupAt(i), Log2DeltaAt(i), NDeltaAt(i))
            == (if i % 4 == 3 then i / 4 + 6 else i / 4 + 5)
    ensures Log2Size(Log2GroupAt(i), Log2DeltaAt(i), NDeltaAt(i)) == Log2(ClassSize(i))
  {
    var g, m := i / 4, i % 4;
    assert Log2GroupAt(i) == g + 5 && Log2DeltaAt(i) == g + 3 && NDeltaAt(i) == m + 1;
    GroupLog2Size(g, m);
    assert ClassSize(i) == Pow2(g + 3) * (m + 5) by {
      assert i == 4 * g + m;
      ClassSizeIsScaled(i);
      ScaledAt(LOG2_QUANTUM, g, m);
    }
    GroupClassLog2(g, m);
  }

  /** The table's exponent for class m of group g >= 1. */
  lemma GroupLog2Size(g: nat, m: nat)
    requires m < 4
    ensures Log2Size(g + 5, g + 3, m + 1) == (if m == 3 then g + 6 else g + 5)
  {
    assert Log2(1) == 0 && Log2(2) == 1 && Log2(3) == 1 && Log2(4) == 2;
  }

  /** The floor log2 of 2^(g+3) * (m + 5). */
  lemma GroupClassLog2(g: nat, m: nat)
    requires m < 4
    ensures Log2(Pow2(g + 3) * (m + 5)) == (if m == 3 then g + 6 else g + 5)
  {
    var s := Pow2(g + 3) * (m + 5);
    var P := Pow2(g + 3);
    assert Pow2(g + 5) == 4 * P && Pow2(g + 6) == 8 * P && Pow2(g + 7) == 16 * P by {
      Pow2Values();
      Pow2Add(g + 3, 2);
      Pow2Add(g + 3, 3);
      Pow2Add(g + 3, 4);
    }
    StepFactor(P, m);
    if m == 3 {
      Log2Unique(s, g + 6);
    } else {
      Log2Unique(s, g + 5);
    }
  }

  lemma StepFactor(P: int, m: int)
    requires P > 0 && 0 <= m < 4
    ensures 4 * P < P * (m + 5) <= 8 * P
    ensures P * (m + 5) == 8 * P <==> m == 3
  {
    if m == 0 {
      assert P * (m + 5) == 5 * P;
    } else if m == 1 {
      assert P * (m + 5) == 6 * P;
    } else if m == 2 {
      assert P * (m + 5) == 7 * P;
    } else {
      assert P * (m + 5) == 8 * P;
    }
  }

  /** In the first group the same rule gives 5, 5, 4, 4 where the sizes
      16, 32, 48, 64 have floor log2 4, 5, 5, 6; the value only feeds the
      subpage and lookup flags, which it cannot change there. */
  lemma FirstGroupLog2Size()
    ensures Log2Size(4, 4, 0) == 5 && Log2Size(4, 4, 1) == 5
    ensures Log2Size(4, 4, 2) == 4 && Log2Size(4, 4, 3) == 4
  {
    assert Log2(2) == 1 && Log2(3) == 1;
  }

  /** isSubpage holds for exactly the rows up to 4 * pageShifts - 18. */
  lemma SubpageAt(i: nat, pageShifts: nat)
    requires pageShifts >= 12
    ensures Row(i, pageShifts).isSubpage <==> i <= 4 * pageShifts - 18
  {
    if i < 4 {
      FirstGroupLog2Size();
    } else {
      RowLog2Size(i);
    }
  }

  /** ... which are the classes smaller than two pages. */
  lemma SubpageMeaning(i: nat, pageShifts: nat)
    requires pageShifts >= 12
    ensures Row(i, pageShifts).isSubpage <==> ClassSize(i) < 2 * Pow2(pageShifts)
  {
    SubpageAt(i, pageShifts);
    SizeAgainstBoundary(i, pageShifts + 1);
    assert Pow2(pageShifts + 1) == 2 * Pow2(pageShifts);
  }

  /** Classes below 4k - 21 are smaller than 2^k, the others are not. */
  lemma SizeAgainstBoundary(i: nat, k: nat)
    requires k >= 6
    ensures ClassSize(i) < Pow2(k) <==> i < 4 * k - 21
  {
    var b := 4 * k - 21;
    ClassSizeIsScaled(i);
    ScaledPow2(k);
    if i < b {
      ScaledMonotone(LOG2_QUANTUM, i, b);
    } else {
      ScaledMonotoneLe(LOG2_QUANTUM, b, i);
    }
  }

  /** log2DeltaLookup is non-zero for exactly the rows 0..27. */
  lemma LookupAt(i: nat, pageShifts: nat)
    ensures Row(i, pageShifts).log2DeltaLookup != 0 <==> i <= 27
  {
    if i < 4 {
      FirstGroupLog2Size();
    } else {
      RowLog2Size(i);
      assert Log2(2) == 1 && Log2(3) == 1 && Log2(4) == 2;
      Pow2Values();
    }
  }

  /** ... which are the classes of at most 2^LOG2_MAX_LOOKUP_SIZE bytes. */
  lemma LookupMeaning(i: nat, pageShifts: nat)
    ensures Row(i, pageShifts).log2DeltaLookup != 0 <==> ClassSize(i) <= Pow2(LOG2_MAX_LOOKUP_SIZE)
  {
    LookupAt(i, pageShifts);
    ClassSizePow2(LOG2_MAX_LOOKUP_SIZE);
    ClassSizeIsScaled(i);
    ClassSizeIsScaled(27);
    if i < 27 {
      ScaledMonotone(LOG2_QUANTUM, i, 27);
    } else if i > 27 {
      ScaledMonotone(LOG2_QUANTUM, 27, i);
    }
  }

  /** Rows whose size is a whole number of pages, for q = pageShifts - 4:
      the last class of groups q - 2 and q - 1, the second and fourth of
      group q, and every class from group q + 1 on. */
  predicate IsPageClass(i: nat, q: nat) {
    i == 4 * q - 5 || i == 4 * q - 1 || i == 4 * q + 1 || i == 4 * q + 3 || i >= 4 * q + 4
  }

  lemma UnitsPageMultiple(i: nat, q: nat)
    requires q >= 8
    ensures Units(i) % Pow2(q) == 0 <==> IsPageClass(i, q)
  {
    if i < 4 {
      assert Units(i) < Pow2(q) by {
        Pow2Values();
        Pow2Monotone(3, q);
      }
      DivModUnique(Units(i), Pow2(q), 0, Units(i));
    } else {
      var g, m := i / 4, i % 4;
      assert i == 4 * g + m;
      UnitsAtGroup(g, m);
      GroupUnitsPage(g, m, q);
    }
  }

  /** Class m of group g >= 1 is 2^(g-1) * (m + 5) units. */
  lemma GroupUnitsPage(g: nat, m: nat, q: nat)
    requires g >= 1 && m < 4 && q >= 8
    ensures (Pow2(g - 1) * (m + 5)) % Pow2(q) == 0 <==> IsPageClass(4 * g + m, q)
  {
    if m == 3 {
      EightUnits(g - 1);
      OddPow2Mod(1, g + 2, q);
    } else if m == 1 {
      SixUnits(g - 1);
      OddPow2Mod(3, g, q);
    } else {
      assert Pow2(g - 1) * (m + 5) == (m + 5) * Pow2(g - 1);
      OddPow2Mod(m + 5, g - 1, q);
    }
  }

  lemma EightUnits(r: nat)
    ensures Pow2(r) * (3 + 5) == 1 * Pow2(r + 3)
  {
    Pow2Add(r, 3);
    Pow2Values();
  }

  lemma SixUnits(r: nat)
    ensures Pow2(r) * (1 + 5) == 3 * Pow2(r + 1)
  {
    Pow2Succ(r);
  }

  /** isMultiPageSize holds for exactly the page classes. */
  lemma MultiPageAt(i: nat, pageShifts: nat)
    requires pageShifts >= 12
    ensures Row(i, pageShifts).isMultiPageSize <==> ClassSize(i) % Pow2(pageShifts) == 0
    ensures Row(i, pageShifts).isMultiPageSize <==> IsPageClass(i, pageShifts - 4)
  {
    var q := pageShifts - 4;
    assert Row(i, pageShifts).isMultiPageSize <==> ClassSize(i) % Pow2(pageShifts) == 0;
    assert ClassSize(i) == 16 * Units(i) && Pow2(pageShifts) == 16 * Pow2(q) by {
      ClassSizeIsScaled(i);
      Pow2Values();
      Pow2Add(4, q);
    }
    ScaledDivides(16, Units(i), Pow2(q));
    UnitsPageMultiple(i, q);
  }

  // ---------------------------------------------------------------------
  // Page indices

  /** How many page classes lie below row n. */
  function PageCount(n: nat, q: nat): nat {
    if n <= 4 * q - 5 then 0
    else if n <= 4 * q - 1 then 1
    else if n <= 4 * q + 1 then 2
    else if n <= 4 * q + 3 then 3
    else n - 4 * q
  }

  lemma PageCountStep(i: nat, q: nat)
    requires q >= 8
    ensures PageCount(i + 1, q) == PageCount(i, q) + (if IsPageClass(i, q) then 1 else 0)
  {
  }

  lemma PageCountMonotone(i: nat, n: nat, q: nat)
    requires i <= n
    ensures PageCount(i, q) <= PageCount(n, q)
  {
  }

  /** The page class at row i holds PageCount(i) + 1 ... pages in the page
      progression: its size is the page progression's entry number
      PageCount(i), so the page classes, in row order, are exactly that
      progression. */
  lemma PageClassUnits(i: nat, q: nat)
    requires q >= 8 && IsPageClass(i, q)
    ensures Units(i) == Pow2(q) * Units(PageCount(i, q))
  {
    if i == 4 * q - 5 {
      OnePage(q - 2);
    } else if i == 4 * q - 1 {
      TwoPages(q - 1);
    } else if i == 4 * q + 1 {
      ThreePages(q);
    } else if i == 4 * q + 3 {
      FourPages(q);
    } else {
      PageClassUnitsLarge(i, q);
    }
  }

  lemma OnePage(r: nat)
    ensures Units(4 * r + 3) == Pow2(r + 2) * 1
  {
    UnitsGroupEnd(r);
  }

  lemma TwoPages(r: nat)
    ensures Units(4 * r + 3) == Pow2(r + 1) * 2
  {
    UnitsGroupEnd(r);
    Pow2Add(r + 1, 1);
    Pow2Values();
  }

  lemma ThreePages(q: nat)
    requires q >= 1
    ensures Units(4 * q + 1) == Pow2(q) * 3
  {
    UnitsAtGroup(q, 1);
    Pow2Succ(q - 1);
    Halves(Units(4 * q + 1), Pow2(q - 1), Pow2(q));
  }

  lemma Halves(u: int, h: int, p: int)
    requires u == h * 6 && p == 2 * h
    ensures u == p * 3
  {
  }

  lemma FourPages(q: nat)
    ensures Units(4 * q + 3) == Pow2(q) * 4
  {
    UnitsGroupEnd(q);
    Pow2Add(q, 2);
    Pow2Values();
  }

  lemma PageClassUnitsLarge(i: nat, q: nat)
    requires i >= 4 * q + 4
    ensures Units(i) == Pow2(q) * Units(i - 4 * q)
  {
    var h, m := i / 4 - q, i % 4;
    assert i == 4 * (h + q) + m && i - 4 * q == 4 * h + m && h >= 1 && m < 4;
    PageClassUnitsGroup(h, m, q);
  }

  /** Class m of group h + q is 2^q times class m of group h. */
  lemma PageClassUnitsGroup(h: nat, m: nat, q: nat)
    requires h >= 1 && m < 4
    ensures Units(4 * (h + q) + m) == Pow2(q) * Units(4 * h + m)
  {
    UnitsAtGroup(h + q, m);
    UnitsAtGroup(h, m);
    Pow2Add(q, h - 1);
    ScaleUnits(Pow2(q), Pow2(h - 1), m + 5, Units(4 * (h + q) + m), Units(4 * h + m));
  }

  lemma ScaleUnits(p: int, q: int, k: int, u: int, v: int)
    requires u == (p * q) * k && v == q * k
    ensures u == p * v
  {
  }

  lemma MulAssoc(a: int, b: int, c: int)
    ensures (a * b) * c == a * (b * c)
  {
  }

  /** Valid alignments: none, or a power of two no larger than a page. */
  predicate PageAlignment(alignment: int, pageShifts: nat) {
    alignment <= 0 || (IsPow2(alignment) && alignment <= Pow2(pageShifts))
  }

  /** A page class keeps its size under any alignment up to a page. */
  lemma PageClassAligned(i: nat, pageShifts: nat, alignment: int)
    requires pageShifts >= 12 && PageAlignment(alignment, pageShifts)
    requires Row(i, pageShifts).isMultiPageSize
    ensures SizeOf(Row(i, pageShifts), alignment) == ClassSize(i)
    ensures ClassSize(i) == ScaledSize(pageShifts, PageCount(i, pageShifts - 4))
  {
    var q := pageShifts - 4;
    var P := Pow2(pageShifts);
    MultiPageAt(i, pageShifts);
    if alignment > 0 {
      assert P % alignment == 0 by {
        Pow2IsPow2(pageShifts);
        Pow2Divides(alignment, P);
      }
      DividesThrough(ClassSize(i), alignment, P);
    }
    AlignMultiple(ClassSize(i), alignment);
    var U := Units(PageCount(i, q));
    assert Units(i) == Pow2(q) * U by {
      PageClassUnits(i, q);
    }
    assert ClassSize(i) == 16 * Units(i) && P == 16 * Pow2(q) by {
      ClassSizeIsScaled(i);
      Pow2Values();
      Pow2Add(4, q);
    }
    MulAssoc(16, Pow2(q), U);
  }

  /** A multiple of P is a multiple of every divisor of P. */
  lemma DividesThrough(x: int, a: int, P: int)
    requires a > 0 && P > 0 && P % a == 0 && x % P == 0
    ensures x % a == 0
  {
    var k := P / a;
    assert P == a * k by {
      DivRange(P, a);
    }
    ModTransitive(x, a, k);
  }

  // ---------------------------------------------------------------------
  // What the constructor's counting loop and page-table loop accumulate
  // over the first n rows, in closed form

  /** nSubpages after n rows: the rows flagged isSubpage are 0..4p-18. */
  function SubpageCount(n: nat, pageShifts: nat): nat
    requires pageShifts >= 12
  {
    if n <= 4 * pageShifts - 17 then n else 4 * pageShifts - 17
  }

  /** smallMaxSizeIdx after n rows: the last row flagged isSubpage, 0 before
      any row was counted. */
  function LastSubpage(n: nat, pageShifts: nat): nat
    requires pageShifts >= 12
  {
    if n == 0 then 0 else SubpageCount(n, pageShifts) - 1
  }

  /** lookupMaxSize after n rows: the aligned size of the last row with a
      lookup delta, which is row 27 (4096 bytes) once 28 rows were counted. */
  function LookupMax(n: nat, alignment: int): nat
    requires alignment <= 0 || IsPow2(alignment)
  {
    if n == 0 then 0 else AlignSizeIfNeeded(ClassSize(if n <= 28 then n - 1 else 27), alignment)
  }

  /** Counting row i moves nPSizes on exactly at the page classes. */
  lemma PageCountRow(i: nat, pageShifts: nat)
    requires pageShifts >= 12
    ensures PageCount(i + 1, pageShifts - 4)
            == PageCount(i, pageShifts - 4) + (if Row(i, pageShifts).isMultiPageSize then 1 else 0)
  {
    MultiPageAt(i, pageShifts);
    PageCountStep(i, pageShifts - 4);
  }

  /** Counting row i moves nSubpages and smallMaxSizeIdx on exactly at the
      subpage rows. */
  lemma SubpageRow(i: nat, pageShifts: nat)
    requires pageShifts >= 12
    ensures SubpageCount(i + 1, pageShifts)
            == SubpageCount(i, pageShifts) + (if Row(i, pageShifts).isSubpage then 1 else 0)
    ensures LastSubpage(i + 1, pageShifts)
            == if Row(i, pageShifts).isSubpage then i else LastSubpage(i, pageShifts)
  {
    SubpageAt(i, pageShifts);
  }

  /** Counting row i replaces lookupMaxSize exactly at the lookup rows. */
  lemma LookupRow(i: nat, pageShifts: nat, alignment: int)
    requires alignment <= 0 || IsPow2(alignment)
    ensures LookupMax(i + 1, alignment)
            == if Row(i, pageShifts).log2DeltaLookup != 0 then SizeOf(Row(i, pageShifts), alignment)
               else LookupMax(i, alignment)
  {
    LookupAt(i, pageShifts);
  }

  /** The page table's next entry: a multi-page row below which k rows are
      multi-page holds the k-th size of the page progression. */
  lemma PageEntry(i: nat, pageShifts: nat, alignment: int)
    requires pageShifts >= 12 && PageAlignment(alignment, pageShifts)
    requires Row(i, pageShifts).isMultiPageSize
    ensures SizeOf(Row(i, pageShifts), alignment) == ScaledSize(pageShifts, PageCount(i, pageShifts - 4))
  {
    PageClassAligned(i, pageShifts, alignment);
  }

  /** s lists the page progression 2^pageShifts * (1, 2, 3, 4, 5, 6, 7, 8,
      10, ...) from its start. */
  ghost predicate PageProgression(s: seq<int>, pageShifts: nat) {
    forall j :: 0 <= j < |s| ==> s[j] == ScaledSize(pageShifts, j)
  }

  /** The next entry of the progression extends it. */
  lemma ProgressionSnoc(s: seq<int>, x: int, pageShifts: nat)
    requires PageProgression(s, pageShifts) && x == ScaledSize(pageShifts, |s|)
    ensures PageProgression(s + [x], pageShifts)
  {
  }
}
