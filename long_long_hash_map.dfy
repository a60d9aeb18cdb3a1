/** The open-addressing map from 64-bit keys to 64-bit values that a pool
    chunk keeps its free runs in.  Keys and values share one array (key at
    an even position, its value right after it), key 0 lives in a field of
    its own, probing walks forward one slot pair at a time through a window
    of maxProbe pairs, and the array doubles when a key finds its window
    full of other keys. */
module LongLongMap {
  import opened Bits

  /** Java's `long`. */
  newtype int64 = x: int | -0x8000_0000_0000_0000 <= x < 0x8000_0000_0000_0000

  /** 2^64: the bit patterns of a `long`, read as unsigned numbers. */
  const TWO_64: int := 0x1_0000_0000_0000_0000

  /** `x >>> 33` on a bit pattern read as an unsigned number. */
  const SHIFT_33: int := 0x2_0000_0000

  /** The initial array length of the constructor. */
  const INITIAL_SIZE: int := 32

  /** ln 2 from below to fifteen digits: floor(e * LN2_NUM / LN2_DEN) is
      floor(e * ln 2) for every exponent e below 200. */
  const LN2_NUM: int := 693147180559945
  const LN2_DEN: int := 1000000000000000

  /** `a ^ b` on non-negative numbers, bit by bit. */
  function Xor(a: nat, b: nat): nat
    decreases a + b
  {
    if a == 0 && b == 0 then 0
    else (a % 2 + b % 2) % 2 + 2 * Xor(a / 2, b / 2)
  }

  /** The murmur3 64-bit finaliser that `index` applies to the key, on the
      key's bit pattern read as an unsigned number: `x ^= x >>> 33`, then a
      multiplication that wraps at 64 bits, twice, and a last xor-shift. */
  function Mix(key: int64): nat
  {
    var x0 := (key as int) % TWO_64;
    var x1 := Xor(x0, x0 / SHIFT_33);
    var x2 := (x1 * 0xff51afd7ed558ccd) % TWO_64;
    var x3 := Xor(x2, x2 / SHIFT_33);
    var x4 := (x3 * 0xc4ceb9fe1a85ec53) % TWO_64;
    Xor(x4, x4 / SHIFT_33)
  }

  /** For an even modulus the remainder keeps the parity. */
  lemma ModEven(x: int, m: int)
    requires m > 0 && m % 2 == 0
    ensures (x % m) % 2 == x % 2
  {
    var q := x / m;
    assert x == (x % m) + (m / 2 * q) * 2;
    ModAddMultiple(x % m, m / 2 * q, 2);
  }

  /** Reducing before adding does not change the remainder. */
  lemma ModAddReduce(x: int, c: int, m: int)
    requires m > 0
    ensures (x % m + c) % m == (x + c) % m
  {
    ModAddMultiple(x % m + c, x / m, m);
    assert x % m + c + (x / m) * m == x + c;
  }

  /** h mod m, by repeated subtraction. */
  function Reduce(h: nat, m: int): nat
    requires m > 0
    decreases h
  {
    if h < m then h else Reduce(h - m, m)
  }

  lemma {:induction false} ReduceIsMod(h: nat, m: int)
    requires m > 0
    ensures Reduce(h, m) == h % m
    decreases h
  {
    if h < m {
      DivModUnique(h, m, 0, h);
    } else {
      ReduceIsMod(h - m, m);
      ModAddMultiple(h - m, 1, m);
    }
  }

  /** `h & mask` for the even mask m - 2 of an even length m: the
      remainder modulo m with its lowest bit cleared is an even position
      no larger than the mask. */
  lemma LowBitsCleared(h: nat, m: int)
    requires m > 0 && m % 2 == 0
    ensures 0 <= h % m - h % 2 <= m - 2 && (h % m - h % 2) % 2 == 0
  {
    ModEven(h, m);
  }

  /** `index(key)`: `(int) hash & mask`.  The mask is the array length
      minus two, so for a power-of-two length it keeps bits 1 .. log2 - 1
      of the hash: the hash modulo the length with its lowest bit cleared.
      The result is an even position no larger than the mask, a key slot. */
  function Index(key: int64, mask: int): (index: int)
    requires mask >= 0 && mask % 2 == 0
    ensures 0 <= index <= mask && index % 2 == 0
  {
    var h := Mix(key);
    ReduceIsMod(h, mask + 2);
    LowBitsCleared(h, mask + 2);
    Reduce(h, mask + 2) - h % 2
  }

  /** The probe step `index + 2 & mask`: the next key slot, wrapping to 0
      after the last one. */
  function Next(index: int, mask: int): (next: int)
    requires mask >= 0 && mask % 2 == 0 && 0 <= index <= mask && index % 2 == 0
    ensures 0 <= next <= mask && next % 2 == 0
    ensures next == if index == mask then 0 else index + 2
  {
    if index == mask then
      DivModUnique(index + 2, mask + 2, 1, 0);
      (index + 2) % (mask + 2)
    else
      DivModUnique(index + 2, mask + 2, 0, index + 2);
      (index + 2) % (mask + 2)
  }

  /** `x & ~1` (`MASK_TEMPLATE`): x with its lowest bit cleared. */
  function ClearLowBit(x: nat): (r: nat)
    ensures r % 2 == 0 && r <= x <= r + 1
  {
    x - x % 2
  }

  /** `(int) Math.log(length)` for a power-of-two length 2^e: floor(e ln 2). */
  function MaxProbe(length: int): nat
    requires length >= 1
  {
    Log2(length) * LN2_NUM / LN2_DEN
  }

  /** The probe windows of the lengths the map goes through. */
  lemma MaxProbeValues()
    ensures MaxProbe(32) == 3 && MaxProbe(64) == 4 && MaxProbe(128) == 4
    ensures MaxProbe(256) == 5 && MaxProbe(1024) == 6
  {
    Log2Pow2(5);
    Log2Pow2(6);
    Log2Pow2(7);
    Log2Pow2(8);
    Log2Pow2(10);
    Pow2Values();
    assert Pow2(5) == 32;
    assert Pow2(7) == 2 * Pow2(6);
    assert Pow2(8) == 2 * Pow2(7);
    assert Pow2(10) == 4 * Pow2(8);
  }

  /** e < 2^(e-1) from e = 3 on. */
  lemma {:induction false} ExponentBelow(e: nat)
    requires e >= 3
    ensures e < Pow2(e - 1)
  {
    if e == 3 {
      Pow2Values();
    } else {
      ExponentBelow(e - 1);
      Pow2Succ(e - 2);
    }
  }

  /** The window is shorter than the number of slot pairs, so its probes,
      and the one past it, reach distinct slots. */
  lemma WindowFits(length: int)
    requires IsPow2(length) && length >= 8
    ensures MaxProbe(length) < length / 2
  {
    var e := Log2(length);
    if e < 3 {
      Pow2Monotone(e + 1, 3);
      Pow2Values();
    }
    ExponentBelow(e);
    Pow2Succ(e - 1);
  }

  /** An even number below an even bound is at most two below it. */
  lemma Twice(n: int)
    ensures (2 * n) % 2 == 0
  {
  }

  lemma Halve(x: int) returns (h: int)
    requires x % 2 == 0
    ensures 2 * h == x
  {
    h := x / 2;
  }

  lemma EvenBelow(p: int, length: int)
    requires p % 2 == 0 && length % 2 == 0 && p < length
    ensures p <= length - 2
  {
  }

  /** A value slot is never a key slot. */
  lemma ValueSlotIsNotKeySlot(x: int, y: int)
    requires x % 2 == 0 && y % 2 == 0
    ensures x + 1 != y
  {
  }

  /** An even number modulo an even length is an even slot position. */
  lemma EvenMod(x: int, length: int)
    requires x % 2 == 0 && length > 0 && length % 2 == 0
    ensures 0 <= x % length <= length - 2 && (x % length) % 2 == 0
  {
    ModEven(x, length);
    EvenBelow(x % length, length);
  }

  /** Two steps at a time from an even start stay on even positions. */
  lemma EvenWalk(start: int, j: int, length: int)
    requires start % 2 == 0 && length > 0 && length % 2 == 0
    ensures 0 <= (start + 2 * j) % length <= length - 2 && ((start + 2 * j) % length) % 2 == 0
  {
    assert (start + 2 * j) % 2 == 0;
    EvenMod(start + 2 * j, length);
  }

  /** Walking from an even start in steps of two, modulo an even length:
      the first position is the start, a step adds two modulo the length,
      distinct step counts below half the length give distinct positions,
      and every even position is reached. */
  lemma WalkFirst(start: int, length: int)
    requires 0 <= start < length
    ensures (start + 2 * 0) % length == start
  {
    DivModUnique(start, length, 0, start);
  }

  lemma WalkStep(start: int, j: int, length: int)
    requires length > 0
    ensures ((start + 2 * j) % length + 2) % length == (start + 2 * (j + 1)) % length
  {
    ModAddReduce(start + 2 * j, 2, length);
  }

  lemma WalkCount(start: int, j: int, length: int)
    requires length > 0 && 0 <= j && 2 * j < length
    ensures (((start + 2 * j) % length - start) % length) / 2 == j
  {
    ModAddReduce(start + 2 * j, -start, length);
    DivModUnique(2 * j, length, 0, 2 * j);
  }

  lemma WalkReach(start: int, p: int, length: int)
    requires start % 2 == 0 && p % 2 == 0 && length > 0 && length % 2 == 0 && 0 <= p < length
    ensures 0 <= ((p - start) % length) / 2 < length / 2
    ensures (start + 2 * (((p - start) % length) / 2)) % length == p
  {
    var d := (p - start) % length;
    EvenMod(p - start, length);
    assert 2 * (d / 2) == d;
    ModAddReduce(p - start, start, length);
    DivModUnique(p, length, 0, p);
  }

  /** Slot position of the probe number j of key in an array of `length`:
      j steps of two from the key's index, wrapping at the length. */
  function Probe(key: int64, j: nat, length: int): (p: int)
    requires length >= 2 && length % 2 == 0
    ensures 0 <= p <= length - 2 && p % 2 == 0
  {
    var index := Index(key, length - 2);
    EvenWalk(index, j, length);
    ReduceIsMod(index + 2 * j, length);
    Reduce(index + 2 * j, length)
  }

  /** Which probe of key reaches the slot at p: the distance from the
      key's index forward to p, wrapping at the length, in steps of two. */
  function ProbeNum(key: int64, p: nat, length: int): int
    requires length >= 2 && length % 2 == 0
  {
    Reduce(p - Index(key, length - 2) + length, length) / 2
  }

  lemma ProbeNumIsMod(key: int64, p: nat, length: int)
    requires length >= 2 && length % 2 == 0
    ensures ProbeNum(key, p, length) == ((p - Index(key, length - 2)) % length) / 2
  {
    var index := Index(key, length - 2);
    ReduceIsMod(p - index + length, length);
    ModAddMultiple(p - index, 1, length);
  }

  lemma ProbeFirst(key: int64, length: int)
    requires length >= 2 && length % 2 == 0
    ensures Probe(key, 0, length) == Index(key, length - 2)
  {
    var index := Index(key, length - 2);
    ReduceIsMod(index, length);
    WalkFirst(index, length);
  }

  /** One step of `index + 2 & mask` moves to the next probe. */
  lemma ProbeStep(key: int64, j: nat, length: int)
    requires length >= 2 && length % 2 == 0
    ensures Next(Probe(key, j, length), length - 2) == Probe(key, j + 1, length)
  {
    var index := Index(key, length - 2);
    ReduceIsMod(index + 2 * j, length);
    ReduceIsMod(index + 2 * (j + 1), length);
    WalkStep(index, j, length);
  }

  /** Probes within half the length reach distinct slots: each is told
      apart by its number. */
  lemma ProbeNumOfProbe(key: int64, j: nat, length: int)
    requires length >= 2 && length % 2 == 0 && j < length / 2
    ensures ProbeNum(key, Probe(key, j, length), length) == j
  {
    var index := Index(key, length - 2);
    ReduceIsMod(index + 2 * j, length);
    ProbeNumIsMod(key, Probe(key, j, length), length);
    WalkCount(index, j, length);
  }

  /** Reduce of a number below twice the modulus takes at most one step. */
  lemma ReduceSmall(x: nat, m: int)
    requires 0 < m && x < 2 * m
    ensures Reduce(x, m) == if x < m then x else x - m
  {
  }

  /** Every key slot is reached by a probe of every key. */
  lemma ProbeOfProbeNum(key: int64, p: nat, length: int)
    requires length >= 2 && length % 2 == 0 && p < length && p % 2 == 0
    ensures 0 <= ProbeNum(key, p, length) < length / 2
    ensures Probe(key, ProbeNum(key, p, length), length) == p
  {
    var index := Index(key, length - 2);
    var p2 := Halve(p);
    var index2 := Halve(index);
    var length2 := Halve(length);
    var d := p - index + length;
    ReduceSmall(d, length);
    var n := ProbeNum(key, p, length);
    assert n == if p < index then p2 - index2 + length2 else p2 - index2;
    ReduceSmall(index + 2 * n, length);
  }

  /** The doublings still possible while a full window is possible with n
      keys: a window of maxProbe slots can only be full when at least
      maxProbe keys are stored, and floor(e ln 2) passes n before e
      reaches 2n + 4. */
  function Slack(length: int, n: nat): nat
    requires length >= 1
  {
    if Log2(length) <= 2 * n + 4 then 2 * n + 4 - Log2(length) else 0
  }

  /** A full window at some length means doubling (or more) the length with
      no more keys leaves less slack. */
  lemma SlackShrinks(length0: int, n0: nat, length: int, n: nat)
    requires IsPow2(length0) && IsPow2(length) && length >= 2 * length0
    requires n <= n0 && MaxProbe(length0) <= n0
    ensures Slack(length, n) < Slack(length0, n0)
  {
    var e0, e := Log2(length0), Log2(length);
    if e <= e0 {
      Pow2Monotone(e, e0);
    }
    assert e0 * LN2_NUM / LN2_DEN <= n0;
    DivRange(e0 * LN2_NUM, LN2_DEN);
    assert e0 * LN2_NUM < (n0 + 1) * LN2_DEN;
  }

  /** Slack never grows with the length. */
  lemma SlackMonotone(length0: int, length: int, n: nat)
    requires IsPow2(length0) && IsPow2(length) && length >= length0
    ensures Slack(length, n) <= Slack(length0, n)
  {
    if Log2(length) < Log2(length0) {
      Pow2StrictMonotone(Log2(length), Log2(length0));
    }
  }

  /** A copy of key further along the walk than probe j that is not at
      probe j + 1 is further along than j + 1. */
  lemma StaleAhead(a: seq<int64>, key: int64, stale: int, j: nat, length: int)
    requires |a| == length >= 2 && length % 2 == 0
    requires 0 <= stale <= length - 2 && stale % 2 == 0 && a[stale] == key
    requires j < ProbeNum(key, stale, length) && a[Probe(key, j + 1, length)] != key
    ensures j + 1 < ProbeNum(key, stale, length)
  {
    ProbeOfProbeNum(key, stale, length);
  }

  /** Writing the pair at index leaves the pair at another even slot as it was. */
  lemma PairKept(a: seq<int64>, index: int, key: int64, value: int64, p: int)
    requires 0 <= index <= |a| - 2 && index % 2 == 0
    requires 0 <= p <= |a| - 2 && p % 2 == 0 && p != index
    ensures a[index := key][index + 1 := value][p] == a[p]
    ensures a[index := key][index + 1 := value][p + 1] == a[p + 1]
  {
    ValueSlotIsNotKeySlot(index, p);
    ValueSlotIsNotKeySlot(p, index);
  }

  /** Every key of pos sits inside its probe window. */
  ghost predicate Windows(pos: map<int64, int>, length: int, maxProbe: int)
    requires length >= 2 && length % 2 == 0
  {
    forall k {:trigger ProbeNum(k, pos[k], length)} :: k in pos ==> 0 <= pos[k] && ProbeNum(k, pos[k], length) < maxProbe
  }

  lemma WindowsRemove(pos: map<int64, int>, length: int, maxProbe: int, key: int64)
    requires length >= 2 && length % 2 == 0 && Windows(pos, length, maxProbe)
    ensures Windows(pos - {key}, length, maxProbe)
  {
    var rest := pos - {key};
    forall k | k in rest
      ensures 0 <= rest[k] && ProbeNum(k, rest[k], length) < maxProbe
    {
      assert rest[k] == pos[k] && ProbeNum(k, pos[k], length) < maxProbe;
    }
  }

  lemma WindowsAdd(pos: map<int64, int>, length: int, maxProbe: int, key: int64, p: int)
    requires length >= 2 && length % 2 == 0 && Windows(pos, length, maxProbe)
    requires 0 <= p && ProbeNum(key, p, length) < maxProbe
    ensures Windows(pos[key := p], length, maxProbe)
  {
    var more := pos[key := p];
    forall k | k in more
      ensures 0 <= more[k] && ProbeNum(k, more[k], length) < maxProbe
    {
      if k != key {
        assert more[k] == pos[k] && ProbeNum(k, pos[k], length) < maxProbe;
      }
    }
  }

  /** Every stored key k sits at the even slot pos[k] with its value right
      after it; contents and pos have the same keys and key 0 is not one. */
  ghost predicate Placed(a: seq<int64>, contents: map<int64, int64>, pos: map<int64, int>)
    requires |a| >= 2 && |a| % 2 == 0
  {
    contents.Keys == pos.Keys && 0 !in contents
    && (forall k :: k in pos ==>
          0 <= pos[k] <= |a| - 2 && pos[k] % 2 == 0
          && a[pos[k]] == k && a[pos[k] + 1] == contents[k])
  }

  /** Every non-zero key slot other than `except` is its key's own slot,
      so no key is stored twice. */
  ghost predicate Owned(a: seq<int64>, pos: map<int64, int>, except: int)
    requires |a| >= 2 && |a| % 2 == 0
  {
    forall s :: 0 <= s < |a| / 2 && 2 * s != except && a[2 * s] != 0 ==>
      a[2 * s] in pos && pos[a[2 * s]] == 2 * s
  }

  /** The slot layout of the table `a`: its pairs are placed, each inside
      its probe window, and owned by a single slot apart from `except`. */
  ghost predicate Layout(a: seq<int64>, contents: map<int64, int64>, pos: map<int64, int>,
                         maxProbe: int, except: int)
    requires |a| >= 2 && |a| % 2 == 0
  {
    Placed(a, contents, pos) && Windows(pos, |a|, maxProbe) && Owned(a, pos, except)
  }

  /** A fresh, zeroed table stores nothing. */
  lemma LayoutEmpty(a: seq<int64>, maxProbe: int)
    requires |a| >= 2 && |a| % 2 == 0
    requires forall p :: 0 <= p < |a| ==> a[p] == 0
    ensures Layout(a, map[], map[], maxProbe, -1)
  {
  }

  /** A non-zero key slot is its key's own slot and holds its value. */
  lemma LayoutFound(a: seq<int64>, contents: map<int64, int64>, pos: map<int64, int>,
                    maxProbe: int, p: int)
    requires |a| >= 2 && |a| % 2 == 0 && Layout(a, contents, pos, maxProbe, -1)
    requires 0 <= p <= |a| - 2 && p % 2 == 0 && a[p] != 0
    ensures a[p] in contents && pos[a[p]] == p && p + 1 < |a| && contents[a[p]] == a[p + 1]
  {
    assert a[2 * (p / 2)] == a[p];
  }

  /** A stored key is reached by a probe of its window. */
  lemma LayoutWindow(a: seq<int64>, contents: map<int64, int64>, pos: map<int64, int>,
                     maxProbe: int, except: int, key: int64)
    requires |a| >= 2 && |a| % 2 == 0 && Layout(a, contents, pos, maxProbe, except)
    requires key in contents
    ensures 0 <= pos[key] < |a| && pos[key] % 2 == 0
    ensures 0 <= ProbeNum(key, pos[key], |a|) < maxProbe
    ensures Probe(key, ProbeNum(key, pos[key], |a|), |a|) == pos[key]
    ensures a[Probe(key, ProbeNum(key, pos[key], |a|), |a|)] == key
  {
    ProbeOfProbeNum(key, pos[key], |a|);
  }

  /** A key none of whose window probes holds it is not stored. */
  lemma LayoutMissing(a: seq<int64>, contents: map<int64, int64>, pos: map<int64, int>,
                      maxProbe: int, key: int64)
    requires |a| >= 2 && |a| % 2 == 0 && Layout(a, contents, pos, maxProbe, -1)
    requires forall j :: 0 <= j < maxProbe ==> a[Probe(key, j, |a|)] != key
    ensures key !in contents
  {
    if key in contents {
      LayoutWindow(a, contents, pos, maxProbe, -1, key);
    }
  }

  lemma PlacedRemove(a: seq<int64>, contents: map<int64, int64>, pos: map<int64, int>, p: int)
    requires |a| >= 2 && |a| % 2 == 0 && Placed(a, contents, pos)
    requires 0 <= p <= |a| - 2 && p % 2 == 0 && a[p] != 0
    ensures Placed(a[p := 0], contents - {a[p]}, pos - {a[p]})
  {
    var a' := a[p := 0];
    forall k | k in pos - {a[p]}
      ensures a'[pos[k]] == k && a'[pos[k] + 1] == contents[k]
    {
      ValueSlotIsNotKeySlot(pos[k], p);
    }
  }

  lemma OwnedRemove(a: seq<int64>, pos: map<int64, int>, p: int)
    requires |a| >= 2 && |a| % 2 == 0 && Owned(a, pos, -1)
    requires 0 <= p <= |a| - 2 && p % 2 == 0
    ensures Owned(a[p := 0], pos - {a[p]}, -1)
  {
    var a' := a[p := 0];
    assert a[2 * (p / 2)] == a[p];
    forall s | 0 <= s < |a'| / 2 && a'[2 * s] != 0
      ensures a'[2 * s] in pos - {a[p]} && (pos - {a[p]})[a'[2 * s]] == 2 * s
    {
      assert a'[2 * s] == a[2 * s];
    }
  }

  /** Clearing a key's slot removes the key and keeps the layout. */
  lemma LayoutRemove(a: seq<int64>, contents: map<int64, int64>, pos: map<int64, int>,
                     maxProbe: int, p: int)
    requires |a| >= 2 && |a| % 2 == 0 && Layout(a, contents, pos, maxProbe, -1)
    requires 0 <= p <= |a| - 2 && p % 2 == 0 && a[p] != 0
    ensures Layout(a[p := 0], contents - {a[p]}, pos - {a[p]}, maxProbe, -1)
  {
    PlacedRemove(a, contents, pos, p);
    OwnedRemove(a, pos, p);
    WindowsRemove(pos, |a|, maxProbe, a[p]);
  }

  lemma PlacedWrite(a: seq<int64>, contents: map<int64, int64>, pos: map<int64, int>,
                    key: int64, value: int64, index: int)
    requires |a| >= 2 && |a| % 2 == 0 && Placed(a, contents, pos)
    requires key != 0 && 0 <= index <= |a| - 2 && index % 2 == 0
    requires a[index] == key || a[index] == 0
    ensures Placed(a[index := key][index + 1 := value], contents[key := value], pos[key := index])
  {
    var a' := a[index := key][index + 1 := value];
    EvenBelow(index, |a|);
    forall k | k in pos && k != key
      ensures a'[pos[k]] == k && a'[pos[k] + 1] == contents[k]
    {
      ValueSlotIsNotKeySlot(pos[k], index);
      ValueSlotIsNotKeySlot(index, pos[k]);
    }
  }

  lemma OwnedWrite(a: seq<int64>, pos: map<int64, int>, key: int64, value: int64,
                   index: int, stale: int)
    requires |a| >= 2 && |a| % 2 == 0 && Owned(a, pos, -1)
    requires key != 0 && 0 <= index <= |a| - 2 && index % 2 == 0
    requires a[index] == key || a[index] == 0
    requires stale == if a[index] == 0 && key in pos then pos[key] else -1
    ensures Owned(a[index := key][index + 1 := value], pos[key := index], stale)
  {
    var a' := a[index := key][index + 1 := value];
    assert a[2 * (index / 2)] == a[index];
    forall s | 0 <= s < |a'| / 2 && 2 * s != stale && a'[2 * s] != 0
      ensures a'[2 * s] in pos[key := index] && pos[key := index][a'[2 * s]] == 2 * s
    {
      if 2 * s != index {
        ValueSlotIsNotKeySlot(index, 2 * s);
        assert a'[2 * s] == a[2 * s];
      }
    }
  }

  /** Writing key and value at an empty slot or at key's own slot, inside
      key's window, stores the pair; an older copy of key further along is
      then the one slot left unowned. */
  lemma LayoutWrite(a: seq<int64>, contents: map<int64, int64>, pos: map<int64, int>,
                    maxProbe: int, key: int64, value: int64, index: int, stale: int)
    requires |a| >= 2 && |a| % 2 == 0 && Layout(a, contents, pos, maxProbe, -1)
    requires key != 0 && 0 <= index <= |a| - 2 && index % 2 == 0
    requires a[index] == key || a[index] == 0
    requires ProbeNum(key, index, |a|) < maxProbe
    requires stale == if a[index] == 0 && key in contents then pos[key] else -1
    ensures Layout(a[index := key][index + 1 := value], contents[key := value],
                   pos[key := index], maxProbe, stale)
  {
    PlacedWrite(a, contents, pos, key, value, index);
    OwnedWrite(a, pos, key, value, index, stale);
    WindowsAdd(pos, |a|, maxProbe, key, index);
  }

  /** A copy of key at a slot other than key's own is the unowned one. */
  lemma LayoutStale(a: seq<int64>, contents: map<int64, int64>, pos: map<int64, int>,
                    maxProbe: int, stale: int, key: int64, p: int)
    requires |a| >= 2 && |a| % 2 == 0 && Layout(a, contents, pos, maxProbe, stale)
    requires key in pos && 0 <= p <= |a| - 2 && p % 2 == 0 && a[p] == key && key != 0
    requires p != pos[key]
    ensures p == stale
  {
    assert a[2 * (p / 2)] == key;
  }

  lemma PlacedClear(a: seq<int64>, contents: map<int64, int64>, pos: map<int64, int>, stale: int)
    requires |a| >= 2 && |a| % 2 == 0 && Placed(a, contents, pos)
    requires 0 <= stale <= |a| - 2 && stale % 2 == 0 && a[stale] in pos && pos[a[stale]] != stale
    ensures Placed(a[stale := 0], contents, pos)
  {
    var a' := a[stale := 0];
    forall k | k in pos
      ensures a'[pos[k]] == k && a'[pos[k] + 1] == contents[k]
    {
      ValueSlotIsNotKeySlot(pos[k], stale);
    }
  }

  lemma OwnedClear(a: seq<int64>, pos: map<int64, int>, stale: int)
    requires |a| >= 2 && |a| % 2 == 0 && Owned(a, pos, stale)
    requires 0 <= stale <= |a| - 2 && stale % 2 == 0
    ensures Owned(a[stale := 0], pos, -1)
  {
    var a' := a[stale := 0];
    forall s | 0 <= s < |a'| / 2 && a'[2 * s] != 0
      ensures a'[2 * s] in pos && pos[a'[2 * s]] == 2 * s
    {
      assert a'[2 * s] == a[2 * s];
    }
  }

  /** Clearing the unowned copy restores the full layout. */
  lemma LayoutClear(a: seq<int64>, contents: map<int64, int64>, pos: map<int64, int>,
                    maxProbe: int, stale: int)
    requires |a| >= 2 && |a| % 2 == 0 && Layout(a, contents, pos, maxProbe, stale)
    requires 0 <= stale <= |a| - 2 && stale % 2 == 0 && a[stale] in pos && pos[a[stale]] != stale
    ensures Layout(a[stale := 0], contents, pos, maxProbe, -1)
  {
    PlacedClear(a, contents, pos, stale);
    OwnedClear(a, pos, stale);
  }

  /** Put's walk passing probe i of key's window, a slot holding another
      key: that key is stored, was not passed before, and its own probe
      number from key's home slot is i; key itself, if stored, lies further on. */
  lemma PassOver(a: seq<int64>, contents: map<int64, int64>, pos: map<int64, int>,
                 maxProbe: int, key: int64, i: int, seen: set<int64>) returns (seen': set<int64>)
    requires |a| >= 2 && |a| % 2 == 0 && Layout(a, contents, pos, maxProbe, -1)
    requires key != 0 && 0 <= i < maxProbe < |a| / 2
    requires a[Probe(key, i, |a|)] != key && a[Probe(key, i, |a|)] != 0
    requires key in contents ==> i <= ProbeNum(key, pos[key], |a|)
    requires seen <= contents.Keys && forall q :: q in seen ==> ProbeNum(key, pos[q], |a|) < i
    ensures key in contents ==> i + 1 <= ProbeNum(key, pos[key], |a|)
    ensures seen' <= contents.Keys && |seen'| == |seen| + 1
    ensures forall q :: q in seen' ==> ProbeNum(key, pos[q], |a|) < i + 1
  {
    var index := Probe(key, i, |a|);
    if key in contents {
      LayoutWindow(a, contents, pos, maxProbe, -1, key);
    }
    LayoutFound(a, contents, pos, maxProbe, index);
    ProbeNumOfProbe(key, i, |a|);
    seen' := seen + {a[index]};
  }

  /** Where put's walk stopped, at probe i and slot index: a slot holding
      key is key's own; an empty slot with key stored elsewhere means that
      copy lies further along the window. */
  lemma PutTarget(a: seq<int64>, contents: map<int64, int64>, pos: map<int64, int>,
                  maxProbe: int, key: int64, index: int, i: int)
    requires |a| >= 2 && |a| % 2 == 0 && Layout(a, contents, pos, maxProbe, -1)
    requires key != 0 && 0 <= i < maxProbe < |a| / 2 && index == Probe(key, i, |a|)
    requires a[index] == key || a[index] == 0
    requires key in contents ==> i <= ProbeNum(key, pos[key], |a|)
    ensures ProbeNum(key, index, |a|) == i
    ensures a[index] == key ==> key in contents && pos[key] == index && contents[key] == a[index + 1]
    ensures a[index] == 0 && key in contents ==>
              0 <= pos[key] <= |a| - 2 && pos[key] % 2 == 0 && pos[key] != index
              && a[pos[key]] == key && a[pos[key] + 1] == contents[key]
              && i < ProbeNum(key, pos[key], |a|) < maxProbe
  {
    ProbeNumOfProbe(key, i, |a|);
    if a[index] == key {
      LayoutFound(a, contents, pos, maxProbe, index);
    }
    if a[index] == 0 && key in contents {
      LayoutWindow(a, contents, pos, maxProbe, -1, key);
    }
  }

  /** The entries of contents whose slot, by pos, lies below i. */
  ghost function Restrict(contents: map<int64, int64>, pos: map<int64, int>, i: int): (r: map<int64, int64>)
    requires contents.Keys <= pos.Keys
    ensures r.Keys <= contents.Keys && |r| <= |contents|
  {
    var r := map k | k in contents && pos[k] < i :: contents[k];
    assert contents.Keys == r.Keys + (contents.Keys - r.Keys);
    r
  }

  /** No slot lies below 0. */
  lemma RestrictNone(a: seq<int64>, contents: map<int64, int64>, pos: map<int64, int>,
                     maxProbe: int)
    requires |a| >= 2 && |a| % 2 == 0 && Layout(a, contents, pos, maxProbe, -1)
    ensures Restrict(contents, pos, 0) == map[]
  {
    assert Restrict(contents, pos, 0).Keys == {};
  }

  /** Re-inserting the slots of a table in order: slot i adds its pair, or
      nothing when empty, to what the slots below it gave. */
  lemma RestrictStep(a: seq<int64>, contents: map<int64, int64>, pos: map<int64, int>,
                     maxProbe: int, i: int)
    requires |a| >= 2 && |a| % 2 == 0 && Layout(a, contents, pos, maxProbe, -1)
    requires 0 <= i < |a| && i % 2 == 0
    ensures i + 1 < |a|
    ensures a[i] == 0 ==> Restrict(contents, pos, i + 2) == Restrict(contents, pos, i)
    ensures a[i] != 0 ==>
              a[i] !in Restrict(contents, pos, i)
              && Restrict(contents, pos, i + 2) == Restrict(contents, pos, i)[a[i] := a[i + 1]]
  {
    EvenBelow(i, |a|);
    if a[i] == 0 {
      RestrictEmptySlot(a, contents, pos, i);
    } else {
      assert a[2 * (i / 2)] == a[i];
      RestrictFullSlot(a, contents, pos, i);
    }
  }

  /** What expand's loop puts back, pair by pair: the pairs of the first n
      key slots of a, taken in slot order, an empty key slot adding none. */
  ghost function Stored(a: seq<int64>, n: nat): map<int64, int64>
    requires 2 * n <= |a|
  {
    if n == 0 then map[]
    else
      var m := Stored(a, n - 1);
      if a[2 * n - 2] == 0 then m else m[a[2 * n - 2] := a[2 * n - 1]]
  }

  /** Reading one more key slot adds its pair unless the slot is empty. */
  lemma StoredNext(a: seq<int64>, n: nat)
    requires 2 * n + 2 <= |a|
    ensures Stored(a, n + 1) == if a[2 * n] == 0 then Stored(a, n) else Stored(a, n)[a[2 * n] := a[2 * n + 1]]
  {
  }

  /** The pairs of the first n key slots of a laid-out table are exactly
      the entries whose slot lies below 2n. */
  lemma {:induction false} StoredRestrict(a: seq<int64>, contents: map<int64, int64>, pos: map<int64, int>,
                                          maxProbe: int, n: nat)
    requires |a| >= 2 && |a| % 2 == 0 && Layout(a, contents, pos, maxProbe, -1) && 2 * n <= |a|
    ensures Stored(a, n) == Restrict(contents, pos, 2 * n)
  {
    if n == 0 {
      RestrictNone(a, contents, pos, maxProbe);
    } else {
      StoredRestrict(a, contents, pos, maxProbe, n - 1);
      Twice(n - 1);
      RestrictStep(a, contents, pos, maxProbe, 2 * (n - 1));
    }
  }

  /** Reading the first n key slots of a laid-out table never yields more
      pairs than it stores, and reading all of them yields its contents. */
  lemma StoredWithin(a: seq<int64>, contents: map<int64, int64>, pos: map<int64, int>,
                     maxProbe: int, n: nat)
    requires |a| >= 2 && |a| % 2 == 0 && Layout(a, contents, pos, maxProbe, -1) && 2 * n <= |a|
    ensures |Stored(a, n)| <= |contents|
    ensures 2 * n == |a| ==> Stored(a, n) == contents
  {
    StoredRestrict(a, contents, pos, maxProbe, n);
    if 2 * n == |a| {
      RestrictAll(a, contents, pos, maxProbe);
    }
  }

  lemma RestrictEmptySlot(a: seq<int64>, contents: map<int64, int64>, pos: map<int64, int>, i: int)
    requires |a| >= 2 && |a| % 2 == 0 && Placed(a, contents, pos)
    requires 0 <= i <= |a| - 2 && i % 2 == 0 && a[i] == 0
    ensures Restrict(contents, pos, i + 2) == Restrict(contents, pos, i)
  {
    var r, r' := Restrict(contents, pos, i), Restrict(contents, pos, i + 2);
    forall k | k in contents
      ensures pos[k] != i && pos[k] != i + 1
    {
      ValueSlotIsNotKeySlot(i, pos[k]);
    }
    assert r'.Keys == r.Keys;
  }

  lemma RestrictFullSlot(a: seq<int64>, contents: map<int64, int64>, pos: map<int64, int>, i: int)
    requires |a| >= 2 && |a| % 2 == 0 && Placed(a, contents, pos)
    requires 0 <= i <= |a| - 2 && i % 2 == 0 && a[i] != 0
    requires a[i] in pos && pos[a[i]] == i
    ensures a[i] !in Restrict(contents, pos, i)
    ensures Restrict(contents, pos, i + 2) == Restrict(contents, pos, i)[a[i] := a[i + 1]]
  {
    var r, r' := Restrict(contents, pos, i), Restrict(contents, pos, i + 2);
    forall k | k in contents && k != a[i]
      ensures pos[k] != i && pos[k] != i + 1
    {
      ValueSlotIsNotKeySlot(i, pos[k]);
    }
    assert r'.Keys == r.Keys + {a[i]};
  }

  lemma RestrictAll(a: seq<int64>, contents: map<int64, int64>, pos: map<int64, int>,
                    maxProbe: int)
    requires |a| >= 2 && |a| % 2 == 0 && Layout(a, contents, pos, maxProbe, -1)
    ensures Restrict(contents, pos, |a|) == contents
  {
  }

  /** The open-addressing table itself.  Ghost fields Contents and Pos are
      the map it stores and the slot each key occupies. */
  class LongLongHashMap {
    var mask: int
    var arr: array<int64>
    var maxProbe: int
    var zeroVal: int64
    const emptyVal: int64
    ghost var Contents: map<int64, int64>
    ghost var Pos: map<int64, int>

    /** The array is a power of two of at least the initial size; mask and
        maxProbe are those computeMaskAndProbe derives from its length. */
    ghost predicate Shape()
      reads this
    {
      arr.Length >= INITIAL_SIZE && arr.Length % 2 == 0 && IsPow2(arr.Length)
      && mask == arr.Length - 2 && maxProbe == MaxProbe(arr.Length)
    }

    ghost predicate Valid()
      reads this, arr
    {
      Shape() && Layout(arr[..], Contents, Pos, maxProbe, -1)
    }

    /** What `get` answers for key: zeroVal for key 0, the stored value, or
        emptyVal for a key that is not stored. */
    ghost function Lookup(key: int64): int64
      reads this
    {
      if key == 0 then zeroVal else if key in Contents then Contents[key] else emptyVal
    }

    constructor (emptyVal: int64)
      ensures Valid() && fresh(arr)
      ensures this.emptyVal == emptyVal && zeroVal == emptyVal
      ensures arr.Length == INITIAL_SIZE && mask == 30 && maxProbe == 3
      ensures Contents == map[]
      ensures forall k :: Lookup(k) == emptyVal
    {
      this.emptyVal := emptyVal;
      zeroVal := emptyVal;
      var initialSize := INITIAL_SIZE;
      arr := new int64[initialSize](_ => 0);
      mask := initialSize - 1;
      Contents := map[];
      Pos := map[];
      new;
      Pow2Values();
      Log2Pow2(5);
      ComputeMaskAndProbe();
      MaxProbeValues();
      LayoutEmpty(arr[..], maxProbe);
    }

    /** computeMaskAndProbe: the mask is the length minus one with bit 0
        cleared, the window the natural logarithm of the length. */
    method ComputeMaskAndProbe()
      requires IsPow2(arr.Length) && arr.Length >= 2
      modifies this
      ensures arr == old(arr) && zeroVal == old(zeroVal)
      ensures mask == arr.Length - 2 && maxProbe == MaxProbe(arr.Length)
      ensures Contents == old(Contents) && Pos == old(Pos)
    {
      var length := arr.Length;
      Pow2Even(length);
      mask := ClearLowBit(length - 1);
      maxProbe := MaxProbe(length);
    }

    /** The probe walk shared by get and remove: the window of key is
        searched for a key slot holding key.  It is found exactly when key
        is stored, and then at key's own slot. */
    method Locate(key: int64) returns (index: int, found: bool)
      requires Valid() && key != 0
      ensures found <==> key in Contents
      ensures found ==> index == Pos[key] && 0 <= index <= arr.Length - 2 && index % 2 == 0
                        && arr[index] == key && arr[index + 1] == Contents[key]
    {
      index := Index(key, mask);
      ProbeFirst(key, arr.Length);
      var i := 0;
      while i < maxProbe
        invariant 0 <= i <= maxProbe
        invariant index == Probe(key, i, arr.Length)
        invariant forall j :: 0 <= j < i ==> arr[Probe(key, j, arr.Length)] != key
      {
        if arr[index] == key {
          LayoutFound(arr[..], Contents, Pos, maxProbe, index);
          return index, true;
        }
        ProbeStep(key, i, arr.Length);
        index := Next(index, mask);
        i := i + 1;
      }
      LayoutMissing(arr[..], Contents, Pos, maxProbe, key);
      found := false;
    }

    /** get: the value of key, from zeroVal for key 0 and otherwise from
        the first slot of its window holding it; emptyVal if none does. */
    method Get(key: int64) returns (value: int64)
      requires Valid()
      ensures value == Lookup(key)
    {
      if key == 0 {
        return zeroVal;
      }
      var index, found := Locate(key);
      if found {
        value := arr[index + 1];
      } else {
        value := emptyVal;
      }
    }

    /** remove: key 0 resets zeroVal; any other key has its key slot
        cleared at the first slot of its window holding it.  The value slot
        is left as it was. */
    method Remove(key: int64)
      requires Valid()
      modifies this, arr
      ensures Valid() && arr == old(arr)
      ensures key == 0 ==> zeroVal == emptyVal && Contents == old(Contents)
      ensures key != 0 ==> zeroVal == old(zeroVal) && Contents == old(Contents) - {key}
      ensures Lookup(key) == emptyVal
      ensures forall k :: k != key ==> Lookup(k) == old(Lookup(k))
      ensures forall p :: 0 <= p < arr.Length && p % 2 == 1 ==> arr[p] == old(arr[p])
      ensures key == 0 || key !in old(Contents) ==> arr[..] == old(arr[..])
      ensures key != 0 && key in old(Contents) ==> key in old(Pos) && arr[..] == old(arr[..])[old(Pos)[key] := 0]
    {
      if key == 0 {
        zeroVal := emptyVal;
        return;
      }
      var index, found := Locate(key);
      if found {
        Vacate(key, index);
      } else {
        assert Contents - {key} == Contents;
      }
    }

    /** The write of remove: the key slot of a stored key is emptied; its
        value slot is left as it was. */
    method Vacate(key: int64, index: int)
      requires Valid() && key in Pos && Pos[key] == index
      modifies this, arr
      ensures Valid() && arr == old(arr) && zeroVal == old(zeroVal)
      ensures Contents == old(Contents) - {key}
      ensures arr[..] == old(arr[..])[index := 0]
    {
      ghost var a := arr[..];
      LayoutRemove(a, Contents, Pos, maxProbe, index);
      arr[index] := 0;
      assert arr[..] == a[index := 0];
      Contents := Contents - {key};
      Pos := Pos - {key};
    }

    /** The probe walk of put over the window of key: it stops at the first
        key slot holding key or empty, at probe number i.  When it runs
        through the whole window, every probe held another stored key, so
        the map holds at least maxProbe keys. */
    method Walk(key: int64) returns (index: int, i: int)
      requires Valid() && key != 0
      ensures 0 <= i <= maxProbe && index == Probe(key, i, arr.Length)
      ensures key in Contents ==> i <= ProbeNum(key, Pos[key], arr.Length)
      ensures i < maxProbe ==> arr[index] == key || arr[index] == 0
      ensures i == maxProbe ==> maxProbe <= |Contents|
    {
      index := Index(key, mask);
      ProbeFirst(key, arr.Length);
      WindowFits(arr.Length);
      i := 0;
      ghost var seen: set<int64> := {};
      while i < maxProbe
        invariant 0 <= i <= maxProbe
        invariant index == Probe(key, i, arr.Length)
        invariant key in Contents ==> i <= ProbeNum(key, Pos[key], arr.Length)
        invariant seen <= Contents.Keys && |seen| == i
        invariant forall q :: q in seen ==> ProbeNum(key, Pos[q], arr.Length) < i
      {
        var existing := arr[index];
        if existing == key || existing == 0 {
          return;
        }
        seen := PassOver(arr[..], Contents, Pos, maxProbe, key, i, seen);
        ProbeStep(key, i, arr.Length);
        index := Next(index, mask);
        i := i + 1;
      }
      assert Contents.Keys == seen + (Contents.Keys - seen);
    }

    /** put: key 0 replaces zeroVal; any other key is inserted into the
        array (see Insert).  Returns the previous value, or emptyVal. */
    method Put(key: int64, value: int64) returns (prev: int64)
      requires Valid()
      modifies this, arr
      ensures Valid() && (arr == old(arr) || fresh(arr))
      ensures arr.Length >= old(arr.Length)
      ensures prev == old(Lookup(key))
      ensures key == 0 ==> zeroVal == value && Contents == old(Contents)
      ensures key != 0 ==> zeroVal == old(zeroVal) && Contents == old(Contents)[key := value]
      ensures Lookup(key) == value
      ensures forall k :: k != key ==> Lookup(k) == old(Lookup(k))
      ensures key == 0 ==> arr == old(arr) && arr[..] == old(arr[..])
      decreases Slack(arr.Length, |Contents|), 3
    {
      if key == 0 {
        prev := zeroVal;
        zeroVal := value;
      } else {
        prev := Insert(key, value);
      }
    }

    /** The probing loop of put: a key other than 0 walks its window to the
        first slot holding it or empty and is written there (see
        WriteAndNerf); a window full of other keys expands the array and
        starts over. */
    method Insert(key: int64, value: int64) returns (prev: int64)
      requires Valid() && key != 0
      modifies this, arr
      ensures Valid() && (arr == old(arr) || fresh(arr))
      ensures arr.Length >= old(arr.Length)
      ensures prev == old(Lookup(key))
      ensures zeroVal == old(zeroVal) && Contents == old(Contents)[key := value]
      decreases Slack(arr.Length, |Contents|), 2
    {
      while true
        invariant Valid() && Contents == old(Contents) && zeroVal == old(zeroVal)
        invariant arr == old(arr) || fresh(arr)
        invariant arr.Length >= old(arr.Length)
        invariant Slack(arr.Length, |Contents|) <= Slack(old(arr.Length), |old(Contents)|)
        decreases Slack(arr.Length, |Contents|)
      {
        var index, i := Walk(key);
        if i < maxProbe {
          prev := WriteAndNerf(key, value, index, i);
          return;
        }
        ghost var length0 := arr.Length;
        Expand();
        SlackShrinks(length0, |Contents|, arr.Length, |Contents|);
        SlackMonotone(old(arr.Length), length0, |Contents|);
      }
    }

    /** The write at the end of put's probe walk.  The probe number i at
        index found key or an empty key slot: the pair is written there, and
        the rest of the window, together with the slot right after it, is
        searched for an older copy of key (one lying behind an empty slot
        that the walk stopped at); that copy's key slot is cleared and its
        value becomes the previous value. */
    method WriteAndNerf(key: int64, value: int64, index: int, i: int) returns (prev: int64)
      requires Valid() && key != 0
      requires 0 <= i < maxProbe && index == Probe(key, i, arr.Length)
      requires arr[index] == key || arr[index] == 0
      requires key in Contents ==> i <= ProbeNum(key, Pos[key], arr.Length)
      modifies this, arr
      ensures Valid() && arr == old(arr) && zeroVal == old(zeroVal)
      ensures Contents == old(Contents)[key := value]
      ensures prev == old(Lookup(key))
    {
      WindowFits(arr.Length);
      var existing := arr[index];
      prev := if existing == 0 then emptyVal else arr[index + 1];
      PutTarget(arr[..], Contents, Pos, maxProbe, key, index, i);
      ghost var stale := if existing == 0 && key in Contents then Pos[key] else -1;
      ghost var staleVal := if stale != -1 then Contents[key] else prev;
      assert staleVal == Lookup(key);
      StorePair(key, value, index, stale);
      prev := Nerf(key, index, i, prev, stale, staleVal);
    }

    /** The clean-up loop of put: an older copy of key found after probe i is
        the unowned one; its key slot is cleared and the value next to it
        becomes the previous value.  Without such a copy prev0 stands. */
    method Nerf(key: int64, index: int, i: int, prev0: int64, ghost stale: int, ghost staleVal: int64)
      returns (prev: int64)
      requires Shape() && key != 0 && 0 <= i < maxProbe && index == Probe(key, i, arr.Length)
      requires Layout(arr[..], Contents, Pos, maxProbe, stale) && key in Pos && Pos[key] == index
      requires stale != -1 ==> 0 <= stale <= arr.Length - 2 && stale % 2 == 0 && arr[..][stale] == key
                               && arr[..][stale + 1] == staleVal && i < ProbeNum(key, stale, arr.Length) < maxProbe
      requires stale == -1 ==> prev0 == staleVal
      modifies arr
      ensures Layout(arr[..], Contents, Pos, maxProbe, -1) && prev == staleVal
    {
      WindowFits(arr.Length);
      ghost var a := arr[..];
      assert stale != -1 ==> a[stale + 1] == staleVal;
      var idx, found := FindStale(key, index, i, stale);
      assert arr[..] == a;
      prev := prev0;
      if found {
        prev := ClearStale(idx, key, index, i, stale);
        assert prev == a[stale + 1];
      }
    }

    /** The clean-up of put once it finds an older copy: the key slot of
        that unowned copy is emptied and the value beside it, which stays,
        is the previous value. */
    method ClearStale(idx: int, key: int64, index: int, i: int, ghost stale: int) returns (prev: int64)
      requires Shape() && 0 <= idx <= arr.Length - 2 && idx % 2 == 0
      requires Layout(arr[..], Contents, Pos, maxProbe, stale)
      requires 0 <= i < maxProbe < arr.Length / 2 && index == Probe(key, i, arr.Length)
      requires key != 0 && key in Pos && Pos[key] == index
      requires arr[idx] == key && i < ProbeNum(key, idx, arr.Length)
      modifies arr
      ensures Layout(arr[..], Contents, Pos, maxProbe, -1)
      ensures idx == stale && prev == old(arr[..])[idx + 1]
      ensures arr[..] == old(arr[..])[idx := 0]
    {
      ghost var a := arr[..];
      ProbeNumOfProbe(key, i, arr.Length);
      LayoutStale(a, Contents, Pos, maxProbe, stale, key, idx);
      LayoutClear(a, Contents, Pos, maxProbe, stale);
      arr[idx] := 0;
      assert arr[..] == a[idx := 0];
      prev := arr[idx + 1];
    }

    /** The search of put's clean-up loop: the probes after number i, up to
        and including number maxProbe, are searched for key.  A copy there can only be
        the unowned one, and a copy of key is found whenever there is one. */
    method FindStale(key: int64, index: int, i: int, ghost stale: int) returns (idx: int, found: bool)
      requires arr.Length >= 2 && arr.Length % 2 == 0 && mask == arr.Length - 2
      requires 0 <= i < maxProbe < arr.Length / 2 && index == Probe(key, i, arr.Length)
      requires stale != -1 ==> 0 <= stale <= arr.Length - 2 && stale % 2 == 0 && arr[..][stale] == key
                               && i < ProbeNum(key, stale, arr.Length) < maxProbe
      ensures found ==> 0 <= idx <= arr.Length - 2 && idx % 2 == 0 && arr[idx] == key
                        && i < ProbeNum(key, idx, arr.Length)
      ensures !found ==> stale == -1
    {
      var length := arr.Length;
      var j := i;
      idx := index;
      while j < maxProbe
        invariant i <= j <= maxProbe && idx == Probe(key, j, length)
        invariant stale != -1 ==> j < ProbeNum(key, stale, length)
      {
        ProbeStep(key, j, length);
        idx := Next(idx, mask);
        ProbeNumOfProbe(key, j + 1, length);
        if arr[idx] == key {
          return idx, true;
        }
        if stale != -1 {
          StaleAhead(arr[..], key, stale, j, length);
        }
        j := j + 1;
      }
      found := false;
    }

    /** The store of put: the pair goes to the key slot at index and the
        value slot after it.  When key was stored elsewhere, further along
        its window, that older slot is the one left unowned. */
    method StorePair(key: int64, value: int64, index: int, ghost stale: int)
      requires Valid() && key != 0 && 0 <= index <= arr.Length - 2 && index % 2 == 0
      requires arr[index] == key || arr[index] == 0
      requires ProbeNum(key, index, arr.Length) < maxProbe
      requires stale == if arr[index] == 0 && key in Contents then Pos[key] else -1
      modifies this, arr
      ensures Shape() && Layout(arr[..], Contents, Pos, maxProbe, stale)
      ensures arr == old(arr) && mask == old(mask) && maxProbe == old(maxProbe)
      ensures zeroVal == old(zeroVal)
      ensures Contents == old(Contents)[key := value] && Pos == old(Pos)[key := index]
      ensures arr[..] == old(arr[..])[index := key][index + 1 := value]
      ensures stale != -1 ==> arr[..][stale] == key && arr[..][stale + 1] == old(Contents)[key]
    {
      ghost var a := arr[..];
      if stale != -1 {
        assert a[stale] == key && a[stale + 1] == Contents[key];
        PairKept(a, index, key, value, stale);
      }
      LayoutWrite(a, Contents, Pos, maxProbe, key, value, index, stale);
      EvenBelow(index, arr.Length);
      arr[index] := key;
      arr[index + 1] := value;
      assert arr[..] == a[index := key][index + 1 := value];
      Contents := Contents[key := value];
      Pos := Pos[key := index];
    }

    /** The start of expand: a zeroed array of twice the length, with
        mask and window recomputed for it, holding no pair yet. */
    method Grow() returns (prev: array<int64>)
      requires Shape()
      modifies this
      ensures prev == old(arr) && fresh(arr) && arr.Length == 2 * prev.Length
      ensures Valid() && Contents == map[] && zeroVal == old(zeroVal)
    {
      prev := arr;
      var table := new int64[2 * prev.Length](_ => 0);
      ghost var empty := table[..];
      assert forall p | 0 <= p < |empty| :: empty[p] == 0;
      Twice(prev.Length);
      Pow2Double(prev.Length);
      LayoutEmpty(empty, MaxProbe(table.Length));
      arr := table;
      ComputeMaskAndProbe();
      Contents := map[];
      Pos := map[];
      assert arr[..] == empty;
    }

    /** expand: double the array, recompute mask and window, and put every
        stored pair of the old array into the new one, in slot order.  Only
        put calls it, when a key found its whole window taken by other keys. */
    method Expand()
      requires Valid() && MaxProbe(arr.Length) <= |Contents|
      modifies this
      ensures Valid() && fresh(arr) && arr.Length >= 2 * old(arr.Length)
      ensures Contents == old(Contents) && zeroVal == old(zeroVal)
      decreases Slack(arr.Length, |Contents|), 1
    {
      ghost var a, c0, p0, mp0 := arr[..], Contents, Pos, maxProbe;
      var prev := Grow();
      var i := 0;
      ghost var n := 0;
      while i < prev.Length
        invariant i == 2 * n && 0 <= i <= prev.Length
        invariant Valid() && fresh(arr) && arr.Length >= 2 * prev.Length
        invariant prev[..] == a
        invariant Contents == Stored(a, n)
        invariant zeroVal == old(zeroVal)
      {
        Twice(n);
        EvenBelow(i, |a|);
        Reinsert(prev, i, a, c0, p0, mp0, n);
        i := i + 2;
        n := n + 1;
      }
      StoredWithin(a, c0, p0, mp0, n);
    }

    /** One step of expand's loop: put the pair in key slot i of the old
        array prev, whose first i / 2 pairs are already in, unless the
        slot is empty. */
    method Reinsert(prev: array<int64>, i: int, ghost a: seq<int64>, ghost c0: map<int64, int64>,
                    ghost p0: map<int64, int>, ghost mp0: int, ghost n: nat)
      requires |a| >= 2 && |a| % 2 == 0 && IsPow2(|a|) && Layout(a, c0, p0, mp0, -1)
      requires MaxProbe(|a|) <= |c0| && i == 2 * n && i + 2 <= |a|
      requires Valid() && prev != arr && prev[..] == a && Contents == Stored(a, n)
      requires arr.Length >= 2 * |a|
      modifies this, arr
      ensures Valid() && (arr == old(arr) || fresh(arr)) && arr.Length >= old(arr.Length)
      ensures Contents == Stored(a, n + 1) && zeroVal == old(zeroVal)
      decreases Slack(|a|, |c0|), 0
    {
      StoredNext(a, n);
      var key := prev[i];
      if key != 0 {
        var value := prev[i + 1];
        assert key == a[i] && value == a[i + 1];
        StoredWithin(a, c0, p0, mp0, n);
        SlackShrinks(|a|, |c0|, arr.Length, |Contents|);
        var _ := Insert(key, value);
      }
    }
  }

  /** A short session with a map whose missing value is -1: key 0 is kept
      beside the array, an overwrite hands back the value it replaces, and
      a removed key reads as missing while the others stay. */
  method Session() returns (replaced: int64, first: int64, removed: int64, second: int64, zero: int64)
    ensures replaced == 20 && first == 7 && removed == -1 && second == 30 && zero == 9
  {
    var m := new LongLongHashMap(-1);
    var _ := m.Put(1, 7);
    var _ := m.Put(2, 20);
    assert m.Lookup(1) == 7;
    replaced := m.Put(2, 30);
    assert m.Lookup(1) == 7;
    var _ := m.Put(0, 9);
    assert m.Lookup(1) == 7 && m.Lookup(2) == 30;
    first := m.Get(1);
    m.Remove(1);
    assert m.Lookup(2) == 30 && m.Lookup(0) == 9;
    removed := m.Get(1);
    second := m.Get(2);
    zero := m.Get(0);
  }
}
