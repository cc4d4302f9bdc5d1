/** The field of integers modulo 2^255 - 19 on ten signed limbs, alternately 26 and 25 bits wide. */
module Field25519 {
  import opened Arith
  import opened Words

  const P: int := 0x7fff_ffff_ffff_ffff_ffff_ffff_ffff_ffff_ffff_ffff_ffff_ffff_ffff_ffff_ffff_ffed
  const TWO25: int := 0x200_0000
  const TWO26: int := 0x400_0000
  const TWO27: int := 0x800_0000
  const TWO54: int := 0x40_0000_0000_0000
  const TWO255: int := 0x8000_0000_0000_0000_0000_0000_0000_0000_0000_0000_0000_0000_0000_0000_0000_0000
  const W1: int := 0x400_0000
  const W2: int := 0x8_0000_0000_0000
  const W3: int := 0x2000_0000_0000_0000_0000
  const W4: int := 0x40_0000_0000_0000_0000_0000_0000
  const W5: int := 0x1_0000_0000_0000_0000_0000_0000_0000_0000
  const W6: int := 0x200_0000_0000_0000_0000_0000_0000_0000_0000_0000
  const W7: int := 0x8_0000_0000_0000_0000_0000_0000_0000_0000_0000_0000_0000
  const W8: int := 0x1000_0000_0000_0000_0000_0000_0000_0000_0000_0000_0000_0000_0000
  const W9: int := 0x40_0000_0000_0000_0000_0000_0000_0000_0000_0000_0000_0000_0000_0000_0000

  function Width(k: nat): int {
    if k % 2 == 0 then TWO26 else TWO25
  }

  /** The number written by limbs `k .. n - 1`, limb `k` counting once. */
  ghost function Limbs(s: seq<int>, k: nat, n: nat): int
    requires k <= n <= |s|
    decreases n - k, s
  {
    if k == n then 0 else s[k] + Width(k) * Limbs(s, k + 1, n)
  }

  /** The value of the ten limbs of a field element. */
  ghost function Val(s: seq<int>): int
    requires 10 <= |s|
  {
    Limbs(s, 0, 10)
  }

  /** The first `n` limbs are smaller than `bound` in magnitude. */
  ghost predicate Below(s: seq<int>, n: nat, bound: int) {
    n <= |s| && forall i :: 0 <= i < n ==> -bound < s[i] < bound
  }

  // The product of two elements, limb by limb.

  /** `((limb) (s32) x) * (s32) y`. */
  function Mul32(x: int32, y: int32): (r: int64) {
    MulAbs(x, y, 0x8000_0000);
    x * y
  }

  lemma MulAbs(x: int, y: int, bound: int)
    requires -bound <= x <= bound && -bound <= y <= bound
    ensures -(bound * bound) <= x * y <= bound * bound
  {
    MulBounds(if x < 0 then -x else x, if y < 0 then -y else y, bound, bound);
  }

  /** The nineteen limbs of a product. */
  function ProductLimbs(a: seq<int>, b: seq<int>): (t: seq<int>)
    requires |a| == |b| == 10 && Below(a, 10, TWO27) && Below(b, 10, TWO27)
    ensures |t| == 19
  {
    [
      Mul32(a[0], b[0]),
      Mul32(a[0], b[1]) + Mul32(a[1], b[0]),
      2 * Mul32(a[1], b[1]) + Mul32(a[0], b[2]) + Mul32(a[2], b[0]),
      Mul32(a[1], b[2]) + Mul32(a[2], b[1]) + Mul32(a[0], b[3]) + Mul32(a[3], b[0]),
      Mul32(a[2], b[2]) + 2 * (Mul32(a[1], b[3]) + Mul32(a[3], b[1])) + Mul32(a[0], b[4]) + Mul32(a[4], b[0]),
      Mul32(a[2], b[3]) + Mul32(a[3], b[2]) + Mul32(a[1], b[4]) + Mul32(a[4], b[1]) + Mul32(a[0], b[5])
        + Mul32(a[5], b[0]),
      2 * (Mul32(a[3], b[3]) + Mul32(a[1], b[5]) + Mul32(a[5], b[1])) + Mul32(a[2], b[4]) + Mul32(a[4], b[2])
        + Mul32(a[0], b[6]) + Mul32(a[6], b[0]),
      Mul32(a[3], b[4]) + Mul32(a[4], b[3]) + Mul32(a[2], b[5]) + Mul32(a[5], b[2]) + Mul32(a[1], b[6])
        + Mul32(a[6], b[1]) + Mul32(a[0], b[7]) + Mul32(a[7], b[0]),
      Mul32(a[4], b[4]) + 2 * (Mul32(a[3], b[5]) + Mul32(a[5], b[3]) + Mul32(a[1], b[7]) + Mul32(a[7], b[1]))
        + Mul32(a[2], b[6]) + Mul32(a[6], b[2]) + Mul32(a[0], b[8]) + Mul32(a[8], b[0]),
      Mul32(a[4], b[5]) + Mul32(a[5], b[4]) + Mul32(a[3], b[6]) + Mul32(a[6], b[3]) + Mul32(a[2], b[7])
        + Mul32(a[7], b[2]) + Mul32(a[1], b[8]) + Mul32(a[8], b[1]) + Mul32(a[0], b[9]) + Mul32(a[9], b[0]),
      2 * (Mul32(a[5], b[5]) + Mul32(a[3], b[7]) + Mul32(a[7], b[3]) + Mul32(a[1], b[9]) + Mul32(a[9], b[1]))
        + Mul32(a[4], b[6]) + Mul32(a[6], b[4]) + Mul32(a[2], b[8]) + Mul32(a[8], b[2]),
      Mul32(a[5], b[6]) + Mul32(a[6], b[5]) + Mul32(a[4], b[7]) + Mul32(a[7], b[4]) + Mul32(a[3], b[8])
        + Mul32(a[8], b[3]) + Mul32(a[2], b[9]) + Mul32(a[9], b[2]),
      Mul32(a[6], b[6]) + 2 * (Mul32(a[5], b[7]) + Mul32(a[7], b[5]) + Mul32(a[3], b[9]) + Mul32(a[9], b[3]))
        + Mul32(a[4], b[8]) + Mul32(a[8], b[4]),
      Mul32(a[6], b[7]) + Mul32(a[7], b[6]) + Mul32(a[5], b[8]) + Mul32(a[8], b[5]) + Mul32(a[4], b[9])
        + Mul32(a[9], b[4]),
      2 * (Mul32(a[7], b[7]) + Mul32(a[5], b[9]) + Mul32(a[9], b[5])) + Mul32(a[6], b[8]) + Mul32(a[8], b[6]),
      Mul32(a[7], b[8]) + Mul32(a[8], b[7]) + Mul32(a[6], b[9]) + Mul32(a[9], b[6]),
      Mul32(a[8], b[8]) + 2 * (Mul32(a[7], b[9]) + Mul32(a[9], b[7])),
      Mul32(a[8], b[9]) + Mul32(a[9], b[8]),
      2 * Mul32(a[9], b[9])
    ]
  }

  /** The nineteen limbs of a square, with the symmetric terms doubled. */
  function SquareLimbs(a: seq<int>): (t: seq<int>)
    requires |a| == 10 && Below(a, 10, TWO27)
    ensures |t| == 19
  {
    [
      Mul32(a[0], a[0]),
      2 * Mul32(a[0], a[1]),
      2 * (Mul32(a[1], a[1]) + Mul32(a[0], a[2])),
      2 * (Mul32(a[1], a[2]) + Mul32(a[0], a[3])),
      Mul32(a[2], a[2]) + 4 * Mul32(a[1], a[3]) + 2 * Mul32(a[0], a[4]),
      2 * (Mul32(a[2], a[3]) + Mul32(a[1], a[4]) + Mul32(a[0], a[5])),
      2 * (Mul32(a[3], a[3]) + Mul32(a[2], a[4]) + Mul32(a[0], a[6]) + 2 * Mul32(a[1], a[5])),
      2 * (Mul32(a[3], a[4]) + Mul32(a[2], a[5]) + Mul32(a[1], a[6]) + Mul32(a[0], a[7])),
      Mul32(a[4], a[4]) + 2 * (Mul32(a[2], a[6]) + Mul32(a[0], a[8]) + 2 * (Mul32(a[1], a[7])
        + Mul32(a[3], a[5]))),
      2 * (Mul32(a[4], a[5]) + Mul32(a[3], a[6]) + Mul32(a[2], a[7]) + Mul32(a[1], a[8]) + Mul32(a[0], a[9])),
      2 * (Mul32(a[5], a[5]) + Mul32(a[4], a[6]) + Mul32(a[2], a[8]) + 2 * (Mul32(a[3], a[7])
        + Mul32(a[1], a[9]))),
      2 * (Mul32(a[5], a[6]) + Mul32(a[4], a[7]) + Mul32(a[3], a[8]) + Mul32(a[2], a[9])),
      Mul32(a[6], a[6]) + 2 * (Mul32(a[4], a[8]) + 2 * (Mul32(a[5], a[7]) + Mul32(a[3], a[9]))),
      2 * (Mul32(a[6], a[7]) + Mul32(a[5], a[8]) + Mul32(a[4], a[9])),
      2 * (Mul32(a[7], a[7]) + Mul32(a[6], a[8]) + 2 * Mul32(a[5], a[9])),
      2 * (Mul32(a[7], a[8]) + Mul32(a[6], a[9])),
      Mul32(a[8], a[8]) + 4 * Mul32(a[7], a[9]),
      2 * Mul32(a[8], a[9]),
      2 * Mul32(a[9], a[9])
    ]
  }

  /** Squaring forms exactly the limbs of the product of an element with itself. */
  lemma SquareIsProduct(a: seq<int>)
    requires |a| == 10 && Below(a, 10, TWO27)
    ensures SquareLimbs(a) == ProductLimbs(a, a)
  {
    forall i, j | 0 <= i < 10 && 0 <= j < 10
      ensures Mul32(a[i], a[j]) == Mul32(a[j], a[i])
    {
    }
    hide Mul32;
  }

  /** Every limb is a sum of at most fourteen products of two limbs. */
  lemma ProductBound(a: seq<int>, b: seq<int>)
    requires |a| == |b| == 10 && Below(a, 10, TWO27) && Below(b, 10, TWO27)
    ensures Below(ProductLimbs(a, b), 19, 14 * TWO54)
  {
    forall i, j | 0 <= i < 10 && 0 <= j < 10
      ensures -TWO54 < Mul32(a[i], b[j]) < TWO54
    {
      MulAbs(a[i], b[j], TWO27 - 1);
    }
    hide Mul32, ProductLimbs;
    LowBounds(a, b);
    HighBounds(a, b);
  }

  ghost predicate SmallProducts(a: seq<int>, b: seq<int>)
    requires |a| == |b| == 10 && Below(a, 10, TWO27) && Below(b, 10, TWO27)
  {
    forall i, j :: 0 <= i < 10 && 0 <= j < 10 ==> -TWO54 < Mul32(a[i], b[j]) < TWO54
  }

  lemma LowBounds(a: seq<int>, b: seq<int>)
    requires |a| == |b| == 10 && Below(a, 10, TWO27) && Below(b, 10, TWO27) && SmallProducts(a, b)
    ensures Below(ProductLimbs(a, b), 10, 14 * TWO54)
  {
    hide Mul32;
    var t := ProductLimbs(a, b);
    assert -(14 * TWO54) < t[0] < 14 * TWO54;
    assert -(14 * TWO54) < t[1] < 14 * TWO54;
    assert -(14 * TWO54) < t[2] < 14 * TWO54;
    assert -(14 * TWO54) < t[3] < 14 * TWO54;
    assert -(14 * TWO54) < t[4] < 14 * TWO54;
    assert -(14 * TWO54) < t[5] < 14 * TWO54;
    assert -(14 * TWO54) < t[6] < 14 * TWO54;
    assert -(14 * TWO54) < t[7] < 14 * TWO54;
    assert -(14 * TWO54) < t[8] < 14 * TWO54;
    assert -(14 * TWO54) < t[9] < 14 * TWO54;
    hide ProductLimbs;
  }

  lemma HighBounds(a: seq<int>, b: seq<int>)
    requires |a| == |b| == 10 && Below(a, 10, TWO27) && Below(b, 10, TWO27) && SmallProducts(a, b)
    ensures forall i :: 10 <= i < 19 ==> -(14 * TWO54) < ProductLimbs(a, b)[i] < 14 * TWO54
  {
    hide Mul32;
    var t := ProductLimbs(a, b);
    assert -(14 * TWO54) < t[10] < 14 * TWO54;
    assert -(14 * TWO54) < t[11] < 14 * TWO54;
    assert -(14 * TWO54) < t[12] < 14 * TWO54;
    assert -(14 * TWO54) < t[13] < 14 * TWO54;
    assert -(14 * TWO54) < t[14] < 14 * TWO54;
    assert -(14 * TWO54) < t[15] < 14 * TWO54;
    assert -(14 * TWO54) < t[16] < 14 * TWO54;
    assert -(14 * TWO54) < t[17] < 14 * TWO54;
    assert -(14 * TWO54) < t[18] < 14 * TWO54;
    hide ProductLimbs;
  }

  // Columns and partial sums.

  /** How often column `k` counts the product of limb `i` with limb `k - i`: twice when both are odd. */
  function Weight(k: nat, i: nat): nat {
    if !(i <= k < i + 10) then 0 else if i % 2 == 1 && k % 2 == 0 then 2 else 1
  }

  /** The product of limb `i` with limb `k - i`, if there is one. */
  function Term(a: seq<int>, b: seq<int>, k: nat, i: nat): (x: int)
    requires |a| == |b| == 10 && Below(a, 10, TWO27) && Below(b, 10, TWO27) && i < 10
    ensures -TWO54 < x < TWO54
  {
    if i <= k < i + 10 then
      MulAbs(a[i], b[k - i], TWO27 - 1);
      Mul32(a[i], b[k - i])
    else 0
  }

  /** Column `k` as a convolution, with term `i` counted `pick(i)` times. */
  function Column(a: seq<int>, b: seq<int>, k: nat, pick: nat -> nat): int
    requires |a| == |b| == 10 && Below(a, 10, TWO27) && Below(b, 10, TWO27)
  {
    pick(0) * Term(a, b, k, 0) + pick(1) * Term(a, b, k, 1) + pick(2) * Term(a, b, k, 2) + pick(3) * Term(a, b, k, 3)
    + pick(4) * Term(a, b, k, 4) + pick(5) * Term(a, b, k, 5) + pick(6) * Term(a, b, k, 6) + pick(7) * Term(a, b, k, 7)
    + pick(8) * Term(a, b, k, 8) + pick(9) * Term(a, b, k, 9)
  }

  /** Every sum of some of the products of a column, in any order and before or after doubling, fits: no partial sum
      of a product or of a square leaves 64 bits. */
  lemma PartialSums(a: seq<int>, b: seq<int>, k: nat, pick: nat -> nat)
    requires |a| == |b| == 10 && Below(a, 10, TWO27) && Below(b, 10, TWO27) && k < 19
    requires forall i :: 0 <= i < 10 ==> pick(i) <= Weight(k, i)
    ensures -14 * TWO54 < Column(a, b, k, pick) < 14 * TWO54 < TWO63
  {
    hide Term, Weight;
    forall i | 0 <= i < 10
      ensures -(Weight(k, i) * (TWO54 - 1)) <= pick(i) * Term(a, b, k, i) <= Weight(k, i) * (TWO54 - 1)
    {
      Counted(pick(i), Weight(k, i), Term(a, b, k, i), TWO54 - 1);
    }
    WeightBound(k);
  }

  lemma Counted(c: nat, w: nat, x: int, bound: int)
    requires c <= w && -bound <= x <= bound
    ensures -(w * bound) <= c * x <= w * bound
  {
    assert c * (bound - x) >= 0 && c * (bound + x) >= 0 && (w - c) * bound >= 0;
  }

  lemma WeightBound(k: nat)
    requires k < 19
    ensures Weight(k, 0) + Weight(k, 1) + Weight(k, 2) + Weight(k, 3) + Weight(k, 4) + Weight(k, 5) + Weight(k, 6)
            + Weight(k, 7) + Weight(k, 8) + Weight(k, 9) <= 14
  {
  }

  /** The limbs of a product are the full columns. */
  lemma FullColumns(a: seq<int>, b: seq<int>, k: nat, pick: nat -> nat)
    requires |a| == |b| == 10 && Below(a, 10, TWO27) && Below(b, 10, TWO27) && k < 19
    requires forall i :: 0 <= i < 10 ==> pick(i) == Weight(k, i)
    ensures ProductLimbs(a, b)[k] == Column(a, b, k, pick)
  {
    hide ProductLimbs, FullColumn, Term, Weight;
    LowColumns(a, b);
    HighColumns(a, b);
    FullIs(a, b, k, pick);
  }

  /** Column `k` with every product counted as often as it is worth. */
  function FullColumn(a: seq<int>, b: seq<int>, k: nat): int
    requires |a| == |b| == 10 && Below(a, 10, TWO27) && Below(b, 10, TWO27)
  {
    Worth(a, b, k, 0) + Worth(a, b, k, 1) + Worth(a, b, k, 2) + Worth(a, b, k, 3) + Worth(a, b, k, 4)
    + Worth(a, b, k, 5) + Worth(a, b, k, 6) + Worth(a, b, k, 7) + Worth(a, b, k, 8) + Worth(a, b, k, 9)
  }

  function Worth(a: seq<int>, b: seq<int>, k: nat, i: nat): int
    requires |a| == |b| == 10 && Below(a, 10, TWO27) && Below(b, 10, TWO27) && i < 10
  {
    var x := Term(a, b, k, i);
    if i % 2 == 1 && k % 2 == 0 then 2 * x else x
  }

  lemma FullIs(a: seq<int>, b: seq<int>, k: nat, pick: nat -> nat)
    requires |a| == |b| == 10 && Below(a, 10, TWO27) && Below(b, 10, TWO27)
    requires forall i :: 0 <= i < 10 ==> pick(i) == Weight(k, i)
    ensures FullColumn(a, b, k) == Column(a, b, k, pick)
  {
    forall i | 0 <= i < 10
      ensures Worth(a, b, k, i) == pick(i) * Term(a, b, k, i)
    {
    }
    hide Worth, Term, Weight;
  }

  lemma LowColumns(a: seq<int>, b: seq<int>)
    requires |a| == |b| == 10 && Below(a, 10, TWO27) && Below(b, 10, TWO27)
    ensures forall k :: 0 <= k < 10 ==> ProductLimbs(a, b)[k] == FullColumn(a, b, k)
  {
    hide Mul32;
    var t := ProductLimbs(a, b);
    assert t[0] == FullColumn(a, b, 0);
    assert t[1] == FullColumn(a, b, 1);
    assert t[2] == FullColumn(a, b, 2);
    assert t[3] == FullColumn(a, b, 3);
    assert t[4] == FullColumn(a, b, 4);
    assert t[5] == FullColumn(a, b, 5);
    assert t[6] == FullColumn(a, b, 6);
    assert t[7] == FullColumn(a, b, 7);
    assert t[8] == FullColumn(a, b, 8);
    assert t[9] == FullColumn(a, b, 9);
    hide ProductLimbs, FullColumn;
  }

  lemma HighColumns(a: seq<int>, b: seq<int>)
    requires |a| == |b| == 10 && Below(a, 10, TWO27) && Below(b, 10, TWO27)
    ensures forall k :: 10 <= k < 19 ==> ProductLimbs(a, b)[k] == FullColumn(a, b, k)
  {
    hide Mul32;
    var t := ProductLimbs(a, b);
    assert t[10] == FullColumn(a, b, 10);
    assert t[11] == FullColumn(a, b, 11);
    assert t[12] == FullColumn(a, b, 12);
    assert t[13] == FullColumn(a, b, 13);
    assert t[14] == FullColumn(a, b, 14);
    assert t[15] == FullColumn(a, b, 15);
    assert t[16] == FullColumn(a, b, 16);
    assert t[17] == FullColumn(a, b, 17);
    assert t[18] == FullColumn(a, b, 18);
    hide ProductLimbs, FullColumn;
  }

  // The value of a product.

  function Sum10(x0: int, x1: int, x2: int, x3: int, x4: int, x5: int, x6: int, x7: int, x8: int, x9: int): int {
    x0 + W1 * x1 + W2 * x2 + W3 * x3 + W4 * x4 + W5 * x5 + W6 * x6 + W7 * x7 + W8 * x8 + W9 * x9
  }

  lemma LimbsStep(s: seq<int>, k: nat, n: nat)
    requires k < n <= |s|
    ensures Limbs(s, k, n) == s[k] + Width(k) * Limbs(s, k + 1, n)
  {
  }

  lemma LimbsTwo(s: seq<int>, k: nat, n: nat)
    requires k % 2 == 0 && k + 2 <= n <= |s|
    ensures Limbs(s, k, n) == s[k] + W1 * s[k + 1] + W2 * Limbs(s, k + 2, n)
  {
    LimbsStep(s, k, n);
    LimbsStep(s, k + 1, n);
  }

  /** Ten limbs from an even position, written out, and what follows them. */
  lemma LimbsTen(s: seq<int>, k: nat, n: nat)
    requires k % 2 == 0 && k + 10 <= n <= |s|
    ensures Limbs(s, k, n) == Sum10(s[k], s[k + 1], s[k + 2], s[k + 3], s[k + 4],
                                    s[k + 5], s[k + 6], s[k + 7], s[k + 8], s[k + 9])
                              + TWO255 * Limbs(s, k + 10, n)
  {
    hide Limbs;
    LimbsTwo(s, k + 0, n);
    LimbsTwo(s, k + 2, n);
    LimbsTwo(s, k + 4, n);
    LimbsTwo(s, k + 6, n);
    LimbsTwo(s, k + 8, n);
  }

  lemma ValExplicit(s: seq<int>)
    requires 10 <= |s|
    ensures Val(s) == Sum10(s[0], s[1], s[2], s[3], s[4], s[5], s[6], s[7], s[8], s[9])
  {
    LimbsTen(s, 0, 10);
    assert Limbs(s, 10, 10) == 0;
  }

  lemma LongExplicit(t: seq<int>)
    requires |t| == 19
    ensures Limbs(t, 0, 19) == Sum10(t[0], t[1], t[2], t[3], t[4], t[5], t[6], t[7], t[8], t[9])
                               + TWO255 * Sum10(t[10], t[11], t[12], t[13], t[14], t[15], t[16], t[17], t[18], 0)
  {
    hide Limbs, Sum10;
    LimbsTen(t, 0, 19);
    LimbsNine(t, 10);
  }

  lemma LimbsNine(t: seq<int>, k: nat)
    requires k % 2 == 0 && |t| == k + 9
    ensures Limbs(t, k, k + 9) == Sum10(t[k], t[k + 1], t[k + 2], t[k + 3], t[k + 4],
                                        t[k + 5], t[k + 6], t[k + 7], t[k + 8], 0)
  {
    hide Limbs;
    var n := k + 9;
    LimbsTwo(t, k + 0, n);
    LimbsTwo(t, k + 2, n);
    LimbsTwo(t, k + 4, n);
    LimbsTwo(t, k + 6, n);
    LimbsLast(t, k + 8);
  }

  lemma LimbsLast(s: seq<int>, k: nat)
    requires k < |s|
    ensures Limbs(s, k, k + 1) == s[k]
  {
    LimbsStep(s, k, k + 1);
    assert Limbs(s, k + 1, k + 1) == 0;
  }

  lemma Scale10(x: int, b0: int, b1: int, b2: int, b3: int, b4: int, b5: int, b6: int, b7: int, b8: int, b9: int)
    ensures x * Sum10(b0, b1, b2, b3, b4, b5, b6, b7, b8, b9)
         == Sum10(x * b0, x * b1, x * b2, x * b3, x * b4, x * b5, x * b6, x * b7, x * b8, x * b9)
  {
  }

  lemma ProductValue(a: seq<int>, b: seq<int>)
    requires |a| == |b| == 10 && Below(a, 10, TWO27) && Below(b, 10, TWO27)
    ensures Limbs(ProductLimbs(a, b), 0, 19) == Val(a) * Val(b)
  {
    hide Limbs;
    ValExplicit(a);
    ValExplicit(b);
    LongExplicit(ProductLimbs(a, b));
    ProductExpanded(a, b);
  }

  lemma ProductExpanded(a: seq<int>, b: seq<int>)
    requires |a| == |b| == 10 && Below(a, 10, TWO27) && Below(b, 10, TWO27)
    ensures var t := ProductLimbs(a, b);
            Sum10(t[0], t[1], t[2], t[3], t[4], t[5], t[6], t[7], t[8], t[9])
            + TWO255 * Sum10(t[10], t[11], t[12], t[13], t[14], t[15], t[16], t[17], t[18], 0)
            == Sum10(a[0], a[1], a[2], a[3], a[4], a[5], a[6], a[7], a[8], a[9])
               * Sum10(b[0], b[1], b[2], b[3], b[4], b[5], b[6], b[7], b[8], b[9])
  {
    hide Row, ProductLimbs;
    var v := Sum10(b[0], b[1], b[2], b[3], b[4], b[5], b[6], b[7], b[8], b[9]);
    Scale10(v, a[0], a[1], a[2], a[3], a[4], a[5], a[6], a[7], a[8], a[9]);
    ScaleRow(a[0], b);
    ScaleRow(a[1], b);
    ScaleRow(a[2], b);
    ScaleRow(a[3], b);
    ScaleRow(a[4], b);
    ScaleRow(a[5], b);
    ScaleRow(a[6], b);
    ScaleRow(a[7], b);
    ScaleRow(a[8], b);
    ScaleRow(a[9], b);
    RowsAreColumns(a, b);
  }

  /** One limb times an element. */
  ghost function Row(x: int32, b: seq<int>): int
    requires |b| == 10 && Below(b, 10, TWO27)
  {
    Sum10(Mul32(x, b[0]), Mul32(x, b[1]), Mul32(x, b[2]), Mul32(x, b[3]), Mul32(x, b[4]), Mul32(x, b[5]),
          Mul32(x, b[6]), Mul32(x, b[7]), Mul32(x, b[8]), Mul32(x, b[9]))
  }

  lemma ScaleRow(x: int32, b: seq<int>)
    requires |b| == 10 && Below(b, 10, TWO27)
    ensures Sum10(b[0], b[1], b[2], b[3], b[4], b[5], b[6], b[7], b[8], b[9]) * x == Row(x, b)
  {
    Scale10(x, b[0], b[1], b[2], b[3], b[4], b[5], b[6], b[7], b[8], b[9]);
  }

  /** The columns collect the same hundred products as the rows. */
  lemma RowsAreColumns(a: seq<int>, b: seq<int>)
    requires |a| == |b| == 10 && Below(a, 10, TWO27) && Below(b, 10, TWO27)
    ensures var t := ProductLimbs(a, b);
            Sum10(t[0], t[1], t[2], t[3], t[4], t[5], t[6], t[7], t[8], t[9])
            + TWO255 * Sum10(t[10], t[11], t[12], t[13], t[14], t[15], t[16], t[17], t[18], 0)
            == Sum10(Row(a[0], b), Row(a[1], b), Row(a[2], b), Row(a[3], b), Row(a[4], b), Row(a[5], b), Row(a[6], b),
                     Row(a[7], b), Row(a[8], b), Row(a[9], b))
  {
    hide Mul32;
  }
}
