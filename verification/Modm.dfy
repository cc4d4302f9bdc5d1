/** Arithmetic modulo the Ed25519 group order on five 56-bit limbs. */
module Modm {
  import opened Arith
  import opened Words

  const B: int := 0x100_0000_0000_0000       // the limb radix 2^56, and its powers
  const B2: int := 0x1_0000_0000_0000_0000_0000_0000_0000
  const B3: int := 0x100_0000_0000_0000_0000_0000_0000_0000_0000_0000_0000
  const B4: int := 0x1_0000_0000_0000_0000_0000_0000_0000_0000_0000_0000_0000_0000_0000_0000
  const TWO40: int := 0x100_0000_0000
  const TWO248: int := 0x100_0000_0000_0000_0000_0000_0000_0000_0000_0000_0000_0000_0000_0000_0000_0000
  const TWO256: int := 0x1_0000_0000_0000_0000_0000_0000_0000_0000_0000_0000_0000_0000_0000_0000_0000_0000
  const TWO264: int := 0x100_0000_0000_0000_0000_0000_0000_0000_0000_0000_0000_0000_0000_0000_0000_0000_0000
  const TWO512: int := TWO256 * TWO256

  // The group order and floor(2^512 / M), limb by limb as the tables give them.
  const M0: int := 0x12631a5cf5d3ed
  const M1: int := 0xf9dea2f79cd658
  const M2: int := 0x14de
  const M3: int := 0
  const M4: int := 0x10000000
  const MU0: int := 0x9ce5a30a2c131b
  const MU1: int := 0x215d086329a7ed
  const MU2: int := 0xffffffffeb2106
  const MU3: int := 0xffffffffffffff
  const MU4: int := 0xfffffffff

  const M: int := 0x1000000000000000000000000000000014def9dea2f79cd65812631a5cf5d3ed
  const MU: int := 0xfffffffffffffffffffffffffffffffeb2106215d086329a7ed9ce5a30a2c131b

  function Value(x0: int, x1: int, x2: int, x3: int, x4: int): int {
    x0 + B * x1 + B2 * x2 + B3 * x3 + B4 * x4
  }

  /** The number an array of five limbs stands for. */
  function Val(x: seq<int>): int
    requires |x| == 5
  {
    Value(x[0], x[1], x[2], x[3], x[4])
  }

  /** Every limb fits 56 bits and the top limb is below `top`. */
  predicate Limbs(x: seq<int>, top: int) {
    |x| == 5 && 0 <= x[0] < B && 0 <= x[1] < B && 0 <= x[2] < B && 0 <= x[3] < B && 0 <= x[4] < top
  }

  lemma ValBounds(x: seq<int>, top: int)
    requires Limbs(x, top)
    ensures 0 <= Val(x) < B4 * top
  {
  }

  lemma Constants()
    ensures B2 == B * B && B3 == B * B2 && B4 == B * B3 && TWO264 == TWO40 * B4 && TWO512 == TWO248 * TWO264
    ensures M == Value(M0, M1, M2, M3, M4) && MU == Value(MU0, MU1, MU2, MU3, MU4)
    ensures MU == TWO512 / M && 0 <= TWO512 - M * MU < M
  {
  }

  /** The borrow test `(a - b) >> 63`. */
  function Borrow(a: uint64, b: uint64): (r: uint64)
    ensures r <= 1
    ensures a < TWO63 && b <= TWO63 ==> r == (if a < b then 1 else 0)
  {
    Wrap64(a - b) / TWO63
  }

  /** One limb of a subtraction with borrow: `width` is the value borrowed. */
  method SubLimb(a: uint64, pb: uint64, width: int) returns (t: uint64, b: uint64)
    requires width == B || width == TWO40 || width == TWO32
    requires 0 <= a < width && pb <= width
    ensures b == (if a < pb then 1 else 0)
    ensures t == a - pb + (if b == 1 then width else 0)
    ensures b <= 1 && t < width && (width == B ==> t == a - pb + B * b)
  {
    b := Borrow(a, pb);
    t := Wrap64(a - pb + b * width);
  }

  /** The five-limb subtraction chain shared by the reductions: a difference modulo `width * 2^224`
      and its final borrow. */
  method SubLimbs(x: seq<uint64>, y: seq<uint64>, width: int)
    returns (t0: uint64, t1: uint64, t2: uint64, t3: uint64, t4: uint64, b: uint64)
    requires width == TWO40 || width == TWO32
    requires Limbs(x, width) && Limbs(y, width)
    ensures b <= 1 && Limbs([t0, t1, t2, t3, t4], width)
    ensures Value(t0, t1, t2, t3, t4) == Val(x) - Val(y) + (if b == 1 then B4 * width else 0)
  {
    var b0, b1, b2, b3;
    t0, b0 := SubLimb(x[0], y[0], B);
    t1, b1 := SubLimb(x[1], y[1] + b0, B);
    t2, b2 := SubLimb(x[2], y[2] + b1, B);
    t3, b3 := SubLimb(x[3], y[3] + b2, B);
    t4, b := SubLimb(x[4], y[4] + b3, width);
  }

  function SubtractOnce(v: int): int {
    if v < M then v else v - M
  }

  /** Keeps a value below `M` and subtracts `M` once from any larger one. */
  method Reduce256(r: array<uint64>)
    requires r.Length == 5 && Limbs(r[..], TWO32)
    modifies r
    ensures Limbs(r[..], TWO32)
    ensures Val(r[..]) == SubtractOnce(old(Val(r[..])))
  {
    ghost var x := r[..];
    var t0, t1, t2, t3, t4, b := SubLimbs(r[..], [M0, M1, M2, M3, M4], TWO32);
    var t := [t0, t1, t2, t3, t4];
    BorrowDecides(x, t, b);
    var borrow: int := b;
    var mask := Wrap64(borrow - 1);
    MaskedCopy(r, mask, t);
  }

  /** The final borrow tells whether the subtraction was right, and picks the limbs to keep. */
  lemma BorrowDecides(x: seq<uint64>, t: seq<uint64>, b: int)
    requires Limbs(x, TWO32) && Limbs(t, TWO32) && 0 <= b <= 1
    requires Val(t) == Val(x) - M + if b == 1 then B4 * TWO32 else 0
    ensures Wrap64(b - 1) == if b == 0 then 0xffff_ffff_ffff_ffff else 0
    ensures Val(if b == 0 then t else x) == SubtractOnce(Val(x))
  {
    ValBounds(x, TWO32);
    ValBounds(t, TWO32);
  }

  /** `r[i] ^= mask & (r[i] ^ t[i])` for every limb. */
  method MaskedCopy(r: array<uint64>, mask: uint64, t: seq<uint64>)
    requires r.Length == |t| && (mask == 0 || mask == 0xffff_ffff_ffff_ffff)
    modifies r
    ensures r[..] == if mask == 0 then old(r[..]) else t
  {
    hide And, Xor;
    var i := 0;
    while i < r.Length
      invariant 0 <= i <= r.Length
      invariant forall j :: 0 <= j < i ==> r[j] == if mask == 0 then old(r[j]) else t[j]
      invariant forall j :: i <= j < r.Length ==> r[j] == old(r[j])
    {
      MaskedCopy64(mask, r[i], t[i]);
      r[i] := Xor(r[i], And(mask, Xor(r[i], t[i])));
      i := i + 1;
    }
  }

  /** A column of a product with its carry in: up to five limb products accumulated in 128 bits. */
  ghost function Dot(a0: int, x0: int, a1: int, x1: int, a2: int, x2: int, a3: int, x3: int, a4: int, x4: int,
                     f: int): int {
    a0 * x0 + a1 * x1 + a2 * x2 + a3 * x3 + a4 * x4 + f
  }

  /** The parts of a column accumulator below bit 40, from bit 40 to 55, and from bit 56 up. */
  ghost predicate Split40(c: int, low: int, hi16: int, f: int) {
    c == low + TWO40 * hi16 + B * f
  }

  ghost predicate Split56(c: int, low: int, f: int) {
    c == low + B * f
  }

  lemma LimbProduct(a: int, x: int)
    requires 0 <= a < B && 0 <= x < B
    ensures 0 <= a * x < B2
  {
    MulBounds(a, x, B - 1, B - 1);
  }

  /** Accumulates one column; the sum of five products and a carry stays far below 2^128. */
  method Accumulate(a0: uint64, x0: uint64, a1: uint64, x1: uint64, a2: uint64, x2: uint64,
                    a3: uint64, x3: uint64, a4: uint64, x4: uint64, f: uint64) returns (c: uint128)
    requires a0 < B && x0 < B && a1 < B && x1 < B && a2 < B && x2 < B && a3 < B && x3 < B && a4 < B && x4 < B
    ensures c == Dot(a0, x0, a1, x1, a2, x2, a3, x3, a4, x4, f) && c < 6 * B2
  {
    LimbProduct(a0, x0); LimbProduct(a1, x1); LimbProduct(a2, x2); LimbProduct(a3, x3); LimbProduct(a4, x4);
    c := a0 * x0;
    c := c + f;
    c := c + a1 * x1;
    c := c + a2 * x2;
    c := c + a3 * x3;
    c := c + a4 * x4;
  }

  /** Splits a column at bits 40 and 56: `(c >> 40) & 0xffff`, `(c << 16) & (2^56 - 1)` and `c >> 56`. */
  method Column40(a0: uint64, x0: uint64, a1: uint64, x1: uint64, a2: uint64, x2: uint64,
                  a3: uint64, x3: uint64, a4: uint64, x4: uint64, f: uint64)
    returns (ghost low: int, hi16: uint64, shifted: uint64, carry: uint64)
    requires a0 < B && x0 < B && a1 < B && x1 < B && a2 < B && x2 < B && a3 < B && x3 < B && a4 < B && x4 < B
    ensures Split40(Dot(a0, x0, a1, x1, a2, x2, a3, x3, a4, x4, f), low, hi16, carry)
    ensures 0 <= low < TWO40 && hi16 < 0x1_0000 && shifted == 0x1_0000 * low
  {
    var c := Accumulate(a0, x0, a1, x1, a2, x2, a3, x3, a4, x4, f);
    var lo := c % TWO64;
    low := c % TWO40;
    hi16 := lo / TWO40 % 0x1_0000;
    shifted := Wrap64(lo * 0x1_0000) % B;
    carry := c / B;
    SplitAt40(c);
  }

  lemma SplitAt40(c: int)
    requires 0 <= c
    ensures var l, h, f := c % TWO40, c % TWO64 / TWO40 % 0x1_0000, c / B;
            c == l + TWO40 * h + B * f && c % TWO64 * 0x1_0000 % TWO64 % B == 0x1_0000 * l
  {
    var l, h, f := c % TWO40, c / TWO40 % 0x1_0000, c / TWO40 / 0x1_0000;
    var g, k := f % 0x100, f / 0x100;
    assert c == l + TWO40 * h + B * f && f == g + 0x100 * k;
    DivModUnique(c, B, f, l + TWO40 * h);
    var lo := l + TWO40 * h + B * g;
    DivModUnique(c, TWO64, k, lo);
    DivModUnique(lo, TWO40, h + 0x1_0000 * g, l);
    DivModUnique(h + 0x1_0000 * g, 0x1_0000, g, h);
    var h1, h0 := h / 0x100, h % 0x100;
    DivModUnique(lo * 0x1_0000, TWO64, h1 + 0x100 * g, 0x1_0000 * l + B * h0);
    DivModUnique(0x1_0000 * l + B * h0, B, h0, 0x1_0000 * l);
  }

  /** Splits a column at bit 56. */
  method Column56(a0: uint64, x0: uint64, a1: uint64, x1: uint64, a2: uint64, x2: uint64,
                  a3: uint64, x3: uint64, a4: uint64, x4: uint64, f: uint64) returns (lo: uint64, carry: uint64)
    requires a0 < B && x0 < B && a1 < B && x1 < B && a2 < B && x2 < B && a3 < B && x3 < B && a4 < B && x4 < B
    ensures Split56(Dot(a0, x0, a1, x1, a2, x2, a3, x3, a4, x4, f), lo, carry) && lo < B
  {
    var c := Accumulate(a0, x0, a1, x1, a2, x2, a3, x3, a4, x4, f);
    lo := c % TWO64 % B;
    carry := c / B;
    ghost var r, f0, f1 := c % B, c / B % 0x100, c / B / 0x100;
    DivModUnique(c, TWO64, f1, r + B * f0);
    DivModUnique(r + B * f0, B, f0, r);
  }

  /** The bits `h` under a word already shifted up by 16. */
  method Join16(ghost low: int, shifted: uint64, h: uint64) returns (r: uint64)
    requires 0 <= low < TWO40 && shifted == 0x1_0000 * low && h < 0x1_0000
    ensures r == 0x1_0000 * low + h && r < B
  {
    DivModUnique(shifted, 0x1_0000, low, 0);
    r := DisjointOr(shifted, h, 0x1_0000);
  }

  /** The quotient estimate: columns 0 to 2 of `MU * q1` are never formed and column 3 only
      contributes its carry, so the estimate misses the exact product by `err`. */
  method BarrettQuotient(x0: uint64, x1: uint64, x2: uint64, x3: uint64, x4: uint64)
    returns (y0: uint64, y1: uint64, y2: uint64, y3: uint64, y4: uint64, ghost err: int)
    requires x0 < B && x1 < B && x2 < B && x3 < B && x4 < TWO40
    ensures y0 < B && y1 < B && y2 < B && y3 < B && y4 < TWO40
    ensures MU * Value(x0, x1, x2, x3, x4) == TWO264 * Value(y0, y1, y2, y3, y4) + err
    ensures 0 <= err < TWO264 + B4 * 4
  {
    hide Dot, Split40, Split56;
    var lo3, f3 := Column56(MU0, x3, MU3, x0, MU1, x2, MU2, x1, 0, 0, 0);
    var low4, h4, s4, f4 := Column40(MU0, x4, MU4, x0, MU3, x1, MU1, x3, MU2, x2, f3);
    var low5, h5, s5, f5 := Column40(MU4, x1, MU1, x4, MU2, x3, MU3, x2, 0, 0, f4);
    y0 := Join16(low5, s5, h4);
    var low6, h6, s6, f6 := Column40(MU4, x2, MU2, x4, MU3, x3, 0, 0, 0, 0, f5);
    y1 := Join16(low6, s6, h5);
    var low7, h7, s7, f7 := Column40(MU4, x3, MU3, x4, 0, 0, 0, 0, 0, 0, f6);
    y2 := Join16(low7, s7, h6);
    var low8, h8, s8, f8 := Column40(MU4, x4, 0, 0, 0, 0, 0, 0, 0, 0, f7);
    y3 := Join16(low8, s8, h7);
    TopColumn(x4, f7, low8, h8, f8);
    y4 := Join16(f8, 0x1_0000 * f8, h8);
    err := LowColumns(x0, x1, x2) + B3 * lo3 + B4 * low4;
    QuotientColumns(x0, x1, x2, x3, x4, lo3, f3, low4, h4, f4, low5, h5, f5, low6, h6, f6, low7, h7, f7, low8, h8, f8);
  }

  /** The columns of `MU * q1` that are left out. */
  ghost function LowColumns(x0: int, x1: int, x2: int): (r: int)
    requires 0 <= x0 < B && 0 <= x1 < B && 0 <= x2 < B
    ensures 0 <= r < B4 * 3
  {
    MU0 * x0 + B * (MU0 * x1 + MU1 * x0) + B2 * (MU0 * x2 + MU1 * x1 + MU2 * x0)
  }

  lemma TopColumn(x4: int, f7: int, low8: int, h8: int, f8: int)
    requires 0 <= x4 < TWO40 && 0 <= f7 < TWO64 && 0 <= low8 && 0 <= h8
    requires Split40(Dot(MU4, x4, 0, 0, 0, 0, 0, 0, 0, 0, f7), low8, h8, f8)
    ensures f8 < 0x100_0000
  {
  }

  /** Adding up the column splits of the quotient estimate. */
  lemma QuotientColumns(x0: int, x1: int, x2: int, x3: int, x4: int, lo3: int, f3: int, low4: int, h4: int, f4: int,
                        low5: int, h5: int, f5: int, low6: int, h6: int, f6: int, low7: int, h7: int, f7: int,
                        low8: int, h8: int, f8: int)
    requires 0 <= x0 < B && 0 <= x1 < B && 0 <= x2 < B
    requires Split56(Dot(MU0, x3, MU3, x0, MU1, x2, MU2, x1, 0, 0, 0), lo3, f3)
    requires Split40(Dot(MU0, x4, MU4, x0, MU3, x1, MU1, x3, MU2, x2, f3), low4, h4, f4)
    requires Split40(Dot(MU4, x1, MU1, x4, MU2, x3, MU3, x2, 0, 0, f4), low5, h5, f5)
    requires Split40(Dot(MU4, x2, MU2, x4, MU3, x3, 0, 0, 0, 0, f5), low6, h6, f6)
    requires Split40(Dot(MU4, x3, MU3, x4, 0, 0, 0, 0, 0, 0, f6), low7, h7, f7)
    requires Split40(Dot(MU4, x4, 0, 0, 0, 0, 0, 0, 0, 0, f7), low8, h8, f8)
    ensures MU * Value(x0, x1, x2, x3, x4)
         == TWO264 * Value(0x1_0000 * low5 + h4, 0x1_0000 * low6 + h5, 0x1_0000 * low7 + h6, 0x1_0000 * low8 + h7,
                           0x1_0000 * f8 + h8)
            + LowColumns(x0, x1, x2) + B3 * lo3 + B4 * low4
  {
  }

  /** `M * y` modulo 2^264; the columns above bit 280 are never formed. */
  method BarrettProduct(y0: uint64, y1: uint64, y2: uint64, y3: uint64, y4: uint64)
    returns (z0: uint64, z1: uint64, z2: uint64, z3: uint64, z4: uint64, ghost k: int)
    requires y0 < B && y1 < B && y2 < B && y3 < B && y4 < TWO40
    ensures z0 < B && z1 < B && z2 < B && z3 < B && z4 < TWO40
    ensures M * Value(y0, y1, y2, y3, y4) == Value(z0, z1, z2, z3, z4) + TWO264 * k
  {
    hide Dot, Split56;
    var f0, f1, f2, f3;
    z0, f0 := Column56(M0, y0, 0, 0, 0, 0, 0, 0, 0, 0, 0);
    z1, f1 := Column56(M0, y1, M1, y0, 0, 0, 0, 0, 0, 0, f0);
    z2, f2 := Column56(M0, y2, M2, y0, M1, y1, 0, 0, 0, 0, f1);
    z3, f3 := Column56(M0, y3, M3, y0, M1, y2, M2, y1, 0, 0, f2);
    var c := Accumulate(M0, y4, M4, y0, M3, y1, M1, y3, M2, y2, f3);
    z4 := c % TWO64 % TWO40;
    assert c % TWO64 % TWO40 == c % TWO40;
    k := HighColumns(y1, y2, y3, y4) + c / TWO40;
    ProductColumns(y0, y1, y2, y3, y4, z0, f0, z1, f1, z2, f2, z3, f3, c);
  }

  /** The columns of `M * y` that only matter above 2^264, in units of 2^264. */
  ghost function HighColumns(y1: int, y2: int, y3: int, y4: int): int {
    0x1_0000 * ((M4 * y1 + M1 * y4 + M2 * y3 + M3 * y2) + B * (M4 * y2 + M2 * y4 + M3 * y3)
                + B2 * (M4 * y3 + M3 * y4) + B3 * (M4 * y4))
  }

  /** Adding up the column splits of the product. */
  lemma ProductColumns(y0: int, y1: int, y2: int, y3: int, y4: int, z0: int, f0: int, z1: int, f1: int,
                       z2: int, f2: int, z3: int, f3: int, c: int)
    requires Split56(Dot(M0, y0, 0, 0, 0, 0, 0, 0, 0, 0, 0), z0, f0)
    requires Split56(Dot(M0, y1, M1, y0, 0, 0, 0, 0, 0, 0, f0), z1, f1)
    requires Split56(Dot(M0, y2, M2, y0, M1, y1, 0, 0, 0, 0, f1), z2, f2)
    requires Split56(Dot(M0, y3, M3, y0, M1, y2, M2, y1, 0, 0, f2), z3, f3)
    requires c == Dot(M0, y4, M4, y0, M3, y1, M1, y3, M2, y2, f3)
    ensures M * Value(y0, y1, y2, y3, y4)
         == Value(z0, z1, z2, z3, c % TWO40) + TWO264 * (HighColumns(y1, y2, y3, y4) + c / TWO40)
  {
    assert c == c % TWO40 + TWO40 * (c / TWO40);
  }

  /** The estimate is at most two too small: what Barrett's method and the truncated columns cost together
      is less than three times the modulus. */
  lemma EstimateError(x: int, q: int, err: int)
    requires 0 <= x < TWO512
    requires MU * (x / TWO248) == TWO264 * q + err && 0 <= err < TWO264 + B4 * 4
    ensures 0 <= x - M * q < 3 * M
  {
    var hi, lo := x / TWO248, x % TWO248;
    assert x == TWO248 * hi + lo;
    assert hi < TWO264;
    Constants();
    var rho := TWO512 - M * MU;
    assert TWO264 * (x - M * q) == TWO264 * lo + rho * hi + M * err;
  }

  /** Barrett reduction of any `x < 2^512` given as `q1 = x >> 248` and `r1 = x mod 2^264`;
      `r` may be the same array as `r1`. */
  method BarrettReduce256(r: array<uint64>, q1: array<uint64>, r1: array<uint64>, ghost x: int)
    requires r.Length == 5 && q1.Length == 5 && r1.Length == 5
    requires 0 <= x < TWO512
    requires Limbs(q1[..], TWO40) && Val(q1[..]) == x / TWO248
    requires Limbs(r1[..], TWO40) && Val(r1[..]) == x % TWO264
    modifies r
    ensures Limbs(r[..], TWO32) && Val(r[..]) == x % M
  {
    hide Value;
    var y0, y1, y2, y3, y4, err := BarrettQuotient(q1[0], q1[1], q1[2], q1[3], q1[4]);
    ghost var q := Value(y0, y1, y2, y3, y4);
    EstimateError(x, q, err);
    var z0, z1, z2, z3, z4, k := BarrettProduct(y0, y1, y2, y3, y4);
    var t0, t1, t2, t3, t4, b := SubLimbs(r1[..], [z0, z1, z2, z3, z4], TWO40);
    ghost var t := [t0, t1, t2, t3, t4];
    ExactDifference(x, q, Value(z0, z1, z2, z3, z4), k, t, b);
    r[0], r[1], r[2], r[3], r[4] := t0, t1, t2, t3, t4;
    assert r[..] == t;
    Reduce256(r);
    Reduce256(r);
    TwiceReduced(x, q);
  }

  /** Subtracting modulo 2^264 gives the true remainder estimate. */
  lemma ExactDifference(x: int, q: int, z: int, k: int, t: seq<int>, b: int)
    requires 0 <= x - M * q < 3 * M && M * q == z + TWO264 * k && 0 <= b <= 1
    requires Limbs(t, TWO40) && Val(t) == x % TWO264 - z + (if b == 1 then B4 * TWO40 else 0)
    ensures Limbs(t, TWO32) && Val(t) == x - M * q
  {
    ValBounds(t, TWO40);
    SameResidue(Val(t), x - M * q, TWO264, k - x / TWO264 + b);
    TopLimb(t, TWO40, 4 * M);
  }

  lemma TwiceReduced(x: int, q: int)
    requires 0 <= x - M * q < 3 * M
    ensures SubtractOnce(SubtractOnce(x - M * q)) == x % M
  {
    var v := x - M * q;
    var n := if v < M then 0 else if v < 2 * M then 1 else 2;
    DivModUnique(x, M, q + n, v - n * M);
  }

  lemma SameResidue(u: int, v: int, n: int, k: int)
    requires 0 <= u < n && 0 <= v < n && u == v + n * k
    ensures u == v
  {
    DivModUnique(u, n, k, v);
    DivModUnique(u, n, 0, u);
  }

  lemma TopLimb(t: seq<int>, top: int, bound: int)
    requires Limbs(t, top) && Val(t) < bound <= TWO256
    ensures Limbs(t, TWO32)
  {
  }

  /** Splits a column at bits 24 and 56: `(c >> 24) & 0xffffffff`, `(c << 32) & (2^56 - 1)`, `c >> 56`
      and `c & (2^40 - 1)`. */
  method Column24(a0: uint64, x0: uint64, a1: uint64, x1: uint64, a2: uint64, x2: uint64,
                  a3: uint64, x3: uint64, a4: uint64, x4: uint64, f: uint64)
    returns (ghost low: int, hi32: uint64, shifted: uint64, carry: uint64, low40: uint64)
    requires a0 < B && x0 < B && a1 < B && x1 < B && a2 < B && x2 < B && a3 < B && x3 < B && a4 < B && x4 < B
    ensures Split24(Dot(a0, x0, a1, x1, a2, x2, a3, x3, a4, x4, f), low, hi32, carry)
    ensures 0 <= low < 0x100_0000 && hi32 < TWO32 && shifted == TWO32 * low
            && low40 == low + 0x100_0000 * (hi32 % 0x1_0000)
  {
    var c := Accumulate(a0, x0, a1, x1, a2, x2, a3, x3, a4, x4, f);
    var lo := c % TWO64;
    low := c % 0x100_0000;
    hi32 := lo / 0x100_0000 % TWO32;
    shifted := Wrap64(lo * TWO32) % B;
    carry := c / B;
    low40 := lo % TWO40;
    SplitAt24(c);
  }

  ghost predicate Split24(c: int, low: int, hi32: int, f: int) {
    c == low + 0x100_0000 * hi32 + B * f
  }

  lemma SplitAt24(c: int)
    requires 0 <= c
    ensures var l, h, f := c % 0x100_0000, c % TWO64 / 0x100_0000 % TWO32, c / B;
            && c == l + 0x100_0000 * h + B * f
            && c % TWO64 * TWO32 % TWO64 % B == TWO32 * l
            && c % TWO64 % TWO40 == l + 0x100_0000 * (h % 0x1_0000)
  {
    var l, h, f := c % 0x100_0000, c / 0x100_0000 % TWO32, c / 0x100_0000 / TWO32;
    var g, k := f % 0x100, f / 0x100;
    assert c == l + 0x100_0000 * h + B * f && f == g + 0x100 * k;
    DivModUnique(c, B, f, l + 0x100_0000 * h);
    var lo := l + 0x100_0000 * h + B * g;
    DivModUnique(c, TWO64, k, lo);
    DivModUnique(lo, 0x100_0000, h + TWO32 * g, l);
    DivModUnique(h + TWO32 * g, TWO32, g, h);
    var h1, h0 := h / 0x100, h % 0x100;
    DivModUnique(lo * TWO32, TWO64, h1 + 0x100_0000 * g, TWO32 * l + B * h0);
    DivModUnique(TWO32 * l + B * h0, B, h0, TWO32 * l);
    var e1, e0 := h / 0x1_0000, h % 0x1_0000;
    DivModUnique(lo, TWO40, e1 + 0x1_0000 * g, l + 0x100_0000 * e0);
  }

  /** The bits `h` under a word already shifted up by 32. */
  method Join32(ghost low: int, shifted: uint64, h: uint64) returns (r: uint64)
    requires 0 <= low < 0x100_0000 && shifted == TWO32 * low && h < TWO32
    ensures r == TWO32 * low + h && r < B
  {
    DivModUnique(shifted, TWO32, low, 0);
    r := DisjointOr(shifted, h, TWO32);
  }

  /** Schoolbook multiplication cut at bits 264 and 248: `r1 = x * y mod 2^264`, `q1 = x * y >> 248`. */
  method MulLimbs(x0: uint64, x1: uint64, x2: uint64, x3: uint64, x4: uint64,
                  y0: uint64, y1: uint64, y2: uint64, y3: uint64, y4: uint64)
    returns (r: seq<uint64>, q: seq<uint64>)
    requires x0 < B && x1 < B && x2 < B && x3 < B && x4 < TWO32
    requires y0 < B && y1 < B && y2 < B && y3 < B && y4 < TWO32
    ensures Limbs(r, TWO40) && Limbs(q, TWO40)
    ensures var p := Value(x0, x1, x2, x3, x4) * Value(y0, y1, y2, y3, y4);
            0 <= p < TWO512 && Val(r) == p % TWO264 && Val(q) == p / TWO248
  {
    hide Dot, Split56, Split24, Value, Val, Limbs;
    var r0, f0 := Column56(x0, y0, 0, 0, 0, 0, 0, 0, 0, 0, 0);
    var r1, f1 := Column56(x0, y1, x1, y0, 0, 0, 0, 0, 0, 0, f0);
    var r2, f2 := Column56(x0, y2, x2, y0, x1, y1, 0, 0, 0, 0, f1);
    var r3, f3 := Column56(x0, y3, x3, y0, x1, y2, x2, y1, 0, 0, f2);
    var l4, h4, s4, f4, r4 := Column24(x0, y4, x4, y0, x3, y1, x1, y3, x2, y2, f3);
    var l5, h5, s5, f5, _ := Column24(x4, y1, x1, y4, x2, y3, x3, y2, 0, 0, f4);
    var q0 := Join32(l5, s5, h4);
    var l6, h6, s6, f6, _ := Column24(x4, y2, x2, y4, x3, y3, 0, 0, 0, 0, f5);
    var q1 := Join32(l6, s6, h5);
    var l7, h7, s7, f7, _ := Column24(x4, y3, x3, y4, 0, 0, 0, 0, 0, 0, f6);
    var q2 := Join32(l7, s7, h6);
    var l8, h8, s8, f8, _ := Column24(x4, y4, 0, 0, 0, 0, 0, 0, 0, 0, f7);
    var q3 := Join32(l8, s8, h7);
    MulColumns(x0, x1, x2, x3, x4, y0, y1, y2, y3, y4, r0, f0, r1, f1, r2, f2, r3, f3, l4, h4, f4, l5, h5, f5,
               l6, h6, f6, l7, h7, f7, l8, h8, f8);
    ghost var p := Value(x0, x1, x2, x3, x4) * Value(y0, y1, y2, y3, y4);
    ProductRange(x0, x1, x2, x3, x4, y0, y1, y2, y3, y4);
    TopWord(p, r0, r1, r2, r3, l4, q0, q1, q2, q3, h8, f8);
    var q4 := Join32(f8, TWO32 * f8, h8);
    r, q := [r0, r1, r2, r3, r4], [q0, q1, q2, q3, q4];
    CutProduct(p, r0, r1, r2, r3, l4, r4, q0, q1, q2, q3, q4, h4, l5);
  }

  lemma ProductRange(x0: int, x1: int, x2: int, x3: int, x4: int, y0: int, y1: int, y2: int, y3: int, y4: int)
    requires 0 <= x0 < B && 0 <= x1 < B && 0 <= x2 < B && 0 <= x3 < B && 0 <= x4 < TWO32
    requires 0 <= y0 < B && 0 <= y1 < B && 0 <= y2 < B && 0 <= y3 < B && 0 <= y4 < TWO32
    ensures 0 <= Value(x0, x1, x2, x3, x4) * Value(y0, y1, y2, y3, y4) < TWO512
  {
    MulBounds(Value(x0, x1, x2, x3, x4), Value(y0, y1, y2, y3, y4), TWO256 - 1, TWO256 - 1);
  }

  /** A product below 2^512 leaves a top word below 2^40. */
  lemma TopWord(p: int, r0: int, r1: int, r2: int, r3: int, l4: int, q0: int, q1: int, q2: int, q3: int, h8: int,
                f8: int)
    requires p < TWO512 && 0 <= r0 && 0 <= r1 && 0 <= r2 && 0 <= r3 && 0 <= l4
    requires 0 <= q0 && 0 <= q1 && 0 <= q2 && 0 <= q3 && 0 <= h8
    requires p == Value(r0, r1, r2, r3, l4) + TWO248 * Value(q0, q1, q2, q3, TWO32 * f8 + h8)
    ensures TWO32 * f8 + h8 < TWO40 && f8 < 0x100
  {
  }

  /** The two overlapping cuts of one product. */
  lemma CutProduct(p: int, r0: int, r1: int, r2: int, r3: int, l4: int, r4: int,
                   q0: int, q1: int, q2: int, q3: int, q4: int, h4: int, l5: int)
    requires 0 <= r0 < B && 0 <= r1 < B && 0 <= r2 < B && 0 <= r3 < B && 0 <= l4 < 0x100_0000 && 0 <= h4 < TWO32
    requires 0 <= q0 < B && 0 <= q1 < B && 0 <= q2 < B && 0 <= q3 < B && 0 <= q4 < TWO40
    requires q0 == TWO32 * l5 + h4 && r4 == l4 + 0x100_0000 * (h4 % 0x1_0000)
    requires p == Value(r0, r1, r2, r3, l4) + TWO248 * Value(q0, q1, q2, q3, q4)
    ensures Limbs([r0, r1, r2, r3, r4], TWO40) && Limbs([q0, q1, q2, q3, q4], TWO40)
    ensures Val([r0, r1, r2, r3, r4]) == p % TWO264 && Val([q0, q1, q2, q3, q4]) == p / TWO248
  {
    var low, q := Value(r0, r1, r2, r3, l4), Value(q0, q1, q2, q3, q4);
    DivModUnique(p, TWO248, q, low);
    var e1, e0 := h4 / 0x1_0000, h4 % 0x1_0000;
    DivModUnique(p, TWO264, 0x1_0000 * (l5 + 0x100_0000 * Value(q1, q2, q3, q4, 0)) + e1, low + TWO248 * e0);
  }

  /** Adding up the columns of a five by five limb product. */
  lemma MulColumns(x0: int, x1: int, x2: int, x3: int, x4: int, y0: int, y1: int, y2: int, y3: int, y4: int,
                   r0: int, f0: int, r1: int, f1: int, r2: int, f2: int, r3: int, f3: int,
                   l4: int, h4: int, f4: int, l5: int, h5: int, f5: int, l6: int, h6: int, f6: int,
                   l7: int, h7: int, f7: int, l8: int, h8: int, f8: int)
    requires Split56(Dot(x0, y0, 0, 0, 0, 0, 0, 0, 0, 0, 0), r0, f0)
    requires Split56(Dot(x0, y1, x1, y0, 0, 0, 0, 0, 0, 0, f0), r1, f1)
    requires Split56(Dot(x0, y2, x2, y0, x1, y1, 0, 0, 0, 0, f1), r2, f2)
    requires Split56(Dot(x0, y3, x3, y0, x1, y2, x2, y1, 0, 0, f2), r3, f3)
    requires Split24(Dot(x0, y4, x4, y0, x3, y1, x1, y3, x2, y2, f3), l4, h4, f4)
    requires Split24(Dot(x4, y1, x1, y4, x2, y3, x3, y2, 0, 0, f4), l5, h5, f5)
    requires Split24(Dot(x4, y2, x2, y4, x3, y3, 0, 0, 0, 0, f5), l6, h6, f6)
    requires Split24(Dot(x4, y3, x3, y4, 0, 0, 0, 0, 0, 0, f6), l7, h7, f7)
    requires Split24(Dot(x4, y4, 0, 0, 0, 0, 0, 0, 0, 0, f7), l8, h8, f8)
    ensures Value(x0, x1, x2, x3, x4) * Value(y0, y1, y2, y3, y4)
         == Value(r0, r1, r2, r3, l4)
            + TWO248 * Value(TWO32 * l5 + h4, TWO32 * l6 + h5, TWO32 * l7 + h6, TWO32 * l8 + h7, TWO32 * f8 + h8)
  {
    ExpandProduct(x0, x1, x2, x3, x4, y0, y1, y2, y3, y4);
  }

  lemma ExpandProduct(x0: int, x1: int, x2: int, x3: int, x4: int, y0: int, y1: int, y2: int, y3: int, y4: int)
    ensures Value(x0, x1, x2, x3, x4) * Value(y0, y1, y2, y3, y4)
         == (x0 * y0)
            + B * (x0 * y1 + x1 * y0)
            + B2 * (x0 * y2 + x2 * y0 + x1 * y1)
            + B3 * (x0 * y3 + x3 * y0 + x1 * y2 + x2 * y1)
            + B4 * (x0 * y4 + x4 * y0 + x3 * y1 + x1 * y3 + x2 * y2)
            + B4 * B * (x4 * y1 + x1 * y4 + x2 * y3 + x3 * y2)
            + B4 * B2 * (x4 * y2 + x2 * y4 + x3 * y3)
            + B4 * B3 * (x4 * y3 + x3 * y4)
            + B4 * B4 * (x4 * y4)
  {
  }

  /** `r = x * y mod M`; `r` may be one of the factors. */
  method Mul256(r: array<uint64>, x: array<uint64>, y: array<uint64>)
    requires r.Length == 5 && x.Length == 5 && y.Length == 5
    requires Limbs(x[..], TWO32) && Limbs(y[..], TWO32)
    modifies r
    ensures Limbs(r[..], TWO32) && Val(r[..]) == (old(Val(x[..])) * old(Val(y[..]))) % M
  {
    hide Value;
    var lo, hi := MulLimbs(x[0], x[1], x[2], x[3], x[4], y[0], y[1], y[2], y[3], y[4]);
    var r1 := new uint64[5](i requires 0 <= i < 5 => lo[i]);
    var q1 := new uint64[5](i requires 0 <= i < 5 => hi[i]);
    assert r1[..] == lo && q1[..] == hi;
    BarrettReduce256(r, q1, r1, Val(x[..]) * Val(y[..]));
  }

  /** The addition chain with its carries. */
  method AddLimbs(x0: uint64, x1: uint64, x2: uint64, x3: uint64, x4: uint64,
                  y0: uint64, y1: uint64, y2: uint64, y3: uint64, y4: uint64)
    returns (s0: uint64, s1: uint64, s2: uint64, s3: uint64, s4: uint64)
    requires x0 < B && x1 < B && x2 < B && x3 < B && x4 < TWO32 / 2
    requires y0 < B && y1 < B && y2 < B && y3 < B && y4 < TWO32 / 2
    ensures s0 < B && s1 < B && s2 < B && s3 < B && s4 < TWO32
    ensures Value(s0, s1, s2, s3, s4) == Value(x0, x1, x2, x3, x4) + Value(y0, y1, y2, y3, y4)
  {
    var c: uint64 := x0 + y0;
    s0 := c % B;
    c := c / B + (x1 + y1);
    s1 := c % B;
    c := c / B + (x2 + y2);
    s2 := c % B;
    c := c / B + (x3 + y3);
    s3 := c % B;
    s4 := c / B + (x4 + y4);
  }

  /** `r = x + y mod M` for reduced summands; `r` may be one of them. */
  method Add256(r: array<uint64>, x: array<uint64>, y: array<uint64>)
    requires r.Length == 5 && x.Length == 5 && y.Length == 5
    requires Limbs(x[..], TWO32 / 2) && Limbs(y[..], TWO32 / 2)
    modifies r
    ensures Limbs(r[..], TWO32)
    ensures Val(r[..]) == SubtractOnce(old(Val(x[..])) + old(Val(y[..])))
    ensures old(Val(x[..])) < M && old(Val(y[..])) < M ==> Val(r[..]) == (old(Val(x[..])) + old(Val(y[..]))) % M
  {
    hide Value;
    ValBounds(x[..], TWO32 / 2);
    ValBounds(y[..], TWO32 / 2);
    ghost var sum := Val(x[..]) + Val(y[..]);
    if Val(x[..]) < M && Val(y[..]) < M {
      TwiceReduced(sum, 0);
    }
    r[0], r[1], r[2], r[3], r[4] := AddLimbs(x[0], x[1], x[2], x[3], x[4], y[0], y[1], y[2], y[3], y[4]);
    Reduce256(r);
  }
}
