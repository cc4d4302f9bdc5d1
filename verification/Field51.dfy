/** The field modulo 2^255 - 19 on five unsigned 51-bit limbs, as the signature code uses it. */
module Field51 {
  import opened Arith
  import opened Words
  import opened Field25519
  import opened FieldOps

  const Q51: int := 0x8_0000_0000_0000
  const Q102: int := 0x40_0000_0000_0000_0000_0000_0000
  const Q153: int := 0x200_0000_0000_0000_0000_0000_0000_0000_0000_0000
  const Q204: int := 0x1000_0000_0000_0000_0000_0000_0000_0000_0000_0000_0000_0000_0000
  const TWO108: int := 0x1000_0000_0000_0000_0000_0000_0000

  /** The number five limbs stand for. */
  ghost function V5(a: int, b: int, c: int, d: int, e: int): int {
    a + Q51 * b + Q102 * c + Q153 * d + Q204 * e
  }

  /** Limbs below the bound every operation accepts. */
  predicate Fits(a: int, b: int, c: int, d: int, e: int) {
    0 <= a < TWO54 && 0 <= b < TWO54 && 0 <= c < TWO54 && 0 <= d < TWO54 && 0 <= e < TWO54
  }

  // The product modulo the prime.

  lemma Row5(x: int, s0: int, s1: int, s2: int, s3: int, s4: int)
    ensures x * V5(s0, s1, s2, s3, s4) == V5(x * s0, x * s1, x * s2, x * s3, x * s4)
  {
    Scale2(x, s0 + Q51 * s1 + Q102 * s2, Q153 * s3 + Q204 * s4);
    Scale2(x, s0 + Q51 * s1, Q102 * s2);
    Scale2(x, s0, Q51 * s1);
    Scale2(x, Q153 * s3, Q204 * s4);
    Slide(x, Q51, s1);
    Slide(x, Q102, s2);
    Slide(x, Q153, s3);
    Slide(x, Q204, s4);
  }

  lemma Scale2(x: int, y: int, z: int)
    ensures x * (y + z) == x * y + x * z
  {
  }

  lemma Slide(x: int, q: int, y: int)
    ensures x * (q * y) == q * (x * y)
  {
  }

  lemma Combine(r0: int, r1: int, r2: int, r3: int, r4: int, x: int)
    ensures V5(r0, r1, r2, r3, r4) * x == V5(r0 * x, r1 * x, r2 * x, r3 * x, r4 * x)
  {
    Row5(x, r0, r1, r2, r3, r4);
  }

  /** Column `k` of a product: what lands on limb `k`, with what passes 2^255 folded back nineteen-fold. */
  ghost function Col0(r: seq<int>, s: seq<int>): int
    requires |r| == |s| == 5
  {
    r[0] * s[0] + 19 * (r[4] * s[1] + r[1] * s[4] + r[2] * s[3] + r[3] * s[2])
  }

  ghost function Col1(r: seq<int>, s: seq<int>): int
    requires |r| == |s| == 5
  {
    r[0] * s[1] + r[1] * s[0] + 19 * (r[4] * s[2] + r[2] * s[4] + r[3] * s[3])
  }

  ghost function Col2(r: seq<int>, s: seq<int>): int
    requires |r| == |s| == 5
  {
    r[0] * s[2] + r[2] * s[0] + r[1] * s[1] + 19 * (r[4] * s[3] + r[3] * s[4])
  }

  ghost function Col3(r: seq<int>, s: seq<int>): int
    requires |r| == |s| == 5
  {
    r[0] * s[3] + r[3] * s[0] + r[1] * s[2] + r[2] * s[1] + 19 * (r[4] * s[4])
  }

  ghost function Col4(r: seq<int>, s: seq<int>): int
    requires |r| == |s| == 5
  {
    r[0] * s[4] + r[4] * s[0] + r[3] * s[1] + r[1] * s[3] + r[2] * s[2]
  }

  ghost function Value5(r: seq<int>): int
    requires |r| == 5
  {
    V5(r[0], r[1], r[2], r[3], r[4])
  }

  /** The columns add up to the product modulo the prime. */
  lemma ColumnsValue(r: seq<int>, s: seq<int>)
    requires |r| == |s| == 5
    ensures Cong(V5(Col0(r, s), Col1(r, s), Col2(r, s), Col3(r, s), Col4(r, s)), Value5(r) * Value5(s))
  {
    hide V5, Cong;
    var x := Value5(s);
    Combine(r[0], r[1], r[2], r[3], r[4], x);
    Row5(r[0], s[0], s[1], s[2], s[3], s[4]);
    Row5(r[1], s[0], s[1], s[2], s[3], s[4]);
    Row5(r[2], s[0], s[1], s[2], s[3], s[4]);
    Row5(r[3], s[0], s[1], s[2], s[3], s[4]);
    Row5(r[4], s[0], s[1], s[2], s[3], s[4]);
    var e := V5(r[1] * s[4] + r[2] * s[3] + r[3] * s[2] + r[4] * s[1], r[2] * s[4] + r[3] * s[3] + r[4] * s[2],
                r[3] * s[4] + r[4] * s[3], r[4] * s[4], 0);
    Regroup(r[0] * s[0], r[0] * s[1], r[0] * s[2], r[0] * s[3], r[0] * s[4],
            r[1] * s[0], r[1] * s[1], r[1] * s[2], r[1] * s[3], r[1] * s[4],
            r[2] * s[0], r[2] * s[1], r[2] * s[2], r[2] * s[3], r[2] * s[4],
            r[3] * s[0], r[3] * s[1], r[3] * s[2], r[3] * s[3], r[3] * s[4],
            r[4] * s[0], r[4] * s[1], r[4] * s[2], r[4] * s[3], r[4] * s[4]);
    CongBy(V5(Col0(r, s), Col1(r, s), Col2(r, s), Col3(r, s), Col4(r, s)), Value5(r) * x, -e);
  }

  /** Rows into columns: linear in the twenty-five products. */
  lemma Regroup(a0: int, a1: int, a2: int, a3: int, a4: int, b0: int, b1: int, b2: int, b3: int, b4: int,
                c0: int, c1: int, c2: int, c3: int, c4: int, d0: int, d1: int, d2: int, d3: int, d4: int,
                e0: int, e1: int, e2: int, e3: int, e4: int)
    ensures V5(a0 + 19 * (e1 + b4 + c3 + d2), a1 + b0 + 19 * (e2 + c4 + d3), a2 + c0 + b1 + 19 * (e3 + d4),
               a3 + d0 + b2 + c1 + 19 * e4, a4 + e0 + d1 + b3 + c2)
         == V5(V5(a0, a1, a2, a3, a4), V5(b0, b1, b2, b3, b4), V5(c0, c1, c2, c3, c4), V5(d0, d1, d2, d3, d4),
               V5(e0, e1, e2, e3, e4)) + P * -V5(b4 + c3 + d2 + e1, c4 + d3 + e2, d4 + e3, e4, 0)
  {
  }

  lemma Product(x: int, y: int)
    requires 0 <= x < TWO54 && 0 <= y < TWO54
    ensures 0 <= x * y < TWO108 && (x * 19) * y == 19 * (x * y) && (x * 2) * y == 2 * (x * y) && x * y == y * x
    ensures (x * 2 * 19) * y == 38 * (x * y) && (x * 19 * 2) * y == 38 * (x * y) && x * (y * 19) == 19 * (x * y)
  {
    MulBounds(x, y, TWO54 - 1, TWO54 - 1);
  }

  /** What the columns of a product of accepted limbs can reach. */
  predicate Columns(t0: int, t1: int, t2: int, t3: int, t4: int) {
    && 0 <= t0 <= 77 * TWO108 && 0 <= t1 <= 59 * TWO108 && 0 <= t2 <= 41 * TWO108
    && 0 <= t3 <= 23 * TWO108 && 0 <= t4 <= 5 * TWO108
  }

  /** The five columns, in 128-bit words. */
  method MulColumns(r0: uint64, r1: uint64, r2: uint64, r3: uint64, r4: uint64,
                    s0: uint64, s1: uint64, s2: uint64, s3: uint64, s4: uint64)
    returns (t0: uint128, t1: uint128, t2: uint128, t3: uint128, t4: uint128)
    requires Fits(r0, r1, r2, r3, r4) && Fits(s0, s1, s2, s3, s4)
    ensures Columns(t0, t1, t2, t3, t4)
    ensures var r, s := [r0, r1, r2, r3, r4], [s0, s1, s2, s3, s4];
            t0 == Col0(r, s) && t1 == Col1(r, s) && t2 == Col2(r, s) && t3 == Col3(r, s) && t4 == Col4(r, s)
  {
    AllProducts(r0, r1, r2, r3, r4, s0, s1, s2, s3, s4);
    var a0: int, a1: int, a2: int, a3: int, a4: int := r0, r1, r2, r3, r4;
    var b0: int, b1: int, b2: int, b3: int, b4: int := s0, s1, s2, s3, s4;
    t0 := a0 * b0;
    t1 := a0 * b1 + a1 * b0;
    t2 := a0 * b2 + a2 * b0 + a1 * b1;
    t3 := a0 * b3 + a3 * b0 + a1 * b2 + a2 * b1;
    t4 := a0 * b4 + a4 * b0 + a3 * b1 + a1 * b3 + a2 * b2;
    var n1: uint64, n2: uint64, n3: uint64, n4: uint64 := a1 * 19, a2 * 19, a3 * 19, a4 * 19;
    var m1: int, m2: int, m3: int, m4: int := n1, n2, n3, n4;
    var u0: int, u1: int, u2: int, u3: int := t0, t1, t2, t3;
    t0 := u0 + (m4 * b1 + m1 * b4 + m2 * b3 + m3 * b2);
    t1 := u1 + (m4 * b2 + m2 * b4 + m3 * b3);
    t2 := u2 + (m4 * b3 + m3 * b4);
    t3 := u3 + m4 * b4;
  }

  lemma AllProducts(r0: int, r1: int, r2: int, r3: int, r4: int, s0: int, s1: int, s2: int, s3: int, s4: int)
    requires Fits(r0, r1, r2, r3, r4) && Fits(s0, s1, s2, s3, s4)
    ensures forall x, y :: x in {r0, r1, r2, r3, r4} && y in {s0, s1, s2, s3, s4} ==>
      0 <= x * y < TWO108 && (x * 19) * y == 19 * (x * y)
  {
    forall x, y | x in {r0, r1, r2, r3, r4} && y in {s0, s1, s2, s3, s4}
      ensures 0 <= x * y < TWO108 && (x * 19) * y == 19 * (x * y)
    {
      Product(x, y);
    }
  }

  /** Five columns carried into limbs one after the other, the last carry coming back nineteen-fold. */
  method CarryChain(t0: uint128, t1: uint128, t2: uint128, t3: uint128, t4: uint128)
    returns (r0: uint64, r1: uint64, r2: uint64, r3: uint64, r4: uint64)
    requires Columns(t0, t1, t2, t3, t4)
    ensures Fits(r0, r1, r2, r3, r4) && Cong(V5(r0, r1, r2, r3, r4), V5(t0, t1, t2, t3, t4))
  {
    hide V5, Cong;
    var c0, c1, c2, c3, c4: uint64;
    r0, c0 := Cut(t0);
    r1, c1 := Cut(t1 + c0);
    r2, c2 := Cut(t2 + c1);
    r3, c3 := Cut(t3 + c2);
    r4, c4 := Cut(t4 + c3);
    ghost var x0, x1 := r0, r1;
    var c: uint64;
    r0, c := Cut(r0 + c4 * 19);
    r1 := r1 + c;
    Carried(t0, t1, t2, t3, t4, c0, c1, c2, c3, c4, x0, x1, r2, r3, r4, c, r0);
  }

  /** The low 51 bits and the rest, which must fit a word. */
  method Cut(t: int) returns (r: uint64, c: uint64)
    requires 0 <= t <= 78 * TWO108
    ensures t == r + Q51 * c && r < Q51
  {
    r, c := t % Q51, t / Q51;
  }

  lemma Carried(t0: int, t1: int, t2: int, t3: int, t4: int, c0: int, c1: int, c2: int, c3: int, c4: int,
                x0: int, x1: int, r2: int, r3: int, r4: int, c: int, r0: int)
    requires t0 == x0 + Q51 * c0 && t1 + c0 == x1 + Q51 * c1 && t2 + c1 == r2 + Q51 * c2 && t3 + c2 == r3 + Q51 * c3
    requires t4 + c3 == r4 + Q51 * c4 && x0 + 19 * c4 == r0 + Q51 * c
    ensures Cong(V5(r0, x1 + c, r2, r3, r4), V5(t0, t1, t2, t3, t4))
  {
    CongBy(V5(r0, x1 + c, r2, r3, r4), V5(t0, t1, t2, t3, t4), -c4);
  }

  /** `out = in2 * in`; the output may be an operand. */
  method Mul(out: array<uint64>, in2: array<uint64>, input: array<uint64>)
    requires out.Length == 5 && in2.Length == 5 && input.Length == 5 && Limbed(in2) && Limbed(input)
    modifies out
    ensures Limbed(out) && Cong(ValueOf(out), old(ValueOf(in2) * ValueOf(input)))
  {
    hide V5, Cong, Fits, Columns, Col0, Col1, Col2, Col3, Col4;
    ghost var r, s := input[..], in2[..];
    ghost var product := Value5(r) * Value5(s);
    var t0, t1, t2, t3, t4 := MulColumns(
      input[0], input[1], input[2], input[3], input[4], in2[0], in2[1], in2[2], in2[3], in2[4]);
    assert r == [r[0], r[1], r[2], r[3], r[4]] && s == [s[0], s[1], s[2], s[3], s[4]];
    ColumnsValue(r, s);
    var r0, r1, r2, r3, r4 := CarryChain(t0, t1, t2, t3, t4);
    CongTrans(V5(r0, r1, r2, r3, r4), V5(t0, t1, t2, t3, t4), product);
    Swapped(Value5(r), Value5(s));
    out[0], out[1], out[2], out[3], out[4] := r0, r1, r2, r3, r4;
  }

  lemma Swapped(x: int, y: int)
    ensures x * y == y * x
  {
  }

  ghost predicate Limbed(a: array<uint64>)
    requires a.Length == 5
    reads a
  {
    Fits(a[0], a[1], a[2], a[3], a[4])
  }

  ghost function ValueOf(a: array<uint64>): int
    requires a.Length == 5
    reads a
  {
    V5(a[0], a[1], a[2], a[3], a[4])
  }

  /** The columns of a square, with the symmetric terms doubled. */
  method SquareColumns(r0: uint64, r1: uint64, r2: uint64, r3: uint64, r4: uint64)
    returns (t0: uint128, t1: uint128, t2: uint128, t3: uint128, t4: uint128)
    requires Fits(r0, r1, r2, r3, r4)
    ensures Columns(t0, t1, t2, t3, t4)
    ensures var r := [r0, r1, r2, r3, r4];
            t0 == Col0(r, r) && t1 == Col1(r, r) && t2 == Col2(r, r) && t3 == Col3(r, r) && t4 == Col4(r, r)
  {
    hide Col0, Col1, Col2, Col3, Col4;
    var a0: int, a1: int, a2: int, a3: int, a4: int := r0, r1, r2, r3, r4;
    var d0: uint64, d1: uint64, d2: uint64, d419: uint64 := a0 * 2, a1 * 2, a2 * 2 * 19, a4 * 19;
    var e0: int, e1: int, e2: int, e419: int := d0, d1, d2, d419;
    var d4: uint64 := e419 * 2;
    var e4: int := d4;
    SquareLow(a0, a1, a2, a3, a4, e0, e2, e4);
    SquareHigh(a0, a1, a2, a3, a4, e0, e1, e4, e419);
    t0 := a0 * a0 + e4 * a1 + e2 * a3;
    t1 := e0 * a1 + e4 * a2 + a3 * (a3 * 19);
    t2 := e0 * a2 + a1 * a1 + e4 * a3;
    t3 := e0 * a3 + e1 * a2 + a4 * e419;
    t4 := e0 * a4 + e1 * a3 + a2 * a2;
  }

  lemma Multiple(x: int, y: int, k: int, d: int)
    requires d == k * x
    ensures d * y == k * (x * y)
  {
  }

  lemma SquareLow(a0: int, a1: int, a2: int, a3: int, a4: int, d0: int, d2: int, d4: int)
    requires Fits(a0, a1, a2, a3, a4) && d0 == 2 * a0 && d2 == 38 * a2 && d4 == 38 * a4
    ensures var r := [a0, a1, a2, a3, a4];
            && a0 * a0 + d4 * a1 + d2 * a3 == Col0(r, r) && 0 <= Col0(r, r) <= 77 * TWO108
            && d0 * a1 + d4 * a2 + a3 * (a3 * 19) == Col1(r, r) && 0 <= Col1(r, r) <= 59 * TWO108
  {
    Product(a0, a0);
    Product(a4, a1);
    Product(a2, a3);
    Product(a0, a1);
    Product(a4, a2);
    Product(a3, a3);
    Multiple(a4, a1, 38, d4);
    Multiple(a2, a3, 38, d2);
    Multiple(a0, a1, 2, d0);
    Multiple(a4, a2, 38, d4);
  }

  lemma SquareHigh(a0: int, a1: int, a2: int, a3: int, a4: int, d0: int, d1: int, d4: int, d419: int)
    requires Fits(a0, a1, a2, a3, a4) && d0 == 2 * a0 && d1 == 2 * a1 && d4 == 38 * a4 && d419 == 19 * a4
    ensures var r := [a0, a1, a2, a3, a4];
            && d0 * a2 + a1 * a1 + d4 * a3 == Col2(r, r) && 0 <= Col2(r, r) <= 41 * TWO108
            && d0 * a3 + d1 * a2 + a4 * d419 == Col3(r, r) && 0 <= Col3(r, r) <= 23 * TWO108
            && d0 * a4 + d1 * a3 + a2 * a2 == Col4(r, r) && 0 <= Col4(r, r) <= 5 * TWO108
  {
    Product(a0, a2);
    Product(a1, a1);
    Product(a4, a3);
    Product(a0, a3);
    Product(a1, a2);
    Product(a4, a4);
    Product(a0, a4);
    Product(a1, a3);
    Product(a2, a2);
    Multiple(a0, a2, 2, d0);
    Multiple(a4, a3, 38, d4);
    Multiple(a0, a3, 2, d0);
    Multiple(a1, a2, 2, d1);
    Multiple(a4, a4, 19, d419);
    Multiple(a0, a4, 2, d0);
    Multiple(a1, a3, 2, d1);
  }

  /** `(t << 13) >> 64` in 128 bits: the part above bit 51. */
  function HighPart(t: uint128): (c: uint64)
    requires t <= 77 * TWO108
    ensures c == t / Q51
  {
    HighPartIs(t);
    t * 0x2000 % TWO128 / TWO64
  }

  lemma HighPartIs(t: int)
    requires 0 <= t <= 77 * TWO108
    ensures 0 <= t * 0x2000 < TWO128 && t * 0x2000 / TWO64 == t / Q51 < TWO64
  {
    DivModUnique(t * 0x2000, TWO64, t / Q51, (t % Q51) * 0x2000);
    DivModUnique(t * 0x2000, TWO128, 0, t * 0x2000);
  }

  /** Five columns carried into limbs in parallel, then one carry pass. */
  method CarryParallel(t0: uint128, t1: uint128, t2: uint128, t3: uint128, t4: uint128)
    returns (r0: uint64, r1: uint64, r2: uint64, r3: uint64, r4: uint64)
    requires Columns(t0, t1, t2, t3, t4)
    ensures Fits(r0, r1, r2, r3, r4) && Cong(V5(r0, r1, r2, r3, r4), V5(t0, t1, t2, t3, t4))
  {
    hide V5, Cong, HighPart;
    var u0: int, u1: int, u2: int, u3: int, u4: int := t0, t1, t2, t3, t4;
    var h0: int, h1: int, h2: int, h3: int, h4: int := HighPart(t0), HighPart(t1), HighPart(t2), HighPart(t3),
      HighPart(t4);
    var s0: uint64 := u0 % Q51 + h4 * 19;
    var s1: uint64 := u1 % Q51 + h0;
    var s2: uint64 := u2 % Q51 + h1;
    var s3: uint64 := u3 % Q51 + h2;
    var s4: uint64 := u4 % Q51 + h3;
    ParallelValue(t0, t1, t2, t3, t4, h0, h1, h2, h3, h4, s0, s1, s2, s3, s4);
    r0, r1, r2, r3, r4 := CarryOnce(s0, s1, s2, s3, s4);
    CongTrans(V5(r0, r1, r2, r3, r4), V5(s0, s1, s2, s3, s4), V5(t0, t1, t2, t3, t4));
  }

  lemma ParallelValue(t0: int, t1: int, t2: int, t3: int, t4: int, h0: int, h1: int, h2: int, h3: int, h4: int,
                      s0: int, s1: int, s2: int, s3: int, s4: int)
    requires h0 == t0 / Q51 && h1 == t1 / Q51 && h2 == t2 / Q51 && h3 == t3 / Q51 && h4 == t4 / Q51
    requires s0 == t0 % Q51 + 19 * h4 && s1 == t1 % Q51 + h0 && s2 == t2 % Q51 + h1 && s3 == t3 % Q51 + h2
    requires s4 == t4 % Q51 + h3
    ensures Cong(V5(s0, s1, s2, s3, s4), V5(t0, t1, t2, t3, t4))
  {
    hide Cong;
    Carried(t0, t1, t2, t3, t4, h0, h1, h2, h3, h4,
            t0 % Q51, t1 % Q51 + h0, t2 % Q51 + h1, t3 % Q51 + h2, t4 % Q51 + h3, 0, s0);
  }

  /** One carry pass over 64-bit limbs. */
  method CarryOnce(s0: uint64, s1: uint64, s2: uint64, s3: uint64, s4: uint64)
    returns (r0: uint64, r1: uint64, r2: uint64, r3: uint64, r4: uint64)
    requires s0 < TWO63 + TWO63 - Q51 && s1 < TWO64 - Q51 && s2 < TWO64 - Q51 && s3 < TWO64 - Q51 && s4 < TWO64 - Q51
    ensures Fits(r0, r1, r2, r3, r4) && Cong(V5(r0, r1, r2, r3, r4), V5(s0, s1, s2, s3, s4))
  {
    hide V5, Cong;
    var c := s0 / Q51;
    r0 := s0 % Q51;
    ghost var c0 := c;
    var w1: uint64 := s1 + c;
    c := w1 / Q51;
    r1 := w1 % Q51;
    ghost var c1 := c;
    var w2: uint64 := s2 + c;
    c := w2 / Q51;
    r2 := w2 % Q51;
    ghost var c2 := c;
    var w3: uint64 := s3 + c;
    c := w3 / Q51;
    r3 := w3 % Q51;
    ghost var c3 := c;
    var w4: uint64 := s4 + c;
    c := w4 / Q51;
    r4 := w4 % Q51;
    ghost var x0 := r0;
    r0 := r0 + c * 19;
    Carried(s0, s1, s2, s3, s4, c0, c1, c2, c3, c, x0, r1, r2, r3, r4, 0, r0);
  }
}
