/** The field modulo 2^255 - 19 as numbers, and the ladder of section 5 of RFC 7748 on them. */
module Fe {
  import opened Arith
  import opened Field25519
  import Bytes

  function Add(a: int, b: int): int {
    (a + b) % P
  }

  function Sub(a: int, b: int): int {
    (a - b) % P
  }

  function Mul(a: int, b: int): int {
    (a * b) % P
  }

  function Square(a: int): int {
    Mul(a, a)
  }

  // Reducing operands first changes nothing.

  lemma ReduceOnce(x: int, k: int, y: int)
    requires x == y + P * k
    ensures x % P == y % P
  {
    DivModUnique(x, P, y / P + k, y % P);
  }

  lemma AddOfResidues(a: int, b: int)
    ensures (a + b) % P == Add(a % P, b % P) && (a - b) % P == Sub(a % P, b % P)
  {
    ReduceOnce(a + b, a / P + b / P, a % P + b % P);
    ReduceOnce(a - b, a / P - b / P, a % P - b % P);
  }

  lemma MulOfResidues(a: int, b: int)
    ensures (a * b) % P == Mul(a % P, b % P)
  {
    var q, r, u, v := a / P, a % P, b / P, b % P;
    assert a * b == r * v + P * (q * b + r * u) by {
      assert a == P * q + r && b == P * u + v;
      assert (P * q + r) * b == P * (q * b) + r * b;
      assert r * (P * u + v) == P * (r * u) + r * v;
    }
    ReduceOnce(a * b, q * b + r * u, r * v);
  }

  /** A difference and its opposite have the same square. */
  lemma SquareOfOpposite(a: int, b: int)
    ensures Square(Sub(a, b)) == Square(Sub(b, a))
  {
    MulOfResidues(a - b, a - b);
    MulOfResidues(b - a, b - a);
    assert (a - b) * (a - b) == (b - a) * (b - a);
  }

  lemma Commutes(a: int, b: int)
    ensures Add(a, b) == Add(b, a) && Mul(a, b) == Mul(b, a)
  {
  }

  /** The two projective points of the ladder. */
  datatype Ladder = Ladder(x2: int, z2: int, x3: int, z3: int)

  const A24: int := 121665

  /** One ladder step: a doubling and a differential addition. */
  function Step(x1: int, s: Ladder): Ladder {
    var a := Add(s.x2, s.z2);
    var aa := Square(a);
    var b := Sub(s.x2, s.z2);
    var bb := Square(b);
    var e := Sub(aa, bb);
    var c := Add(s.x3, s.z3);
    var d := Sub(s.x3, s.z3);
    var da := Mul(d, a);
    var cb := Mul(c, b);
    Ladder(Mul(aa, bb), Mul(e, Add(aa, Mul(A24, e))), Square(Add(da, cb)), Mul(x1, Square(Sub(da, cb))))
  }

  function Swap(swap: bool, s: Ladder): Ladder {
    if swap then Ladder(s.x3, s.z3, s.x2, s.z2) else s
  }

  /** Bit `t` of a little-endian scalar. */
  function Bit(k: seq<int>, t: nat): bool
    requires t < 8 * |k|
  {
    k[t / 8] / Bytes.Pow2(t % 8) % 2 == 1
  }

  /** The ladder as the RFC writes it: bits `t - 1` down to 0, with the swap of one step merged into the next. */
  function RfcLadder(k: seq<int>, x1: int, t: nat, s: Ladder, swap: bool): Ladder
    requires t <= 8 * |k|
    decreases t
  {
    if t == 0 then Swap(swap, s)
    else RfcLadder(k, x1, t - 1, Step(x1, Swap(swap != Bit(k, t - 1), s)), Bit(k, t - 1))
  }

  /** A step under a swap that is undone at once. */
  function EagerStep(x1: int, s: Ladder, swap: bool): Ladder {
    Swap(swap, Step(x1, Swap(swap, s)))
  }

  /** The ladder as the code runs it, over bits `t - 1` down to 0. */
  function EagerLadder(k: seq<int>, x1: int, t: nat, s: Ladder): Ladder
    requires t <= 8 * |k|
    decreases t
  {
    if t == 0 then s else EagerLadder(k, x1, t - 1, EagerStep(x1, s, Bit(k, t - 1)))
  }

  /** Undoing each swap at once or merging it into the next gives the same points. */
  lemma {:induction false} EagerIsRfc(k: seq<int>, x1: int, t: nat, s: Ladder, swap: bool)
    requires t <= 8 * |k|
    ensures EagerLadder(k, x1, t, Swap(swap, s)) == RfcLadder(k, x1, t, s, swap)
    decreases t
  {
    hide Step, Bit;
    if t > 0 {
      var b := Bit(k, t - 1);
      assert Swap(b, Swap(swap, s)) == Swap(swap != b, s);
      EagerIsRfc(k, x1, t - 1, Step(x1, Swap(swap != b, s)), b);
    }
  }

  // Projective points: a common factor on both coordinates.

  /** `x` is `l` times `y` in the field. */
  ghost predicate Times(l: int, x: int, y: int) {
    (x - l * y) % P == 0
  }

  /** Both points of `s` are those of `t` with their coordinates scaled, by `l` and by `m`. */
  ghost predicate Scaled(s: Ladder, t: Ladder, l: int, m: int) {
    Times(l, s.x2, t.x2) && Times(l, s.z2, t.z2) && Times(m, s.x3, t.x3) && Times(m, s.z3, t.z3)
  }

  lemma TimesBy(l: int, x: int, y: int, k: int)
    requires x == l * y + P * k
    ensures Times(l, x, y)
  {
    DivModUnique(x - l * y, P, k, 0);
  }

  lemma TimesReduced(l: int, x: int, y: int)
    requires Times(l, x, y)
    ensures Times(l, x % P, y % P)
  {
    var k := (x - l * y) / P;
    assert l * y == l * (P * (y / P)) + l * (y % P) by {
      assert y == P * (y / P) + y % P;
    }
    assert l * (P * (y / P)) == P * (l * (y / P));
    TimesBy(l, x % P, y % P, k + l * (y / P) - x / P);
  }

  lemma TimesSum(l: int, x: int, y: int, u: int, v: int)
    requires Times(l, x, u) && Times(l, y, v)
    ensures Times(l, Add(x, y), Add(u, v)) && Times(l, Sub(x, y), Sub(u, v))
  {
    var j, k := (x - l * u) / P, (y - l * v) / P;
    assert l * (u + v) == l * u + l * v && l * (u - v) == l * u - l * v;
    TimesBy(l, x + y, u + v, j + k);
    TimesBy(l, x - y, u - v, j - k);
    TimesReduced(l, x + y, u + v);
    TimesReduced(l, x - y, u - v);
  }

  lemma TimesProduct(l: int, m: int, x: int, y: int, u: int, v: int)
    requires Times(l, x, u) && Times(m, y, v)
    ensures Times(l * m, Mul(x, y), Mul(u, v))
  {
    var j, k := (x - l * u) / P, (y - m * v) / P;
    Products(l * u, j, m * v, k, x, y);
    assert (l * u) * (m * v) == (l * m) * (u * v);
    TimesBy(l * m, x * y, u * v, l * u * k + j * y);
    TimesReduced(l * m, x * y, u * v);
  }

  lemma Products(a: int, j: int, b: int, k: int, x: int, y: int)
    requires x == a + P * j && y == b + P * k
    ensures x * y == a * b + P * (a * k + j * y)
  {
    assert x * y == a * y + P * (j * y);
    assert a * y == a * b + a * (P * k);
    assert a * (P * k) == P * (a * k);
  }

  lemma TimesConstant(c: int, l: int, x: int, u: int)
    requires Times(l, x, u)
    ensures Times(l, Mul(c, x), Mul(c, u))
  {
    TimesBy(1, c, c, 0);
    TimesProduct(1, l, c, x, c, u);
  }

  /** A step keeps the points up to common factors. */
  lemma StepScaled(x1: int, s: Ladder, t: Ladder, l: int, m: int)
    requires Scaled(s, t, l, m)
    ensures Scaled(Step(x1, s), Step(x1, t), (l * l) * (l * l), (m * l) * (m * l))
  {
    hide Times, Add, Sub, Mul;
    var a, u := Add(s.x2, s.z2), Add(t.x2, t.z2);
    var b, v := Sub(s.x2, s.z2), Sub(t.x2, t.z2);
    TimesSum(l, s.x2, s.z2, t.x2, t.z2);
    TimesSum(m, s.x3, s.z3, t.x3, t.z3);
    TimesProduct(l, l, a, a, u, u);
    TimesProduct(l, l, b, b, v, v);
    Doubled(Square(a), Square(b), Square(u), Square(v), l * l);
    var d, f := Sub(s.x3, s.z3), Sub(t.x3, t.z3);
    var c, g := Add(s.x3, s.z3), Add(t.x3, t.z3);
    TimesProduct(m, l, d, a, f, u);
    TimesProduct(m, l, c, b, g, v);
    Added(x1, Mul(d, a), Mul(c, b), Mul(f, u), Mul(g, v), m * l);
  }

  lemma Doubled(aa: int, bb: int, uu: int, vv: int, l: int)
    requires Times(l, aa, uu) && Times(l, bb, vv)
    ensures Times(l * l, Mul(aa, bb), Mul(uu, vv))
    ensures var e, f := Sub(aa, bb), Sub(uu, vv);
            Times(l * l, Mul(e, Add(aa, Mul(A24, e))), Mul(f, Add(uu, Mul(A24, f))))
  {
    hide Times, Add, Sub, Mul;
    TimesProduct(l, l, aa, bb, uu, vv);
    TimesSum(l, aa, bb, uu, vv);
    var e, f := Sub(aa, bb), Sub(uu, vv);
    TimesConstant(A24, l, e, f);
    TimesSum(l, aa, Mul(A24, e), uu, Mul(A24, f));
    TimesProduct(l, l, e, Add(aa, Mul(A24, e)), f, Add(uu, Mul(A24, f)));
  }

  lemma Added(x1: int, da: int, cb: int, fu: int, gv: int, m: int)
    requires Times(m, da, fu) && Times(m, cb, gv)
    ensures Times(m * m, Square(Add(da, cb)), Square(Add(fu, gv)))
    ensures Times(m * m, Mul(x1, Square(Sub(da, cb))), Mul(x1, Square(Sub(fu, gv))))
  {
    hide Times, Add, Sub, Mul;
    TimesSum(m, da, cb, fu, gv);
    TimesProduct(m, m, Add(da, cb), Add(da, cb), Add(fu, gv), Add(fu, gv));
    TimesProduct(m, m, Sub(da, cb), Sub(da, cb), Sub(fu, gv), Sub(fu, gv));
    TimesConstant(x1, m * m, Square(Sub(da, cb)), Square(Sub(fu, gv)));
  }

  /** The integer power. */
  function Exp(g: int, n: nat): int {
    if n == 0 then 1 else g * Exp(g, n - 1)
  }

  lemma {:induction false} ExpAdds(g: int, m: nat, n: nat)
    ensures Exp(g, m) * Exp(g, n) == Exp(g, m + n)
    decreases m
  {
    if m > 0 {
      ExpAdds(g, m - 1, n);
      Associates(g, Exp(g, m - 1), Exp(g, n));
    }
  }

  /** Ladders that start from points scaled by powers of `g` end in points scaled by powers of `g`. */
  lemma {:induction false} LadderScaled(k: seq<int>, x1: int, t: nat, s: Ladder, r: Ladder, g: int, i: nat, j: nat)
    returns (p: nat, q: nat)
    requires t <= 8 * |k| && Scaled(s, r, Exp(g, i), Exp(g, j))
    ensures Scaled(EagerLadder(k, x1, t, s), EagerLadder(k, x1, t, r), Exp(g, p), Exp(g, q))
    decreases t
  {
    hide Times, Step, Bit, Exp;
    p, q := i, j;
    if t > 0 {
      var b := Bit(k, t - 1);
      if b {
        p, q := j, i;
      }
      StepScaled(x1, Swap(b, s), Swap(b, r), Exp(g, p), Exp(g, q));
      ExpAdds(g, p, p);
      ExpAdds(g, p + p, p + p);
      ExpAdds(g, q, p);
      ExpAdds(g, q + p, q + p);
      p, q := 4 * p, 2 * (q + p);
      if b {
        p, q := q, p;
      }
      p, q := LadderScaled(k, x1, t - 1, EagerStep(x1, s, b), EagerStep(x1, r, b), g, p, q);
    }
  }

  lemma TimesMoved(l: int, x: int, u: int, v: int)
    requires Times(l, x, Mul(u, v))
    ensures Times(l * u, x, v)
  {
    var j, k := (x - l * Mul(u, v)) / P, u * v / P;
    assert l * (u * v) == l * Mul(u, v) + l * (P * k);
    assert l * (P * k) == P * (l * k);
    assert l * u * v == l * (u * v);
    TimesBy(l * u, x, v, j - l * k);
  }

  /** The sum and the difference that the second point of the first step is made of. */
  lemma FirstSums(x1: int)
    ensures var da, cb := Mul(Sub(x1, 1), 1), Mul(Add(x1, 1), 1);
            Times(2, Add(da, cb), x1) && Times(-2, Sub(da, cb), 1)
  {
    var d, c := (x1 - 1) % P, (x1 + 1) % P;
    var j, k := (x1 - 1) / P, (x1 + 1) / P;
    DivModUnique(d, P, 0, d);
    DivModUnique(c, P, 0, c);
    TimesBy(2, Add(d, c), x1, -j - k - (d + c) / P);
    TimesBy(-2, Sub(d, c), 1, -j + k - (d - c) / P);
  }

  /** A leading zero bit leaves the first point alone and scales the second by four times the base coordinate. */
  lemma LeadingZero(x1: int)
    ensures Scaled(EagerStep(x1, Ladder(1, 0, x1, 1), false), Ladder(1, 0, x1, 1), 1, 4 * x1)
  {
    hide Times, Mul, Add, Sub;
    var da, cb := Mul(Sub(x1, 1), 1), Mul(Add(x1, 1), 1);
    SmallOperations();
    FirstSums(x1);
    TimesProduct(2, 2, Add(da, cb), Add(da, cb), x1, x1);
    TimesMoved(4, Square(Add(da, cb)), x1, x1);
    var w := Square(Sub(da, cb));
    TimesProduct(-2, -2, Sub(da, cb), Sub(da, cb), 1, 1);
    TimesBy(x1, x1, 1, 0);
    TimesProduct(x1, 4, x1, w, 1, 1);
    TimesBy(1, 1, 1, 0);
    TimesBy(1, 0, 0, 0);
  }

  lemma SmallOperations()
    ensures Add(1, 0) == 1 && Sub(1, 0) == 1 && Sub(1, 1) == 0 && Mul(1, 1) == 1
    ensures forall x :: Mul(0, x) == 0
  {
  }

  /** Points that differ by a common factor are the same projective point. */
  lemma SamePoint(l: int, x: int, z: int, u: int, v: int)
    requires Times(l, x, u) && Times(l, z, v)
    ensures Mul(x, v) == Mul(u, z)
  {
    hide Times, Mul;
    TimesBy(1, u, u, 0);
    TimesBy(1, v, v, 0);
    TimesProduct(l, 1, x, v, u, v);
    TimesProduct(1, l, u, z, u, v);
    TimesEqual(l, Mul(x, v), Mul(u, z), Mul(u, v)) by { Reduced(x, v); Reduced(u, z); }
  }

  lemma Reduced(x: int, y: int)
    ensures 0 <= Mul(x, y) < P
  {
  }

  lemma TimesEqual(l: int, x: int, y: int, u: int)
    requires Times(l, x, u) && Times(l, y, u) && 0 <= x < P && 0 <= y < P
    ensures x == y
  {
    var j, k := (x - l * u) / P, (y - l * u) / P;
    assert x - y == P * (j - k);
    DivModUnique(x, P, j - k, y);
    DivModUnique(x, P, 0, x);
  }

  /** The 256 steps of the code and the 255 steps of RFC 7748 end in the same projective points for every scalar whose
      top bit is clear: the coordinates differ by powers of four times the base coordinate. */
  lemma TopBitClear(n: seq<int>, x1: int) returns (p: nat, q: nat)
    requires |n| == 32 && !Bit(n, 255)
    ensures var s := Ladder(1, 0, x1, 1);
            var a, b := RfcLadder(n, x1, 256, s, false), RfcLadder(n, x1, 255, s, false);
            && Scaled(a, b, Exp(4 * x1, p), Exp(4 * x1, q))
            && Mul(a.x2, b.z2) == Mul(b.x2, a.z2) && Mul(a.x3, b.z3) == Mul(b.x3, a.z3)
  {
    hide Times, Mul, Step, Bit, RfcLadder;
    var s := Ladder(1, 0, x1, 1);
    EagerIsRfc(n, x1, 256, s, false);
    EagerIsRfc(n, x1, 255, s, false);
    LeadingZero(x1);
    assert Exp(4 * x1, 0) == 1 && Exp(4 * x1, 1) == 4 * x1;
    hide Exp;
    p, q := LadderScaled(n, x1, 255, EagerStep(x1, s, false), s, 4 * x1, 0, 1);
    var a, b := RfcLadder(n, x1, 256, s, false), RfcLadder(n, x1, 255, s, false);
    SamePoint(Exp(4 * x1, p), a.x2, a.z2, b.x2, b.z2);
    SamePoint(Exp(4 * x1, q), a.x3, a.z3, b.x3, b.z3);
  }

  // The base coordinate zero.

  /** From two points at infinity a step with base coordinate zero leads to such points again. */
  lemma StepAtInfinity(s: Ladder)
    requires s.z2 == 0 && s.z3 == 0
    ensures Step(0, s).z2 == 0 && Step(0, s).z3 == 0
  {
    hide Mul;
    var a := Add(s.x2, 0);
    assert Sub(s.x2, 0) == a;
    Zeros(Add(Square(a), Mul(A24, 0)));
    Zeros(Square(Sub(Mul(Sub(s.x3, 0), a), Mul(Add(s.x3, 0), a))));
    assert Sub(Square(a), Square(a)) == 0;
  }

  lemma Zeros(x: int)
    ensures Mul(0, x) == 0
  {
  }

  lemma FirstAtInfinity(bit: bool)
    ensures var s := EagerStep(0, Ladder(1, 0, 0, 1), bit);
            s.z2 == 0 && s.z3 == 0
  {
    if bit {
      assert Square(P - 1) == 1 by { DivModUnique((P - 1) * (P - 1), P, P - 2, 1); }
    }
  }

  lemma {:induction false} LadderAtInfinity(k: seq<int>, t: nat, s: Ladder)
    requires t <= 8 * |k| && s.z2 == 0 && s.z3 == 0
    ensures EagerLadder(k, 0, t, s).z2 == 0
    decreases t
  {
    hide Step, Bit;
    if t > 0 {
      var b := Bit(k, t - 1);
      StepAtInfinity(Swap(b, s));
      LadderAtInfinity(k, t - 1, EagerStep(0, s, b));
    }
  }

  /** With base coordinate zero every ladder of at least one step ends at infinity. */
  lemma ZeroBase(k: seq<int>, t: nat)
    requires 0 < t <= 8 * |k|
    ensures RfcLadder(k, 0, t, Ladder(1, 0, 0, 1), false).z2 == 0
  {
    hide EagerStep, Bit;
    var s := Ladder(1, 0, 0, 1);
    EagerIsRfc(k, 0, t, s, false);
    FirstAtInfinity(Bit(k, t - 1));
    LadderAtInfinity(k, t - 1, EagerStep(0, s, Bit(k, t - 1)));
  }
}
