/** What a ladder step does on the curve v^2 = u^3 + 486662 u^2 + u, and what the whole ladder then computes. */
module Montgomery {
  import opened Arith
  import opened Words
  import opened Bytes
  import opened Field25519
  import opened Group
  import Fe

  /** The coefficient of the curve. */
  const A: int := 486662

  /** The prime of the field. */
  lemma PrimeIs()
    ensures P == Pow2(255) - 19
  {
    var n: nat := 255;
    Pow2Word(n + 1);
    assert Pow2(n + 1) == 2 * Pow2(n);
    hide Pow2;
  }

  // The step as polynomials in its coordinates.

  /** Operands may be reduced first. */
  lemma Reduces(a: int, b: int, u: int, v: int)
    requires a == u % P && b == v % P
    ensures Fe.Add(a, b) == (u + v) % P && Fe.Sub(a, b) == (u - v) % P && Fe.Mul(a, b) == (u * v) % P
  {
    Fe.AddOfResidues(u, v);
    Fe.MulOfResidues(u, v);
  }

  /** The double of `(x : z)`. */
  function DoubleX(x: int, z: int): int {
    (x * x - z * z) * (x * x - z * z)
  }

  function DoubleZ(x: int, z: int): int {
    4 * (x * z) * (x * x + A * (x * z) + z * z)
  }

  /** The sum of `(x : z)` and `(u : v)`, whose difference has the coordinate `x1`. */
  function SumX(x: int, z: int, u: int, v: int): int {
    4 * ((x * u - z * v) * (x * u - z * v))
  }

  function SumZ(x1: int, x: int, z: int, u: int, v: int): int {
    x1 * (4 * ((x * v - z * u) * (x * v - z * u)))
  }

  /** A step doubles the first point and adds the second to it. */
  lemma StepIs(x1: int, s: Fe.Ladder)
    ensures Fe.Step(x1, s) == Fe.Ladder(DoubleX(s.x2, s.z2) % P, DoubleZ(s.x2, s.z2) % P,
                                        SumX(s.x2, s.z2, s.x3, s.z3) % P, SumZ(x1, s.x2, s.z2, s.x3, s.z3) % P)
  {
    hide Fe.Step, DoubleX, DoubleZ, SumX, SumZ;
    StepDoubles(x1, s);
    StepAdds(x1, s);
  }

  lemma StepDoubles(x1: int, s: Fe.Ladder)
    ensures var t := Fe.Step(x1, s);
            t.x2 == DoubleX(s.x2, s.z2) % P && t.z2 == DoubleZ(s.x2, s.z2) % P
  {
    var x, z := s.x2, s.z2;
    var a, b := x + z, x - z;
    Sums(x, z);
    hide Fe.Add, Fe.Sub, Fe.Mul, DoubleX, DoubleZ;
    Reduces(a % P, a % P, a, a);
    Reduces(b % P, b % P, b, b);
    var aa, bb := a * a, b * b;
    Reduces(aa % P, bb % P, aa, bb);
    var e := aa - bb;
    Constant(e);
    Reduces(aa % P, (Fe.A24 * e) % P, aa, Fe.A24 * e);
    Reduces(e % P, (aa + Fe.A24 * e) % P, e, aa + Fe.A24 * e);
    DoublePolynomials(x, z);
  }

  lemma Sums(x: int, z: int)
    ensures Fe.Add(x, z) == (x + z) % P && Fe.Sub(x, z) == (x - z) % P
  {
  }

  /** A factor below the prime is its own residue. */
  lemma Constant(e: int)
    ensures Fe.Mul(Fe.A24, e % P) == (Fe.A24 * e) % P
  {
    Fe.MulOfResidues(Fe.A24, e);
    DivModUnique(Fe.A24, P, 0, Fe.A24);
  }

  lemma DoublePolynomials(x: int, z: int)
    ensures var a, b := x + z, x - z;
            var e := a * a - b * b;
            (a * a) * (b * b) == DoubleX(x, z) && e * (a * a + Fe.A24 * e) == DoubleZ(x, z)
  {
    var a, b, p, q, r := x + z, x - z, x * x, x * z, z * z;
    assert a * a == p + 2 * q + r;
    assert b * b == p - 2 * q + r;
    assert a * b == p - r;
    FourFactors(a, a, b, b);
    assert a * a - b * b == 4 * q;
    assert a * a + Fe.A24 * (4 * q) == p + A * q + r;
  }

  lemma StepAdds(x1: int, s: Fe.Ladder)
    ensures var t := Fe.Step(x1, s);
            && t.x3 == SumX(s.x2, s.z2, s.x3, s.z3) % P && t.z3 == SumZ(x1, s.x2, s.z2, s.x3, s.z3) % P
  {
    var x, z, u, v := s.x2, s.z2, s.x3, s.z3;
    Sums(x, z);
    Sums(u, v);
    hide Fe.Add, Fe.Sub, Fe.Mul, SumX, SumZ;
    var da, cb := (u - v) * (x + z), (u + v) * (x - z);
    Reduces((u - v) % P, (x + z) % P, u - v, x + z);
    Reduces((u + v) % P, (x - z) % P, u + v, x - z);
    Reduces(da % P, cb % P, da, cb);
    Reduces((da + cb) % P, (da + cb) % P, da + cb, da + cb);
    Reduces((da - cb) % P, (da - cb) % P, da - cb, da - cb);
    SumPolynomials(x1, x, z, u, v);
    Product(x1, (da - cb) * (da - cb));
  }

  lemma Product(x1: int, w: int)
    ensures Fe.Mul(x1, w % P) == (x1 * w) % P
  {
    Fe.MulOfResidues(x1, w);
    Fe.MulOfResidues(x1, w % P);
    DivModUnique(w % P, P, 0, w % P);
  }

  lemma SumPolynomials(x1: int, x: int, z: int, u: int, v: int)
    ensures var da, cb := (u - v) * (x + z), (u + v) * (x - z);
            (da + cb) * (da + cb) == SumX(x, z, u, v) && x1 * ((da - cb) * (da - cb)) == SumZ(x1, x, z, u, v)
  {
    var da, cb := (u - v) * (x + z), (u + v) * (x - z);
    var p, q := x * u - z * v, x * v - z * u;
    assert da == x * u + z * u - x * v - z * v;
    assert cb == x * u - z * u + x * v - z * v;
    assert da + cb == 2 * p && da - cb == -2 * q;
    assert (2 * p) * (2 * p) == 4 * (p * p);
    assert (-2 * q) * (-2 * q) == 4 * (q * q);
  }

  // Those polynomials on the curve.

  /** The right side of the curve equation. */
  function Curve(u: int): int {
    u * u * u + A * (u * u) + u
  }

  /** The tangent at `(u, v)` has the slope `(3 u^2 + 2 A u + 1) / (2 v)` and meets the curve again at the square of the
      slope less `A + 2 u`. Cleared of its denominator `4 v^2` that is the double in affine coordinates. */
  lemma TangentLaw(u: int, v2: int)
    requires v2 == Curve(u)
    ensures var n := 3 * (u * u) + 2 * A * u + 1;
            n * n - (A + 2 * u) * (4 * v2) == DoubleX(u, 1) && 4 * v2 == DoubleZ(u, 1)
  {
    var p, q := u * u, u * u * u;
    var n := 3 * p + 2 * A * u + 1;
    assert u * p == q && p * p == u * q;
    var w := u * q;
    assert n * n == 9 * w + 12 * A * q + 6 * p + 4 * A * A * p + 4 * A * u + 1 by {
      assert n * n == 9 * (p * p) + 12 * A * (u * p) + 6 * p + 4 * A * A * (u * u) + 4 * A * u + 1;
    }
    assert (A + 2 * u) * (4 * v2) == 4 * A * q + 4 * A * A * p + 4 * A * u + 8 * w + 8 * A * q + 8 * p by {
      assert u * v2 == w + A * q + p;
    }
    assert DoubleX(u, 1) == w - 2 * p + 1;
    assert DoubleZ(u, 1) == 4 * (q + A * p + u);
  }

  /** The chords through `(u, v)` and `(w, y)` and through `(u, v)` and `(w, -y)` have the slopes `(v - y) / (u - w)`
      and `(v + y) / (u - w)`, and meet the curve again at the sum and the difference of the points. Cleared of its
      denominator `(u - w)^4`, the product of the two coordinates is what the differential addition divides by. */
  lemma ChordLaw(u: int, v: int, w: int, y: int)
    requires v * v == Curve(u) && y * y == Curve(w)
    ensures var d := (u - w) * (u - w);
            var s := (v - y) * (v - y) - (A + u + w) * d;
            var t := (v + y) * (v + y) - (A + u + w) * d;
            4 * (s * t) == SumX(u, 1, w, 1) * d && 4 * d == SumZ(1, u, 1, w, 1)
  {
    hide Curve, SumX, SumZ;
    var d, b := (u - w) * (u - w), u * w;
    Symmetric(u, w);
    Squares(v, y);
    FourFactors(v, v, y, y);
    Discriminant(u, w);
    Units(u, w);
    ChordProduct(v * v, y * y, v * y, (A + u + w) * d, (u + w) * (b + 1) + 2 * A * b, (b - 1) * (b - 1), d);
  }

  lemma ChordProduct(vv: int, yy: int, k: int, e: int, m: int, r: int, d: int)
    requires vv + yy - e == m && k * k == vv * yy && m * m - 4 * (vv * yy) == r * d
    ensures 4 * ((vv + yy - 2 * k - e) * (vv + yy + 2 * k - e)) == 4 * r * d
  {
    Conjugates(m, k);
    assert 4 * r * d == 4 * (r * d);
  }

  lemma Squares(v: int, y: int)
    ensures (v - y) * (v - y) == v * v + y * y - 2 * (v * y) && (v + y) * (v + y) == v * v + y * y + 2 * (v * y)
  {
  }

  lemma Conjugates(m: int, k: int)
    ensures (m - 2 * k) * (m + 2 * k) == m * m - 4 * (k * k)
  {
  }

  lemma Units(u: int, w: int)
    ensures SumX(u, 1, w, 1) == 4 * ((u * w - 1) * (u * w - 1)) && SumZ(1, u, 1, w, 1) == 4 * ((u - w) * (u - w))
  {
  }

  lemma Symmetric(u: int, w: int)
    ensures var a, b := u + w, u * w;
            Curve(u) + Curve(w) - (A + u + w) * ((u - w) * (u - w)) == a * (b + 1) + 2 * A * b
  {
    var p, q, b := u * u, w * w, u * w;
    assert (u - w) * (u - w) == p - 2 * b + q;
    assert (u + w) * (p - 2 * b + q) == u * p - u * b + w * q - w * b by {
      assert u * q == w * b && w * p == u * b;
    }
    assert (A + u + w) * (p - 2 * b + q) == A * (p - 2 * b + q) + (u + w) * (p - 2 * b + q);
    assert (u + w) * (b + 1) == u * b + w * b + u + w;
  }

  lemma Discriminant(u: int, w: int)
    ensures var a, b, d := u + w, u * w, (u - w) * (u - w);
            var m := a * (b + 1) + 2 * A * b;
            m * m - 4 * (Curve(u) * Curve(w)) == (b - 1) * (b - 1) * d
  {
    var a, b := u + w, u * w;
    CurveProduct(u, w);
    var f := b * b + A * (b * a) + (a * a - 2 * b) + A * A * b + A * a + 1;
    assert (u - w) * (u - w) == a * a - 4 * b;
    MixedSquare(a, b, f);
  }

  lemma CurveProduct(u: int, w: int)
    ensures var a, b := u + w, u * w;
            Curve(u) * Curve(w) == b * (b * b + A * (b * a) + (a * a - 2 * b) + A * A * b + A * a + 1)
  {
    var a, b := u + w, u * w;
    var f, g := u * u + A * u + 1, w * w + A * w + 1;
    assert Curve(u) == u * f && Curve(w) == w * g;
    FourFactors(u, f, w, g);
    NineTerms(u * u, A * u, w * w, A * w);
    Products(u, w);
  }

  lemma NineTerms(p: int, x: int, q: int, y: int)
    ensures (p + x + 1) * (q + y + 1) == p * q + p * y + p + x * q + x * y + x + q + y + 1
  {
  }

  lemma Products(u: int, w: int)
    ensures var p, q, a, b := u * u, w * w, u + w, u * w;
            p * q == b * b && p * (A * w) + A * u * q == A * (b * a) && A * u * (A * w) == A * A * b
            && p + q == a * a - 2 * b
  {
    var p, q, b := u * u, w * w, u * w;
    FourFactors(u, u, w, w);
    assert p * w == b * u && u * q == b * w;
    assert b * (u + w) == b * u + b * w;
  }

  lemma MixedSquare(a: int, b: int, f: int)
    requires f == b * b + A * (b * a) + (a * a - 2 * b) + A * A * b + A * a + 1
    ensures var m := a * (b + 1) + 2 * A * b;
            m * m - 4 * (b * f) == (b - 1) * (b - 1) * (a * a - 4 * b)
  {
  }

  // The whole ladder.

  /** A commutative group whose points have projective coordinates: `on(x, z, q)` says that `(x : z)` stands for `q`. */
  datatype Model<!T> = Model(g: Group<T>, on: (int, int, T) -> bool)

  /** The curve's doubling and differential addition, for the difference `p` with coordinate `x1`. */
  ghost predicate Lawful<T(!new)>(c: Model<T>, x1: int, p: T) {
    && Abelian(c.g)
    && (forall x, z, q :: c.on(x, z, q) ==> c.on(DoubleX(x, z) % P, DoubleZ(x, z) % P, c.g.add(q, q)))
    && (forall x, z, u, v, q :: c.on(x, z, q) && c.on(u, v, c.g.add(q, p)) ==>
          c.on(SumX(x, z, u, v) % P, SumZ(x1, x, z, u, v) % P, c.g.add(q, c.g.add(q, p))))
  }

  /** The state stands for the multiples `n` and `n + 1` of `p`. */
  ghost predicate At<T(!new)>(c: Model<T>, p: T, s: Fe.Ladder, n: int) {
    c.on(s.x2, s.z2, Mul(c.g, n, p)) && c.on(s.x3, s.z3, Mul(c.g, n + 1, p))
  }

  lemma LawsAt<T(!new)>(c: Model<T>, x1: int, p: T, x: int, z: int, u: int, v: int, q: T)
    requires Lawful(c, x1, p) && c.on(x, z, q) && c.on(u, v, c.g.add(q, p))
    ensures Abelian(c.g) && c.on(DoubleX(x, z) % P, DoubleZ(x, z) % P, c.g.add(q, q))
    ensures c.on(SumX(x, z, u, v) % P, SumZ(x1, x, z, u, v) % P, c.g.add(q, c.g.add(q, p)))
  {
    hide DoubleX, DoubleZ, SumX, SumZ, Abelian;
  }

  lemma SumSymmetric(x1: int, x: int, z: int, u: int, v: int)
    ensures SumX(u, v, x, z) == SumX(x, z, u, v) && SumZ(x1, u, v, x, z) == SumZ(x1, x, z, u, v)
  {
    var q := x * v - z * u;
    assert u * z - v * x == -q;
    assert (-q) * (-q) == q * q;
  }

  /** A step under the bit `b` leads from the multiple `n` to the multiple `2 n + b`. */
  lemma StepAt<T(!new)>(c: Model<T>, x1: int, p: T, s: Fe.Ladder, n: int, bit: bool)
    requires Lawful(c, x1, p) && At(c, p, s, n)
    ensures At(c, p, Fe.EagerStep(x1, s, bit), 2 * n + if bit then 1 else 0)
  {
    hide Lawful, Abelian, Mul, Fe.Step, DoubleX, DoubleZ, SumX, SumZ;
    Commutative(c, x1, p);
    var q, r := Mul(c.g, n, p), Mul(c.g, n + 1, p);
    MulSucc(c.g, n, p);
    MulAdds(c.g, n, n, p);
    MulAdds(c.g, n, n + 1, p);
    MulAdds(c.g, n + 1, n + 1, p);
    LawsAt(c, x1, p, s.x2, s.z2, s.x3, s.z3, q);
    StepIs(x1, s);
    if bit {
      DoubleAt(c, x1, p, s.x3, s.z3, r);
      SumSymmetric(x1, s.x2, s.z2, s.x3, s.z3);
      StepIs(x1, Fe.Swap(true, s));
    }
  }

  lemma Commutative<T(!new)>(c: Model<T>, x1: int, p: T)
    requires Lawful(c, x1, p)
    ensures Abelian(c.g)
  {
  }

  lemma DoubleAt<T(!new)>(c: Model<T>, x1: int, p: T, x: int, z: int, q: T)
    requires Lawful(c, x1, p) && c.on(x, z, q)
    ensures c.on(DoubleX(x, z) % P, DoubleZ(x, z) % P, c.g.add(q, q))
  {
    hide DoubleX, DoubleZ, SumX, SumZ, Abelian;
  }

  /** The number in the `t` low bits of a scalar. */
  function Low(k: seq<int>, t: nat): int
    requires t <= 8 * |k|
  {
    if t == 0 then 0 else Low(k, t - 1) + if Fe.Bit(k, t - 1) then Pow2(t - 1) else 0
  }

  lemma {:induction false} LadderAt<T(!new)>(c: Model<T>, x1: int, p: T, k: seq<int>, t: nat, s: Fe.Ladder, n: int)
    requires Lawful(c, x1, p) && At(c, p, s, n) && t <= 8 * |k|
    ensures At(c, p, Fe.EagerLadder(k, x1, t, s), n * Pow2(t) + Low(k, t))
    decreases t
  {
    hide Lawful, At, Fe.EagerStep, Fe.Bit;
    if t > 0 {
      var b := Fe.Bit(k, t - 1);
      var m := 2 * n + if b then 1 else 0;
      StepAt(c, x1, p, s, n, b);
      LadderAt(c, x1, p, k, t - 1, Fe.EagerStep(x1, s, b), m);
      assert m * Pow2(t - 1) == n * (2 * Pow2(t - 1)) + if b then Pow2(t - 1) else 0;
    }
  }

  /** The low bits of little-endian bytes: whole bytes, and the low bits of the next one. */
  lemma {:induction false} LowIs(k: seq<uint8>, j: nat, r: nat)
    requires j < |k| && r <= 8
    ensures Low(k, 8 * j + r) == Le(k[..j]) + Pow2(8 * j) * (k[j] as int % Pow2(r))
    decreases j, r
  {
    hide Le, Pow2, Low;
    if r > 0 {
      LowIs(k, j, r - 1);
      LowStep(k, j, r - 1);
      NextDigit(k[j], r - 1, Pow2(8 * j));
      Pow2Adds(8 * j, r - 1);
    } else if j > 0 {
      LowIs(k, j - 1, 8);
      assert k[..j] == k[..j - 1] + [k[j - 1]];
      LeConcat(k[..j - 1], [k[j - 1]]);
      OneByte(k[j - 1]);
      NoRest(k[j]);
    } else {
      NoLow(k);
      NoRest(k[j]);
    }
  }

  lemma LowStep(k: seq<int>, j: nat, r: nat)
    requires j < |k| && r < 8
    ensures Low(k, 8 * j + r + 1) == Low(k, 8 * j + r) + if k[j] / Pow2(r) % 2 == 1 then Pow2(8 * j + r) else 0
  {
    DivModUnique(8 * j + r, 8, j, r);
  }

  lemma NextDigit(x: int, r: nat, w: int)
    requires 0 <= x
    ensures w * (x % Pow2(r + 1)) == w * (x % Pow2(r)) + if x / Pow2(r) % 2 == 1 then w * Pow2(r) else 0
  {
    var p := Pow2(r);
    var q := x / p;
    assert x == p * q + x % p;
    assert p * q == 2 * p * (q / 2) + p * (q % 2);
    DivModUnique(x, 2 * p, q / 2, p * (q % 2) + x % p);
    if q % 2 == 1 {
      assert w * (p + x % p) == w * p + w * (x % p);
    }
  }

  lemma OneByte(b: uint8)
    ensures Le([b]) == b && b as int % Pow2(8) == b
  {
    var n: nat := 8;
    Pow2Byte(n);
  }

  lemma NoRest(b: uint8)
    ensures b as int % Pow2(0) == 0
  {
  }

  lemma NoLow(k: seq<uint8>)
    ensures Low(k, 0) == 0 && Le(k[..0]) == 0
  {
  }

  lemma LowOfAll(k: seq<uint8>)
    ensures Low(k, 8 * |k|) == Le(k)
  {
    hide Le, Pow2, Low;
    if |k| == 0 {
      NoLow(k);
      assert k[..0] == k;
    } else {
      var j := |k| - 1;
      LowIs(k, j, 8);
      assert k == k[..j] + [k[j]];
      LeConcat(k[..j], [k[j]]);
      OneByte(k[j]);
    }
  }

  /** The ladder over all bits of a scalar ends with its multiple of the point, and the next multiple. */
  lemma LadderIsMultiple<T(!new)>(c: Model<T>, x1: int, p: T, k: seq<uint8>)
    requires Lawful(c, x1, p) && c.on(1, 0, c.g.zero) && c.on(x1, 1, p)
    ensures At(c, p, Fe.RfcLadder(k, x1, 8 * |k|, Fe.Ladder(1, 0, x1, 1), false), Le(k))
  {
    hide Lawful, Fe.RfcLadder, Fe.EagerLadder, Low, Le, Abelian;
    Commutative(c, x1, p);
    Zero(c.g, p);
    var s := Fe.Ladder(1, 0, x1, 1);
    assert Mul(c.g, 1, p) == c.g.add(Mul(c.g, 0, p), p) == p;
    LadderAt(c, x1, p, k, 8 * |k|, s, 0);
    LowOfAll(k);
    Fe.EagerIsRfc(k, x1, 8 * |k|, s, false);
  }
}
