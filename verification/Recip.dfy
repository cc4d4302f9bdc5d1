/** Powers in the field and the addition chain that inverts an element. */
module Recip {
  import opened Arith
  import opened Words
  import opened Bytes
  import opened Field25519
  import opened FieldOps
  import opened Ladder
  import Fe

  function Pow(z: int, e: nat): (r: int)
    ensures 0 <= r < P
    decreases e, z
  {
    if e == 0 then 1 else Fe.Mul(z, Pow(z, e - 1))
  }

  lemma MulAssociates(a: int, b: int, c: int)
    ensures Fe.Mul(Fe.Mul(a, b), c) == Fe.Mul(a, Fe.Mul(b, c))
  {
    Fe.MulOfResidues(a * b, c);
    Fe.MulOfResidues(a, b * c);
    Fe.MulOfResidues(Fe.Mul(a, b), c);
    Fe.MulOfResidues(a, Fe.Mul(b, c));
    assert (a * b) * c == a * (b * c);
    ResidueTwice(a * b);
    ResidueTwice(b * c);
  }

  lemma ResidueTwice(x: int)
    ensures x % P % P == x % P
  {
    DivModUnique(x % P, P, 0, x % P);
  }

  lemma {:induction false} PowAdds(z: int, a: nat, b: nat)
    ensures Fe.Mul(Pow(z, a), Pow(z, b)) == Pow(z, a + b)
    decreases a
  {
    hide Fe.Mul;
    if a == 0 {
      MulOne(Pow(z, b));
    } else {
      PowAdds(z, a - 1, b);
      MulAssociates(z, Pow(z, a - 1), Pow(z, b));
    }
  }

  lemma MulOne(x: int)
    requires 0 <= x < P
    ensures Fe.Mul(1, x) == x == Fe.Mul(x, 1)
  {
  }

  lemma PowOne(z: int)
    requires 0 <= z < P
    ensures Pow(z, 1) == z
  {
    hide Fe.Mul;
    MulOne(z);
  }

  /** `out` stands for `z` to the power `e`. */
  ghost predicate Power(a: array<int64>, z: int, e: nat)
    reads a
  {
    Rep(a, Pow(z, e), TWO26)
  }

  method MulPower(output: array<int64>, a: array<int64>, b: array<int64>, ghost z: int, ghost i: nat, ghost j: nat)
    requires output.Length >= 10 && Power(a, z, i) && Power(b, z, j)
    modifies output
    ensures Power(output, z, i + j)
  {
    hide Limbs, Pow;
    ghost var x, y := Val(a[..]), Val(b[..]);
    FMul(output, a, b);
    CongResidue(Val(output[..]), x * y);
    Fe.MulOfResidues(x, y);
    PowAdds(z, i, j);
  }

  method SquarePower(output: array<int64>, a: array<int64>, ghost z: int, ghost i: nat)
    requires output.Length >= 10 && Power(a, z, i)
    modifies output
    ensures Power(output, z, 2 * i)
  {
    hide Limbs, Pow;
    SquareInto(output, a, Pow(z, i));
    PowAdds(z, i, i);
  }

  /** `a` stands for `z` to the power 2^n - 1. */
  ghost predicate AllOnes(a: array<int64>, z: int, n: nat)
    reads a
  {
    Power(a, z, Pow2(n) - 1)
  }

  /** Squares `a` an even number of times, alternating between two buffers, and multiplies by `b`: the exponents, all
      ones in binary, are concatenated. */
  method Raise(output: array<int64>, s: array<int64>, t: array<int64>, a: array<int64>, b: array<int64>, n: nat,
               ghost z: int, ghost m: nat)
    requires s != t && a != s && b !in {s, t} && output.Length >= 10 && s.Length >= 10 && t.Length >= 10
    requires n >= 2 && n % 2 == 0 && AllOnes(a, z, m) && AllOnes(b, z, n)
    modifies output, s, t
    ensures AllOnes(output, z, m + n)
  {
    hide Power, Pow2;
    ghost var i: nat := Pow2(m) - 1;
    SquarePower(s, a, z, i);
    SquarePower(t, s, z, 2 * i);
    var k := 2;
    ghost var e: nat := 4 * i;
    FourFold(i);
    while k < n
      invariant 2 <= k <= n && k % 2 == 0
      invariant Power(t, z, e) && AllOnes(b, z, n) && e == i * Pow2(k)
    {
      FourTimes(i, k);
      SquarePower(s, t, z, e);
      SquarePower(t, s, z, 2 * e);
      e := 4 * e;
      k := k + 2;
    }
    MulPower(output, t, b, z, e, Pow2(n) - 1);
    ChainExponent(m, n);
  }

  lemma FourFold(i: nat)
    ensures i * Pow2(2) == 4 * i
  {
  }

  lemma FourTimes(i: nat, k: nat)
    ensures i * Pow2(k + 2) == 4 * (i * Pow2(k))
  {
    var p := Pow2(k);
    assert Pow2(k + 2) == 4 * p;
    assert i * (4 * p) == 4 * (i * p);
  }

  /** The exponents of the chain are one less than powers of two. */
  lemma ChainExponent(m: nat, n: nat)
    ensures (Pow2(m) - 1) * Pow2(n) + (Pow2(n) - 1) == Pow2(m + n) - 1
  {
    hide Pow2;
    Pow2Adds(m, n);
  }

  /** The common start of the chain: the elements with exponents 11 and 2^5 - 1. */
  method ChainStart(z11: array<int64>, z5: array<int64>, z: array<int64>, ghost v: int)
    requires z11.Length >= 10 && z5.Length >= 10 && z11 != z5 && z !in {z11, z5} && Power(z, v, 1)
    modifies z11, z5
    ensures Power(z11, v, 11) && Power(z5, v, 31)
  {
    hide Power;
    var z2, z9, t0, t1 := new int64[10], new int64[10], new int64[10], new int64[10];
    SquarePower(z2, z, v, 1);
    SquarePower(t1, z2, v, 2);
    SquarePower(t0, t1, v, 4);
    MulPower(z9, t0, z, v, 8, 1);
    MulPower(z11, z9, z2, v, 9, 2);
    SquarePower(t0, z11, v, 11);
    MulPower(z5, t0, z9, v, 22, 9);
  }

  /** Five squarings through two buffers; the last is written to `t0`. */
  method FiveSquares(t0: array<int64>, t1: array<int64>, a: array<int64>, ghost v: int, ghost i: nat)
    requires t0.Length >= 10 && t1.Length >= 10 && t0 != t1 && Power(a, v, i)
    modifies t0, t1
    ensures Power(t0, v, 32 * i)
  {
    hide Power;
    SquarePower(t0, a, v, i);
    SquarePower(t1, t0, v, 2 * i);
    SquarePower(t0, t1, v, 4 * i);
    SquarePower(t1, t0, v, 8 * i);
    SquarePower(t0, t1, v, 16 * i);
  }

  /** The middle of the chain: from exponent 2^5 - 1 to 2^250 - 1. */
  method ChainMiddle(z250: array<int64>, z5: array<int64>, ghost v: int)
    requires z250.Length >= 10 && z250 != z5 && Power(z5, v, 31)
    modifies z250
    ensures AllOnes(z250, v, 250)
  {
    hide Power, AllOnes, Pow2;
    var z10, z20, z50, z100 := new int64[10], new int64[10], new int64[10], new int64[10];
    var t0, t1 := new int64[10], new int64[10];
    FiveSquares(t0, t1, z5, v, 31);
    MulPower(z10, t0, z5, v, 32 * 31, 31);
    TenOnes(z10, v, 10);
    Raise(z20, t0, t1, z10, z10, 10, v, 10);
    Raise(t0, t0, t1, z20, z20, 20, v, 20);
    Raise(z50, t1, t0, t0, z10, 10, v, 40);
    Raise(z100, t0, t1, z50, z50, 50, v, 50);
    Raise(t1, t1, t0, z100, z100, 100, v, 100);
    Raise(z250, t0, t1, t1, z50, 50, v, 200);
  }

  lemma TenOnes(a: array<int64>, v: int, n: nat)
    requires n == 10 && Power(a, v, 1023)
    ensures AllOnes(a, v, n)
  {
    hide Power;
    assert Pow2(n) == 2 * Pow2(n - 1) == 4 * Pow2(n - 2);
    Pow2Next(n - 8);
  }

  /** The inverse by Fermat's theorem: `z` to the power `P - 2`. */
  method CRecip(output: array<int64>, z: array<int64>, ghost v: int)
    requires output.Length >= 10 && output != z && Rep(z, v, TWO26)
    modifies output
    ensures Rep(output, Pow(v, P - 2), TWO26)
  {
    hide Limbs, Pow, Pow2;
    PowOne(v);
    var z11, z5, z250 := new int64[10], new int64[10], new int64[10];
    ChainStart(z11, z5, z, v);
    ChainMiddle(z250, z5, v);
    var t0, t1 := new int64[10], new int64[10];
    FiveSquares(t1, t0, z250, v, Pow2(250) - 1);
    MulPower(output, t1, z11, v, 32 * (Pow2(250) - 1), 11);
    ghost var n: nat := 250;
    TopExponent(n);
  }

  lemma TopExponent(n: nat)
    requires n == 250
    ensures 32 * Pow2(n) == TWO255
  {
    hide Pow2;
    var m: nat := 256;
    Pow2Word(m);
    LastSteps(n);
  }

  lemma LastSteps(n: nat)
    ensures Pow2(n + 6) == 64 * Pow2(n)
  {
    assert Pow2(n + 6) == 2 * Pow2(n + 5) == 4 * Pow2(n + 4) == 8 * Pow2(n + 3);
    assert Pow2(n + 3) == 2 * Pow2(n + 2) == 4 * Pow2(n + 1) == 8 * Pow2(n);
  }
}
