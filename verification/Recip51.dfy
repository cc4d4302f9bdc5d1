/** Repeated squaring on five limbs and the exponent chains built on it. */
module Recip51 {
  import opened Words
  import opened Bytes
  import opened Field25519
  import opened FieldOps
  import opened Field51
  import Fe
  import Recip

  /** The five limbs of `a` stand for `z` to the power `e`. */
  ghost predicate Power5(a: array<uint64>, z: int, e: nat)
    reads a
  {
    a.Length == 5 && Limbed(a) && ValueOf(a) % P == Recip.Pow(z, e)
  }

  method MulPower(out: array<uint64>, a: array<uint64>, b: array<uint64>, ghost z: int, ghost i: nat, ghost j: nat)
    requires out.Length == 5 && Power5(a, z, i) && Power5(b, z, j)
    modifies out
    ensures Power5(out, z, i + j)
  {
    hide Limbed, ValueOf, Recip.Pow;
    ghost var x, y := ValueOf(a), ValueOf(b);
    Mul(out, a, b);
    CongResidue(ValueOf(out), x * y);
    Fe.MulOfResidues(x, y);
    Recip.PowAdds(z, i, j);
  }

  /** Squares `count` times: the exponent doubles each time. */
  method SquareTimes(out: array<uint64>, input: array<uint64>, count0: nat, ghost z: int, ghost i: nat)
    requires out.Length == 5 && Power5(input, z, i) && count0 >= 1
    modifies out
    ensures Power5(out, z, i * Pow2(count0))
  {
    hide Fits, V5, Recip.Pow, Pow2, Columns;
    var r0, r1, r2, r3, r4 := input[0], input[1], input[2], input[3], input[4];
    var count := count0;
    ghost var e: nat := i;
    NoSquares(i);
    while true
      invariant 1 <= count <= count0 && e == i * Pow2(count0 - count)
      invariant Fits(r0, r1, r2, r3, r4) && V5(r0, r1, r2, r3, r4) % P == Recip.Pow(z, e)
      decreases count
    {
      r0, r1, r2, r3, r4 := SquareOnce(r0, r1, r2, r3, r4, z, e);
      OneMore(i, count0 - count);
      e := 2 * e;
      count := count - 1;
      if count == 0 {
        break;
      }
    }
    out[0], out[1], out[2], out[3], out[4] := r0, r1, r2, r3, r4;
  }

  lemma NoSquares(i: nat)
    ensures i * Pow2(0) == i
  {
  }

  lemma OneMore(i: nat, n: nat)
    ensures i * Pow2(n + 1) == 2 * (i * Pow2(n))
  {
    var p := Pow2(n);
    assert i * (2 * p) == 2 * (i * p);
  }

  /** One turn of the squaring loop. */
  method SquareOnce(a0: uint64, a1: uint64, a2: uint64, a3: uint64, a4: uint64, ghost z: int, ghost e: nat)
    returns (r0: uint64, r1: uint64, r2: uint64, r3: uint64, r4: uint64)
    requires Fits(a0, a1, a2, a3, a4) && V5(a0, a1, a2, a3, a4) % P == Recip.Pow(z, e)
    ensures Fits(r0, r1, r2, r3, r4) && V5(r0, r1, r2, r3, r4) % P == Recip.Pow(z, 2 * e)
  {
    hide Fits, V5, Recip.Pow, Columns, Cong, Col0, Col1, Col2, Col3, Col4;
    var t0, t1, t2, t3, t4 := SquareColumns(a0, a1, a2, a3, a4);
    ghost var a := [a0, a1, a2, a3, a4];
    ColumnsValue(a, a);
    r0, r1, r2, r3, r4 := CarryParallel(t0, t1, t2, t3, t4);
    ghost var v, x := V5(r0, r1, r2, r3, r4), Value5(a);
    CongTrans(v, V5(t0, t1, t2, t3, t4), x * x);
    CongResidue(v, x * x);
    Fe.MulOfResidues(x, x);
    Recip.PowAdds(z, e, e);
  }

  /** A single squaring, carried like a product. */
  method Square(out: array<uint64>, input: array<uint64>)
    requires out.Length == 5 && input.Length == 5 && Limbed(input)
    modifies out
    ensures Limbed(out) && Cong(ValueOf(out), old(ValueOf(input) * ValueOf(input)))
  {
    hide Fits, V5, Columns, Cong, Col0, Col1, Col2, Col3, Col4;
    ghost var a: seq<int> := input[..];
    var t0, t1, t2, t3, t4 := SquareColumns(input[0], input[1], input[2], input[3], input[4]);
    assert a == [a[0], a[1], a[2], a[3], a[4]];
    ColumnsValue(a, a);
    var r0, r1, r2, r3, r4 := CarryChain(t0, t1, t2, t3, t4);
    CongTrans(V5(r0, r1, r2, r3, r4), V5(t0, t1, t2, t3, t4), Value5(a) * Value5(a));
    out[0], out[1], out[2], out[3], out[4] := r0, r1, r2, r3, r4;
  }

  /** From exponent 2^5 - 1 to 2^250 - 1, in place. */
  method PowTwo250(b: array<uint64>, ghost z: int)
    requires Power5(b, z, 31)
    modifies b
    ensures Power5(b, z, Pow2(250) - 1)
  {
    hide Power5, Pow2;
    SizeOf(b, z, 31);
    var t0, c := new uint64[5], new uint64[5];
    SquareTimes(t0, b, 5, z, 31);
    FiveOnes(5);
    MulPower(b, t0, b, z, 31 * Pow2(5), 31);
    Recip.ChainExponent(5, 5);
    Raise(t0, b, c, b, 10, z, 10);
    Raise(t0, c, t0, c, 20, z, 20);
    Raise(t0, t0, b, b, 10, z, 40);
    Raise(t0, b, c, b, 50, z, 50);
    Raise(t0, c, t0, c, 100, z, 100);
    Raise(t0, t0, b, b, 50, z, 200);
  }

  lemma SizeOf(b: array<uint64>, z: int, e: nat)
    requires Power5(b, z, e)
    ensures b.Length == 5
  {
  }

  lemma FiveOnes(n: nat)
    requires n == 5
    ensures Pow2(n) == 32
  {
    assert Pow2(n) == 2 * Pow2(n - 1) == 4 * Pow2(n - 2) == 8 * Pow2(n - 3);
  }

  /** `t0 = a^(2^n)`, `out = t0 * b`: all-ones exponents are concatenated. */
  method Raise(t0: array<uint64>, a: array<uint64>, out: array<uint64>, b: array<uint64>, n: nat, ghost z: int,
               ghost m: nat)
    requires t0.Length == 5 && out.Length == 5 && t0 != b && n >= 1
    requires Power5(a, z, Pow2(m) - 1) && Power5(b, z, Pow2(n) - 1)
    modifies t0, out
    ensures Power5(out, z, Pow2(m + n) - 1)
    ensures out != t0 ==> Power5(t0, z, (Pow2(m) - 1) * Pow2(n))
  {
    hide Power5, Pow2;
    SquareTimes(t0, a, n, z, Pow2(m) - 1);
    MulPower(out, t0, b, z, (Pow2(m) - 1) * Pow2(n), Pow2(n) - 1);
    Recip.ChainExponent(m, n);
  }

  /** The first part of both chains: exponents 11 and 2^5 - 1. */
  method ChainStart(a: array<uint64>, b: array<uint64>, z: array<uint64>, ghost v: int)
    requires a.Length == 5 && b.Length == 5 && a != b && z !in {a, b} && Power5(z, v, 1)
    modifies a, b
    ensures Power5(a, v, 11) && Power5(b, v, 31)
  {
    hide Power5, Pow2;
    SmallPowers();
    var t0 := new uint64[5];
    SquareTimes(a, z, 1, v, 1);
    SquareTimes(t0, a, 2, v, 2);
    MulPower(b, t0, z, v, 8, 1);
    MulPower(a, b, a, v, 9, 2);
    SquareTimes(t0, a, 1, v, 11);
    MulPower(b, t0, b, v, 22, 9);
  }

  lemma SmallPowers()
    ensures Pow2(1) == 2 && Pow2(2) == 4
  {
  }

  /** The inverse: `z` to the power `P - 2`. */
  method Reciprocal(out: array<uint64>, z: array<uint64>, ghost v: int)
    requires out.Length == 5 && Power5(z, v, 1)
    modifies out
    ensures Power5(out, v, P - 2)
  {
    hide Power5, Pow2;
    var a, b := new uint64[5], new uint64[5];
    ChainStart(a, b, z, v);
    PowTwo250(b, v);
    SquareTimes(b, b, 5, v, Pow2(250) - 1);
    FiveOnes(5);
    ghost var n: nat := 250;
    Recip.TopExponent(n);
    MulPower(out, b, a, v, 32 * (Pow2(250) - 1), 11);
  }

  /** The power used to extract square roots: `z` to `2^252 - 3`. */
  method PowTwo252m3(out: array<uint64>, z: array<uint64>, ghost v: int)
    requires out.Length == 5 && Power5(z, v, 1)
    modifies out
    ensures Power5(out, v, 0x1000_0000_0000_0000_0000_0000_0000_0000_0000_0000_0000_0000_0000_0000_0000_0000 - 3)
  {
    hide Power5, Pow2;
    var b, c := new uint64[5], new uint64[5];
    ChainStart(c, b, z, v);
    PowTwo250(b, v);
    SmallPowers();
    SquareTimes(b, b, 2, v, Pow2(250) - 1);
    ghost var n: nat := 250;
    Recip.TopExponent(n);
    MulPower(out, b, z, v, 4 * (Pow2(250) - 1), 1);
  }
}
