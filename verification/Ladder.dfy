/** The Montgomery ladder of the X25519 function: rotating limb buffers and conditional swaps. */
module Ladder {
  import opened Arith
  import opened Words
  import opened Field25519
  import opened FieldOps
  import Bytes
  import Fe

  /** An array whose first ten limbs are below `bound` and stand for the field element `v`. */
  ghost predicate Rep(a: array<int64>, v: int, bound: int)
    reads a
  {
    a.Length >= 10 && Below(a[..], 10, bound) && Val(a[..]) % P == v
  }

  lemma RepWiden(a: array<int64>, v: int, low: int, high: int)
    requires Rep(a, v, low) && low <= high
    ensures Rep(a, v, high)
  {
  }

  /** `output += in1`. */
  method FSum(output: array<int64>, in1: array<int64>, ghost u: int, ghost v: int)
    requires output != in1 && Rep(output, u, TWO26) && Rep(in1, v, TWO26)
    modifies output
    ensures Rep(output, Fe.Add(u, v), TWO27)
  {
    hide Limbs;
    ghost var before := output[..];
    var i := 0;
    while i < 10
      invariant 0 <= i <= 10
      invariant forall k :: 0 <= k < i ==> output[k] == before[k] + in1[k]
      invariant forall k :: i <= k < 10 ==> output[k] == before[k]
    {
      output[i] := output[i] + in1[i];
      i := i + 1;
    }
    LimbsSum(before, in1[..], output[..], 1, 0);
    Fe.AddOfResidues(Val(before), Val(in1[..]));
  }

  /** `output = in1 - output`. */
  method FDifference(output: array<int64>, in1: array<int64>, ghost u: int, ghost v: int)
    requires output != in1 && Rep(output, u, TWO26) && Rep(in1, v, TWO26)
    modifies output
    ensures Rep(output, Fe.Sub(v, u), TWO27)
  {
    hide Limbs;
    ghost var before := output[..];
    var i := 0;
    while i < 10
      invariant 0 <= i <= 10
      invariant forall k :: 0 <= k < i ==> output[k] == in1[k] - before[k]
      invariant forall k :: i <= k < 10 ==> output[k] == before[k]
    {
      output[i] := in1[i] - output[i];
      i := i + 1;
    }
    LimbsSum(in1[..], before, output[..], -1, 0);
    Fe.AddOfResidues(Val(in1[..]), Val(before));
  }

  lemma {:induction false} LimbsSum(s: seq<int>, t: seq<int>, r: seq<int>, c: int, k: nat)
    requires k <= 10 <= |s| && 10 <= |t| && 10 <= |r| && forall i :: k <= i < 10 ==> r[i] == s[i] + c * t[i]
    ensures Limbs(r, k, 10) == Limbs(s, k, 10) + c * Limbs(t, k, 10)
    decreases 10 - k
  {
    if k < 10 {
      LimbsSum(s, t, r, c, k + 1);
      var w, x, y := Width(k), Limbs(s, k + 1, 10), Limbs(t, k + 1, 10);
      assert w * (x + c * y) == w * x + c * (w * y);
      assert c * (t[k] + w * y) == c * t[k] + c * (w * y);
    }
  }

  /** Product and both reductions, into a nineteen-limb buffer. */
  method MulInto(output: array<int64>, in2: array<int64>, in1: array<int64>, ghost u: int, ghost v: int)
    requires output.Length >= 19 && output != in2 && output != in1 && Rep(in2, u, TWO27) && Rep(in1, v, TWO27)
    modifies output
    ensures Rep(output, Fe.Mul(u, v), TWO26)
  {
    hide Limbs;
    ghost var product := Val(in2[..]) * Val(in1[..]);
    FProduct(output, in2, in1);
    FReduceDegree(output);
    ghost var mid := Val(output[..]);
    FReduceCoefficients(output);
    CongTrans(Val(output[..]), mid, product);
    CongResidue(Val(output[..]), product);
    Fe.MulOfResidues(Val(in2[..]), Val(in1[..]));
  }

  method SquareInto(output: array<int64>, input: array<int64>, ghost u: int)
    requires output.Length >= 10 && Rep(input, u, TWO27)
    modifies output
    ensures Rep(output, Fe.Square(u), TWO26)
  {
    hide Limbs;
    ghost var x := Val(input[..]);
    FSquare(output, input);
    CongResidue(Val(output[..]), x * x);
    Fe.MulOfResidues(x, x);
  }

  method CopyInto(output: array<int64>, input: array<int64>, ghost u: int, ghost bound: int)
    requires output.Length >= 10 && Rep(input, u, bound)
    modifies output
    ensures Rep(output, u, bound)
  {
    hide Limbs;
    CopyTen(output, input);
  }

  /** `output = 121665 * in1`, reduced. */
  method ScaleInto(output: array<int64>, in1: array<int64>, ghost u: int)
    requires output.Length >= 11 && output != in1 && Rep(in1, u, TWO27)
    modifies output
    ensures Rep(output, Fe.Mul(Fe.A24, u), TWO26)
  {
    hide Limbs;
    var i := 0;
    while i < 10
      invariant 0 <= i <= 10
      invariant forall k :: 0 <= k < i ==> output[k] == in1[k] * 121665
    {
      output[i] := in1[i] * 121665;
      i := i + 1;
    }
    ghost var x, y := Val(in1[..]), Val(output[..]);
    LimbsScaled(in1[..], output[..], 121665, 0);
    FReduceCoefficients(output);
    CongResidue(Val(output[..]), y);
    Fe.MulOfResidues(121665, x);
  }

  lemma {:induction false} LimbsScaled(s: seq<int>, r: seq<int>, c: int, k: nat)
    requires k <= 10 <= |s| && 10 <= |r| && forall i :: k <= i < 10 ==> r[i] == s[i] * c
    ensures Limbs(r, k, 10) == c * Limbs(s, k, 10)
    decreases 10 - k
  {
    if k < 10 {
      LimbsScaled(s, r, c, k + 1);
      var w, x := Width(k), Limbs(s, k + 1, 10);
      assert w * (c * x) == c * (w * x);
      assert c * (s[k] + w * x) == s[k] * c + c * (w * x);
    }
  }

  /** Eight different buffers. */
  ghost predicate Distinct(a: array<int64>, b: array<int64>, c: array<int64>, d: array<int64>,
                           e: array<int64>, f: array<int64>, g: array<int64>, h: array<int64>) {
    && a != b && a != c && a != d && a != e && a != f && a != g && a != h
    && b != c && b != d && b != e && b != f && b != g && b != h
    && c != d && c != e && c != f && c != g && c != h
    && d != e && d != f && d != g && d != h
    && e != f && e != g && e != h
    && f != g && f != h
    && g != h
  }

  /** `(x, z, xp, zp)` stand for the ladder state `s`. */
  ghost predicate State(x: array<int64>, z: array<int64>, xp: array<int64>, zp: array<int64>, s: Fe.Ladder)
    reads x, z, xp, zp
  {
    Rep(x, s.x2, TWO26) && Rep(z, s.z2, TWO26) && Rep(xp, s.x3, TWO26) && Rep(zp, s.z3, TWO26)
  }

  /** Sum and difference of a coordinate pair, in place. */
  method SumDifference(x: array<int64>, z: array<int64>, ghost u: int, ghost v: int)
    requires x != z && Rep(x, u, TWO26) && Rep(z, v, TWO26)
    modifies x, z
    ensures Rep(x, Fe.Add(u, v), TWO27) && Rep(z, Fe.Sub(u, v), TWO27)
  {
    var orig := new int64[10];
    CopyInto(orig, x, u, TWO26);
    FSum(x, z, u, v);
    FDifference(z, orig, v, u);
  }

  /** The differential addition: `x3 = (da + cb)^2` and `z3 = x1 (da - cb)^2`. */
  method MontyAdd(x3: array<int64>, z3: array<int64>, x: array<int64>, z: array<int64>,
                  xprime: array<int64>, zprime: array<int64>, qmqp: array<int64>,
                  ghost a: int, ghost b: int, ghost c: int, ghost d: int, ghost x1: int)
    requires x3.Length >= 10 && z3.Length >= 10 && x3 != z3
    requires Rep(x, a, TWO27) && Rep(z, b, TWO27) && Rep(xprime, c, TWO27) && Rep(zprime, d, TWO27)
            && Rep(qmqp, x1, TWO26)
    modifies x3, z3
    ensures Rep(x3, Fe.Square(Fe.Add(Fe.Mul(d, a), Fe.Mul(c, b))), TWO26)
    ensures Rep(z3, Fe.Mul(x1, Fe.Square(Fe.Sub(Fe.Mul(d, a), Fe.Mul(c, b)))), TWO26)
  {
    hide Rep, Fe.Add, Fe.Sub, Fe.Mul, Fe.Square;
    var xxprime, zzprime := new int64[19], new int64[19];
    var xxxprime, zzzprime := new int64[19], new int64[19];
    ghost var da, cb := Fe.Mul(d, a), Fe.Mul(c, b);
    MulInto(xxprime, xprime, z, c, b);
    MulInto(zzprime, x, zprime, a, d);
    Fe.Commutes(a, d);
    SumDifference(xxprime, zzprime, cb, da);
    SquareInto(xxxprime, xxprime, Fe.Add(cb, da));
    SquareInto(zzzprime, zzprime, Fe.Sub(cb, da));
    RepWiden(zzzprime, Fe.Square(Fe.Sub(cb, da)), TWO26, TWO27);
    RepWiden(qmqp, x1, TWO26, TWO27);
    MulInto(zzprime, zzzprime, qmqp, Fe.Square(Fe.Sub(cb, da)), x1);
    Fe.Commutes(cb, da);
    Fe.SquareOfOpposite(cb, da);
    Fe.Commutes(Fe.Square(Fe.Sub(da, cb)), x1);
    CopyInto(x3, xxxprime, Fe.Square(Fe.Add(da, cb)), TWO26);
    CopyInto(z3, zzprime, Fe.Mul(x1, Fe.Square(Fe.Sub(da, cb))), TWO26);
  }

  /** The doubling: `x2 = aa bb` and `z2 = e (aa + 121665 e)`. */
  method MontyDouble(x2: array<int64>, z2: array<int64>, x: array<int64>, z: array<int64>, ghost a: int, ghost b: int)
    requires x2.Length >= 19 && z2.Length >= 19 && x2 != z2
    requires Rep(x, a, TWO27) && Rep(z, b, TWO27)
    modifies x2, z2
    ensures var aa, bb := Fe.Square(a), Fe.Square(b);
            var e := Fe.Sub(aa, bb);
            Rep(x2, Fe.Mul(aa, bb), TWO26) && Rep(z2, Fe.Mul(e, Fe.Add(aa, Fe.Mul(Fe.A24, e))), TWO26)
  {
    hide Rep, Fe.Add, Fe.Sub, Fe.Mul, Fe.Square;
    var xx, zz, zzz := new int64[19], new int64[19], new int64[19];
    ghost var aa, bb := Fe.Square(a), Fe.Square(b);
    ghost var e := Fe.Sub(aa, bb);
    SquareInto(xx, x, a);
    SquareInto(zz, z, b);
    RepWiden(xx, aa, TWO26, TWO27);
    RepWiden(zz, bb, TWO26, TWO27);
    MulInto(x2, xx, zz, aa, bb);
    FDifference(zz, xx, bb, aa);
    ScaleInto(zzz, zz, e);
    FSum(zzz, xx, Fe.Mul(Fe.A24, e), aa);
    Fe.Commutes(Fe.Mul(Fe.A24, e), aa);
    MulInto(z2, zz, zzz, e, Fe.Add(aa, Fe.Mul(Fe.A24, e)));
  }

  /** One ladder step on buffers; the inputs are destroyed, `qmqp` is kept. */
  method FMonty(x2: array<int64>, z2: array<int64>, x3: array<int64>, z3: array<int64>,
                x: array<int64>, z: array<int64>, xprime: array<int64>, zprime: array<int64>, qmqp: array<int64>,
                ghost s: Fe.Ladder, ghost x1: int)
    requires Distinct(x2, z2, x3, z3, x, z, xprime, zprime) && qmqp !in {x2, z2, x3, z3, x, z, xprime, zprime}
    requires x2.Length >= 19 && z2.Length >= 19 && x3.Length >= 19 && z3.Length >= 19
    requires State(x, z, xprime, zprime, s) && Rep(qmqp, x1, TWO26)
    modifies x2, z2, x3, z3, x, z, xprime, zprime
    ensures State(x2, z2, x3, z3, Fe.Step(x1, s))
  {
    hide Rep, Fe.Add, Fe.Sub, Fe.Mul, Fe.Square;
    SumDifference(x, z, s.x2, s.z2);
    SumDifference(xprime, zprime, s.x3, s.z3);
    ghost var a, b := Fe.Add(s.x2, s.z2), Fe.Sub(s.x2, s.z2);
    MontyAdd(x3, z3, x, z, xprime, zprime, qmqp, a, b, Fe.Add(s.x3, s.z3), Fe.Sub(s.x3, s.z3), x1);
    MontyDouble(x2, z2, x, z, a, b);
  }

  /** Exchanges the first ten limbs of two buffers when `iswap` is 1 and keeps them when it is 0, by masks. */
  method SwapConditional(a: array<int64>, b: array<int64>, iswap: int64)
    requires a.Length >= 10 && b.Length >= 10 && a != b && (iswap == 0 || iswap == 1)
    requires Below(a[..], 10, TWO26) && Below(b[..], 10, TWO26)
    modifies a, b
    ensures a[..10] == old(if iswap == 1 then b[..10] else a[..10])
    ensures b[..10] == old(if iswap == 1 then a[..10] else b[..10])
  {
    hide Bits32, Signed32, And, Xor;
    var swap: int32 := -iswap;
    var i := 0;
    while i < 10
      invariant 0 <= i <= 10
      invariant forall k :: 0 <= k < i ==> a[k] == old(if iswap == 1 then b[k] else a[k])
      invariant forall k :: 0 <= k < i ==> b[k] == old(if iswap == 1 then a[k] else b[k])
      invariant forall k :: i <= k < 10 ==> a[k] == old(a[k]) && b[k] == old(b[k])
    {
      MaskedExchange32(iswap, a[i], b[i]);
      var x := And(Bits32(swap), Xor(Bits32(a[i]), Bits32(b[i])));
      a[i], b[i] := Signed32(Xor(Bits32(a[i]), x)), Signed32(Xor(Bits32(b[i]), x));
      i := i + 1;
    }
  }

  /** The swap as it acts on represented elements. */
  method SwapInto(a: array<int64>, b: array<int64>, iswap: int64, ghost u: int, ghost v: int)
    requires a != b && (iswap == 0 || iswap == 1) && Rep(a, u, TWO26) && Rep(b, v, TWO26)
    modifies a, b
    ensures Rep(a, if iswap == 1 then v else u, TWO26) && Rep(b, if iswap == 1 then u else v, TWO26)
  {
    hide Limbs;
    ghost var s, t := a[..], b[..];
    SwapConditional(a, b, iswap);
    LimbsSame(a[..], if iswap == 1 then t else s, 0, 10);
    LimbsSame(b[..], if iswap == 1 then s else t, 0, 10);
  }

  /** Swap, ladder step, swap back. */
  method SwappedStep(x2: array<int64>, z2: array<int64>, x3: array<int64>, z3: array<int64>,
                     x: array<int64>, z: array<int64>, xp: array<int64>, zp: array<int64>, q: array<int64>, bit: int64,
                     ghost s: Fe.Ladder, ghost x1: int)
    requires Distinct(x2, z2, x3, z3, x, z, xp, zp) && q !in {x2, z2, x3, z3, x, z, xp, zp}
    requires x2.Length >= 19 && z2.Length >= 19 && x3.Length >= 19 && z3.Length >= 19
    requires State(x, z, xp, zp, s) && Rep(q, x1, TWO26) && (bit == 0 || bit == 1)
    modifies x2, z2, x3, z3, x, z, xp, zp
    ensures State(x2, z2, x3, z3, Fe.EagerStep(x1, s, bit == 1))
  {
    hide Rep, Fe.Step;
    SwapInto(x, xp, bit, s.x2, s.x3);
    SwapInto(z, zp, bit, s.z2, s.z3);
    ghost var r := Fe.Swap(bit == 1, s);
    FMonty(x2, z2, x3, z3, x, z, xp, zp, q, r, x1);
    ghost var p := Fe.Step(x1, r);
    SwapInto(x2, x3, bit, p.x2, p.x3);
    SwapInto(z2, z3, bit, p.z2, p.z3);
  }

  /** The top bit of the byte after `j` left shifts is bit `7 - j` of the byte. */
  lemma TopBit(v: uint8, byte: uint8, j: nat)
    requires j < 8 && byte == v * Bytes.Pow2(j) % 0x100
    ensures byte / 0x80 == v / Bytes.Pow2(7 - j) % 2
    ensures byte * 2 % 0x100 == v * Bytes.Pow2(j + 1) % 0x100
  {
    var p, q := Bytes.Pow2(j), Bytes.Pow2(7 - j);
    assert p * q == 0x80 by { SmallPowers(); }
    ShiftedByte(v, byte, p, q);
    assert v * (2 * p) == 2 * (v * p);
    ModOfDouble(v * p, byte);
  }

  lemma SmallPowers()
    ensures Bytes.Pow2(0) == 1 && Bytes.Pow2(1) == 2 && Bytes.Pow2(2) == 4 && Bytes.Pow2(3) == 8
    ensures Bytes.Pow2(4) == 16 && Bytes.Pow2(5) == 32 && Bytes.Pow2(6) == 64 && Bytes.Pow2(7) == 128
  {
  }

  lemma ModOfDouble(x: int, byte: int)
    requires byte == x % 0x100
    ensures byte * 2 % 0x100 == 2 * x % 0x100
  {
    var y := byte * 2;
    DivModUnique(2 * x, 0x100, 2 * (x / 0x100) + y / 0x100, y % 0x100);
  }

  lemma ShiftedByte(v: int, byte: int, p: int, q: int)
    requires 0 < p && 0 < q && p * q == 0x80 && byte == v * p % 0x100
    ensures byte / 0x80 == v / q % 2
  {
    var h, g := v / q, v % q;
    var e, f := h / 2, h % 2;
    assert v * p == 0x80 * h + g * p by {
      assert v == q * h + g;
      assert (q * h + g) * p == (p * q) * h + g * p;
    }
    MulBounds(g, p, q - 1, p);
    assert (q - 1) * p == p * q - p;
    DivModUnique(v * p, 0x100, e, 0x80 * f + g * p);
    DivModUnique(byte, 0x80, f, g * p);
  }

  /** Eight different nineteen-limb buffers. */
  ghost predicate Buffers(a: array<int64>, b: array<int64>, c: array<int64>, d: array<int64>,
                          e: array<int64>, f: array<int64>, g: array<int64>, h: array<int64>) {
    && Distinct(a, b, c, d, e, f, g, h)
    && a.Length == b.Length == c.Length == d.Length == e.Length == f.Length == g.Length == h.Length == 19
  }

  lemma Rotated(a: array<int64>, b: array<int64>, c: array<int64>, d: array<int64>,
                e: array<int64>, f: array<int64>, g: array<int64>, h: array<int64>)
    requires Buffers(a, b, c, d, e, f, g, h)
    ensures Buffers(e, f, g, h, a, b, c, d)
  {
  }

  /** A nineteen-limb buffer that holds the small number `v`. */
  method SmallBuffer(v: int64) returns (a: array<int64>)
    requires v == 0 || v == 1
    ensures fresh(a) && a.Length == 19 && Rep(a, v, TWO26)
  {
    a := new int64[19](i => if i == 0 then v else 0);
    SmallValue(a[..], v);
  }

  lemma SmallValue(s: seq<int>, v: int)
    requires |s| == 19 && s[0] == v && forall i :: 1 <= i < 10 ==> s[i] == 0
    ensures Val(s) == v
  {
    hide Limbs;
    LimbsScaled(s, s, 0, 1);
    LimbsStep(s, 0, 10);
  }

  /** The buffers as declared: the points (0 : 1) and (1 : 0), and scratch space. */
  method StartBuffers() returns (a: array<int64>, b: array<int64>, c: array<int64>, d: array<int64>,
                                 e: array<int64>, f: array<int64>, g: array<int64>, h: array<int64>)
    ensures fresh({c, d, a, b, g, h, e, f}) && Buffers(c, d, a, b, g, h, e, f)
    ensures Rep(a, 0, TWO26) && Rep(b, 1, TWO26) && Rep(c, 1, TWO26) && Rep(d, 0, TWO26)
  {
    hide Rep;
    a := SmallBuffer(0);
    b := SmallBuffer(1);
    c := SmallBuffer(1);
    d := SmallBuffer(0);
    e := SmallBuffer(0);
    f := SmallBuffer(1);
    g := SmallBuffer(0);
    h := SmallBuffer(1);
  }

  /** The point the scalar `n` takes `x1` to, as the projective pair of section 5 of RFC 7748. */
  ghost function Multiple(n: seq<int>, x1: int): Fe.Ladder
    requires |n| == 32
  {
    Fe.RfcLadder(n, x1, 256, Fe.Ladder(1, 0, x1, 1), false)
  }

  method CMult(resultx: array<int64>, resultz: array<int64>, n: array<uint8>, q: array<int64>, ghost x1: int)
    requires resultx.Length >= 10 && resultz.Length >= 10 && resultx != resultz && q !in {resultx, resultz}
    requires n.Length == 32 && Rep(q, x1, TWO26)
    modifies resultx, resultz
    ensures Rep(resultx, Multiple(n[..], x1).x2, TWO26) && Rep(resultz, Multiple(n[..], x1).z2, TWO26)
  {
    hide Rep, Fe.EagerLadder, Fe.EagerStep, Fe.RfcLadder, Fe.Bit, Bytes.Pow2;
    var nqpqx, nqpqz, nqx, nqz, nqpqx2, nqpqz2, nqx2, nqz2 := StartBuffers();
    CopyInto(nqpqx, q, x1, TWO26);
    ghost var scalar: seq<int> := n[..];
    ghost var s := Fe.Ladder(1, 0, x1, 1);
    assert State(nqx, nqz, nqpqx, nqpqz, s);
    hide Distinct;
    ghost var total := Fe.EagerLadder(scalar, x1, 256, s);
    Fe.EagerIsRfc(scalar, x1, 256, s, false);
    var i := 0;
    while i < 32
      invariant 0 <= i <= 32
      invariant Buffers(nqx, nqz, nqpqx, nqpqz, nqx2, nqz2, nqpqx2, nqpqz2)
      invariant fresh({nqx, nqz, nqpqx, nqpqz, nqx2, nqz2, nqpqx2, nqpqz2})
      invariant State(nqx, nqz, nqpqx, nqpqz, s)
      invariant Fe.EagerLadder(scalar, x1, 256 - 8 * i, s) == total
    {
      var byte: int := n[31 - i];
      StartOfByte(byte);
      var j := 0;
      while j < 8
        invariant 0 <= j <= 8
        invariant Buffers(nqx, nqz, nqpqx, nqpqz, nqx2, nqz2, nqpqx2, nqpqz2)
        invariant fresh({nqx, nqz, nqpqx, nqpqz, nqx2, nqz2, nqpqx2, nqpqz2})
        invariant State(nqx, nqz, nqpqx, nqpqz, s)
        invariant 0 <= byte < 0x100 && byte == scalar[31 - i] * Bytes.Pow2(j) % 0x100
        invariant Fe.EagerLadder(scalar, x1, 256 - 8 * i - j, s) == total
      {
        var bit := byte / 0x80;
        NextBit(scalar, x1, i, j, byte, s);
        Rotated(nqx, nqz, nqpqx, nqpqz, nqx2, nqz2, nqpqx2, nqpqz2);
        SwappedStep(nqx2, nqz2, nqpqx2, nqpqz2, nqx, nqz, nqpqx, nqpqz, q, bit, s, x1);
        nqx, nqx2 := nqx2, nqx;
        nqz, nqz2 := nqz2, nqz;
        nqpqx, nqpqx2 := nqpqx2, nqpqx;
        nqpqz, nqpqz2 := nqpqz2, nqpqz;
        s := Fe.EagerStep(x1, s, bit == 1);
        byte := byte * 2 % 0x100;
        j := j + 1;
      }
      i := i + 1;
    }
    NoBits(scalar, x1, s);
    CopyInto(resultx, nqx, s.x2, TWO26);
    CopyInto(resultz, nqz, s.z2, TWO26);
  }

  lemma NoBits(scalar: seq<int>, x1: int, s: Fe.Ladder)
    ensures Fe.EagerLadder(scalar, x1, 0, s) == s
  {
  }

  lemma StartOfByte(byte: uint8)
    ensures byte == byte * Bytes.Pow2(0) % 0x100
  {
  }

  /** One turn of the inner loop consumes the next lower bit of the scalar. */
  lemma NextBit(scalar: seq<int>, x1: int, i: nat, j: nat, byte: uint8, s: Fe.Ladder)
    requires |scalar| == 32 && i < 32 && j < 8 && 0 <= scalar[31 - i] < 0x100
    requires byte == scalar[31 - i] * Bytes.Pow2(j) % 0x100
    ensures byte / 0x80 == 0 || byte / 0x80 == 1
    ensures Fe.EagerLadder(scalar, x1, 256 - 8 * i - j, s)
         == Fe.EagerLadder(scalar, x1, 256 - 8 * i - (j + 1), Fe.EagerStep(x1, s, byte / 0x80 == 1))
    ensures 0 <= byte * 2 % 0x100 < 0x100 && byte * 2 % 0x100 == scalar[31 - i] * Bytes.Pow2(j + 1) % 0x100
  {
    hide Fe.Step, Bytes.Pow2, Fe.EagerStep;
    TopBit(scalar[31 - i], byte, j);
    var t := 256 - 8 * i - (j + 1);
    DivModUnique(t, 8, 31 - i, 7 - j);
  }
}
