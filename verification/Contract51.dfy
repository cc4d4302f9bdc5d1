/** Five-limb field elements to and from bytes. */
module Contract51 {
  import opened Arith
  import opened Words
  import opened Bytes
  import opened Field25519
  import opened FieldOps
  import opened Field51
  import ModmCodec

  const TWO12: int := 0x1000
  const TWO13: int := 0x2000
  const TWO38: int := 0x40_0000_0000
  const TWO39: int := 0x80_0000_0000

  /** Four words cut into limbs of 51 bits; the top bit is dropped. */
  method Expand(out: array<uint64>, input: seq<uint8>)
    requires out.Length == 5 && |input| == 32
    modifies out
    ensures Limbed(out) && ValueOf(out) == Le(input) % TWO255
  {
    hide Le, ModmCodec.Words4;
    var x0, x1 := ModmCodec.Load64(input[..8]), ModmCodec.Load64(input[8..16]);
    var x2, x3 := ModmCodec.Load64(input[16..24]), ModmCodec.Load64(input[24..]);
    ModmCodec.LeOfWords(input);
    var r0 := x0 % Q51;
    var r1 := ModmCodec.Straddle(x0, Q51, x1, TWO13, Q51, TWO38, TWO13);
    var r2 := ModmCodec.Straddle(x1, TWO38, x2, TWO26, Q51, TWO25, TWO13);
    var r3 := ModmCodec.Straddle(x2, TWO25, x3, TWO39, Q51, TWO12, TWO13);
    var r4 := x3 / TWO12 % Q51;
    Joined(x0, x1, x2, x3, r0, r1, r2, r3, r4);
    out[0], out[1], out[2], out[3], out[4] := r0, r1, r2, r3, r4;
  }

  lemma Joined(x0: int, x1: int, x2: int, x3: int, r0: int, r1: int, r2: int, r3: int, r4: int)
    requires 0 <= x0 < TWO64 && 0 <= x1 < TWO64 && 0 <= x2 < TWO64 && 0 <= x3 < TWO64
    requires r0 == x0 % Q51 && r1 == x0 / Q51 + TWO13 * (x1 % TWO38) && x0 / Q51 < TWO13
    requires r2 == x1 / TWO38 + TWO26 * (x2 % TWO25) && x1 / TWO38 < TWO26
    requires r3 == x2 / TWO25 + TWO39 * (x3 % TWO12) && x2 / TWO25 < TWO39 && r4 == x3 / TWO12 % Q51
    ensures Fits(r0, r1, r2, r3, r4) && V5(r0, r1, r2, r3, r4) == ModmCodec.Words4(x0, x1, x2, x3) % TWO255
  {
    var top := x3 / TWO12 / Q51;
    assert x3 / TWO12 == Q51 * top + r4;
    DivModUnique(ModmCodec.Words4(x0, x1, x2, x3), TWO255, top, V5(r0, r1, r2, r3, r4));
  }

  /** Limbs within 51 bits. */
  predicate Reduced5(a: int, b: int, c: int, d: int, e: int) {
    0 <= a < Q51 && 0 <= b < Q51 && 0 <= c < Q51 && 0 <= d < Q51 && 0 <= e < Q51
  }

  /** Carries from each limb to the next; the top limb keeps what reaches it. */
  method CarryUp(t0: uint64, t1: uint64, t2: uint64, t3: uint64, t4: uint64)
    returns (r0: uint64, r1: uint64, r2: uint64, r3: uint64, r4: uint64)
    requires t0 < TWO63 && t1 < TWO63 && t2 < TWO63 && t3 < TWO63 && t4 < TWO63
    ensures r0 < Q51 && r1 < Q51 && r2 < Q51 && r3 < Q51 && r4 < TWO63 + TWO13
    ensures V5(r0, r1, r2, r3, r4) == V5(t0, t1, t2, t3, t4)
  {
    hide V5;
    var u1: uint64 := t1 + t0 / Q51;
    r0 := t0 % Q51;
    var u2: uint64 := t2 + u1 / Q51;
    r1 := u1 % Q51;
    var u3: uint64 := t3 + u2 / Q51;
    r2 := u2 % Q51;
    r4 := t4 + u3 / Q51;
    r3 := u3 % Q51;
    Moved5(t0, t1, t2, t3, t4, t0 / Q51, u1 / Q51, u2 / Q51, u3 / Q51, r0, r1, r2, r3, r4);
  }

  lemma Moved5(t0: int, t1: int, t2: int, t3: int, t4: int, c0: int, c1: int, c2: int, c3: int,
               r0: int, r1: int, r2: int, r3: int, r4: int)
    requires t0 == r0 + Q51 * c0 && t1 + c0 == r1 + Q51 * c1 && t2 + c1 == r2 + Q51 * c2 && t3 + c2 == r3 + Q51 * c3
    requires r4 == t4 + c3
    ensures V5(r0, r1, r2, r3, r4) == V5(t0, t1, t2, t3, t4)
  {
  }

  /** A carry pass whose top carry comes back nineteen-fold: the value loses 2^255 for each nineteen it gains. */
  method CarryFull(t0: uint64, t1: uint64, t2: uint64, t3: uint64, t4: uint64)
    returns (r0: uint64, r1: uint64, r2: uint64, r3: uint64, r4: uint64, ghost c: int)
    requires t0 < TWO63 && t1 < TWO63 && t2 < TWO63 && t3 < TWO63 && t4 < TWO63
    ensures 0 <= c <= TWO13 && Reduced5(r0 - 19 * c, r1, r2, r3, r4)
    ensures V5(r0, r1, r2, r3, r4) == V5(t0, t1, t2, t3, t4) - P * c
    ensures V5(t0, t1, t2, t3, t4) - TWO255 * c == V5(r0 - 19 * c, r1, r2, r3, r4)
  {
    var u4: uint64;
    hide V5;
    r0, r1, r2, r3, u4 := CarryUp(t0, t1, t2, t3, t4);
    var k: int := u4 / Q51;
    c := k;
    ghost var x0 := r0;
    r0 := r0 + 19 * k;
    r4 := u4 % Q51;
    Folded5(x0, r1, r2, r3, u4, r4, k);
  }

  lemma Folded5(x0: int, r1: int, r2: int, r3: int, u4: int, r4: int, k: int)
    requires u4 == r4 + Q51 * k
    ensures V5(x0 + 19 * k, r1, r2, r3, r4) == V5(x0, r1, r2, r3, u4) - P * k
    ensures V5(x0, r1, r2, r3, u4) - TWO255 * k == V5(x0, r1, r2, r3, r4)
  {
  }

  lemma ReducedBound(a: int, b: int, c: int, d: int, e: int)
    requires Reduced5(a, b, c, d, e)
    ensures 0 <= V5(a, b, c, d, e) < TWO255 && a <= V5(a, b, c, d, e)
  {
  }

  /** Two passes leave a number below 2^255 in reduced limbs. */
  method Settle(t0: uint64, t1: uint64, t2: uint64, t3: uint64, t4: uint64)
    returns (r0: uint64, r1: uint64, r2: uint64, r3: uint64, r4: uint64)
    requires t0 < TWO63 && t1 < TWO63 && t2 < TWO63 && t3 < TWO63 && t4 < TWO63
    ensures Reduced5(r0, r1, r2, r3, r4) && V5(r0, r1, r2, r3, r4) % P == V5(t0, t1, t2, t3, t4) % P
  {
    hide V5;
    ghost var c1, c2;
    r0, r1, r2, r3, r4, c1 := CarryFull(t0, t1, t2, t3, t4);
    ghost var a0, v1 := r0 - 19 * c1, V5(r0, r1, r2, r3, r4);
    ReducedBound(a0, r1, r2, r3, r4);
    Shift5(a0, 19 * c1, r1, r2, r3, r4);
    r0, r1, r2, r3, r4, c2 := CarryFull(r0, r1, r2, r3, r4);
    ghost var b0 := r0 - 19 * c2;
    ReducedBound(b0, r1, r2, r3, r4);
    SmallTop(v1, c2, V5(b0, r1, r2, r3, r4), b0);
    CongBy(v1, V5(t0, t1, t2, t3, t4), -c1);
    CongBy(V5(r0, r1, r2, r3, r4), v1, -c2);
    CongResidue(v1, V5(t0, t1, t2, t3, t4));
    CongResidue(V5(r0, r1, r2, r3, r4), v1);
  }

  lemma Shift5(a0: int, k: int, r1: int, r2: int, r3: int, r4: int)
    ensures V5(a0 + k, r1, r2, r3, r4) == V5(a0, r1, r2, r3, r4) + k
  {
  }

  /** A second top carry means that what is left is tiny. */
  lemma SmallTop(v: int, c: int, rest: int, low: int)
    requires 0 <= v < TWO255 + 20 * TWO13 && 0 <= rest < TWO255 && v - TWO255 * c == rest && 0 <= low <= rest && 0 <= c
    requires low < Q51
    ensures low + 19 * c < Q51 && c <= 1
  {
  }

  /** Adding nineteen makes a number at least the prime pass 2^255, which takes the prime off it. */
  method AddNineteen5(t0: uint64, t1: uint64, t2: uint64, t3: uint64, t4: uint64)
    returns (r0: uint64, r1: uint64, r2: uint64, r3: uint64, r4: uint64)
    requires Reduced5(t0, t1, t2, t3, t4)
    ensures Reduced5(r0, r1, r2, r3, r4) && V5(r0, r1, r2, r3, r4) == V5(t0, t1, t2, t3, t4) % P + 19
  {
    hide V5;
    ghost var c, v := 0, V5(t0, t1, t2, t3, t4);
    ReducedBound(t0, t1, t2, t3, t4);
    Shift5(t0, 19, t1, t2, t3, t4);
    r0, r1, r2, r3, r4, c := CarryFull(t0 + 19, t1, t2, t3, t4);
    ghost var b0 := r0 - 19 * c;
    ReducedBound(b0, r1, r2, r3, r4);
    SmallTop(v + 19, c, V5(b0, r1, r2, r3, r4), b0);
    DivModUnique(v, P, c, v - P * c);
  }

  /** Takes the nineteen off again through a full turn of 2^255. */
  method TakeNineteen(t0: uint64, t1: uint64, t2: uint64, t3: uint64, t4: uint64)
    returns (r0: uint64, r1: uint64, r2: uint64, r3: uint64, r4: uint64)
    requires Reduced5(t0, t1, t2, t3, t4) && 19 <= V5(t0, t1, t2, t3, t4)
    ensures Reduced5(r0, r1, r2, r3, r4) && V5(r0, r1, r2, r3, r4) == V5(t0, t1, t2, t3, t4) - 19
  {
    hide V5;
    ReducedBound(t0, t1, t2, t3, t4);
    var u4: uint64;
    r0, r1, r2, r3, u4 := CarryUp(t0 + (Q51 - 19), t1 + (Q51 - 1), t2 + (Q51 - 1), t3 + (Q51 - 1), t4 + (Q51 - 1));
    FullTurn(t0, t1, t2, t3, t4);
    r4 := u4 % Q51;
    Folded5(r0, r1, r2, r3, u4, r4, u4 / Q51);
    ReducedBound(r0, r1, r2, r3, r4);
    OneTurn(V5(t0, t1, t2, t3, t4) - 19, u4 / Q51, V5(r0, r1, r2, r3, r4));
  }

  lemma FullTurn(t0: int, t1: int, t2: int, t3: int, t4: int)
    ensures V5(t0 + (Q51 - 19), t1 + (Q51 - 1), t2 + (Q51 - 1), t3 + (Q51 - 1), t4 + (Q51 - 1))
         == V5(t0, t1, t2, t3, t4) + TWO255 - 19
  {
  }

  lemma OneTurn(v: int, k: int, rest: int)
    requires 0 <= v < TWO255 && 0 <= rest < TWO255 && v + TWO255 - TWO255 * k == rest
    ensures rest == v
  {
  }

  /** Four words of the encoding from reduced limbs. */
  method PackWords5(t0: uint64, t1: uint64, t2: uint64, t3: uint64, t4: uint64)
    returns (w0: uint64, w1: uint64, w2: uint64, w3: uint64)
    requires Reduced5(t0, t1, t2, t3, t4)
    ensures ModmCodec.Words4(w0, w1, w2, w3) == V5(t0, t1, t2, t3, t4)
  {
    w0 := ModmCodec.PackWord(t0, t1, TWO13, Q51);
    w1 := ModmCodec.PackWord(t1 / TWO13, t2, TWO26, TWO38);
    w2 := ModmCodec.PackWord(t2 / TWO26, t3, TWO39, TWO25);
    w3 := ModmCodec.PackWord(t3 / TWO39, t4, 2 * Q51, TWO12);
  }

  /** The canonical encoding: the number modulo the prime, in 32 little-endian bytes. */
  method Contract(input: array<uint64>) returns (out: seq<uint8>)
    requires input.Length == 5
    requires input[0] < TWO63 && input[1] < TWO63 && input[2] < TWO63 && input[3] < TWO63 && input[4] < TWO63
    ensures out == ToLe(32, ValueOf(input) % P)
  {
    hide Le, ToLe, V5, ModmCodec.Words4, Reduced5;
    var t0, t1, t2, t3, t4 := Settle(input[0], input[1], input[2], input[3], input[4]);
    t0, t1, t2, t3, t4 := AddNineteen5(t0, t1, t2, t3, t4);
    t0, t1, t2, t3, t4 := TakeNineteen(t0, t1, t2, t3, t4);
    var w0, w1, w2, w3 := PackWords5(t0, t1, t2, t3, t4);
    ModmCodec.StoreLoad(w0);
    ModmCodec.StoreLoad(w1);
    ModmCodec.StoreLoad(w2);
    ModmCodec.StoreLoad(w3);
    out := ToLe(8, w0) + ToLe(8, w1) + ToLe(8, w2) + ToLe(8, w3);
    ModmCodec.LeOfWords(out);
    assert out[..8] == ToLe(8, w0) && out[8..16] == ToLe(8, w1) && out[16..24] == ToLe(8, w2)
           && out[24..] == ToLe(8, w3);
    ToLeOfLe(out);
  }

  /** Two numbers have the same encoding exactly when they are congruent, whichever form of limbs they came from. */
  lemma EncodingsAgree(x: int, y: int)
    ensures ToLe(32, x % P) == ToLe(32, y % P) <==> Cong(x, y)
  {
    hide ToLe, Le, Pow2;
    if Cong(x, y) {
      CongResidue(x, y);
    }
    if ToLe(32, x % P) == ToLe(32, y % P) {
      LeOfToLe(32, x % P);
      LeOfToLe(32, y % P);
      var n: nat := 256;
      Pow2Word(n);
      DivModUnique(x % P, TWO128 * TWO128, 0, x % P);
      DivModUnique(y % P, TWO128 * TWO128, 0, y % P);
      CongBy(x, y, x / P - y / P);
    }
  }
}
