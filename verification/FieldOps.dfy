/** The in-place limb operations of the field: product, square, and the two reductions. */
module FieldOps {
  import opened Arith
  import opened Words
  import opened Field25519

  /** Equal modulo the field prime. */
  ghost predicate Cong(x: int, y: int) {
    (x - y) % P == 0
  }

  lemma CongBy(x: int, y: int, k: int)
    requires x == y + P * k
    ensures Cong(x, y)
  {
    DivModUnique(x - y, P, k, 0);
  }

  lemma CongTrans(x: int, y: int, z: int)
    requires Cong(x, y) && Cong(y, z)
    ensures Cong(x, z)
  {
    CongBy(x, z, (x - y) / P + (y - z) / P);
  }

  lemma CongResidue(x: int, y: int)
    requires Cong(x, y)
    ensures x % P == y % P
  {
    DivModUnique(x, P, y / P + (x - y) / P, y % P);
  }

  method FProduct(output: array<int64>, in2: array<int64>, in1: array<int64>)
    requires output.Length >= 19 && in2.Length >= 10 && in1.Length >= 10 && output != in2 && output != in1
    requires Below(in2[..], 10, TWO27) && Below(in1[..], 10, TWO27)
    modifies output
    ensures Below(output[..], 19, 14 * TWO54)
    ensures Limbs(output[..], 0, 19) == Val(in2[..]) * Val(in1[..])
  {
    hide ProductLimbs, Limbs;
    var a: seq<int>, b: seq<int> := in2[..10], in1[..10];
    var t := ProductLimbs(a, b);
    ProductBound(a, b);
    ProductValue(a, b);
    forall k | 0 <= k < 19 {
      output[k] := t[k];
    }
    LimbsSame(output[..], t, 0, 19);
    LimbsSame(in2[..], a, 0, 10);
    LimbsSame(in1[..], b, 0, 10);
  }

  method FSquareInner(output: array<int64>, input: array<int64>)
    requires output.Length >= 19 && input.Length >= 10 && output != input && Below(input[..], 10, TWO27)
    modifies output
    ensures Below(output[..], 19, 14 * TWO54)
    ensures Limbs(output[..], 0, 19) == Val(input[..]) * Val(input[..])
  {
    hide ProductLimbs, SquareLimbs, Limbs;
    var a: seq<int> := input[..10];
    var t := SquareLimbs(a);
    SquareIsProduct(a);
    ProductBound(a, a);
    ProductValue(a, a);
    forall k | 0 <= k < 19 {
      output[k] := t[k];
    }
    LimbsSame(output[..], t, 0, 19);
    LimbsSame(input[..], a, 0, 10);
  }

  lemma {:induction false} LimbsSame(s: seq<int>, t: seq<int>, k: nat, n: nat)
    requires k <= n <= |s| && n <= |t| && forall i :: k <= i < n ==> s[i] == t[i]
    ensures Limbs(s, k, n) == Limbs(t, k, n)
    decreases n - k
  {
    if k < n {
      LimbsSame(s, t, k + 1, n);
    }
  }

  /** Adds nineteen times limb `k + 10` to limb `k`, by shifts. */
  method AddNineteen(output: array<int64>, k: nat)
    requires output.Length >= 19 && k < 9
    requires -14 * TWO54 < output[k] < 14 * TWO54 && -14 * TWO54 < output[k + 10] < 14 * TWO54
    modifies output
    ensures output[k] == old(output[k]) + 19 * old(output[k + 10])
    ensures forall i :: 0 <= i < output.Length && i != k ==> output[i] == old(output[i])
  {
    var sixteen: int64, two: int64 := output[k + 10] * 16, output[k + 10] * 2;
    output[k] := output[k] + sixteen;
    output[k] := output[k] + two;
    output[k] := output[k] + output[k + 10];
  }

  /** Folds the limbs from position ten down: their weight is 2^255 times that of the first, which is 19 modulo the
      prime. */
  method FReduceDegree(output: array<int64>)
    requires output.Length >= 19 && Below(output[..], 19, 14 * TWO54)
    modifies output
    ensures Below(output[..], 10, 280 * TWO54)
    ensures Cong(Val(output[..]), old(Limbs(output[..], 0, 19)))
  {
    hide Limbs;
    ghost var before := output[..];
    var i := 9;
    while i > 0
      invariant 0 <= i <= 9
      invariant forall j :: i <= j < 9 ==> output[j] == before[j] + 19 * before[j + 10]
      invariant forall j :: 0 <= j < output.Length && !(i <= j < 9) ==> output[j] == before[j]
    {
      i := i - 1;
      AddNineteen(output, i);
    }
    FoldedBound(before, output[..]);
    Folded(before, output[..], 0);
    LimbsSplit(before);
  }

  lemma FoldedBound(s: seq<int>, t: seq<int>)
    requires |s| >= 19 && |t| >= 10 && Below(s, 19, 14 * TWO54)
    requires (forall j :: 0 <= j < 9 ==> t[j] == s[j] + 19 * s[j + 10]) && t[9] == s[9]
    ensures Below(t, 10, 280 * TWO54)
  {
    forall i | 0 <= i < 10
      ensures -280 * TWO54 < t[i] < 280 * TWO54
    {
      if i < 9 {
        assert t[i] == s[i] + 19 * s[i + 10];
      }
    }
  }

  /** Folding written limb by limb, from limb `k` on. */
  lemma {:induction false} Folded(s: seq<int>, t: seq<int>, k: nat)
    requires |s| >= 19 && |t| >= 10 && k <= 9
    requires (forall j :: k <= j < 9 ==> t[j] == s[j] + 19 * s[j + 10]) && t[9] == s[9]
    ensures Limbs(t, k, 10) == Limbs(s, k, 10) + 19 * Limbs(s, k + 10, 19)
    decreases 9 - k
  {
    if k == 9 {
      LimbsStep(t, 9, 10);
      LimbsStep(s, 9, 10);
      LimbsEmpty(s, 19);
      assert Limbs(t, 10, 10) == Limbs(s, 10, 10) == 0;
    } else {
      Folded(s, t, k + 1);
      assert Width(k + 10) == Width(k);
      LimbsStep(s, k, 10);
      LimbsStep(t, k, 10);
      LimbsStep(s, k + 10, 19);
    }
  }

  lemma LimbsEmpty(s: seq<int>, n: nat)
    requires n <= |s|
    ensures Limbs(s, n, n) == 0
  {
  }

  lemma LimbsSplit(s: seq<int>)
    requires |s| >= 19
    ensures Cong(Limbs(s, 0, 10) + 19 * Limbs(s, 10, 19), Limbs(s, 0, 19))
  {
    hide Limbs;
    LimbsTen(s, 0, 19);
    LimbsTen(s, 0, 10);
    LimbsEmpty(s, 10);
    CongBy(Limbs(s, 0, 10) + 19 * Limbs(s, 10, 19), Limbs(s, 0, 19), -Limbs(s, 10, 19));
  }

  /** `v / d` rounded towards zero, by adding `d - 1` to a negative dividend before the arithmetic shift. */
  function DivByShift(v: int64, d: int): (q: int64)
    requires d == TWO25 || d == TWO26
    ensures -d < v - d * q < d
    ensures 0 <= v ==> 0 <= d * q <= v
    ensures v <= 0 ==> v <= d * q <= 0
  {
    var roundoff := if v < 0 then d - 1 else 0;
    (v + roundoff) / d
  }

  /** Moves the part of limb `k` above its width to limb `k + 1`. */
  method Carry(output: array<int64>, k: nat)
    requires output.Length >= 11 && k < 10
    requires -300 * TWO54 < output[k] < 300 * TWO54 && -300 * TWO54 < output[k + 1] < 300 * TWO54
    modifies output
    ensures -Width(k) < output[k] < Width(k)
    ensures Moved(old(output[k]), old(output[k + 1]), output[k + 1], Width(k))
    ensures forall i :: 0 <= i < output.Length && i != k && i != k + 1 ==> output[i] == old(output[i])
    ensures Limbs(output[..], 0, 11) == old(Limbs(output[..], 0, 11))
  {
    hide Limbs;
    ghost var before := output[..];
    var over := DivByShift(output[k], Width(k));
    var back: int64 := over * Width(k);
    output[k] := output[k] - back;
    output[k + 1] := output[k + 1] + over;
    CarryKeeps(before, output[..], 0, k, over, 11);
  }

  /** A carry is at most the limb it comes from, in units of its width. */
  ghost predicate Moved(v: int, from: int, to: int, width: int) {
    (0 <= v ==> 0 <= width * (to - from) <= v) && (v <= 0 ==> v <= width * (to - from) <= 0)
  }

  lemma {:induction false} CarryKeeps(s: seq<int>, t: seq<int>, i: nat, k: nat, over: int, n: nat)
    requires |s| == |t| && i <= k && k + 1 < n <= |s|
    requires t == s[k := s[k] - over * Width(k)][k + 1 := s[k + 1] + over]
    ensures Limbs(t, i, n) == Limbs(s, i, n)
    decreases k - i
  {
    hide Limbs;
    LimbsStep(s, i, n);
    LimbsStep(t, i, n);
    if i < k {
      CarryKeeps(s, t, i + 1, k, over, n);
    } else {
      LimbsStep(s, k + 1, n);
      LimbsStep(t, k + 1, n);
      LimbsSame(s, t, k + 2, n);
    }
  }

  /** Two carry passes bring every limb below 2^26; the carry out of limb nine comes back nineteen-fold. */
  method FReduceCoefficients(output: array<int64>)
    requires output.Length >= 11 && Below(output[..], 10, 280 * TWO54)
    modifies output
    ensures Below(output[..], 10, TWO26)
    ensures Cong(Val(output[..]), old(Val(output[..])))
  {
    hide Limbs;
    ghost var before := output[..];
    output[10] := 0;
    LimbsSame(before, output[..], 0, 10);
    LimbsEleven(output[..]);
    ghost var total := Limbs(output[..], 0, 11);
    var i := 0;
    while i < 10
      invariant 0 <= i <= 10 && i % 2 == 0
      invariant Limbs(output[..], 0, 11) == total
      invariant forall j :: 0 <= j < i ==> -Width(j) < output[j] < Width(j)
      invariant forall j :: i < j < 10 ==> -280 * TWO54 < output[j] < 280 * TWO54
      invariant i < 10 ==> -281 * TWO54 < output[i] < 281 * TWO54 && output[10] == 0
      invariant i == 10 ==> -281 * 0x2000_0000 < output[10] < 281 * 0x2000_0000
    {
      Carry(output, i);
      Carry(output, i + 1);
      i := i + 2;
    }
    FoldTop(output);
    ghost var folded := output[..];
    Carry(output, 0);
    LimbsEleven(output[..]);
    LimbsEleven(folded);
  }

  lemma LimbsEleven(s: seq<int>)
    requires |s| >= 11
    ensures Limbs(s, 0, 11) == Val(s) + TWO255 * s[10]
  {
    hide Limbs;
    LimbsTen(s, 0, 11);
    LimbsTen(s, 0, 10);
    LimbsEmpty(s, 10);
    LimbsLast(s, 10);
  }

  /** Brings limb ten back into limb zero nineteen-fold and clears it. */
  method FoldTop(output: array<int64>)
    requires output.Length >= 11 && -TWO26 < output[0] < TWO26 && -281 * 0x2000_0000 < output[10] < 281 * 0x2000_0000
    modifies output
    ensures output[0] == old(output[0]) + 19 * old(output[10]) && output[10] == 0
    ensures forall i :: 1 <= i < output.Length && i != 10 ==> output[i] == old(output[i])
    ensures Cong(Val(output[..]), old(Limbs(output[..], 0, 11)))
  {
    hide Limbs;
    ghost var before := output[..];
    var sixteen: int64, two: int64 := output[10] * 16, output[10] * 2;
    output[0] := output[0] + sixteen;
    output[0] := output[0] + two;
    output[0] := output[0] + output[10];
    output[10] := 0;
    LimbsStep(before, 0, 10);
    LimbsStep(output[..], 0, 10);
    LimbsSame(before, output[..], 1, 10);
    LimbsEleven(before);
    CongBy(Val(output[..]), Limbs(before, 0, 11), -before[10]);
  }

  method FMul(output: array<int64>, input: array<int64>, in2: array<int64>)
    requires output.Length >= 10 && input.Length >= 10 && in2.Length >= 10
    requires Below(input[..], 10, TWO27) && Below(in2[..], 10, TWO27)
    modifies output
    ensures Below(output[..], 10, TWO26)
    ensures Cong(Val(output[..]), old(Val(input[..]) * Val(in2[..])))
  {
    hide Limbs;
    ghost var product := Val(input[..]) * Val(in2[..]);
    var t := new int64[19];
    FProduct(t, input, in2);
    FReduceDegree(t);
    ghost var mid := Val(t[..]);
    FReduceCoefficients(t);
    CongTrans(Val(t[..]), mid, product);
    CopyTen(output, t);
  }

  method FSquare(output: array<int64>, input: array<int64>)
    requires output.Length >= 10 && input.Length >= 10 && Below(input[..], 10, TWO27)
    modifies output
    ensures Below(output[..], 10, TWO26)
    ensures Cong(Val(output[..]), old(Val(input[..]) * Val(input[..])))
  {
    hide Limbs;
    ghost var product := Val(input[..]) * Val(input[..]);
    var t := new int64[19];
    FSquareInner(t, input);
    FReduceDegree(t);
    ghost var mid := Val(t[..]);
    FReduceCoefficients(t);
    CongTrans(Val(t[..]), mid, product);
    CopyTen(output, t);
  }

  method CopyTen(output: array<int64>, input: array<int64>)
    requires output.Length >= 10 && input.Length >= 10
    modifies output
    ensures output[..10] == old(input[..10]) && output[10..] == old(output[10..])
    ensures Val(output[..]) == old(Val(input[..]))
    ensures forall bound :: old(Below(input[..], 10, bound)) ==> Below(output[..], 10, bound)
  {
    hide Limbs;
    ghost var before := input[..];
    forall k | 0 <= k < 10 {
      output[k] := input[k];
    }
    LimbsSame(output[..], before, 0, 10);
  }
}
