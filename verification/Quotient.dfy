/** The quotient that a ladder ends with: common factors cancel, given Fermat's theorem. */
module Quotient {
  import opened Arith
  import opened Field25519
  import opened Recip
  import Fe

  /** Fermat's theorem for the prime of the field. */
  ghost predicate Fermat() {
    forall a :: a % P != 0 ==> Pow(a, P - 1) == 1
  }

  /** `x / z` as the code computes it. */
  function Ratio(x: int, z: int): int {
    Fe.Mul(x, Pow(z, P - 2))
  }

  /** Powers in the field are residues of integer powers. */
  lemma {:induction false} PowIs(g: int, n: nat)
    ensures Pow(g, n) == Fe.Exp(g, n) % P
  {
    if n > 0 {
      PowIs(g, n - 1);
      hide Pow, Fe.Exp;
      Fe.MulOfResidues(g, Fe.Exp(g, n - 1));
      Fe.MulOfResidues(g, Pow(g, n - 1));
      ResidueTwice(Fe.Exp(g, n - 1));
    }
  }

  /** Powers of a power of `g` may be taken in either order. */
  lemma {:induction false} ExpSwapped(g: int, i: nat, n: nat)
    ensures Fe.Exp(Fe.Exp(g, i), n) == Fe.Exp(Fe.Exp(g, n), i)
    decreases i
  {
    if i == 0 {
      ExpOne(n);
    } else {
      ExpSwapped(g, i - 1, n);
      ExpProduct(g, Fe.Exp(g, i - 1), n);
    }
  }

  lemma {:induction false} ExpOne(n: nat)
    ensures Fe.Exp(1, n) == 1
  {
    if n > 0 {
      ExpOne(n - 1);
    }
  }

  lemma {:induction false} ExpProduct(g: int, h: int, n: nat)
    ensures Fe.Exp(g * h, n) == Fe.Exp(g, n) * Fe.Exp(h, n)
    decreases n
  {
    if n > 0 {
      ExpProduct(g, h, n - 1);
      FourFactors(g, h, Fe.Exp(g, n - 1), Fe.Exp(h, n - 1));
    }
  }

  /** Powers of one are one. */
  lemma {:induction false} ExpOfOne(h: int, i: nat)
    requires h % P == 1
    ensures Fe.Exp(h, i) % P == 1
    decreases i
  {
    if i > 0 {
      ExpOfOne(h, i - 1);
      Fe.MulOfResidues(h, Fe.Exp(h, i - 1));
      MulOne(1);
    }
  }

  /** Powers of a factor `l` between two elements pass to their powers. */
  lemma {:induction false} TimesPow(l: int, x: int, y: int, n: nat)
    requires Fe.Times(l, x, y)
    ensures Fe.Times(Fe.Exp(l, n), Pow(x, n), Pow(y, n))
    decreases n
  {
    hide Fe.Times, Fe.Mul;
    if n == 0 {
      Fe.TimesBy(1, 1, 1, 0);
    } else {
      TimesPow(l, x, y, n - 1);
      Fe.TimesProduct(l, Fe.Exp(l, n - 1), x, Pow(x, n - 1), y, Pow(y, n - 1));
    }
  }

  lemma TimesOne(l: int, x: int, y: int)
    requires l % P == 1 && Fe.Times(l, x, y) && 0 <= x < P && 0 <= y < P
    ensures x == y
  {
    var j, k := (x - l * y) / P, l / P;
    assert l == P * k + 1;
    assert l * y == P * (k * y) + y by { assert (P * k + 1) * y == P * k * y + y; }
    DivModUnique(x, P, j + k * y, y);
    DivModUnique(x, P, 0, x);
  }

  /** A common factor that is a power of a nonzero element cancels from the quotient. */
  lemma RatioScaled(g: int, i: nat, x: int, z: int, u: int, v: int)
    requires Fermat() && g % P != 0 && Fe.Times(Fe.Exp(g, i), x, u) && Fe.Times(Fe.Exp(g, i), z, v)
    ensures Ratio(x, z) == Ratio(u, v)
  {
    hide Fe.Times, Fe.Exp, Fe.Mul, Pow, Fermat;
    var l := Fe.Exp(g, i);
    var n := P - 2;
    TimesPow(l, z, v, n);
    Fe.TimesProduct(l, Fe.Exp(l, n), x, Pow(z, n), u, Pow(v, n));
    OneMoreFactor(l, n);
    ExpSwapped(g, i, n + 1);
    FermatAt(g);
    PowIs(g, n + 1);
    ExpOfOne(Fe.Exp(g, n + 1), i);
    Fe.Reduced(x, Pow(z, n));
    Fe.Reduced(u, Pow(v, n));
    TimesOne(l * Fe.Exp(l, n), Ratio(x, z), Ratio(u, v));
  }

  /** The quotient is what it is called: times `z` it is `x`. */
  lemma RatioIs(x: int, z: int)
    requires Fermat() && z % P != 0
    ensures Fe.Mul(Ratio(x, z), z) == x % P
  {
    hide Fermat, Pow, Fe.Mul;
    var n := P - 2;
    FermatAt(z);
    NextPower(z, n);
    MulAssociates(x, Pow(z, n), z);
    Fe.Commutes(Pow(z, n), z);
    TimesUnit(x);
  }

  lemma NextPower(z: int, n: nat)
    ensures Pow(z, n + 1) == Fe.Mul(z, Pow(z, n))
  {
  }

  lemma TimesUnit(x: int)
    ensures Fe.Mul(x, 1) == x % P
  {
  }

  lemma OneMoreFactor(l: int, n: nat)
    ensures Fe.Exp(l, n + 1) == l * Fe.Exp(l, n)
  {
  }

  lemma FermatAt(a: int)
    requires Fermat() && a % P != 0
    ensures Pow(a, P - 1) == 1
  {
  }

  lemma FourTimesNonzero(x: int)
    requires 0 < x < P
    ensures 4 * x % P != 0
  {
  }

  /** The 256 steps of the code and the 255 steps of RFC 7748 give the same quotient for every scalar whose top bit is
      clear and every base coordinate, zero included. */
  lemma SameRatio(n: seq<int>, x1: int)
    requires Fermat() && |n| == 32 && !Fe.Bit(n, 255) && 0 <= x1 < P
    ensures var s := Fe.Ladder(1, 0, x1, 1);
            var a, b := Fe.RfcLadder(n, x1, 256, s, false), Fe.RfcLadder(n, x1, 255, s, false);
            Ratio(a.x2, a.z2) == Ratio(b.x2, b.z2)
  {
    hide Fermat, Fe.RfcLadder, Fe.Bit, Ratio, Fe.Exp, Fe.Times;
    if x1 == 0 {
      Fe.ZeroBase(n, 256);
      Fe.ZeroBase(n, 255);
      var s := Fe.Ladder(1, 0, x1, 1);
      RatioOfInfinity(Fe.RfcLadder(n, x1, 256, s, false).x2);
      RatioOfInfinity(Fe.RfcLadder(n, x1, 255, s, false).x2);
    } else {
      var p, q := Fe.TopBitClear(n, x1);
      FourTimesNonzero(x1);
      var s := Fe.Ladder(1, 0, x1, 1);
      var a, b := Fe.RfcLadder(n, x1, 256, s, false), Fe.RfcLadder(n, x1, 255, s, false);
      RatioScaled(4 * x1, p, a.x2, a.z2, b.x2, b.z2);
    }
  }

  lemma RatioOfInfinity(x: int)
    ensures Ratio(x, 0) == 0
  {
    hide Fe.Mul;
    var n := P - 2;
    assert Pow(0, n) == Fe.Mul(0, Pow(0, n - 1));
    Fe.Zeros(Pow(0, n - 1));
    Fe.Zeros(x);
    Fe.Commutes(x, 0);
  }
}
