/** Little-endian numbers: the meaning of the byte buffers that scalars and field elements travel in. */
module Bytes {
  import opened Arith
  import opened Words

  function Pow2(n: nat): (r: int)
    ensures 1 <= r
  {
    if n == 0 then 1 else 2 * Pow2(n - 1)
  }

  lemma {:induction false} Pow2Adds(m: nat, n: nat)
    ensures Pow2(m + n) == Pow2(m) * Pow2(n)
  {
    if m > 0 {
      Pow2Adds(m - 1, n);
      Associates(2, Pow2(m - 1), Pow2(n));
    }
  }

  lemma Pow2Doubled(m: nat, n: nat)
    requires n == 2 * m
    ensures Pow2(n) == Pow2(m) * Pow2(m)
  {
    Pow2Adds(m, m);
  }

  lemma Pow2Byte(n: nat)
    requires n == 8
    ensures Pow2(n) == 0x100
  {
    assert Pow2(n) == 2 * Pow2(n - 1) == 4 * Pow2(n - 2) == 8 * Pow2(n - 3) == 16 * Pow2(n - 4);
    assert Pow2(n - 4) == 2 * Pow2(n - 5) == 4 * Pow2(n - 6) == 8 * Pow2(n - 7) == 16 * Pow2(n - 8);
  }

  /** The powers of two that are word and buffer sizes. */
  lemma Pow2Word(n: nat)
    requires n == 64 || n == 128 || n == 256
    ensures n == 64 ==> Pow2(n) == TWO64
    ensures n == 128 ==> Pow2(n) == TWO128
    ensures n == 256 ==> Pow2(n) == TWO128 * TWO128
  {
    hide Pow2;
    var m: nat := 8;
    Pow2Byte(m);
    Pow2Doubled(m, m + m);
    Pow2Doubled(m + m, 4 * m);
    Pow2Doubled(4 * m, 8 * m);
    Pow2Doubled(8 * m, 16 * m);
    Pow2Doubled(16 * m, 32 * m);
  }

  lemma Pow2Next(n: nat)
    ensures Pow2(n + 8) == 0x100 * Pow2(n)
  {
    var m: nat := 8;
    Pow2Byte(m);
    Pow2Adds(m, n);
  }

  /** The number a little-endian byte sequence stands for. */
  function Le(s: seq<uint8>): (r: int)
    ensures 0 <= r
  {
    if |s| == 0 then 0 else s[0] + 0x100 * Le(s[1..])
  }

  /** The `n` low bytes of `v`, least significant first. */
  function ToLe(n: nat, v: int): (s: seq<uint8>)
    requires 0 <= v
    ensures |s| == n
  {
    if n == 0 then [] else [v % 0x100] + ToLe(n - 1, v / 0x100)
  }

  lemma {:induction false} LeBound(s: seq<uint8>)
    ensures Le(s) < Pow2(8 * |s|)
  {
    if |s| > 0 {
      LeBound(s[1..]);
      Pow2Next(8 * (|s| - 1));
    }
  }

  lemma ShiftRemainder(v: int, p: int)
    requires 0 <= v && 0 < p
    ensures v % (0x100 * p) == 0x100 * (v / 0x100 % p) + v % 0x100
  {
    var u := v / 0x100;
    var q, r := u / p, u % p;
    assert u == p * q + r;
    assert 0x100 * (p * q) == (0x100 * p) * q;
    DivModUnique(v, 0x100 * p, q, 0x100 * r + v % 0x100);
  }

  /** Decoding inverts encoding modulo the buffer size. */
  lemma {:induction false} LeOfToLe(n: nat, v: int)
    requires 0 <= v
    ensures Le(ToLe(n, v)) == v % Pow2(8 * n)
  {
    if n > 0 {
      LeOfToLe(n - 1, v / 0x100);
      assert ToLe(n, v)[1..] == ToLe(n - 1, v / 0x100);
      Pow2Next(8 * (n - 1));
      ShiftRemainder(v, Pow2(8 * (n - 1)));
    }
  }

  /** A byte sequence is the only encoding of its number at its length. */
  lemma {:induction false} ToLeOfLe(s: seq<uint8>)
    ensures ToLe(|s|, Le(s)) == s
  {
    if |s| > 0 {
      ToLeOfLe(s[1..]);
      DivModUnique(Le(s), 0x100, Le(s[1..]), s[0]);
    }
  }

  lemma {:induction false} LeConcat(a: seq<uint8>, b: seq<uint8>)
    ensures Le(a + b) == Le(a) + Pow2(8 * |a|) * Le(b)
  {
    if |a| == 0 {
      assert a + b == b;
    } else {
      LeConcat(a[1..], b);
      assert (a + b)[1..] == a[1..] + b;
      Pow2Next(8 * (|a| - 1));
      var p := Pow2(8 * (|a| - 1));
      assert 0x100 * (p * Le(b)) == (0x100 * p) * Le(b);
    }
  }

  lemma {:induction false} LeZeros(n: nat)
    ensures Le(seq(n, i => 0)) == 0
  {
    if n > 0 {
      LeZeros(n - 1);
      assert seq(n, i => 0)[1..] == seq(n - 1, i => 0);
    }
  }

  /** Trailing zero bytes add nothing. */
  lemma LePadded(s: seq<uint8>, n: nat)
    ensures Le(s + seq(n, i => 0)) == Le(s)
  {
    LeZeros(n);
    LeConcat(s, seq(n, i => 0));
    assert Pow2(8 * |s|) * 0 == 0;
  }

  /** Little-endian bytes whose first is a multiple of eight and whose last has bit 6 as its highest bit. */
  lemma ClampedNumber(s: seq<uint8>)
    requires |s| == 32 && s[0] % 8 == 0 && 0x40 <= s[31] < 0x80
    ensures Le(s) % 8 == 0 && Pow2(254) <= Le(s) < Pow2(255)
  {
    hide Pow2, Le;
    var low, high := s[..31], s[31..];
    assert s == low + high;
    LeConcat(low, high);
    LeBound(low);
    LeSingle(high);
    Pow2Six(8 * |low|);
    TopDigit(Pow2(8 * |low|), Le(low), s[31]);
    FirstByte(s);
  }

  lemma LeSingle(s: seq<uint8>)
    requires |s| == 1
    ensures Le(s) == s[0]
  {
  }

  lemma TopDigit(p: int, v: int, b: int)
    requires 0 <= v < p && 0x40 <= b < 0x80
    ensures 0x40 * p <= v + p * b < 0x80 * p
  {
    MulBounds(p, 0x40, p, b);
    MulBounds(p, b, p, 0x7f);
  }

  lemma Pow2Six(n: nat)
    ensures Pow2(n + 6) == 0x40 * Pow2(n) && Pow2(n + 7) == 0x80 * Pow2(n)
  {
    assert Pow2(n + 7) == 2 * Pow2(n + 6) == 4 * Pow2(n + 5) == 8 * Pow2(n + 4);
    assert Pow2(n + 4) == 2 * Pow2(n + 3) == 4 * Pow2(n + 2) == 8 * Pow2(n + 1) == 16 * Pow2(n);
  }

  lemma FirstByte(s: seq<uint8>)
    requires |s| > 0 && s[0] % 8 == 0
    ensures Le(s) % 8 == 0
  {
  }
}
